/** Optional values and the two sequence notions the extractors and the
    aggregator share: collecting the successful parses of a list, and
    order-preserving subsequences. */
module Wrappers {

  /** Python's `None`-or-value results (`Optional[...]`). */
  datatype Option<+T> = None | Some(value: T)

  /** True when every entry is a `Some`. */
  predicate AllSome<T>(xs: seq<Option<T>>) {
    forall i :: 0 <= i < |xs| ==> xs[i].Some?
  }

  /** The values of the `Some` entries, in order: the Python idiom
      `for x in xs: r = parse(x); if r: out.append(r)`. */
  function Somes<T>(xs: seq<Option<T>>): (r: seq<T>)
    ensures |r| <= |xs|
    ensures forall v :: v in r ==> Some(v) in xs
    ensures forall i :: 0 <= i < |xs| && xs[i].Some? ==> xs[i].value in r
    ensures AllSome(xs) ==> |r| == |xs| && forall i :: 0 <= i < |xs| ==> r[i] == xs[i].value
  {
    if |xs| == 0 then []
    else
      var init := Somes(xs[..|xs| - 1]);
      var last := xs[|xs| - 1];
      assert forall i :: 0 <= i < |xs| - 1 ==> xs[..|xs| - 1][i] == xs[i];
      init + (if last.Some? then [last.value] else [])
  }

  /** Collecting over a concatenation collects each part in turn, so the
      collected values keep the order of the list. */
  lemma {:induction false} SomesAppend<T>(a: seq<Option<T>>, b: seq<Option<T>>)
    ensures Somes(a + b) == Somes(a) + Somes(b)
    decreases |b|
  {
    if |b| == 0 {
      assert a + b == a;
    } else {
      var b' := b[..|b| - 1];
      assert (a + b)[..|a + b| - 1] == a + b';
      SomesAppend(a, b');
    }
  }

  lemma AppendAssoc<T>(a: seq<T>, b: seq<T>, c: seq<T>)
    ensures (a + b) + c == a + (b + c)
  {
  }

  /** The index of the first `Some` entry at or after `i`. */
  function FirstSomeFrom<T>(xs: seq<Option<T>>, i: nat): (r: Option<nat>)
    requires i <= |xs|
    ensures r.Some? ==> i <= r.value < |xs| && xs[r.value].Some?
    ensures r.Some? ==> forall j :: i <= j < r.value ==> xs[j].None?
    ensures r.None? ==> forall j :: i <= j < |xs| ==> xs[j].None?
    decreases |xs| - i
  {
    if i == |xs| then None
    else if xs[i].Some? then Some(i)
    else FirstSomeFrom(xs, i + 1)
  }

  /** `t` can be obtained from `b` by deleting elements (order kept). */
  predicate IsSubsequence<T(==)>(t: seq<T>, b: seq<T>)
    decreases |b|
  {
    if |t| == 0 then true
    else if |b| == 0 then false
    else if t[|t| - 1] == b[|b| - 1] then IsSubsequence(t[..|t| - 1], b[..|b| - 1])
    else IsSubsequence(t, b[..|b| - 1])
  }

  /** A subsequence of `b` never has more elements than `b`, and each of
      them is an element of `b`. */
  lemma {:induction false} SubsequenceElements<T>(t: seq<T>, b: seq<T>)
    requires IsSubsequence(t, b)
    ensures |t| <= |b|
    ensures forall x :: x in t ==> x in b
    decreases |b|
  {
    if |t| == 0 {
    } else if t[|t| - 1] == b[|b| - 1] {
      SubsequenceElements(t[..|t| - 1], b[..|b| - 1]);
      assert t == t[..|t| - 1] + [t[|t| - 1]];
      assert b == b[..|b| - 1] + [b[|b| - 1]];
    } else {
      SubsequenceElements(t, b[..|b| - 1]);
      assert b == b[..|b| - 1] + [b[|b| - 1]];
    }
  }

  lemma {:induction false} SubsequenceDropLast<T>(t: seq<T>, b: seq<T>)
    requires |t| > 0 && IsSubsequence(t, b)
    ensures IsSubsequence(t[..|t| - 1], b)
    decreases |b|, 0
  {
    if t[|t| - 1] == b[|b| - 1] {
      var t' := t[..|t| - 1];
      if |t'| > 0 {
        SubsequenceDropLast(t', b[..|b| - 1]);
        assert t'[..|t'| - 1] == t[..|t| - 2];
      }
      SubsequenceSkip(t', b[..|b| - 1], b[|b| - 1]);
      assert b[..|b| - 1] + [b[|b| - 1]] == b;
    } else {
      SubsequenceDropLast(t, b[..|b| - 1]);
      SubsequenceSkip(t[..|t| - 1], b[..|b| - 1], b[|b| - 1]);
      assert b[..|b| - 1] + [b[|b| - 1]] == b;
    }
  }

  /** Appending an element to the base keeps every subsequence. */
  lemma {:induction false} SubsequenceSkip<T>(t: seq<T>, b: seq<T>, x: T)
    requires IsSubsequence(t, b)
    ensures IsSubsequence(t, b + [x])
    decreases |b|, 1
  {
    var b' := b + [x];
    assert b'[..|b'| - 1] == b;
    if |t| > 0 && t[|t| - 1] == x {
      SubsequenceDropLast(t, b);
    }
  }

  /** Appending the same element to both keeps the relation. */
  lemma SubsequenceExtend<T>(t: seq<T>, b: seq<T>, x: T)
    requires IsSubsequence(t, b)
    ensures IsSubsequence(t + [x], b + [x])
  {
    assert (t + [x])[..|t + [x]| - 1] == t;
    assert (b + [x])[..|b + [x]| - 1] == b;
  }

  lemma {:induction false} SubsequenceConcat<T>(t1: seq<T>, b1: seq<T>, t2: seq<T>, b2: seq<T>)
    requires IsSubsequence(t1, b1) && IsSubsequence(t2, b2)
    ensures IsSubsequence(t1 + t2, b1 + b2)
    decreases |b2|
  {
    if |b2| == 0 {
      assert t2 == [];
      assert t1 + t2 == t1 && b1 + b2 == b1;
    } else {
      var x := b2[|b2| - 1];
      var b2' := b2[..|b2| - 1];
      assert b1 + b2 == (b1 + b2') + [x];
      if |t2| > 0 && t2[|t2| - 1] == x {
        var t2' := t2[..|t2| - 1];
        SubsequenceConcat(t1, b1, t2', b2');
        SubsequenceExtend(t1 + t2', b1 + b2', x);
        assert t1 + t2 == (t1 + t2') + [x];
      } else {
        SubsequenceConcat(t1, b1, t2, b2');
        SubsequenceSkip(t1 + t2, b1 + b2', x);
      }
    }
  }

  lemma SubsequenceRefl<T>(t: seq<T>)
    ensures IsSubsequence(t, t)
  {
    if |t| > 0 {
      SubsequenceRefl(t[..|t| - 1]);
    }
  }
}
