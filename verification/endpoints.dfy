/** The endpoint record both extractors build (a Python dict in the
    source), the required-field gate and the deduplication id. */
module Endpoints {
  import opened Strings

  /** One row of a parameter table: `{name, type, description}`. */
  datatype Parameter = Parameter(name: string, paramType: string, description: string)

  /** The example fields: the live extractor always sets
      `example_request`/`example_response` (possibly to ""), the alternate
      one sets `example` to `None`. */
  datatype Examples =
    | RequestResponse(request: string, response: string)
    | NoExample

  datatype Endpoint = Endpoint(
    resource: string,
    name: string,
    httpMethod: string,
    path: string,
    description: string,
    parameters: seq<Parameter>,
    examples: Examples)

  /** `all(key in endpoint and endpoint[key] for key in REQUIRED_KEYS)` with
      REQUIRED_KEYS = resource, name, http_method, path, description: every
      key is always present in the records, and a string is truthy exactly
      when it is non-empty. */
  predicate HasRequiredFields(e: Endpoint) {
    && e.resource != ""
    && e.name != ""
    && e.httpMethod != ""
    && e.path != ""
    && e.description != ""
  }

  /** The deduplication id `f"{resource}_{http_method}_{path}"`. */
  function Id(e: Endpoint): string {
    e.resource + "_" + e.httpMethod + "_" + e.path
  }
}
