/**
 The request and result types of `src/types/`: `APIRequest`, and the two
 result classes `APISuccess` and `APIFailure` as the variants of one `Outcome`.
 */
module ApiTypes {
  import opened JsValues

  datatype HttpMethod = GET | HEAD | POST | PUT | DELETE | PATCH

  /** `APIRequest`: target URL, JSON body, method and headers. */
  datatype Request = Request(url: string, body: seq<Field>, httpMethod: HttpMethod, headers: seq<(string, string)>)

  /** `APIResponse`: either an `APISuccess` (status code, status text, decoded
      response, elapsed time) or an `APIFailure` (message, error code, error
      response, elapsed time). */
  datatype Outcome =
    | APISuccess(statusCode: int, status: string, response: Value, time: int)
    | APIFailure(errorMessage: string, errorCode: int, errorResponse: Value, time: int)

  /** How a piece of caller-supplied code (a hook, a decoder, the body reader)
      finishes: by returning a value or by throwing one. */
  datatype Completion = Normal(value: Value) | Thrown(error: Value)
}
