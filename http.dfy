/** What the handlers exchange with the outside world: the result of one
    upstream GET-and-decode, and what they write back to the client. */
module Http {

  datatype Option<T> = None | Some(value: T)

  /** Why an upstream call produced no value: the GET itself failed, or the
      body did not decode into the expected shape. */
  datatype FetchError = Transport | Decode

  /** The result of one upstream GET-and-decode. */
  datatype Fetch<T> = Got(value: T) | Failed(error: FetchError)

  /** The status code a caller hands to GetAndDecode: 500 for the service's
      own endpoint, 503 for an external API. */
  datatype ServiceCode = Internal | External

  /** One `http.Error` written to the client. */
  datatype HttpError = HttpError(status: int, message: string)

  /** One write to the response: an error, or the JSON-encoded answer. */
  datatype Write<T> = ErrorWrite(error: HttpError) | JsonWrite(body: T)

  /** How a request ends: with the writes it made, or never (a wait that is
      never released), or with a runtime panic that drops the connection. */
  datatype Outcome<T> = Finished(writes: seq<Write<T>>) | Stalled | Panicked

  /** The error GetAndDecode writes when it cannot produce a value. */
  function GetAndDecodeError(e: FetchError, code: ServiceCode, url: string): HttpError
  {
    match e
    case Transport =>
      if code.Internal? then HttpError(500, "Error: Internal service unavailable")
      else HttpError(503, "Error: External service unavailable")
    case Decode => HttpError(500, "Error during decoding of response at " + url)
  }

  /** The status the client sees: the first write fixes it, and a response
      whose first write is the JSON body is a 200. */
  function StatusOf<T>(writes: seq<Write<T>>): int
  {
    if writes == [] then 200
    else match writes[0]
      case ErrorWrite(e) => e.status
      case JsonWrite(_) => 200
  }

  /** Whether the request wrote a JSON body. */
  predicate AnswersJson<T>(o: Outcome<T>)
  {
    o.Finished? && exists i :: 0 <= i < |o.writes| && o.writes[i].JsonWrite?
  }
}
