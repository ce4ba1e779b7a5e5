/**
 The network as the model sees it: an oracle from a request URL to what the client got back.
 Timeouts, connection errors and every other exception raised by the client are `Failed`.
 */
module Http {
  import opened Wrappers
  import Json

  datatype Outcome =
    | Failed(reason: string)
      /** A completed exchange; `body` is `None` when the payload is not valid JSON. */
    | Response(status: int, body: Option<Json.Value>)

  /** One GET request per call. */
  type Fetch = string -> Outcome
}
