/**
  One HTTP GET as the script sees it. The network itself is a parameter:
  a function from the requested URL to what the server answered.
 */
module Fetching {
  import opened Wrappers
  import opened ApiKey

  /** What a GET can end in: a decoded body, an HTTP error status, or a failure before any status arrived. */
  datatype Response = Body(text: string) | HttpError(code: int) | ConnectionFailure

  /** What the scan gets back from one fetch. */
  datatype Outcome = Fetched(body: string) | NotFound | Error

  const NotFoundStatus: int := 404

  /**
    Requests the key-augmented URL and classifies the answer: the body on
    success, NotFound for status 404 only, Error for every other status and
    for every failure without a status.
   */
  function Fetch(network: string -> Response, apiKey: Option<string>, url: string): (o: Outcome)
    ensures var answer := network(AddApiKey(apiKey, url));
            && (o.Fetched? <==> answer.Body?)
            && (o.Fetched? ==> o.body == answer.text)
            && (o.NotFound? <==> answer == HttpError(NotFoundStatus))
            && (o.Error? <==> answer.ConnectionFailure? || (answer.HttpError? && answer.code != NotFoundStatus))
  {
    match network(AddApiKey(apiKey, url))
    case Body(text) => Fetched(text)
    case HttpError(code) => if code == NotFoundStatus then NotFound else Error
    case ConnectionFailure => Error
  }
}
