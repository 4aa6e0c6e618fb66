/** The `extract_board` endpoint from the model's reply to its response
    (main.py lines 69-112): the reply is cut down to JSON, parsed, and the
    grid canonicalised into a board; every failure becomes an HTTP error. */
module Extract {
  import opened Wrappers
  import opened Text
  import opened Fence
  import opened Canon

  /** What the call to the local inference server (lines 71-76) gave back. */
  datatype Upstream =
    | ConnectionFailed          // `requests.exceptions.ConnectionError`
    | Raised(message: string)   // any other exception: an error status, a body that is not JSON, a missing field
    | Reply(content: string)    // `result["choices"][0]["message"]["content"]`

  /** Why the request failed. */
  datatype Failure =
    | NotRunning                // the inference server could not be reached (lines 106-109)
    | InvalidJson               // the parser rejected the cleaned reply (line 87)
    | Error(message: string)    // the text of any other exception (line 112)

  datatype Response = Ok(board: string) | HttpError(status: int, failure: Failure)

  const SERVICE_UNAVAILABLE: int := 503
  const INTERNAL_SERVER_ERROR: int := 500

  /** Lines 69-112, with `json.loads` as the parameter `parse`. A connection
      error of any kind is a 503; any other failure is a 500. A reply the parser
      rejects is an error and never a board; a reply it accepts gives the
      board of the parsed grid. */
  method ExtractBoard(upstream: Upstream, parse: string -> Option<Grid>) returns (response: Response)
    ensures upstream.ConnectionFailed? ==> response == HttpError(SERVICE_UNAVAILABLE, NotRunning)
    ensures upstream.Raised? ==> response == HttpError(INTERNAL_SERVER_ERROR, Error(upstream.message))
    ensures upstream.Reply? && parse(ParserInput(upstream.content)).None? ==>
      response == HttpError(INTERNAL_SERVER_ERROR, InvalidJson)
    ensures upstream.Reply? && parse(ParserInput(upstream.content)).Some? ==>
      response == Ok(Board(parse(ParserInput(upstream.content)).value))
    ensures response.Ok? <==> upstream.Reply? && parse(ParserInput(upstream.content)).Some?
  {
    match upstream
    case ConnectionFailed =>
      response := HttpError(SERVICE_UNAVAILABLE, NotRunning);
    case Raised(message) =>
      response := HttpError(INTERNAL_SERVER_ERROR, Error(message));
    case Reply(content) =>
      var rawContent := content;
      if HasFence(rawContent) {
        rawContent := SplitOnFence(rawContent)[1];
        if StartsWith(Strip(rawContent), "json") {
          rawContent := Strip(rawContent)[4..];
        }
      }
      assert rawContent == Unfence(content);
      match parse(Strip(rawContent))
      case None =>
        response := HttpError(INTERNAL_SERVER_ERROR, InvalidJson);
      case Some(grid) =>
        var board := Canonicalise(grid);
        response := Ok(board);
  }
}
