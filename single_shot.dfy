/**
 * main in main.cpp: the whole download inlined in one function. The checks
 * on the arguments and on the URL come first; then the request is built
 * and the response read in a loop that drops the header. Creating,
 * resolving and connecting the socket and opening the output file are
 * taken to succeed; the socket is replaced by the chunks it would deliver.
 */
module SingleShot {
  import opened Wrappers
  import opened Search
  import Url
  import opened HeaderStrip

  /** How main ends. */
  datatype Outcome =
    | WrongArgumentCount
    | NoProtocol
    | Downloaded(host: string, path: string, request: string, file: seq<byte>)

  /**
   * argv holds the program name, the URL and the output file name. With
   * another argument count, or with a URL lacking "://", main returns 1
   * before any request is built or any file written; otherwise it splits
   * the URL by the same rules as Request::Request, sends the same request
   * as Request::GetRequest and writes the body as the receive loop finds it.
   */
  method Run(argv: seq<string>, received: seq<Chunk>) returns (exitCode: int, outcome: Outcome)
    ensures exitCode == (if outcome.Downloaded? then 0 else 1)
    ensures |argv| != 3 <==> outcome == WrongArgumentCount
    ensures |argv| == 3 ==> (outcome == NoProtocol <==> !Contains(argv[1], Url.Separator))
    ensures outcome.Downloaded? ==>
      |argv| == 3 && Url.Split(argv[1]) == Success(Url.Request(outcome.host, outcome.path))
    ensures outcome.Downloaded? ==> outcome.request == Url.Request(outcome.host, outcome.path).GetRequest()
    ensures outcome.Downloaded? ==> outcome.file == Body(received)
  {
    if |argv| != 3 {
      return 1, WrongArgumentCount;
    }
    var url := argv[1];

    var protocol := FindFrom(url, "://", 0);
    if protocol.None? {
      return 1, NoProtocol;
    }
    var hostStart := protocol.value + 3;
    var pathStart := FindChar(url, '/', hostStart);
    var host := if pathStart.None? then url[hostStart..] else url[hostStart..pathStart.value];
    var path := if pathStart.None? then "/" else url[pathStart.value..];

    var request := "GET " + path + " HTTP/1.1\r\n" + "Host: " + host + "\r\n" + "Connection: close\r\n\r\n";

    var file := ReceiveLoop(received);
    return 0, Downloaded(host, path, request, file);
  }

  /**
   * The receive loop of main: reads until a read returns nothing, drops
   * everything up to and including the first CR LF CR LF found inside one
   * read, and appends every later read whole.
   */
  method ReceiveLoop(received: seq<Chunk>) returns (file: seq<byte>)
    ensures file == Body(received)
  {
    file := [];
    var headerEnded := false;
    var i := 0;
    while true
      invariant ReadSoFar(received, i, headerEnded, file)
      decreases |received| - i
    {
      var chunk := if i < |received| then received[i] else [];
      if |chunk| == 0 {
        ReadEnd(received, i, headerEnded, file);
        break;
      }
      ReadStep(received, i, headerEnded, file);
      i := i + 1;
      if !headerEnded {
        var headerEnd := FindFrom(chunk, Terminator, 0);
        if headerEnd.Some? {
          var start := headerEnd.value + |Terminator|;
          file := file + chunk[start..start + (|chunk| - start)];
          headerEnded := true;
        }
      } else {
        file := file + chunk;
      }
    }
  }
}
