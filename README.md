# Single-shot HTTP/1.1 downloader, modelled in Dafny

The downloader fetches one file over plain HTTP/1.1. It takes a URL and an
output file name. It splits the URL into host and path, sends a `GET`
request with `Connection: close`, and reads the response until the server
closes the connection. It drops the response header and writes the rest to
the output file. The program exists twice: inlined in `main` (main.cpp) and
split into a `Request` and a `Connection` class (main2.cpp). This project
models both copies and proves what they do.

- `Search` models the two `std::string::find` overloads the code uses. Each returns the first match at or after a position, or `None` for `npos`.
- `Url` models `Request` from main2.cpp. A request never changes once built, so it is a datatype. `Split` is its constructor: a URL without `"://"` gives `Failure(MissingProtocol)`, the `invalid_argument` the constructor throws. `GetRequest`, `GetHost` and `GetPath` are its members.
- `HeaderStrip` specifies the receive loop without its flag. The socket becomes the sequence of chunks that successive `recv` calls return. An empty chunk stands for a `recv` that returned zero or less, and running past the end of the sequence counts as the peer closing. `Body` is what the loop writes. The lemmas describe that output: where it starts, how long it is, when it is empty, and where reading stops.
- `Transfer` models the `Connection` class of main2.cpp once connected. `SaveTo` is an imperative loop over a `Connection` object and an `OutputFile` object. It is proved to append exactly `Body` of what the socket still had to deliver.
- `SingleShot` models `main` of main.cpp. `Run` makes the argument-count check and the protocol check, splits the URL inline and builds the request string. It then runs the receive loop (`ReceiveLoop`). `Run` is proved to split the URL exactly as `Url.Split` does and to build the same request as `GetRequest`.

## Model

| member | source | states |
|---|---|---|
| `Search.FindFrom` | main2.cpp:20-21 | `find(str, pos)` returns the first position at or after `pos` where the pattern occurs, or `None` when it occurs nowhere from there |
| `Search.FindChar` | main2.cpp:26 | `find(ch, pos)` returns the first position at or after `pos` that holds the character, or `None` when there is none |
| `Url.Split` | main2.cpp:19-28 | the constructor fails, with `MissingProtocol`, exactly when the URL contains no `"://"` |
| `Url.HostStart` | main2.cpp:24 | the host starts just after the first `"://"`, within the URL |
| `Url.SplitShape` | main2.cpp:26-28 | the host never contains `'/'`; the path is never empty and starts with `'/'` |
| `Url.SplitRoundTrip` | main2.cpp:24-28 | when a `'/'` follows the host: URL prefix through `"://"`, then host, then path, give back the URL |
| `Url.SplitRoundTripNoPath` | main2.cpp:26-28 | when no `'/'` follows the host: URL prefix through `"://"`, then host, give back the URL, and the path is `"/"` |
| `Url.SplitCharacterized` | main2.cpp:19-28 | conversely, any first-`"://"` prefix + `'/'`-free host + (nothing or a `'/'`-led suffix) is split into exactly that host and that suffix (or `"/"`) |
| `Url.EmptyHostAccepted` | main2.cpp:20-28 | `"http://"` is accepted with an empty host and the path `"/"`: the constructor does not check the host (that only a missing `"://"` is an error is `Url.Split`'s contract) |
| `Url.EmptyHostWithPathAccepted` | main2.cpp:20-28 | `"http:///x"` is accepted with an empty host and the path `"/x"` |
| `Url.NoColonRejected` | main2.cpp:20-23 | a URL without any `':'` is rejected with `MissingProtocol` |
| `Url.Request.GetRequest` | main2.cpp:34-39 | the request is the line `GET <path> HTTP/1.1`, the line `Host: <host>` and the line `Connection: close`, each ended by CR LF, then an empty line |
| `Url.RequestFollowsRfc9112` | main2.cpp:34-39 | the request is a `GET` request line for the path (section 3 of RFC 9112), a `Host` field line for the host, a `Connection: close` field line (section 5) and the empty line that ends the header section |
| `Url.RequestHeaderSectionEnds` | main2.cpp:35-37 | if host and path hold no CR, the first CR LF CR LF of the request is its last four characters: the header section ends exactly at the end |
| `Url.RequestLineThenHost` | main2.cpp:35-36 | if host and path hold no CR, a receiver that splits the request at CR LF finds `GET <path> HTTP/1.1` as the first line and `Host: <host>` as the second |
| `HeaderStrip.LiveCount` | main2.cpp:97-99 | the loop handles exactly the reads before the first read that returns nothing |
| `HeaderStrip.AfterHeader` | main2.cpp:103-105 | the header-chunk write length `bytesRead - (headerEnd + 4)` is non-negative: the written bytes are the chunk's suffix right after its first terminator |
| `HeaderStrip.StripSnoc` | main2.cpp:101-111 | one more read appends `Written`: once a header has been seen, the whole chunk; before that, what follows the terminator of a chunk that holds one, and nothing for any other chunk; until a header has been seen nothing has been written |
| `HeaderStrip.HeaderSeenSnoc` | main2.cpp:101-106 | after one more read the `headerEnded` flag is set exactly when it was already set or the new chunk holds a terminator, so it never goes back to false |
| `HeaderStrip.ReadStep` | main2.cpp:97-111 | the loop's flag and written bytes after i reads are `HeaderSeen` and `Strip` of those reads; one more non-empty read keeps this, setting the flag if the chunk holds a terminator |
| `HeaderStrip.ReadEnd` | main2.cpp:98-99 | when the next read returns nothing, or there is none, the reads so far are exactly the live ones and the bytes written are `Body` |
| `HeaderStrip.StripFromFirstHeader` | main2.cpp:101-111 | the output is the rest of the first chunk holding a terminator, then every later chunk in order |
| `HeaderStrip.StripWithoutHeader` | main2.cpp:101-108 | with no chunk holding a terminator, nothing is written |
| `HeaderStrip.BodyFromFirstHeaderChunk` | main2.cpp:97-112 | the file holds the bytes after the first terminator of the first live chunk that holds one, then every later live chunk verbatim; its length is that chunk's remainder plus the later chunk sizes |
| `HeaderStrip.BodyWithoutTerminator` | main2.cpp:101-108 | if no single live chunk holds CR LF CR LF, the file stays empty |
| `HeaderStrip.BodyStopsAtEmptyRead` | main2.cpp:98-99 | reading stops at the first empty read; nothing after it reaches the file |
| `HeaderStrip.StraddledTerminatorLost` | main2.cpp:101-108 | a terminator split across two reads is never found: the stream `CR LF | CR LF 'A'` writes nothing |
| `HeaderStrip.StraddledTerminatorKept` | main2.cpp:101-108 | the corrected specification keeps the `'A'` of that stream |
| `HeaderStrip.BodyAgreesWhenHeaderInFirstRead` | main2.cpp:101-111 | when the first read holds the whole terminator, the loop as written and the corrected one write the same bytes |
| `HeaderStrip.SaveToBuffered` | main2.cpp:93-112 | the corrected loop writes exactly the bytes after the first terminator of the whole received stream |
| `Transfer.ReadsTaken` | main2.cpp:97-99 | `SaveTo` consumes every live read plus the empty read that stops it, if there is one |
| `Transfer.OutputFile.constructor` | main2.cpp:129 | the output file starts empty |
| `Transfer.OutputFile.Write` | main2.cpp:105 | a write appends its bytes to the file |
| `Transfer.Connection.constructor` | main2.cpp:56-61 | a connection delivers the given reads in order |
| `Transfer.Connection.Recv` | main2.cpp:98 | `recv` returns the next chunk, or nothing once the peer has closed |
| `Transfer.Connection.SaveTo` | main2.cpp:93-112 | the file gains exactly `Body` of the pending reads, and the socket has been read up to and including the first empty read |
| `SingleShot.Run` | main.cpp:9-101 | a wrong argument count, or a URL without `"://"`, returns 1 with no request and no file; otherwise it returns 0, with host and path equal to `Url.Split`'s, the request equal to `GetRequest`'s, and the file equal to `Body` |
| `SingleShot.ReceiveLoop` | main.cpp:77-95 | the receive loop of `main` writes exactly `Body` of the reads |

## Left out

- Socket creation, `gethostbyname`, `connect`, `send` and `close` are operating-system calls. Their failures in main.cpp (exit code 1 at lines 35-38, 42-46 and 56-60) and main2.cpp (the `runtime_error`s at lines 58-60, 70-73 and 83-86) are not modelled. The request is computed but not transmitted.
- `recv` appears only as its sequence of results. The 4096-byte buffer bound on each read is not modelled, because no property depends on it.
- `fopen`, `fwrite`, `fclose`, `ofstream` and all console output are I/O. The output file is a byte sequence that writes append to. `Usage`, `Host:`/`Path:` and `File downloaded` messages are dropped.
- SingleShot.Run: assumes the socket, name resolution, connection and `fopen` all succeed, because these are operating-system results the model does not have. It states nothing about their failure paths.
- `main` of main2.cpp repeats the argument check of main.cpp and lets exceptions escape. Its control flow is runtime behaviour and is not modelled. `Request`, `Connection` and `SaveTo`, which it calls, are modelled.
- The address setup with `memset`/`memcpy` and `htons(80)` is raw structure plumbing.
- `GetHost` and `GetPath` return the stored fields. They carry no contract of their own; the `Url` lemmas are stated through them.
- The HTTP status line is never inspected by either program, and neither is the model: an error response's body is written like any other.

## Findings

| source | as written | input that shows it | evidently intended | confidence | as-written member | corrected member |
|---|---|---|---|---|---|---|
| main2.cpp:101-108 | the header terminator is searched for inside each `recv` chunk on its own (main.cpp:83-91 does the same) | reads `[CR, LF]` then `[CR, LF, 'A']`: the stream holds CR LF CR LF 'A', but no chunk holds the whole terminator, so nothing is written | write the bytes after the first CR LF CR LF of the whole stream, however `recv` splits it | not executed; a TCP stream may be split at any byte | `HeaderStrip.StraddledTerminatorLost` | `HeaderStrip.SaveToBuffered` |

`Transfer.Connection.SaveTo` and `SingleShot.ReceiveLoop` model the loop as written. `HeaderStrip.SaveToBuffered` is the corrected loop, and it is proved against `HeaderStrip.StreamBody`. `HeaderStrip.BodyAgreesWhenHeaderInFirstRead` shows the two agree whenever the first read holds the whole terminator.
