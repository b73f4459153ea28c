/**
 * The Request class of main2.cpp (and the same code inlined in main.cpp):
 * splitting a URL into host and path, and the HTTP/1.1 GET request that
 * is sent for them. A Request never changes after construction, so it is
 * a datatype here; its constructor is the function Split.
 */
module Url {
  import opened Wrappers
  import opened Search

  /** The one error the constructor throws: invalid_argument("Invalid URL: Missing protocol"). */
  datatype UrlError = MissingProtocol

  /** What separates the protocol from the host. */
  const Separator: string := "://"

  const CRLF: string := "\r\n"

  /** An empty line after the last field line ends the header section (section 2.1 of RFC 9112). */
  const HeaderSectionEnd: string := "\r\n\r\n"

  datatype Request = Request(host: string, path: string) {

    function GetHost(): string { host }

    function GetPath(): string { path }

    /**
     * The request sent to the server: the request line, the Host line and
     * the Connection line, each ended by CR LF, then an empty line. The
     * connection is always asked to close.
     */
    function GetRequest(): (r: string)
      ensures r == Lines("GET " + path + " HTTP/1.1", "Host: " + host, "Connection: close")
    {
      "GET " + path + " HTTP/1.1\r\n" + "Host: " + host + "\r\n" + "Connection: close\r\n\r\n"
    }
  }

  /** request-line = method SP request-target SP HTTP-version CRLF (section 3 of RFC 9112). */
  function RequestLine(verb: string, target: string): string {
    verb + " " + target + " " + "HTTP/1.1" + CRLF
  }

  /** A field line with a single space before its value (section 5 of RFC 9112). */
  function FieldLine(name: string, value: string): string {
    name + ": " + value + CRLF
  }

  /**
   * Request::Request(url): the host runs from just after the first "://" to
   * the next '/' or the end; the path is the rest from that '/', or "/".
   */
  function Split(url: string): (r: Result<Request, UrlError>)
    ensures r.Failure? <==> !Contains(url, Separator)
    ensures r.Failure? ==> r.error == MissingProtocol
  {
    match FindFrom(url, Separator, 0)
    case None => Failure(MissingProtocol)
    case Some(k) =>
      var hostStart := k + |Separator|;
      var pathStart := FindChar(url, '/', hostStart);
      var host := if pathStart.None? then url[hostStart..] else url[hostStart..pathStart.value];
      var path := if pathStart.None? then "/" else url[pathStart.value..];
      Success(Request(host, path))
  }

  /** Where the host starts: just after the first "://". */
  function HostStart(url: string): (start: nat)
    requires Contains(url, Separator)
    ensures |Separator| <= start <= |url| && url[start - |Separator|..start] == Separator
    ensures forall j: nat :: j + |Separator| < start ==> !OccursAt(url, Separator, j)
  {
    var k := FindFrom(url, Separator, 0).value;
    assert url[k..k + |Separator|] == Separator;
    k + |Separator|
  }

  /** The host never contains '/'; the path is never empty and starts with '/'. */
  lemma SplitShape(url: string)
    requires Split(url).Success?
    ensures '/' !in Split(url).value.GetHost()
    ensures |Split(url).value.GetPath()| > 0 && Split(url).value.GetPath()[0] == '/'
  {
    var start := HostStart(url);
    var host := Split(url).value.host;
    var pathStart := FindChar(url, '/', start);
    var stop := if pathStart.None? then |url| else pathStart.value;
    assert host == url[start..stop];
    forall i | 0 <= i < |host|
      ensures host[i] != '/'
    {
      assert host[i] == url[start + i];
    }
  }

  /** The host and path that Split stores, in terms of where the next '/' is. */
  lemma SplitParts(url: string)
    requires Split(url).Success?
    ensures var start := HostStart(url);
            var slash := FindChar(url, '/', start);
            Split(url).value.host == (if slash.None? then url[start..] else url[start..slash.value]) &&
            Split(url).value.path == (if slash.None? then "/" else url[slash.value..])
  {
  }

  /**
   * Round trip: the URL up to and including the first "://", then the host,
   * then the path give back the URL when a '/' follows the host.
   */
  lemma SplitRoundTrip(url: string)
    requires Split(url).Success?
    requires '/' in url[HostStart(url)..]
    ensures url == url[..HostStart(url)] + Split(url).value.GetHost() + Split(url).value.GetPath()
  {
    var start := HostStart(url);
    SlashFound(url, start);
    SplitParts(url);
    var p := FindChar(url, '/', start).value;
    var q := Split(url).value;
    assert q.host == url[start..p] && q.path == url[p..];
    ThreeParts(url, start, p);
  }

  lemma ThreeParts(s: string, i: nat, j: nat)
    requires i <= j <= |s|
    ensures s == s[..i] + s[i..j] + s[j..]
  {
  }

  lemma SlashFound(url: string, start: nat)
    requires start <= |url| && '/' in url[start..]
    ensures FindChar(url, '/', start).Some?
  {
    var i :| 0 <= i < |url[start..]| && url[start..][i] == '/';
    assert url[start + i] == '/';
  }

  /** When no '/' follows the host, the URL ends with the host and the path is the default "/". */
  lemma SplitRoundTripNoPath(url: string)
    requires Split(url).Success?
    requires '/' !in url[HostStart(url)..]
    ensures url == url[..HostStart(url)] + Split(url).value.GetHost()
    ensures Split(url).value.GetPath() == "/"
  {
    var start := HostStart(url);
    SplitParts(url);
    assert url == url[..start] + url[start..];
  }

  /**
   * Conversely, any URL written as a prefix ending at its first "://", a host
   * without '/', and either nothing or a suffix starting with '/' is split
   * into exactly that host and that suffix (or "/").
   */
  lemma SplitCharacterized(url: string, k: nat, host: string, rest: string)
    requires OccursAt(url, Separator, k)
    requires forall j: nat :: j < k ==> !OccursAt(url, Separator, j)
    requires '/' !in host
    requires rest == [] || rest[0] == '/'
    requires url == url[..k + |Separator|] + host + rest
    ensures Split(url) == Success(Request(host, if rest == [] then "/" else rest))
  {
    FindFromIsFirst(url, Separator, 0, k);
    var start := k + |Separator|;
    assert HostStart(url) == start;
    var stop := start + |host|;
    forall i | start <= i < stop
      ensures url[i] != '/'
    {
      assert url[i] == host[i - start];
    }
    var slash := FindChar(url, '/', start);
    if rest == [] {
      assert slash.None?;
      assert url[start..] == host;
    } else {
      assert url[stop] == rest[0];
      assert slash == Some(stop);
      assert url[start..stop] == host;
      assert url[stop..] == rest;
    }
    SplitParts(url);
  }

  /** An empty host is accepted: only a missing protocol is an error. */
  lemma EmptyHostAccepted()
    ensures Split("http://") == Success(Request("", "/"))
  {
    var u := "http://";
    forall j: nat | j < 4
      ensures !OccursAt(u, Separator, j)
    {
      MismatchRulesOut(u, Separator, j, 0);
    }
    assert u[..7] == u;
    SplitCharacterized(u, 4, "", "");
  }

  /** An empty host followed by a path is accepted too. */
  lemma EmptyHostWithPathAccepted()
    ensures Split("http:///x") == Success(Request("", "/x"))
  {
    var u := "http:///x";
    forall j: nat | j < 4
      ensures !OccursAt(u, Separator, j)
    {
      MismatchRulesOut(u, Separator, j, 0);
    }
    assert u[..7] + "" + "/x" == u;
    SplitCharacterized(u, 4, "", "/x");
  }

  /** A URL with no ':' at all (a bare host name, say) has no protocol and is refused. */
  lemma NoColonRejected(url: string)
    requires ':' !in url
    ensures Split(url) == Failure(MissingProtocol)
  {
    forall i: nat
      ensures !OccursAt(url, Separator, i)
    {
      if i < |url| {
        assert url[i] in url;
        MismatchRulesOut(url, Separator, i, 0);
      }
    }
  }

  /** In CR-free text followed by CR LF, the first CR LF from the start of that text is the one after it. */
  lemma LineEnd(pre: string, line: string, rest: string)
    requires '\r' !in line
    ensures FindFrom(pre + line + CRLF + rest, CRLF, |pre|) == Some(|pre| + |line|)
  {
    var s := pre + line + CRLF + rest;
    forall j: nat | |pre| <= j < |pre| + |line|
      ensures !OccursAt(s, CRLF, j)
    {
      assert s[j] == line[j - |pre|];
      MismatchRulesOut(s, CRLF, j, 0);
    }
    assert s[|pre| + |line|..|pre| + |line| + 2] == CRLF;
    FindFromIsFirst(s, CRLF, |pre|, |pre| + |line|);
  }

  /** Three lines x, y, z, each ended by CR LF, then an empty line. */
  function Lines(x: string, y: string, z: string): string {
    x + CRLF + y + CRLF + z + CRLF + CRLF
  }

  /** In such a message the first line is x. */
  lemma FirstLine(x: string, y: string, z: string)
    requires '\r' !in x
    ensures var m := Lines(x, y, z);
            FindFrom(m, CRLF, 0) == Some(|x|) && m[..|x|] == x
  {
    var rest := y + CRLF + z + CRLF + CRLF;
    assert Lines(x, y, z) == [] + x + CRLF + rest;
    LineEnd([], x, rest);
  }

  /** A CR-free stretch of text from position from that is followed by CR LF ends at the first CR LF from there. */
  lemma LineEndAt(s: string, from: nat, stop: nat)
    requires from <= stop && stop + 2 <= |s|
    requires forall i :: from <= i < stop ==> s[i] != '\r'
    requires s[stop..stop + 2] == CRLF
    ensures FindFrom(s, CRLF, from) == Some(stop)
  {
    forall j: nat | from <= j < stop
      ensures !OccursAt(s, CRLF, j)
    {
      MismatchRulesOut(s, CRLF, j, 0);
    }
    FindFromIsFirst(s, CRLF, from, stop);
  }

  /** Where the second line of such a message lies. */
  lemma SecondLineText(x: string, y: string, z: string)
    requires '\r' !in y
    ensures var m, from := Lines(x, y, z), |x| + 2;
            from + |y| + 2 <= |m| && m[from..from + |y|] == y &&
            (forall i :: from <= i < from + |y| ==> m[i] != '\r') &&
            m[from + |y|..from + |y| + 2] == CRLF
  {
    var m := Lines(x, y, z);
    forall i | |x| + 2 <= i < |x| + 2 + |y|
      ensures m[i] == y[i - |x| - 2]
    {
    }
  }

  /** In such a message the second line is y. */
  lemma SecondLine(x: string, y: string, z: string)
    requires '\r' !in y
    ensures var m := Lines(x, y, z);
            FindFrom(m, CRLF, |x| + 2) == Some(|x| + 2 + |y|) && m[|x| + 2..|x| + 2 + |y|] == y
  {
    SecondLineText(x, y, z);
    SecondLineEnd(x, y, z);
  }

  /** The search for the end of the second line stops where that line ends. */
  lemma SecondLineEnd(x: string, y: string, z: string)
    requires var m, from := Lines(x, y, z), |x| + 2;
            from + |y| + 2 <= |m| &&
            (forall i :: from <= i < from + |y| ==> m[i] != '\r') &&
            m[from + |y|..from + |y| + 2] == CRLF
    ensures FindFrom(Lines(x, y, z), CRLF, |x| + 2) == Some(|x| + 2 + |y|)
  {
    LineEndAt(Lines(x, y, z), |x| + 2, |x| + 2 + |y|);
  }

  /** In such a message, when y and z are not empty, the first empty line is the last one. */
  lemma LinesEndAtBlankLine(x: string, y: string, z: string)
    requires '\r' !in x && '\r' !in y && '\r' !in z && |y| > 0 && |z| > 0
    ensures var m := Lines(x, y, z);
            FindFrom(m, HeaderSectionEnd, 0) == Some(|m| - |HeaderSectionEnd|)
  {
    var m := Lines(x, y, z);
    var a := |x|;
    var b := a + 2 + |y|;
    var c := |m| - 4;
    assert c == b + 2 + |z|;
    forall j: nat | j < c
      ensures !OccursAt(m, HeaderSectionEnd, j)
    {
      if j < a {
        assert m[j] == x[j];
        MismatchRulesOut(m, HeaderSectionEnd, j, 0);
      } else if j == a {
        assert m[j + 2] == y[0];
        MismatchRulesOut(m, HeaderSectionEnd, j, 2);
      } else if j == a + 1 || j == b + 1 {
        MismatchRulesOut(m, HeaderSectionEnd, j, 0);
      } else if j < b {
        assert m[j] == y[j - a - 2];
        MismatchRulesOut(m, HeaderSectionEnd, j, 0);
      } else if j == b {
        assert m[j + 2] == z[0];
        MismatchRulesOut(m, HeaderSectionEnd, j, 2);
      } else {
        assert m[j] == z[j - b - 2];
        MismatchRulesOut(m, HeaderSectionEnd, j, 0);
      }
    }
    assert m[c..c + 4] == HeaderSectionEnd;
    FindFromIsFirst(m, HeaderSectionEnd, 0, c);
  }

  /**
   * The request is a GET request line (section 3 of RFC 9112), the Host
   * and Connection field lines (section 5), and the empty line that ends
   * the header section.
   */
  lemma RequestFollowsRfc9112(q: Request)
    ensures q.GetRequest() ==
      RequestLine("GET", q.path) + FieldLine("Host", q.host) + FieldLine("Connection", "close") + CRLF
  {
  }

  /**
   * When neither host nor path holds a CR, the first empty line of the
   * request is its last line: a receiver finds the end of the header
   * section exactly at the end of the request.
   */
  lemma RequestHeaderSectionEnds(q: Request)
    requires '\r' !in q.host && '\r' !in q.path
    ensures FindFrom(q.GetRequest(), HeaderSectionEnd, 0) == Some(|q.GetRequest()| - |HeaderSectionEnd|)
  {
    LinesEndAtBlankLine("GET " + q.path + " HTTP/1.1", "Host: " + q.host, "Connection: close");
  }

  /**
   * When neither host nor path holds a CR, the first line of the request is
   * the request line "GET <path> HTTP/1.1" and the second the field line
   * "Host: <host>".
   */
  lemma RequestLineThenHost(q: Request)
    requires '\r' !in q.host && '\r' !in q.path
    ensures var r, line, field := q.GetRequest(), "GET " + q.path + " HTTP/1.1", "Host: " + q.host;
            FindFrom(r, CRLF, 0) == Some(|line|) && r[..|line|] == line &&
            FindFrom(r, CRLF, |line| + 2) == Some(|line| + 2 + |field|) &&
            r[|line| + 2..|line| + 2 + |field|] == field
  {
    var line, field := "GET " + q.path + " HTTP/1.1", "Host: " + q.host;
    NoCrInJoin("GET ", q.path, " HTTP/1.1");
    NoCrInJoin("Host: ", q.host, "");
    FirstTwoLines(line, field, "Connection: close");
  }

  /** Joining three CR-free strings gives a CR-free string. */
  lemma NoCrInJoin(a: string, b: string, c: string)
    requires '\r' !in a && '\r' !in b && '\r' !in c
    ensures '\r' !in a + b + c
  {
  }

  /** The first two lines of a three-line message, as a receiver finds them. */
  lemma FirstTwoLines(x: string, y: string, z: string)
    requires '\r' !in x && '\r' !in y
    ensures var m := Lines(x, y, z);
            FindFrom(m, CRLF, 0) == Some(|x|) && m[..|x|] == x &&
            FindFrom(m, CRLF, |x| + 2) == Some(|x| + 2 + |y|) && m[|x| + 2..|x| + 2 + |y|] == y
  {
    FirstLine(x, y, z);
    SecondLine(x, y, z);
  }
}
