/** Proxy/Proxy.cc: the GET request that the proxy sends on to the server after a cache miss.

    The proxy's parser of the request line is that of Http/httpRequest.cc, restricted to GET. */
module Proxy {
  import opened Options
  import opened HttpRequest
  import opened HttpContent
  import Cache

  /** What `ParseRequestLine` leaves in `path_` and `version_` when it accepts a line. */
  function Accepted(before: Request, line: string): Option<Request> {
    var (r, outcome) := ParseLine(before, line);
    if outcome == Good && r.method_ == Get then Some(r) else None
  }

  /** The text of the first write before it is cut. */
  function RequestLineText(path: string, version: Version): string {
    "GET " + path + (if version == Http10 then " HTTP/1.0" + CRLF else " HTTP/1.1" + CRLF)
  }

  /** The two writes of `onServerMessage`; the first is passed on as a C string. */
  function Forwarded(path: string, version: Version): string {
    Cache.CString(RequestLineText(path, version)) + CRLF
  }

  lemma {:induction false} CStringAppend(a: string, b: string)
    ensures Cache.CString(a + b) == if '\0' in a then Cache.CString(a) else a + Cache.CString(b)
  {
    if |a| > 0 && a[0] != '\0' {
      CStringAppend(a[1..], b);
      assert a == [a[0]] + a[1..];
      assert (a + b)[1..] == a[1..] + b;
    } else {
      assert |a| == 0 ==> a + b == b;
    }
  }

  lemma NoCrlfInside(line: string, i: nat, k: nat)
    requires NoCrlf(line) && i <= k <= |line|
    ensures NoCrlf(line[i..k])
  {
    var s := line[i..k];
    forall j | 0 <= j < |s|
      ensures !IsCrlf(s, j)
    {
      assert !IsCrlf(line, i + j);
    }
  }

  lemma RequestLineIsPrinted(path: string, version: Version)
    requires version != Unknown
    ensures RequestLineText(path, version) == PrintLine(Get, path, None, version) + CRLF
  {
  }

  lemma ForwardedWhole(path: string, version: Version)
    requires version != Unknown && '\0' !in path
    ensures Forwarded(path, version) == PrintHead(Get, path, None, version, [], "")
  {
    var text := RequestLineText(path, version);
    assert '\0' !in text;
    assert Cache.CString(text) == text;
    RequestLineIsPrinted(path, version);
    assert PrintHeaders([]) + "" + CRLF == CRLF;
  }

  lemma ForwardedCut(path: string, version: Version)
    requires '\0' in path
    ensures Forwarded(path, version) == "GET " + Cache.CString(path) + CRLF
    ensures Cache.CString(path) == path[..|Cache.CString(path)|]
  {
    var rest := if version == Http10 then " HTTP/1.0" + CRLF else " HTTP/1.1" + CRLF;
    CStringAppend("GET " + path, rest);
    CStringAppend("GET ", path);
    assert RequestLineText(path, version) == "GET " + path + rest;
  }

  /** A request line without a second space is refused. */
  lemma NoVersionFails(r: Request, target: string)
    requires ' ' !in target
    ensures ParseLine(r, "GET " + target).1 == Bad
  {
  }

  lemma AcceptedPath(before: Request, line: string)
    requires NoCrlf(line) && Accepted(before, line).Some?
    ensures var q := Accepted(before, line).value;
            q.version != Unknown && CleanTarget(q.path, None) && NoCrlf(q.path)
  {
    var q := Accepted(before, line).value;
    var query := ParsedLineIsPrinted(before, line);
    PathInLine(line, q.path, query, q.version);
  }

  lemma PathInLine(line: string, path: string, query: Option<string>, version: Version)
    requires version != Unknown && line == PrintLine(Get, path, query, version) && NoCrlf(line)
    ensures NoCrlf(path)
  {
    assert forall j | 0 <= j < |path| :: line[4 + j] == path[j];
    assert path == line[4..4 + |path|];
    NoCrlfInside(line, 4, 4 + |path|);
  }

  /** The server reads the forwarded request as a complete GET of the same path and version, with nothing left
      over, exactly when the path holds no NUL; otherwise it refuses it. A query is not passed on. */
  lemma ForwardedRequestParsesBack(r: Request, before: Request, line: string)
    requires NoCrlf(line) && Accepted(before, line).Some?
    ensures var q := Accepted(before, line).value;
            var f := Feed(Parser(RequestLine, r), Forwarded(q.path, q.version));
            && (f == Fed(Parser(GotCompleteRequest, Request(Get, q.version, q.path, r.query, r.headers)), "", Fine)
                <==> '\0' !in q.path)
            && (f.outcome == Failed <==> '\0' in q.path)
  {
    var q := Accepted(before, line).value;
    AcceptedPath(before, line);
    if '\0' in q.path {
      CutRequestFails(r, q.path, q.version);
    } else {
      WholeRequestParses(r, q.path, q.version);
    }
  }

  lemma WholeRequestParses(r: Request, path: string, version: Version)
    requires version != Unknown && '\0' !in path && CleanTarget(path, None) && NoCrlf(path)
    ensures Feed(Parser(RequestLine, r), Forwarded(path, version))
            == Fed(Parser(GotCompleteRequest, Request(Get, version, path, r.query, r.headers)), "", Fine)
  {
    var printed := PrintLine(Get, path, None, version);
    assert printed == "GET " + path + " " + VersionName(version);
    forall j | 0 <= j < |printed|
      ensures !IsCrlf(printed, j)
    {
      if 4 <= j < 4 + |path| {
        assert !IsCrlf(path, j - 4);
      }
    }
    ForwardedWhole(path, version);
    HeadRoundTrip(r, Get, path, None, version, [], "", "");
    assert PrintHead(Get, path, None, version, [], "") + "" == PrintHead(Get, path, None, version, [], "");
  }

  lemma CutRequestFails(r: Request, path: string, version: Version)
    requires '\0' in path && ' ' !in path && NoCrlf(path)
    ensures Feed(Parser(RequestLine, r), Forwarded(path, version)).outcome == Failed
  {
    ForwardedCut(path, version);
    var target := Cache.CString(path);
    NoCrlfInside(path, 0, |target|);
    var line := "GET " + target;
    forall j | 0 <= j < |line|
      ensures !IsCrlf(line, j)
    {
      assert j >= 4 ==> !IsCrlf(path, j - 4);
    }
    assert line + CRLF + "" == line + CRLF;
    LineIsCut(line, "");
    NoVersionFails(r, target);
  }
}
