/** Http/httpRequest.cc: the request line and header line parsers, and the grammar they accept.

    The lines are those of section 3 (request line) and section 5 (field line) of RFC 9112, with the code's
    simplifications: four methods, HTTP/1.0 and HTTP/1.1 only, no check of the target, and of the optional
    white space only leading spaces are skipped. */
module HttpRequest {
  import opened Options

  datatype Method = Get | Post | Put | Delete
  datatype Version = Unknown | Http10 | Http11

  datatype Request = Request(
    method_: Method, version: Version, path: string, query: string, headers: map<string, string>)

  /** `Throws` is `std::string::assign` on a reversed range. */
  datatype LineOutcome = Good | Bad | Throws

  // ---------------------------------------------------------------- searching

  /** `std::find`: the first position of `c` at or after `i`, or the end. */
  function Find(s: string, c: char, i: nat): (k: nat)
    requires i <= |s|
    ensures i <= k <= |s| && (forall j | i <= j < k :: s[j] != c) && (k < |s| ==> s[k] == c)
    decreases |s| - i
  {
    if i == |s| || s[i] == c then i else Find(s, c, i + 1)
  }

  lemma FindIs(s: string, c: char, i: nat, k: nat)
    requires i <= k <= |s| && (forall j | i <= j < k :: s[j] != c) && (k < |s| ==> s[k] == c)
    ensures Find(s, c, i) == k
  {
  }

  // ---------------------------------------------------------------- the specification of the parsers

  function ParseMethod(s: string): Option<Method> {
    if s == "GET" then Some(Get)
    else if s == "POST" then Some(Post)
    else if s == "PUT" then Some(Put)
    else if s == "DELETE" then Some(Delete)
    else None
  }

  function ParseVersion(s: string): Version {
    if |s| == 8 && s[..7] == "HTTP/1." && s[7] == '0' then Http10
    else if |s| == 8 && s[..7] == "HTTP/1." && s[7] == '1' then Http11
    else Unknown
  }

  /** The target between the two spaces, when the first '?' at or after `start` is at `q`. */
  function ParseTarget(r: Request, line: string, start: nat, space: nat, q: nat): (Request, LineOutcome)
    requires start <= space < |line| && start <= q <= |line|
  {
    if q == |line| then (r.(path := line[start..space]), Good)
    else if space < q + 1 then (r.(path := line[start..q]), Throws)
    else (r.(path := line[start..q], query := line[q + 1..space]), Good)
  }

  /** The part of the line after the method and its space. */
  function ParseTail(r: Request, line: string, start: nat): (Request, LineOutcome)
    requires start <= |line|
  {
    var space := Find(line, ' ', start);
    if space == |line| then (r, Bad)
    else
      var (targeted, outcome) := ParseTarget(r, line, start, space, Find(line, '?', start));
      if outcome.Throws? then (targeted, Throws)
      else
        var v := ParseVersion(line[space + 1..]);
        (targeted.(version := v), if v == Unknown then Bad else Good)
  }

  /** What `ParseRequestLine` leaves in the request, and its result. */
  function ParseLine(r: Request, line: string): (Request, LineOutcome) {
    var first := Find(line, ' ', 0);
    if first == |line| || ParseMethod(line[..first]).None? then (r, Bad)
    else ParseTail(r.(method_ := ParseMethod(line[..first]).value), line, first + 1)
  }

  /** The first position at or after `i` that is not a space, or the end. */
  function SkipSpaces(s: string, i: nat): (k: nat)
    requires i <= |s|
    ensures i <= k <= |s| && (forall j | i <= j < k :: s[j] == ' ') && (k < |s| ==> s[k] != ' ')
    decreases |s| - i
  {
    if i < |s| && s[i] == ' ' then SkipSpaces(s, i + 1) else i
  }

  function ParseHeader(r: Request, line: string, colon: nat): Request
    requires colon < |line|
  {
    r.(headers := r.headers[line[..colon] := line[SkipSpaces(line, colon + 1)..]])
  }

  // ---------------------------------------------------------------- the grammar

  function MethodName(m: Method): string {
    match m
    case Get => "GET"
    case Post => "POST"
    case Put => "PUT"
    case Delete => "DELETE"
  }

  function VersionName(v: Version): string
    requires v != Unknown
  {
    if v == Http10 then "HTTP/1.0" else "HTTP/1.1"
  }

  function Target(path: string, query: Option<string>): string {
    path + (if query.Some? then "?" + query.value else "")
  }

  /** request-line = method SP request-target SP HTTP-version */
  function PrintLine(m: Method, path: string, query: Option<string>, v: Version): string
    requires v != Unknown
  {
    MethodName(m) + " " + Target(path, query) + " " + VersionName(v)
  }

  predicate CleanTarget(path: string, query: Option<string>) {
    ' ' !in path && '?' !in path && (query.Some? ==> ' ' !in query.value)
  }

  function Spaces(n: nat): (s: string)
    ensures |s| == n && forall i | 0 <= i < n :: s[i] == ' '
  {
    seq(n, _ => ' ')
  }

  /** field-line = field-name ":" OWS field-value, the white space being `pad` spaces. */
  datatype Header = Header(name: string, pad: nat, value: string)

  function PrintHeader(h: Header): string {
    h.name + ":" + Spaces(h.pad) + h.value
  }

  predicate CleanHeader(h: Header) {
    ':' !in h.name && (h.value != [] ==> h.value[0] != ' ')
  }

  // ---------------------------------------------------------------- parser and grammar agree

  lemma MethodRoundTrip(m: Method)
    ensures ParseMethod(MethodName(m)) == Some(m) && ' ' !in MethodName(m)
  {
  }

  /** A string of the form method SP target SP rest is taken apart as such. */
  lemma SplitLine(m: Method, target: string, rest: string)
    requires ' ' !in target
    ensures var line := MethodName(m) + " " + target + " " + rest;
            var first := |MethodName(m)|;
            && Find(line, ' ', 0) == first && line[..first] == MethodName(m)
            && Find(line, ' ', first + 1) == first + 1 + |target| < |line|
            && line[first + 1..first + 1 + |target|] == target
            && line[first + 2 + |target|..] == rest
            && (forall j | first + 1 <= j < first + 1 + |target| :: line[j] == target[j - first - 1])
  {
    var name := MethodName(m);
    var line := name + " " + target + " " + rest;
    FindFirstSpace(m, target + " " + rest);
    assert name + " " + (target + " " + rest) == line;
    assert name + " " + target + (" " + rest) == line;
    FindAfter(name + " ", target, rest);
    Middle(name + " ", target, " " + rest);
    assert forall j | 0 <= j < |target| :: line[|name| + 1 + j] == target[j];
  }

  lemma FindFirstSpace(m: Method, behind: string)
    ensures var line := MethodName(m) + " " + behind;
            Find(line, ' ', 0) == |MethodName(m)| && line[..|MethodName(m)|] == MethodName(m)
  {
    MethodRoundTrip(m);
    FindIs(MethodName(m) + " " + behind, ' ', 0, |MethodName(m)|);
  }

  lemma FindAfter(pre: string, target: string, rest: string)
    requires ' ' !in target
    ensures var line := pre + target + (" " + rest);
            Find(line, ' ', |pre|) == |pre| + |target| < |line| && line[|pre| + |target| + 1..] == rest
  {
    var line := pre + target + (" " + rest);
    assert forall j | |pre| <= j < |pre| + |target| :: line[j] == target[j - |pre|];
    FindIs(line, ' ', |pre|, |pre| + |target|);
  }

  lemma TargetHasNoSpace(path: string, query: Option<string>)
    requires CleanTarget(path, query)
    ensures forall j | 0 <= j < |Target(path, query)| :: Target(path, query)[j] != ' '
    ensures ' ' !in Target(path, query)
  {
  }

  lemma Middle(a: string, b: string, c: string)
    ensures (a + b + c)[|a|..|a| + |b|] == b
  {
  }

  /** A missing query leaves the old one. */
  function WithTarget(r: Request, path: string, query: Option<string>): Request {
    r.(path := path, query := if query.Some? then query.value else r.query)
  }

  /** In a clean target the '?' ends the path, and without a query there is none up to the line's end. */
  lemma SplitTarget(r: Request, pre: string, path: string, query: Option<string>, rest: string)
    requires CleanTarget(path, query) && '?' !in rest && rest != []
    ensures var line, start := pre + Target(path, query) + rest, |pre|;
            ParseTarget(r, line, start, start + |Target(path, query)|, Find(line, '?', start))
            == (WithTarget(r, path, query), Good)
  {
    var target := Target(path, query);
    if query.Some? {
      FindQuery(pre, path, query.value, rest);
      QueryPieces(pre, path, query.value, rest);
    } else {
      assert target == path;
      Middle(pre, path, rest);
      FindNoQuery(pre, path, rest);
    }
  }

  lemma FindQuery(pre: string, path: string, query: string, rest: string)
    requires '?' !in path
    ensures Find(pre + (path + ("?" + query)) + rest, '?', |pre|) == |pre| + |path|
  {
    var line := pre + (path + ("?" + query)) + rest;
    assert forall j | |pre| <= j < |pre| + |path| :: line[j] == path[j - |pre|];
    FindIs(line, '?', |pre|, |pre| + |path|);
  }

  lemma FindNoQuery(pre: string, path: string, rest: string)
    requires '?' !in path && '?' !in rest
    ensures Find(pre + path + rest, '?', |pre|) == |pre + path + rest|
  {
    var line := pre + path + rest;
    assert forall j | |pre| <= j < |pre| + |path| :: line[j] == path[j - |pre|];
    assert forall j | |pre| + |path| <= j < |line| :: line[j] == rest[j - |pre| - |path|];
    FindIs(line, '?', |pre|, |line|);
  }

  lemma QueryPieces(pre: string, path: string, query: string, rest: string)
    ensures var line := pre + (path + ("?" + query)) + rest;
            && line[|pre|..|pre| + |path|] == path
            && line[|pre| + |path| + 1..|pre| + |path| + 1 + |query|] == query
  {
  }

  lemma LineOf(r: Request, line: string, m: Method, first: nat)
    requires first < |line| && Find(line, ' ', 0) == first && line[..first] == MethodName(m)
    ensures ParseLine(r, line) == ParseTail(r.(method_ := m), line, first + 1)
  {
  }

  lemma TailOf(r: Request, line: string, start: nat, space: nat, t: Request, v: Version)
    requires start <= space < |line| && Find(line, ' ', start) == space && v != Unknown
    requires ParseTarget(r, line, start, space, Find(line, '?', start)) == (t, Good)
    requires line[space + 1..] == VersionName(v)
    ensures ParseTail(r, line, start) == (t.(version := v), Good)
  {
  }

  lemma PrintLineShape(m: Method, path: string, query: Option<string>, v: Version)
    requires v != Unknown
    ensures PrintLine(m, path, query, v) == (MethodName(m) + " ") + Target(path, query) + (" " + VersionName(v))
  {
  }

  lemma VersionHasNoQuery(v: Version)
    requires v != Unknown
    ensures '?' !in " " + VersionName(v) && " " + VersionName(v) != []
  {
  }

  /** The line continues after `pre` with a clean target, a space and a version. */
  ghost predicate EndsIn(line: string, pre: string, path: string, query: Option<string>, v: Version)
    requires v != Unknown
  {
    CleanTarget(path, query) && line == pre + Target(path, query) + (" " + VersionName(v))
  }

  lemma PrintedTargetParses(r: Request, line: string, pre: string, path: string, query: Option<string>, v: Version)
    requires v != Unknown && EndsIn(line, pre, path, query, v)
    ensures |pre| + |Target(path, query)| < |line|
    ensures ParseTarget(r, line, |pre|, |pre| + |Target(path, query)|, Find(line, '?', |pre|))
            == (WithTarget(r, path, query), Good)
  {
    VersionHasNoQuery(v);
    SplitTarget(r, pre, path, query, " " + VersionName(v));
  }

  lemma PrintedSpaceIsFound(line: string, pre: string, path: string, query: Option<string>, v: Version)
    requires v != Unknown && EndsIn(line, pre, path, query, v)
    ensures var space := |pre| + |Target(path, query)|;
            space < |line| && Find(line, ' ', |pre|) == space && line[space + 1..] == VersionName(v)
  {
    TargetHasNoSpace(path, query);
    FindAfter(pre, Target(path, query), VersionName(v));
  }

  lemma TailPieces(r: Request, line: string, pre: string, path: string, query: Option<string>, v: Version)
      returns (space: nat)
    requires v != Unknown && EndsIn(line, pre, path, query, v)
    ensures |pre| <= space < |line| && Find(line, ' ', |pre|) == space && line[space + 1..] == VersionName(v)
    ensures ParseTarget(r, line, |pre|, space, Find(line, '?', |pre|)) == (WithTarget(r, path, query), Good)
  {
    hide Find, ParseTarget;
    PrintedSpaceIsFound(line, pre, path, query, v);
    PrintedTargetParses(r, line, pre, path, query, v);
    space := |pre| + |Target(path, query)|;
  }

  lemma PrintedTailParses(r: Request, line: string, pre: string, path: string, query: Option<string>, v: Version)
    requires v != Unknown && EndsIn(line, pre, path, query, v)
    ensures ParseTail(r, line, |pre|) == (WithTarget(r, path, query).(version := v), Good)
  {
    var space := TailPieces(r, line, pre, path, query, v);
    TailOf(r, line, |pre|, space, WithTarget(r, path, query), v);
  }

  /** Printing a clean request line and parsing it restores every component, whatever was there before;
      a missing query leaves the old one. */
  lemma PrintedLineParses(r: Request, m: Method, path: string, query: Option<string>, v: Version)
    requires CleanTarget(path, query) && v != Unknown
    ensures ParseLine(r, PrintLine(m, path, query, v))
            == (Request(m, v, path, if query.Some? then query.value else r.query, r.headers), Good)
  {
    var line, pre := PrintLine(m, path, query, v), MethodName(m) + " ";
    assert ParseLine(r, line) == ParseTail(r.(method_ := m), line, |pre|) by {
      TargetHasNoSpace(path, query);
      SplitLine(m, Target(path, query), VersionName(v));
      LineOf(r, line, m, |MethodName(m)|);
    }
    PrintLineShape(m, path, query, v);
    PrintedTailParses(r.(method_ := m), line, pre, path, query, v);
  }

  lemma MethodNameOf(s: string)
    requires ParseMethod(s).Some?
    ensures MethodName(ParseMethod(s).value) == s
  {
  }

  lemma VersionNameOf(s: string)
    requires ParseVersion(s) != Unknown
    ensures VersionName(ParseVersion(s)) == s
  {
  }

  lemma JoinLine(line: string, first: nat, space: nat)
    requires first < space < |line| && line[first] == ' ' && line[space] == ' '
    ensures line == line[..first] + " " + line[first + 1..space] + " " + line[space + 1..]
  {
  }

  /** The target between the two spaces is a clean printed target, or the assignment throws. */
  lemma JoinTarget(r: Request, line: string, start: nat, space: nat) returns (query: Option<string>)
    requires start <= space < |line| && forall j | start <= j < space :: line[j] != ' '
    requires ParseTarget(r, line, start, space, Find(line, '?', start)).1 == Good
    ensures var t := ParseTarget(r, line, start, space, Find(line, '?', start)).0;
            && CleanTarget(t.path, query) && line[start..space] == Target(t.path, query)
            && t == r.(path := t.path, query := if query.Some? then query.value else r.query)
  {
    var q := Find(line, '?', start);
    if q == |line| {
      query := None;
    } else {
      query := Some(line[q + 1..space]);
      assert line[start..space] == line[start..q] + "?" + line[q + 1..space];
    }
  }

  /** Every line the parser accepts is a printed clean request line, with the components it reports. */
  lemma ParsedLineIsPrinted(r: Request, line: string) returns (query: Option<string>)
    requires ParseLine(r, line).1 == Good
    ensures var p := ParseLine(r, line).0;
            && p.version != Unknown && CleanTarget(p.path, query)
            && line == PrintLine(p.method_, p.path, query, p.version)
            && p.query == (if query.Some? then query.value else r.query)
            && p.headers == r.headers
  {
    var first := Find(line, ' ', 0);
    var space := Find(line, ' ', first + 1);
    MethodNameOf(line[..first]);
    VersionNameOf(line[space + 1..]);
    JoinLine(line, first, space);
    query := JoinTarget(r.(method_ := ParseMethod(line[..first]).value), line, first + 1, space);
  }

  ghost predicate LateQuestionMark(line: string, m: Method, target: string, rest: string) {
    line == MethodName(m) + " " + target + " " + rest && ' ' !in target && '?' !in target && '?' in rest
  }

  lemma LateQuestionMarkThrows(r: Request, line: string, m: Method, target: string, rest: string)
    requires LateQuestionMark(line, m, target, rest)
    ensures ParseLine(r, line).1 == Throws
  {
    SplitLine(m, target, rest);
    LineOf(r, line, m, |MethodName(m)|);
    var start := |MethodName(m)| + 1;
    var i :| 0 <= i < |rest| && rest[i] == '?';
    assert line[start + |target| + 1 + i] == '?';
  }

  lemma ThrownLineHasIt(r: Request, line: string) returns (m: Method, target: string, rest: string)
    requires ParseLine(r, line).1 == Throws
    ensures LateQuestionMark(line, m, target, rest)
  {
    var first := Find(line, ' ', 0);
    var space := Find(line, ' ', first + 1);
    var q := Find(line, '?', first + 1);
    MethodNameOf(line[..first]);
    JoinLine(line, first, space);
    m, target, rest := ParseMethod(line[..first]).value, line[first + 1..space], line[space + 1..];
    assert rest[q - space - 1] == '?';
  }

  /** The parser throws exactly on a known method, a second space, and a first '?' that comes after it. */
  lemma ThrowsExactly(r: Request, line: string)
    ensures ParseLine(r, line).1 == Throws <==>
            exists m, target, rest :: LateQuestionMark(line, m, target, rest)
  {
    if ParseLine(r, line).1 == Throws {
      var m, target, rest := ThrownLineHasIt(r, line);
    } else if m, target, rest :| LateQuestionMark(line, m, target, rest) {
      LateQuestionMarkThrows(r, line, m, target, rest);
    }
  }

  /** Printing a clean header and parsing it stores exactly its name and value. */
  lemma PrintedHeaderParses(r: Request, h: Header)
    requires CleanHeader(h)
    ensures var line := PrintHeader(h);
            && Find(line, ':', 0) == |h.name| < |line|
            && ParseHeader(r, line, |h.name|) == r.(headers := r.headers[h.name := h.value])
  {
    var line := PrintHeader(h);
    assert forall j | 0 <= j < |h.name| :: line[j] == h.name[j];
    FindIs(line, ':', 0, |h.name|);
    var start := |h.name| + 1 + h.pad;
    assert line[..|h.name|] == h.name;
    assert forall j | |h.name| < j < start :: line[j] == Spaces(h.pad)[j - |h.name| - 1] || j == |h.name|;
    assert line[start..] == h.value;
  }

  /** Every line with a colon is a printed clean header, with the name and value that the parser stores. */
  lemma ParsedHeaderIsPrinted(r: Request, line: string) returns (h: Header)
    requires Find(line, ':', 0) < |line|
    ensures CleanHeader(h) && line == PrintHeader(h)
    ensures ParseHeader(r, line, Find(line, ':', 0)) == r.(headers := r.headers[h.name := h.value])
  {
    var colon := Find(line, ':', 0);
    var start := SkipSpaces(line, colon + 1);
    var pad := start - colon - 1;
    assert line[colon + 1..start] == Spaces(pad);
    h := Header(line[..colon], pad, line[start..]);
    assert line == line[..colon] + ":" + line[colon + 1..start] + line[start..];
  }

  // ---------------------------------------------------------------- the class

  /** `HttpRequest`, whose parsers assign the fields as they go. Iterators into the connection's buffer
      are positions in its contents `buf`. */
  class HttpRequest {
    var method_: Method
    var version: Version
    var path: string
    var query: string
    var headers: map<string, string>

    function View(): Request
      reads this
    {
      Request(method_, version, path, query, headers)
    }

    constructor (m: Method, v: Version)
      ensures View() == Request(m, v, "", "", map[])
    {
      method_, version, path, query, headers := m, v, "", "", map[];
    }

    method ParseRequestMethod(name: string) returns (hasMethod: bool)
      modifies this`method_
      ensures hasMethod <==> ParseMethod(name).Some?
      ensures method_ == if hasMethod then ParseMethod(name).value else old(method_)
    {
      hasMethod := true;
      if name == "GET" {
        method_ := Get;
      } else if name == "POST" {
        method_ := Post;
      } else if name == "PUT" {
        method_ := Put;
      } else if name == "DELETE" {
        method_ := Delete;
      } else {
        hasMethod := false;
      }
    }

    /** Lines 40 to 46: the target between the two spaces; assigning a reversed range throws. */
    method AssignTarget(line: string, start: nat, space: nat) returns (throws: bool)
      requires start <= space < |line|
      modifies this`path, this`query
      ensures (View(), if throws then Throws else Good)
              == ParseTarget(old(View()), line, start, space, Find(line, '?', start))
    {
      throws := false;
      var queryPtr := Find(line, '?', start);
      if queryPtr != |line| {
        path := line[start..queryPtr];
        if space < queryPtr + 1 {
          return true;
        }
        query := line[queryPtr + 1..space];
      } else {
        path := line[start..space];
      }
    }

    /** Lines 49 to 59: the version, from `start` to the end of the line. */
    method AssignVersion(line: string, start: nat) returns (parseHttp: bool)
      requires start <= |line|
      modifies this`version
      ensures version == ParseVersion(line[start..]) && parseHttp == (version != Unknown)
    {
      ghost var text := line[start..];
      parseHttp := start + 8 == |line| && line[start..|line| - 1] == "HTTP/1.";
      assert start + 8 == |line| ==> text[..7] == line[start..|line| - 1] && text[7] == line[|line| - 1];
      if !parseHttp || (line[|line| - 1] != '0' && line[|line| - 1] != '1') {
        version := Unknown;
        return false;
      }
      if line[|line| - 1] == '0' {
        version := Http10;
      } else {
        version := Http11;
      }
    }

    /** `bool ParseRequestLine(start, end)` on one line. */
    method ParseRequestLine(line: string) returns (outcome: LineOutcome)
      modifies this
      ensures (View(), outcome) == ParseLine(old(View()), line)
    {
      var space := Find(line, ' ', 0);
      if space == |line| {
        return Bad;
      }
      var hasMethod := ParseRequestMethod(line[..space]);
      if !hasMethod {
        return Bad;
      }
      outcome := ParseRest(line, space + 1);
    }

    /** The rest of it, behind the method and its space. */
    method ParseRest(line: string, start: nat) returns (outcome: LineOutcome)
      requires start <= |line|
      modifies this`path, this`query, this`version
      ensures (View(), outcome) == ParseTail(old(View()), line, start)
    {
      var space := Find(line, ' ', start);
      if space == |line| {
        return Bad;
      }
      var throws := AssignTarget(line, start, space);
      if throws {
        return Throws;
      }
      var parseHttp := AssignVersion(line, space + 1);
      outcome := if parseHttp then Good else Bad;
    }

    /** `bool ParseHeaders(start, colon, end)`: `end` is at a CR of the buffer, which stops the loop. */
    method ParseHeaders(buf: string, colon: nat, end: nat)
      requires colon < end < |buf| && buf[end] == '\r'
      modifies this`headers
      ensures View() == ParseHeader(old(View()), buf[..end], colon)
    {
      var validStart := colon + 1;
      while buf[validStart] == ' '
        invariant colon < validStart <= end
        invariant SkipSpaces(buf[..end], colon + 1) == SkipSpaces(buf[..end], validStart)
        decreases end - validStart
      {
        validStart := validStart + 1;
      }
      headers := headers[buf[..colon] := buf[validStart..end]];
      assert buf[..end][..colon] == buf[..colon] && buf[..end][validStart..] == buf[validStart..end];
    }
  }
}
