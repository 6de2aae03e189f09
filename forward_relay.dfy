/**
  The HTTP handling of the libcurl forward relay (src/forward/forward.rs):
  the request head turned into a header map, a target URL and a body; the
  header list handed to libcurl; and the response head written back to the
  client. The HTTP/1.1 head parser (httparse) is an input: its verdict on
  the received bytes is passed in.
 */
module ForwardRelay {
  import opened Wrappers
  import opened Text
  import Utf8

  /** One parsed request header, its value already decoded to text. */
  datatype Header = Header(name: string, value: string)

  datatype HttpHead = HttpHead(requestMethod: string, path: string, headers: seq<Header>)

  /** The head parser's verdict on the received bytes. */
  datatype HeadParse = Complete(head: HttpHead) | Partial | Malformed

  datatype ParsedRequest = ParsedRequest(
    requestMethod: string,
    path: string,
    headersMap: map<string, string>,
    body: seq<byte>,
    targetUrl: string)

  /** `parse_http_request`'s result: the request, or one of its two errors. */
  datatype RequestResult = Parsed(request: ParsedRequest) | HeadError | Incomplete

  // ---------------------------------------------------------------------
  // The header map (196-201)
  // ---------------------------------------------------------------------

  /** The map the insert loop leaves after the given headers: names
      lowercased, a later header replacing an earlier one of the same name. */
  function HeaderMapOf(headers: seq<Header>): map<string, string>
  {
    if headers == [] then map[]
    else
      var last := headers[|headers| - 1];
      HeaderMapOf(headers[..|headers| - 1])[ToLower(last.name) := last.value]
  }

  /** A name is in the map exactly when some header has it (ignoring case),
      and it maps to the value of the last such header. */
  lemma {:induction false} HeaderMapLookup(headers: seq<Header>, key: string)
    ensures key in HeaderMapOf(headers) <==> exists i :: 0 <= i < |headers| && ToLower(headers[i].name) == key
    ensures key in HeaderMapOf(headers) ==>
      exists i :: 0 <= i < |headers| && ToLower(headers[i].name) == key
        && HeaderMapOf(headers)[key] == headers[i].value
        && forall j :: i < j < |headers| ==> ToLower(headers[j].name) != key
    decreases |headers|
  {
    if headers != [] {
      var n := |headers| - 1;
      var init := headers[..n];
      HeaderMapLookup(init, key);
      assert forall i :: 0 <= i < n ==> init[i] == headers[i];
      if ToLower(headers[n].name) != key && key in HeaderMapOf(init) {
        var i :| 0 <= i < |init| && ToLower(init[i].name) == key
          && HeaderMapOf(init)[key] == init[i].value
          && forall j :: i < j < |init| ==> ToLower(init[j].name) != key;
        assert forall j :: i < j < |headers| ==> ToLower(headers[j].name) != key by {
          forall j | i < j < |headers| ensures ToLower(headers[j].name) != key {
            if j < n { assert init[j] == headers[j]; }
          }
        }
      }
    }
  }

  /** The insert loop of `parse_http_request`. */
  method BuildHeaderMap(headers: seq<Header>) returns (headersMap: map<string, string>)
    ensures headersMap == HeaderMapOf(headers)
  {
    headersMap := map[];
    var i := 0;
    while i < |headers|
      invariant 0 <= i <= |headers|
      invariant headersMap == HeaderMapOf(headers[..i])
    {
      assert headers[..i + 1][..i] == headers[..i];
      headersMap := headersMap[ToLower(headers[i].name) := headers[i].value];
      i := i + 1;
    }
    assert headers[..i] == headers;
  }

  // ---------------------------------------------------------------------
  // Target URL and body (202-223)
  // ---------------------------------------------------------------------

  predicate IsAbsoluteUrl(path: string) {
    StartsWith(path, "http://") || StartsWith(path, "https://")
  }

  /** The URL handed to libcurl: an absolute request target as it is, else
      "https://" + the Host header (or nothing) + the target. */
  function TargetUrl(path: string, headersMap: map<string, string>): (url: string)
    ensures IsAbsoluteUrl(url)
    ensures EndsWith(url, path)
    ensures url == path <==> IsAbsoluteUrl(path)
    ensures !IsAbsoluteUrl(path) ==>
      url == "https://" + (if "host" in headersMap then headersMap["host"] else "") + path
  {
    if IsAbsoluteUrl(path) then path
    else
      var url := "https://" + (if "host" in headersMap then headersMap["host"] else "") + path;
      assert StartsWith(url, "https://") by { assert url[..8] == "https://"; }
      assert EndsWith(url, path) by { assert url[|url| - |path|..] == path; }
      url
  }

  /** The blank line that ends a request head. */
  const HeadTerminator: seq<byte> := [13, 10, 13, 10]

  /** The request body: the bytes after the first CR LF CR LF, none when
      nothing follows it. Without a terminator the offset defaults to 0 + 4
      (`unwrap_or(0) + 4`), so the bytes from offset 4 on are taken. */
  function RequestBody(buffer: seq<byte>): (body: seq<byte>)
    ensures Contains(buffer, HeadTerminator) ==>
      exists head :: buffer == head + body && EndsWith(head, HeadTerminator)
        && forall j :: 0 <= j < |head| - 4 ==> !OccursAt(buffer, HeadTerminator, j)
    ensures !Contains(buffer, HeadTerminator) ==> body == (if 4 < |buffer| then buffer[4..] else [])
  {
    var start := (match IndexOf(buffer, HeadTerminator) case Some(i) => i case None => 0) + 4;
    var body := if start < |buffer| then buffer[start..] else [];
    assert IndexOf(buffer, HeadTerminator).Some? ==> buffer == buffer[..start] + body;
    body
  }

  /** Bytes without CR hold no CR LF CR LF. */
  lemma NoCrNoTerminator(buffer: seq<byte>)
    requires 13 !in buffer
    ensures !Contains(buffer, HeadTerminator)
  {
    forall i | 0 <= i <= |buffer| ensures !OccursAt(buffer, HeadTerminator, i) {
      if i + 4 <= |buffer| {
        assert buffer[i..i + 4][0] == buffer[i];
      }
    }
  }

  /** "GET / HTTP/1.1\nHost: h\n\nXY": a head whose lines end in a bare LF. */
  const BareLfRequest: seq<byte> := [71, 69, 84, 32, 47, 32, 72, 84, 84, 80, 47, 49, 46, 49, 10, 72, 111, 115, 116, 58, 32, 104, 10, 10, 88, 89]

  /** A head ended by bare LFs has no CR LF CR LF, so the body is taken from
      offset 4: here "/ HTTP/1.1\nHost: h\n\nXY" instead of "XY". */
  lemma BareLfRequestBody()
    ensures RequestBody(BareLfRequest) == BareLfRequest[4..]
    ensures |RequestBody(BareLfRequest)| == |BareLfRequest| - 4 > 2
  {
    NoCrNoTerminator(BareLfRequest);
  }

  /** `parse_http_request`, given the head parser's verdict on `buffer`. */
  method ParseHttpRequest(buffer: seq<byte>, parsed: HeadParse) returns (r: RequestResult)
    ensures parsed.Malformed? ==> r == HeadError
    ensures parsed.Partial? ==> r == Incomplete
    ensures parsed.Complete? ==> (r.Parsed?
      && r.request.requestMethod == parsed.head.requestMethod
      && r.request.path == parsed.head.path
      && r.request.headersMap == HeaderMapOf(parsed.head.headers)
      && r.request.body == RequestBody(buffer)
      && r.request.targetUrl == TargetUrl(parsed.head.path, r.request.headersMap))
  {
    match parsed {
      case Malformed => r := HeadError;
      case Partial => r := Incomplete;
      case Complete(head) =>
        var headersMap := BuildHeaderMap(head.headers);
        var url := TargetUrl(head.path, headersMap);
        r := Parsed(ParsedRequest(head.requestMethod, head.path, headersMap, RequestBody(buffer), url));
    }
  }

  // ---------------------------------------------------------------------
  // The Referer rewrite and the outgoing header list (420-441)
  // ---------------------------------------------------------------------

  const PlaceholderOrigin := "https://test.com"

  /** The pattern `https://[^/]+` matches at offset `i`. */
  predicate OriginAt(v: string, i: int) {
    0 <= i && i + 8 < |v| && v[i..i + 8] == "https://" && v[i + 8] != '/'
  }

  /** Where the `[^/]+` run from `j` ends: at the first '/' or at the end. */
  function RunEnd(v: string, j: nat): (e: nat)
    requires j <= |v|
    ensures j <= e <= |v| && (e < |v| ==> v[e] == '/')
    ensures forall k :: j <= k < e ==> v[k] != '/'
    decreases |v| - j
  {
    if j == |v| || v[j] == '/' then j else RunEnd(v, j + 1)
  }

  /** A run end is determined by where the next '/' is. */
  lemma {:induction false} RunEndAt(v: string, j: nat, e: nat)
    requires j <= e <= |v| && (e < |v| ==> v[e] == '/')
    requires forall k :: j <= k < e ==> v[k] != '/'
    ensures RunEnd(v, j) == e
    decreases e - j
  {
    if j < e {
      RunEndAt(v, j + 1, e);
    }
  }

  /** The leftmost match at or after `from`. */
  function FirstOrigin(v: string, from: nat): (r: Option<nat>)
    ensures r.Some? ==> from <= r.value && OriginAt(v, r.value)
    ensures r.Some? ==> forall k :: from <= k < r.value ==> !OriginAt(v, k)
    ensures r.None? ==> forall k :: from <= k ==> !OriginAt(v, k)
    decreases |v| - from
  {
    if from + 8 >= |v| then None
    else if OriginAt(v, from) then Some(from)
    else FirstOrigin(v, from + 1)
  }

  /** `Regex::new(r"https://[^/]+").replace(value, "https://test.com")`:
      the leftmost origin becomes the placeholder, the rest is kept. */
  function RewriteReferer(v: string): (r: string)
    ensures (forall i :: !OriginAt(v, i)) ==> r == v
    ensures forall i :: OriginAt(v, i) && (forall k :: 0 <= k < i ==> !OriginAt(v, k)) ==>
      r == v[..i] + PlaceholderOrigin + v[RunEnd(v, i + 8)..]
  {
    LeftmostUnique(v);
    match FirstOrigin(v, 0)
    case None => v
    case Some(i) => v[..i] + PlaceholderOrigin + v[RunEnd(v, i + 8)..]
  }

  /** The leftmost match is the one `FirstOrigin` finds. */
  lemma {:induction false} FirstOriginIs(v: string, from: nat, i: nat)
    requires from <= i && OriginAt(v, i)
    requires forall k :: from <= k < i ==> !OriginAt(v, k)
    ensures FirstOrigin(v, from) == Some(i)
    decreases i - from
  {
    if from < i {
      FirstOriginIs(v, from + 1, i);
    }
  }

  /** Rewriting an already rewritten value changes nothing. */
  lemma RewriteRefererIdempotent(v: string)
    ensures RewriteReferer(RewriteReferer(v)) == RewriteReferer(v)
  {
    match FirstOrigin(v, 0)
    case None =>
    case Some(i) =>
      var e := RunEnd(v, i + 8);
      var r := v[..i] + PlaceholderOrigin + v[e..];
      assert RewriteReferer(v) == r;
      PlaceholderParts();
      Embedded(v[..i], PlaceholderOrigin, v[e..]);
      assert r[i..i + 16] == PlaceholderOrigin;
      assert r[i..i + 8] == PlaceholderOrigin[..8];
      assert r[i + 8] == PlaceholderOrigin[8];
      forall k | 0 <= k < i ensures !OriginAt(r, k) {
        NoEarlierOrigin(v, i, e, k);
      }
      FirstOriginIs(r, 0, i);
      assert r[i + 8..i + 16] == PlaceholderOrigin[8..];
      RunEndAt(r, i + 8, i + 16);
      assert r[..i] == v[..i];
      assert r[i + 16..] == v[e..];
  }

  lemma PlaceholderParts()
    ensures PlaceholderOrigin[..8] == "https://" && PlaceholderOrigin[8] == 't'
    ensures |PlaceholderOrigin| == 16 && forall k :: 8 <= k < 16 ==> PlaceholderOrigin[k] != '/'
  {
  }

  lemma Embedded<T>(a: seq<T>, p: seq<T>, b: seq<T>)
    ensures (a + p + b)[..|a|] == a
    ensures (a + p + b)[|a|..|a| + |p|] == p
    ensures (a + p + b)[|a| + |p|..] == b
  {
  }

  lemma NoEarlierOrigin(v: string, i: nat, e: nat, k: nat)
    requires OriginAt(v, i) && forall j :: 0 <= j < i ==> !OriginAt(v, j)
    requires i + 8 <= e <= |v|
    requires k < i
    ensures !OriginAt(v[..i] + PlaceholderOrigin + v[e..], k)
  {
    var r := v[..i] + PlaceholderOrigin + v[e..];
    assert r[i] == 'h' == v[i] by { assert v[i] == v[i..i + 8][0]; }
    if k + 8 <= i {
      assert r[k..k + 8] == v[k..k + 8];
      assert r[k + 8] == v[k + 8];
      assert !OriginAt(v, k);
    } else {
      var d := i - k;
      assert 1 <= d < 8;
      assert "https://"[d] != 'h';
      assert r[k..k + 8][d] == 'h';
    }
  }

  /** No two offsets are both the leftmost match. */
  lemma LeftmostUnique(v: string)
    ensures forall i, j ::
      (OriginAt(v, i) && (forall k :: 0 <= k < i ==> !OriginAt(v, k))
       && OriginAt(v, j) && (forall k :: 0 <= k < j ==> !OriginAt(v, k))) ==> i == j
  {
  }

  /** The headers the relay does not forward. */
  predicate IsDroppedHeader(key: string) {
    var k := ToLower(key);
    StartsWith(k, "x-forwarded") || StartsWith(k, "connection") || StartsWith(k, "x-gt")
  }

  predicate IsRefererHeader(key: string) {
    StartsWith(ToLower(key), "referer")
  }

  /** The `"key: value"` entry of one forwarded header. */
  function HeaderLine(key: string, value: string): string {
    key + ": " + (if IsRefererHeader(key) then RewriteReferer(value) else value)
  }

  /** The header list after visiting the keys in `order`. */
  function OutgoingHeaders(headersMap: map<string, string>, order: seq<string>): seq<string>
    requires forall i :: 0 <= i < |order| ==> order[i] in headersMap
  {
    if order == [] then []
    else
      var key := order[|order| - 1];
      OutgoingHeaders(headersMap, order[..|order| - 1])
        + (if IsDroppedHeader(key) then [] else [HeaderLine(key, headersMap[key])])
  }

  /** `order` visits every key of the map once: the order in which the hash
      map happens to iterate. */
  predicate EnumeratesKeys(headersMap: map<string, string>, order: seq<string>) {
    && (forall i :: 0 <= i < |order| ==> order[i] in headersMap)
    && (forall k :: k in headersMap ==> k in order)
    && (forall i, j :: 0 <= i < j < |order| ==> order[i] != order[j])
  }

  /** An entry is in the list exactly when it is the entry of a key that is
      not dropped, whatever order the map is visited in. */
  lemma {:induction false} OutgoingHeadersMembers(headersMap: map<string, string>, order: seq<string>, line: string)
    requires forall i :: 0 <= i < |order| ==> order[i] in headersMap
    ensures line in OutgoingHeaders(headersMap, order) <==>
      exists i :: 0 <= i < |order| && !IsDroppedHeader(order[i]) && line == HeaderLine(order[i], headersMap[order[i]])
    decreases |order|
  {
    if order != [] {
      var n := |order| - 1;
      var pre, key := order[..n], order[n];
      OutgoingHeadersMembers(headersMap, pre, line);
      var tail := if IsDroppedHeader(key) then [] else [HeaderLine(key, headersMap[key])];
      assert OutgoingHeaders(headersMap, order) == OutgoingHeaders(headersMap, pre) + tail;
      assert forall i :: 0 <= i < n ==> pre[i] == order[i];
    }
  }

  /** With `order` an enumeration of the map, the list holds the entry of
      every kept header. */
  lemma ForwardedHeaders(headersMap: map<string, string>, order: seq<string>, key: string)
    requires EnumeratesKeys(headersMap, order)
    requires key in headersMap && !IsDroppedHeader(key)
    ensures HeaderLine(key, headersMap[key]) in OutgoingHeaders(headersMap, order)
  {
    var i :| 0 <= i < |order| && order[i] == key;
    OutgoingHeadersMembers(headersMap, order, HeaderLine(key, headersMap[key]));
  }

  /** The loop that builds the libcurl header list. */
  method BuildHeaderList(headersMap: map<string, string>, order: seq<string>) returns (headerList: seq<string>)
    requires EnumeratesKeys(headersMap, order)
    ensures headerList == OutgoingHeaders(headersMap, order)
  {
    headerList := [];
    var i := 0;
    while i < |order|
      invariant 0 <= i <= |order|
      invariant headerList == OutgoingHeaders(headersMap, order[..i])
    {
      assert order[..i + 1][..i] == order[..i];
      var key := order[i];
      if IsDroppedHeader(key) {
        i := i + 1;
        continue;
      }
      if IsRefererHeader(key) {
        var rewritten := RewriteReferer(headersMap[key]);
        headerList := headerList + [key + ": " + rewritten];
        i := i + 1;
        continue;
      }
      headerList := headerList + [key + ": " + headersMap[key]];
      i := i + 1;
    }
    assert order[..i] == order;
  }

  // ---------------------------------------------------------------------
  // The response head (558-559, 586-604) and the status text (617-627)
  // ---------------------------------------------------------------------

  /** `get_status_text`. */
  function StatusText(code: nat): (text: string)
    requires code < 0x1_0000_0000
    ensures text == "Unknown Status" <==> code !in {200, 400, 401, 403, 404, 500}
  {
    match code
    case 200 => "OK"
    case 400 => "Bad Request"
    case 401 => "Unauthorized"
    case 403 => "Forbidden"
    case 404 => "Not Found"
    case 500 => "Internal Server Error"
    case _ => "Unknown Status"
  }

  /** Known codes have their own texts. */
  lemma StatusTextsDistinct(a: nat, b: nat)
    requires a < 0x1_0000_0000 && b < 0x1_0000_0000
    requires StatusText(a) == StatusText(b) && StatusText(a) != "Unknown Status"
    ensures a == b
  {
  }

  /** Response lines that are not relayed. */
  predicate IsSkippedLine(line: string) {
    StartsWith(line, "HTTP/1") || StartsWith(line, "HTTP/2") || StartsWith(line, "Date")
      || StartsWith(line, "content-encoding")
  }

  predicate IsContentLengthLine(line: string) {
    StartsWith(ToLower(line), "content-length:")
  }

  /** The header that replaces any Content-Length line. */
  function ContentLengthLine(bodyLen: nat): string {
    "Content-Length: " + Decimal(bodyLen) + "\r\n"
  }

  /** What is written for one response line that is not skipped. */
  function RelayedLine(line: string, bodyLen: nat): string {
    if IsContentLengthLine(line) then ContentLengthLine(bodyLen) else line
  }

  /** The lines written for the collected response headers. */
  function RelayedLines(lines: seq<string>, bodyLen: nat): seq<string> {
    if lines == [] then []
    else
      var last := lines[|lines| - 1];
      RelayedLines(lines[..|lines| - 1], bodyLen)
        + (if IsSkippedLine(last) then [] else [RelayedLine(last, bodyLen)])
  }

  /** The header relay loop: the writes it makes, in order. */
  method RelayHeaders(lines: seq<string>, bodyLen: nat) returns (written: seq<string>)
    ensures written == RelayedLines(lines, bodyLen)
  {
    written := [];
    var i := 0;
    while i < |lines|
      invariant 0 <= i <= |lines|
      invariant written == RelayedLines(lines[..i], bodyLen)
    {
      assert lines[..i + 1][..i] == lines[..i];
      var line := lines[i];
      if IsSkippedLine(line) {
        i := i + 1;
        continue;
      }
      if IsContentLengthLine(line) {
        written := written + [ContentLengthLine(bodyLen)];
      } else {
        written := written + [line];
      }
      i := i + 1;
    }
    assert lines[..i] == lines;
  }

  /** The relay keeps the order of the lines: it distributes over concatenation. */
  lemma {:induction false} RelayedLinesAppend(a: seq<string>, b: seq<string>, bodyLen: nat)
    ensures RelayedLines(a + b, bodyLen) == RelayedLines(a, bodyLen) + RelayedLines(b, bodyLen)
    decreases |b|
  {
    if b == [] {
      assert a + b == a;
    } else {
      var n := |b| - 1;
      assert (a + b)[..|a + b| - 1] == a + b[..n];
      assert (a + b)[|a + b| - 1] == b[n];
      RelayedLinesAppend(a, b[..n], bodyLen);
    }
  }

  /** A line is written exactly when it comes from a line that is not skipped:
      verbatim, or as the recomputed Content-Length. */
  lemma {:induction false} RelayedLinesMembers(lines: seq<string>, bodyLen: nat, w: string)
    ensures w in RelayedLines(lines, bodyLen) <==>
      exists i :: 0 <= i < |lines| && !IsSkippedLine(lines[i]) && w == RelayedLine(lines[i], bodyLen)
    decreases |lines|
  {
    if lines != [] {
      var n := |lines| - 1;
      var pre, last := lines[..n], lines[n];
      RelayedLinesMembers(pre, bodyLen, w);
      var tail := if IsSkippedLine(last) then [] else [RelayedLine(last, bodyLen)];
      assert RelayedLines(lines, bodyLen) == RelayedLines(pre, bodyLen) + tail;
      assert forall i :: 0 <= i < n ==> pre[i] == lines[i];
    }
  }

  /** Every written line is one the relay does not skip, and every written
      Content-Length header states the length of the body actually written. */
  lemma {:induction false} RelayedLinesClean(lines: seq<string>, bodyLen: nat)
    ensures forall w :: w in RelayedLines(lines, bodyLen) ==> !IsSkippedLine(w)
    ensures forall w :: w in RelayedLines(lines, bodyLen) && IsContentLengthLine(w) ==> w == ContentLengthLine(bodyLen)
    decreases |lines|
  {
    if lines != [] {
      RelayedLinesClean(lines[..|lines| - 1], bodyLen);
      var cl := ContentLengthLine(bodyLen);
      FirstDiffers(cl, "HTTP/1");
      FirstDiffers(cl, "HTTP/2");
      FirstDiffers(cl, "Date");
      FirstDiffers(cl, "content-encoding");
    }
  }

  /** The length in a relayed Content-Length header reads back as the body length. */
  lemma ContentLengthReadsBack(bodyLen: nat)
    ensures var line := ContentLengthLine(bodyLen);
      IsContentLengthLine(line) && line[16..|line| - 2] == Decimal(bodyLen)
      && ParseDecimal(line[16..|line| - 2]) == bodyLen
  {
    var line := ContentLengthLine(bodyLen);
    assert ToLower(line)[..15] == "content-length:";
    assert line[16..|line| - 2] == Decimal(bodyLen);
    DecimalRoundTrip(bodyLen);
  }

  /** The status line as the source builds it: `format!("HTTP/1.1 {}", code)`,
      with no line terminator. */
  function AsWrittenStatusLine(code: int): string {
    "HTTP/1.1 " + SignedDecimal(code)
  }

  /** The status line terminated by CR LF, as HTTP/1.1 requires. */
  function StatusLine(code: int): (line: string)
    ensures EndsWith(line, "\r\n")
  {
    var line := "HTTP/1.1 " + SignedDecimal(code) + "\r\n";
    assert line[|line| - 2..] == "\r\n";
    line
  }

  /** The text of the response head: the status line, then the relayed lines. */
  function ResponseHead(statusLine: string, relayed: seq<string>): string {
    statusLine + Concat(relayed)
  }

  function Concat(pieces: seq<string>): string {
    if pieces == [] then [] else pieces[0] + Concat(pieces[1..])
  }

  /** The bytes of several strings written one after another. */
  function EncodeAll(pieces: seq<string>): seq<byte> {
    if pieces == [] then [] else Utf8.Encode(pieces[0]) + EncodeAll(pieces[1..])
  }

  /** Writing the pieces one by one writes the bytes of their concatenation. */
  lemma {:induction false} EncodeAllConcat(pieces: seq<string>)
    ensures EncodeAll(pieces) == Utf8.Encode(Concat(pieces))
    decreases |pieces|
  {
    if pieces != [] {
      EncodeAllConcat(pieces[1..]);
      Utf8.EncodeAppend(pieces[0], Concat(pieces[1..]));
    }
  }

  /** The bytes the client receives, in the order of the writes: the status
      line, each relayed response line, the body. */
  function ResponseBytes(statusLine: string, responseHeaders: seq<string>, body: seq<byte>): (out: seq<byte>)
    ensures StartsWith(out, Utf8.Encode(statusLine)) && EndsWith(out, body)
  {
    var out := Utf8.Encode(statusLine) + EncodeAll(RelayedLines(responseHeaders, |body|)) + body;
    assert out[..|Utf8.Encode(statusLine)|] == Utf8.Encode(statusLine);
    assert out[|out| - |body|..] == body;
    out
  }

  /** What the client receives is the encoded response head followed by the body. */
  lemma ResponseIsHeadThenBody(statusLine: string, responseHeaders: seq<string>, body: seq<byte>)
    ensures ResponseBytes(statusLine, responseHeaders, body)
      == Utf8.Encode(ResponseHead(statusLine, RelayedLines(responseHeaders, |body|))) + body
  {
    var relayed := RelayedLines(responseHeaders, |body|);
    EncodeAllConcat(relayed);
    Utf8.EncodeAppend(statusLine, Concat(relayed));
  }

  /** The text of the status line without its terminator. */
  function StatusCodeLine(code: int): string {
    "HTTP/1.1 " + SignedDecimal(code)
  }

  /** "HTTP/1.1 <code>" is ASCII with no CR in it. */
  lemma StatusChars(code: int)
    ensures Utf8.IsAscii(StatusCodeLine(code))
    ensures forall k :: 0 <= k < |StatusCodeLine(code)| ==> StatusCodeLine(code)[k] != '\r'
  {
    var status := StatusCodeLine(code);
    forall k | 0 <= k < |status| ensures status[k] < 0x80 as char && status[k] != '\r' {
      if k >= 9 {
        assert status[k] == SignedDecimal(code)[k - 9];
      }
    }
  }

  /** In a sequence whose leading part holds no element starting `sep`, the
      first occurrence of `sep` is the one right after that part. */
  lemma FirstSeparatorAfter<T>(prefix: seq<T>, sep: seq<T>, rest: seq<T>)
    requires |sep| >= 1 && forall j :: 0 <= j < |prefix| ==> prefix[j] != sep[0]
    ensures IndexOf(prefix + sep + rest, sep) == Some(|prefix|)
  {
    var out := prefix + sep + rest;
    assert OccursAt(out, sep, |prefix|) by {
      assert out[|prefix|..|prefix| + |sep|] == sep;
    }
    forall j | 0 <= j < |prefix| ensures !OccursAt(out, sep, j) {
      assert out[j] == prefix[j];
    }
  }

  /** With the corrected status line the first line of the response text is
      exactly "HTTP/1.1 <code>", whatever headers follow. */
  lemma StatusLineIsFirstLine(code: int, relayed: seq<string>)
    ensures var status := "HTTP/1.1 " + SignedDecimal(code);
      IndexOf(ResponseHead(StatusLine(code), relayed), "\r\n") == Some(|status|)
  {
    var status := StatusCodeLine(code);
    StatusChars(code);
    assert ResponseHead(StatusLine(code), relayed) == status + "\r\n" + Concat(relayed);
    FirstSeparatorAfter(status, "\r\n", Concat(relayed));
  }

  /** The bytes of the corrected status line: those of "HTTP/1.1 <code>",
      none of them CR, then CR LF. */
  lemma StatusLineBytes(code: int)
    ensures var sb := Utf8.Encode(StatusCodeLine(code));
      && Utf8.Encode(StatusLine(code)) == sb + [13, 10]
      && |sb| == |StatusCodeLine(code)|
      && forall j :: 0 <= j < |sb| ==> sb[j] != 13
  {
    var status := StatusCodeLine(code);
    StatusChars(code);
    Utf8.EncodeAscii(status);
    var sb := Utf8.Encode(status);
    Utf8.EncodeAppend(status, "\r\n");
    assert Utf8.Encode("\r\n") == [13, 10] by {
      assert "\r\n"[1..] == "\n";
    }
    assert StatusLine(code) == status + "\r\n";
    forall j | 0 <= j < |sb| ensures sb[j] != 13 {
      assert sb[j] == status[j] as int as byte;
    }
  }

  /** With the corrected status line, the first CR LF the client receives
      ends "HTTP/1.1 <code>", whatever headers and body follow. */
  lemma ResponseFirstLine(code: int, responseHeaders: seq<string>, body: seq<byte>)
    ensures var status := "HTTP/1.1 " + SignedDecimal(code);
      IndexOf(ResponseBytes(StatusLine(code), responseHeaders, body), [13, 10]) == Some(|status|)
  {
    var sb := Utf8.Encode(StatusCodeLine(code));
    var rest := EncodeAll(RelayedLines(responseHeaders, |body|)) + body;
    StatusLineBytes(code);
    assert ResponseBytes(StatusLine(code), responseHeaders, body) == sb + [13, 10] + rest;
    FirstSeparatorAfter(sb, [13, 10], rest);
  }

  /** The example response headers: a status line, one header, the blank line. */
  const ExampleHeaders: seq<string> := ["HTTP/1.1 200 OK\r\n", "Server: x\r\n", "\r\n"]

  lemma ExampleRelayed()
    ensures RelayedLines(ExampleHeaders, 0) == ["Server: x\r\n", "\r\n"]
  {
    var lines := ExampleHeaders;
    FirstDiffers(lines[1], "HTTP/1");
    FirstDiffers(lines[1], "HTTP/2");
    FirstDiffers(lines[1], "Date");
    FirstDiffers(lines[1], "content-encoding");
    FirstDiffers(ToLower(lines[1]), "content-length:");
    assert !IsSkippedLine(lines[2]) && !IsContentLengthLine(lines[2]);
    assert IsSkippedLine(lines[0]) by { assert lines[0][..6] == "HTTP/1"; }
    assert lines[..2][..1] == lines[..1];
    assert lines[..1][..0] == [];
    assert RelayedLines(lines[..1], 0) == [];
    assert RelayedLines(lines[..2], 0) == [lines[1]];
  }

  /** As written, the status line runs into the first relayed header: for a
      200 response whose headers are a status line, one header and the blank
      line, the first line the client reads is "HTTP/1.1 200Server: x". */
  lemma AsWrittenStatusLineRunsOn()
    ensures ResponseHead(AsWrittenStatusLine(200), RelayedLines(ExampleHeaders, 0))
      == "HTTP/1.1 200Server: x\r\n\r\n"
  {
    ExampleRelayed();
    assert Decimal(200) == "200" by {
      assert Decimal(20) == "20";
    }
    assert Concat(["Server: x\r\n", "\r\n"]) == "Server: x\r\n\r\n" by {
      assert Concat(["\r\n"]) == "\r\n";
    }
  }

  /** The same, in the bytes the client receives for that response with an
      empty body. */
  lemma AsWrittenResponseRunsOn()
    ensures ResponseBytes(AsWrittenStatusLine(200), ExampleHeaders, [])
      == Utf8.Encode("HTTP/1.1 200Server: x\r\n\r\n")
  {
    ResponseIsHeadThenBody(AsWrittenStatusLine(200), ExampleHeaders, []);
    AsWrittenStatusLineRunsOn();
  }
}
