/**
  The Rust side of the libcurl binding (src/forward/curl_ffi.rs): the names
  printed for CURLcode values and the two callbacks that collect a response
  into shared vectors. A callback's `userdata` is a reference that may be
  null; the `size * nmemb` bytes at `ptr` are passed as a sequence.
 */
module CurlFfi {
  import opened Wrappers
  import opened Text
  import Utf8

  const CurleOk := 0
  const CurleUnsupportedProtocol := 1
  const CurleFailedInit := 2

  /** `Display for CURLcode`. */
  function CurlCodeName(code: int): (name: string)
    ensures name == "Unknown CURLcode" <==> code !in {CurleOk, CurleUnsupportedProtocol, CurleFailedInit}
  {
    if code == CurleOk then "CURLE_OK"
    else if code == CurleUnsupportedProtocol then "CURLE_UNSUPPORTED_PROTOCOL"
    else if code == CurleFailedInit then "CURLE_FAILED_INIT"
    else "Unknown CURLcode"
  }

  /** The three known codes print differently. */
  lemma CurlCodeNamesDistinct(a: int, b: int)
    requires CurlCodeName(a) == CurlCodeName(b) && CurlCodeName(a) != "Unknown CURLcode"
    ensures a == b
  {
  }

  const Crlf := "\r\n"

  function RepeatCrlf(k: nat): (r: string)
    ensures |r| == 2 * k
  {
    if k == 0 then [] else RepeatCrlf(k - 1) + Crlf
  }

  /** `trim_end_matches("\r\n")`: every trailing CR LF removed. */
  function TrimEndCrlf(s: string): (r: string)
    ensures !EndsWith(r, Crlf)
    ensures exists k: nat :: s == r + RepeatCrlf(k)
    decreases |s|
  {
    if EndsWith(s, Crlf) then
      var r := TrimEndCrlf(s[..|s| - 2]);
      var k: nat :| s[..|s| - 2] == r + RepeatCrlf(k);
      assert s == s[..|s| - 2] + Crlf;
      assert s == r + RepeatCrlf(k + 1);
      r
    else
      assert s == s + RepeatCrlf(0);
      s
  }

  /** Trimming undoes appending CR LF pairs to a line that does not end in
      one: the stripped text is determined. */
  lemma {:induction false} TrimAppended(line: string, k: nat)
    requires !EndsWith(line, Crlf)
    ensures TrimEndCrlf(line + RepeatCrlf(k)) == line
    decreases k
  {
    if k == 0 {
      assert line + RepeatCrlf(0) == line;
    } else {
      var s := line + RepeatCrlf(k);
      assert s == (line + RepeatCrlf(k - 1)) + Crlf;
      assert EndsWith(s, Crlf) by { assert s[|s| - 2..] == Crlf; }
      assert s[..|s| - 2] == line + RepeatCrlf(k - 1);
      TrimAppended(line, k - 1);
    }
  }

  /** Trimming twice trims no more. */
  lemma TrimIdempotent(s: string)
    ensures TrimEndCrlf(TrimEndCrlf(s)) == TrimEndCrlf(s)
  {
    TrimAppended(TrimEndCrlf(s), 0);
  }

  /** What one header callback adds: the trimmed text for valid UTF-8,
      nothing otherwise. */
  function HeaderEntry(bytes: seq<byte>): (entry: seq<string>)
    ensures |entry| <= 1
    ensures |entry| == 1 <==> Utf8.Decode(bytes).Some?
  {
    match Utf8.Decode(bytes)
    case Some(s) => [TrimEndCrlf(s)]
    case None => []
  }

  /** A header line delivered as the UTF-8 bytes of a text is stored as that
      text without its line ending. */
  lemma HeaderEntryOfText(line: string, k: nat)
    requires !EndsWith(line, Crlf)
    ensures HeaderEntry(Utf8.Encode(line + RepeatCrlf(k))) == [line]
  {
    Utf8.DecodeEncode(line + RepeatCrlf(k));
    TrimAppended(line, k);
  }

  /** The `Vec<String>` behind the header callback's userdata. */
  class HeaderVec {
    var lines: seq<string>

    constructor ()
      ensures lines == []
    {
      lines := [];
    }
  }

  /** The `Vec<u8>` behind the write callback's userdata. */
  class BodyVec {
    var bytes: seq<byte>

    constructor ()
      ensures bytes == []
    {
      bytes := [];
    }
  }

  /** `header_callback`. */
  method HeaderCallback(ptr: seq<byte>, size: nat, nmemb: nat, userdata: HeaderVec?) returns (written: nat)
    requires |ptr| == size * nmemb
    modifies userdata
    ensures userdata == null ==> written == 0
    ensures userdata != null ==>
      written == size * nmemb && userdata.lines == old(userdata.lines) + HeaderEntry(ptr)
  {
    var realSize := size * nmemb;
    if userdata == null {
      return 0;
    }
    var decoded := Utf8.Decode(ptr);
    if decoded.Some? {
      var header := TrimEndCrlf(decoded.value);
      userdata.lines := userdata.lines + [header];
    }
    return realSize;
  }

  /** `write_callback`. */
  method WriteCallback(ptr: seq<byte>, size: nat, nmemb: nat, userdata: BodyVec?) returns (written: nat)
    requires |ptr| == size * nmemb
    modifies userdata
    ensures userdata == null ==> written == 0
    ensures userdata != null ==> written == size * nmemb && userdata.bytes == old(userdata.bytes) + ptr
  {
    var realSize := size * nmemb;
    if userdata == null {
      return 0;
    }
    userdata.bytes := userdata.bytes + ptr;
    return realSize;
  }

  /** A transfer delivers its body in chunks; the body collected is their
      concatenation in order. */
  method CollectBody(chunks: seq<seq<byte>>) returns (body: seq<byte>)
    ensures body == Flatten(chunks)
  {
    var vec := new BodyVec();
    var i := 0;
    while i < |chunks|
      invariant 0 <= i <= |chunks|
      invariant vec.bytes == Flatten(chunks[..i])
    {
      assert chunks[..i + 1][..i] == chunks[..i];
      var n := WriteCallback(chunks[i], |chunks[i]|, 1, vec);
      i := i + 1;
    }
    assert chunks[..i] == chunks;
    body := vec.bytes;
  }

  function Flatten(chunks: seq<seq<byte>>): (r: seq<byte>)
    ensures chunks != [] ==> EndsWith(r, chunks[|chunks| - 1])
  {
    if chunks == [] then []
    else
      var r := Flatten(chunks[..|chunks| - 1]) + chunks[|chunks| - 1];
      assert r[|r| - |chunks[|chunks| - 1]|..] == chunks[|chunks| - 1];
      r
  }

  /** The collected body is as long as all chunks together. */
  lemma {:induction false} FlattenLength(chunks: seq<seq<byte>>)
    ensures |Flatten(chunks)| == SumLengths(chunks)
    decreases |chunks|
  {
    if chunks != [] {
      FlattenLength(chunks[..|chunks| - 1]);
      SumLengthsSnoc(chunks[..|chunks| - 1], chunks[|chunks| - 1]);
      assert chunks[..|chunks| - 1] + [chunks[|chunks| - 1]] == chunks;
    }
  }

  function SumLengths(chunks: seq<seq<byte>>): nat {
    if chunks == [] then 0 else |chunks[0]| + SumLengths(chunks[1..])
  }

  lemma {:induction false} SumLengthsSnoc(chunks: seq<seq<byte>>, last: seq<byte>)
    ensures SumLengths(chunks + [last]) == SumLengths(chunks) + |last|
    decreases |chunks|
  {
    if chunks == [] {
      assert [] + [last] == [last];
    } else {
      assert (chunks + [last])[1..] == chunks[1..] + [last];
      SumLengthsSnoc(chunks[1..], last);
    }
  }
}
