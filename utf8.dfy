/**
  UTF-8 as Rust's `std::str::from_utf8` accepts it: the well-formed byte
  sequences of the Unicode Standard (Table 3-7), so no overlong forms, no
  surrogate code points and nothing above U+10FFFF. `Encode` is what
  `str::as_bytes` yields for a string.
 */
module Utf8 {
  import opened Wrappers
  import opened Text

  /** A continuation byte 10xxxxxx. */
  predicate Cont(b: byte) {
    0x80 <= b < 0xC0
  }

  /** The bytes of one character. */
  function EncodeChar(c: char): (r: seq<byte>)
    ensures 1 <= |r| <= 4
  {
    var cp := c as int;
    if cp < 0x80 then [cp as byte]
    else if cp < 0x800 then [(0xC0 + cp / 64) as byte, (0x80 + cp % 64) as byte]
    else if cp < 0x10000 then
      [(0xE0 + cp / 4096) as byte, (0x80 + (cp / 64) % 64) as byte, (0x80 + cp % 64) as byte]
    else
      [(0xF0 + cp / 262144) as byte, (0x80 + (cp / 4096) % 64) as byte,
       (0x80 + (cp / 64) % 64) as byte, (0x80 + cp % 64) as byte]
  }

  /** The bytes of a string. */
  function Encode(s: string): seq<byte> {
    if s == [] then [] else EncodeChar(s[0]) + Encode(s[1..])
  }

  /** Length of the well-formed sequence that starts `s`, or 0 when the first
      bytes are not a well-formed sequence (Table 3-7 of the Unicode Standard). */
  function SeqLen(s: seq<byte>): (n: nat)
    requires |s| > 0
    ensures n <= 4 && n <= |s|
  {
    var b0 := s[0];
    if b0 < 0x80 then 1
    else if 0xC2 <= b0 <= 0xDF then
      if |s| >= 2 && Cont(s[1]) then 2 else 0
    else if 0xE0 <= b0 <= 0xEF then
      var lo: byte := if b0 == 0xE0 then 0xA0 else 0x80;
      var hi: byte := if b0 == 0xED then 0x9F else 0xBF;
      if |s| >= 3 && lo <= s[1] <= hi && Cont(s[2]) then 3 else 0
    else if 0xF0 <= b0 <= 0xF4 then
      var lo: byte := if b0 == 0xF0 then 0x90 else 0x80;
      var hi: byte := if b0 == 0xF4 then 0x8F else 0xBF;
      if |s| >= 4 && lo <= s[1] <= hi && Cont(s[2]) && Cont(s[3]) then 4 else 0
    else 0
  }

  /** The code point of the well-formed sequence of `n` bytes that starts `s`. */
  function CodePoint(s: seq<byte>, n: nat): (cp: int)
    requires |s| > 0 && n == SeqLen(s) && n > 0
    ensures 0 <= cp < 0xD800 || 0xE000 <= cp < 0x110000
  {
    if n == 1 then s[0] as int
    else if n == 2 then (s[0] as int - 0xC0) * 64 + (s[1] as int - 0x80)
    else if n == 3 then (s[0] as int - 0xE0) * 4096 + (s[1] as int - 0x80) * 64 + (s[2] as int - 0x80)
    else (s[0] as int - 0xF0) * 262144 + (s[1] as int - 0x80) * 4096 + (s[2] as int - 0x80) * 64 + (s[3] as int - 0x80)
  }

  /** `std::str::from_utf8`: the decoded text, or None when the bytes are not UTF-8. */
  function Decode(s: seq<byte>): Option<string>
    decreases |s|
  {
    if s == [] then Some([])
    else
      var n := SeqLen(s);
      if n == 0 then None
      else match Decode(s[n..])
        case None => None
        case Some(rest) => Some([CodePoint(s, n) as char] + rest)
  }

  /** The encoding of one character is recognised as one sequence of its own
      length and decodes to that character, whatever follows it. */
  lemma EncodeCharDecodes(c: char, rest: seq<byte>)
    ensures var e := EncodeChar(c) + rest;
      SeqLen(e) == |EncodeChar(c)| && CodePoint(e, |EncodeChar(c)|) == c as int
  {
    var cp := c as int;
    var e := EncodeChar(c) + rest;
    if cp < 0x80 {
    } else if cp < 0x800 {
      Encode2(cp, e);
    } else if cp < 0x10000 {
      Encode3(cp, e);
    } else {
      Encode4(cp, e);
    }
  }

  lemma Encode2(cp: int, e: seq<byte>)
    requires 0x80 <= cp < 0x800 && |e| >= 2
    requires e[0] == (0xC0 + cp / 64) as byte && e[1] == (0x80 + cp % 64) as byte
    ensures SeqLen(e) == 2 && CodePoint(e, 2) == cp
  {
  }

  lemma Encode3(cp: int, e: seq<byte>)
    requires 0x800 <= cp < 0x10000 && (cp < 0xD800 || 0xE000 <= cp) && |e| >= 3
    requires e[0] == (0xE0 + cp / 4096) as byte
    requires e[1] == (0x80 + (cp / 64) % 64) as byte && e[2] == (0x80 + cp % 64) as byte
    ensures SeqLen(e) == 3 && CodePoint(e, 3) == cp
  {
    var q := cp / 64;
    assert cp / 4096 == q / 64;
  }

  lemma Encode4(cp: int, e: seq<byte>)
    requires 0x10000 <= cp < 0x110000 && |e| >= 4
    requires e[0] == (0xF0 + cp / 262144) as byte && e[1] == (0x80 + (cp / 4096) % 64) as byte
    requires e[2] == (0x80 + (cp / 64) % 64) as byte && e[3] == (0x80 + cp % 64) as byte
    ensures SeqLen(e) == 4 && CodePoint(e, 4) == cp
  {
    var q := cp / 64;
    var q2 := q / 64;
    assert cp / 4096 == q2;
    assert cp / 262144 == q2 / 64;
  }

  /** Re-encoding the character found at the head of well-formed bytes gives
      those bytes back. */
  lemma CodePointEncodes(s: seq<byte>, n: nat)
    requires |s| > 0 && n == SeqLen(s) && n > 0
    ensures EncodeChar(CodePoint(s, n) as char) == s[..n]
  {
    if n == 2 {
      Decode2(s[..2], CodePoint(s, n));
    } else if n == 3 {
      Decode3(s[..3], CodePoint(s, n));
    } else if n == 4 {
      Decode4(s[..4], CodePoint(s, n));
    }
  }

  lemma Decode2(s: seq<byte>, cp: int)
    requires |s| == 2 && 0xC2 <= s[0] <= 0xDF && Cont(s[1])
    requires cp == (s[0] as int - 0xC0) * 64 + (s[1] as int - 0x80)
    ensures 0x80 <= cp < 0x800 && EncodeChar(cp as char) == s
  {
    assert cp / 64 == s[0] as int - 0xC0 && cp % 64 == s[1] as int - 0x80;
  }

  lemma Decode3(s: seq<byte>, cp: int)
    requires |s| == 3 && 0xE0 <= s[0] <= 0xEF && Cont(s[1]) && Cont(s[2])
    requires s[0] == 0xE0 ==> 0xA0 <= s[1]
    requires s[0] == 0xED ==> s[1] <= 0x9F
    requires cp == (s[0] as int - 0xE0) * 4096 + (s[1] as int - 0x80) * 64 + (s[2] as int - 0x80)
    ensures 0x800 <= cp < 0x10000 && (cp < 0xD800 || 0xE000 <= cp)
    ensures EncodeChar(cp as char) == s
  {
    var hi := (s[0] as int - 0xE0) * 64 + (s[1] as int - 0x80);
    assert cp == hi * 64 + (s[2] as int - 0x80);
    assert cp / 64 == hi && cp % 64 == s[2] as int - 0x80;
    assert hi / 64 == s[0] as int - 0xE0 && hi % 64 == s[1] as int - 0x80;
    assert cp / 4096 == hi / 64;
  }

  lemma Decode4(s: seq<byte>, cp: int)
    requires |s| == 4 && 0xF0 <= s[0] <= 0xF4 && Cont(s[1]) && Cont(s[2]) && Cont(s[3])
    requires s[0] == 0xF0 ==> 0x90 <= s[1]
    requires s[0] == 0xF4 ==> s[1] <= 0x8F
    requires cp == (s[0] as int - 0xF0) * 262144 + (s[1] as int - 0x80) * 4096
                 + (s[2] as int - 0x80) * 64 + (s[3] as int - 0x80)
    ensures 0x10000 <= cp < 0x110000
    ensures EncodeChar(cp as char) == s
  {
    var top := (s[0] as int - 0xF0) * 64 + (s[1] as int - 0x80);
    var mid := top * 64 + (s[2] as int - 0x80);
    assert cp == mid * 64 + (s[3] as int - 0x80);
    assert cp / 64 == mid && cp % 64 == s[3] as int - 0x80;
    assert mid / 64 == top && mid % 64 == s[2] as int - 0x80;
    assert top / 64 == s[0] as int - 0xF0 && top % 64 == s[1] as int - 0x80;
    assert cp / 4096 == top;
    assert cp / 262144 == top / 64;
  }

  /** Decoding undoes encoding: every string's bytes are valid UTF-8. */
  lemma {:induction false} DecodeEncode(s: string)
    ensures Decode(Encode(s)) == Some(s)
    decreases |s|
  {
    if s != [] {
      var e := EncodeChar(s[0]);
      var tail := Encode(s[1..]);
      EncodeCharDecodes(s[0], tail);
      assert Encode(s) == e + tail;
      assert (e + tail)[|e|..] == tail;
      DecodeEncode(s[1..]);
      assert s == [s[0]] + s[1..];
    }
  }

  /** Encoding undoes decoding: bytes that decode are exactly the encoding of
      the text they decode to. */
  lemma {:induction false} EncodeDecode(b: seq<byte>)
    requires Decode(b).Some?
    ensures Encode(Decode(b).value) == b
    decreases |b|
  {
    if b != [] {
      DecodeStep(b);
      var n := SeqLen(b);
      EncodeDecode(b[n..]);
      CodePointEncodes(b, n);
      EncodeCons(CodePoint(b, n) as char, Decode(b[n..]).value, b, n);
    }
  }

  /** One step of decoding non-empty valid bytes. */
  lemma DecodeStep(b: seq<byte>)
    requires b != [] && Decode(b).Some?
    ensures SeqLen(b) > 0 && Decode(b[SeqLen(b)..]).Some?
    ensures Decode(b).value == [CodePoint(b, SeqLen(b)) as char] + Decode(b[SeqLen(b)..]).value
  {
  }

  lemma EncodeCons(c: char, s: string, b: seq<byte>, n: nat)
    requires n <= |b| && EncodeChar(c) == b[..n] && Encode(s) == b[n..]
    ensures Encode([c] + s) == b
  {
    assert ([c] + s)[1..] == s;
    assert b == b[..n] + b[n..];
  }

  /** The bytes of a concatenation are the concatenated bytes, so writing
      strings one after another writes the bytes of their concatenation. */
  lemma {:induction false} EncodeAppend(a: string, b: string)
    ensures Encode(a + b) == Encode(a) + Encode(b)
    decreases |a|
  {
    if a == [] {
      assert a + b == b;
    } else {
      assert (a + b)[1..] == a[1..] + b;
      EncodeAppend(a[1..], b);
    }
  }

  predicate IsAscii(s: string) {
    forall i :: 0 <= i < |s| ==> s[i] < 0x80 as char
  }

  /** An ASCII string is encoded one byte per character, each its code. */
  lemma {:induction false} EncodeAscii(s: string)
    requires IsAscii(s)
    ensures |Encode(s)| == |s|
    ensures forall i :: 0 <= i < |s| ==> Encode(s)[i] == s[i] as int as byte
    decreases |s|
  {
    if s != [] {
      assert IsAscii(s[1..]) by {
        forall i | 0 <= i < |s[1..]| ensures s[1..][i] < 0x80 as char {
          assert s[1..][i] == s[i + 1];
        }
      }
      EncodeAscii(s[1..]);
      assert Encode(s) == [s[0] as int as byte] + Encode(s[1..]);
    }
  }
}
