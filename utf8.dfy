/** UTF-8 as Python's codec applies it (RFC 3629, table 3-7 of the Unicode
    standard): strict decoding (`bytes.decode('utf-8')`), lenient decoding
    that drops each maximal ill-formed subpart (`errors='ignore'`), and
    encoding (`str.encode('utf-8')`). */
module Utf8 {

  import opened Basics

  predicate IsContinuation(b: Byte) { 0x80 <= b <= 0xBF }

  /** What stands at the start of a byte string: a well-formed sequence for
      one scalar value, or an ill-formed subpart of `width` bytes that the
      decoder reports as one error. */
  datatype Step = Scalar(c: char, width: nat) | Invalid(width: nat)

  function Next(b: seq<Byte>): (st: Step)
    requires b != []
    ensures 1 <= st.width <= |b| && st.width <= 4
    ensures st.Scalar? && st.width == 1 <==> b[0] < 0x80
    ensures st.Scalar? ==> forall i :: 1 <= i < st.width ==> IsContinuation(b[i])
  {
    var b0: int := b[0];
    if b0 < 0x80 then Scalar(b0 as char, 1)
    else if b0 < 0xC2 then Invalid(1)
    else if b0 < 0xE0 then
      if |b| < 2 || !IsContinuation(b[1]) then Invalid(1)
      else Scalar(((b0 - 0xC0) * 64 + (b[1] as int - 0x80)) as char, 2)
    else if b0 < 0xF0 then
      var lo := if b0 == 0xE0 then 0xA0 else 0x80;
      var hi := if b0 == 0xED then 0x9F else 0xBF;
      if |b| < 2 || !(lo <= b[1] <= hi) then Invalid(1)
      else if |b| < 3 || !IsContinuation(b[2]) then Invalid(2)
      else
        var v := (b0 - 0xE0) * 4096 + (b[1] as int - 0x80) * 64 + (b[2] as int - 0x80);
        assert v < 0xD800 || 0xE000 <= v < 0x10000;
        Scalar(v as char, 3)
    else if b0 < 0xF5 then
      var lo := if b0 == 0xF0 then 0x90 else 0x80;
      var hi := if b0 == 0xF4 then 0x8F else 0xBF;
      if |b| < 2 || !(lo <= b[1] <= hi) then Invalid(1)
      else if |b| < 3 || !IsContinuation(b[2]) then Invalid(2)
      else if |b| < 4 || !IsContinuation(b[3]) then Invalid(3)
      else
        var v := (b0 - 0xF0) * 262144 + (b[1] as int - 0x80) * 4096 + (b[2] as int - 0x80) * 64 + (b[3] as int - 0x80);
        assert 0x10000 <= v <= 0x10FFFF;
        Scalar(v as char, 4)
    else Invalid(1)
  }

  /** `bytes.decode('utf-8')`: `None` where Python raises `UnicodeDecodeError`. */
  function Decode(b: seq<Byte>): (r: Option<string>)
    ensures r.Some? ==> |r.value| <= |b|
    decreases |b|
  {
    if b == [] then Some([])
    else match Next(b)
      case Invalid(_) => None
      case Scalar(c, w) =>
        match Decode(b[w..])
        case None => None
        case Some(rest) => Some([c] + rest)
  }

  /** `bytes.decode('utf-8', errors='ignore')`. */
  function DecodeIgnoring(b: seq<Byte>): (r: string)
    ensures |r| <= |b|
    decreases |b|
  {
    if b == [] then []
    else match Next(b)
      case Invalid(w) => DecodeIgnoring(b[w..])
      case Scalar(c, w) => [c] + DecodeIgnoring(b[w..])
  }

  /** Where strict decoding succeeds, ignoring errors changes nothing. */
  lemma {:induction false} IgnoringAgrees(b: seq<Byte>)
    requires Decode(b).Some?
    ensures DecodeIgnoring(b) == Decode(b).value
    decreases |b|
  {
    if b != [] {
      IgnoringAgrees(b[Next(b).width..]);
    }
  }

  predicate IsAscii(b: seq<Byte>)
  {
    forall i :: 0 <= i < |b| ==> b[i] < 0x80
  }

  /** The characters with the codes of the given bytes. */
  function Chars(b: seq<Byte>): (s: string)
    requires IsAscii(b)
  {
    seq(|b|, i requires 0 <= i < |b| => b[i] as char)
  }

  /** ASCII decodes, strictly and leniently, to the characters with the same
      codes. */
  lemma {:induction false} AsciiDecodes(b: seq<Byte>)
    requires IsAscii(b)
    ensures Decode(b) == Some(Chars(b))
    ensures DecodeIgnoring(b) == Chars(b)
    decreases |b|
  {
    if b != [] {
      AsciiDecodes(b[1..]);
      assert Chars(b) == [b[0] as char] + Chars(b[1..]);
    }
  }

  /** A byte that can never occur in UTF-8 makes strict decoding fail. */
  lemma {:induction false} ForbiddenByteFails(b: seq<Byte>, k: nat)
    requires k < |b| && b[k] >= 0xF5
    ensures Decode(b) == None
    decreases |b|
  {
    var w := Next(b).width;
    if k == 0 {
    } else if Next(b).Scalar? {
      ForbiddenByteFails(b[w..], k - w);
    }
  }

  /** `str.encode('utf-8')` of one character. */
  function EncodeChar(c: char): (r: seq<Byte>)
    ensures 1 <= |r| <= 4
  {
    var v := c as int;
    if v < 0x80 then [v]
    else if v < 0x800 then [0xC0 + v / 64, 0x80 + v % 64]
    else if v < 0x10000 then [0xE0 + v / 4096, 0x80 + (v / 64) % 64, 0x80 + v % 64]
    else [0xF0 + v / 262144, 0x80 + (v / 4096) % 64, 0x80 + (v / 64) % 64, 0x80 + v % 64]
  }

  /** `str.encode('utf-8')`. */
  function Encode(s: string): (r: seq<Byte>)
  {
    if s == [] then [] else EncodeChar(s[0]) + Encode(s[1..])
  }

  /** Decoding reads the encoding of a character back as that character,
      whatever follows it. */
  lemma NextEncodeChar(c: char, rest: seq<Byte>)
    ensures Next(EncodeChar(c) + rest) == Scalar(c, |EncodeChar(c)|)
  {
    var v := c as int;
    var b := EncodeChar(c) + rest;
    if v < 0x80 {
      assert b[0] == v;
    } else if v < 0x800 {
      assert b[0] == 0xC0 + v / 64 && b[1] == 0x80 + v % 64;
      assert (v / 64) * 64 + v % 64 == v;
    } else if v < 0x10000 {
      NextThreeBytes(v, b);
    } else {
      NextFourBytes(v, b);
    }
  }

  lemma NextThreeBytes(v: int, b: seq<Byte>)
    requires 0x800 <= v < 0xD800 || 0xE000 <= v < 0x10000
    requires |b| >= 3 && b[0] == 0xE0 + v / 4096 && b[1] == 0x80 + (v / 64) % 64 && b[2] == 0x80 + v % 64
    ensures Next(b) == Scalar(v as char, 3)
  {
    assert (v / 4096) * 4096 + ((v / 64) % 64) * 64 + v % 64 == v;
    assert b[0] == 0xE0 ==> b[1] >= 0xA0;
    assert b[0] == 0xED ==> b[1] <= 0x9F;
  }

  lemma NextFourBytes(v: int, b: seq<Byte>)
    requires 0x10000 <= v <= 0x10FFFF
    requires |b| >= 4 && b[0] == 0xF0 + v / 262144 && b[1] == 0x80 + (v / 4096) % 64
    requires b[2] == 0x80 + (v / 64) % 64 && b[3] == 0x80 + v % 64
    ensures Next(b) == Scalar(v as char, 4)
  {
    FourByteDigits(v);
  }

  /** The four-byte digits of a supplementary code point and their ranges. */
  lemma FourByteDigits(v: int)
    requires 0x10000 <= v <= 0x10FFFF
    ensures (v / 262144) * 262144 + ((v / 4096) % 64) * 4096 + ((v / 64) % 64) * 64 + v % 64 == v
    ensures 0 <= v / 262144 <= 4
    ensures v / 262144 == 0 ==> (v / 4096) % 64 >= 0x10
    ensures v / 262144 == 4 ==> (v / 4096) % 64 <= 0x0F
  {
  }

  /** Encoding and strict decoding are inverse: what the server encodes, the
      client decodes back to the same text; so does the lenient decoder. */
  lemma {:induction false} DecodeEncode(s: string)
    ensures Decode(Encode(s)) == Some(s)
    ensures DecodeIgnoring(Encode(s)) == s
    decreases |s|
  {
    if s != [] {
      var e, tail := EncodeChar(s[0]), Encode(s[1..]);
      NextEncodeChar(s[0], tail);
      DecodeEncode(s[1..]);
      assert (e + tail)[|e|..] == tail;
      assert [s[0]] + s[1..] == s;
    }
    IgnoringAgrees(Encode(s));
  }

  predicate AsciiText(s: string)
  {
    forall i :: 0 <= i < |s| ==> s[i] as int < 0x80
  }

  /** An ASCII text encodes to its character codes, one byte each. */
  lemma {:induction false} EncodeAscii(s: string)
    requires AsciiText(s)
    ensures |Encode(s)| == |s|
    ensures forall i :: 0 <= i < |s| ==> Encode(s)[i] == s[i] as int
    decreases |s|
  {
    if s != [] {
      EncodeAscii(s[1..]);
    }
  }

  lemma {:induction false} EncodeConcat(a: string, b: string)
    ensures Encode(a + b) == Encode(a) + Encode(b)
    decreases |a|
  {
    if a == [] {
      assert a + b == b;
    } else {
      assert (a + b)[0] == a[0] && (a + b)[1..] == a[1..] + b;
      EncodeConcat(a[1..], b);
      calc {
        Encode(a + b);
        EncodeChar(a[0]) + Encode(a[1..] + b);
        EncodeChar(a[0]) + (Encode(a[1..]) + Encode(b));
        (EncodeChar(a[0]) + Encode(a[1..])) + Encode(b);
      }
    }
  }
}
