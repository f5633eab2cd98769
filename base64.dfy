/** The base 64 encoding of section 4 of RFC 4648 (alphabet `A-Z a-z 0-9 + /`,
    `=` padding), as Python's `base64.b64encode` produces it, with a strict
    decoder: the text must be a whole number of 4-character quanta, use only
    the alphabet, and carry padding only in its last quantum. */
module Base64 {

  import opened Basics

  /** The character for a 6-bit value (table 1 of RFC 4648). */
  function Symbol(v: nat): (c: char)
    requires v < 64
    ensures IsSymbol(c) && Index(c) == v
  {
    if v < 26 then ('A' as int + v) as char
    else if v < 52 then ('a' as int + v - 26) as char
    else if v < 62 then ('0' as int + v - 52) as char
    else if v == 62 then '+'
    else '/'
  }

  predicate IsSymbol(c: char)
  {
    ('A' <= c <= 'Z') || ('a' <= c <= 'z') || ('0' <= c <= '9') || c == '+' || c == '/'
  }

  /** The 6-bit value of an alphabet character. */
  function Index(c: char): (v: nat)
    requires IsSymbol(c)
    ensures v < 64
  {
    if 'A' <= c <= 'Z' then c as int - 'A' as int
    else if 'a' <= c <= 'z' then c as int - 'a' as int + 26
    else if '0' <= c <= '9' then c as int - '0' as int + 52
    else if c == '+' then 62
    else 63
  }

  /** Three octets as four characters. */
  function EncodeBlock(b0: Byte, b1: Byte, b2: Byte): string
  {
    [Symbol(b0 / 4), Symbol((b0 % 4) * 16 + b1 / 16), Symbol((b1 % 16) * 4 + b2 / 64), Symbol(b2 % 64)]
  }

  /** `b64encode`: every 3 octets become 4 characters; a final group of one or
      two octets is zero-filled and padded with `==` or `=`. */
  function Encode(b: seq<Byte>): (s: string)
    ensures |s| % 4 == 0
    ensures |s| == 0 <==> |b| == 0
    decreases |b|
  {
    if |b| == 0 then []
    else if |b| == 1 then [Symbol(b[0] / 4), Symbol((b[0] % 4) * 16), '=', '=']
    else if |b| == 2 then [Symbol(b[0] / 4), Symbol((b[0] % 4) * 16 + b[1] / 16), Symbol((b[1] % 16) * 4), '=']
    else EncodeBlock(b[0], b[1], b[2]) + Encode(b[3..])
  }

  /** Four alphabet characters as three octets. */
  function DecodeBlock(c0: char, c1: char, c2: char, c3: char): seq<Byte>
    requires IsSymbol(c0) && IsSymbol(c1) && IsSymbol(c2) && IsSymbol(c3)
  {
    [Index(c0) * 4 + Index(c1) / 16, (Index(c1) % 16) * 16 + Index(c2) / 4, (Index(c2) % 4) * 64 + Index(c3)]
  }

  /** Decodes the last quantum, which may carry one or two padding characters. */
  function DecodeLast(q: string): Result<seq<Byte>, string>
    requires |q| == 4
  {
    if !IsSymbol(q[0]) || !IsSymbol(q[1]) then Failure(InvalidCharacter)
    else if q[2] == '=' && q[3] == '=' then Success([Index(q[0]) * 4 + Index(q[1]) / 16])
    else if !IsSymbol(q[2]) then Failure(if q[2] == '=' then IncorrectPadding else InvalidCharacter)
    else if q[3] == '=' then Success([Index(q[0]) * 4 + Index(q[1]) / 16, (Index(q[1]) % 16) * 16 + Index(q[2]) / 4])
    else if !IsSymbol(q[3]) then Failure(InvalidCharacter)
    else Success(DecodeBlock(q[0], q[1], q[2], q[3]))
  }

  const IncorrectPadding := "Incorrect padding"
  const InvalidCharacter := "Only base64 data is allowed"

  function DecodeQuanta(s: string): Result<seq<Byte>, string>
    requires |s| % 4 == 0
    decreases |s|
  {
    if s == [] then Success([])
    else if |s| == 4 then DecodeLast(s)
    else if !(IsSymbol(s[0]) && IsSymbol(s[1]) && IsSymbol(s[2]) && IsSymbol(s[3])) then
      Failure(if '=' in s[..4] then IncorrectPadding else InvalidCharacter)
    else
      match DecodeQuanta(s[4..])
      case Failure(e) => Failure(e)
      case Success(rest) => Success(DecodeBlock(s[0], s[1], s[2], s[3]) + rest)
  }

  /** `b64decode`, strict: `Failure` carries the reason. */
  function Decode(s: string): Result<seq<Byte>, string>
  {
    if |s| % 4 != 0 then Failure(IncorrectPadding) else DecodeQuanta(s)
  }

  lemma BlockRoundTrip(b0: Byte, b1: Byte, b2: Byte)
    ensures var e := EncodeBlock(b0, b1, b2);
            IsSymbol(e[0]) && IsSymbol(e[1]) && IsSymbol(e[2]) && IsSymbol(e[3])
            && DecodeBlock(e[0], e[1], e[2], e[3]) == [b0, b1, b2]
  {
    var e := EncodeBlock(b0, b1, b2);
    assert Index(e[0]) == b0 / 4;
    assert Index(e[1]) == (b0 % 4) * 16 + b1 / 16;
    assert Index(e[2]) == (b1 % 16) * 4 + b2 / 64;
    assert Index(e[3]) == b2 % 64;
    assert ((b0 % 4) * 16 + b1 / 16) / 16 == b0 % 4;
    assert ((b0 % 4) * 16 + b1 / 16) % 16 == b1 / 16;
    assert ((b1 % 16) * 4 + b2 / 64) / 4 == b1 % 16;
    assert ((b1 % 16) * 4 + b2 / 64) % 4 == b2 / 64;
  }

  lemma OneOctetRoundTrip(b: seq<Byte>)
    requires |b| == 1
    ensures Decode(Encode(b)) == Success(b)
  {
    var s := Encode(b);
    assert Index(s[0]) == b[0] / 4;
    assert Index(s[1]) == (b[0] % 4) * 16;
    assert ((b[0] % 4) * 16) / 16 == b[0] % 4;
    assert [Index(s[0]) * 4 + Index(s[1]) / 16] == b;
  }

  lemma TwoOctetRoundTrip(b: seq<Byte>)
    requires |b| == 2
    ensures Decode(Encode(b)) == Success(b)
  {
    var s := Encode(b);
    assert Index(s[0]) == b[0] / 4;
    assert Index(s[1]) == (b[0] % 4) * 16 + b[1] / 16;
    assert Index(s[2]) == (b[1] % 16) * 4;
    assert ((b[0] % 4) * 16 + b[1] / 16) / 16 == b[0] % 4;
    assert ((b[0] % 4) * 16 + b[1] / 16) % 16 == b[1] / 16;
    assert ((b[1] % 16) * 4) / 4 == b[1] % 16;
    assert [Index(s[0]) * 4 + Index(s[1]) / 16, (Index(s[1]) % 16) * 16 + Index(s[2]) / 4] == b;
  }

  /** A quantum without padding followed by more quanta decodes to its block
      followed by the rest. */
  lemma DecodeQuantaCons(e: string, rest: string)
    requires |e| == 4 && IsSymbol(e[0]) && IsSymbol(e[1]) && IsSymbol(e[2]) && IsSymbol(e[3])
    requires |rest| % 4 == 0 && rest != []
    ensures DecodeQuanta(e + rest) == match DecodeQuanta(rest)
                                      case Failure(err) => Failure(err)
                                      case Success(r) => Success(DecodeBlock(e[0], e[1], e[2], e[3]) + r)
  {
    var s := e + rest;
    assert s[0] == e[0] && s[1] == e[1] && s[2] == e[2] && s[3] == e[3];
    assert s[4..] == rest;
    assert |s| > 4;
  }

  lemma DecodeQuantaSingle(e: string)
    requires |e| == 4 && IsSymbol(e[0]) && IsSymbol(e[1]) && IsSymbol(e[2]) && IsSymbol(e[3])
    ensures DecodeQuanta(e) == Success(DecodeBlock(e[0], e[1], e[2], e[3]))
  {
    assert DecodeQuanta(e) == DecodeLast(e);
  }

  /** One step of the round trip: a full block in front of quanta that
      decode to `tail`. */
  lemma BlockStep(b0: Byte, b1: Byte, b2: Byte, rest: string, tail: seq<Byte>)
    requires |rest| % 4 == 0 && rest != []
    requires DecodeQuanta(rest) == Success(tail)
    ensures DecodeQuanta(EncodeBlock(b0, b1, b2) + rest) == Success([b0, b1, b2] + tail)
  {
    BlockRoundTrip(b0, b1, b2);
    QuantumStep(EncodeBlock(b0, b1, b2), rest, tail);
  }

  lemma QuantumStep(e: string, rest: string, tail: seq<Byte>)
    requires |e| == 4 && IsSymbol(e[0]) && IsSymbol(e[1]) && IsSymbol(e[2]) && IsSymbol(e[3])
    requires |rest| % 4 == 0 && rest != []
    requires DecodeQuanta(rest) == Success(tail)
    ensures DecodeQuanta(e + rest) == Success(DecodeBlock(e[0], e[1], e[2], e[3]) + tail)
  {
    DecodeQuantaCons(e, rest);
  }

  lemma LastBlock(b: seq<Byte>)
    requires |b| == 3
    ensures Decode(Encode(b)) == Success(b)
  {
    var e := EncodeBlock(b[0], b[1], b[2]);
    assert Encode(b) == e + [];
    BlockRoundTrip(b[0], b[1], b[2]);
    DecodeQuantaSingle(e);
    assert b == [b[0], b[1], b[2]];
  }

  /** Decoding what was encoded gives back the octets. */
  lemma {:induction false} RoundTrip(b: seq<Byte>)
    ensures Decode(Encode(b)) == Success(b)
    decreases |b|
  {
    if |b| == 1 {
      OneOctetRoundTrip(b);
    } else if |b| == 2 {
      TwoOctetRoundTrip(b);
    } else if |b| == 3 {
      LastBlock(b);
    } else if |b| > 3 {
      RoundTrip(b[3..]);
      BlockStep(b[0], b[1], b[2], Encode(b[3..]), b[3..]);
      assert b == [b[0], b[1], b[2]] + b[3..];
    }
  }

  /** Encoding is empty exactly for empty input. */
  lemma EncodeEmpty(b: seq<Byte>)
    ensures Encode(b) == [] <==> b == []
  {
  }

  /** An encoding ends in an alphabet character or `=`; it never ends in
      whitespace. */
  lemma {:induction false} EncodeLastChar(b: seq<Byte>)
    requires b != []
    ensures var s := Encode(b); s[|s| - 1] == '=' || IsSymbol(s[|s| - 1])
    decreases |b|
  {
    if |b| > 3 {
      EncodeLastChar(b[3..]);
    }
  }

  /** Every character of an encoding is in the alphabet or is `=`. */
  lemma {:induction false} EncodeAlphabet(b: seq<Byte>)
    ensures forall c :: c in Encode(b) ==> c == '=' || IsSymbol(c)
    decreases |b|
  {
    if |b| > 2 {
      EncodeAlphabet(b[3..]);
    }
  }

  /** A text whose length is not a multiple of four never decodes. */
  lemma BadLengthFails(s: string)
    requires |s| % 4 != 0
    ensures Decode(s) == Failure(IncorrectPadding)
  {
  }
}
