/** The reply a request gets: the dictionary every storage operation and the
    dispatcher build, its text as `json.dumps` writes it with the default
    settings (`", "` and `": "` separators, `ensure_ascii`), and the bytes
    that go on the wire, terminated by the blank-line trailer. */
module Response {

  import opened Basics
  import Utf8

  datatype Status = OK | ERROR

  /** A reply dictionary.  A present field is a key of the dictionary; the
      keys are always written in the order of the fields here, which is the
      insertion order of every dictionary the server builds. */
  datatype Envelope = Envelope(
    status: Status,
    data: Option<seq<string>>,
    dataNamafile: Option<string>,
    dataFile: Option<string>,
    message: Option<string>)

  /** `dict(status='ERROR', message=m)`. */
  function ErrorEnvelope(m: string): (e: Envelope)
    ensures e.status == ERROR && e.message == Some(m)
  {
    Envelope(ERROR, None, None, None, Some(m))
  }

  predicate IsPrintable(c: char) { ' ' <= c <= '~' }

  /** Printable ASCII only: what `ensure_ascii` output is made of. */
  predicate Printable(s: string)
  {
    forall i :: 0 <= i < |s| ==> IsPrintable(s[i])
  }

  lemma PrintableConcat(a: string, b: string)
    requires Printable(a) && Printable(b)
    ensures Printable(a + b)
  {
    assert forall i :: |a| <= i < |a + b| ==> (a + b)[i] == b[i - |a|];
  }

  function HexDigit(v: nat): (c: char)
    requires v < 16
    ensures IsHexDigit(c) && HexValue(c) == v
  {
    if v < 10 then ('0' as int + v) as char else ('a' as int + v - 10) as char
  }

  predicate IsHexDigit(c: char) { ('0' <= c <= '9') || ('a' <= c <= 'f') || ('A' <= c <= 'F') }

  function HexValue(c: char): (v: nat)
    requires IsHexDigit(c)
    ensures v < 16
  {
    if '0' <= c <= '9' then c as int - '0' as int
    else if 'a' <= c <= 'f' then c as int - 'a' as int + 10
    else c as int - 'A' as int + 10
  }

  /** Four lower-case hex digits, as in `'\\u{0:04x}'`. */
  function Hex4(v: nat): (s: string)
    requires v < 0x10000
    ensures |s| == 4 && Printable(s)
    ensures forall i :: 0 <= i < 4 ==> IsHexDigit(s[i])
  {
    [HexDigit(v / 4096), HexDigit(v / 256 % 16), HexDigit(v / 16 % 16), HexDigit(v % 16)]
  }

  /** Reading the four digits back gives the number. */
  lemma Hex4Value(v: nat)
    requires v < 0x10000
    ensures HexNumber(Hex4(v)) == v
  {
    var s := Hex4(v);
    assert HexValue(s[0]) == v / 4096 && HexValue(s[1]) == v / 256 % 16;
    assert HexValue(s[2]) == v / 16 % 16 && HexValue(s[3]) == v % 16;
    DivStep(v, 16);
    DivStep(v / 16, 16);
    DivStep(v / 256, 16);
    assert v / 16 / 16 == v / 256;
    assert v / 256 / 16 == v / 4096;
  }

  lemma DivStep(v: nat, d: nat)
    requires d > 0
    ensures v == v / d * d + v % d
  {
  }

  function HexNumber(s: string): nat
    requires |s| == 4 && forall i :: 0 <= i < 4 ==> IsHexDigit(s[i])
  {
    HexValue(s[0]) * 4096 + HexValue(s[1]) * 256 + HexValue(s[2]) * 16 + HexValue(s[3])
  }

  /** One character inside a JSON string with `ensure_ascii`: `"` and `\`
      and the five controls with a short escape get it; other characters
      outside printable ASCII become `\uXXXX`, as a surrogate pair above
      U+FFFF. */
  function EscapeChar(c: char): (r: string)
    ensures Printable(r) && r != []
  {
    if c == '"' then ['\\', '"']
    else if c == '\\' then ['\\', '\\']
    else if c == '\n' then ['\\', 'n']
    else if c == '\r' then ['\\', 'r']
    else if c == '\t' then ['\\', 't']
    else if c == '\U{8}' then ['\\', 'b']
    else if c == '\U{c}' then ['\\', 'f']
    else if IsPrintable(c) then [c]
    else if c as int < 0x10000 then ['\\', 'u'] + Hex4(c as int)
    else
      var v := c as int - 0x10000;
      var hi := ['\\', 'u'] + Hex4(0xD800 + v / 1024);
      var lo := ['\\', 'u'] + Hex4(0xDC00 + v % 1024);
      PrintableConcat(hi, lo);
      hi + lo
  }

  function EscapeString(s: string): (r: string)
    ensures Printable(r)
  {
    if s == [] then []
    else
      var rest := EscapeString(s[1..]);
      PrintableConcat(EscapeChar(s[0]), rest);
      EscapeChar(s[0]) + rest
  }

  /** A JSON string literal. */
  function Quote(s: string): (r: string)
    ensures Printable(r)
  {
    PrintableConcat(['"'], EscapeString(s));
    PrintableConcat(['"'] + EscapeString(s), ['"']);
    ['"'] + EscapeString(s) + ['"']
  }

  /** The items of a JSON list, separated by `", "`. */
  function Items(xs: seq<string>): (r: string)
    ensures Printable(r)
  {
    if xs == [] then []
    else if |xs| == 1 then Quote(xs[0])
    else
      PrintableConcat(Quote(xs[0]), ", ");
      PrintableConcat(Quote(xs[0]) + ", ", Items(xs[1..]));
      Quote(xs[0]) + ", " + Items(xs[1..])
  }

  /** `", "` and the member `"key": value`, when the field is present. */
  function Member(key: string, value: Option<string>): (r: string)
    requires Printable(key) && (value.Some? ==> Printable(value.value))
    ensures Printable(r)
  {
    match value
    case None => []
    case Some(v) =>
      PrintableConcat(", " + key, ": ");
      PrintableConcat(", " + key + ": ", v);
      ", " + key + ": " + v
  }

  /** The status as a JSON string literal. */
  function StatusLiteral(s: Status): (r: string)
    ensures Printable(r)
  {
    match s
    case OK => "\"OK\""
    case ERROR => "\"ERROR\""
  }

  function Lift(xs: Option<seq<string>>): (r: Option<string>)
    ensures r.Some? ==> Printable(r.value)
  {
    match xs
    case None => None
    case Some(v) =>
      PrintableConcat("[", Items(v));
      PrintableConcat("[" + Items(v), "]");
      Some("[" + Items(v) + "]")
  }

  function QuoteOpt(s: Option<string>): (r: Option<string>)
    ensures r.Some? ==> Printable(r.value)
  {
    match s
    case None => None
    case Some(v) => Some(Quote(v))
  }

  /** `json.dumps(e)`. */
  function Json(e: Envelope): string
  {
    "{\"status\": " + StatusLiteral(e.status)
    + Member("\"data\"", Lift(e.data))
    + Member("\"data_namafile\"", QuoteOpt(e.dataNamafile))
    + Member("\"data_file\"", QuoteOpt(e.dataFile))
    + Member("\"message\"", QuoteOpt(e.message))
    + "}"
  }

  /** The text of a reply is printable ASCII, so it never holds a carriage
      return or a line feed. */
  lemma JsonPrintable(e: Envelope)
    ensures Printable(Json(e))
  {
    var status := "{\"status\": " + StatusLiteral(e.status);
    var a := Member("\"data\"", Lift(e.data));
    var b := Member("\"data_namafile\"", QuoteOpt(e.dataNamafile));
    var c := Member("\"data_file\"", QuoteOpt(e.dataFile));
    var d := Member("\"message\"", QuoteOpt(e.message));
    PrintableConcat("{\"status\": ", StatusLiteral(e.status));
    PrintableConcat(status, a);
    PrintableConcat(status + a, b);
    PrintableConcat(status + a + b, c);
    PrintableConcat(status + a + b + c, d);
    PrintableConcat(status + a + b + c + d, "}");
  }

  /** The blank line that ends every response. */
  const Trailer: string := "\r\n\r\n"

  /** `(json.dumps(e) + "\r\n\r\n").encode('utf-8')`. */
  function Wire(e: Envelope): seq<Byte>
  {
    Utf8.Encode(Json(e) + Trailer)
  }

  /** The fixed reply the threaded server sends for a request that is not
      valid UTF-8 is exactly the reply dictionary with that message. */
  const InvalidEncodingText: string :=
    "{\"status\": " + "\"ERROR\"" + (", " + "\"message\"" + ": " + ("\"" + "Invalid character encoding" + "\"")) + "}"

  lemma InvalidEncodingIsJson()
    ensures Json(ErrorEnvelope("Invalid character encoding")) == InvalidEncodingText
  {
    var m := "Invalid character encoding";
    assert Printable(m);
    assert '"' !in m && '\\' !in m;
    PlainEscape(m);
    ErrorJson(m);
    assert Quote(m) == "\"" + m + "\"";
  }

  lemma PlainChar(c: char)
    requires IsPrintable(c) && c != '"' && c != '\\'
    ensures EscapeChar(c) == [c]
  {
  }

  /** Printable text without `"` or `\` is written as it stands. */
  lemma {:induction false} PlainEscape(s: string)
    requires Printable(s) && '"' !in s && '\\' !in s
    ensures EscapeString(s) == s
    decreases |s|
  {
    if s != [] {
      assert s[0] in s;
      PlainChar(s[0]);
      assert forall c :: c in s[1..] ==> c in s;
      PlainEscape(s[1..]);
      assert s == [s[0]] + s[1..];
    }
  }

  /** The text of an error reply. */
  lemma ErrorJson(m: string)
    ensures Json(ErrorEnvelope(m)) == "{\"status\": " + "\"ERROR\"" + (", " + "\"message\"" + ": " + Quote(m)) + "}"
  {
    var e := ErrorEnvelope(m);
    var head := "{\"status\": " + StatusLiteral(e.status);
    assert head + Member("\"data\"", Lift(e.data)) == head;
    assert head + Member("\"data_namafile\"", QuoteOpt(e.dataNamafile)) == head;
    assert head + Member("\"data_file\"", QuoteOpt(e.dataFile)) == head;
  }

  /** The bytes of the trailer. */
  const TrailerBytes: seq<Byte> := [13, 10, 13, 10]

  /** A client that reads up to the first blank line gets the whole reply:
      the response is the encoded text followed by the trailer, and no
      carriage return comes before the trailer. */
  lemma TrailerOnlyAtEnd(e: Envelope)
    ensures var w := Wire(e);
            |w| >= 4 && w[|w| - 4..] == TrailerBytes && 13 !in w[..|w| - 4]
  {
    var j := Json(e);
    Utf8.EncodeConcat(j, Trailer);
    TrailerEncoding();
    PrintableHasNoReturn(e);
    var w := Utf8.Encode(j) + TrailerBytes;
    assert w[..|w| - 4] == Utf8.Encode(j);
    assert w[|w| - 4..] == TrailerBytes;
  }

  lemma TrailerEncoding()
    ensures Utf8.Encode(Trailer) == TrailerBytes
  {
  }

  lemma PrintableHasNoReturn(e: Envelope)
    ensures 13 !in Utf8.Encode(Json(e))
  {
    var j := Json(e);
    JsonPrintable(e);
    assert Utf8.AsciiText(j);
    Utf8.EncodeAscii(j);
    assert forall i :: 0 <= i < |j| ==> Utf8.Encode(j)[i] >= 32;
  }

  /** Reading a JSON string body back (`json.loads` of what `Quote` wrote,
      without the quotes): the escapes `EscapeChar` produces, and `\uXXXX`
      surrogate pairs joined into one character. */
  function Unescape(s: string): Option<string>
    decreases |s|
  {
    if s == [] then Some([])
    else if s[0] == '"' then None
    else if s[0] != '\\' then ConsSome([s[0]], Unescape(s[1..]))
    else if |s| < 2 then None
    else if s[1] == 'u' then
      if |s| < 6 || !(forall i :: 2 <= i < 6 ==> IsHexDigit(s[i])) then None
      else
        var v := HexNumber(s[2..6]);
        if v < 0xD800 || 0xE000 <= v then ConsSome([v as char], Unescape(s[6..]))
        else if 0xDC00 <= v then None
        else if |s| < 12 || s[6] != '\\' || s[7] != 'u' || !(forall i :: 8 <= i < 12 ==> IsHexDigit(s[i])) then None
        else
          var w := HexNumber(s[8..12]);
          if !(0xDC00 <= w < 0xE000) then None
          else ConsSome([(0x10000 + (v - 0xD800) * 1024 + (w - 0xDC00)) as char], Unescape(s[12..]))
    else
      var c := s[1];
      if c == '"' || c == '\\' || c == '/' then ConsSome([c], Unescape(s[2..]))
      else if c == 'n' then ConsSome(['\n'], Unescape(s[2..]))
      else if c == 'r' then ConsSome(['\r'], Unescape(s[2..]))
      else if c == 't' then ConsSome(['\t'], Unescape(s[2..]))
      else if c == 'b' then ConsSome(['\U{8}'], Unescape(s[2..]))
      else if c == 'f' then ConsSome(['\U{c}'], Unescape(s[2..]))
      else None
  }

  function ConsSome(a: string, r: Option<string>): Option<string>
  {
    match r
    case None => None
    case Some(t) => Some(a + t)
  }

  /** One escaped character followed by the rest reads back as that
      character followed by what the rest reads back as. */
  lemma UnescapeChar(c: char, rest: string)
    ensures Unescape(EscapeChar(c) + rest) == ConsSome([c], Unescape(rest))
  {
    var e := EscapeChar(c);
    var s := e + rest;
    if c == '"' || c == '\\' || c == '\n' || c == '\r' || c == '\t' || c == '\U{8}' || c == '\U{c}' {
      assert s[0] == '\\' && s[1] == e[1] && s[2..] == rest;
    } else if IsPrintable(c) {
      assert s[0] == c && s[1..] == rest;
    } else if c as int < 0x10000 {
      UnescapeBmp(c, rest);
    } else {
      UnescapePair(c, rest);
    }
  }

  lemma UnescapeBmp(c: char, rest: string)
    requires !IsPrintable(c) && c != '\n' && c != '\r' && c != '\t' && c != '\U{8}' && c != '\U{c}'
    requires c as int < 0x10000
    ensures Unescape(EscapeChar(c) + rest) == ConsSome([c], Unescape(rest))
  {
    var s := EscapeChar(c) + rest;
    assert s[0] == '\\' && s[1] == 'u';
    assert s[2..6] == Hex4(c as int) && s[6..] == rest;
    Hex4Value(c as int);
  }

  lemma UnescapePair(c: char, rest: string)
    requires c as int >= 0x10000
    ensures Unescape(EscapeChar(c) + rest) == ConsSome([c], Unescape(rest))
  {
    var v := c as int - 0x10000;
    var high, low := 0xD800 + v / 1024, 0xDC00 + v % 1024;
    var hi, lo := Hex4(high), Hex4(low);
    assert EscapeChar(c) == ['\\', 'u'] + hi + ['\\', 'u'] + lo;
    var s := ['\\', 'u'] + hi + ['\\', 'u'] + lo + rest;
    assert s[0] == '\\' && s[1] == 'u' && s[6] == '\\' && s[7] == 'u';
    assert s[2..6] == hi && s[8..12] == lo && s[12..] == rest;
    assert forall i :: 2 <= i < 6 ==> IsHexDigit(s[i]) by {
      forall i | 2 <= i < 6 ensures IsHexDigit(s[i]) { assert s[i] == hi[i - 2]; }
    }
    assert forall i :: 8 <= i < 12 ==> IsHexDigit(s[i]) by {
      forall i | 8 <= i < 12 ensures IsHexDigit(s[i]) { assert s[i] == lo[i - 8]; }
    }
    Hex4Value(high);
    Hex4Value(low);
    PairValue(c);
    UnescapeSurrogates(s, high, low, c);
  }

  /** The surrogate pair of a character above U+FFFF combines back to it. */
  lemma PairValue(c: char)
    requires c as int >= 0x10000
    ensures var v := c as int - 0x10000;
            0x10000 + (v / 1024) * 1024 + v % 1024 == c as int
            && 0xD800 <= 0xD800 + v / 1024 < 0xDC00
            && 0xDC00 <= 0xDC00 + v % 1024 < 0xE000
  {
    DivStep(c as int - 0x10000, 1024);
  }

  /** How `Unescape` reads a well-formed surrogate pair. */
  lemma UnescapeSurrogates(s: string, v: nat, w: nat, c: char)
    requires |s| >= 12 && s[0] == '\\' && s[1] == 'u' && s[6] == '\\' && s[7] == 'u'
    requires forall i :: 2 <= i < 6 ==> IsHexDigit(s[i])
    requires forall i :: 8 <= i < 12 ==> IsHexDigit(s[i])
    requires HexNumber(s[2..6]) == v && HexNumber(s[8..12]) == w
    requires 0xD800 <= v < 0xDC00 && 0xDC00 <= w < 0xE000
    requires 0x10000 + (v - 0xD800) * 1024 + (w - 0xDC00) == c as int
    ensures Unescape(s) == ConsSome([c], Unescape(s[12..]))
  {
  }

  /** What the serialiser writes inside a string literal reads back as the
      original text. */
  lemma {:induction false} UnescapeEscape(s: string)
    ensures Unescape(EscapeString(s)) == Some(s)
    decreases |s|
  {
    if s != [] {
      UnescapeEscape(s[1..]);
      UnescapeChar(s[0], EscapeString(s[1..]));
      assert [s[0]] + s[1..] == s;
    }
  }
}
