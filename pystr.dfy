/** The Python `str` operations the request parser and the framing heuristic
    rely on: `isspace`, `strip`, `upper`/`lower` (ASCII letters only),
    `split(sep, maxsplit)` and whitespace `split()`. */
module PyStr {

  import opened Basics

  /** `str.isspace()` of one character: the characters CPython treats as
      whitespace (ASCII controls 9-13 and 28-31, space, and the Unicode
      space separators). */
  predicate IsSpace(c: char)
  {
    c == ' ' || ('\t' <= c <= '\r') || ('\U{1c}' <= c <= '\U{1f}')
    || c == '\U{85}' || c == '\U{a0}' || c == '\U{1680}'
    || ('\U{2000}' <= c <= '\U{200a}') || c == '\U{2028}' || c == '\U{2029}'
    || c == '\U{202f}' || c == '\U{205f}' || c == '\U{3000}'
  }

  predicate AllSpace(s: string)
  {
    forall i :: 0 <= i < |s| ==> IsSpace(s[i])
  }

  predicate NoSpace(s: string)
  {
    forall i :: 0 <= i < |s| ==> !IsSpace(s[i])
  }

  /** Number of leading whitespace characters. */
  function LeadingSpaces(s: string): (k: nat)
    ensures k <= |s| && AllSpace(s[..k])
    ensures k < |s| ==> !IsSpace(s[k])
  {
    if s != [] && IsSpace(s[0]) then
      var k := 1 + LeadingSpaces(s[1..]);
      assert forall i :: 1 <= i < k ==> s[..k][i] == s[1..][..k - 1][i - 1];
      k
    else 0
  }

  /** Number of trailing whitespace characters. */
  function TrailingSpaces(s: string): (k: nat)
    ensures k <= |s| && AllSpace(s[|s| - k..])
    ensures k < |s| ==> !IsSpace(s[|s| - k - 1])
  {
    if s != [] && IsSpace(s[|s| - 1]) then
      var front := s[..|s| - 1];
      var k := 1 + TrailingSpaces(front);
      assert s[|s| - k..] == front[|front| - (k - 1)..] + [s[|s| - 1]];
      AllSpaceAppend(front[|front| - (k - 1)..], s[|s| - 1]);
      assert k < |s| ==> s[|s| - k - 1] == front[|front| - (k - 1) - 1];
      k
    else 0
  }

  lemma AllSpaceAppend(a: string, c: char)
    requires AllSpace(a) && IsSpace(c)
    ensures AllSpace(a + [c])
  {
    assert forall i :: 0 <= i < |a| ==> (a + [c])[i] == a[i];
  }

  /** `str.strip()`: the input without its leading and trailing whitespace. */
  function Strip(s: string): (r: string)
    ensures exists i, j :: 0 <= i <= j <= |s| && r == s[i..j] && AllSpace(s[..i]) && AllSpace(s[j..])
    ensures r == [] || (!IsSpace(r[0]) && !IsSpace(r[|r| - 1]))
  {
    var i := LeadingSpaces(s);
    var t := s[i..];
    var k := TrailingSpaces(t);
    var r := t[..|t| - k];
    assert r == s[i..i + |t| - k];
    assert s[i + |t| - k..] == t[|t| - k..];
    assert r != [] ==> r[0] == s[i];
    r
  }

  /** Stripping removes nothing exactly when the ends are not whitespace; the
      result is empty exactly when the input is all whitespace. */
  lemma StripEmpty(s: string)
    ensures Strip(s) == [] <==> AllSpace(s)
  {
    var r := Strip(s);
    var i, j :| 0 <= i <= j <= |s| && r == s[i..j] && AllSpace(s[..i]) && AllSpace(s[j..]);
    if r == [] {
      AllSpaceSplit(s, i);
    } else {
      assert s[i] == r[0];
    }
  }

  lemma AllSpaceSplit(s: string, i: nat)
    requires i <= |s| && AllSpace(s[..i]) && AllSpace(s[i..])
    ensures AllSpace(s)
  {
    forall k | 0 <= k < |s| ensures IsSpace(s[k]) {
      if k < i { assert s[k] == s[..i][k]; } else { assert s[k] == s[i..][k - i]; }
    }
  }

  lemma StripUnchanged(s: string)
    requires s != [] && !IsSpace(s[0]) && !IsSpace(s[|s| - 1])
    ensures Strip(s) == s
  {
    assert s[0..] == s;
  }

  function LowerChar(c: char): char
  {
    if 'A' <= c <= 'Z' then (c as int + 32) as char else c
  }

  function UpperChar(c: char): char
  {
    if 'a' <= c <= 'z' then (c as int - 32) as char else c
  }

  /** `str.lower()`, restricted to the ASCII letters. */
  function Lower(s: string): (r: string)
  {
    seq(|s|, i requires 0 <= i < |s| => LowerChar(s[i]))
  }

  /** `str.upper()`, restricted to the ASCII letters. */
  function Upper(s: string): (r: string)
  {
    seq(|s|, i requires 0 <= i < |s| => UpperChar(s[i]))
  }

  /** Case mapping never creates or removes whitespace. */
  lemma LowerKeepsSpaces(s: string)
    ensures forall i :: 0 <= i < |s| ==> (IsSpace(Lower(s)[i]) <==> IsSpace(s[i]))
  {
  }

  lemma LowerConcat(a: string, b: string)
    ensures Lower(a + b) == Lower(a) + Lower(b)
  {
  }

  /** Index of the first `sep` in `s`, or `|s|` when there is none. */
  function IndexOf(s: string, sep: char): (k: nat)
    ensures k <= |s| && sep !in s[..k]
    ensures k < |s| ==> s[k] == sep
  {
    if s == [] then 0
    else if s[0] == sep then 0
    else
      var k := 1 + IndexOf(s[1..], sep);
      assert s[..k] == [s[0]] + s[1..][..k - 1];
      k
  }

  /** The fields joined back with the separator between them. */
  function Join(parts: seq<string>, sep: char): string
  {
    if parts == [] then []
    else if |parts| == 1 then parts[0]
    else parts[0] + [sep] + Join(parts[1..], sep)
  }

  /** `s.split(sep, maxsplit)`: split at the first `maxsplit` occurrences of
      `sep`, keeping empty fields.  The result always joins back to `s`; only
      the last field may still contain `sep`, and only when all `maxsplit`
      splits were made. */
  function Split(s: string, sep: char, maxsplit: nat): (parts: seq<string>)
    ensures 1 <= |parts| <= maxsplit + 1
    ensures Join(parts, sep) == s
    ensures forall i :: 0 <= i < |parts| - 1 ==> sep !in parts[i]
    ensures |parts| <= maxsplit ==> sep !in parts[|parts| - 1]
    decreases maxsplit
  {
    var k := IndexOf(s, sep);
    if maxsplit == 0 || k == |s| then [s]
    else
      var rest := Split(s[k + 1..], sep, maxsplit - 1);
      assert s == s[..k] + [sep] + s[k + 1..];
      [s[..k]] + rest
  }

  /** Length of the run of non-separator characters at the start of `s`. */
  function WordLength(s: string, isSep: char -> bool): (n: nat)
    ensures n <= |s|
    ensures forall i :: 0 <= i < n ==> !isSep(s[i])
    ensures n < |s| ==> isSep(s[n])
  {
    if s == [] || isSep(s[0]) then 0 else 1 + WordLength(s[1..], isSep)
  }

  /** `s.split()` with an explicit notion of whitespace: the maximal runs of
      non-separator characters, in order. */
  function Fields(s: string, isSep: char -> bool): seq<string>
    decreases |s|
  {
    if s == [] then []
    else if isSep(s[0]) then Fields(s[1..], isSep)
    else
      var n := WordLength(s, isSep);
      [s[..n]] + Fields(s[n..], isSep)
  }

  /** Every field is non-empty and free of separators, the fields are the
      input with its separators removed, and they are maximal: between two
      of them stands at least one separator. */
  lemma FieldsAreWords(s: string, isSep: char -> bool)
    ensures forall i :: 0 <= i < |Fields(s, isSep)| ==> Fields(s, isSep)[i] != []
    ensures forall i, j :: 0 <= i < |Fields(s, isSep)| && 0 <= j < |Fields(s, isSep)[i]| ==> !isSep(Fields(s, isSep)[i][j])
    ensures Flatten(Fields(s, isSep)) == RemoveSeparators(s, isSep)
    ensures Decomposes(s, Gaps(s, isSep), Fields(s, isSep), isSep)
  {
    FieldsAreNonEmpty(s, isSep);
    FieldsFlatten(s, isSep);
    FieldsAreMaximal(s, isSep);
  }

  lemma {:induction false} FieldsAreNonEmpty(s: string, isSep: char -> bool)
    ensures forall i :: 0 <= i < |Fields(s, isSep)| ==> Fields(s, isSep)[i] != []
    ensures forall i, j :: 0 <= i < |Fields(s, isSep)| && 0 <= j < |Fields(s, isSep)[i]| ==> !isSep(Fields(s, isSep)[i][j])
    decreases |s|
  {
    if s == [] {
    } else if isSep(s[0]) {
      FieldsAreNonEmpty(s[1..], isSep);
    } else {
      var n := WordLength(s, isSep);
      FieldsAreNonEmpty(s[n..], isSep);
      var f := Fields(s, isSep);
      assert f == [s[..n]] + Fields(s[n..], isSep);
      forall i | 0 < i < |f| ensures f[i] == Fields(s[n..], isSep)[i - 1] {}
    }
  }

  lemma {:induction false} FieldsFlatten(s: string, isSep: char -> bool)
    ensures Flatten(Fields(s, isSep)) == RemoveSeparators(s, isSep)
    decreases |s|
  {
    if s == [] {
    } else if isSep(s[0]) {
      FieldsFlatten(s[1..], isSep);
    } else {
      var n := WordLength(s, isSep);
      FieldsFlatten(s[n..], isSep);
      RemovePlainPrefix(s, n, isSep);
      FlattenConcat([s[..n]], Fields(s[n..], isSep));
      FlattenSingle(s[..n]);
    }
  }

  /** The runs of separators around the fields of `s`: the one before the
      first field, those between fields, and the one after the last. */
  function Gaps(s: string, isSep: char -> bool): (g: seq<string>)
    ensures g != []
    decreases |s|
  {
    if s == [] then [[]]
    else if isSep(s[0]) then
      var g := Gaps(s[1..], isSep);
      [[s[0]] + g[0]] + g[1..]
    else [[]] + Gaps(s[WordLength(s, isSep)..], isSep)
  }

  /** `g0 + f0 + g1 + f1 + ... + gk`. */
  function Interleave(gaps: seq<string>, fields: seq<string>): string
    requires |gaps| == |fields| + 1
    decreases |fields|
  {
    if fields == [] then gaps[0] else gaps[0] + fields[0] + Interleave(gaps[1..], fields[1..])
  }

  predicate AllSeparators(g: string, isSep: char -> bool)
  {
    forall j :: 0 <= j < |g| ==> isSep(g[j])
  }

  /** `s` is the words `f` with the separator runs `g` around them: one
      more run than words, every run made of separators, and the runs
      between two words non-empty. */
  predicate Decomposes(s: string, g: seq<string>, f: seq<string>, isSep: char -> bool)
  {
    |g| == |f| + 1
    && (forall i :: 0 <= i < |g| ==> AllSeparators(g[i], isSep))
    && (forall i :: 0 < i < |g| - 1 ==> g[i] != [])
    && Interleave(g, f) == s
  }

  /** The fields are maximal runs: `s` is its fields with non-empty runs of
      separators between them and runs of separators (possibly empty) at
      either end.  Together with `FieldsAreWords` this fixes the fields of
      every text. */
  lemma {:induction false} FieldsAreMaximal(s: string, isSep: char -> bool)
    ensures Decomposes(s, Gaps(s, isSep), Fields(s, isSep), isSep)
    decreases |s|
  {
    if s == [] {
    } else if isSep(s[0]) {
      FieldsAreMaximal(s[1..], isSep);
      SeparatorStep(s[0], s[1..], Gaps(s[1..], isSep), Fields(s[1..], isSep), isSep);
      assert [s[0]] + s[1..] == s;
    } else {
      var n := WordLength(s, isSep);
      var rest := s[n..];
      FieldsAreMaximal(rest, isSep);
      if Fields(rest, isSep) != [] {
        assert rest != [] && isSep(rest[0]);
      }
      WordStep(s[..n], rest, Gaps(rest, isSep), Fields(rest, isSep), isSep);
      assert s[..n] + rest == s;
    }
  }

  lemma SeparatorStep(c: char, t: string, g: seq<string>, f: seq<string>, isSep: char -> bool)
    requires isSep(c) && Decomposes(t, g, f, isSep)
    ensures Decomposes([c] + t, [[c] + g[0]] + g[1..], f, isSep)
  {
    var h := [[c] + g[0]] + g[1..];
    assert AllSeparators(h[0], isSep) by {
      forall j | 0 <= j < |h[0]| ensures isSep(h[0][j]) {
        if j > 0 { assert h[0][j] == g[0][j - 1]; }
      }
    }
    forall i | 0 < i < |h| ensures h[i] == g[i] {}
    if f != [] {
      assert h[1..] == g[1..];
      assert Interleave(h, f) == [c] + g[0] + f[0] + Interleave(g[1..], f[1..]);
    }
  }

  lemma WordStep(w: string, rest: string, g: seq<string>, f: seq<string>, isSep: char -> bool)
    requires Decomposes(rest, g, f, isSep) && (f != [] ==> g[0] != [])
    ensures Decomposes(w + rest, [[]] + g, [w] + f, isSep)
  {
    var h := [[]] + g;
    assert h[1..] == g && ([w] + f)[1..] == f;
    forall i | 0 < i < |h| - 1 ensures h[i] != [] {
      assert h[i] == g[i - 1];
    }
    forall i | 0 <= i < |h| ensures AllSeparators(h[i], isSep) {
      if i > 0 { assert h[i] == g[i - 1]; }
    }
    assert Interleave(h, [w] + f) == [] + w + Interleave(g, f);
  }

  /** The characters of `s` that are not separators, in order. */
  function RemoveSeparators(s: string, isSep: char -> bool): string
  {
    if s == [] then [] else (if isSep(s[0]) then [] else [s[0]]) + RemoveSeparators(s[1..], isSep)
  }

  lemma {:induction false} RemovePlainPrefix(s: string, n: nat, isSep: char -> bool)
    requires n <= |s| && forall i :: 0 <= i < n ==> !isSep(s[i])
    ensures RemoveSeparators(s, isSep) == s[..n] + RemoveSeparators(s[n..], isSep)
    decreases n
  {
    if n > 0 {
      RemovePlainPrefix(s[1..], n - 1, isSep);
      assert s[1..][n - 1..] == s[n..];
      assert s[..n] == [s[0]] + s[1..][..n - 1];
    }
  }

  /** A separator-free word followed by a separator (or nothing) is the first
      field. */
  lemma FieldsWord(w: string, rest: string, isSep: char -> bool)
    requires w != [] && forall i :: 0 <= i < |w| ==> !isSep(w[i])
    requires rest == [] || isSep(rest[0])
    ensures Fields(w + rest, isSep) == [w] + Fields(rest, isSep)
  {
    var s := w + rest;
    WordLengthExact(s, |w|, isSep);
    assert s[..|w|] == w && s[|w|..] == rest;
  }

  /** Splitting two separator-free words joined by one separator gives back
      the two words. */
  lemma TwoFields(a: string, sp: char, b: string, isSep: char -> bool)
    requires a != [] && b != [] && isSep(sp)
    requires forall i :: 0 <= i < |a| ==> !isSep(a[i])
    requires forall i :: 0 <= i < |b| ==> !isSep(b[i])
    ensures Fields(a + [sp] + b, isSep) == [a, b]
  {
    assert a + [sp] + b == a + ([sp] + b);
    FieldsWord(a, [sp] + b, isSep);
    assert ([sp] + b)[1..] == b;
    FieldsWord(b, [], isSep);
    assert b + [] == b;
  }

  lemma {:induction false} WordLengthExact(s: string, n: nat, isSep: char -> bool)
    requires n <= |s| && (forall i :: 0 <= i < n ==> !isSep(s[i])) && (n < |s| ==> isSep(s[n]))
    ensures WordLength(s, isSep) == n
    decreases n
  {
    if n > 0 {
      WordLengthExact(s[1..], n - 1, isSep);
    }
  }

  function DigitChar(d: nat): (c: char)
    requires d < 10
    ensures '0' <= c <= '9'
  {
    ('0' as int + d) as char
  }

  predicate IsDigits(s: string)
  {
    forall i :: 0 <= i < |s| ==> '0' <= s[i] <= '9'
  }

  /** `str(n)` (and `f'{n}'`) of a natural number: its decimal digits without
      leading zeros. */
  function NatToString(n: nat): (s: string)
    ensures s != [] && IsDigits(s)
    ensures |s| > 1 ==> s[0] != '0'
  {
    if n < 10 then [DigitChar(n)]
    else
      var prefix := NatToString(n / 10);
      assert (prefix + [DigitChar(n % 10)])[0] == prefix[0];
      prefix + [DigitChar(n % 10)]
  }

  /** The number a string of decimal digits denotes. */
  function DecimalValue(s: string): nat
    requires IsDigits(s)
  {
    if s == [] then 0 else DecimalValue(s[..|s| - 1]) * 10 + (s[|s| - 1] as int - '0' as int)
  }

  /** Reading the digits back gives the number. */
  lemma {:induction false} NatToStringValue(n: nat)
    ensures DecimalValue(NatToString(n)) == n
  {
    if n >= 10 {
      NatToStringValue(n / 10);
      var s := NatToString(n);
      assert s[..|s| - 1] == NatToString(n / 10);
    }
  }
}
