/** A model of Python's `shlex.split` in POSIX mode with whitespace splitting
    and no comment characters: words are separated by runs of space, tab,
    carriage return or newline; single quotes take everything literally up to
    the closing quote; double quotes take everything up to the closing quote,
    where a backslash escapes only `"` or another backslash; outside quotes a
    backslash escapes any character.  An unclosed quote or a trailing backslash
    is the `ValueError` of the library, here `None`. */
module ShellLex {

  import opened Basics
  import PyStr

  /** shlex's whitespace. */
  predicate ShellSpace(c: char)
  {
    c == ' ' || c == '\t' || c == '\r' || c == '\n'
  }

  /** Characters with a meaning to the lexer besides whitespace. */
  predicate Special(c: char)
  {
    c == '\'' || c == '"' || c == '\\'
  }

  /** A word read so far and the unread input. */
  type Scan = Option<(string, string)>

  function Prepend(w: string, r: Scan): Scan
  {
    match r
    case None => None
    case Some((word, rest)) => Some((w + word, rest))
  }

  /** Reads the body of a single-quoted string (the opening quote already
      consumed) up to and including its closing quote. */
  function SingleQuoted(s: string): (r: Scan)
    ensures r.Some? ==> |r.value.1| < |s|
  {
    if s == [] then None
    else if s[0] == '\'' then Some(([], s[1..]))
    else Prepend([s[0]], SingleQuoted(s[1..]))
  }

  /** Reads the body of a double-quoted string up to and including its closing
      quote; `\"` and `\\` stand for the escaped character, any other
      backslash is kept. */
  function DoubleQuoted(s: string): (r: Scan)
    ensures r.Some? ==> |r.value.1| < |s|
  {
    if s == [] then None
    else if s[0] == '"' then Some(([], s[1..]))
    else if s[0] == '\\' then
      if |s| == 1 then None
      else
        var escaped := if s[1] == '"' || s[1] == '\\' then [s[1]] else ['\\', s[1]];
        Prepend(escaped, DoubleQuoted(s[2..]))
    else Prepend([s[0]], DoubleQuoted(s[1..]))
  }

  /** Reads one word: everything up to the next unquoted, unescaped
      whitespace.  The unread input is empty or starts with whitespace. */
  function Word(s: string): (r: Scan)
    ensures r.Some? ==> |r.value.1| <= |s|
    ensures r.Some? && s != [] && !ShellSpace(s[0]) ==> |r.value.1| < |s|
    ensures r.Some? ==> r.value.1 == [] || ShellSpace(r.value.1[0])
    decreases |s|
  {
    if s == [] || ShellSpace(s[0]) then Some(([], s))
    else if s[0] == '\\' then
      if |s| == 1 then None else Prepend([s[1]], Word(s[2..]))
    else if s[0] == '\'' then
      match SingleQuoted(s[1..])
      case None => None
      case Some((quoted, rest)) => Prepend(quoted, Word(rest))
    else if s[0] == '"' then
      match DoubleQuoted(s[1..])
      case None => None
      case Some((quoted, rest)) => Prepend(quoted, Word(rest))
    else Prepend([s[0]], Word(s[1..]))
  }

  /** `shlex.split(s)`: the words of `s`, or `None` where the library raises
      `ValueError`.  A quoted empty string is a word of its own. */
  function Split(s: string): Option<seq<string>>
    decreases |s|
  {
    if s == [] then Some([])
    else if ShellSpace(s[0]) then Split(s[1..])
    else
      match Word(s)
      case None => None
      case Some((w, rest)) =>
        match Split(rest)
        case None => None
        case Some(ws) => Some([w] + ws)
  }

  /** Input without quotes or backslashes. */
  predicate Plain(s: string)
  {
    forall i :: 0 <= i < |s| ==> !Special(s[i])
  }

  /** On plain input, a word is the run up to the next whitespace. */
  lemma {:induction false} PlainWord(s: string)
    requires Plain(s)
    ensures Word(s) == Some((s[..PyStr.WordLength(s, ShellSpace)], s[PyStr.WordLength(s, ShellSpace)..]))
    decreases |s|
  {
    if s != [] && !ShellSpace(s[0]) {
      PlainWord(s[1..]);
      var n := PyStr.WordLength(s[1..], ShellSpace);
      assert s[..n + 1] == [s[0]] + s[1..][..n];
      assert s[n + 1..] == s[1..][n..];
    }
  }

  /** A double-quoted body without quotes or backslashes is read up to the
      closing quote. */
  lemma {:induction false} DoubleQuotedPlain(t: string, rest: string)
    requires Plain(t)
    ensures DoubleQuoted(t + ['"'] + rest) == Some((t, rest))
    decreases |t|
  {
    var s := t + ['"'] + rest;
    if t == [] {
      assert s[0] == '"' && s[1..] == rest;
    } else {
      assert s[0] == t[0] && !Special(t[0]);
      assert Plain(t[1..]) by {
        assert forall i :: 0 <= i < |t[1..]| ==> t[1..][i] == t[i + 1];
      }
      DoubleQuotedPlain(t[1..], rest);
      assert s[1..] == t[1..] + ['"'] + rest;
      assert [t[0]] + t[1..] == t;
    }
  }

  /** A closed double-quoted word is its body, spaces included. */
  lemma QuotedWord(t: string, rest: string)
    requires Plain(t) && (rest == [] || ShellSpace(rest[0]))
    ensures Word(['"'] + t + ['"'] + rest) == Some((t, rest))
  {
    var s := ['"'] + t + ['"'] + rest;
    assert s[1..] == t + ['"'] + rest;
    DoubleQuotedPlain(t, rest);
    assert Word(rest) == Some(([], rest));
    assert t + [] == t;
  }

  /** Without quote or backslash characters the tokenizer never fails and is
      plain whitespace splitting. */
  lemma {:induction false} PlainSplitIsFields(s: string)
    requires Plain(s)
    ensures Split(s) == Some(PyStr.Fields(s, ShellSpace))
    decreases |s|
  {
    if s == [] {
    } else if ShellSpace(s[0]) {
      PlainSplitIsFields(s[1..]);
    } else {
      PlainWord(s);
      var n := PyStr.WordLength(s, ShellSpace);
      assert Plain(s[n..]) by {
        forall i | 0 <= i < |s[n..]| ensures !Special(s[n..][i]) {
          assert s[n..][i] == s[n + i];
        }
      }
      PlainSplitIsFields(s[n..]);
    }
  }

  /** An unclosed quote makes the tokenizer fail. */
  lemma {:induction false} UnclosedSingleQuoteFails(s: string)
    requires '\'' !in s
    ensures SingleQuoted(s) == None
    decreases |s|
  {
    if s != [] {
      UnclosedSingleQuoteFails(s[1..]);
    }
  }
}
