/** The request handler: a request line becomes a verb and parameters (or is
    refused with an error reply), the verb is looked up as an attribute of the
    storage object, and the storage operation's reply is the answer. */
module Protocol {

  import opened Basics
  import opened Response
  import opened Storage
  import Base64
  import PyStr
  import ShellLex

  /** The outcome of parsing a request line: a call to make, or the message
      of the error reply that ends the request before storage is touched. */
  datatype Parsed = Request(verb: string, params: seq<string>) | Reject(message: string)

  /** An empty verb is refused; any other is looked up. */
  function Checked(verb: string, params: seq<string>): (p: Parsed)
    ensures p.Request? ==> p.verb != []
    ensures p.Reject? <==> verb == []
    ensures p.Reject? ==> p.message == "Empty command"
  {
    if verb == [] then Reject("Empty command") else Request(verb, params)
  }

  function StripEach(xs: seq<string>): (r: seq<string>)
    ensures |r| == |xs|
  {
    seq(|xs|, i requires 0 <= i < |xs| => PyStr.Strip(xs[i]))
  }

  /** A request line starting with `UPLOAD` in any case: split on the first
      two single spaces, the payload kept as it is and checked to decode. */
  function ParseUpload(s: string): (p: Parsed)
    ensures p.Request? ==> p.verb != []
  {
    var parts := PyStr.Split(s, ' ', 2);
    if |parts| >= 3 then
      if Base64.Decode(parts[2]).Failure? then Reject("Invalid file content encoding")
      else Checked(PyStr.Lower(PyStr.Strip(parts[0])), [PyStr.Strip(parts[1]), parts[2]])
    else if |parts| == 2 then Checked(PyStr.Lower(PyStr.Strip(parts[0])), [PyStr.Strip(parts[1]), []])
    else Reject("UPLOAD command incomplete")
  }

  /** Any other request line: the lower-cased line is tokenized like a shell
      command line; where the tokenizer fails, the original line is split on
      whitespace and only the verb is lower-cased. */
  function ParseCommand(s: string): (p: Parsed)
    ensures p.Request? ==> p.verb != []
    ensures p.Reject? ==> p.message == "Empty command"
  {
    match ShellLex.Split(PyStr.Lower(s))
    case Some(c) =>
      Checked(if c == [] then [] else PyStr.Strip(c[0]), if c == [] then [] else StripEach(c[1..]))
    case None =>
      var parts := PyStr.Fields(s, PyStr.IsSpace);
      Checked(if parts == [] then [] else PyStr.Lower(parts[0]), if parts == [] then [] else parts[1..])
  }

  /** How `proses_string` reads its input before any storage call. */
  function Parse(input: string): (p: Parsed)
    ensures p.Request? ==> p.verb != []
  {
    var s := PyStr.Strip(input);
    if s == [] then Reject("Empty request")
    else if "UPLOAD" <= PyStr.Upper(s) then ParseUpload(s)
    else ParseCommand(s)
  }

  /** The attributes every storage object has besides its four operations:
      its field, its helper, and what every Python object inherits.  Looking
      them up succeeds; calling them with the parameter list raises. */
  const OtherAttributes: set<string> := {
    "base_path", "_get_file_path", "__init__", "__class__", "__delattr__", "__dict__",
    "__dir__", "__doc__", "__eq__", "__format__", "__ge__", "__getattribute__",
    "__getstate__", "__gt__", "__hash__", "__init_subclass__", "__le__", "__lt__",
    "__module__", "__ne__", "__new__", "__reduce__", "__reduce_ex__", "__repr__",
    "__setattr__", "__sizeof__", "__str__", "__subclasshook__", "__weakref__"}

  /** The reply to a verb that is no attribute of the storage object. */
  function UnknownCommand(verb: string): (r: Envelope)
    ensures r.status == ERROR
  {
    ErrorEnvelope("Unknown command: \"" + verb + "\"")
  }

  /** `r` is the reply of `proses_string(input)` on a directory holding
      `before`, and `after` is the directory afterwards.  `callError` is the
      text of the exception an attribute raises when called. */
  ghost predicate Executed(before: Files, after: Files, input: string, callError: string, r: Envelope)
  {
    match Parse(input)
    case Reject(m) => r == ErrorEnvelope(m) && after == before
    case Request(verb, params) =>
      if verb == "list" then after == before && r.data.Some? && r == ListReply(r.data.value) && IsListing(before, r.data.value)
      else if verb == "get" then after == before && r == GetReply(before, params)
      else if verb == "upload" then Outcome(r, after) == UploadOutcome(before, params)
      else if verb == "delete" then Outcome(r, after) == DeleteOutcome(before, params)
      else if verb in OtherAttributes then after == before && r == ErrorEnvelope("Error executing command: " + callError)
      else after == before && r == UnknownCommand(verb)
  }

  /** `proses_string(input)` on the storage object `fi`. */
  method ProsesString(fi: FileInterface, input: string, callError: string) returns (r: Envelope)
    modifies fi
    ensures Executed(old(fi.files), fi.files, input, callError, r)
  {
    match Parse(input)
    case Reject(m) =>
      r := ErrorEnvelope(m);
    case Request(verb, params) =>
      if verb == "list" {
        r := fi.List(params);
      } else if verb == "get" {
        r := fi.Get(params);
      } else if verb == "upload" {
        r := fi.Upload(params);
      } else if verb == "delete" {
        r := fi.Delete(params);
      } else if verb in OtherAttributes {
        r := ErrorEnvelope("Error executing command: " + callError);
      } else {
        r := UnknownCommand(verb);
      }
  }

  /** A request is refused as empty exactly when it is all whitespace. */
  lemma BlankRequest(input: string)
    ensures Parse(input) == Reject("Empty request") <==> PyStr.AllSpace(input)
  {
    PyStr.StripEmpty(input);
  }

  /** Splitting on a separator that does not occur gives the whole text. */
  lemma SplitNone(s: string, sep: char, maxsplit: nat)
    requires sep !in s
    ensures PyStr.Split(s, sep, maxsplit) == [s]
  {
  }

  /** A request starting with `UPLOAD` is refused as incomplete exactly when
      it holds no single space once stripped. */
  lemma UploadIncomplete(input: string)
    ensures Parse(input) == Reject("UPLOAD command incomplete") <==>
              var s := PyStr.Strip(input); s != [] && "UPLOAD" <= PyStr.Upper(s) && ' ' !in s
  {
    var s := PyStr.Strip(input);
    if s != [] && "UPLOAD" <= PyStr.Upper(s) {
      UploadWithoutSpace(s);
    } else if s != [] {
      assert "Empty command" != "UPLOAD command incomplete";
    }
  }

  /** An upload line is refused as incomplete exactly when it holds no
      single space. */
  lemma UploadWithoutSpace(s: string)
    ensures ParseUpload(s) == Reject("UPLOAD command incomplete") <==> ' ' !in s
  {
    var parts := PyStr.Split(s, ' ', 2);
    if |parts| == 1 {
      assert PyStr.Join(parts, ' ') == parts[0];
    } else {
      assert "Empty command" != "UPLOAD command incomplete";
      assert "Invalid file content encoding" != "UPLOAD command incomplete";
    }
    if ' ' !in s {
      SplitNone(s, ' ', 2);
    }
  }

  /** The first field before a separator, then the split of the rest. */
  lemma SplitFirst(a: string, sep: char, rest: string, maxsplit: nat)
    requires sep !in a && maxsplit > 0
    ensures PyStr.Split(a + [sep] + rest, sep, maxsplit) == [a] + PyStr.Split(rest, sep, maxsplit - 1)
  {
    var s := a + [sep] + rest;
    IndexOfExact(s, sep, |a|);
    assert s[..|a|] == a && s[|a| + 1..] == rest;
  }

  lemma {:induction false} IndexOfExact(s: string, sep: char, k: nat)
    requires k < |s| && s[k] == sep && sep !in s[..k]
    ensures PyStr.IndexOf(s, sep) == k
    decreases k
  {
    if k > 0 {
      assert s[0] == s[..k][0];
      assert s[1..][..k - 1] == s[1..k];
      assert forall c :: c in s[1..k] ==> c in s[..k];
      IndexOfExact(s[1..], sep, k - 1);
    }
  }

  /** A stripped line starting with `UPLOAD` goes the upload way. */
  lemma UploadForm(s: string)
    requires |s| >= 6 && s[..6] == "UPLOAD" && !PyStr.IsSpace(s[|s| - 1])
    ensures Parse(s) == ParseUpload(s)
  {
    PyStr.StripUnchanged(s);
    assert PyStr.Upper(s)[..6] == "UPLOAD";
  }

  /** A stripped line whose first letter is no `U` goes the tokenizer way. */
  lemma CommandForm(s: string)
    requires s != [] && !PyStr.IsSpace(s[0]) && !PyStr.IsSpace(s[|s| - 1])
    requires PyStr.UpperChar(s[0]) != 'U'
    ensures Parse(s) == ParseCommand(s)
  {
    PyStr.StripUnchanged(s);
    assert PyStr.Upper(s)[0] != 'U';
  }

  /** A text with no whitespace is its own strip. */
  lemma StripWord(w: string)
    requires w != [] && PyStr.NoSpace(w)
    ensures PyStr.Strip(w) == w
  {
    PyStr.StripUnchanged(w);
  }

  lemma UploadVerb()
    ensures PyStr.Lower(PyStr.Strip("UPLOAD")) == "upload"
  {
    PyStr.StripUnchanged("UPLOAD");
  }

  lemma NoSpaceNoBlank(w: string)
    requires PyStr.NoSpace(w)
    ensures ' ' !in w
  {
    forall k | 0 <= k < |w| ensures w[k] != ' ' { assert !PyStr.IsSpace(w[k]); }
  }

  /** An `UPLOAD` line with a file name and a payload splits into the three. */
  lemma UploadFields(name: string, payload: string)
    requires name != [] && PyStr.NoSpace(name) && payload != [] && !PyStr.IsSpace(payload[|payload| - 1])
    ensures Parse("UPLOAD " + name + " " + payload) == ParseUpload("UPLOAD " + name + " " + payload)
    ensures PyStr.Split("UPLOAD " + name + " " + payload, ' ', 2) == ["UPLOAD", name, payload]
  {
    var s := "UPLOAD" + [' '] + (name + [' '] + payload);
    assert "UPLOAD " + name + " " + payload == s;
    assert s[..6] == "UPLOAD" && s[|s| - 1] == payload[|payload| - 1];
    UploadForm(s);
    ThreeFields(name, payload);
  }

  lemma ThreeFields(name: string, payload: string)
    requires PyStr.NoSpace(name)
    ensures PyStr.Split("UPLOAD" + [' '] + (name + [' '] + payload), ' ', 2) == ["UPLOAD", name, payload]
  {
    NoSpaceNoBlank(name);
    UploadHasNoBlank();
    SplitFirst("UPLOAD", ' ', name + [' '] + payload, 2);
    SplitFirst(name, ' ', payload, 1);
  }

  lemma UploadHasNoBlank()
    ensures ' ' !in "UPLOAD"
  {
  }

  /** An `UPLOAD` line as the client writes it (verb, file name, base 64 of
      the contents, separated by single spaces) parses to the upload of that
      name and text. */
  lemma UploadLine(name: string, content: seq<Byte>)
    requires name != [] && PyStr.NoSpace(name) && content != []
    ensures Parse("UPLOAD " + name + " " + Base64.Encode(content))
            == Request("upload", [name, Base64.Encode(content)])
  {
    var enc := Base64.Encode(content);
    Base64.EncodeLastChar(content);
    UploadFields(name, enc);
    StripWord(name);
    UploadVerb();
    Base64.RoundTrip(content);
  }

  /** An `UPLOAD` line with a file name and nothing after it parses to an
      upload with empty contents (which storage then refuses). */
  lemma UploadWithoutContent(name: string)
    requires name != [] && PyStr.NoSpace(name)
    ensures Parse("UPLOAD " + name) == Request("upload", [name, []])
  {
    var s := "UPLOAD" + [' '] + name;
    assert "UPLOAD " + name == s;
    assert s[..6] == "UPLOAD" && s[|s| - 1] == name[|name| - 1];
    UploadForm(s);
    TwoUploadFields(name);
    StripWord(name);
    UploadVerb();
  }

  lemma TwoUploadFields(name: string)
    requires PyStr.NoSpace(name)
    ensures PyStr.Split("UPLOAD" + [' '] + name, ' ', 2) == ["UPLOAD", name]
  {
    NoSpaceNoBlank(name);
    UploadHasNoBlank();
    SplitFirst("UPLOAD", ' ', name, 2);
    SplitNone(name, ' ', 1);
  }

  /** A payload that does not decode refuses the upload before storage is
      touched. */
  lemma UploadBadPayload(name: string, payload: string)
    requires name != [] && PyStr.NoSpace(name)
    requires payload != [] && !PyStr.IsSpace(payload[|payload| - 1])
    requires Base64.Decode(payload).Failure?
    ensures Parse("UPLOAD " + name + " " + payload) == Reject("Invalid file content encoding")
  {
    UploadFields(name, payload);
  }

  lemma ShellSpaceIsSpace(c: char)
    ensures ShellLex.ShellSpace(c) ==> PyStr.IsSpace(c)
  {
  }

  /** A word of letters and punctuation: no whitespace, no quote, no
      backslash, and no `U` or `u` in front (so it is no `UPLOAD`). */
  predicate PlainWord(w: string)
  {
    w != [] && PyStr.NoSpace(w) && ShellLex.Plain(w)
  }

  /** Lower-casing keeps a plain word plain. */
  lemma LowerPlain(w: string)
    requires PlainWord(w)
    ensures PlainWord(PyStr.Lower(w))
    ensures forall i :: 0 <= i < |w| ==> !ShellLex.ShellSpace(PyStr.Lower(w)[i])
  {
    PyStr.LowerKeepsSpaces(w);
  }

  /** Lower-casing a line of two words separated by a blank. */
  lemma LowerLine(verb: string, arg: string)
    ensures PyStr.Lower(verb + [' '] + arg) == PyStr.Lower(verb) + [' '] + PyStr.Lower(arg)
  {
    PyStr.LowerConcat(verb + [' '], arg);
    PyStr.LowerConcat(verb, [' ']);
  }

  /** Two plain words separated by a blank tokenize into those words. */
  lemma TwoTokens(a: string, b: string)
    requires PlainWord(a) && PlainWord(b)
    ensures ShellLex.Split(a + [' '] + b) == Some([a, b])
  {
    var t := a + [' '] + b;
    assert ShellLex.Plain(t) by {
      forall i | 0 <= i < |t| ensures !ShellLex.Special(t[i]) {
        if i < |a| { assert t[i] == a[i]; } else if i > |a| { assert t[i] == b[i - |a| - 1]; }
      }
    }
    ShellLex.PlainSplitIsFields(t);
    NoShellSpace(a);
    NoShellSpace(b);
    PyStr.TwoFields(a, ' ', b, ShellLex.ShellSpace);
  }

  lemma NoShellSpace(w: string)
    requires PyStr.NoSpace(w)
    ensures forall i :: 0 <= i < |w| ==> !ShellLex.ShellSpace(w[i])
  {
    forall i | 0 <= i < |w| ensures !ShellLex.ShellSpace(w[i]) { ShellSpaceIsSpace(w[i]); }
  }

  /** A verb and one argument, both plain words, parse to the lower-cased
      verb with the lower-cased argument. */
  lemma CommandLine(verb: string, arg: string)
    requires PlainWord(verb) && PlainWord(arg) && PyStr.UpperChar(verb[0]) != 'U'
    ensures Parse(verb + [' '] + arg) == Request(PyStr.Lower(verb), [PyStr.Lower(arg)])
  {
    var s := verb + [' '] + arg;
    assert s[0] == verb[0] && s[|s| - 1] == arg[|arg| - 1];
    CommandForm(s);
    CommandTokens(verb, arg);
    var lv, la := PyStr.Lower(verb), PyStr.Lower(arg);
    StripWord(lv);
    StripWord(la);
    assert StripEach([lv, la][1..]) == [la];
  }

  lemma CommandTokens(verb: string, arg: string)
    requires PlainWord(verb) && PlainWord(arg)
    ensures var lv, la := PyStr.Lower(verb), PyStr.Lower(arg);
            PlainWord(lv) && PlainWord(la)
            && ShellLex.Split(PyStr.Lower(verb + [' '] + arg)) == Some([lv, la])
  {
    LowerLine(verb, arg);
    LowerPlain(verb);
    LowerPlain(arg);
    TwoTokens(PyStr.Lower(verb), PyStr.Lower(arg));
  }

  /** A word of ASCII letters is plain. */
  lemma LettersArePlain(w: string)
    requires w != [] && forall i :: 0 <= i < |w| ==> ('a' <= w[i] <= 'z' || 'A' <= w[i] <= 'Z')
    ensures PlainWord(w)
  {
  }

  /** `GET name` asks storage for the lower-cased name. */
  lemma GetLine(name: string)
    requires PlainWord(name)
    ensures Parse("GET " + name) == Request("get", [PyStr.Lower(name)])
  {
    LettersArePlain("GET");
    assert PyStr.Lower("GET") == "get";
    CommandLine("GET", name);
    assert "GET " + name == "GET" + [' '] + name;
  }

  /** `DELETE name` asks storage to remove the lower-cased name. */
  lemma DeleteLine(name: string)
    requires PlainWord(name)
    ensures Parse("DELETE " + name) == Request("delete", [PyStr.Lower(name)])
  {
    LettersArePlain("DELETE");
    assert PyStr.Lower("DELETE") == "delete";
    CommandLine("DELETE", name);
    assert "DELETE " + name == "DELETE" + [' '] + name;
  }

  /** `LIST`, in any case, asks storage for the listing. */
  lemma ListLine(verb: string)
    requires PyStr.Lower(verb) == "list"
    ensures Parse(verb) == Request("list", [])
  {
    assert |verb| == 4;
    forall i | 0 <= i < |verb| ensures 'a' <= verb[i] <= 'z' || 'A' <= verb[i] <= 'Z' {
      assert PyStr.LowerChar(verb[i]) == "list"[i];
    }
    LettersArePlain(verb);
    assert PyStr.LowerChar(verb[0]) == PyStr.Lower(verb)[0] == "list"[0] == 'l';
    BareCommand(verb);
  }

  /** A verb alone, a plain word, parses to the lower-cased verb with no
      parameters. */
  lemma BareCommand(verb: string)
    requires PlainWord(verb) && PyStr.UpperChar(verb[0]) != 'U'
    ensures Parse(verb) == Request(PyStr.Lower(verb), [])
  {
    CommandForm(verb);
    LowerPlain(verb);
    var lv := PyStr.Lower(verb);
    OneToken(lv);
    StripWord(lv);
  }

  /** A plain word alone is one token. */
  lemma OneToken(w: string)
    requires PlainWord(w)
    ensures ShellLex.Split(w) == Some([w])
  {
    ShellLex.PlainSplitIsFields(w);
    NoShellSpace(w);
    var empty: string := [];
    PyStr.FieldsWord(w, empty, ShellLex.ShellSpace);
    assert w + empty == w;
    assert PyStr.Fields(empty, ShellLex.ShellSpace) == [];
    assert [w] + [] == [w];
  }

  /** On a line without quotes or backslashes the tokenizer never fails, so
      the command is the first whitespace-separated field of the lower-cased
      line and the parameters are the remaining fields, each stripped. */
  lemma PlainParseCommand(s: string)
    requires ShellLex.Plain(PyStr.Lower(s))
    ensures var f := PyStr.Fields(PyStr.Lower(s), ShellLex.ShellSpace);
            ParseCommand(s) == Checked(if f == [] then [] else PyStr.Strip(f[0]),
                                       if f == [] then [] else StripEach(f[1..]))
  {
    ShellLex.PlainSplitIsFields(PyStr.Lower(s));
  }

  /** `GET "name"` with a name that may hold blanks inside: the quotes keep
      the name one parameter, lower-cased. */
  lemma QuotedGetLine(name: string)
    requires name != [] && ShellLex.Plain(name)
    requires !PyStr.IsSpace(name[0]) && !PyStr.IsSpace(name[|name| - 1])
    ensures Parse("GET \"" + name + "\"") == Request("get", [PyStr.Lower(name)])
  {
    var s := "GET \"" + name + "\"";
    assert s[0] == 'G' && s[|s| - 1] == '"';
    CommandForm(s);
    QuotedCommand(name);
  }

  lemma QuotedCommand(name: string)
    requires name != [] && ShellLex.Plain(name)
    requires !PyStr.IsSpace(name[0]) && !PyStr.IsSpace(name[|name| - 1])
    ensures ParseCommand("GET \"" + name + "\"") == Request("get", [PyStr.Lower(name)])
  {
    QuotedTokens(name);
    var ln := PyStr.Lower(name);
    assert ln != [] && !PyStr.IsSpace(ln[0]) && !PyStr.IsSpace(ln[|ln| - 1]) by {
      PyStr.LowerKeepsSpaces(name);
    }
    TwoTokenCommand("GET \"" + name + "\"", "get", ln);
  }

  /** A line that tokenizes into two words without surrounding whitespace
      is the command of the first with the second as its one parameter. */
  lemma TwoTokenCommand(s: string, verb: string, arg: string)
    requires ShellLex.Split(PyStr.Lower(s)) == Some([verb, arg])
    requires verb != [] && !PyStr.IsSpace(verb[0]) && !PyStr.IsSpace(verb[|verb| - 1])
    requires arg != [] && !PyStr.IsSpace(arg[0]) && !PyStr.IsSpace(arg[|arg| - 1])
    ensures ParseCommand(s) == Request(verb, [arg])
  {
    PyStr.StripUnchanged(verb);
    PyStr.StripUnchanged(arg);
    assert [verb, arg][1..] == [arg];
    assert StripEach([arg]) == [arg];
  }

  lemma QuotedTokens(name: string)
    requires ShellLex.Plain(name)
    ensures ShellLex.Split(PyStr.Lower("GET \"" + name + "\"")) == Some(["get", PyStr.Lower(name)])
  {
    var ln := PyStr.Lower(name);
    var q := ['"'] + ln + ['"'];
    LowerQuotedLine(name);
    QuotedTail(ln);
    LettersArePlain("get");
    WordPlainPrefix("get", [' '] + q);
    var t := "get" + ([' '] + q);
    assert t[0] == 'g' && !ShellLex.ShellSpace(t[0]);
    assert ShellLex.Split(t) == Some(["get"] + [ln]);
    assert ["get"] + [ln] == ["get", ln];
  }

  /** Lower-casing a quoted `GET` line lower-cases the verb and the name
      and keeps the name free of quotes and backslashes. */
  lemma LowerQuotedLine(name: string)
    requires ShellLex.Plain(name)
    ensures var ln := PyStr.Lower(name);
            ShellLex.Plain(ln) && PyStr.Lower("GET \"" + name + "\"") == "get" + ([' '] + (['"'] + ln + ['"']))
  {
    var ln := PyStr.Lower(name);
    assert ShellLex.Plain(ln) by {
      forall k | 0 <= k < |ln| ensures !ShellLex.Special(ln[k]) { assert !ShellLex.Special(name[k]); }
    }
    PyStr.LowerConcat("GET \"" + name, "\"");
    PyStr.LowerConcat("GET \"", name);
    assert PyStr.Lower("GET \"") == "get \"";
    assert PyStr.Lower("\"") == "\"";
  }

  /** After the verb, a blank and a closed double-quoted name are one token. */
  lemma QuotedTail(ln: string)
    requires ShellLex.Plain(ln)
    ensures ShellLex.Split([' '] + (['"'] + ln + ['"'])) == Some([ln])
  {
    var q := ['"'] + ln + ['"'];
    var empty: string := [];
    ShellLex.QuotedWord(ln, empty);
    assert q + empty == q;
    assert ShellLex.Split(q) == Some([ln] + []);
    assert ([' '] + q)[1..] == q;
    assert [ln] + [] == [ln];
  }

  /** A quoted empty verb, the request `''`, is refused. */
  lemma EmptyVerb(s: string)
    requires |s| == 2 && s[0] == '\'' && s[1] == '\''
    ensures Parse(s) == Reject("Empty command")
  {
    CommandForm(s);
    assert PyStr.Lower(s) == s;
    EmptyToken(s);
    var empty: string := [];
    assert PyStr.Strip(empty) == [];
    assert ParseCommand(s) == Checked(empty, StripEach([]));
  }

  /** The text `''` is one empty token. */
  lemma EmptyToken(s: string)
    requires |s| == 2 && s[0] == '\'' && s[1] == '\''
    ensures ShellLex.Split(s) == Some([[]])
  {
    var empty: string := [];
    assert s[1..][0] == '\'' && s[1..][1..] == s[2..] == empty;
    assert ShellLex.SingleQuoted(s[1..]) == Some((empty, empty));
    assert ShellLex.Word(empty) == Some((empty, empty));
    assert empty + empty == empty;
    assert ShellLex.Prepend(empty, ShellLex.Word(empty)) == Some((empty, empty));
    assert ShellLex.Word(s) == Some((empty, empty));
    assert ShellLex.Split(empty) == Some([]);
    assert ShellLex.Split(s) == Some([empty] + []);
    assert [empty] + [] == [empty];
  }

  /** On a plain word the tokenizer reads exactly that word. */
  lemma {:induction false} WordPlainPrefix(w: string, rest: string)
    requires PlainWord(w) && (rest == [] || ShellLex.ShellSpace(rest[0]))
    ensures ShellLex.Word(w + rest) == Some((w, rest))
    decreases |w|
  {
    var s := w + rest;
    assert s[0] == w[0] && !ShellLex.Special(w[0]);
    assert !ShellLex.ShellSpace(w[0]) by { ShellSpaceIsSpace(w[0]); }
    if |w| == 1 {
      assert s[1..] == rest && w == [w[0]] + [];
      assert ShellLex.Word(rest) == Some(([], rest));
    } else {
      assert PlainWord(w[1..]) by {
        assert forall i :: 0 <= i < |w[1..]| ==> w[1..][i] == w[i + 1];
      }
      WordPlainPrefix(w[1..], rest);
      assert s[1..] == w[1..] + rest;
      assert [w[0]] + w[1..] == w;
    }
  }

  /** After a plain word, an unclosed single quote makes the tokenizer
      fail. */
  lemma QuoteFails(lv: string, la: string)
    requires PlainWord(lv) && '\'' !in la
    ensures ShellLex.Split(lv + [' '] + (['\''] + la)) == None
  {
    ShellLex.UnclosedSingleQuoteFails(la);
    assert (['\''] + la)[1..] == la;
    assert ShellLex.Split(['\''] + la) == None;
    assert ShellLex.Split([' '] + (['\''] + la)) == None by {
      assert ([' '] + (['\''] + la))[1..] == ['\''] + la;
    }
    WordPlainPrefix(lv, [' '] + (['\''] + la));
    var t := lv + [' '] + (['\''] + la);
    assert t == lv + ([' '] + (['\''] + la));
    assert t[0] == lv[0] && !ShellLex.ShellSpace(t[0]) by { ShellSpaceIsSpace(lv[0]); }
  }

  /** A verb followed by an unclosed single quote: the tokenizer fails and
      the line is split on whitespace instead, so the argument keeps its
      case and its quote. */
  lemma UnbalancedQuote(verb: string, arg: string)
    requires PlainWord(verb) && PlainWord(arg) && PyStr.UpperChar(verb[0]) != 'U'
    ensures Parse(verb + [' '] + (['\''] + arg)) == Request(PyStr.Lower(verb), [['\''] + arg])
  {
    var q := ['\''] + arg;
    var s := verb + [' '] + q;
    assert s[0] == verb[0] && s[|s| - 1] == arg[|arg| - 1];
    CommandForm(s);
    var lv, la := PyStr.Lower(verb), PyStr.Lower(arg);
    LowerLine(verb, q);
    PyStr.LowerConcat(['\''], arg);
    assert PyStr.Lower(['\'']) == ['\''];
    LowerPlain(verb);
    LowerPlain(arg);
    assert '\'' !in la by {
      forall k | 0 <= k < |la| ensures la[k] != '\'' { assert !ShellLex.Special(la[k]); }
    }
    QuoteFails(lv, la);
    assert PyStr.NoSpace(q) by {
      forall k | 0 <= k < |q| ensures !PyStr.IsSpace(q[k]) {
        if k > 0 { assert q[k] == arg[k - 1]; }
      }
    }
    PyStr.TwoFields(verb, ' ', q, PyStr.IsSpace);
    assert [verb, q][1..] == [q];
  }

  lemma ExecutedUpload(before: Files, after: Files, input: string, callError: string, r: Envelope, params: seq<string>)
    requires Parse(input) == Request("upload", params) && Executed(before, after, input, callError, r)
    ensures Outcome(r, after) == UploadOutcome(before, params)
  {
  }

  lemma ExecutedGet(before: Files, after: Files, input: string, callError: string, r: Envelope, params: seq<string>)
    requires Parse(input) == Request("get", params) && Executed(before, after, input, callError, r)
    ensures after == before && r == GetReply(before, params)
  {
  }

  /** A blank request is refused and leaves the directory as it was. */
  lemma BlankRequestRefused(before: Files, after: Files, input: string, callError: string, r: Envelope)
    requires PyStr.AllSpace(input) && Executed(before, after, input, callError, r)
    ensures r == ErrorEnvelope("Empty request") && after == before
  {
    BlankRequest(input);
  }

  /** `UPLOAD name` with no payload is refused by storage for want of
      contents, not by the parser as incomplete. */
  lemma UploadWithoutContentRefused(before: Files, after: Files, name: string, callError: string, r: Envelope)
    requires name != [] && PyStr.NoSpace(name)
    requires Executed(before, after, "UPLOAD " + name, callError, r)
    ensures r == ErrorEnvelope("File content required") && after == before
  {
    UploadWithoutContent(name);
  }

  /** The client's upload line stores the bytes under the name as written. */
  lemma UploadLineStores(files: Files, mid: Files, name: string, content: seq<Byte>, e: string, r: Envelope)
    requires PlainWord(name) && 0 < |content| <= MaxSize
    requires Executed(files, mid, "UPLOAD " + name + " " + Base64.Encode(content), e, r)
    ensures r.status == OK && mid == files[name := content]
  {
    var enc := Base64.Encode(content);
    UploadLine(name, content);
    ExecutedUpload(files, mid, "UPLOAD " + name + " " + enc, e, r, [name, enc]);
    Base64.RoundTrip(content);
    Base64.EncodeEmpty(content);
  }

  /** The client's get line looks up the lower-cased name. */
  lemma GetLineLooksUp(mid: Files, after: Files, name: string, e: string, r: Envelope)
    requires PlainWord(name)
    requires Executed(mid, after, "GET " + name, e, r)
    ensures after == mid && r == GetReply(mid, [PyStr.Lower(name)])
  {
    GetLine(name);
    ExecutedGet(mid, after, "GET " + name, e, r, [PyStr.Lower(name)]);
  }

  /** The client's upload of some bytes under a lower-case name, followed by
      its get of the same name, returns the base 64 text of those bytes. */
  lemma UploadThenGetLines(files: Files, mid: Files, after: Files, name: string, content: seq<Byte>,
                           e1: string, e2: string, r1: Envelope, r2: Envelope)
    requires PlainWord(name) && PyStr.Lower(name) == name && 0 < |content| <= MaxSize
    requires Executed(files, mid, "UPLOAD " + name + " " + Base64.Encode(content), e1, r1)
    requires Executed(mid, after, "GET " + name, e2, r2)
    ensures r1.status == OK && mid == files[name := content] && after == mid
    ensures r2 == Envelope(OK, None, Some(name), Some(Base64.Encode(content)), None)
    ensures Base64.Decode(r2.dataFile.value) == Success(content)
  {
    UploadLineStores(files, mid, name, content, e1, r1);
    GetLineLooksUp(mid, after, name, e2, r2);
    UploadThenGet(files, name, content);
    Base64.RoundTrip(content);
  }

  /** A name with an upper-case letter is stored as written, but `GET`
      lower-cases it, so the file cannot be fetched back by that name unless
      its lower-case twin exists. */
  lemma MixedCaseNotFound(files: Files, mid: Files, after: Files, name: string, content: seq<Byte>,
                          e1: string, e2: string, r1: Envelope, r2: Envelope)
    requires PlainWord(name) && PyStr.Lower(name) != name && PyStr.Lower(name) !in files
    requires 0 < |content| <= MaxSize
    requires Executed(files, mid, "UPLOAD " + name + " " + Base64.Encode(content), e1, r1)
    requires Executed(mid, after, "GET " + name, e2, r2)
    ensures r1.status == OK && name in mid
    ensures r2 == ErrorEnvelope("File not found")
  {
    UploadLineStores(files, mid, name, content, e1, r1);
    GetLineLooksUp(mid, after, name, e2, r2);
    OtherNameNotFound(files, name, PyStr.Lower(name), content);
  }

  lemma OtherNameNotFound(files: Files, name: string, other: string, content: seq<Byte>)
    requires other != [] && other != name && other !in files
    ensures GetReply(files[name := content], [other]) == ErrorEnvelope("File not found")
  {
  }
}
