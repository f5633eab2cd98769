/** The storage object: the `files` directory as a map from file name to
    contents, and the four operations the protocol exposes on it (`list`,
    `get`, `upload`, `delete`).  Each operation checks its parameters in a
    fixed order, enforces the 100 MiB limit, and answers with a reply
    dictionary. */
module Storage {

  import opened Basics
  import opened Response
  import Base64
  import PyStr

  /** The size limit of `get` and `upload`: 100 * 1024 * 1024 bytes. */
  const MaxSize: nat := 100 * 1024 * 1024

  /** The directory: each stored file name with its bytes. */
  type Files = map<string, seq<Byte>>

  /** Whether the glob pattern `*.*` matches a directory entry: the name holds
      a dot, and, as for every glob wildcard, a leading dot hides it. */
  predicate MatchesGlob(name: string)
  {
    name != [] && name[0] != '.' && '.' in name
  }

  predicate Distinct(names: seq<string>)
  {
    forall i, j :: 0 <= i < j < |names| ==> names[i] != names[j]
  }

  /** `names` is a listing of the directory: each matching name once, in any
      order (glob promises no order). */
  ghost predicate IsListing(files: Files, names: seq<string>)
  {
    Distinct(names) && forall n :: n in names <==> n in files && MatchesGlob(n)
  }

  function ListReply(names: seq<string>): (r: Envelope)
    ensures r.status == OK && r.data == Some(names)
  {
    Envelope(OK, Some(names), None, None, None)
  }

  function TooLarge(size: nat): (r: Envelope)
    ensures r.status == ERROR
  {
    ErrorEnvelope("File too large (" + PyStr.NatToString(size) + " bytes)")
  }

  /** What `get(params)` answers.  It succeeds exactly for a non-empty name of
      a stored file within the limit, and then carries the name and the base
      64 text of the file, which decodes to the stored bytes. */
  function GetReply(files: Files, params: seq<string>): (r: Envelope)
    ensures r.status == OK <==>
              params != [] && params[0] != [] && params[0] in files && |files[params[0]]| <= MaxSize
    ensures r.status == OK ==>
              r.dataNamafile == Some(params[0]) && r.dataFile.Some?
              && Base64.Decode(r.dataFile.value) == Success(files[params[0]])
    ensures r.status == ERROR ==> r.message.Some?
  {
    if params == [] || params[0] == [] then ErrorEnvelope("Filename required")
    else if params[0] !in files then ErrorEnvelope("File not found")
    else if |files[params[0]]| > MaxSize then TooLarge(|files[params[0]]|)
    else
      Base64.RoundTrip(files[params[0]]);
      Envelope(OK, None, Some(params[0]), Some(Base64.Encode(files[params[0]])), None)
  }

  /** The reply of a state-changing operation and the directory after it. */
  datatype Outcome = Outcome(reply: Envelope, files: Files)

  /** What `upload(params)` does.  It succeeds exactly when there are two
      parameters, neither empty, the second decodes, and the decoded bytes
      are within the limit; then exactly the named entry is written (created
      or overwritten) with the decoded bytes.  On every error the directory
      is unchanged. */
  function UploadOutcome(files: Files, params: seq<string>): (o: Outcome)
    ensures o.reply.status == OK <==>
              |params| >= 2 && params[0] != [] && params[1] != []
              && Base64.Decode(params[1]).Success? && |Base64.Decode(params[1]).value| <= MaxSize
    ensures o.reply.status == OK ==>
              o.files == files[params[0] := Base64.Decode(params[1]).value]
              && o.reply.dataNamafile == Some(params[0])
              && o.reply.message == Some("File uploaded successfully")
    ensures o.reply.status == ERROR ==> o.files == files && o.reply.message.Some?
  {
    if |params| < 2 then Outcome(ErrorEnvelope("Filename and content required"), files)
    else if params[0] == [] then Outcome(ErrorEnvelope("Filename required"), files)
    else if params[1] == [] then Outcome(ErrorEnvelope("File content required"), files)
    else match Base64.Decode(params[1])
      case Failure(err) => Outcome(ErrorEnvelope("Invalid base64 encoding: " + err), files)
      case Success(content) =>
        if |content| > MaxSize then Outcome(TooLarge(|content|), files)
        else Outcome(Envelope(OK, None, Some(params[0]), None, Some("File uploaded successfully")),
                     files[params[0] := content])
  }

  /** What `delete(params)` does.  It succeeds exactly for a non-empty name
      of a stored file, and then removes that entry and no other. */
  function DeleteOutcome(files: Files, params: seq<string>): (o: Outcome)
    ensures o.reply.status == OK <==> params != [] && params[0] != [] && params[0] in files
    ensures o.reply.status == OK ==>
              o.files == files - {params[0]} && o.reply.message == Some("File deleted successfully")
    ensures o.reply.status == ERROR ==> o.files == files && o.reply.message.Some?
  {
    if params == [] || params[0] == [] then Outcome(ErrorEnvelope("Filename required"), files)
    else if params[0] !in files then Outcome(ErrorEnvelope("File not found"), files)
    else Outcome(Envelope(OK, None, None, None, Some("File deleted successfully")), files - {params[0]})
  }

  /** The storage object over its base directory. */
  class FileInterface {

    const basePath: string
    var files: Files

    /** Opens the directory with the files it already holds. */
    constructor (basePath: string, existing: Files)
      ensures this.basePath == basePath && files == existing
    {
      this.basePath := basePath;
      files := existing;
    }

    /** `os.path.join(base_path, filename)`: the file name is used as it
        stands, so an absolute name replaces the base directory. */
    function FilePath(filename: string): (p: string)
      ensures |filename| <= |p| && p[|p| - |filename|..] == filename
      ensures filename != [] && filename[0] == '/' ==> p == filename
    {
      if filename != [] && filename[0] == '/' then filename
      else if basePath == [] || basePath[|basePath| - 1] == '/' then basePath + filename
      else basePath + "/" + filename
    }

    /** `list()`: the names of the stored files that match `*.*`. */
    method List(params: seq<string>) returns (r: Envelope)
      ensures r.data.Some? && r == ListReply(r.data.value) && IsListing(files, r.data.value)
    {
      var names: seq<string> := [];
      var remaining := files.Keys;
      while remaining != {}
        invariant remaining <= files.Keys
        invariant Distinct(names)
        invariant forall n :: n in names <==> n in files && MatchesGlob(n) && n !in remaining
        decreases remaining
      {
        var n :| n in remaining;
        if MatchesGlob(n) {
          names := names + [n];
        }
        remaining := remaining - {n};
      }
      r := ListReply(names);
    }

    /** `get(params)`. */
    method Get(params: seq<string>) returns (r: Envelope)
      ensures r == GetReply(files, params)
    {
      if params == [] || params[0] == [] {
        return ErrorEnvelope("Filename required");
      }
      var filename := params[0];
      if filename !in files {
        return ErrorEnvelope("File not found");
      }
      var fileSize := |files[filename]|;
      if fileSize > MaxSize {
        return TooLarge(fileSize);
      }
      var isifile := Base64.Encode(files[filename]);
      r := Envelope(OK, None, Some(filename), Some(isifile), None);
    }

    /** `upload(params)`. */
    method Upload(params: seq<string>) returns (r: Envelope)
      modifies this
      ensures Outcome(r, files) == UploadOutcome(old(files), params)
    {
      if |params| < 2 {
        return ErrorEnvelope("Filename and content required");
      }
      var filename, content := params[0], params[1];
      if filename == [] {
        return ErrorEnvelope("Filename required");
      }
      if content == [] {
        return ErrorEnvelope("File content required");
      }
      var decoded := Base64.Decode(content);
      if decoded.Failure? {
        return ErrorEnvelope("Invalid base64 encoding: " + decoded.error);
      }
      if |decoded.value| > MaxSize {
        return TooLarge(|decoded.value|);
      }
      files := files[filename := decoded.value];
      r := Envelope(OK, None, Some(filename), None, Some("File uploaded successfully"));
    }

    /** `delete(params)`. */
    method Delete(params: seq<string>) returns (r: Envelope)
      modifies this
      ensures Outcome(r, files) == DeleteOutcome(old(files), params)
    {
      if params == [] || params[0] == [] {
        return ErrorEnvelope("Filename required");
      }
      var filename := params[0];
      if filename !in files {
        return ErrorEnvelope("File not found");
      }
      files := files - {filename};
      r := Envelope(OK, None, None, None, Some("File deleted successfully"));
    }
  }

  /** Distinct relative names give distinct path strings. */
  lemma FilePathInjective(fi: FileInterface, a: string, b: string)
    requires a != [] && a[0] != '/' && b != [] && b[0] != '/'
    requires fi.FilePath(a) == fi.FilePath(b)
    ensures a == b
  {
    var p := fi.basePath;
    if p == [] || p[|p| - 1] == '/' {
      assert fi.FilePath(a)[|p|..] == a && fi.FilePath(b)[|p|..] == b;
    } else {
      assert fi.FilePath(a)[|p| + 1..] == a && fi.FilePath(b)[|p| + 1..] == b;
    }
  }

  /** Uploading the base 64 text of some bytes and then getting the same
      name gives back that text, which decodes to the bytes. */
  lemma UploadThenGet(files: Files, name: string, content: seq<Byte>)
    requires name != [] && 0 < |content| <= MaxSize
    ensures var o := UploadOutcome(files, [name, Base64.Encode(content)]);
            o.reply.status == OK
            && GetReply(o.files, [name]) == Envelope(OK, None, Some(name), Some(Base64.Encode(content)), None)
  {
    Base64.RoundTrip(content);
    Base64.EncodeEmpty(content);
  }

  /** After a successful delete, getting the name finds nothing. */
  lemma DeleteThenGet(files: Files, name: string)
    requires DeleteOutcome(files, [name]).reply.status == OK
    ensures GetReply(DeleteOutcome(files, [name]).files, [name]) == ErrorEnvelope("File not found")
  {
  }

  /** A listing after a successful upload of a matching name shows it, and
      shows every other listed name of before. */
  lemma UploadThenList(files: Files, params: seq<string>, before: seq<string>, after: seq<string>)
    requires UploadOutcome(files, params).reply.status == OK
    requires IsListing(files, before) && IsListing(UploadOutcome(files, params).files, after)
    ensures MatchesGlob(params[0]) ==> params[0] in after
    ensures forall n :: n in before ==> n in after
  {
  }

  lemma {:induction false} DistinctCount(names: seq<string>, x: string)
    requires Distinct(names)
    ensures multiset(names)[x] == if x in names then 1 else 0
    decreases |names|
  {
    if names != [] {
      assert names == [names[0]] + names[1..];
      assert Distinct(names[1..]) by {
        forall i, j | 0 <= i < j < |names[1..]| ensures names[1..][i] != names[1..][j] {
          assert names[1..][i] == names[i + 1] && names[1..][j] == names[j + 1];
        }
      }
      assert names[0] !in names[1..] by {
        forall k | 0 <= k < |names[1..]| ensures names[1..][k] != names[0] {
          assert names[1..][k] == names[k + 1];
        }
      }
      DistinctCount(names[1..], x);
      assert multiset(names) == multiset([names[0]]) + multiset(names[1..]);
    }
  }

  /** Listings of the same directory differ only in order. */
  lemma ListingsArePermutations(files: Files, a: seq<string>, b: seq<string>)
    requires IsListing(files, a) && IsListing(files, b)
    ensures multiset(a) == multiset(b)
  {
    forall x | true ensures multiset(a)[x] == multiset(b)[x] {
      DistinctCount(a, x);
      DistinctCount(b, x);
    }
  }
}
