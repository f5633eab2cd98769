# A verified model of the progjar_ETS file server

The system is a small TCP file server. A client sends one request line per
connection; the server answers with a JSON dictionary followed by the blank
line `\r\n\r\n`. There are four commands:

- `LIST`: the names of the stored files;
- `GET name`: the file as base 64 text;
- `UPLOAD name base64`: store the decoded bytes under the name;
- `DELETE name`: remove the file.

The files live in one directory, `files`. Two servers share the request handler:

- a thread-per-connection server, which reads in 32 KiB chunks with a completeness heuristic and writes the reply in 32 KiB slices;
- a process-per-connection server, which reads once (8 KiB), admits a connection only while fewer than `max_processes` handler processes are alive, stops on a signal, and terminates or kills the processes left at cleanup.

The model is split into these modules:

- `Basics`: bytes, `Option`/`Result`, flattening chunks, and the order-keeping filter that a list comprehension with a condition performs.
- `PyStr`: the Python string operations the handler uses. These are `strip`, ASCII `lower`/`upper`, `split(sep, maxsplit)`, `split()`, and the decimal rendering of a size.
- `ShellLex`: `shlex.split` in POSIX mode, with `None` where it raises `ValueError`.
- `Base64`: encoding and decoding as in section 4 of RFC 4648.
- `Utf8`: strict decoding, decoding with `errors='ignore'`, and encoding.
- `Response`: the reply dictionary, its `json.dumps` text with `ensure_ascii`, and its bytes on the wire.
- `Storage`: the `FileInterface` class over a map from file name to bytes. Each operation also has a specification function.
- `Protocol`: the parsing of a request line and the dispatch of `proses_string`.
- `ThreadServer`: `file_server.py`, that is, one handler thread's receive, process and send, and the accepting thread's list of handler threads.
- `ProcessPool`: `server_process_pool.py`, that is, the handler process, the admission loop, signals and cleanup.

Sockets, clocks and other processes are modelled as inputs. A connection is the sequence of outcomes of its reads. An accept loop is the sequence of outcomes of `accept`. The set of processes alive at a moment is a parameter. The text of an exception that some attribute raises when it is called is also a parameter, `callError`.

Where the design description and the code disagree, the model follows the code:

- `UPLOAD a.txt` (with no payload) is not refused as "UPLOAD command incomplete". The line splits into two fields. The handler passes the parameters `[a.txt, ""]`. Storage then answers "File content required" (`Protocol.UploadWithoutContentRefused`).
- `GET` and `DELETE` lower-case the whole line before tokenizing it. So a file uploaded under a mixed-case name is stored as written, but `GET` of that name looks up the lower-cased name (`Protocol.MixedCaseNotFound`).
- Looking a verb up with `hasattr` also finds the other attributes of the storage object:
  - its field `base_path`;
  - its helper `_get_file_path`;
  - the attributes every Python object has. The model lists those of Python 3.11 and 3.12; Python 3.13 adds `__static_attributes__` and `__firstlineno__`.

  Calling one of these with the parameter list raises, so the reply is "Error executing command: …" rather than "Unknown command".

## Model

| member | source | states |
|---|---|---|
| Basics.Filter | file_server.py:146 | the pruned list is no longer than the original and holds exactly the elements that are both in it and alive |
| PyStr.Lower | file_protocol.py:37 | `str.lower()` on ASCII letters, character by character (definition; `LowerKeepsSpaces` and `LowerConcat` state its properties) |
| PyStr.Upper | file_protocol.py:33 | `str.upper()` on ASCII letters, character by character (definition) |
| PyStr.Fields | file_protocol.py:64 | `str.split()` with no argument: the runs of non-whitespace, in order (definition; `FieldsAreWords` states its properties) |
| PyStr.Strip | file_protocol.py:28 | the result is a slice of the input with only whitespace removed on either side, and it neither starts nor ends with whitespace |
| PyStr.StripEmpty | file_protocol.py:28-29 | stripping gives the empty string exactly when the input is all whitespace |
| PyStr.Split | file_protocol.py:35 | `split(sep, maxsplit)` gives 1 to maxsplit+1 parts; joined with the separator they give back the input; no part but the last holds the separator, and the last holds none when fewer than maxsplit splits were made |
| PyStr.FieldsAreWords | file_protocol.py:64 | the fields of `split()` are non-empty, contain no whitespace, together are the input with its whitespace removed, and are maximal runs: the input is the fields interleaved with runs of whitespace, all runs but the first and last non-empty |
| PyStr.FieldsAreMaximal | file_protocol.py:64 | the input is the fields of `split()` interleaved with the whitespace gaps between them, every inner gap non-empty, so no field could be longer |
| PyStr.LowerKeepsSpaces | file_protocol.py:58 | lower-casing changes no character into or out of whitespace |
| PyStr.NatToStringValue | file_interface.py:55 | the size written in "File too large (n bytes)" reads back as n |
| PyStr.NatToString | file_interface.py:55 | the decimal rendering of a size is a non-empty string of digits without a leading zero |
| ShellLex.Split | file_protocol.py:58 | `shlex.split` in POSIX mode: runs of space, tab, CR and LF separate words; single quotes are literal, double quotes escape only `"` and backslash, a backslash outside quotes escapes any character; an unclosed quote or a trailing backslash gives `None` (definition) |
| ShellLex.PlainSplitIsFields | file_protocol.py:58 | on text without quotes or backslashes, `shlex.split` gives exactly the whitespace-separated fields |
| ShellLex.UnclosedSingleQuoteFails | file_protocol.py:58-61 | a single quote that is never closed makes the tokenizer fail, which the handler catches as `ValueError` |
| ShellLex.DoubleQuotedPlain | file_protocol.py:58 | a double-quoted body without quotes or backslashes is read verbatim up to the closing quote |
| ShellLex.QuotedWord | file_protocol.py:58 | a closed double-quoted word is its body, blanks included |
| Base64.Encode | file_interface.py:59 | the encoding has a length that is a multiple of four, and it is empty exactly when the bytes are |
| Base64.RoundTrip | file_interface.py:84 | decoding the encoding of any bytes gives those bytes back |
| Base64.EncodeAlphabet | file_interface.py:59 | every character of an encoding is from the base 64 alphabet or is `=` |
| Base64.BadLengthFails | file_interface.py:83-86 | the strict decoder refuses a text whose length is not a multiple of four, with "Incorrect padding" |
| Base64.Decode | file_interface.py:84 | strict `b64decode`: quanta of four alphabet characters, padding only in the last quantum, failure with a reason otherwise (definition; `RoundTrip` and `BadLengthFails` state its properties) |
| Utf8.Decode | file_server.py:81 | `bytes.decode('utf-8')` by the well-formed byte sequences of table 3-7 of the Unicode standard; when it succeeds the text is no longer than the bytes |
| Utf8.DecodeIgnoring | file_server.py:56 | `bytes.decode('utf-8', errors='ignore')`, dropping each maximal ill-formed subpart; the text is no longer than the bytes |
| Utf8.Encode | file_server.py:89 | `str.encode('utf-8')`, one to four bytes per character (definition; `DecodeEncode` states its inverse) |
| Utf8.NextEncodeChar | file_server.py:81-89 | the decoder reads the encoding of any character back as that character, consuming exactly its bytes, whatever follows |
| Utf8.DecodeEncode | file_server.py:81-89 | decoding, strictly or with `errors='ignore'`, the encoding of any text gives that text back |
| Utf8.IgnoringAgrees | file_server.py:56 | on valid UTF-8, decoding with `errors='ignore'` gives the same text as strict decoding |
| Utf8.AsciiDecodes | file_server.py:81 | ASCII bytes decode, strictly and leniently, to the characters with those codes |
| Utf8.ForbiddenByteFails | file_server.py:81 | a byte of 0xF5 or above, which never occurs in UTF-8, makes strict decoding fail |
| Utf8.EncodeConcat | file_server.py:88-89 | encoding the reply followed by the trailer is the encoding of the reply followed by the encoding of the trailer |
| Utf8.EncodeAscii | file_server.py:89 | ASCII text encodes as one byte per character, holding its code |
| Response.Json | file_protocol.py:81 | `json.dumps` of a reply dictionary: the status, then each present key in insertion order (definition; `JsonPrintable` and `UnescapeEscape` state its properties) |
| Response.Hex4Value | file_protocol.py:81 | the four hex digits of a `\uXXXX` escape read back as the code unit |
| Response.JsonPrintable | file_protocol.py:81 | the `json.dumps` text of every reply is printable ASCII |
| Response.UnescapeEscape | file_protocol.py:81 | every string that `json.dumps` quotes reads back as the same string, surrogate pairs included |
| Response.ErrorJson | file_protocol.py:30 | the text of an error dictionary is the status member followed by the quoted message |
| Response.InvalidEncodingIsJson | file_server.py:104 | the fixed "Invalid character encoding" text is exactly the `json.dumps` text of that error dictionary |
| Response.Wire | file_server.py:88-89 | the bytes sent for a reply: the UTF-8 encoding of its JSON text and the trailer (definition; `TrailerOnlyAtEnd` states its property) |
| Response.TrailerOnlyAtEnd | file_server.py:88-89 | the bytes of a reply end with CR LF CR LF, and no carriage return occurs before them |
| Storage.IsListing | file_interface.py:29-32 | a listing names each stored file that matches `*.*` and has no leading dot exactly once, in any order (definition) |
| Storage.GetReply | file_interface.py:39-62 | `get` succeeds exactly for a non-empty name of a stored file of at most 100 MiB; then it carries the name and base 64 text that decodes to the stored bytes; every failure carries a message |
| Storage.UploadOutcome | file_interface.py:68-99 | `upload` succeeds exactly for two non-empty parameters whose content decodes to at most 100 MiB; then exactly that entry is written with the decoded bytes; on any error the directory is unchanged |
| Storage.DeleteOutcome | file_interface.py:105-118 | `delete` succeeds exactly for a non-empty name of a stored file; then it removes that entry and no other; on any error the directory is unchanged |
| Storage.FileInterface.constructor | file_interface.py:11-16 | the storage object opens on its base path with the files already there |
| Storage.FileInterface.FilePath | file_interface.py:22-24 | `os.path.join` ends with the file name, and an absolute name replaces the base directory |
| Storage.FileInterface.List | file_interface.py:26-34 | `list` answers OK with the names of the stored files that match `*.*` and do not start with a dot, each once |
| Storage.FileInterface.Get | file_interface.py:39-62 | `get` answers as `GetReply` on the current files |
| Storage.FileInterface.Upload | file_interface.py:68-99 | `upload` answers and changes the files as `UploadOutcome` |
| Storage.FileInterface.Delete | file_interface.py:105-118 | `delete` answers and changes the files as `DeleteOutcome` |
| Storage.FilePathInjective | file_interface.py:22-24 | distinct relative names give distinct path strings |
| Storage.UploadThenGet | file_interface.py:57-99 | uploading the base 64 of some bytes and then getting the name gives back that same text |
| Storage.DeleteThenGet | file_interface.py:105-118 | after a successful delete, getting the name answers "File not found" |
| Storage.UploadThenList | file_interface.py:26-99 | after a successful upload, a listing shows the new name (if it matches the pattern) and every name listed before |
| Storage.ListingsArePermutations | file_interface.py:29-32 | two listings of the same directory differ only in order |
| Protocol.Parse | file_protocol.py:26-69 | a request is stripped; a blank one is refused as "Empty request"; one starting with `UPLOAD` in any case takes the upload branch, any other the tokenizer branch; a parsed request always has a non-empty verb |
| Protocol.ParseUpload | file_protocol.py:33-54 | the upload branch splits on the first two blanks: three parts give the lower-cased verb, the stripped name and the unstripped payload, refused when the payload does not decode; two parts give an empty payload; fewer are refused as incomplete |
| Protocol.ParseCommand | file_protocol.py:56-69 | a non-upload line yields a non-empty verb or is refused with "Empty command" |
| Protocol.PlainParseCommand | file_protocol.py:56-69 | on a line without quotes or backslashes, the command is the first whitespace-separated field of the lower-cased line and the parameters the remaining fields, each stripped, and an empty line is refused with "Empty command" |
| Protocol.ProsesString | file_protocol.py:21-90 | the reply and the new directory are those of the parsed request dispatched to `list`, `get`, `upload` or `delete`; any other attribute of the storage object (its field, its helper and the attributes of a Python 3.11 or 3.12 object, `OtherAttributes`) gives "Error executing command"; an unknown verb gives "Unknown command"; a refused line leaves the directory unchanged |
| Protocol.BlankRequest | file_protocol.py:28-30 | a request is refused as "Empty request" exactly when it is all whitespace |
| Protocol.UploadIncomplete | file_protocol.py:33-54 | an `UPLOAD` request is refused as incomplete exactly when its stripped text holds no blank |
| Protocol.UploadWithoutSpace | file_protocol.py:35-54 | the upload branch refuses a line as incomplete exactly when it contains no blank |
| Protocol.UploadForm | file_protocol.py:32-33 | a stripped line that starts with `UPLOAD` takes the upload branch |
| Protocol.CommandForm | file_protocol.py:55-58 | a stripped line whose first letter is not `u` takes the tokenizer branch |
| Protocol.UploadFields | file_protocol.py:35-39 | `UPLOAD name payload` splits into the verb, the name and the payload, which is kept unstripped |
| Protocol.UploadLine | file_protocol.py:33-44 | the line the client writes for some bytes parses to `upload` with the name and the base 64 text |
| Protocol.UploadWithoutContent | file_protocol.py:49-52 | `UPLOAD name` parses to `upload` with the name and an empty content |
| Protocol.UploadBadPayload | file_protocol.py:41-47 | a payload that does not decode is refused with "Invalid file content encoding" before storage is called |
| Protocol.TwoTokens | file_protocol.py:58 | two plain words separated by a blank tokenize into those two words |
| Protocol.OneToken | file_protocol.py:58 | a plain word alone is one token |
| Protocol.CommandLine | file_protocol.py:56-60 | a plain verb and argument parse to the lower-cased verb with the lower-cased argument |
| Protocol.GetLine | file_protocol.py:56-60 | `GET name` asks storage for the lower-cased name |
| Protocol.QuotedGetLine | file_protocol.py:56-60 | `GET "name"` with blanks inside the name asks storage for the whole lower-cased name as one parameter |
| Protocol.DeleteLine | file_protocol.py:56-60 | `DELETE name` asks storage to remove the lower-cased name |
| Protocol.ListLine | file_protocol.py:56-60 | `LIST` in any case asks storage for the listing, with no parameters |
| Protocol.BareCommand | file_protocol.py:56-60 | a plain verb on its own parses to the lower-cased verb with no parameters |
| Protocol.EmptyVerb | file_protocol.py:58-69 | the request `''` tokenizes to an empty verb and is refused with "Empty command" |
| Protocol.QuoteFails | file_protocol.py:58-61 | a verb followed by an unclosed single quote makes the tokenizer fail |
| Protocol.UnbalancedQuote | file_protocol.py:61-66 | then the handler falls back to splitting on whitespace; only the verb is lower-cased and the argument keeps its quote and case |
| Protocol.BlankRequestRefused | file_protocol.py:28-30 | a blank request is answered "Empty request" and leaves the directory unchanged |
| Protocol.UploadWithoutContentRefused | file_protocol.py:49-52 | `UPLOAD name` without content is answered "File content required" and leaves the directory unchanged |
| Protocol.UploadLineStores | file_protocol.py:33-44 | the client's upload line stores the bytes under the name as written |
| Protocol.GetLineLooksUp | file_protocol.py:56-60 | the client's get line looks up the lower-cased name and changes nothing |
| Protocol.UploadThenGetLines | file_protocol.py:33-81 | for a lower-case name, uploading some bytes and then getting the name returns base 64 text that decodes to those bytes |
| Protocol.MixedCaseNotFound | file_protocol.py:58 | a name with an upper-case letter is stored as written, but `GET` of the same name answers "File not found" |
| Protocol.OtherNameNotFound | file_interface.py:47-48 | storing one name does not make another, absent name found |
| ThreadServer.Complete | file_server.py:47-67 | the completeness test: a request not starting with `UPLOAD` ends with a short chunk; an upload ends once its third part is over 100 characters and ends with `=` or came with a short chunk (definition; `UploadComplete` states it) |
| ThreadServer.Receive | file_server.py:34-76 | the receive loop reads at most the events it is given and returns the bytes read with the number of events consumed |
| ThreadServer.ReceiveRequest | file_server.py:34-76 | the receive loop returns exactly the bytes, and consumes exactly the reads, of the loop's specification |
| ThreadServer.ReceiveChunk | file_server.py:36-67 | one pass: an empty read, a timeout or an error stops the loop; otherwise the chunk is appended, and the loop stops when the completeness test holds |
| ThreadServer.ReceiveConcatenates | file_server.py:40 | the request is the concatenation, in order, of the chunks read |
| ThreadServer.ReceiveStopsAtEnd | file_server.py:36-38 | every read before the last one consumed returned a non-empty chunk |
| ThreadServer.ShortChunkEndsCommand | file_server.py:49-50 | a request not starting with `UPLOAD` (case-sensitively, so a lower-case `upload` line too) ends with its first short chunk, whatever was read before it |
| ThreadServer.FullChunkContinues | file_server.py:49-53 | a full 32 KiB chunk of such a request never ends the loop, at any point of the read |
| ThreadServer.AsciiRoundTrip | file_server.py:56 | ASCII text sent as bytes reads back as the same text, both strictly and with `errors='ignore'` |
| ThreadServer.UploadBytes | file_server.py:56-57 | the bytes of `UPLOAD name payload`, decoded and split on the first two blanks, give the verb, the name and the payload |
| ThreadServer.UploadComplete | file_server.py:53-67 | an upload is complete exactly when its payload has more than 100 characters and ends with `=`, or came with a short chunk |
| ThreadServer.SmallUploadWaits | file_server.py:61-62 | an upload with a payload of at most 100 characters never ends the loop, so the handler keeps reading |
| ThreadServer.PaddedUploadCompletes | file_server.py:62-67 | an upload with a payload of more than 100 characters ending in `=` ends the loop as soon as it is read |
| ThreadServer.SendSlices | file_server.py:91-98 | the slices concatenate to the response; each holds 1 to 32768 bytes, and all but the last hold exactly 32768 |
| ThreadServer.InvalidEncodingWire | file_server.py:102-105 | the fixed error bytes are the wire form of the "Invalid character encoding" reply |
| ThreadServer.Served | file_server.py:78-109 | what one handler thread does with its connection: nothing for an empty request, the fixed error reply for bytes that are not UTF-8, otherwise the handler's reply and the trailer in slices of 32 KiB (definition) |
| ThreadServer.ServeClient | file_server.py:78-109 | a connection gets nothing when nothing was read; it gets the fixed error reply when the bytes are not UTF-8; otherwise it gets the handler's reply and trailer in full slices (all but the last) |
| ThreadServer.ServedOnce | file_server.py:78-109 | whatever a handler thread sends carries exactly one blank line, at its end |
| ThreadServer.SingleSliceOnce | file_server.py:104-105 | the reply written in one piece ends with the only blank line in it |
| ThreadServer.Track | file_server.py:142-146 | one accepted thread is appended, and the list is pruned to its live threads when it holds more than 50 (definition; `TrackKeepsLive` states it) |
| ThreadServer.TrackKeepsLive | file_server.py:142-146 | tracking keeps every live thread; it keeps the new thread unless the list was pruned and that thread has finished; the list grows by at most one |
| ThreadServer.TrackSmall | file_server.py:142-146 | while the list never passes 50 entries, it holds exactly the started threads in start order |
| ThreadServer.TrackAllLive | file_server.py:136-146 | while every thread is still running, pruning removes nothing and the list holds the started threads in order |
| ThreadServer.Server.constructor | file_server.py:121-128 | the server starts with no tracked threads |
| ThreadServer.Server.Accept | file_server.py:137-146 | one accepted connection appends its thread, then prunes to the live threads when the list is longer than 50 |
| ThreadServer.Server.Run | file_server.py:136-146 | the accept loop tracks the threads as `Accept` does, one connection after another |
| ThreadServer.Server.Cleanup | file_server.py:156-159 | cleanup joins the tracked threads that are alive, in list order, and only those |
| ProcessPool.FirstRead | server_process_pool.py:17 | the one read yields a prefix, of at most 8192 bytes, of what arrived; it yields everything when less arrived; it yields nothing when the peer closed or the read failed |
| ProcessPool.Handled | server_process_pool.py:17-22 | what a handler process does: one write of the reply and the trailer for a non-empty UTF-8 read, nothing otherwise (definition) |
| ProcessPool.HandleClientProcess | server_process_pool.py:10-28 | an empty read, or bytes that are not UTF-8, send nothing and leave the directory unchanged; otherwise the handler's reply and trailer are written once |
| ProcessPool.HandledOnce | server_process_pool.py:17-22 | a handler process writes at most once, and what it writes ends with the only blank line in it |
| ProcessPool.LongRequestCut | server_process_pool.py:17-19 | an ASCII request longer than 8192 bytes is handled as its first 8192 characters |
| ProcessPool.AdmitStep | server_process_pool.py:64-77 | one connection: prune to the live processes, then admit and append exactly when fewer than the limit remain (definition; `AdmitStepBound` states it) |
| ProcessPool.Serve | server_process_pool.py:58-80 | the accept loop over a sequence of accept outcomes until a signal: the final list and whether each connection was admitted (definition; `ServeBound` and `ServeAnswersEachConnection` state it) |
| ProcessPool.AdmitStepBound | server_process_pool.py:63-77 | admission keeps the list within the limit and keeps exactly the live processes plus the new one; it admits exactly when fewer than the limit are alive |
| ProcessPool.ServeBound | server_process_pool.py:58-80 | the accept loop never tracks more processes than the limit |
| ProcessPool.InterruptEndsServe | server_process_pool.py:47-58 | after a signal no connection is accepted and the list no longer changes |
| ProcessPool.ServeAnswersEachConnection | server_process_pool.py:58-80 | without a signal, every arriving connection is admitted or rejected exactly once, in arrival order |
| ProcessPool.CleanupActions | server_process_pool.py:96-103 | the terminate and kill actions of cleanup, in list order (definition; `CleanupReaches` states it) |
| ProcessPool.CleanupReaches | server_process_pool.py:96-103 | cleanup terminates exactly the tracked processes that are alive, and kills exactly those of them still alive after the join |
| ProcessPool.MultiprocessingServer.constructor | server_process_pool.py:31-37 | the server starts running, with no processes and its limit |
| ProcessPool.MultiprocessingServer.SignalHandler | server_process_pool.py:47-49 | a signal clears the running flag and nothing else |
| ProcessPool.MultiprocessingServer.Admit | server_process_pool.py:60-77 | one connection prunes the list to the live processes and admits it exactly when there is room, keeping the limit |
| ProcessPool.MultiprocessingServer.Run | server_process_pool.py:51-90 | the loop ends not running, with the list and fates of the accept-loop specification within the limit, and then runs cleanup on that list |
| ProcessPool.MultiprocessingServer.Cleanup | server_process_pool.py:92-103 | cleanup clears the running flag, terminates each live process in list order, and kills those that survive the join |

## Left out

- Sockets, socket options, `bind`/`listen`, closing connections and logging are not modelled. A read or an accept is an event; a write is an element of the sent list.
- Threads and processes are not modelled as running concurrently. Handlers that share the directory can interleave in the source; the model serves one request at a time on its own copy of the state. Which threads or processes are alive at a moment is a parameter.
- Timeouts are not modelled as time. The 120-second read timeout and the one-second accept timeout are events, and running out of events stands for the timeout or for the end of the run.
- `recv` may return fewer bytes than have arrived. The model gives each read's bytes as an event, so it covers any such split.
- A signal during `accept` is taken after that accept's outcome; the model cannot interrupt an accept that is still in progress.
- `total_received` and the progress log exist only for logging.
- The thread-local cache of the storage object (file_protocol.py:14-19) is not modelled. Every handler uses the one storage object it is given, which has the same effect on the directory.
- The "Request processing failed" and "Server processing error" replies (file_protocol.py:88-90, file_server.py:106-109) are not modelled. They answer exceptions that no modelled step raises.
- The text of the exception behind "Error executing command" is a parameter (`callError`); Python's exception messages are not modelled.
- Storage.FilePathInjective: names that differ as strings but name the same file (`./a.txt` and `a.txt`, `a//b` and `a/b`) are separate keys of the model's directory, while the source reaches one file for both.
- The file system is a map from name to bytes. Directories, dotfiles, permissions, I/O errors, sub-directories and path traversal (`../x`) are not modelled, and neither is the order that `glob` returns.
- Base64.Decode: Python's `b64decode` without `validate=True` discards characters outside the alphabet and tolerates some data after padding. The model is strict and rejects them, and its failure texts only approximate Python's.
- PyStr.Lower: only ASCII letters change case. Python's full Unicode case mapping, including mappings that change the length, is not modelled.
- The client command-line tool, the thread-pool server and the stress test are not part of this model.
