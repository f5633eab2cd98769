/** The thread-per-connection server: how one handler thread reads a request
    off its connection (a loop of 32 KiB reads with a heuristic for when the
    request is complete), answers it, and writes the answer in 32 KiB
    slices; and how the accepting thread keeps its list of handler threads. */
module ThreadServer {

  import opened Basics
  import opened Response
  import opened Storage
  import opened Protocol
  import PyStr
  import Utf8
  import Base64

  /** The size of every read and of every slice written. */
  const ChunkSize: nat := 32768

  /** The bytes of `UPLOAD`. */
  const UploadPrefix: seq<Byte> := [85, 80, 76, 79, 65, 68]

  /** What one read of the connection gives: some bytes (none when the peer
      has closed), or the read ends with the 120-second timeout or another
      error.  A run out of events is the timeout. */
  datatype Event = Data(chunk: seq<Byte>) | Timeout | Failure

  /** The completeness test after a non-empty chunk was added to the buffer.
      A buffer that does not start with the bytes `UPLOAD` is complete after
      a short chunk.  An upload is complete only when its text, split on the
      first two single spaces, has a third field of more than 100
      characters that ends with `=` or came with a short chunk. */
  predicate Complete(buf: seq<Byte>, chunk: seq<Byte>)
  {
    if !(UploadPrefix <= buf) then |chunk| < ChunkSize
    else
      var parts := PyStr.Split(Utf8.DecodeIgnoring(buf), ' ', 2);
      |parts| >= 3 && |parts[2]| > 100 && (parts[2][|parts[2]| - 1] == '=' || |chunk| < ChunkSize)
  }

  /** A read loop on `events` with `buf` read so far that stops at an empty
      read, a timeout or an error, or once `done` holds of the buffer and
      the last chunk: the bytes read and the number of events consumed. */
  function ReadUntil(events: seq<Event>, buf: seq<Byte>, done: (seq<Byte>, seq<Byte>) -> bool): (r: (seq<Byte>, nat))
    ensures r.1 <= |events|
    decreases |events|
  {
    if events == [] then (buf, 0)
    else if !events[0].Data? || events[0].chunk == [] then (buf, 1)
    else if done(buf + events[0].chunk, events[0].chunk) then (buf + events[0].chunk, 1)
    else var r := ReadUntil(events[1..], buf + events[0].chunk, done); (r.0, r.1 + 1)
  }

  /** The read loop of a handler thread. */
  function Receive(events: seq<Event>, buf: seq<Byte>): (r: (seq<Byte>, nat))
    ensures r.1 <= |events|
  {
    ReadUntil(events, buf, Complete)
  }

  /** The read loop after `k` events consumed, counted from the start. */
  function ReadFrom(events: seq<Event>, k: nat, buf: seq<Byte>, done: (seq<Byte>, seq<Byte>) -> bool): (r: (seq<Byte>, nat))
    requires k <= |events|
  {
    var r := ReadUntil(events[k..], buf, done); (r.0, r.1 + k)
  }

  lemma ReadStep(events: seq<Event>, k: nat, buf: seq<Byte>, done: (seq<Byte>, seq<Byte>) -> bool)
    requires k < |events|
    ensures var ev := events[k];
            ReadFrom(events, k, buf, done) ==
              if !ev.Data? || ev.chunk == [] then (buf, k + 1)
              else if done(buf + ev.chunk, ev.chunk) then (buf + ev.chunk, k + 1)
              else ReadFrom(events, k + 1, buf + ev.chunk, done)
  {
    assert events[k..][0] == events[k] && events[k..][1..] == events[k + 1..];
  }

  /** The read loop on a first non-empty chunk. */
  lemma ReadFirst(c: seq<Byte>, rest: seq<Event>, done: (seq<Byte>, seq<Byte>) -> bool)
    requires c != []
    ensures ReadUntil([Data(c)] + rest, [], done)
         == if done(c, c) then (c, 1) else (ReadUntil(rest, c, done).0, ReadUntil(rest, c, done).1 + 1)
  {
    assert [] + c == c;
    assert ([Data(c)] + rest)[1..] == rest;
  }

  /** The receive loop of a handler thread. */
  method ReceiveRequest(events: seq<Event>) returns (data: seq<Byte>, consumed: nat)
    ensures (data, consumed) == Receive(events, [])
  {
    data, consumed := [], 0;
    assert events[0..] == events;
    while consumed < |events|
      invariant consumed <= |events|
      invariant Receive(events, []) == ReadFrom(events, consumed, data, Complete)
    {
      var stop;
      data, stop := ReceiveChunk(events, consumed, data);
      consumed := consumed + 1;
      if stop {
        break;
      }
    }
  }

  /** One pass of the receive loop: the read, the end-of-stream test, the
      append and the completeness test. */
  method ReceiveChunk(events: seq<Event>, k: nat, buf: seq<Byte>) returns (data: seq<Byte>, stop: bool)
    requires k < |events|
    ensures ReadFrom(events, k, buf, Complete)
         == if stop then (data, k + 1) else ReadFrom(events, k + 1, data, Complete)
  {
    ReadStep(events, k, buf, Complete);
    var ev := events[k];
    if !ev.Data? || ev.chunk == [] {
      return buf, true;
    }
    data := buf + ev.chunk;
    stop := Complete(data, ev.chunk);
  }

  /** The bytes one event carries. */
  function ChunkOf(ev: Event): seq<Byte>
  {
    if ev.Data? then ev.chunk else []
  }

  /** The bytes the first `n` events carry, in order. */
  function Carried(events: seq<Event>, n: nat): seq<Byte>
    requires n <= |events|
  {
    if n == 0 then [] else ChunkOf(events[0]) + Carried(events[1..], n - 1)
  }

  /** The request is the concatenation, in order, of the chunks read. */
  lemma ReceiveConcatenates(events: seq<Event>, buf: seq<Byte>)
    ensures Receive(events, buf).0 == buf + Carried(events, Receive(events, buf).1)
  {
    ReadConcatenates(events, buf, Complete);
  }

  lemma {:induction false} ReadConcatenates(events: seq<Event>, buf: seq<Byte>, done: (seq<Byte>, seq<Byte>) -> bool)
    ensures ReadUntil(events, buf, done).0 == buf + Carried(events, ReadUntil(events, buf, done).1)
    decreases |events|
  {
    if events != [] {
      var c := ChunkOf(events[0]);
      if events[0].Data? && c != [] && !done(buf + c, c) {
        ReadConcatenates(events[1..], buf + c, done);
        var rest := ReadUntil(events[1..], buf + c, done);
        assert buf + c + Carried(events[1..], rest.1) == buf + (c + Carried(events[1..], rest.1));
      } else {
        assert Carried(events, 1) == c + [];
      }
    }
  }

  /** Every event consumed before the last is a non-empty chunk: the loop
      stops at the first close, timeout or error. */
  lemma ReceiveStopsAtEnd(events: seq<Event>, buf: seq<Byte>)
    ensures var r := Receive(events, buf);
            forall i :: 0 <= i < r.1 - 1 ==> events[i].Data? && events[i].chunk != []
  {
    ReadStopsAtEnd(events, buf, Complete);
  }

  lemma {:induction false} ReadStopsAtEnd(events: seq<Event>, buf: seq<Byte>, done: (seq<Byte>, seq<Byte>) -> bool)
    ensures var r := ReadUntil(events, buf, done);
            forall i :: 0 <= i < r.1 - 1 ==> events[i].Data? && events[i].chunk != []
    decreases |events|
  {
    if events != [] && events[0].Data? && events[0].chunk != [] && !done(buf + events[0].chunk, events[0].chunk) {
      var c := events[0].chunk;
      ReadStopsAtEnd(events[1..], buf + c, done);
      var r := ReadUntil(events, buf, done);
      forall i | 0 <= i < r.1 - 1 ensures events[i].Data? && events[i].chunk != [] {
        if i > 0 { assert events[i] == events[1..][i - 1]; }
      }
    }
  }

  /** A request that does not start with `UPLOAD` (the test is
      case-sensitive, so a lower-case `upload` line counts as such) is
      complete with its first short chunk, whatever was read before it. */
  lemma ShortChunkEndsCommand(buf: seq<Byte>, c: seq<Byte>, rest: seq<Event>)
    requires 0 < |c| < ChunkSize && !(UploadPrefix <= buf + c)
    ensures Receive([Data(c)] + rest, buf) == (buf + c, 1)
  {
    assert ([Data(c)] + rest)[1..] == rest;
  }

  /** A full chunk of a request that does not start with `UPLOAD` is never
      the end, wherever it comes: the loop reads on. */
  lemma FullChunkContinues(buf: seq<Byte>, c: seq<Byte>, rest: seq<Event>)
    requires |c| == ChunkSize && !(UploadPrefix <= buf + c)
    ensures Receive([Data(c)] + rest, buf) == (Receive(rest, buf + c).0, Receive(rest, buf + c).1 + 1)
  {
    assert ([Data(c)] + rest)[1..] == rest;
  }

  /** ASCII text sent as bytes is read back as the same text. */
  lemma AsciiRoundTrip(s: string)
    requires Utf8.AsciiText(s)
    ensures Utf8.IsAscii(Utf8.Encode(s)) && Utf8.DecodeIgnoring(Utf8.Encode(s)) == s
    ensures Utf8.Decode(Utf8.Encode(s)) == Some(s)
  {
    Utf8.EncodeAscii(s);
    var b := Utf8.Encode(s);
    Utf8.AsciiDecodes(b);
    assert Utf8.Chars(b) == s;
  }

  /** The text the completeness test reads back from the bytes of an
      upload request line in ASCII. */
  lemma UploadBytes(name: string, payload: string)
    requires name != [] && PyStr.NoSpace(name) && Utf8.AsciiText(name) && Utf8.AsciiText(payload)
    ensures PyStr.Split(Utf8.DecodeIgnoring(Utf8.Encode("UPLOAD " + name + " " + payload)), ' ', 2)
            == ["UPLOAD", name, payload]
  {
    var text := "UPLOAD " + name + " " + payload;
    UploadLineAscii(name, payload);
    AsciiRoundTrip(text);
    UploadLineShape(name, payload);
    ThreeFields(name, payload);
  }

  lemma UploadLineShape(name: string, payload: string)
    ensures "UPLOAD " + name + " " + payload == "UPLOAD" + [' '] + (name + [' '] + payload)
  {
  }

  lemma UploadLineAscii(name: string, payload: string)
    requires Utf8.AsciiText(name) && Utf8.AsciiText(payload)
    ensures Utf8.AsciiText("UPLOAD " + name + " " + payload)
  {
    var text := "UPLOAD " + name + " " + payload;
    forall i | 0 <= i < |text| ensures text[i] as int < 0x80 {
      if 7 <= i < 7 + |name| { assert text[i] == name[i - 7]; }
      else if i >= 8 + |name| { assert text[i] == payload[i - 8 - |name|]; }
    }
  }

  lemma UploadLinePrefix(text: string)
    requires Utf8.AsciiText(text) && |text| >= 6 && text[..6] == "UPLOAD"
    ensures UploadPrefix <= Utf8.Encode(text)
  {
    Utf8.EncodeAscii(text);
    var c := Utf8.Encode(text);
    forall i | 0 <= i < 6 ensures c[i] == UploadPrefix[i] {
      assert c[i] == text[..6][i] as int;
    }
  }

  /** When the bytes of an upload line are complete: its payload has more
      than 100 characters, and ends with `=` or came with a short chunk. */
  lemma UploadComplete(name: string, payload: string, chunk: seq<Byte>)
    requires name != [] && PyStr.NoSpace(name) && Utf8.AsciiText(name) && Utf8.AsciiText(payload)
    ensures var c := Utf8.Encode("UPLOAD " + name + " " + payload);
            c != [] && (Complete(c, chunk) <==>
                        |payload| > 100 && (payload[|payload| - 1] == '=' || |chunk| < ChunkSize))
  {
    var text := "UPLOAD " + name + " " + payload;
    UploadBytes(name, payload);
    UploadLineAscii(name, payload);
    assert text[..6] == "UPLOAD";
    UploadLinePrefix(text);
  }

  /** An upload whose base 64 payload has at most 100 characters is never
      complete, whatever the size of its chunk: the handler waits for more
      data until the client closes or the timeout ends the read. */
  lemma SmallUploadWaits(name: string, payload: string, rest: seq<Event>)
    requires name != [] && PyStr.NoSpace(name) && Utf8.AsciiText(name)
    requires Utf8.AsciiText(payload) && |payload| <= 100
    ensures var c := Utf8.Encode("UPLOAD " + name + " " + payload);
            Receive([Data(c)] + rest, []) == (Receive(rest, c).0, Receive(rest, c).1 + 1)
  {
    var c := Utf8.Encode("UPLOAD " + name + " " + payload);
    UploadComplete(name, payload, c);
    ReadFirst(c, rest, Complete);
  }

  /** An upload whose payload has more than 100 characters and ends with
      `=` is complete as soon as it has been read, whatever the size of its
      chunk. */
  lemma PaddedUploadCompletes(name: string, payload: string, rest: seq<Event>)
    requires name != [] && PyStr.NoSpace(name) && Utf8.AsciiText(name)
    requires Utf8.AsciiText(payload) && |payload| > 100 && payload[|payload| - 1] == '='
    ensures var c := Utf8.Encode("UPLOAD " + name + " " + payload);
            Receive([Data(c)] + rest, []) == (c, 1)
  {
    var c := Utf8.Encode("UPLOAD " + name + " " + payload);
    UploadComplete(name, payload, c);
    ReadFirst(c, rest, Complete);
  }

  /** The answer written in slices: `response[i:i + 32768]` for `i` from 0
      in steps of 32768. */
  method SendSlices(response: seq<Byte>) returns (slices: seq<seq<Byte>>)
    ensures Flatten(slices) == response
    ensures forall k :: 0 <= k < |slices| ==> 0 < |slices[k]| <= ChunkSize
    ensures forall k :: 0 <= k < |slices| - 1 ==> |slices[k]| == ChunkSize
  {
    slices := [];
    var i := 0;
    while i < |response|
      invariant 0 <= i && (i <= |response| ==> Flatten(slices) == response[..i])
      invariant i > |response| ==> Flatten(slices) == response
      invariant forall k :: 0 <= k < |slices| ==> 0 < |slices[k]| <= ChunkSize
      invariant i <= |response| ==> forall k :: 0 <= k < |slices| ==> |slices[k]| == ChunkSize
      invariant i > |response| ==> forall k :: 0 <= k < |slices| - 1 ==> |slices[k]| == ChunkSize
      decreases |response| - i
    {
      var end := Min(i + ChunkSize, |response|);
      var chunk := response[i..end];
      FlattenAppend(slices, chunk);
      assert response[..i] + chunk == response[..end];
      slices := slices + [chunk];
      i := i + ChunkSize;
    }
  }

  /** `events` read on a connection leave the directory `after` from
      `before`, with `reply` the reply dictionary (if one was built) and
      `sent` the slices written: nothing for an empty request, the fixed
      error reply for bytes that are not UTF-8, and otherwise the reply of
      the request handler followed by the trailer, in full slices but the
      last. */
  ghost predicate Served(before: Files, after: Files, events: seq<Event>, callError: string,
                         reply: Option<Envelope>, sent: seq<seq<Byte>>)
  {
    var data := Receive(events, []).0;
    if data == [] then reply == None && sent == [] && after == before
    else match Utf8.Decode(data)
      case None =>
        reply == None && after == before && sent == [Wire(ErrorEnvelope("Invalid character encoding"))]
      case Some(text) =>
        reply.Some? && Executed(before, after, text, callError, reply.value)
        && Flatten(sent) == Wire(reply.value)
        && (forall k :: 0 <= k < |sent| ==> 0 < |sent[k]| <= ChunkSize)
        && (forall k :: 0 <= k < |sent| - 1 ==> |sent[k]| == ChunkSize)
  }

  /** The bytes of the fixed error reply. */
  lemma InvalidEncodingWire()
    ensures Utf8.Encode(InvalidEncodingText + Trailer) == Wire(ErrorEnvelope("Invalid character encoding"))
  {
    InvalidEncodingIsJson();
  }

  /** One handler thread serving its connection. */
  method ServeClient(fi: FileInterface, events: seq<Event>, callError: string)
    returns (reply: Option<Envelope>, sent: seq<seq<Byte>>)
    modifies fi
    ensures Served(old(fi.files), fi.files, events, callError, reply, sent)
  {
    var data, _ := ReceiveRequest(events);
    if data == [] {
      return None, [];
    }
    var commandStr := Utf8.Decode(data);
    if commandStr.None? {
      InvalidEncodingWire();
      return None, [Utf8.Encode(InvalidEncodingText + Trailer)];
    }
    var result := ProsesString(fi, commandStr.value, callError);
    sent := SendSlices(Utf8.Encode(Json(result) + Trailer));
    reply := Some(result);
  }

  /** Whatever was sent for a request carries exactly one blank line, at its
      end. */
  lemma ServedOnce(before: Files, after: Files, events: seq<Event>, callError: string,
                   reply: Option<Envelope>, sent: seq<seq<Byte>>)
    requires Served(before, after, events, callError, reply, sent) && sent != []
    ensures var w := Flatten(sent);
            |w| >= 4 && w[|w| - 4..] == TrailerBytes && 13 !in w[..|w| - 4]
  {
    if Utf8.Decode(Receive(events, []).0).None? {
      SingleSliceOnce(sent, ErrorEnvelope("Invalid character encoding"));
    } else {
      TrailerOnlyAtEnd(reply.value);
    }
  }

  lemma SingleSliceOnce(sent: seq<seq<Byte>>, e: Envelope)
    requires sent == [Wire(e)]
    ensures var w := Flatten(sent);
            |w| >= 4 && w[|w| - 4..] == TrailerBytes && 13 !in w[..|w| - 4]
  {
    FlattenSingle(Wire(e));
    TrailerOnlyAtEnd(e);
  }

  type ThreadId = nat

  /** An accepted connection: the handler thread started for it, and the
      threads that are alive when the list is next looked at. */
  datatype Arrival = Arrival(thread: ThreadId, live: set<ThreadId>)

  /** The tracking list after one accepted connection: the new thread is
      appended, and a list longer than 50 keeps only its live threads. */
  function Track(clients: seq<ThreadId>, a: Arrival): (r: seq<ThreadId>)
  {
    var appended := clients + [a.thread];
    if |appended| > 50 then Filter(appended, a.live) else appended
  }

  function TrackAll(clients: seq<ThreadId>, arrivals: seq<Arrival>): seq<ThreadId>
    decreases |arrivals|
  {
    if arrivals == [] then clients else TrackAll(Track(clients, arrivals[0]), arrivals[1..])
  }

  /** Tracking never forgets a live thread, and keeps the new one unless the
      list was pruned and it has already finished. */
  lemma TrackKeepsLive(clients: seq<ThreadId>, a: Arrival)
    ensures forall t :: t in clients && t in a.live ==> t in Track(clients, a)
    ensures a.thread in Track(clients, a) <==> |clients| < 50 || a.thread in a.live
    ensures |Track(clients, a)| <= |clients| + 1
  {
  }

  /** A list that never grows past 50 is exactly the threads in the order
      they were started. */
  lemma {:induction false} TrackSmall(clients: seq<ThreadId>, arrivals: seq<Arrival>)
    requires |clients| + |arrivals| <= 50
    ensures TrackAll(clients, arrivals) == clients + seq(|arrivals|, i requires 0 <= i < |arrivals| => arrivals[i].thread)
    decreases |arrivals|
  {
    if arrivals != [] {
      TrackSmall(clients + [arrivals[0].thread], arrivals[1..]);
      var ids := seq(|arrivals|, i requires 0 <= i < |arrivals| => arrivals[i].thread);
      var rest := seq(|arrivals| - 1, i requires 0 <= i < |arrivals| - 1 => arrivals[1..][i].thread);
      assert ids == [arrivals[0].thread] + rest;
    }
  }

  /** While every thread is still running, pruning removes nothing. */
  lemma {:induction false} TrackAllLive(clients: seq<ThreadId>, arrivals: seq<Arrival>)
    requires forall i, t :: 0 <= i < |arrivals| && (t in clients || t == arrivals[i].thread) ==> t in arrivals[i].live
    requires forall i, j :: 0 <= i < j < |arrivals| ==> arrivals[i].thread in arrivals[j].live
    ensures TrackAll(clients, arrivals) == clients + seq(|arrivals|, i requires 0 <= i < |arrivals| => arrivals[i].thread)
    decreases |arrivals|
  {
    if arrivals != [] {
      var a := arrivals[0];
      var appended := clients + [a.thread];
      forall t | t in appended ensures t in a.live {
        assert t in clients || t == arrivals[0].thread;
      }
      FilterAllKept(appended, a.live);
      assert Track(clients, a) == appended;
      forall i, t | 0 <= i < |arrivals[1..]| && (t in appended || t == arrivals[1..][i].thread)
        ensures t in arrivals[1..][i].live
      {
        assert arrivals[1..][i] == arrivals[i + 1];
        if t == a.thread { assert t == arrivals[0].thread; }
      }
      TrackAllLive(appended, arrivals[1..]);
      var ids := seq(|arrivals|, i requires 0 <= i < |arrivals| => arrivals[i].thread);
      var rest := seq(|arrivals| - 1, i requires 0 <= i < |arrivals| - 1 => arrivals[1..][i].thread);
      assert ids == [arrivals[0].thread] + rest;
    }
  }

  /** The accepting thread's state. */
  class Server {

    var clients: seq<ThreadId>

    constructor ()
      ensures clients == []
    {
      clients := [];
    }

    /** One accepted connection: record the started thread, and prune the
        list of finished threads once it holds more than 50. */
    method Accept(a: Arrival)
      modifies this
      ensures clients == Track(old(clients), a)
    {
      clients := clients + [a.thread];
      if |clients| > 50 {
        clients := Filter(clients, a.live);
      }
    }

    /** The accept loop over the connections that arrive. */
    method Run(arrivals: seq<Arrival>)
      modifies this
      ensures clients == TrackAll(old(clients), arrivals)
    {
      var i := 0;
      while i < |arrivals|
        invariant i <= |arrivals|
        invariant TrackAll(old(clients), arrivals) == TrackAll(clients, arrivals[i..])
      {
        assert arrivals[i..][0] == arrivals[i] && arrivals[i..][1..] == arrivals[i + 1..];
        Accept(arrivals[i]);
        i := i + 1;
      }
    }

    /** `cleanup`: join each tracked thread that is still alive, in order. */
    method Cleanup(live: set<ThreadId>) returns (joined: seq<ThreadId>)
      ensures joined == Filter(clients, live)
    {
      joined := [];
      var i := 0;
      while i < |clients|
        invariant i <= |clients|
        invariant Filter(clients, live) == joined + Filter(clients[i..], live)
      {
        assert clients[i..][0] == clients[i] && clients[i..][1..] == clients[i + 1..];
        if clients[i] in live {
          joined := joined + [clients[i]];
        }
        i := i + 1;
      }
    }
  }
}
