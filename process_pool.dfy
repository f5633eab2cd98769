/** The process-per-connection server: a handler process that answers one
    request read in a single 8 KiB read, and the accepting loop that admits
    a connection only while fewer than `max_processes` of its processes are
    alive, stops on a signal, and terminates (then kills) the processes
    still alive when it cleans up. */
module ProcessPool {

  import opened Basics
  import opened Response
  import opened Storage
  import opened Protocol
  import Utf8
  import ThreadServer

  /** The size of the one read of a handler process. */
  const RecvSize: nat := 8192

  /** The one read of a handler process on `ev`: at most 8192 of the bytes
      that have arrived; nothing when the peer closed or the read failed. */
  function FirstRead(ev: ThreadServer.Event): (data: seq<Byte>)
    ensures |data| <= RecvSize
    ensures ev.Data? ==> |data| <= |ev.chunk| && data == ev.chunk[..|data|] && (|data| < RecvSize ==> data == ev.chunk)
    ensures !ev.Data? ==> data == []
  {
    if ev.Data? then ev.chunk[..Min(|ev.chunk|, RecvSize)] else []
  }

  /** A handler process that read `ev` left the directory `after` from
      `before`, built `reply` (if any) and wrote `sent`: one write of the
      reply followed by the trailer when the read was non-empty UTF-8, and
      nothing at all otherwise (an empty read, bytes that are not UTF-8, a
      failed read). */
  ghost predicate Handled(before: Files, after: Files, ev: ThreadServer.Event, callError: string,
                          reply: Option<Envelope>, sent: seq<seq<Byte>>)
  {
    var data := FirstRead(ev);
    if data == [] then reply == None && sent == [] && after == before
    else match Utf8.Decode(data)
      case None => reply == None && sent == [] && after == before
      case Some(text) =>
        reply.Some? && Executed(before, after, text, callError, reply.value) && sent == [Wire(reply.value)]
  }

  /** `handle_client_process`. */
  method HandleClientProcess(fi: FileInterface, ev: ThreadServer.Event, callError: string)
    returns (reply: Option<Envelope>, sent: seq<seq<Byte>>)
    modifies fi
    ensures Handled(old(fi.files), fi.files, ev, callError, reply, sent)
  {
    reply, sent := None, [];
    var data: seq<Byte> := [];
    if ev.Data? {
      data := ev.chunk[..Min(|ev.chunk|, RecvSize)];
    }
    if data != [] {
      var d := Utf8.Decode(data);
      if d.Some? {
        var hasil := ProsesString(fi, d.value, callError);
        reply := Some(hasil);
        sent := [Utf8.Encode(Json(hasil) + Trailer)];
      }
    }
  }

  /** A handler process writes at most once, and what it writes ends with
      the only blank line in it. */
  lemma HandledOnce(before: Files, after: Files, ev: ThreadServer.Event, callError: string,
                    reply: Option<Envelope>, sent: seq<seq<Byte>>)
    requires Handled(before, after, ev, callError, reply, sent)
    ensures |sent| <= 1
    ensures sent != [] ==> reply.Some? && |sent[0]| >= 4
                           && sent[0][|sent[0]| - 4..] == TrailerBytes && 13 !in sent[0][..|sent[0]| - 4]
  {
    if sent != [] {
      TrailerOnlyAtEnd(reply.value);
    }
  }

  /** A request of ASCII text longer than one read is answered as if it
      were its first 8192 characters. */
  lemma LongRequestCut(text: string)
    requires Utf8.AsciiText(text) && |text| > RecvSize
    ensures Utf8.Decode(FirstRead(ThreadServer.Data(Utf8.Encode(text)))) == Some(text[..RecvSize])
  {
    Utf8.EncodeAscii(text);
    var b := Utf8.Encode(text);
    var cut := b[..RecvSize];
    assert Utf8.IsAscii(cut);
    Utf8.AsciiDecodes(cut);
    assert Utf8.Chars(cut) == text[..RecvSize];
  }

  type Pid = nat

  /** What the accepting socket gives the loop: a connection (named by the
      process that would serve it, with the processes alive at that moment),
      the one-second accept timeout, a signal, or another accept error. */
  datatype AcceptEvent = Incoming(conn: Pid, live: set<Pid>) | AcceptTimeout | Interrupt | AcceptError

  /** The fate of one connection: served by a new process, or closed with
      nothing written. */
  datatype Admission = Admitted(conn: Pid) | Rejected(conn: Pid)

  /** The process list after a connection arrives: the finished processes
      are dropped, in order, and a process for the connection is appended
      exactly when fewer than `max` remain. */
  function AdmitStep(processes: seq<Pid>, conn: Pid, live: set<Pid>, max: nat): (r: (seq<Pid>, bool))
  {
    var alive := Filter(processes, live);
    if |alive| < max then (alive + [conn], true) else (alive, false)
  }

  /** Admission keeps the list within the bound, keeps every live process
      and only live ones, and admits exactly when there was room. */
  lemma AdmitStepBound(processes: seq<Pid>, conn: Pid, live: set<Pid>, max: nat)
    requires |processes| <= max
    ensures var (ps, admitted) := AdmitStep(processes, conn, live, max);
            |ps| <= max
            && (admitted <==> |Filter(processes, live)| < max)
            && forall p :: p in ps <==> (p in processes && p in live) || (admitted && p == conn)
  {
  }

  /** The accept loop on `events` from the process list `processes`, while
      `running` holds: the final list and the fate of each connection. */
  function Serve(processes: seq<Pid>, events: seq<AcceptEvent>, max: nat, running: bool): (r: (seq<Pid>, seq<Admission>))
    decreases |events|
  {
    if !running || events == [] then (processes, [])
    else match events[0]
      case Interrupt => (processes, [])
      case Incoming(conn, live) =>
        var (ps, admitted) := AdmitStep(processes, conn, live, max);
        var rest := Serve(ps, events[1..], max, running);
        (rest.0, [if admitted then Admitted(conn) else Rejected(conn)] + rest.1)
      case _ => Serve(processes, events[1..], max, running)
  }

  /** The loop never holds more than `max` processes. */
  lemma {:induction false} ServeBound(processes: seq<Pid>, events: seq<AcceptEvent>, max: nat, running: bool)
    requires |processes| <= max
    ensures |Serve(processes, events, max, running).0| <= max
    decreases |events|
  {
    if running && events != [] {
      match events[0]
      case Interrupt =>
      case Incoming(conn, live) =>
        AdmitStepBound(processes, conn, live, max);
        ServeBound(AdmitStep(processes, conn, live, max).0, events[1..], max, running);
      case _ => ServeBound(processes, events[1..], max, running);
    }
  }

  /** A signal ends the loop: nothing after it is accepted. */
  lemma {:induction false} InterruptEndsServe(processes: seq<Pid>, before: seq<AcceptEvent>,
                                              after1: seq<AcceptEvent>, after2: seq<AcceptEvent>, max: nat)
    ensures Serve(processes, before + [Interrupt] + after1, max, true)
         == Serve(processes, before + [Interrupt] + after2, max, true)
    decreases |before|
  {
    var e1 := before + [Interrupt] + after1;
    var e2 := before + [Interrupt] + after2;
    if before == [] {
      assert e1[0] == Interrupt && e2[0] == Interrupt;
    } else {
      assert e1[0] == before[0] && e2[0] == before[0];
      assert e1[1..] == before[1..] + [Interrupt] + after1;
      assert e2[1..] == before[1..] + [Interrupt] + after2;
      match before[0]
      case Interrupt =>
      case Incoming(conn, live) =>
        InterruptEndsServe(AdmitStep(processes, conn, live, max).0, before[1..], after1, after2, max);
      case _ =>
        InterruptEndsServe(processes, before[1..], after1, after2, max);
    }
  }

  /** The connections among `events`, in arrival order. */
  function Arrivals(events: seq<AcceptEvent>): seq<Pid>
  {
    if events == [] then []
    else (if events[0].Incoming? then [events[0].conn] else []) + Arrivals(events[1..])
  }

  function Conns(admissions: seq<Admission>): (r: seq<Pid>)
    ensures |r| == |admissions|
  {
    seq(|admissions|, i requires 0 <= i < |admissions| => admissions[i].conn)
  }

  /** Without a signal, every connection gets exactly one fate, in arrival
      order. */
  lemma {:induction false} ServeAnswersEachConnection(processes: seq<Pid>, events: seq<AcceptEvent>, max: nat)
    requires forall i :: 0 <= i < |events| ==> !events[i].Interrupt?
    ensures Conns(Serve(processes, events, max, true).1) == Arrivals(events)
    decreases |events|
  {
    if events != [] {
      assert forall i :: 0 <= i < |events[1..]| ==> events[1..][i] == events[i + 1];
      if events[0].Incoming? {
        var conn := events[0].conn;
        var ps := AdmitStep(processes, conn, events[0].live, max).0;
        ServeAnswersEachConnection(ps, events[1..], max);
        var rest := Serve(ps, events[1..], max, true).1;
        var a := Serve(processes, events, max, true).1;
        assert a == [a[0]] + rest;
        assert Conns(a) == [conn] + Conns(rest);
      } else {
        ServeAnswersEachConnection(processes, events[1..], max);
      }
    }
  }

  /** What cleanup does to one tracked process. */
  datatype CleanupAction = Terminate(pid: Pid) | Kill(pid: Pid)

  /** The actions of `cleanup`, in list order: each process alive is
      terminated, and killed when it is still alive after the join. */
  function CleanupActions(processes: seq<Pid>, alive: set<Pid>, survivors: set<Pid>): seq<CleanupAction>
  {
    if processes == [] then []
    else
      var p := processes[0];
      (if p in alive then [Terminate(p)] + (if p in survivors then [Kill(p)] else []) else [])
      + CleanupActions(processes[1..], alive, survivors)
  }

  /** Cleanup terminates exactly the tracked processes that are alive, and
      kills exactly those of them that survive the join. */
  lemma {:induction false} CleanupReaches(processes: seq<Pid>, alive: set<Pid>, survivors: set<Pid>, p: Pid)
    ensures Terminate(p) in CleanupActions(processes, alive, survivors) <==> p in processes && p in alive
    ensures Kill(p) in CleanupActions(processes, alive, survivors) <==> p in processes && p in alive && p in survivors
    decreases |processes|
  {
    if processes != [] {
      CleanupReaches(processes[1..], alive, survivors, p);
      assert p in processes <==> p == processes[0] || p in processes[1..];
    }
  }

  /** The accepting server. */
  class MultiprocessingServer {

    const maxProcesses: nat
    var processes: seq<Pid>
    var running: bool

    /** The tracked list never holds more processes than the limit. */
    predicate Valid()
      reads this
    {
      |processes| <= maxProcesses
    }

    constructor (maxProcesses: nat)
      ensures Valid() && this.maxProcesses == maxProcesses && processes == [] && running
    {
      this.maxProcesses := maxProcesses;
      processes := [];
      running := true;
    }

    /** The handler of SIGINT and SIGTERM. */
    method SignalHandler()
      modifies this
      ensures !running && processes == old(processes)
    {
      running := false;
    }

    /** One accepted connection. */
    method Admit(conn: Pid, live: set<Pid>) returns (admitted: bool)
      requires Valid()
      modifies this
      ensures Valid() && running == old(running)
      ensures (processes, admitted) == AdmitStep(old(processes), conn, live, maxProcesses)
    {
      AdmitStepBound(processes, conn, live, maxProcesses);
      processes := Filter(processes, live);
      if |processes| < maxProcesses {
        processes := processes + [conn];
        admitted := true;
      } else {
        admitted := false;
      }
    }

    /** `run`: the accept loop, then cleanup with the processes alive at
        that point and those that outlive their join. */
    method Run(events: seq<AcceptEvent>, alive: set<Pid>, survivors: set<Pid>)
      returns (admissions: seq<Admission>, actions: seq<CleanupAction>)
      requires Valid()
      modifies this
      ensures Valid() && !running
      ensures (processes, admissions) == Serve(old(processes), events, maxProcesses, old(running))
      ensures actions == CleanupActions(processes, alive, survivors)
    {
      admissions := [];
      var i := 0;
      assert events[0..] == events;
      assert admissions + Serve(processes, events, maxProcesses, running).1 == Serve(processes, events, maxProcesses, running).1;
      while running && i < |events|
        invariant Valid() && i <= |events|
        invariant Serve(old(processes), events, maxProcesses, old(running))
               == (Serve(processes, events[i..], maxProcesses, running).0,
                   admissions + Serve(processes, events[i..], maxProcesses, running).1)
        decreases |events| - i
      {
        assert events[i..][0] == events[i] && events[i..][1..] == events[i + 1..];
        match events[i] {
          case Incoming(conn, live) =>
            var admitted := Admit(conn, live);
            var fate := if admitted then Admitted(conn) else Rejected(conn);
            assert admissions + [fate] + Serve(processes, events[i + 1..], maxProcesses, running).1
                == admissions + ([fate] + Serve(processes, events[i + 1..], maxProcesses, running).1);
            admissions := admissions + [fate];
          case AcceptTimeout =>
          case AcceptError =>
          case Interrupt =>
            SignalHandler();
        }
        i := i + 1;
      }
      assert admissions + [] == admissions;
      actions := Cleanup(alive, survivors);
    }

    /** `cleanup`. */
    method Cleanup(alive: set<Pid>, survivors: set<Pid>) returns (actions: seq<CleanupAction>)
      modifies this
      ensures !running && processes == old(processes)
      ensures actions == CleanupActions(processes, alive, survivors)
    {
      running := false;
      actions := [];
      var i := 0;
      while i < |processes|
        invariant i <= |processes|
        invariant CleanupActions(processes, alive, survivors) == actions + CleanupActions(processes[i..], alive, survivors)
      {
        assert processes[i..][0] == processes[i] && processes[i..][1..] == processes[i + 1..];
        var p := processes[i];
        if p in alive {
          actions := actions + [Terminate(p)];
          if p in survivors {
            actions := actions + [Kill(p)];
          }
        }
        i := i + 1;
      }
    }
  }
}
