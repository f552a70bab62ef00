/** The `TCPConn` promise adapter over a `net.Socket` (echoSever_v2.ts,
    lines 4-91; the same code is at echoSever_v3.ts, lines 11-101).

    A promise is modelled by the transition that creates or settles it: a
    call or a socket event takes the connection state to a new state and
    settles at most one promise (`Reply`). The functions state the
    transitions on values; the classes `Socket` and `TCPConn` at the end
    update the same fields in place and are proved against them. */
module Conn {
  import opened Common

  /** `err`, `ended` and whether the `reader` slot is filled, together with
      the socket's paused flag and the chunks handed to `socket.write`. */
  datatype ConnState = ConnState(err: Option<Error>, ended: bool, pending: bool, paused: bool, sent: seq<seq<byte>>)

  /** `soInit` on a socket accepted with `pauseOnConnect: true`
      (echoSever_v2.ts, line 165). */
  const INIT: ConnState := ConnState(None, false, false, true, [])

  /** The socket emits `data` events: resumed, not at end of stream, no
      error. */
  predicate Flowing(c: ConnState)
  {
    !c.paused && !c.ended && c.err.None?
  }

  /** The socket flows exactly while a read is pending. So a `data` event
      always finds a reader, and `conn.reader!` cannot fail. */
  predicate Inv(c: ConnState)
  {
    c.pending <==> Flowing(c)
  }

  /** A fresh connection starts paused with an empty slot, so the invariant
      holds from the start. */
  lemma InitInv()
    ensures Inv(INIT) && !Flowing(INIT) && !INIT.pending
  {
  }

  /** The promise a transition settles, if any. */
  datatype Reply = NoReply | ReadSettled(result: ReadResult) | WriteSettled(ack: WriteResult)

  /** `soRead(conn)` (lines 58-73): with an error latched it rejects at once;
      else at end of stream it resolves with an empty chunk; else it fills
      the reader slot and resumes the socket. */
  function ReadStep(c: ConnState): (r: (ConnState, Reply))
    requires !c.pending
    ensures r.0.err == c.err && r.0.ended == c.ended && r.0.sent == c.sent
    ensures r.1 == NoReply <==> c.err.None? && !c.ended
    ensures r.1 == NoReply ==> r.0.pending && Flowing(r.0)
    ensures r.1 != NoReply ==> r.0 == c && r.1.ReadSettled?
  {
    match c.err
    case Some(e) => (c, ReadSettled(ReadFailed(e)))
    case None =>
      if c.ended then (c, ReadSettled(Chunk([])))
      else (c.(pending := true, paused := false), NoReply)
  }

  /** The `data` handler (lines 28-38). */
  function DataStep(c: ConnState, chunk: seq<byte>): (r: (ConnState, Reply))
    requires c.pending
    ensures !r.0.pending && !Flowing(r.0) && r.1 == ReadSettled(Chunk(chunk))
    ensures r.0.err == c.err && r.0.ended == c.ended && r.0.sent == c.sent
  {
    (c.(paused := true, pending := false), ReadSettled(Chunk(chunk)))
  }

  /** The `end` handler (lines 40-46). */
  function EndStep(c: ConnState): (r: (ConnState, Reply))
    ensures r.0.ended && !r.0.pending && !Flowing(r.0)
    ensures r.0.err == c.err && r.0.paused == c.paused && r.0.sent == c.sent
    ensures r.1 != NoReply <==> c.pending
    ensures c.pending ==> r.1 == ReadSettled(Chunk([]))
  {
    (c.(ended := true, pending := false), if c.pending then ReadSettled(Chunk([])) else NoReply)
  }

  /** The `error` handler (lines 48-54). */
  function ErrorStep(c: ConnState, e: Error): (r: (ConnState, Reply))
    ensures r.0.err == Some(e) && !r.0.pending && !Flowing(r.0)
    ensures r.0.ended == c.ended && r.0.paused == c.paused && r.0.sent == c.sent
    ensures r.1 != NoReply <==> c.pending
    ensures c.pending ==> r.1 == ReadSettled(ReadFailed(e))
  {
    (c.(err := Some(e), pending := false), if c.pending then ReadSettled(ReadFailed(e)) else NoReply)
  }

  /** `soWrite(conn, data)` (lines 75-91), with `ack` the result the write
      callback is called with. */
  function WriteStep(c: ConnState, data: seq<byte>, ack: WriteResult): (r: (ConnState, Reply))
    requires |data| > 0
    ensures r.0.err == c.err && r.0.ended == c.ended && r.0.pending == c.pending && r.0.paused == c.paused
    ensures r.0.sent == c.sent + (if c.err.None? then [data] else [])
    ensures r.1 == WriteSettled(if c.err.None? then ack else WriteFailed(c.err.value))
  {
    match c.err
    case Some(e) => (c, WriteSettled(WriteFailed(e)))
    case None => (c.(sent := c.sent + [data]), WriteSettled(ack))
  }

  datatype Event = Read | Data(chunk: seq<byte>) | End | Fail(error: Error) | Write(data: seq<byte>, ack: WriteResult)

  /** The calls `serveClient` makes (`console.assert` at lines 59 and 76:
      no read while one is pending, no empty write) and the events Node
      emits (non-empty `data` chunks, only while the socket flows). */
  predicate Admissible(c: ConnState, e: Event)
  {
    match e
    case Read => !c.pending
    case Data(chunk) => Flowing(c) && |chunk| > 0
    case Write(data, _) => |data| > 0
    case End => true
    case Fail(_) => true
  }

  function Step(c: ConnState, e: Event): (r: (ConnState, Reply))
    requires Inv(c) && Admissible(c, e)
    ensures Inv(r.0)
  {
    match e
    case Read => ReadStep(c)
    case Data(chunk) => DataStep(c, chunk)
    case End => EndStep(c)
    case Fail(error) => ErrorStep(c, error)
    case Write(data, ack) => WriteStep(c, data, ack)
  }

  predicate Trace(c: ConnState, evs: seq<Event>)
    requires Inv(c)
    decreases |evs|
  {
    |evs| == 0 || (Admissible(c, evs[0]) && Trace(Step(c, evs[0]).0, evs[1..]))
  }

  /** The state after a sequence of calls and events, and what each of them
      settled. The invariant holds throughout. */
  function Run(c: ConnState, evs: seq<Event>): (r: (ConnState, seq<Reply>))
    requires Inv(c) && Trace(c, evs)
    ensures Inv(r.0) && |r.1| == |evs|
    decreases |evs|
  {
    if |evs| == 0 then (c, [])
    else
      var s := Step(c, evs[0]);
      var t := Run(s.0, evs[1..]);
      (t.0, [s.1] + t.1)
  }

  /** `ended` and `err` are never reset, and nothing written is taken back. */
  lemma {:induction false} RunLatches(c: ConnState, evs: seq<Event>)
    requires Inv(c) && Trace(c, evs)
    ensures c.ended ==> Run(c, evs).0.ended
    ensures c.err.Some? ==> Run(c, evs).0.err.Some?
    ensures c.sent <= Run(c, evs).0.sent
    decreases |evs|
  {
    if |evs| > 0 {
      RunLatches(Step(c, evs[0]).0, evs[1..]);
    }
  }

  /** No `error` event among `evs`. */
  predicate NoFail(evs: seq<Event>)
  {
    forall i :: 0 <= i < |evs| ==> !evs[i].Fail?
  }

  lemma NoFailTail(evs: seq<Event>)
    requires |evs| > 0 && NoFail(evs)
    ensures !evs[0].Fail? && NoFail(evs[1..])
  {
    forall i | 0 <= i < |evs[1..]| ensures !evs[1..][i].Fail? {
      assert evs[1..][i] == evs[i + 1];
    }
  }

  /** A run is the first step followed by the run of the rest. */
  lemma RunUnfolds(c: ConnState, evs: seq<Event>)
    requires Inv(c) && Trace(c, evs) && |evs| > 0
    ensures Admissible(c, evs[0]) && Trace(Step(c, evs[0]).0, evs[1..])
    ensures var s := Step(c, evs[0]); var t := Run(s.0, evs[1..]);
      Run(c, evs).0 == t.0 && Run(c, evs).1[0] == s.1 &&
      forall i :: 1 <= i < |evs| ==> Run(c, evs).1[i] == t.1[i - 1] && evs[i] == evs[1..][i - 1]
  {
  }

  /** Once an error is latched, every later read and write is rejected and
      nothing more reaches the socket. */
  lemma {:induction false} ErrorPoisons(c: ConnState, evs: seq<Event>)
    requires Inv(c) && Trace(c, evs) && c.err.Some?
    ensures forall i :: 0 <= i < |evs| && evs[i].Read? ==>
      Run(c, evs).1[i].ReadSettled? && Run(c, evs).1[i].result.ReadFailed?
    ensures forall i :: 0 <= i < |evs| && evs[i].Write? ==>
      Run(c, evs).1[i].WriteSettled? && Run(c, evs).1[i].ack.WriteFailed?
    ensures Run(c, evs).0.sent == c.sent
    decreases |evs|
  {
    if |evs| > 0 {
      var s := Step(c, evs[0]);
      ErrorPoisons(s.0, evs[1..]);
      forall i | 1 <= i < |evs|
        ensures Run(c, evs).1[i] == Run(s.0, evs[1..]).1[i - 1] && evs[i] == evs[1..][i - 1]
      {
      }
    }
  }

  /** After end of stream, with no error, every read resolves at once with
      an empty chunk. */
  lemma {:induction false} EndedReadsEmpty(c: ConnState, evs: seq<Event>)
    requires Inv(c) && Trace(c, evs) && c.ended && c.err.None? && NoFail(evs)
    ensures forall i :: 0 <= i < |evs| && evs[i].Read? ==> Run(c, evs).1[i] == ReadSettled(Chunk([]))
    decreases |evs|
  {
    if |evs| > 0 {
      NoFailTail(evs);
      RunUnfolds(c, evs);
      EndedReadsEmpty(Step(c, evs[0]).0, evs[1..]);
    }
  }

  /** The data of the writes, in order. */
  function WriteData(evs: seq<Event>): seq<seq<byte>>
  {
    if |evs| == 0 then []
    else (if evs[0].Write? then [evs[0].data] else []) + WriteData(evs[1..])
  }

  /** Without an error, one step sends exactly the data of a write. */
  lemma StepSends(c: ConnState, e: Event)
    requires Inv(c) && Admissible(c, e) && c.err.None? && !e.Fail?
    ensures Step(c, e).0.err.None?
    ensures Step(c, e).0.sent == c.sent + (if e.Write? then [e.data] else [])
    ensures e.Write? ==> Step(c, e).1 == WriteSettled(e.ack)
  {
  }

  lemma SentAssoc(sent: seq<seq<byte>>, w: seq<seq<byte>>, rest: seq<seq<byte>>)
    ensures (sent + w) + rest == sent + (w + rest)
  {
  }

  /** Without an error, every write reaches the socket, in order. */
  lemma {:induction false} WritesReachSocket(c: ConnState, evs: seq<Event>)
    requires Inv(c) && Trace(c, evs) && c.err.None? && NoFail(evs)
    ensures Run(c, evs).0.sent == c.sent + WriteData(evs)
    decreases |evs|
  {
    if |evs| > 0 {
      NoFailTail(evs);
      RunUnfolds(c, evs);
      StepSends(c, evs[0]);
      WritesReachSocket(Step(c, evs[0]).0, evs[1..]);
      SentAssoc(c.sent, if evs[0].Write? then [evs[0].data] else [], WriteData(evs[1..]));
    }
  }

  /** Without an error, every write settles with what its callback
      reports. */
  lemma {:induction false} WritesSettle(c: ConnState, evs: seq<Event>)
    requires Inv(c) && Trace(c, evs) && c.err.None? && NoFail(evs)
    ensures forall i :: 0 <= i < |evs| && evs[i].Write? ==> Run(c, evs).1[i] == WriteSettled(evs[i].ack)
    decreases |evs|
  {
    if |evs| > 0 {
      NoFailTail(evs);
      RunUnfolds(c, evs);
      StepSends(c, evs[0]);
      WritesSettle(Step(c, evs[0]).0, evs[1..]);
    }
  }

  function CountReads(evs: seq<Event>): nat
  {
    if |evs| == 0 then 0 else (if evs[0].Read? then 1 else 0) + CountReads(evs[1..])
  }

  function CountReadSettled(reps: seq<Reply>): nat
  {
    if |reps| == 0 then 0 else (if reps[0].ReadSettled? then 1 else 0) + CountReadSettled(reps[1..])
  }

  /** Every read promise is settled exactly once: the reads started, plus
      one pending at the start, equal the reads settled, plus one still
      pending at the end. A `data`, `end` or `error` event settles a read
      only when the slot is filled, and empties it. */
  lemma {:induction false} ReadsSettleOnce(c: ConnState, evs: seq<Event>)
    requires Inv(c) && Trace(c, evs)
    ensures CountReads(evs) + (if c.pending then 1 else 0)
         == CountReadSettled(Run(c, evs).1) + (if Run(c, evs).0.pending then 1 else 0)
    decreases |evs|
  {
    if |evs| > 0 {
      var s := Step(c, evs[0]);
      ReadsSettleOnce(s.0, evs[1..]);
      assert ([s.1] + Run(s.0, evs[1..]).1)[1..] == Run(s.0, evs[1..]).1;
    }
  }

  // ---------------------------------------------------------------------
  // The objects

  /** The part of `net.Socket` the adapter uses. */
  class Socket {
    var paused: bool
    var destroyed: bool
    var sent: seq<seq<byte>>

    /** A socket accepted with `pauseOnConnect: true`. */
    constructor ()
      ensures paused && !destroyed && sent == []
    {
      paused := true;
      destroyed := false;
      sent := [];
    }

    method Pause()
      modifies this`paused
      ensures paused
    {
      paused := true;
    }

    method Resume()
      modifies this`paused
      ensures !paused
    {
      paused := false;
    }

    /** `socket.write(data, callback)`: queues the data; the callback is
        called with `ack`. */
    method Write(data: seq<byte>, ack: WriteResult) returns (r: WriteResult)
      modifies this`sent
      ensures sent == old(sent) + [data] && r == ack
    {
      sent := sent + [data];
      r := ack;
    }

    method Destroy()
      modifies this`destroyed
      ensures destroyed
    {
      destroyed := true;
    }
  }

  class TCPConn {
    const socket: Socket
    var err: Option<Error>
    var ended: bool
    /** `conn.reader !== null`. */
    var readerPending: bool

    function State(): ConnState
      reads this, socket
    {
      ConnState(err, ended, readerPending, socket.paused, socket.sent)
    }

    /** `soInit(socket)`, on a socket accepted paused that has not been
        written to. */
    constructor (s: Socket)
      requires s.paused && s.sent == []
      ensures socket == s && State() == INIT
    {
      socket := s;
      err := None;
      ended := false;
      readerPending := false;
    }

    method SoRead() returns (r: Reply)
      requires !readerPending
      modifies this, socket`paused
      ensures (State(), r) == ReadStep(old(State()))
    {
      if err.Some? {
        return ReadSettled(ReadFailed(err.value));
      }
      if ended {
        return ReadSettled(Chunk([]));
      }
      readerPending := true;
      socket.Resume();
      r := NoReply;
    }

    method OnData(chunk: seq<byte>) returns (r: Reply)
      requires readerPending
      modifies this, socket`paused
      ensures (State(), r) == DataStep(old(State()), chunk)
    {
      socket.Pause();
      r := ReadSettled(Chunk(chunk));
      readerPending := false;
    }

    method OnEnd() returns (r: Reply)
      modifies this
      ensures (State(), r) == EndStep(old(State()))
    {
      ended := true;
      r := NoReply;
      if readerPending {
        r := ReadSettled(Chunk([]));
        readerPending := false;
      }
    }

    method OnError(e: Error) returns (r: Reply)
      modifies this
      ensures (State(), r) == ErrorStep(old(State()), e)
    {
      err := Some(e);
      r := NoReply;
      if readerPending {
        r := ReadSettled(ReadFailed(e));
        readerPending := false;
      }
    }

    method SoWrite(data: seq<byte>, ack: WriteResult) returns (r: Reply)
      requires |data| > 0
      modifies socket`sent
      ensures (State(), r) == WriteStep(old(State()), data, ack)
    {
      if err.Some? {
        return WriteSettled(WriteFailed(err.value));
      }
      var result := socket.Write(data, ack);
      r := WriteSettled(result);
    }
  }
}
