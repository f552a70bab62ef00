/** The v3 `serveClient` loop (echoSever_v3.ts, lines 211-236) and its
    `newConn` wrapper (lines 197-206).

    The loop takes messages from a `DynBuf` while it holds one, answering
    each; only when none is left does it read, append the chunk and look
    again. `Session` states a run on values, driven by the results the read
    and write promises settle with, in order; `ServeClient` is the loop over
    the `DynBuf` class, proved equal to it. */
module ServeV3 {
  import opened Common
  import opened DynBuffer
  import Conn

  /** The answer to message `m` (lines 227-233). */
  function Answer(m: seq<byte>): seq<byte>
  {
    if m == QUIT then GOODBYE else ECHO_PREFIX + m
  }

  /** The run of the loop from buffer `b`, with `inputs` the results of the
      next `soRead` calls and `acks` those of the next `soWrite` calls. */
  function Session(v: Variant, b: Buf, inputs: seq<ReadResult>, acks: seq<WriteResult>): Transcript
    requires Wf(v, b)
    decreases |inputs| + |acks|
  {
    match Extract(v, b)
    case NoMessage =>
      if |inputs| == 0 then Transcript([ReadCall], AwaitingRead)
      else
        var t := match inputs[0]
          case ReadFailed(e) => Transcript([], Threw(e))
          case Chunk(data) =>
            if |data| == 0 then Transcript([], Returned)
            else match Push(v, b, data)
              case None => Transcript([], Threw(RangeError))
              case Some(grown) => Session(v, grown, inputs[1..], acks);
        Prepend(ReadCall, t)
    case Message(m, rest) =>
      if |acks| == 0 then Transcript([WriteCall(Answer(m))], AwaitingWrite)
      else
        var t := match acks[0]
          case WriteFailed(e) => Transcript([], Threw(e))
          case Written => if m == QUIT then Transcript([], Returned) else Session(v, rest, inputs, acks[1..]);
        Prepend(WriteCall(Answer(m)), t)
  }

  lemma ThenPrepend(done: seq<Action>, a: Action, t: Transcript)
    ensures Then(done, Prepend(a, t)) == Then(done + [a], t)
  {
    assert done + ([a] + t.actions) == (done + [a]) + t.actions;
  }

  /** One round of the loop on the read side: the buffer holds no message
      and the next read settles. */
  lemma SessionAfterRead(v: Variant, b: Buf, inputs: seq<ReadResult>, acks: seq<WriteResult>)
    requires Wf(v, b) && Extract(v, b) == NoMessage && |inputs| > 0
    ensures inputs[0].ReadFailed? ==> Session(v, b, inputs, acks) == Transcript([ReadCall], Threw(inputs[0].error))
    ensures inputs[0].Chunk? && |inputs[0].bytes| == 0 ==> Session(v, b, inputs, acks) == Transcript([ReadCall], Returned)
    ensures inputs[0].Chunk? && |inputs[0].bytes| > 0 && Push(v, b, inputs[0].bytes).None? ==>
      Session(v, b, inputs, acks) == Transcript([ReadCall], Threw(RangeError))
    ensures inputs[0].Chunk? && |inputs[0].bytes| > 0 && Push(v, b, inputs[0].bytes).Some? ==>
      Session(v, b, inputs, acks) == Prepend(ReadCall, Session(v, Push(v, b, inputs[0].bytes).value, inputs[1..], acks))
  {
  }

  /** One round of the loop on the write side: the buffer holds message `m`
      and the write of the answer settles. */
  lemma SessionAfterWrite(v: Variant, b: Buf, inputs: seq<ReadResult>, acks: seq<WriteResult>)
    requires Wf(v, b) && Extract(v, b).Message? && |acks| > 0
    ensures var m := Extract(v, b).msg;
      (acks[0].WriteFailed? ==> Session(v, b, inputs, acks) == Transcript([WriteCall(Answer(m))], Threw(acks[0].error))) &&
      (acks[0].Written? && m == QUIT ==> Session(v, b, inputs, acks) == Transcript([WriteCall(Answer(m))], Returned)) &&
      (acks[0].Written? && m != QUIT ==>
        Session(v, b, inputs, acks) == Prepend(WriteCall(Answer(m)), Session(v, Extract(v, b).rest, inputs, acks[1..])))
  {
  }

  /** The loop has made the calls `done`, has used the first `ii` read
      results and `ai` write results, and holds buffer `b`. */
  predicate Progress(inputs: seq<ReadResult>, acks: seq<WriteResult>, done: seq<Action>, b: Buf, ii: int, ai: int)
  {
    0 <= ii <= |inputs| && 0 <= ai <= |acks| && Wf(AsWritten, b) &&
    Session(AsWritten, EMPTY, inputs, acks) == Then(done, Session(AsWritten, b, inputs[ii..], acks[ai..]))
  }

  /** The read side of the loop body: `soRead`, then `pushBuf`. */
  method ReadRound(buf: DynBuf, inputs: seq<ReadResult>, acks: seq<WriteResult>, done: seq<Action>, ii: nat, ai: nat)
    returns (t: Option<Transcript>)
    requires Progress(inputs, acks, done, buf.State(), ii, ai) && ii < |inputs|
    requires Extract(AsWritten, buf.State()) == NoMessage
    modifies buf, buf.data
    ensures buf.data == old(buf.data) || fresh(buf.data)
    ensures t.Some? ==> t.value == Session(AsWritten, EMPTY, inputs, acks)
    ensures t.None? ==> Progress(inputs, acks, done + [ReadCall], buf.State(), ii + 1, ai)
  {
    ghost var pre := buf.State();
    ghost var later := Session(AsWritten, pre, inputs[ii..], acks[ai..]);
    SessionAfterRead(AsWritten, pre, inputs[ii..], acks[ai..]);
    if inputs[ii].ReadFailed? {
      return Some(Then(done, Transcript([ReadCall], Threw(inputs[ii].error))));
    }
    var data := inputs[ii].bytes;
    if |data| == 0 {
      return Some(Then(done, Transcript([ReadCall], Returned)));
    }
    var ok := buf.PushBuf(data);
    if !ok {
      return Some(Then(done, Transcript([ReadCall], Threw(RangeError))));
    }
    assert inputs[ii..][1..] == inputs[ii + 1..];
    ghost var next := Session(AsWritten, buf.State(), inputs[ii + 1..], acks[ai..]);
    assert later == Prepend(ReadCall, next);
    ThenPrepend(done, ReadCall, next);
    t := None;
  }

  /** The write side of the loop body: the buffer `b` held message `m`,
      which is answered. */
  lemma WriteRound(inputs: seq<ReadResult>, acks: seq<WriteResult>, done: seq<Action>, b: Buf, ii: int, ai: int)
    requires Progress(inputs, acks, done, b, ii, ai) && Extract(AsWritten, b).Message?
    ensures var m, rest, whole := Extract(AsWritten, b).msg, Extract(AsWritten, b).rest, Session(AsWritten, EMPTY, inputs, acks);
      (ai == |acks| ==> whole == Then(done, Transcript([WriteCall(Answer(m))], AwaitingWrite))) &&
      (ai < |acks| && acks[ai].WriteFailed? ==> whole == Then(done, Transcript([WriteCall(Answer(m))], Threw(acks[ai].error)))) &&
      (ai < |acks| && acks[ai].Written? && m == QUIT ==> whole == Then(done, Transcript([WriteCall(Answer(m))], Returned))) &&
      (ai < |acks| && acks[ai].Written? && m != QUIT ==> Progress(inputs, acks, done + [WriteCall(Answer(m))], rest, ii, ai + 1))
  {
    if ai < |acks| {
      SessionAfterWrite(AsWritten, b, inputs[ii..], acks[ai..]);
      var m, rest := Extract(AsWritten, b).msg, Extract(AsWritten, b).rest;
      if acks[ai].Written? && m != QUIT {
        assert acks[ai..][1..] == acks[ai + 1..];
        ThenPrepend(done, WriteCall(Answer(m)), Session(AsWritten, rest, inputs[ii..], acks[ai + 1..]));
      }
    }
  }

  /** `serveClient(socket)`. */
  method ServeClient(inputs: seq<ReadResult>, acks: seq<WriteResult>) returns (t: Transcript)
    ensures t == Session(AsWritten, EMPTY, inputs, acks)
  {
    var buf := new DynBuf();
    var ii, ai := 0, 0;
    var done: seq<Action> := [];
    while true
      invariant fresh(buf) && fresh(buf.data)
      invariant Progress(inputs, acks, done, buf.State(), ii, ai)
      decreases |inputs| - ii + |acks| - ai
    {
      ghost var pre := buf.State();
      var msg := buf.GetMessage();
      if msg.None? {
        if ii == |inputs| {
          return Then(done, Transcript([ReadCall], AwaitingRead));
        }
        var finished := ReadRound(buf, inputs, acks, done, ii, ai);
        if finished.Some? {
          return finished.value;
        }
        done := done + [ReadCall];
        ii := ii + 1;
      } else {
        var out := Answer(msg.value);
        WriteRound(inputs, acks, done, pre, ii, ai);
        if ai == |acks| {
          return Then(done, Transcript([WriteCall(out)], AwaitingWrite));
        }
        if acks[ai].WriteFailed? {
          return Then(done, Transcript([WriteCall(out)], Threw(acks[ai].error)));
        }
        if msg.value == QUIT {
          return Then(done, Transcript([WriteCall(out)], Returned));
        }
        done := done + [WriteCall(out)];
        ai := ai + 1;
      }
    }
  }

  /** `newConn(socket)`: serves the client, swallowing what it throws, and
      destroys the socket once the run has settled. */
  method NewConn(socket: Conn.Socket, inputs: seq<ReadResult>, acks: seq<WriteResult>) returns (t: Transcript)
    modifies socket`destroyed
    ensures t == Session(AsWritten, EMPTY, inputs, acks)
    ensures Settled(t.exit) ==> socket.destroyed
    ensures !Settled(t.exit) ==> socket.destroyed == old(socket.destroyed)
  {
    t := ServeClient(inputs, acks);
    if Settled(t.exit) {
      socket.Destroy();
    }
  }
  // ---------------------------------------------------------------------
  // What a session writes

  /** A newline-terminated message as `getMessage` returns it. */
  predicate IsLine(m: seq<byte>)
  {
    |m| > 0 && m[|m| - 1] == NEWLINE && NEWLINE !in m[..|m| - 1]
  }

  /** What the loop ever writes: `Goodbye\n`, or `Echo: ` followed by one
      line other than `quit\n`. */
  predicate IsResponse(out: seq<byte>)
  {
    out == GOODBYE ||
    (|ECHO_PREFIX| < |out| && out[..|ECHO_PREFIX|] == ECHO_PREFIX &&
     IsLine(out[|ECHO_PREFIX|..]) && out[|ECHO_PREFIX|..] != QUIT)
  }

  /** Every write is a response; `Goodbye\n` can only be the last call; a
      run returns only after `Goodbye\n` or after a read (the empty one). */
  predicate WellFormed(t: Transcript)
  {
    |t.actions| > 0 &&
    (forall i :: 0 <= i < |t.actions| && t.actions[i].WriteCall? ==> IsResponse(t.actions[i].data)) &&
    (forall i :: 0 <= i < |t.actions| - 1 ==> t.actions[i] != WriteCall(GOODBYE)) &&
    (t.exit.Returned? ==> t.actions[|t.actions| - 1] in {ReadCall, WriteCall(GOODBYE)}) &&
    (t.exit.AwaitingRead? ==> t.actions[|t.actions| - 1] == ReadCall) &&
    (t.exit.AwaitingWrite? ==> t.actions[|t.actions| - 1].WriteCall?)
  }

  /** A message is answered with `Goodbye\n` exactly when it is `quit\n`,
      and with `Echo: ` and the message otherwise. */
  lemma AnswerIsResponse(m: seq<byte>)
    requires IsLine(m)
    ensures IsResponse(Answer(m))
    ensures Answer(m) == GOODBYE <==> m == QUIT
  {
    if m != QUIT {
      var out := ECHO_PREFIX + m;
      assert out[..|ECHO_PREFIX|] == ECHO_PREFIX && out[|ECHO_PREFIX|..] == m;
      assert out[0] == 69 != GOODBYE[0];
    }
  }

  lemma PrependKeepsWellFormed(a: Action, t: Transcript)
    requires WellFormed(t) && a != WriteCall(GOODBYE) && (a.WriteCall? ==> IsResponse(a.data))
    ensures WellFormed(Prepend(a, t))
  {
    var r := Prepend(a, t);
    forall i | 0 <= i < |r.actions| && r.actions[i].WriteCall?
      ensures IsResponse(r.actions[i].data)
    {
      if i > 0 { assert r.actions[i] == t.actions[i - 1]; }
    }
    forall i | 0 <= i < |r.actions| - 1
      ensures r.actions[i] != WriteCall(GOODBYE)
    {
      if i > 0 { assert r.actions[i] == t.actions[i - 1]; }
    }
  }

  /** Every run is well formed, in both variants. */
  lemma {:induction false} SessionWellFormed(v: Variant, b: Buf, inputs: seq<ReadResult>, acks: seq<WriteResult>)
    requires Wf(v, b)
    ensures WellFormed(Session(v, b, inputs, acks))
    decreases |inputs| + |acks|
  {
    match Extract(v, b)
    case NoMessage =>
      if |inputs| > 0 && inputs[0].Chunk? && |inputs[0].bytes| > 0 && Push(v, b, inputs[0].bytes).Some? {
        SessionWellFormed(v, Push(v, b, inputs[0].bytes).value, inputs[1..], acks);
        PrependKeepsWellFormed(ReadCall, Session(v, Push(v, b, inputs[0].bytes).value, inputs[1..], acks));
      }
    case Message(m, rest) =>
      AnswerIsResponse(m);
      if |acks| > 0 && acks[0].Written? && m != QUIT {
        SessionWellFormed(v, rest, inputs, acks[1..]);
        PrependKeepsWellFormed(WriteCall(Answer(m)), Session(v, rest, inputs, acks[1..]));
      }
  }

  /** The calls up to and including the first read. */
  function UntilRead(acts: seq<Action>): seq<Action>
  {
    if |acts| == 0 then []
    else if acts[0] == ReadCall then [ReadCall]
    else [acts[0]] + UntilRead(acts[1..])
  }

  /** A call other than a read, in front of a run. */
  lemma PrependUntilRead(a: Action, t: Transcript)
    requires a != ReadCall
    ensures UntilRead(Prepend(a, t).actions) == [a] + UntilRead(t.actions)
    ensures ReadCall in Prepend(a, t).actions <==> ReadCall in t.actions
  {
    var acts := Prepend(a, t).actions;
    assert acts == [a] + t.actions;
    assert acts[1..] == t.actions;
  }

  /** Buffered messages are answered before more input is asked for: the
      loop reads first exactly when the buffer holds no message; what it does
      up to its first read does not depend on what the reads will return,
      and a run without reads is the same whatever they are. */
  lemma {:induction false} DrainBeforeRead(v: Variant, b: Buf, in1: seq<ReadResult>, in2: seq<ReadResult>, acks: seq<WriteResult>)
    requires Wf(v, b)
    ensures Session(v, b, in1, acks).actions[0] == ReadCall <==> Extract(v, b) == NoMessage
    ensures UntilRead(Session(v, b, in1, acks).actions) == UntilRead(Session(v, b, in2, acks).actions)
    ensures ReadCall !in Session(v, b, in1, acks).actions ==> Session(v, b, in1, acks) == Session(v, b, in2, acks)
    decreases |acks|
  {
    match Extract(v, b)
    case NoMessage =>
      assert Session(v, b, in1, acks).actions[0] == ReadCall;
      assert Session(v, b, in2, acks).actions[0] == ReadCall;
    case Message(m, rest) =>
      assert Session(v, b, in1, acks).actions[0] == WriteCall(Answer(m));
      if |acks| > 0 {
        SessionAfterWrite(v, b, in1, acks);
        SessionAfterWrite(v, b, in2, acks);
        if acks[0].Written? && m != QUIT {
          DrainBeforeRead(v, rest, in1, in2, acks[1..]);
          PrependUntilRead(WriteCall(Answer(m)), Session(v, rest, in1, acks[1..]));
          PrependUntilRead(WriteCall(Answer(m)), Session(v, rest, in2, acks[1..]));
        }
      }
  }

  // ---------------------------------------------------------------------
  // Several lines held at once

  /** The bytes of `lines`, one after the other. */
  function Concat(lines: seq<seq<byte>>): seq<byte>
  {
    if |lines| == 0 then [] else lines[0] + Concat(lines[1..])
  }

  /** The echoes of `lines`, in order. */
  function Echoes(lines: seq<seq<byte>>): seq<Action>
  {
    if |lines| == 0 then [] else [WriteCall(ECHO_PREFIX + lines[0])] + Echoes(lines[1..])
  }

  /** A line in front of other bytes is what the first newline ends. */
  lemma LineFirst(l: seq<byte>, more: seq<byte>)
    requires IsLine(l)
    ensures IndexOf(l + more, NEWLINE) == |l| - 1
    ensures (l + more)[..|l|] == l && (l + more)[|l|..] == more
  {
    assert (l + more)[..|l| - 1] == l[..|l| - 1];
    IndexOfFirst(l + more, NEWLINE, |l| - 1);
  }

  /** With the corrected buffer, a line at the front of the contents is the
      message taken out, and the rest of the contents stays. */
  lemma FirstLineOut(b: Buf, l: seq<byte>, more: seq<byte>)
    requires Wf(Corrected, b) && Content(b) == l + more && IsLine(l)
    ensures Extract(Corrected, b).Message? && Extract(Corrected, b).msg == l
    ensures Content(Extract(Corrected, b).rest) == more
  {
    LineFirst(l, more);
    ExtractCorrectedMessage(b);
  }

  lemma EchoesThenRead(lines: seq<seq<byte>>)
    requires 0 < |lines|
    ensures Echoes(lines) + [ReadCall] == [WriteCall(ECHO_PREFIX + lines[0])] + (Echoes(lines[1..]) + [ReadCall])
  {
  }

  lemma PrependPrefix(a: Action, t: Transcript, n: nat)
    requires n <= |t.actions|
    ensures Prepend(a, t).actions[..n + 1] == [a] + t.actions[..n]
  {
  }

  /** With the corrected buffer, lines held in the buffer, none of them
      `quit\n`, are answered one by one and in order, and then the loop
      reads: the bytes after the last newline wait for more input. */
  lemma {:induction false} DrainsInOrder(b: Buf, lines: seq<seq<byte>>, tail: seq<byte>, inputs: seq<ReadResult>, acks: seq<WriteResult>)
    requires Wf(Corrected, b) && Content(b) == Concat(lines) + tail && NEWLINE !in tail
    requires forall i :: 0 <= i < |lines| ==> IsLine(lines[i]) && lines[i] != QUIT
    requires |lines| <= |acks| && forall i :: 0 <= i < |lines| ==> acks[i] == Written
    ensures var t := Session(Corrected, b, inputs, acks);
      |lines| < |t.actions| && t.actions[..|lines| + 1] == Echoes(lines) + [ReadCall]
    decreases |lines|
  {
    if |lines| == 0 {
      assert Content(b) == tail;
      ExtractCorrectedNothingIff(b);
    } else {
      var l, more := lines[0], Concat(lines[1..]) + tail;
      Associates(l, Concat(lines[1..]), tail);
      FirstLineOut(b, l, more);
      var rest := Extract(Corrected, b).rest;
      SessionAfterWrite(Corrected, b, inputs, acks);
      forall i | 0 <= i < |lines| - 1
        ensures IsLine(lines[1..][i]) && lines[1..][i] != QUIT && acks[1..][i] == Written
      {
        assert lines[1..][i] == lines[i + 1] && acks[1..][i] == acks[i + 1];
      }
      DrainsInOrder(rest, lines[1..], tail, inputs, acks[1..]);
      var s := Session(Corrected, rest, inputs, acks[1..]);
      PrependPrefix(WriteCall(Answer(l)), s, |lines| - 1);
      EchoesThenRead(lines);
    }
  }

  lemma TwoLinesBytes()
    ensures Ascii("a\nb\n") == [97, 10, 98, 10] && Ascii("a\n") == [97, 10] && Ascii("b\n") == [98, 10]
    ensures Concat([[97, 10], [98, 10]]) + [] == [97, 10, 98, 10]
    ensures Echoes([[97, 10], [98, 10]]) == [WriteCall(ECHO_PREFIX + [97, 10]), WriteCall(ECHO_PREFIX + [98, 10])]
    ensures [97, 10] != QUIT && [98, 10] != QUIT
    ensures IsLine([97, 10]) && IsLine([98, 10])
  {
    assert [97, 10][..1] == [97] && [98, 10][..1] == [98];
    assert Concat([[98, 10]]) == [98, 10];
    assert Echoes([[98, 10]]) == [WriteCall(ECHO_PREFIX + [98, 10])];
  }

  /** As written, "a\nb\n" pushed into the empty buffer lands at the
      front. */
  lemma TwoLinesPushed()
    ensures Push(AsWritten, EMPTY, [97, 10, 98, 10]).Some?
    ensures var b1 := Push(AsWritten, EMPTY, [97, 10, 98, 10]).value;
      b1.length == 4 && b1.bytes[..4] == [97, 10, 98, 10]
  {
    PushPlaces(AsWritten, EMPTY, [97, 10, 98, 10]);
  }

  /** As written, a buffer holding "a\nb\n" gives "a\n", then "b\n", then
      nothing. */
  lemma TwoLinesTaken(b1: Buf)
    requires Wf(AsWritten, b1) && b1.length == 4 && b1.bytes[..4] == [97, 10, 98, 10]
    ensures Extract(AsWritten, b1) == Message([97, 10], Pop(b1, 2))
    ensures Extract(AsWritten, Pop(b1, 2)) == Message([98, 10], Pop(Pop(b1, 2), 2))
    ensures Extract(AsWritten, Pop(Pop(b1, 2), 2)) == NoMessage
  {
    assert b1.bytes[..1] == [97] && b1.bytes[..2] == [97, 10];
    ExtractAt(AsWritten, b1, 2);
    var b2 := Pop(b1, 2);
    PopShifts(b1, 2);
    assert Content(b2) == b1.bytes[2..4] == [98, 10];
    assert b2.bytes[..1] == [98] && b2.bytes[..2] == [98, 10];
    ExtractAt(AsWritten, b2, 2);
  }

  /** "a\nb\n" in one read, as written: both lines are answered, in order,
      before the next read. */
  lemma TwoLinesAsWritten(inputs: seq<ReadResult>, acks: seq<WriteResult>)
    ensures var t := Session(AsWritten, EMPTY, [Chunk(Ascii("a\nb\n"))] + inputs, [Written, Written] + acks);
      4 <= |t.actions| &&
      t.actions[..4] == [ReadCall, WriteCall(ECHO_PREFIX + Ascii("a\n")), WriteCall(ECHO_PREFIX + Ascii("b\n")), ReadCall]
  {
    TwoLinesBytes();
    var d: seq<byte> := [97, 10, 98, 10];
    var ins, acks2 := [Chunk(d)] + inputs, [Written, Written] + acks;
    assert ins[1..] == inputs && acks2[1..] == [Written] + acks && acks2[1..][1..] == acks;
    TwoLinesPushed();
    var b1 := Push(AsWritten, EMPTY, d).value;
    TwoLinesTaken(b1);
    var b2 := Pop(b1, 2);
    var b3 := Pop(b2, 2);
    SessionAfterRead(AsWritten, EMPTY, ins, acks2);
    SessionAfterWrite(AsWritten, b1, inputs, acks2);
    SessionAfterWrite(AsWritten, b2, inputs, acks2[1..]);
    var s3 := Session(AsWritten, b3, inputs, acks);
    PrefixOfThree(WriteCall(Answer([97, 10])), WriteCall(Answer([98, 10])), s3);
  }

  /** With the corrected buffer, "a\nb\n" held is answered line by line,
      then the loop reads. */
  lemma TwoLinesDrained(b1: Buf, inputs: seq<ReadResult>, acks2: seq<WriteResult>)
    requires Wf(Corrected, b1) && Content(b1) == [97, 10, 98, 10]
    requires 2 <= |acks2| && acks2[0] == Written && acks2[1] == Written
    ensures var s := Session(Corrected, b1, inputs, acks2);
      3 <= |s.actions| && s.actions[..3] == [WriteCall(ECHO_PREFIX + [97, 10]), WriteCall(ECHO_PREFIX + [98, 10])] + [ReadCall]
  {
    TwoLinesBytes();
    var lines: seq<seq<byte>> := [[97, 10], [98, 10]];
    forall i | 0 <= i < |lines|
      ensures IsLine(lines[i]) && lines[i] != QUIT && acks2[i] == Written
    {
      if i == 0 { assert lines[i] == [97, 10]; } else { assert lines[i] == [98, 10]; }
    }
    DrainsInOrder(b1, lines, [], inputs, acks2);
  }

  /** The same read with the corrected buffer, an instance of
      `DrainsInOrder`. */
  lemma TwoLinesCorrected(inputs: seq<ReadResult>, acks: seq<WriteResult>)
    ensures var t := Session(Corrected, EMPTY, [Chunk(Ascii("a\nb\n"))] + inputs, [Written, Written] + acks);
      4 <= |t.actions| &&
      t.actions[..4] == [ReadCall, WriteCall(ECHO_PREFIX + Ascii("a\n")), WriteCall(ECHO_PREFIX + Ascii("b\n")), ReadCall]
  {
    TwoLinesBytes();
    var d: seq<byte> := [97, 10, 98, 10];
    var acks2 := [Written, Written] + acks;
    ReadAppends(EMPTY, d, inputs, acks2);
    var b1 := Push(Corrected, EMPTY, d).value;
    assert Content(EMPTY) + d == d;
    TwoLinesDrained(b1, inputs, acks2);
    ReadBefore(Session(Corrected, b1, inputs, acks2), WriteCall(ECHO_PREFIX + [97, 10]), WriteCall(ECHO_PREFIX + [98, 10]), ReadCall);
  }

  lemma ReadBefore(s: Transcript, a: Action, c: Action, d: Action)
    requires 3 <= |s.actions| && s.actions[..3] == [a, c] + [d]
    ensures 4 <= |Prepend(ReadCall, s).actions| && Prepend(ReadCall, s).actions[..4] == [ReadCall, a, c, d]
  {
    PrependPrefix(ReadCall, s, 3);
  }

  // ---------------------------------------------------------------------
  // The corrected buffer: the stream, not its chunking, decides

  /** With the corrected buffer, a run depends on the buffer only through
      its contents. */
  lemma {:induction false} SessionDependsOnContent(b1: Buf, b2: Buf, inputs: seq<ReadResult>, acks: seq<WriteResult>)
    requires Wf(Corrected, b1) && Wf(Corrected, b2) && Content(b1) == Content(b2)
    ensures Session(Corrected, b1, inputs, acks) == Session(Corrected, b2, inputs, acks)
    decreases |inputs| + |acks|
  {
    ExtractCorrectedSplits(b1);
    ExtractCorrectedSplits(b2);
    match Extract(Corrected, b1)
    case NoMessage =>
      if |inputs| > 0 && inputs[0].Chunk? && |inputs[0].bytes| > 0 {
        var d := inputs[0].bytes;
        PushCorrectedAppends(b1, d);
        PushCorrectedAppends(b2, d);
        SessionDependsOnContent(Push(Corrected, b1, d).value, Push(Corrected, b2, d).value, inputs[1..], acks);
      }
    case Message(m, r1) =>
      var r2 := Extract(Corrected, b2).rest;
      assert Content(r1) == Content(b1)[|m|..];
      assert Content(r2) == Content(b2)[|m|..];
      if |acks| > 0 && acks[0].Written? && m != QUIT {
        SessionDependsOnContent(r1, r2, inputs, acks[1..]);
      }
  }

  /** With the corrected buffer and no complete message held, a non-empty
      chunk is read and appended to the contents. */
  lemma ReadAppends(b: Buf, d: seq<byte>, inputs: seq<ReadResult>, acks: seq<WriteResult>)
    requires Wf(Corrected, b) && NEWLINE !in Content(b) && |d| > 0
    ensures Content(Push(Corrected, b, d).value) == Content(b) + d
    ensures Session(Corrected, b, [Chunk(d)] + inputs, acks)
         == Prepend(ReadCall, Session(Corrected, Push(Corrected, b, d).value, inputs, acks))
  {
    ExtractCorrectedSplits(b);
    PushCorrectedAppends(b, d);
    assert ([Chunk(d)] + inputs)[1..] == inputs;
    SessionAfterRead(Corrected, b, [Chunk(d)] + inputs, acks);
  }

  lemma Associates(a: seq<byte>, c: seq<byte>, d: seq<byte>)
    ensures (a + c) + d == a + (c + d)
  {
  }

  lemma NotInParts(a: seq<byte>, c: seq<byte>)
    requires NEWLINE !in a + c
    ensures NEWLINE !in a && NEWLINE !in c
  {
    assert forall i :: 0 <= i < |a| ==> a[i] == (a + c)[i];
    assert forall i :: 0 <= i < |c| ==> c[i] == (a + c)[|a| + i];
  }

  /** With the corrected buffer, a message split over two reads is answered
      as if it had arrived in one: the run differs only by the extra read. */
  lemma SplitReadsJoin(b: Buf, x: seq<byte>, y: seq<byte>, inputs: seq<ReadResult>, acks: seq<WriteResult>)
    requires Wf(Corrected, b) && |x| > 0 && |y| > 0 && NEWLINE !in Content(b) + x
    ensures Session(Corrected, b, [Chunk(x), Chunk(y)] + inputs, acks)
         == Prepend(ReadCall, Session(Corrected, b, [Chunk(x + y)] + inputs, acks))
  {
    NotInParts(Content(b), x);
    var later := [Chunk(y)] + inputs;
    assert [Chunk(x), Chunk(y)] + inputs == [Chunk(x)] + later;
    ReadAppends(b, x, later, acks);
    var b1 := Push(Corrected, b, x).value;
    ReadAppends(b1, y, inputs, acks);
    var b2 := Push(Corrected, b1, y).value;
    ReadAppends(b, x + y, inputs, acks);
    var b3 := Push(Corrected, b, x + y).value;
    Associates(Content(b), x, y);
    SessionDependsOnContent(b2, b3, inputs, acks);
  }

  // ---------------------------------------------------------------------
  // Two runs that separate the code as written from the corrected code

  /** When the buffer holds a message, the loop's next call writes its
      answer. */
  lemma SessionAnswersFirst(v: Variant, b: Buf, inputs: seq<ReadResult>, acks: seq<WriteResult>)
    requires Wf(v, b) && Extract(v, b).Message?
    ensures |Session(v, b, inputs, acks).actions| > 0
    ensures Session(v, b, inputs, acks).actions[0] == WriteCall(Answer(Extract(v, b).msg))
  {
  }

  /** Two reads that settle with chunks, then the session from `b2`. */
  lemma TwoReads(v: Variant, b: Buf, x: seq<byte>, y: seq<byte>, inputs: seq<ReadResult>, acks: seq<WriteResult>)
    requires Wf(v, b) && Extract(v, b) == NoMessage && |x| > 0 && |y| > 0
    requires Push(v, b, x).Some? && Extract(v, Push(v, b, x).value) == NoMessage
    requires Push(v, Push(v, b, x).value, y).Some?
    ensures Session(v, b, [Chunk(x), Chunk(y)] + inputs, acks)
         == Prepend(ReadCall, Prepend(ReadCall, Session(v, Push(v, Push(v, b, x).value, y).value, inputs, acks)))
  {
    var split := [Chunk(x), Chunk(y)] + inputs;
    assert split[1..] == [Chunk(y)] + inputs && split[1..][1..] == inputs;
    SessionAfterRead(v, b, split, acks);
    SessionAfterRead(v, Push(v, b, x).value, split[1..], acks);
  }

  /** As written, a chunk without a newline pushed into the empty buffer
      leaves no newline anywhere in the backing buffer. */
  lemma FirstChunkAsWritten(x: seq<byte>)
    requires 0 < |x| && NEWLINE !in x
    ensures Push(AsWritten, EMPTY, x).Some?
    ensures Push(AsWritten, EMPTY, x).value.length == |x|
    ensures |Push(AsWritten, EMPTY, x).value.bytes| == GrowCap(0, |x|)
    ensures Extract(AsWritten, Push(AsWritten, EMPTY, x).value) == NoMessage
  {
    var b1 := Push(AsWritten, EMPTY, x).value;
    PushWithGrowthAsWritten(EMPTY, x);
    assert b1.bytes == x + b1.bytes[|x|..];
    assert NEWLINE !in b1.bytes by {
      forall i | 0 <= i < |b1.bytes| ensures b1.bytes[i] != NEWLINE {
        if i >= |x| { assert b1.bytes[i] == b1.bytes[|x|..][i - |x|]; }
      }
    }
  }

  lemma ZerosOf(s: seq<byte>)
    requires AllZero(s)
    ensures s == Zeros(|s|)
  {
  }

  /** Bytes without a newline in front of a line still make a line. */
  lemma LineAfter(a: seq<byte>, y: seq<byte>)
    requires NEWLINE !in a && IsLine(y)
    ensures IsLine(a + y)
  {
    assert (a + y)[..|a + y| - 1] == a + y[..|y| - 1];
  }

  /** The first `n` bytes of `s` form a line: the first newline of `s` is
      at `n - 1`. */
  lemma LinePrefix(s: seq<byte>, n: int)
    requires 0 < n <= |s| && IsLine(s[..n])
    ensures s[n - 1] == NEWLINE && NEWLINE !in s[..n - 1]
  {
    assert s[..n][..n - 1] == s[..n - 1];
  }

  /** As written, a line whose push makes the buffer grow is taken out
      behind as many zero bytes as were held. */
  lemma GrowingLineAsWritten(b: Buf, y: seq<byte>)
    requires Wf(AsWritten, b) && 0 <= b.length && b.length + |y| > |b.bytes| && IsLine(y)
    ensures Push(AsWritten, b, y).Some?
    ensures Extract(AsWritten, Push(AsWritten, b, y).value).Message?
    ensures Extract(AsWritten, Push(AsWritten, b, y).value).msg == Zeros(b.length) + y
  {
    GrownBytes(b, y);
    var b2 := Push(AsWritten, b, y).value;
    LineAfter(Zeros(b.length), y);
    LinePrefix(b2.bytes, b2.length);
    ExtractAt(AsWritten, b2, b2.length);
  }

  /** As written, a push that grows the buffer leaves zeros where the held
      bytes were. */
  lemma GrownBytes(b: Buf, y: seq<byte>)
    requires Wf(AsWritten, b) && 0 <= b.length && b.length + |y| > |b.bytes|
    ensures Push(AsWritten, b, y).Some?
    ensures var b2 := Push(AsWritten, b, y).value;
      b2.length == b.length + |y| <= |b2.bytes| && b2.bytes[..b2.length] == Zeros(b.length) + y
  {
    var b2 := Push(AsWritten, b, y).value;
    PushWithGrowthAsWritten(b, y);
    var k, n := b.length, b.length + |y|;
    assert b2.bytes[..n] == b2.bytes[..k] + b2.bytes[k..n];
    ZerosOf(b2.bytes[..k]);
  }

  /** A chunk without a newline, then the rest of the line in a chunk that
      makes the buffer grow: as written, the growth zero-fills the first
      chunk, and the echo carries zero bytes in its place. */
  lemma SplitMessageAsWritten(x: seq<byte>, y: seq<byte>, inputs: seq<ReadResult>, acks: seq<WriteResult>)
    requires 0 < |x| && NEWLINE !in x && IsLine(y) && |x| + |y| > GrowCap(0, |x|)
    ensures var t := Session(AsWritten, EMPTY, [Chunk(x), Chunk(y)] + inputs, acks);
      |t.actions| >= 3 && t.actions[..3] == [ReadCall, ReadCall, WriteCall(ECHO_PREFIX + Zeros(|x|) + y)]
  {
    FirstChunkAsWritten(x);
    var b1 := Push(AsWritten, EMPTY, x).value;
    GrowingLineAsWritten(b1, y);
    var b2 := Push(AsWritten, b1, y).value;
    TwoReads(AsWritten, EMPTY, x, y, inputs, acks);
    SessionAnswersFirst(AsWritten, b2, inputs, acks);
    var m := Zeros(|x|) + y;
    assert m[0] == 0 != QUIT[0];
    var s2 := Session(AsWritten, b2, inputs, acks);
    assert s2.actions[0] == WriteCall(Answer(m));
    assert Answer(m) == ECHO_PREFIX + m;
    assert ECHO_PREFIX + m == ECHO_PREFIX + Zeros(|x|) + y;
    PrefixOfTwoReads(s2);
    assert Session(AsWritten, EMPTY, [Chunk(x), Chunk(y)] + inputs, acks) == Prepend(ReadCall, Prepend(ReadCall, s2));
  }

  lemma PrefixOfThree(a: Action, c: Action, t: Transcript)
    requires |t.actions| > 0
    ensures var r := Prepend(ReadCall, Prepend(a, Prepend(c, t)));
      |r.actions| >= 4 && r.actions[..4] == [ReadCall, a, c, t.actions[0]]
  {
  }

  lemma PrefixOfTwoReads(t: Transcript)
    requires |t.actions| > 0
    ensures var r := Prepend(ReadCall, Prepend(ReadCall, t));
      |r.actions| >= 3 && r.actions[..3] == [ReadCall, ReadCall, t.actions[0]]
  {
  }

  /** The same two chunks with the corrected buffer: the line is answered
      as if it had arrived in one read. */
  lemma SplitMessageCorrected(x: seq<byte>, y: seq<byte>, inputs: seq<ReadResult>, acks: seq<WriteResult>)
    requires 0 < |x| && NEWLINE !in x && IsLine(y)
    ensures var t := Session(Corrected, EMPTY, [Chunk(x), Chunk(y)] + inputs, acks);
      |t.actions| >= 3 && t.actions[..3] == [ReadCall, ReadCall, WriteCall(Answer(x + y))]
  {
    var xy := x + y;
    assert Content(EMPTY) + x == x && Content(EMPTY) + xy == xy;
    SplitReadsJoin(EMPTY, x, y, inputs, acks);
    ReadAppends(EMPTY, xy, inputs, acks);
    var b := Push(Corrected, EMPTY, xy).value;
    JoinedExtract(x, y);
    SessionAnswersFirst(Corrected, b, inputs, acks);
    var s2 := Session(Corrected, b, inputs, acks);
    PrefixOfTwoReads(s2);
  }

  /** The corrected buffer takes the joined line out in one piece. */
  lemma JoinedExtract(x: seq<byte>, y: seq<byte>)
    requires NEWLINE !in x && IsLine(y)
    ensures Push(Corrected, EMPTY, x + y).Some?
    ensures Extract(Corrected, Push(Corrected, EMPTY, x + y).value).Message?
    ensures Extract(Corrected, Push(Corrected, EMPTY, x + y).value).msg == x + y
  {
    var xy := x + y;
    PushCorrectedAppends(EMPTY, xy);
    assert Content(EMPTY) + xy == xy;
    var b := Push(Corrected, EMPTY, xy).value;
    JoinedLine(x, y);
    ExtractCorrectedMessage(b);
    assert xy[..|xy|] == xy;
  }

  /** A chunk without a newline followed by a line is one line. */
  lemma JoinedLine(x: seq<byte>, y: seq<byte>)
    requires NEWLINE !in x && IsLine(y)
    ensures IsLine(x + y) && IndexOf(x + y, NEWLINE) == |x + y| - 1
  {
    assert (x + y)[..|x + y| - 1] == x + y[..|y| - 1];
    IndexOfFirst(x + y, NEWLINE, |x + y| - 1);
  }

  /** "he", then "llo\n", as written, whatever follows. */
  lemma HelloSplitAsWritten(inputs: seq<ReadResult>, acks: seq<WriteResult>)
    ensures var t := Session(AsWritten, EMPTY, [Chunk(Ascii("he")), Chunk(Ascii("llo\n"))] + inputs, acks);
      |t.actions| >= 3 && t.actions[2] == WriteCall(ECHO_PREFIX + [0, 0] + Ascii("llo\n"))
  {
    var he, llo := Ascii("he"), Ascii("llo\n");
    assert he == [104, 101] && llo == [108, 108, 111, 10];
    assert GrowCap(0, 2) == 3;
    SplitMessageAsWritten(he, llo, inputs, acks);
    assert Zeros(2) == [0, 0];
    var t := Session(AsWritten, EMPTY, [Chunk(he), Chunk(llo)] + inputs, acks);
    assert t.actions[2] == t.actions[..3][2];
  }

  lemma HelloBytes()
    ensures var he, llo, hello := Ascii("he"), Ascii("llo\n"), Ascii("hello\n");
      NEWLINE !in he && IsLine(llo) && he + llo == hello && hello != QUIT
  {
    var he, llo, hello := Ascii("he"), Ascii("llo\n"), Ascii("hello\n");
    assert he == [104, 101] && llo == [108, 108, 111, 10];
    assert hello == [104, 101, 108, 108, 111, 10];
    assert hello[0] != QUIT[0];
  }

  /** "he", then "llo\n", with the corrected buffer, whatever follows. */
  lemma HelloSplitCorrected(inputs: seq<ReadResult>, acks: seq<WriteResult>)
    ensures var t := Session(Corrected, EMPTY, [Chunk(Ascii("he")), Chunk(Ascii("llo\n"))] + inputs, acks);
      |t.actions| >= 3 && t.actions[2] == WriteCall(ECHO_PREFIX + Ascii("hello\n"))
  {
    var he, llo, hello := Ascii("he"), Ascii("llo\n"), Ascii("hello\n");
    HelloBytes();
    SplitMessageCorrected(he, llo, inputs, acks);
    assert Answer(hello) == ECHO_PREFIX + hello;
    var t := Session(Corrected, EMPTY, [Chunk(he), Chunk(llo)] + inputs, acks);
    assert t.actions[2] == t.actions[..3][2] == WriteCall(Answer(he + llo));
  }

  /** A line pushed into the empty buffer lands at the front. */
  lemma LineLands(v: Variant, y: seq<byte>)
    requires IsLine(y)
    ensures Push(v, EMPTY, y).Some?
    ensures var b1 := Push(v, EMPTY, y).value;
      b1.length == |y| && b1.bytes[..|y|] == y && IndexOf(b1.bytes[..|y|], NEWLINE) == |y| - 1
  {
    PushPlaces(v, EMPTY, y);
    IndexOfFirst(y, NEWLINE, |y| - 1);
  }

  /** A line pushed into the empty buffer is taken straight out again; the
      backing buffer keeps its bytes, and the length returns to 0. */
  lemma LineIntoFresh(v: Variant, y: seq<byte>)
    requires IsLine(y)
    ensures Push(v, EMPTY, y).Some?
    ensures var b1 := Push(v, EMPTY, y).value;
      b1.bytes[..|y|] == y && Extract(v, b1) == Message(y, Buf(b1.bytes, 0))
  {
    LineLands(v, y);
    var b1 := Push(v, EMPTY, y).value;
    LinePrefix(b1.bytes, |y|);
    ExtractAt(v, b1, |y|);
    assert Pop(b1, |y|) == Buf(b1.bytes, 0);
  }

  /** As written, a chunk shorter than the line before it, without a
      newline of its own, is completed by the stale newline of that line. */
  lemma StaleLineAsWritten(b: Buf, y: seq<byte>, x: seq<byte>)
    requires |y| <= |b.bytes| && b.length == 0 && b.bytes[..|y|] == y && IsLine(y)
    requires 0 < |x| < |y| && NEWLINE !in x
    ensures Push(AsWritten, b, x).Some?
    ensures Extract(AsWritten, Push(AsWritten, b, x).value).Message?
    ensures Extract(AsWritten, Push(AsWritten, b, x).value).msg == x + y[|x|..]
  {
    PushWithoutGrowth(AsWritten, b, x);
    var b3 := Push(AsWritten, b, x).value;
    assert b3.bytes[..|y|] == x + y[|x|..] by {
      assert b3.bytes == x + b.bytes[|x|..];
      assert b.bytes[|x|..][..|y| - |x|] == y[|x|..];
    }
    assert IsLine(y[|x|..]) by {
      assert y[|x|..][..|y| - |x| - 1] == y[..|y| - 1][|x|..];
    }
    LineAfter(x, y[|x|..]);
    LinePrefix(b3.bytes, |y|);
    ExtractAt(AsWritten, b3, |y|);
  }

  /** A line, then a shorter chunk without a newline: as written, the loop
      answers a line the client never finished, made of the chunk and the
      stale end of the first line. */
  lemma StaleNewlineAsWritten(y: seq<byte>, x: seq<byte>, inputs: seq<ReadResult>, acks: seq<WriteResult>)
    requires IsLine(y) && y != QUIT && 0 < |x| < |y| && NEWLINE !in x
    ensures var t := Session(AsWritten, EMPTY, [Chunk(y), Chunk(x)] + inputs, [Written] + acks);
      |t.actions| >= 4 && t.actions[..4] == [ReadCall, WriteCall(Answer(y)), ReadCall, WriteCall(Answer(x + y[|x|..]))]
  {
    var ins := [Chunk(y), Chunk(x)] + inputs;
    assert ins[1..] == [Chunk(x)] + inputs && ins[1..][1..] == inputs;
    assert ([Written] + acks)[1..] == acks;
    LineIntoFresh(AsWritten, y);
    var b1 := Push(AsWritten, EMPTY, y).value;
    var b2 := Buf(b1.bytes, 0);
    SessionAfterRead(AsWritten, EMPTY, ins, [Written] + acks);
    SessionAfterWrite(AsWritten, b1, ins[1..], [Written] + acks);
    SessionAfterRead(AsWritten, b2, ins[1..], acks);
    StaleLineAsWritten(b2, y, x);
    var b3 := Push(AsWritten, b2, x).value;
    SessionAnswersFirst(AsWritten, b3, inputs, acks);
    var s3 := Session(AsWritten, b3, inputs, acks);
    assert s3.actions[0] == WriteCall(Answer(x + y[|x|..]));
    var t := Session(AsWritten, EMPTY, ins, [Written] + acks);
    assert t == Prepend(ReadCall, Prepend(WriteCall(Answer(y)), Prepend(ReadCall, s3)));
    PrefixOfThree(WriteCall(Answer(y)), ReadCall, s3);
  }

  /** The same reads with the corrected buffer: the chunk is held until the
      rest of its line arrives. */
  lemma StaleNewlineCorrected(y: seq<byte>, x: seq<byte>, inputs: seq<ReadResult>, acks: seq<WriteResult>)
    requires IsLine(y) && y != QUIT && 0 < |x| < |y| && NEWLINE !in x
    ensures var t := Session(Corrected, EMPTY, [Chunk(y), Chunk(x)] + inputs, [Written] + acks);
      |t.actions| >= 4 && t.actions[..4] == [ReadCall, WriteCall(Answer(y)), ReadCall, ReadCall]
  {
    var ins := [Chunk(y), Chunk(x)] + inputs;
    assert ins[1..] == [Chunk(x)] + inputs && ins[1..][1..] == inputs;
    assert ([Written] + acks)[1..] == acks;
    LineIntoFresh(Corrected, y);
    var b1 := Push(Corrected, EMPTY, y).value;
    var b2 := Buf(b1.bytes, 0);
    SessionAfterRead(Corrected, EMPTY, ins, [Written] + acks);
    SessionAfterWrite(Corrected, b1, ins[1..], [Written] + acks);
    SessionAfterRead(Corrected, b2, ins[1..], acks);
    PushCorrectedAppends(b2, x);
    var b3 := Push(Corrected, b2, x).value;
    assert Content(b3) == x;
    ExtractCorrectedSplits(b3);
    var s3 := Session(Corrected, b3, inputs, acks);
    assert s3.actions[0] == ReadCall;
    var t := Session(Corrected, EMPTY, ins, [Written] + acks);
    assert t == Prepend(ReadCall, Prepend(WriteCall(Answer(y)), Prepend(ReadCall, s3)));
    PrefixOfThree(WriteCall(Answer(y)), ReadCall, s3);
  }

  lemma StaleBytes()
    ensures Ascii("a\n") == [97, 10] && Ascii("x") == [120] && Ascii("x\n") == [120, 10]
  {
  }

  /** "a\n", then "x": as written, the loop answers "x\n", a line the
      client never sent. */
  lemma StaleExampleAsWritten(inputs: seq<ReadResult>, acks: seq<WriteResult>)
    ensures var t := Session(AsWritten, EMPTY, [Chunk(Ascii("a\n")), Chunk(Ascii("x"))] + inputs, [Written] + acks);
      |t.actions| >= 4 && t.actions[3] == WriteCall(ECHO_PREFIX + Ascii("x\n"))
  {
    StaleBytes();
    var a, x, xn := Ascii("a\n"), Ascii("x"), Ascii("x\n");
    assert a[0] != QUIT[0];
    StaleNewlineAsWritten(a, x, inputs, acks);
    assert x + a[|x|..] == xn;
    assert xn[0] != QUIT[0];
    var t := Session(AsWritten, EMPTY, [Chunk(a), Chunk(x)] + inputs, [Written] + acks);
    assert t.actions[3] == t.actions[..4][3] == WriteCall(Answer(xn));
  }

  /** The same reads with the corrected buffer: the loop reads again. */
  lemma StaleExampleCorrected(inputs: seq<ReadResult>, acks: seq<WriteResult>)
    ensures var t := Session(Corrected, EMPTY, [Chunk(Ascii("a\n")), Chunk(Ascii("x"))] + inputs, [Written] + acks);
      |t.actions| >= 4 && t.actions[3] == ReadCall
  {
    StaleBytes();
    var a, x := Ascii("a\n"), Ascii("x");
    assert a[0] != QUIT[0];
    StaleNewlineCorrected(a, x, inputs, acks);
    var u := Session(Corrected, EMPTY, [Chunk(a), Chunk(x)] + inputs, [Written] + acks);
    assert u.actions[3] == u.actions[..4][3];
  }
}
