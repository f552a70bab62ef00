/** The v2 `serveClient` loop (echoSever_v2.ts, lines 103-115) and its
    `newConn` wrapper (lines 93-102): no buffering; each chunk read is
    written back as it is, until an empty chunk or one that trims to
    `quit`. */
module ServeV2 {
  import opened Common
  import Conn

  /** `data.length === 0 || data.toString().trim() === "quit"`. */
  predicate Stops(data: seq<byte>)
  {
    |data| == 0 || Trim(data) == QUIT_WORD
  }

  /** The run of the loop, with `inputs` the results of the next `soRead`
      calls and `acks` those of the next `soWrite` calls. Each round reads
      once and writes at most once. */
  function Session(inputs: seq<ReadResult>, acks: seq<WriteResult>): (r: Transcript)
    ensures 0 < |r.actions| <= 2 * |inputs| + 1 && |r.actions| <= 2 * |acks| + 2
    decreases |inputs|
  {
    if |inputs| == 0 then Transcript([ReadCall], AwaitingRead)
    else
      var t := match inputs[0]
        case ReadFailed(e) => Transcript([], Threw(e))
        case Chunk(data) =>
          if Stops(data) then Transcript([], Returned)
          else if |acks| == 0 then Transcript([WriteCall(data)], AwaitingWrite)
          else match acks[0]
            case WriteFailed(e) => Transcript([WriteCall(data)], Threw(e))
            case Written => Prepend(WriteCall(data), Session(inputs[1..], acks[1..]));
      Prepend(ReadCall, t)
  }

  /** One round of the loop. */
  lemma SessionRound(inputs: seq<ReadResult>, acks: seq<WriteResult>)
    requires |inputs| > 0
    ensures inputs[0].ReadFailed? ==> Session(inputs, acks) == Transcript([ReadCall], Threw(inputs[0].error))
    ensures inputs[0].Chunk? && Stops(inputs[0].bytes) ==> Session(inputs, acks) == Transcript([ReadCall], Returned)
    ensures inputs[0].Chunk? && !Stops(inputs[0].bytes) && |acks| == 0 ==>
      Session(inputs, acks) == Transcript([ReadCall, WriteCall(inputs[0].bytes)], AwaitingWrite)
    ensures inputs[0].Chunk? && !Stops(inputs[0].bytes) && |acks| > 0 && acks[0].WriteFailed? ==>
      Session(inputs, acks) == Transcript([ReadCall, WriteCall(inputs[0].bytes)], Threw(acks[0].error))
    ensures inputs[0].Chunk? && !Stops(inputs[0].bytes) && |acks| > 0 && acks[0].Written? ==>
      Session(inputs, acks) == Then([ReadCall, WriteCall(inputs[0].bytes)], Session(inputs[1..], acks[1..]))
  {
  }

  /** The loop has made the calls `done` and used the first `k` read and
      write results. */
  predicate Progress(inputs: seq<ReadResult>, acks: seq<WriteResult>, done: seq<Action>, k: int)
  {
    0 <= k <= |inputs| && k <= |acks| && Session(inputs, acks) == Then(done, Session(inputs[k..], acks[k..]))
  }

  /** One round of the loop after `k` rounds: what the whole run is when it
      ends in this round, and the progress made when it does not. */
  lemma Round(inputs: seq<ReadResult>, acks: seq<WriteResult>, done: seq<Action>, k: int)
    requires Progress(inputs, acks, done, k) && k < |inputs|
    ensures var whole, r := Session(inputs, acks), inputs[k];
      (r.ReadFailed? ==> whole == Then(done, Transcript([ReadCall], Threw(r.error)))) &&
      (r.Chunk? && Stops(r.bytes) ==> whole == Then(done, Transcript([ReadCall], Returned))) &&
      (r.Chunk? && !Stops(r.bytes) && k == |acks| ==>
        whole == Then(done, Transcript([ReadCall, WriteCall(r.bytes)], AwaitingWrite))) &&
      (r.Chunk? && !Stops(r.bytes) && k < |acks| && acks[k].WriteFailed? ==>
        whole == Then(done, Transcript([ReadCall, WriteCall(r.bytes)], Threw(acks[k].error)))) &&
      (r.Chunk? && !Stops(r.bytes) && k < |acks| && acks[k].Written? ==>
        Progress(inputs, acks, done + [ReadCall, WriteCall(r.bytes)], k + 1))
  {
    SessionRound(inputs[k..], acks[k..]);
    var r := inputs[k];
    if r.Chunk? && !Stops(r.bytes) && k < |acks| && acks[k].Written? {
      assert inputs[k..][1..] == inputs[k + 1..] && acks[k..][1..] == acks[k + 1..];
      var next := Session(inputs[k + 1..], acks[k + 1..]);
      ThenThen(done, [ReadCall, WriteCall(r.bytes)], next);
    }
  }

  lemma ThenThen(done: seq<Action>, acts: seq<Action>, t: Transcript)
    ensures Then(done, Then(acts, t)) == Then(done + acts, t)
  {
    assert done + (acts + t.actions) == (done + acts) + t.actions;
  }

  /** `serveClient(socket)`. */
  method ServeClient(inputs: seq<ReadResult>, acks: seq<WriteResult>) returns (t: Transcript)
    ensures t == Session(inputs, acks)
  {
    var k := 0;
    var done: seq<Action> := [];
    while true
      invariant Progress(inputs, acks, done, k)
      decreases |inputs| - k
    {
      if k == |inputs| {
        return Then(done, Transcript([ReadCall], AwaitingRead));
      }
      Round(inputs, acks, done, k);
      if inputs[k].ReadFailed? {
        return Then(done, Transcript([ReadCall], Threw(inputs[k].error)));
      }
      var data := inputs[k].bytes;
      if |data| == 0 || Trim(data) == QUIT_WORD {
        return Then(done, Transcript([ReadCall], Returned));
      }
      if k == |acks| {
        return Then(done, Transcript([ReadCall, WriteCall(data)], AwaitingWrite));
      }
      if acks[k].WriteFailed? {
        return Then(done, Transcript([ReadCall, WriteCall(data)], Threw(acks[k].error)));
      }
      done := done + [ReadCall, WriteCall(data)];
      k := k + 1;
    }
  }

  /** `newConn(socket)`: serves the client, swallowing what it throws, and
      destroys the socket once the run has settled. */
  method NewConn(socket: Conn.Socket, inputs: seq<ReadResult>, acks: seq<WriteResult>) returns (t: Transcript)
    modifies socket`destroyed
    ensures t == Session(inputs, acks)
    ensures Settled(t.exit) ==> socket.destroyed
    ensures !Settled(t.exit) ==> socket.destroyed == old(socket.destroyed)
  {
    t := ServeClient(inputs, acks);
    if Settled(t.exit) {
      socket.Destroy();
    }
  }

  /** The `k`-th call of a run: reads and writes alternate, and the write
      after the `n`-th read is that chunk, unchanged. */
  predicate Alternates(inputs: seq<ReadResult>, t: Transcript)
  {
    forall i :: 0 <= i < |t.actions| ==>
      (i % 2 == 0 ==> t.actions[i] == ReadCall) &&
      (i % 2 == 1 ==> i / 2 < |inputs| && inputs[i / 2].Chunk? && !Stops(inputs[i / 2].bytes) &&
                      t.actions[i] == WriteCall(inputs[i / 2].bytes))
  }

  /** One echoed round in front of an alternating run alternates. */
  lemma AlternatesThen(inputs: seq<ReadResult>, rest: Transcript)
    requires |inputs| > 0 && inputs[0].Chunk? && !Stops(inputs[0].bytes)
    requires Alternates(inputs[1..], rest)
    ensures Alternates(inputs, Then([ReadCall, WriteCall(inputs[0].bytes)], rest))
  {
    var t := Then([ReadCall, WriteCall(inputs[0].bytes)], rest);
    forall i | 2 <= i < |t.actions|
      ensures (i % 2 == 0 ==> t.actions[i] == ReadCall) &&
        (i % 2 == 1 ==> i / 2 < |inputs| && inputs[i / 2].Chunk? && !Stops(inputs[i / 2].bytes) &&
                        t.actions[i] == WriteCall(inputs[i / 2].bytes))
    {
      assert t.actions[i] == t.actions[2..][i - 2] == rest.actions[i - 2];
      assert (i - 2) % 2 == i % 2 && (i - 2) / 2 == i / 2 - 1;
      if i % 2 == 1 { assert inputs[1..][i / 2 - 1] == inputs[i / 2]; }
    }
    assert t.actions[0] == t.actions[..2][0] == ReadCall;
    assert t.actions[1] == t.actions[..2][1] == WriteCall(inputs[0].bytes);
  }

  /** Reads and writes alternate, and each write is the chunk just read,
      unchanged; a chunk that stops the loop is never written. */
  lemma {:induction false} EchoesUnchanged(inputs: seq<ReadResult>, acks: seq<WriteResult>)
    ensures Alternates(inputs, Session(inputs, acks))
    decreases |inputs|
  {
    if |inputs| > 0 {
      SessionRound(inputs, acks);
      if inputs[0].Chunk? && !Stops(inputs[0].bytes) && |acks| > 0 && acks[0].Written? {
        EchoesUnchanged(inputs[1..], acks[1..]);
        AlternatesThen(inputs, Session(inputs[1..], acks[1..]));
      } else if inputs[0].Chunk? && !Stops(inputs[0].bytes) {
        var t := Session(inputs, acks);
        assert |t.actions| == 2 && t.actions[0] == ReadCall && t.actions[1] == WriteCall(inputs[0].bytes);
      }
    }
  }

  /** Chunks `0..k` were echoed and every echo was written. */
  predicate EchoedBefore(inputs: seq<ReadResult>, acks: seq<WriteResult>, k: nat)
    requires k <= |inputs| && k <= |acks|
  {
    forall j :: 0 <= j < k ==> inputs[j].Chunk? && !Stops(inputs[j].bytes) && acks[j] == Written
  }

  /** Chunk `k` stops the loop, after every earlier one was echoed. */
  predicate StopsAt(inputs: seq<ReadResult>, acks: seq<WriteResult>, k: nat)
  {
    k < |inputs| && k <= |acks| && inputs[k].Chunk? && Stops(inputs[k].bytes) && EchoedBefore(inputs, acks, k)
  }

  lemma StopsAtShift(inputs: seq<ReadResult>, acks: seq<WriteResult>, k: nat)
    requires |inputs| > 0 && |acks| > 0 && inputs[0].Chunk? && !Stops(inputs[0].bytes) && acks[0] == Written
    ensures StopsAt(inputs, acks, k + 1) <==> StopsAt(inputs[1..], acks[1..], k)
  {
    if StopsAt(inputs, acks, k + 1) {
      forall j | 0 <= j < k
        ensures inputs[1..][j].Chunk? && !Stops(inputs[1..][j].bytes) && acks[1..][j] == Written
      {
        assert inputs[1..][j] == inputs[j + 1] && acks[1..][j] == acks[j + 1];
      }
    }
    if StopsAt(inputs[1..], acks[1..], k) {
      forall j | 0 <= j < k + 1
        ensures inputs[j].Chunk? && !Stops(inputs[j].bytes) && acks[j] == Written
      {
        if j > 0 { assert inputs[j] == inputs[1..][j - 1] && acks[j] == acks[1..][j - 1]; }
      }
    }
  }

  /** The loop returns (rather than throwing or waiting) exactly when some
      chunk stops it, every chunk before it was echoed, and every echo was
      written. */
  lemma {:induction false} ReturnsIff(inputs: seq<ReadResult>, acks: seq<WriteResult>)
    ensures Session(inputs, acks).exit == Returned <==> exists k: nat :: StopsAt(inputs, acks, k)
    decreases |inputs|
  {
    if |inputs| > 0 {
      SessionRound(inputs, acks);
      if inputs[0].Chunk? && !Stops(inputs[0].bytes) && |acks| > 0 && acks[0].Written? {
        ReturnsIff(inputs[1..], acks[1..]);
        if Session(inputs, acks).exit == Returned {
          var k: nat :| StopsAt(inputs[1..], acks[1..], k);
          StopsAtShift(inputs, acks, k);
        }
        if exists k: nat :: StopsAt(inputs, acks, k) {
          var k: nat :| StopsAt(inputs, acks, k);
          assert k > 0;
          StopsAtShift(inputs, acks, k - 1);
        }
      } else if inputs[0].Chunk? && Stops(inputs[0].bytes) {
        assert StopsAt(inputs, acks, 0);
      } else {
        forall k: nat
          ensures !StopsAt(inputs, acks, k)
        {
          if k > 0 && k <= |acks| && k < |inputs| {
            assert !(inputs[0].Chunk? && !Stops(inputs[0].bytes) && acks[0] == Written);
          }
        }
      }
    }
  }

  /** A chunk stops the loop exactly when it is empty or is `quit` padded
      with white space. */
  lemma StopsIff(data: seq<byte>)
    ensures Stops(data) <==>
      |data| == 0 || exists a, b :: AllSpace(a) && AllSpace(b) && data == a + QUIT_WORD + b
  {
    TrimIsQuitIff(data);
  }
}
