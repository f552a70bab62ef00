/** Bytes, the fixed protocol messages, the outcomes that reads and writes
    settle with, and transcripts of a session. Shared by the buffer, the connection adapter and both
    versions of the protocol loop. */
module Common {

  /** One octet of a Node `Buffer`. */
  type byte = b: int | 0 <= b < 256

  datatype Option<T> = None | Some(value: T)

  /** What an operation can be rejected or thrown with. `SocketError` stands
      for an `Error` object emitted by the socket (its identity is opaque);
      `RangeError` is the exception `Buffer.copy` throws for a negative
      target offset. */
  datatype Error = SocketError(code: nat) | RangeError

  /** What one `soRead` promise settles with: a chunk (empty means end of
      stream) or a rejection. */
  datatype ReadResult = Chunk(bytes: seq<byte>) | ReadFailed(error: Error)

  /** What one `soWrite` promise settles with. */
  datatype WriteResult = Written | WriteFailed(error: Error)

  /** A call `serveClient` makes on the connection: `soRead`, or `soWrite`
      with the bytes to send. */
  datatype Action = ReadCall | WriteCall(data: seq<byte>)

  /** How a run of `serveClient` ends: it returns, it throws, or it is still
      waiting for the read or write promise it last asked for. */
  datatype Exit = Returned | Threw(error: Error) | AwaitingRead | AwaitingWrite

  /** The calls made on the connection, in order, and how the run ends. */
  datatype Transcript = Transcript(actions: seq<Action>, exit: Exit)

  function Prepend(a: Action, t: Transcript): (r: Transcript)
    ensures |r.actions| == |t.actions| + 1 && r.actions[0] == a && r.actions[1..] == t.actions
  {
    Transcript([a] + t.actions, t.exit)
  }

  /** The calls `acts`, then the run `t`. */
  function Then(acts: seq<Action>, t: Transcript): (r: Transcript)
    ensures |r.actions| == |acts| + |t.actions| && r.actions[..|acts|] == acts && r.actions[|acts|..] == t.actions && r.exit == t.exit
  {
    Transcript(acts + t.actions, t.exit)
  }

  /** `newConn` (echoSever_v3.ts, lines 197-206; echoSever_v2.ts, lines 93-102)
      catches what `serveClient` throws and destroys the socket in its
      `finally` block, which runs once `serveClient` has settled. */
  predicate Settled(e: Exit)
  {
    e.Returned? || e.Threw?
  }

  /** The bytes `Buffer.from(s)` holds for an ASCII string `s`. */
  function Ascii(s: string): seq<byte>
    requires forall i :: 0 <= i < |s| ==> s[i] < 128 as char
  {
    seq(|s|, i requires 0 <= i < |s| => s[i] as int)
  }

  const NEWLINE: byte := 10

  /** The sentinel message, compared byte for byte (v3). */
  const QUIT: seq<byte> := Ascii("quit\n")

  /** The word a trimmed v2 chunk is compared with. */
  const QUIT_WORD: seq<byte> := Ascii("quit")

  const GOODBYE: seq<byte> := Ascii("Goodbye\n")

  const ECHO_PREFIX: seq<byte> := Ascii("Echo: ")

  /** `Buffer.indexOf(x)`: the first index holding `x`, or -1. */
  function IndexOf(s: seq<byte>, x: byte): (r: int)
    ensures -1 <= r < |s|
    ensures r == -1 <==> x !in s
    ensures 0 <= r ==> s[r] == x && x !in s[..r]
  {
    if |s| == 0 then -1
    else if s[0] == x then 0
    else
      var k := IndexOf(s[1..], x);
      if k == -1 then -1
      else
        assert s[..k + 1] == [s[0]] + s[1..][..k];
        k + 1
  }

  /** The first occurrence is the one `IndexOf` finds. */
  lemma IndexOfFirst(s: seq<byte>, x: byte, k: int)
    requires 0 <= k < |s| && s[k] == x && x !in s[..k]
    ensures IndexOf(s, x) == k
  {
  }

  /** The ASCII characters JavaScript's `String.prototype.trim` removes:
      tab, line feed, vertical tab, form feed, carriage return and space. */
  predicate IsSpace(b: byte)
  {
    b == 9 || b == 10 || b == 11 || b == 12 || b == 13 || b == 32
  }

  predicate AllSpace(s: seq<byte>)
  {
    forall i :: 0 <= i < |s| ==> IsSpace(s[i])
  }

  function TrimStart(s: seq<byte>): seq<byte>
  {
    if |s| > 0 && IsSpace(s[0]) then TrimStart(s[1..]) else s
  }

  function TrimEnd(s: seq<byte>): seq<byte>
  {
    if |s| > 0 && IsSpace(s[|s| - 1]) then TrimEnd(s[..|s| - 1]) else s
  }

  /** `data.toString().trim()` on ASCII bytes. */
  function Trim(s: seq<byte>): seq<byte>
  {
    TrimEnd(TrimStart(s))
  }

  /** A byte sequence that `Trim` leaves as it is: empty, or neither end is
      white space. */
  predicate Trimmed(s: seq<byte>)
  {
    |s| == 0 || (!IsSpace(s[0]) && !IsSpace(s[|s| - 1]))
  }

  lemma {:induction false} TrimStartSplits(s: seq<byte>)
    ensures exists a :: AllSpace(a) && s == a + TrimStart(s)
    ensures |TrimStart(s)| == 0 || !IsSpace(TrimStart(s)[0])
  {
    if |s| > 0 && IsSpace(s[0]) {
      TrimStartSplits(s[1..]);
      var a :| AllSpace(a) && s[1..] == a + TrimStart(s[1..]);
      assert AllSpace([s[0]] + a);
      assert s == [s[0]] + a + TrimStart(s);
    } else {
      assert AllSpace([]) && s == [] + s;
    }
  }

  lemma {:induction false} TrimEndSplits(s: seq<byte>)
    ensures exists b :: AllSpace(b) && s == TrimEnd(s) + b
    ensures |TrimEnd(s)| == 0 || !IsSpace(TrimEnd(s)[|TrimEnd(s)| - 1])
    ensures |s| > 0 && !IsSpace(s[0]) ==> |TrimEnd(s)| > 0 && TrimEnd(s)[0] == s[0]
  {
    if |s| > 0 && IsSpace(s[|s| - 1]) {
      var p := s[..|s| - 1];
      TrimEndSplits(p);
      var b :| AllSpace(b) && p == TrimEnd(p) + b;
      assert AllSpace(b + [s[|s| - 1]]);
      assert s == p + [s[|s| - 1]];
      assert s == TrimEnd(s) + (b + [s[|s| - 1]]);
      if |s| > 0 && !IsSpace(s[0]) {
        assert |p| > 0 && p[0] == s[0];
      }
    } else {
      assert AllSpace([]) && s == s + [];
    }
  }

  /** Trimming splits a chunk into leading white space, a trimmed core and
      trailing white space. */
  lemma TrimSplits(s: seq<byte>)
    ensures Trimmed(Trim(s))
    ensures exists a, b :: AllSpace(a) && AllSpace(b) && s == a + Trim(s) + b
  {
    TrimStartSplits(s);
    var a :| AllSpace(a) && s == a + TrimStart(s);
    TrimEndSplits(TrimStart(s));
    var b :| AllSpace(b) && TrimStart(s) == Trim(s) + b;
    assert s == a + Trim(s) + b;
  }

  lemma {:induction false} TrimStartOfPadded(a: seq<byte>, t: seq<byte>)
    requires AllSpace(a)
    requires |t| == 0 || !IsSpace(t[0])
    ensures TrimStart(a + t) == t
  {
    if |a| > 0 {
      assert (a + t)[1..] == a[1..] + t;
      TrimStartOfPadded(a[1..], t);
    } else {
      assert a + t == t;
    }
  }

  lemma {:induction false} TrimEndOfPadded(t: seq<byte>, b: seq<byte>)
    requires AllSpace(b)
    requires |t| == 0 || !IsSpace(t[|t| - 1])
    ensures TrimEnd(t + b) == t
  {
    if |b| > 0 {
      assert (t + b)[..|t + b| - 1] == t + b[..|b| - 1];
      TrimEndOfPadded(t, b[..|b| - 1]);
    } else {
      assert t + b == t;
    }
  }

  /** Padding a trimmed core with white space on both sides trims back to
      the core. */
  lemma TrimOfPadded(a: seq<byte>, t: seq<byte>, b: seq<byte>)
    requires AllSpace(a) && AllSpace(b) && Trimmed(t)
    ensures Trim(a + t + b) == t
  {
    if |t| == 0 {
      assert AllSpace(a + b) by {
        forall i | 0 <= i < |a + b| ensures IsSpace((a + b)[i]) {
          if i < |a| { assert (a + b)[i] == a[i]; } else { assert (a + b)[i] == b[i - |a|]; }
        }
      }
      assert a + t + b == (a + b) + t;
      TrimStartOfPadded(a + b, t);
    } else {
      assert a + t + b == a + (t + b);
      TrimStartOfPadded(a, t + b);
      TrimEndOfPadded(t, b);
    }
  }

  /** A chunk trims to `quit` exactly when it is `quit` surrounded by white
      space. */
  lemma TrimIsQuitIff(s: seq<byte>)
    ensures Trim(s) == QUIT_WORD <==> exists a, b :: AllSpace(a) && AllSpace(b) && s == a + QUIT_WORD + b
  {
    if Trim(s) == QUIT_WORD {
      TrimSplits(s);
    }
    if exists a, b :: AllSpace(a) && AllSpace(b) && s == a + QUIT_WORD + b {
      var a, b :| AllSpace(a) && AllSpace(b) && s == a + QUIT_WORD + b;
      TrimOfPadded(a, QUIT_WORD, b);
    }
  }
}
