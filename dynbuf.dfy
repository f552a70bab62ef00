/** The `DynBuf` byte accumulator of the v3 echo server (echoSever_v3.ts,
    lines 146-192): a backing `Buffer` whose length is the capacity, and a
    logical length.

    The functions work on snapshots (`Buf`) and specify the class `DynBuf`
    at the end, which keeps the backing buffer in an `array` and updates it
    in place as the source does. Two places of the source behave differently
    from what the surrounding code evidently intends; `Variant` selects the
    code as written or the corrected code:
    - line 165 copies nothing into the grown buffer, so growth zero-fills the
      bytes already held;
    - line 186 searches the whole backing buffer for a newline, so bytes left
      behind by `copyWithin` can be taken for part of a message, and the
      length can then become negative. */
module DynBuffer {
  import opened Common

  datatype Variant = AsWritten | Corrected

  /** A snapshot of a `DynBuf`: `bytes` is the backing buffer, `|bytes|` its
      capacity; `length` is a JavaScript number and can go negative. */
  datatype Buf = Buf(bytes: seq<byte>, length: int)

  /** `{data: Buffer.alloc(0), length: 0}` (line 213). */
  const EMPTY: Buf := Buf([], 0)

  /** The states the operations reach. The code as written keeps the length
      within the capacity but not above 0; the corrected code keeps both. */
  predicate Wf(v: Variant, b: Buf)
  {
    b.length <= |b.bytes| && (v == Corrected ==> 0 <= b.length)
  }

  /** The unconsumed stream: the bytes at [0, length). */
  function Content(b: Buf): seq<byte>
    requires 0 <= b.length <= |b.bytes|
  {
    b.bytes[..b.length]
  }

  function Min(x: int, y: int): int
  {
    if x <= y then x else y
  }

  /** `Buffer.alloc(n)`. */
  function Zeros(n: nat): seq<byte>
  {
    seq(n, _ => 0)
  }

  predicate AllZero(s: seq<byte>)
  {
    forall i :: 0 <= i < |s| ==> s[i] == 0
  }

  // ---------------------------------------------------------------------
  // Growth policy (lines 158-164)

  /** The capacity after `k` rounds of `cap = cap * 2 + 1`. */
  function Orbit(cap: nat, k: nat): nat
  {
    if k == 0 then cap else 2 * Orbit(cap, k - 1) + 1
  }

  /** Where the growth loop `while (cap < newLen) cap = cap * 2 + 1` stops.
      It stops at once when the capacity suffices, and otherwise overshoots
      by less than a factor of two. */
  function GrowCap(cap: nat, newLen: int): (r: nat)
    ensures newLen <= r && cap <= r
    ensures newLen <= cap ==> r == cap
    ensures cap < newLen ==> r < 2 * newLen
    decreases newLen - cap
  {
    if newLen <= cap then cap else GrowCap(2 * cap + 1, newLen)
  }

  lemma {:induction false} OrbitShift(cap: nat, k: nat)
    ensures Orbit(2 * cap + 1, k) == Orbit(cap, k + 1)
  {
    if k > 0 {
      OrbitShift(cap, k - 1);
    }
  }

  /** `k` rounds of the growth loop reach `newLen`, and no fewer do. */
  predicate FirstSufficient(cap: nat, newLen: int, k: nat)
  {
    newLen <= Orbit(cap, k) && forall j: nat :: j < k ==> Orbit(cap, j) < newLen
  }

  /** The growth loop terminates at the FIRST value of the recurrence,
      starting from the old capacity, that is at least `newLen`. */
  lemma {:induction false} GrowCapIsFirstSufficient(cap: nat, newLen: int)
    ensures exists k: nat :: GrowCap(cap, newLen) == Orbit(cap, k) && FirstSufficient(cap, newLen, k)
    decreases newLen - cap
  {
    if newLen <= cap {
      assert GrowCap(cap, newLen) == Orbit(cap, 0) && FirstSufficient(cap, newLen, 0);
    } else {
      var next: nat := 2 * cap + 1;
      GrowCapIsFirstSufficient(next, newLen);
      var k: nat :| GrowCap(next, newLen) == Orbit(next, k) && FirstSufficient(next, newLen, k);
      OrbitShift(cap, k);
      forall j: nat | j < k + 1
        ensures Orbit(cap, j) < newLen
      {
        if j > 0 {
          OrbitShift(cap, j - 1);
        }
      }
      assert GrowCap(cap, newLen) == Orbit(cap, k + 1) && FirstSufficient(cap, newLen, k + 1);
    }
  }

  // ---------------------------------------------------------------------
  // Byte copying as Node does it

  /** `source.copy(target, targetStart, sourceStart)`: the new contents of
      `target`, or None where Node throws a RangeError (negative target
      start, source start outside the source). A target start at or past
      the end of the target copies nothing. */
  function BufferCopy(source: seq<byte>, target: seq<byte>, targetStart: int, sourceStart: int): (r: Option<seq<byte>>)
    ensures r.Some? <==> 0 <= targetStart && 0 <= sourceStart <= |source|
    ensures r.Some? ==> |r.value| == |target|
  {
    if targetStart < 0 || sourceStart < 0 || sourceStart > |source| then None
    else if targetStart >= |target| || sourceStart >= |source| then Some(target)
    else
      var n := Min(|source| - sourceStart, |target| - targetStart);
      Some(target[..targetStart] + source[sourceStart..sourceStart + n] + target[targetStart + n..])
  }

  /** A copy into a target with room for the whole source places exactly
      the source there and leaves every other byte alone. */
  lemma CopyFits(source: seq<byte>, target: seq<byte>, at: nat)
    requires at + |source| <= |target|
    ensures BufferCopy(source, target, at, 0) == Some(target[..at] + source + target[at + |source|..])
  {
    if at >= |target| || |source| == 0 {
      assert target == target[..at] + source + target[at + |source|..];
    } else {
      assert source[0..|source|] == source;
    }
  }

  /** Index normalisation of TypedArray `copyWithin`: negative indices count
      from the end; the result is clamped to [0, len]. */
  function Clamp(rel: int, len: nat): (r: nat)
    ensures r <= len
  {
    if rel < 0 then (if len + rel < 0 then 0 else len + rel)
    else if rel < len then rel else len
  }

  /** `buffer.copyWithin(target, start, end)`: the bytes at [start, end)
      are copied, as if through a temporary, to offsets from `target` on,
      as far as the buffer reaches. */
  function CopyWithin(s: seq<byte>, target: int, start: int, end: int): (r: seq<byte>)
    ensures |r| == |s|
  {
    var to, from, final := Clamp(target, |s|), Clamp(start, |s|), Clamp(end, |s|);
    var count := Min(final - from, |s| - to);
    if count <= 0 then s else s[..to] + s[from..from + count] + s[to + count..]
  }

  // ---------------------------------------------------------------------
  // pushBuf (lines 157-171)

  /** The first copy of line 165 as written: target start `cap` (the new
      buffer's length) and source start the old capacity. */
  function GrownAsWritten(old_: seq<byte>, cap: nat): seq<byte>
    requires |old_| <= cap
  {
    BufferCopy(old_, Zeros(cap), cap, |old_|).value
  }

  /** Line 165 as evidently intended: `buf.data.copy(newBuffer, 0, 0)`. */
  function GrownCorrected(old_: seq<byte>, cap: nat): seq<byte>
    requires |old_| <= cap
  {
    BufferCopy(old_, Zeros(cap), 0, 0).value
  }

  /** The backing buffer after the growth block (lines 159-167), for a push
      that needs `newLen` bytes. */
  function Reserve(v: Variant, b: Buf, newLen: int): (r: seq<byte>)
    ensures |r| == if newLen > |b.bytes| then GrowCap(|b.bytes|, newLen) else |b.bytes|
  {
    if newLen <= |b.bytes| then b.bytes
    else
      var cap := GrowCap(|b.bytes|, newLen);
      match v
      case AsWritten => GrownAsWritten(b.bytes, cap)
      case Corrected => GrownCorrected(b.bytes, cap)
  }

  /** `pushBuf(buf, chunk)`: grow, then `chunk.copy(buf.data, buf.length, 0)`
      and set the length. None when that copy throws, which it does exactly
      when the length has gone negative. */
  function Push(v: Variant, b: Buf, chunk: seq<byte>): (r: Option<Buf>)
    requires Wf(v, b)
    ensures r.Some? <==> 0 <= b.length
    ensures r.Some? ==> Wf(v, r.value) && r.value.length == b.length + |chunk|
    ensures r.Some? ==> r.value.bytes[b.length..r.value.length] == chunk
    ensures r.Some? ==> |r.value.bytes| == |Reserve(v, b, b.length + |chunk|)|
  {
    var newLen := b.length + |chunk|;
    var grown := Reserve(v, b, newLen);
    if b.length < 0 then None
    else
      CopyFits(chunk, grown, b.length);
      Some(Buf(BufferCopy(chunk, grown, b.length, 0).value, newLen))
  }

  /** Without growth the push keeps every byte it does not overwrite, so the
      contents become the old contents followed by the chunk. */
  lemma PushWithoutGrowth(v: Variant, b: Buf, chunk: seq<byte>)
    requires Wf(v, b) && 0 <= b.length && b.length + |chunk| <= |b.bytes|
    ensures Push(v, b, chunk) == Some(Buf(b.bytes[..b.length] + chunk + b.bytes[b.length + |chunk|..], b.length + |chunk|))
    ensures Content(Push(v, b, chunk).value) == Content(b) + chunk
  {
    CopyFits(chunk, b.bytes, b.length);
  }

  /** A push places the chunk at the old length of the reserved buffer. */
  lemma PushPlaces(v: Variant, b: Buf, chunk: seq<byte>)
    requires Wf(v, b) && 0 <= b.length
    ensures var newLen := b.length + |chunk|; var grown := Reserve(v, b, newLen);
      Push(v, b, chunk) == Some(Buf(grown[..b.length] + chunk + grown[newLen..], newLen))
  {
    CopyFits(chunk, Reserve(v, b, b.length + |chunk|), b.length);
  }

  lemma AllZeroSuffix(s: seq<byte>, i: int, j: int)
    requires 0 <= i <= j <= |s| && AllZero(s[i..])
    ensures AllZero(s[j..])
  {
    forall k | 0 <= k < |s| - j
      ensures s[j..][k] == 0
    {
      assert s[j..][k] == s[i..][j - i + k];
    }
  }

  /** The copy of line 165 as written lands past the end of the new buffer
      and leaves it all zero. */
  lemma GrownAsWrittenZero(old_: seq<byte>, cap: nat)
    requires |old_| <= cap
    ensures AllZero(GrownAsWritten(old_, cap))
  {
  }

  /** The corrected copy carries the old bytes to the front of the zeroed
      buffer. */
  lemma GrownCorrectedKeeps(old_: seq<byte>, cap: nat)
    requires |old_| <= cap
    ensures GrownCorrected(old_, cap)[..|old_|] == old_ && AllZero(GrownCorrected(old_, cap)[|old_|..])
  {
    var z := Zeros(cap);
    CopyFits(old_, z, 0);
    var g := GrownCorrected(old_, cap);
    assert g == z[..0] + old_ + z[|old_|..];
    assert g[|old_|..] == z[|old_|..];
  }

  /** Around the chunk, the pushed buffer keeps the reserved bytes. */
  lemma PushKeepsReserved(v: Variant, b: Buf, chunk: seq<byte>)
    requires Wf(v, b) && 0 <= b.length
    ensures var newLen := b.length + |chunk|; var grown := Reserve(v, b, newLen);
      var r := Push(v, b, chunk).value;
      r.bytes[..b.length] == grown[..b.length] && r.bytes[newLen..] == grown[newLen..]
  {
    PushPlaces(v, b, chunk);
  }

  lemma PrefixOfPrefix(g: seq<byte>, s: seq<byte>, k: int)
    requires |s| <= |g| && g[..|s|] == s && 0 <= k <= |s|
    ensures g[..k] == s[..k]
  {
    assert g[..k] == g[..|s|][..k];
  }

  /** With growth, the code as written zero-fills the bytes held before the
      chunk; the capacity is the one the growth loop stops at. */
  lemma PushWithGrowthAsWritten(b: Buf, chunk: seq<byte>)
    requires Wf(AsWritten, b) && 0 <= b.length && b.length + |chunk| > |b.bytes|
    ensures var r := Push(AsWritten, b, chunk).value;
      |r.bytes| == GrowCap(|b.bytes|, r.length) &&
      AllZero(r.bytes[..b.length]) && AllZero(r.bytes[r.length..])
  {
    var newLen := b.length + |chunk|;
    var grown := Reserve(AsWritten, b, newLen);
    PushKeepsReserved(AsWritten, b, chunk);
    GrownAsWrittenZero(b.bytes, GrowCap(|b.bytes|, newLen));
    AllZeroSuffix(grown, 0, newLen);
  }

  /** With growth, the corrected copy carries the held bytes over. */
  lemma PushWithGrowthCorrected(b: Buf, chunk: seq<byte>)
    requires Wf(Corrected, b) && b.length + |chunk| > |b.bytes|
    ensures var r := Push(Corrected, b, chunk).value;
      |r.bytes| == GrowCap(|b.bytes|, r.length) &&
      r.bytes[..b.length] == b.bytes[..b.length] && AllZero(r.bytes[r.length..])
  {
    var newLen := b.length + |chunk|;
    var grown := Reserve(Corrected, b, newLen);
    PushKeepsReserved(Corrected, b, chunk);
    GrownCorrectedKeeps(b.bytes, GrowCap(|b.bytes|, newLen));
    PrefixOfPrefix(grown, b.bytes, b.length);
    AllZeroSuffix(grown, |b.bytes|, newLen);
  }

  /** The code as written appends the chunk to the contents exactly when no
      growth is needed or every held byte is zero. */
  lemma PushAppendsIff(b: Buf, chunk: seq<byte>)
    requires Wf(AsWritten, b) && 0 <= b.length
    ensures Content(Push(AsWritten, b, chunk).value) == Content(b) + chunk
        <==> b.length + |chunk| <= |b.bytes| || AllZero(Content(b))
  {
    if b.length + |chunk| <= |b.bytes| {
      PushWithoutGrowth(AsWritten, b, chunk);
    } else {
      PushWithGrowthAsWritten(b, chunk);
      var r := Push(AsWritten, b, chunk).value;
      assert Content(r) == r.bytes[..b.length] + chunk;
      if AllZero(Content(b)) {
        assert r.bytes[..b.length] == Content(b);
      }
      if Content(r) == Content(b) + chunk {
        assert Content(b) == Content(r)[..b.length];
      }
    }
  }

  /** The corrected push always appends the chunk to the contents. */
  lemma PushCorrectedAppends(b: Buf, chunk: seq<byte>)
    requires Wf(Corrected, b)
    ensures Content(Push(Corrected, b, chunk).value) == Content(b) + chunk
  {
    if b.length + |chunk| <= |b.bytes| {
      PushWithoutGrowth(Corrected, b, chunk);
    } else {
      PushWithGrowthCorrected(b, chunk);
      var r := Push(Corrected, b, chunk).value;
      assert Content(r) == r.bytes[..b.length] + chunk;
    }
  }

  // ---------------------------------------------------------------------
  // popBuf (lines 176-179)

  /** `popBuf(buf, len)`: `copyWithin(0, len, buf.length)`, then the length
      drops by `len`, whether or not `len` exceeds it. */
  function Pop(b: Buf, len: int): (r: Buf)
    ensures |r.bytes| == |b.bytes| && r.length == b.length - len
  {
    Buf(CopyWithin(b.bytes, 0, len, b.length), b.length - len)
  }

  /** Within the length, pop shifts the remaining contents to the front and
      leaves the bytes from the new length on as they were. */
  lemma PopShifts(b: Buf, len: int)
    requires 0 <= len <= b.length <= |b.bytes|
    ensures |Pop(b, len).bytes| == |b.bytes|
    ensures Pop(b, len).length == b.length - len
    ensures Content(Pop(b, len)) == b.bytes[len..b.length]
    ensures Pop(b, len).bytes[b.length - len..] == b.bytes[b.length - len..]
  {
  }

  // ---------------------------------------------------------------------
  // getMessage (lines 184-192)

  datatype Extracted = NoMessage | Message(msg: seq<byte>, rest: Buf)

  /** Line 186 as written: `buf.data.indexOf('\n')` over the whole backing
      buffer. */
  function NewlineIndex(b: Buf): int
  {
    IndexOf(b.bytes, NEWLINE)
  }

  /** Line 186 as evidently intended: the search covers [0, length) only. */
  function NewlineIndexCorrected(b: Buf): int
    requires 0 <= b.length <= |b.bytes|
  {
    IndexOf(Content(b), NEWLINE)
  }

  /** `getMessage(buf)`: no message when the length is 0 or no newline is
      found; otherwise the bytes up to and including the newline, popped
      off the buffer. */
  function Extract(v: Variant, b: Buf): (r: Extracted)
    requires Wf(v, b)
    ensures r.Message? ==> Wf(v, r.rest) && |r.rest.bytes| == |b.bytes|
    ensures r.Message? ==> |r.msg| > 0 && r.msg[|r.msg| - 1] == NEWLINE && NEWLINE !in r.msg[..|r.msg| - 1]
  {
    if b.length == 0 then NoMessage
    else
      var i := match v
        case AsWritten => NewlineIndex(b)
        case Corrected => NewlineIndexCorrected(b);
      if i == -1 then NoMessage
      else
        assert b.bytes[..i + 1][..i] == b.bytes[..i];
        assert v == Corrected ==> b.bytes[..i] == Content(b)[..i];
        Message(b.bytes[..i + 1], Pop(b, i + 1))
  }

  /** As written, `getMessage` returns null, leaving the buffer alone, exactly
      when the length is 0 or the backing buffer holds no newline at all. */
  lemma ExtractNothingIff(b: Buf)
    requires Wf(AsWritten, b)
    ensures Extract(AsWritten, b) == NoMessage <==> b.length == 0 || NEWLINE !in b.bytes
  {
  }

  /** A first newline at `n - 1` ends the message `getMessage` takes out
      (for the corrected search, only within the length). */
  lemma ExtractAt(v: Variant, b: Buf, n: int)
    requires Wf(v, b) && 0 < b.length && 0 < n <= |b.bytes|
    requires b.bytes[n - 1] == NEWLINE && NEWLINE !in b.bytes[..n - 1]
    requires v == Corrected ==> n <= b.length
    ensures Extract(v, b) == Message(b.bytes[..n], Pop(b, n))
  {
    IndexOfFirst(b.bytes, NEWLINE, n - 1);
    if v == Corrected {
      assert Content(b)[..n - 1] == b.bytes[..n - 1];
      IndexOfFirst(Content(b), NEWLINE, n - 1);
    }
  }

  /** When the first newline lies within the length, the message is the
      contents up to and including it, and the buffer keeps the rest. */
  lemma ExtractWithinLength(v: Variant, b: Buf)
    requires Wf(v, b) && 0 < b.length
    requires 0 <= NewlineIndex(b) < b.length
    ensures var i := NewlineIndex(b);
      Extract(v, b).Message? &&
      Extract(v, b).msg == Content(b)[..i + 1] &&
      0 <= Extract(v, b).rest.length &&
      Content(Extract(v, b).rest) == Content(b)[i + 1..]
  {
    var i := NewlineIndex(b);
    ExtractAt(v, b, i + 1);
    assert Content(b)[..i + 1] == b.bytes[..i + 1];
    PopShifts(b, i + 1);
  }

  /** When the first newline of the backing buffer lies past the length (a
      byte left behind by an earlier pop), the code as written returns the
      contents followed by stale bytes as a message, and the length goes
      negative. */
  lemma ExtractStale(b: Buf)
    requires Wf(AsWritten, b) && 0 < b.length
    requires NewlineIndex(b) >= b.length
    ensures var i := NewlineIndex(b);
      Extract(AsWritten, b) == Message(Content(b) + b.bytes[b.length..i + 1], Pop(b, i + 1)) &&
      Pop(b, i + 1).length < 0
  {
    var i := NewlineIndex(b);
    assert b.bytes[..i + 1] == Content(b) + b.bytes[b.length..i + 1];
  }

  lemma SplitAt(s: seq<byte>, k: int)
    requires 0 <= k <= |s|
    ensures s == s[..k] + s[k..]
  {
  }

  /** The corrected `getMessage` finds no message exactly when the contents
      hold no newline. */
  lemma ExtractCorrectedNothingIff(b: Buf)
    requires Wf(Corrected, b)
    ensures Extract(Corrected, b) == NoMessage <==> NEWLINE !in Content(b)
  {
    if b.length == 0 {
      assert Content(b) == [];
    }
  }

  /** The message the corrected `getMessage` takes out is the contents up
      to the first newline, and the remaining contents follow it. */
  lemma ExtractCorrectedMessage(b: Buf)
    requires Wf(Corrected, b) && NEWLINE in Content(b)
    ensures var c := Content(b); var i := IndexOf(c, NEWLINE);
      Extract(Corrected, b) == Message(c[..i + 1], Pop(b, i + 1)) &&
      Content(Pop(b, i + 1)) == c[i + 1..] && c == c[..i + 1] + Content(Pop(b, i + 1))
  {
    var c := Content(b);
    var i := IndexOf(c, NEWLINE);
    assert b.bytes[..i] == c[..i];
    ExtractAt(Corrected, b, i + 1);
    assert b.bytes[..i + 1] == c[..i + 1];
    PopShifts(b, i + 1);
    SplitAt(c, i + 1);
  }

  /** The corrected `getMessage` splits the contents: no message exactly when
      the contents hold no newline, otherwise the message followed by the
      remaining contents is the old contents. */
  lemma ExtractCorrectedSplits(b: Buf)
    requires Wf(Corrected, b)
    ensures Extract(Corrected, b) == NoMessage <==> NEWLINE !in Content(b)
    ensures Extract(Corrected, b).Message? ==>
      Content(b) == Extract(Corrected, b).msg + Content(Extract(Corrected, b).rest)
  {
    ExtractCorrectedNothingIff(b);
    if NEWLINE in Content(b) {
      ExtractCorrectedMessage(b);
    }
  }

  // ---------------------------------------------------------------------
  // The buffer object

  /** Copies `source[sourceStart..]` into `target` from `targetStart` on, in
      place, as `Buffer.copy` does; false (target untouched) where Node
      throws a RangeError. */
  method CopyBytes(source: seq<byte>, target: array<byte>, targetStart: int, sourceStart: int) returns (ok: bool)
    modifies target
    ensures ok <==> BufferCopy(source, old(target[..]), targetStart, sourceStart).Some?
    ensures ok ==> target[..] == BufferCopy(source, old(target[..]), targetStart, sourceStart).value
    ensures !ok ==> target[..] == old(target[..])
  {
    if targetStart < 0 || sourceStart < 0 || sourceStart > |source| {
      return false;
    }
    ok := true;
    if targetStart >= target.Length || sourceStart >= |source| {
      return;
    }
    var n := Min(|source| - sourceStart, target.Length - targetStart);
    for k := 0 to n
      invariant forall i :: 0 <= i < target.Length ==>
        target[i] == if targetStart <= i < targetStart + k then source[sourceStart + i - targetStart] else old(target[i])
    {
      target[targetStart + k] := source[sourceStart + k];
    }
    ghost var want := old(target[..])[..targetStart] + source[sourceStart..sourceStart + n] + old(target[..])[targetStart + n..];
    assert |want| == target.Length;
    forall i | 0 <= i < target.Length
      ensures target[..][i] == want[i]
    {
      if i < targetStart {
      } else if i < targetStart + n {
        assert want[i] == source[sourceStart..sourceStart + n][i - targetStart];
      } else {
        assert want[i] == old(target[..])[targetStart + n..][i - targetStart - n];
      }
    }
    assert target[..] == want;
  }

  /** `copyWithin(0, start, end)` moves the clamped range to the front. */
  lemma CopyWithinFrontIs(s: seq<byte>, start: int, end: int)
    requires Clamp(end, |s|) - Clamp(start, |s|) > 0
    ensures CopyWithin(s, 0, start, end) ==
      s[Clamp(start, |s|)..Clamp(end, |s|)] + s[Clamp(end, |s|) - Clamp(start, |s|)..]
  {
    var from, final := Clamp(start, |s|), Clamp(end, |s|);
    assert Clamp(0, |s|) == 0 && Min(final - from, |s|) == final - from;
    assert s[..0] + s[from..final] == s[from..final];
  }

  /** `a.copyWithin(0, start, end)` in place. The target offset 0 is at or
      before every source offset, so copying upwards never reads a byte it
      has already overwritten. */
  method CopyWithinFront(a: array<byte>, start: int, end: int)
    modifies a
    ensures a[..] == CopyWithin(old(a[..]), 0, start, end)
  {
    var from, final := Clamp(start, a.Length), Clamp(end, a.Length);
    var count := final - from;
    if count <= 0 {
      return;
    }
    ghost var s := a[..];
    for k := 0 to count
      invariant forall i :: 0 <= i < k ==> a[i] == s[from + i]
      invariant forall i :: k <= i < a.Length ==> a[i] == s[i]
    {
      a[k] := a[from + k];
    }
    CopyWithinFrontIs(s, start, end);
    ghost var want := s[from..final] + s[count..];
    forall i | 0 <= i < a.Length
      ensures a[..][i] == want[i]
    {
      if i < count {
        assert want[i] == s[from..final][i];
      } else {
        assert want[i] == s[count..][i - count];
      }
    }
    assert a[..] == want;
  }

  /** The per-connection buffer of `serveClient`, as the code is written. */
  class DynBuf {
    var data: array<byte>
    var length: int

    function State(): Buf
      reads this, data
    {
      Buf(data[..], length)
    }

    constructor ()
      ensures State() == EMPTY && fresh(data)
    {
      data := new byte[0];
      length := 0;
    }

    /** The growth block of `pushBuf` (lines 158-167): double plus one until
        `newLen` fits, then the copy of line 165. */
    method Grow(newLen: int)
      modifies this
      ensures data == old(data) || fresh(data)
      ensures length == old(length)
      ensures data[..] == Reserve(AsWritten, old(State()), newLen)
    {
      if newLen > data.Length {
        var cap := data.Length;
        while cap < newLen
          invariant data.Length <= cap
          invariant GrowCap(cap, newLen) == GrowCap(data.Length, newLen)
          decreases newLen - cap
        {
          cap := cap * 2 + 1;
        }
        var newBuffer := new byte[cap](_ => 0);
        assert newBuffer[..] == Zeros(cap);
        var copied := CopyBytes(data[..], newBuffer, newBuffer.Length, data.Length);
        data := newBuffer;
      }
    }

    /** `pushBuf(buf, chunk)`. On a RangeError from the second copy the grown
        buffer is already installed and the length is unchanged. */
    method PushBuf(chunk: seq<byte>) returns (ok: bool)
      requires Wf(AsWritten, State())
      modifies this, data
      ensures data == old(data) || fresh(data)
      ensures ok <==> 0 <= old(length)
      ensures ok ==> Push(AsWritten, old(State()), chunk) == Some(State())
      ensures !ok ==> State() == Buf(Reserve(AsWritten, old(State()), old(length) + |chunk|), old(length))
    {
      var newLen := length + |chunk|;
      Grow(newLen);
      ok := CopyBytes(chunk, data, length, 0);
      if ok {
        length := newLen;
      }
    }

    /** `popBuf(buf, len)`. */
    method PopBuf(len: int)
      modifies this`length, data
      ensures State() == Pop(old(State()), len)
    {
      CopyWithinFront(data, len, length);
      length := length - len;
    }

    /** `getMessage(buf)`: the message is a copy, unaffected by the pop. */
    method GetMessage() returns (msg: Option<seq<byte>>)
      requires Wf(AsWritten, State())
      modifies this`length, data
      ensures Wf(AsWritten, State())
      ensures match Extract(AsWritten, old(State()))
        case NoMessage => msg == None && State() == old(State())
        case Message(m, rest) => msg == Some(m) && State() == rest
    {
      if length == 0 {
        return None;
      }
      var endIndex := IndexOf(data[..], NEWLINE);
      if endIndex == -1 {
        return None;
      }
      msg := Some(data[..endIndex + 1]);
      PopBuf(endIndex + 1);
    }
  }
}
