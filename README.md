# Echo server connection core, in Dafny

This project models the per-connection logic of a small TypeScript TCP echo
server (`echoSever_v3.ts`, with the earlier draft `echoSever_v2.ts`) and
proves properties of the model. It has three parts.

- **`DynBuf`** (`dynbuf.dfy`, module `DynBuffer`). This is the byte
  accumulator of v3.
  - `pushBuf` grows the backing `Buffer` by `cap = cap * 2 + 1` and copies
    the chunk in.
  - `popBuf` shifts the consumed prefix out with `copyWithin`.
  - `getMessage` takes out the first newline-terminated message.
  - The class `DynBuf` keeps the backing buffer in an `array<byte>` and a
    `length` field and updates them in place. Each of its methods is proved
    equal to a function on snapshots (`Buf`).
  - `Variant` selects the code as written or the corrected code for the two
    defects listed under "Findings".
- **`TCPConn`** (`conn.dfy`, module `Conn`). This adapter turns socket
  events into one read or write promise at a time; the code is the same in
  both drafts.
  - A promise is modelled by the transition that creates or settles it.
  - `soRead`, `soWrite` and the `data`, `end` and `error` handlers are
    functions on a `ConnState`, and the same methods on the classes
    `TCPConn` and `Socket`.
  - The invariant is that the socket flows exactly while the single reader
    slot is filled.
- **`serveClient` and `newConn`** (`serve_v3.dfy` and `serve_v2.dfy`). Each
  loop is driven by two supplied sequences, in order: `inputs`, the results
  the read promises settle with, and `acks`, the results of the write
  promises.
  - A run is a `Transcript`: the calls made, and whether the loop returned,
    threw, or is still waiting.
  - v3 drains the buffer before each read. It answers `quit\n` with
    `Goodbye\n` and returns. It answers any other line with `Echo: ` and the
    line, and returns silently on an empty read.
  - v2 writes back every chunk unchanged. It stops on an empty chunk or on
    one that trims to `quit`.
  - `ServeClient` is the loop itself, over the `DynBuf` class in v3. It is
    proved equal to the value-level `Session`, and the properties are proved
    about `Session`.

`common.dfy` holds the bytes, the fixed messages, `Buffer.indexOf` and
`String.prototype.trim` on ASCII bytes.

Two lines of `echoSever_v3.ts` do not do what the code around them
evidently relies on. The model follows the code as written; the corrected
variant does what that code relies on.
- The loop treats `length` as the end of the held bytes, but line 186
  searches the whole backing buffer, past `length`.
- Line 165 evidently means to carry the held bytes over into the grown
  buffer, but it copies them to the new buffer's own end, which copies
  nothing.

## Model

| member | source | states |
|---|---|---|
| Common.IndexOf | echoSever_v3.ts:186 | -1 exactly when the byte is absent; otherwise the byte is at the result and at no earlier index |
| Common.Trim | echoSever_v2.ts:107 | `data.toString().trim()` on ASCII bytes; characterised by TrimSplits and TrimOfPadded |
| Common.TrimSplits | echoSever_v2.ts:107 | trimming leaves no white space at either end, and the chunk is leading white space, the trimmed text and trailing white space |
| Common.TrimOfPadded | echoSever_v2.ts:107 | a trimmed text padded with white space on both sides trims back to itself |
| Common.TrimIsQuitIff | echoSever_v2.ts:107 | a chunk trims to `quit` exactly when it is `quit` with white space around it |
| DynBuffer.GrowCap | echoSever_v3.ts:158-164 | the capacity reached is at least the needed length and the old capacity, is unchanged when the data fits, and is below twice the needed length after growth |
| DynBuffer.GrowCapIsFirstSufficient | echoSever_v3.ts:158-164 | the capacity reached is an iterate of `cap * 2 + 1` from the old capacity, and the first one that is large enough |
| DynBuffer.DynBuf.Grow | echoSever_v3.ts:158-167 | the growth loop ends with the backing array equal to the buffer the growth block leaves as written (`Reserve(AsWritten, …)`), and the length unchanged |
| DynBuffer.BufferCopy | echoSever_v3.ts:165-169 | `Buffer.copy` throws exactly for a negative target start or a source start outside the source, and keeps the target's size |
| DynBuffer.Reserve | echoSever_v3.ts:159-167 | the backing buffer after the growth block: unchanged when the data fits, else of the capacity the growth loop stops at |
| DynBuffer.CopyFits | echoSever_v3.ts:169 | a copy into enough room puts the source at the target start and leaves every other byte alone |
| DynBuffer.CopyBytes | echoSever_v3.ts:165-169 | the in-place copy loop succeeds exactly when `Buffer.copy` does not throw, leaves the array equal to its result, and changes nothing when it throws |
| DynBuffer.Push | echoSever_v3.ts:157-171 | the push fails exactly when the length is negative; otherwise the length grows by the chunk's size, the chunk sits at the old length and the capacity is the reserved one |
| DynBuffer.PushWithoutGrowth | echoSever_v3.ts:168-170 | without growth, the bytes before the old length and after the chunk are unchanged, and the contents become the old contents followed by the chunk |
| DynBuffer.PushWithGrowthAsWritten | echoSever_v3.ts:159-167 | with growth, as written, the capacity is the first sufficient one and every byte held before the chunk is zero |
| DynBuffer.PushWithGrowthCorrected | echoSever_v3.ts:159-167 | with growth, the corrected copy keeps the bytes held before the chunk |
| DynBuffer.PushAppendsIff | echoSever_v3.ts:157-171 | as written, a push appends the chunk to the contents exactly when no growth is needed or every held byte is zero |
| DynBuffer.PushCorrectedAppends | echoSever_v3.ts:157-171 | the corrected push always appends the chunk to the contents |
| DynBuffer.DynBuf.PushBuf | echoSever_v3.ts:157-171 | in place: it succeeds exactly when the old length is not negative; the new state is the push's result; on the RangeError the grown buffer is installed and the length is unchanged |
| DynBuffer.CopyWithinFront | echoSever_v3.ts:177 | the in-place `copyWithin(0, start, end)` leaves the array equal to the clamped copy of the old bytes |
| DynBuffer.CopyWithin | echoSever_v3.ts:177 | TypedArray `copyWithin` with its index clamping; keeps the buffer's length |
| DynBuffer.Pop | echoSever_v3.ts:176-179 | `popBuf`: keeps the capacity and lowers the length by `len`, unchecked |
| DynBuffer.PopShifts | echoSever_v3.ts:176-179 | for `len <= length`: the length drops by `len`, the contents become the old bytes from `len` to the old length, and the bytes from the new length on are unchanged |
| DynBuffer.DynBuf.PopBuf | echoSever_v3.ts:176-179 | in place: the new state is the pop of the old one, whether or not `len` exceeds the length |
| DynBuffer.Extract | echoSever_v3.ts:184-192 | a message ends in a newline and holds no other; the remaining buffer is well formed and keeps its capacity |
| DynBuffer.ExtractNothingIff | echoSever_v3.ts:185-187 | as written, no message exactly when the length is 0 or the backing buffer holds no newline |
| DynBuffer.ExtractAt | echoSever_v3.ts:186-190 | a first newline at `n - 1` gives the message of the first `n` bytes and the buffer popped by `n` |
| DynBuffer.ExtractWithinLength | echoSever_v3.ts:186-191 | when the first newline lies within the length, the message is the contents up to it and the remaining contents are the rest |
| DynBuffer.ExtractStale | echoSever_v3.ts:186-190 | when the first newline lies past the length, the message is the contents plus stale bytes and the length becomes negative |
| DynBuffer.ExtractCorrectedNothingIff | echoSever_v3.ts:184-187 | the corrected search finds no message exactly when the contents hold no newline |
| DynBuffer.ExtractCorrectedMessage | echoSever_v3.ts:186-191 | the corrected message is the contents up to the first newline, and the rest of the contents follows it |
| DynBuffer.ExtractCorrectedSplits | echoSever_v3.ts:184-192 | the corrected search finds nothing exactly when there is no newline; otherwise the message with the remaining contents is the old contents |
| DynBuffer.DynBuf.GetMessage | echoSever_v3.ts:184-192 | in place: null with the state unchanged when there is no message, otherwise the message and the popped state |
| DynBuffer.DynBuf.constructor | echoSever_v3.ts:213 | a fresh empty buffer |
| Conn.Step | echoSever_v2.ts:4-91 | every call and event keeps the invariant that a read is pending exactly while the socket flows |
| Conn.Inv | echoSever_v2.ts:28-73 | the adapter's invariant: a read is pending exactly while the socket flows |
| Conn.InitInv | echoSever_v2.ts:23-26 | the state after `soInit` on a socket accepted paused (line 165) meets the invariant, with no read pending |
| Conn.ReadStep | echoSever_v2.ts:58-73 | `soRead`: the latches and the sent data are unchanged; no promise settles exactly when there is no error and no end of stream, and then the slot is filled and the socket flows; otherwise the state is unchanged and the read settles |
| Conn.DataStep | echoSever_v2.ts:28-38 | the `data` handler: the slot is emptied, the socket stops flowing, and the read settles with the chunk |
| Conn.EndStep | echoSever_v2.ts:40-46 | the `end` handler: `ended` is latched, the socket stops flowing, and a read settles with an empty chunk exactly when one is pending |
| Conn.ErrorStep | echoSever_v2.ts:48-54 | the `error` handler: the error is latched, the socket stops flowing, and a read is rejected with it exactly when one is pending |
| Conn.WriteStep | echoSever_v2.ts:75-91 | `soWrite`: only `sent` changes, by the data exactly when no error is latched; the write settles with the callback's result, or with the latched error |
| Conn.Run | echoSever_v2.ts:4-91 | the invariant holds after any admissible sequence, and each call or event settles at most one promise |
| Conn.RunLatches | echoSever_v2.ts:40-54 | `ended` and `err` are never reset, and nothing handed to the socket is taken back |
| Conn.ErrorPoisons | echoSever_v2.ts:48-54 | once an error is latched, every later read and write is rejected and nothing more reaches the socket |
| Conn.EndedReadsEmpty | echoSever_v2.ts:66-69 | after end of stream, with no error, every read resolves at once with an empty chunk |
| Conn.WritesReachSocket | echoSever_v2.ts:83-89 | without an error, the data of every write reaches the socket, in order |
| Conn.WritesSettle | echoSever_v2.ts:83-89 | without an error, every write settles with what its callback reports |
| Conn.ReadsSettleOnce | echoSever_v2.ts:28-73 | reads started plus one pending at the start equal reads settled plus one pending at the end |
| Conn.TCPConn.constructor | echoSever_v2.ts:23-26 | `soInit` on a socket accepted paused and not yet written to: no error, not ended, no reader; the state is the initial one, which meets the invariant |
| Conn.Socket.constructor | echoSever_v2.ts:165 | a socket accepted with `pauseOnConnect: true`: paused, not destroyed, nothing written |
| Conn.Socket.Pause | echoSever_v2.ts:31 | `socket.pause()`: the socket is paused |
| Conn.Socket.Resume | echoSever_v2.ts:71 | `socket.resume()`: the socket is no longer paused |
| Conn.Socket.Write | echoSever_v2.ts:83-89 | `socket.write(data, callback)`: the data is appended to what was written, and the callback's result is returned |
| Conn.Socket.Destroy | echoSever_v2.ts:100 | `socket.destroy()`: the socket is destroyed |
| Conn.TCPConn.SoRead | echoSever_v2.ts:58-73 | in place, the read transition: reject on an error, else an empty chunk at end of stream, else fill the slot and resume |
| Conn.TCPConn.OnData | echoSever_v2.ts:28-38 | in place, the `data` transition: pause, resolve the reader with the chunk, clear the slot |
| Conn.TCPConn.OnEnd | echoSever_v2.ts:40-46 | in place, the `end` transition: latch `ended`, resolve a pending reader with an empty chunk |
| Conn.TCPConn.OnError | echoSever_v2.ts:48-54 | in place, the `error` transition: latch the error, reject a pending reader with it |
| Conn.TCPConn.SoWrite | echoSever_v2.ts:75-91 | in place, the write transition: reject on a latched error, else hand the data to the socket and settle with the callback's result |
| ServeV3.Session | echoSever_v3.ts:211-236 | the run of the loop from a buffer, driven by the settled read and write results in order; specifies `ServeClient` and is characterised by the lemmas below |
| ServeV3.Answer | echoSever_v3.ts:227-232 | the reply to a message: `Goodbye\n` for `quit\n`, `Echo: ` and the message otherwise; characterised by AnswerIsResponse |
| ServeV3.SessionAnswersFirst | echoSever_v3.ts:214-232 | when the buffer holds a message, the loop's next call writes the answer to it |
| ServeV3.SessionAfterRead | echoSever_v3.ts:215-224 | with no message held, a failed read throws, an empty read returns, a RangeError push throws, and otherwise the chunk is pushed and the loop goes on |
| ServeV3.SessionAfterWrite | echoSever_v3.ts:226-233 | with a message held, one write of its answer; `quit\n` then returns, and any other message goes on with the rest of the buffer; a failed write throws |
| ServeV3.ReadRound | echoSever_v3.ts:216-224 | the read side of the loop body keeps the loop's progress or ends with the whole run |
| ServeV3.WriteRound | echoSever_v3.ts:226-233 | the write side of the loop body keeps the loop's progress or ends with the whole run |
| ServeV3.ServeClient | echoSever_v3.ts:211-236 | the loop over the `DynBuf` class makes exactly the calls of the value-level run, and ends the same way |
| ServeV3.NewConn | echoSever_v3.ts:197-206 | the socket is destroyed whenever the loop has returned or thrown, and not touched while it still waits |
| ServeV3.AnswerIsResponse | echoSever_v3.ts:227-232 | a line is answered with `Goodbye\n` exactly when it is `quit\n`, and with `Echo: ` and the line otherwise |
| ServeV3.SessionWellFormed | echoSever_v3.ts:214-236 | every write is `Goodbye\n` or `Echo: ` and a line; `Goodbye\n` only comes last; a return follows `Goodbye\n` or a read |
| ServeV3.DrainBeforeRead | echoSever_v3.ts:214-224 | the loop's first call is a read exactly when the buffer holds no message; the calls up to the first read do not depend on what the reads return |
| ServeV3.DrainsInOrder | echoSever_v3.ts:214-236 | with the corrected buffer, lines held in the buffer, none `quit\n`, are answered one by one and in order, and then the loop reads |
| ServeV3.TwoLinesAsWritten | echoSever_v3.ts:214-236 | as written, `a\nb\n` in one read gives `Echo: a\n`, then `Echo: b\n`, then the next read |
| ServeV3.TwoLinesCorrected | echoSever_v3.ts:214-236 | with the corrected buffer, the same read gives the same three calls |
| ServeV3.SessionDependsOnContent | echoSever_v3.ts:214-236 | with the corrected buffer, a run depends on the buffer only through its contents |
| ServeV3.SplitReadsJoin | echoSever_v3.ts:214-236 | with the corrected buffer, a line split over two reads gives the run of the joined read with one more read in front |
| ServeV3.GrowingLineAsWritten | echoSever_v3.ts:159-190 | as written, a line whose push grows the buffer comes out behind as many zero bytes as were held |
| ServeV3.SplitMessageAsWritten | echoSever_v3.ts:165 | as written, a split line whose second part makes the buffer grow is echoed with zeros in place of the first part |
| ServeV3.SplitMessageCorrected | echoSever_v3.ts:214-236 | with the corrected buffer, the same reads echo the whole line |
| ServeV3.HelloSplitAsWritten | echoSever_v3.ts:165 | `he` then `llo\n` is echoed, as written, as `Echo: ` with two zero bytes and `llo\n` |
| ServeV3.HelloSplitCorrected | echoSever_v3.ts:165 | with the corrected copy, the same reads give `Echo: hello\n` |
| ServeV3.LineIntoFresh | echoSever_v3.ts:184-192 | a line pushed into the empty buffer comes straight out; the backing buffer keeps its bytes and the length returns to 0 |
| ServeV3.StaleLineAsWritten | echoSever_v3.ts:177-186 | as written, a short chunk without a newline after a line is completed by that line's stale newline |
| ServeV3.StaleNewlineAsWritten | echoSever_v3.ts:186 | as written, a line followed by a shorter chunk gives a second echo, of a line the client never finished |
| ServeV3.StaleNewlineCorrected | echoSever_v3.ts:186 | with the corrected search, the same reads give a third read instead |
| ServeV3.StaleExampleAsWritten | echoSever_v3.ts:186 | `a\n` then `x` is answered, as written, with `Echo: x\n` |
| ServeV3.StaleExampleCorrected | echoSever_v3.ts:186 | with the corrected search, the fourth call is a read |
| ServeV2.Stops | echoSever_v2.ts:107 | the loop's stop condition: an empty chunk, or one that trims to `quit`; characterised by StopsIff |
| ServeV2.Session | echoSever_v2.ts:103-115 | the run of the loop; it makes at least one call, at most two per read result plus one, and at most two per write result plus two |
| ServeV2.SessionRound | echoSever_v2.ts:105-113 | one round: a failed read throws; a stopping chunk returns; otherwise one write of the chunk, which throws when it fails and goes on when it succeeds |
| ServeV2.Round | echoSever_v2.ts:105-114 | the loop body keeps the loop's progress or ends with the whole run |
| ServeV2.ServeClient | echoSever_v2.ts:103-115 | the loop makes exactly the calls of the value-level run, and ends the same way |
| ServeV2.NewConn | echoSever_v2.ts:93-102 | the socket is destroyed whenever the loop has returned or thrown, and not touched while it still waits |
| ServeV2.EchoesUnchanged | echoSever_v2.ts:105-114 | reads and writes alternate, and each write is the chunk just read, unchanged, and never a stopping chunk |
| ServeV2.ReturnsIff | echoSever_v2.ts:105-114 | the loop returns exactly when some chunk stops it after every earlier chunk was written back successfully |
| ServeV2.StopsIff | echoSever_v2.ts:107 | a chunk stops the loop exactly when it is empty or is `quit` with white space around it |

## Left out

- Listening and accepting (`soListen`, `soAccept`, `listenForClient`, the
  server setup at echoSever_v3.ts:106-144 and 241-259, and the same code in
  echoSever_v2.ts) is socket plumbing with no state of its own. echoSever.js
  is not part of this model.
- Console output (`console.log`, `console.error`) is left out.
- `console.assert` only logs in Node. The model treats its two conditions as
  what callers must meet: no read while one is pending, and no empty write.
- Promises, `await` and the event loop are replaced by transitions. The loops
  take the settled results as input, in order, instead of driving `TCPConn`
  themselves. Timing and the interleaving of socket events are not modelled.
- `Conn.Admissible` assumes what Node guarantees. `data` events carry
  non-empty chunks and come only while the socket flows.
- `Socket` models only the paused flag, the written chunks and `destroy`.
- `Buffer` is modelled only as plain byte copying (`copy`, `copyWithin`,
  `indexOf`, `alloc`).
- Common.Trim: removes only the ASCII white space of JavaScript's `trim`.
  The UTF-8 decoding of `toString` and the non-ASCII white space it could
  expose are not modelled.
- ServeV3.ServeClient, ServeV2.ServeClient: each run is bounded by the
  supplied results. A loop that would go on forever, which the code as
  written can do once its length is negative, is cut off when the
  acknowledgements run out.
- ServeV3.NewConn, ServeV2.NewConn: the model does not capture that the
  exception is swallowed; only the socket's destruction is stated.

## Findings

| source | as written | input that shows it | evidently intended | confidence | as-written member | corrected member |
|---|---|---|---|---|---|---|
| echoSever_v3.ts:165 | the old bytes are copied to the new buffer's own end, so nothing is copied and growth zero-fills the unconsumed bytes | reads `he` then `llo\n`: the echo is `Echo: ` with two zero bytes and `llo\n` | copy the old bytes to offset 0 of the new buffer | not executed | ServeV3.HelloSplitAsWritten | ServeV3.HelloSplitCorrected |
| echoSever_v3.ts:186 | the newline search covers the whole backing buffer, so a stale newline past the length ends a message and the length goes negative | reads `a\n` then `x`: the second echo is `Echo: x\n` | search only the bytes before the length | not executed | ServeV3.StaleExampleAsWritten | ServeV3.StaleExampleCorrected |

For the first row:
- DynBuffer.PushAppendsIff and ServeV3.SplitMessageAsWritten state the
  general form of the defect.
- DynBuffer.PushCorrectedAppends and ServeV3.SplitReadsJoin prove the
  intended property of the corrected code.

For the second row:
- DynBuffer.ExtractStale and ServeV3.StaleNewlineAsWritten state the general
  form.
- DynBuffer.ExtractCorrectedSplits and ServeV3.StaleNewlineCorrected prove
  the corrected one.
