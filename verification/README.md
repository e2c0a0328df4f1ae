# The JavaScript core of Node 0.9, modelled and proved in Dafny

Node's runtime library hides several small state machines behind everyday calls. This project models eight of
them, each in the form its source has (loops, classes with fields that methods change, arrays), and proves what
they are for:

- **Punycode** (`Ucs2`, `Punycode`, `PunycodeRoundTrip`, `PunycodeStandard`, `PunycodeCounts`, `PunycodeLoops`). The
  loops of `encode` and `decode` compute specification functions; the specification of the decoder undoes that of the
  encoder. The central invariant, `InStep`, says that the decoder's output is exactly the subsequence of code points the
  encoder has handled and that adding `delta` to its `i` moves it to the encoder's position. `PunycodeStandard` says with
  the constants of RFC 3492 what both compute: the one list of deltas that plays to the text, as variable-length integers.
- **Streams** (`Readable`, `Writable`, `PassThrough`, `PassThroughView`, `PassThroughEnds`). `_read`, `_write` and
  listeners are arbitrary: each may call back at once or later. Writable is an exactly-once FIFO with back-pressure that
  is not forgotten, Readable conserves bytes, and `PassThrough` joins both through Transform, with all the calls between
  the halves. `PassThroughView` has the same machine as functions of a script, the calls of `read` that listeners make
  each time 'readable' is emitted; the methods of `PassThrough` are proved to compute them for every script that the
  stream admits, and `PassThroughEnds` proves on them when 'end' is emitted.
- **HTTP** (`HttpChunked`, `HttpPipeline`, `HttpEncodings`, `HttpAgent`). Pipelined responses reach the socket in
  request order however handlers interleave; chunked bodies decode to what was written, and the hot path of `end` equals
  the slow one; joining buffered strings keeps their bytes under an exact condition on their encodings; the client pool
  never exceeds its limit and serves its queue in order.
- **StringDecoder** (`Encodings`, `StringDecoder`). Decoding in pieces equals decoding at once.
- **Idle timers** (`LinkList`, `TimerLists`, `TimerRings`, `Timers`). All lists are rings of linked nodes on one heap,
  and the operations of the linked list, moving items between rings, refine sequences of entries; one shared watcher per
  timeout does what a timer per item would.
- **nextTick** (`NextTick`). Callbacks run once and in order, under throwing, re-queueing and re-entering.
- **Paths** (`Path`, `PathAlgebra`). The backward scan equals a stack; `normalize` is idempotent; `relative`
  inverts `resolve`.
- **Debugger framing** (`Debugger`). Every split of a stream of messages is parsed into the same messages.

User code (listeners, callbacks, handlers, `_read`, `_write`) is nondeterminism: methods such as `UserCode`,
`Listeners`, `CallRead` and `CallWrite` make any number of calls the program allows, so an invariant proved across
them holds in every run. Clocks, the socket and the event loop are inputs or nondeterministic steps. Ghost fields
record history (everything written, everything delivered, callbacks called) and the invariants relate the fields of
the source to that history.

## What turned out to differ from the documentation or the obvious reading

- `ucs2decode` takes any surrogate for a lead (`lib/punycode.js:113`), so strings with a trail surrogate followed by
  another trail do not come back from `ucs2encode`. `Ucs2.CodePointsRoundTrip` gives the exact condition,
  `Ucs2.TrailPairIsLost` the smallest failing string.
- The encoder computes `handledCPCountPlusOne` once per pass (`lib/punycode.js:386`), so the two sides do not always
  pass `adapt` the same count. At one step the counts are equal exactly if the code point has not occurred before, and
  over a whole run exactly if no code point from 0x80 on repeats (`PunycodeCounts.CountsAtStep`,
  `PunycodeCounts.CountsAgree`; `PunycodeCounts.CountsDiffer` for the run on two equal characters). The results are
  equal all the same (`StaleCount`), and the biases never diverge.
- Integers within 31 bits read back for a bias up to 250 and not beyond (`PunycodeRoundTrip.IntsReadBack`): the
  decoder's test of its weight then fails although the sum fits. `adapt` stays below 216.
- A Readable schedules 'end' with data still buffered exactly when `read(0)` (or a negative number) is called after
  the end of input (`lib/_stream_readable.js:138-141`): the history field `zeroReadAtEnd` in `Readable.Stream.Read`.
- Transform's `_write` makes such a call itself (`lib/_stream_transform.js:138-140`). With listeners that only call
  `read()` or `read(n)` for a positive n, `end(chunk)` schedules 'end' with data unread exactly if a reader is waiting and
  the listeners leave data while there is room for more (`PassThroughEnds.EarlyEnd`); for listeners that do not read,
  exactly if the chunk does not take the buffer past its `highWaterMark` (`PassThrough.Stream.End`,
  `PassThrough.EndBeforeData`). A `read` that pulls the last chunk in does so only if more chunks are queued and the first
  does not take the buffer past the `lowWaterMark`, so never with a `lowWaterMark` of zero; for listeners that do not read
  exactly as `PassThroughView.EarlyRead` says (`PassThrough.Stream.UserRead`).
- `done` emits 'end' itself without noting it (`lib/_stream_transform.js:229-230`), and the next `read` then schedules a
  second one (`PassThrough.EndTwice`). With a `highWaterMark` of at least zero this happens, whatever listeners do, exactly
  if `end()` is called without a chunk, nothing is queued or buffered and no reader is waiting (`PassThrough.Stream.End`,
  `PassThrough.Stream.UserRead`). With a negative one a listener that reads the last chunk makes it happen although there
  was a chunk (`PassThroughEnds.EndByChunk`, `PassThrough.EndAtDoneWithChunk`); without a chunk, or with listeners that
  do not read, the condition holds for all marks.
- A listener of 'readable' that calls `read` while an outer `read` waits for a synchronous `_read` can make the outer
  call's `n` stale (`lib/_stream_readable.js:191-205`). All listeners are safe if and only if `lowWaterMark` is at most
  2, or `highWaterMark` is `lowWaterMark` or one less (`PassThroughView.Safe`): `PassThrough.AnyRun` covers every
  listener there, and for all other marks `PassThroughView.UnsafeMarks` has a run in which `length` becomes negative
  with nothing buffered. Listeners that only ever call `read()` are no better (`PassThroughView.StaleCountReadingAll`).
  Listeners that do not read are safe with all marks.
- With a negative `highWaterMark`, `read()` on a new stream returns null without calling `_read` (`Readable.NothingAsked`);
  apart from that, a `read` that returns null before the end has a `_read` outstanding or has called it
  (`Readable.Stream.Read`). A `_read` that calls back at once with too little announces nothing.
- `_newRes` resets `reqSeq` to 1 (`lib/_debugger.js:87`), so requests made after a response are numbered from 1 again.
- `_buffer` joins a string written without an encoding to a string written with one, and sends both in that encoding
  (`lib/http.js:496-500`). Each piece of a waiting response keeps its bytes exactly if no string without an encoding that
  is not ASCII comes where 'binary' is carried on (`HttpEncodings.BytesKept`); `HttpEncodings.OneByteShort` sends one byte
  where two were announced. The header is sent in the encoding of the first string (`HttpEncodings.HeaderKept`).
- `trim` in `relative` slices with a length where an index is meant (`lib/path.js:376`); this is harmless because it
  never gets a list with an empty part in front of a non-empty one.

## Model

| member | source | states |
|---|---|---|
| Ucs2.CodePointsRoundTrip | lib/punycode.js:105-147 | encoding the decoded code points gives the string back if and only if no trail surrogate is taken for a lead |
| Ucs2.TrailPairIsLost | lib/punycode.js:113-117 | two trail surrogates come back as a lead and a trail |
| Ucs2.PairStandsFor | lib/punycode.js:105-150 | the code point of every pair, and what comes back of it |
| Ucs2.ScalarsRoundTrip | lib/punycode.js:105-150 | `ucs2decode` undoes `ucs2encode` on all Unicode scalars, and what it gives is well-formed UTF-16 |
| Ucs2.WellFormedHasNoTrailPair | lib/punycode.js:113-120 | well-formed UTF-16 meets that condition |
| Ucs2.Ucs2Decode | lib/punycode.js:105-126 | the loop computes the recursive reading of surrogate pairs, the object of the round trip |
| Ucs2.Ucs2Encode | lib/punycode.js:136-147 | the backward `map` and `join` give the concatenated units of all code points |
| Punycode.DigitToBasic | lib/punycode.js:179-183 | the digit's character is ASCII, not the delimiter, and `basicToDigit` gives the digit back |
| Punycode.ComputeAdapt | lib/punycode.js:190-198 | the loop computes the bias function of section 3.4 of RFC 3492 |
| Punycode.DigitFits | lib/punycode.js:276-280 | the overflow test by division holds exactly when the sum exceeds 2^31-1 |
| Punycode.NextPointIsLeast | lib/punycode.js:377-382 | the scan finds the least code point not below n |
| Punycode.NextPointFound | lib/punycode.js:373-392 | while code points are left, the next one exists in the input and skipping to it changes nothing about what is handled |
| Punycode.EncodeInt | lib/punycode.js:403-416 | every emitted digit is basic and no delimiter |
| PunycodeRoundTrip.AdaptBound | lib/punycode.js:190-198 | for every delta up to 2^31-1 the bias stays below 216, so the decoder's weight cannot overflow on encoder output |
| PunycodeRoundTrip.IntRoundTrip | lib/punycode.js:268-294 | for every bias up to 250 and every integer the digits delimit themselves and the decoder recovers the integer, or reports overflow exactly when the sum is too large |
| PunycodeRoundTrip.OnesOverflow | lib/punycode.js:276-292 | for every larger bias an integer within 31 bits makes the decoder report overflow |
| PunycodeRoundTrip.IntsReadBack | lib/punycode.js:268-416 | all integers within 31 bits read back, whatever digits follow, if and only if the bias is at most 250 |
| PunycodeRoundTrip.StaleCount | lib/punycode.js:386-417 | the stale count of the encoder and the current count of the decoder give the same bias |
| PunycodeCounts.CountsAtStep | lib/punycode.js:386-417 | at a step, encoder and decoder pass equal counts if and only if the code point has not occurred before |
| PunycodeCounts.AgreeFromExactly | lib/punycode.js:394-426 | from any position of the run, the counts agree at every step to come if and only if no code point still to be handled repeats |
| PunycodeCounts.CountsAgree | lib/punycode.js:350-428 | over a whole run the counts agree if and only if no code point from 0x80 on repeats |
| PunycodeCounts.CountsDiffer | lib/punycode.js:386-417 | the run on two equal characters, where they do not |
| PunycodeRoundTrip.HandledInsert | lib/punycode.js:309-309 | inserting the code point at its slot extends the handled subsequence by exactly that occurrence |
| PunycodeRoundTrip.DecoderStep | lib/punycode.js:268-309 | one emitted integer takes the decoder to the encoder's code point and slot, with the encoder's new bias |
| PunycodeRoundTrip.StepOver | lib/punycode.js:394-399 | passing over another code point keeps the two sides in step |
| PunycodeRoundTrip.StepEmit | lib/punycode.js:401-420 | emitting a code point keeps the two sides in step |
| PunycodeRoundTrip.SyncFrom | lib/punycode.js:394-426 | from any position in step, the decoder ends with the input unless overflow is reported; within the limit none is |
| PunycodeRoundTrip.SyncPass | lib/punycode.js:373-426 | the same from the start of an outer pass |
| PunycodeRoundTrip.EncodedIsBasic | lib/punycode.js:350-428 | all output is ASCII, with no delimiter after the last separator |
| PunycodeRoundTrip.PointsRoundTrip | lib/punycode.js:221-428 | encoding fails only with overflow; decoding gives the code points back or reports overflow; neither overflows within the limit |
| PunycodeRoundTrip.RoundTrip | lib/punycode.js:221-428 | on every string neither side overflows on, decode(encode(s)) == s if and only if no trail is taken for a lead; always for well-formed UTF-16 |
| PunycodeRoundTrip.RoundTripWithinLimit | lib/punycode.js:350-428 | if (M - 0x80 + 1)(L + 1) fits in 31 bits, neither side overflows and the string comes back (section 6.4 of RFC 3492) |
| PunycodeRoundTrip.RoundTripShort | lib/punycode.js:221-428 | every well-formed string of up to 1926 code points comes back |
| PunycodeStandard.DigitLetters | lib/punycode.js:179-183 | digits 0 to 25 are 'a' to 'z', and 26 to 35 are '0' to '9' |
| PunycodeStandard.UpperCaseToo | lib/punycode.js:158-166 | the decoder takes capital and small letters for the same digits |
| PunycodeStandard.OtherCharacters | lib/punycode.js:158-166 | which characters are read as digits, which are rejected, and which give a negative value |
| PunycodeStandard.ThresholdIs | lib/punycode.js:281-281 | the threshold is k - bias, held between 1 and 26 |
| PunycodeStandard.AdaptIs | lib/punycode.js:190-198 | the new bias is 36k + 36q/(q + 38), where q is the damped and widened delta divided k times by 35, at most 455 for the first time; damped by 700 the first time and by 2 later |
| PunycodeStandard.AdaptedOnce | lib/punycode.js:190-198 | no other bias is |
| PunycodeStandard.EncodesInteger | lib/punycode.js:403-416 | the digits emitted are a variable-length integer of that value (section 3.3 of RFC 3492) |
| PunycodeStandard.IntegerOnce | lib/punycode.js:268-294 | no other digits are |
| PunycodeStandard.DecodesIntegers | lib/punycode.js:261-311 | the decoder plays the deltas it reads, each an insertion so many places on, and reports overflow exactly if a sum or a code point exceeds 31 bits |
| PunycodeStandard.PlayedOnce | lib/punycode.js:296-309 | different lists of deltas play to different texts |
| PunycodeStandard.EmitsPass | lib/punycode.js:373-426 | the encoder's running counter gives deltas that play to the whole input |
| PunycodeStandard.EncodesDeltas | lib/punycode.js:323-428 | `encode` emits the basic code points, and then exactly the deltas that play to the text from code point 0x80, under a bias of 72 at first |
| PunycodeStandard.DecodesDeltas | lib/punycode.js:221-314 | `decode` takes off what is before the last delimiter and plays the deltas after it, from the same start |
| PunycodeStandard.BothWays | lib/punycode.js:221-428 | for every text without surrogates, given deltas that play to it: what `encode` gives and `decode` takes |
| PunycodeStandard.UmlautSample | test/simple/test-punycode.js:46-54 | "ü" is "tda" |
| PunycodeStandard.BooksSample | test/simple/test-punycode.js:48-56 | "Bücher" is "Bcher-kva" |
| PunycodeStandard.JapaneseSample | test/simple/test-punycode.js:52-60 | three characters under three biases |
| PunycodeLoops.EmitInt | lib/punycode.js:403-416 | the loop emits the variable-length integer |
| PunycodeLoops.ScanNext | lib/punycode.js:377-382 | the loop finds the next code point |
| PunycodeLoops.InnerPass | lib/punycode.js:394-421 | one pass handles at least one code point and emits its share of the whole encoding, or fails with overflow |
| PunycodeLoops.OuterPass | lib/punycode.js:373-424 | one turn of the outer loop likewise, including the guarded jump of delta |
| PunycodeLoops.EncodeString | lib/punycode.js:323-428 | `encode` terminates and equals the specification, overflow included, which `PunycodeStandard.EncodesDeltas` ties to RFC 3492 |
| PunycodeLoops.ReadInt | lib/punycode.js:268-294 | the loop reads one integer and the index after it, with all three error exits |
| PunycodeLoops.DecodeFrom | lib/punycode.js:261-311 | the main loop equals the specification |
| PunycodeLoops.DecodeString | lib/punycode.js:221-314 | `decode` equals the specification, errors included, which `PunycodeStandard.DecodesDeltas` ties to RFC 3492 |
| Readable.HowMuchToRead | lib/_stream_readable.js:105-125 | everything for `read()`; otherwise n, or the whole remainder after the end, or nothing: exactly if nothing is buffered, n is not positive, or more is asked for than there is before the end |
| Readable.FromList | lib/_stream_readable.js:674-731 | plucks exactly the first n bytes (or all) off the chunk list and leaves the rest, without empty chunks |
| Readable.CopyOut | lib/_stream_readable.js:703-727 | the case of n bytes that span several chunks |
| Readable.Stream.constructor | lib/_stream_readable.js:31-83 | the invariant holds of a new stream |
| Readable.Stream.Read | lib/_stream_readable.js:128-213 | returns null, exactly n bytes, or the remainder after EOF; what is returned continues what was returned before; `_read` is called exactly if a reader waits, more is asked for or what is left would be within the high mark, and the amount is judged again after it; a read that comes back empty has a `_read` to wait for; conservation; when 'end' is scheduled early |
| Readable.Stream.Fill | lib/_stream_readable.js:165-192 | exactly when `_read` is called, and how much may be returned after it |
| Readable.Stream.Take | lib/_stream_readable.js:194-205 | the bytes leave the buffer and `length` follows |
| Readable.Stream.CallRead | lib/_stream_readable.js:184-184 | for every `_read`, called back at once or later, the invariant holds and a synchronous one takes nothing and announces nothing |
| Readable.Stream.OnRead | lib/_stream_readable.js:215-275 | data is appended to what was pushed; the end of input ends an empty stream and is announced on one with data; 'readable' is emitted if it is not out already, and then stays out until somebody reads |
| Readable.Stream.Arrive | lib/_stream_readable.js:247-274 | up to the low mark `_read` is called again; past it a waiting consumer is told, and nobody else |
| Readable.NothingAsked | lib/_stream_readable.js:166-186 | with a negative high mark, `read()` on a new stream asks for nothing |
| Readable.Stream.EmitReadable | lib/_stream_readable.js:268-273 | emits exactly once unless it is out already; listeners may read any number of times and the invariant holds |
| Readable.Stream.EndReadable | lib/_stream_readable.js:733-743 | 'end' is scheduled at most once |
| Readable.AnyRun | lib/_stream_readable.js:105-275 | in every run: data returned and data buffered make up the data pushed; at most one `_read` outstanding; 'end' at most once, and with data buffered only through `read(0)` |
| Common.OrderMoves | lib/_stream_writable.js:138-155 | queueing an entry and passing the first one on keep the order, for streams and for the agent's requests |
| Writable.CallNow | lib/_stream_writable.js:190-196 | calling or deferring the callback of a completed write keeps the account: each once, deferred ones in the order of the writes, and so the others |
| Writable.CallTick | lib/_stream_writable.js:192-193 | running a deferred callback keeps it too |
| Writable.OnceEach | lib/_stream_writable.js:190-196 | each callback of a completed write is called or waits, once |
| Writable.Stream.constructor | lib/_stream_writable.js:35-97 | a new stream is at rest |
| Writable.Stream.Write | lib/_stream_writable.js:114-159 | the entry is accepted last; the result says whether the buffer is below the mark, and false sets `needDrain`; after `end` nothing changes |
| Writable.Stream.Accept | lib/_stream_writable.js:138-154 | queued behind the write in flight, or made the write in flight |
| Writable.Stream.CallWrite | lib/_stream_writable.js:155-155 | for every `_write`, called back at once or later, it has been called with the entries in order, and counts and back-pressure hold |
| Writable.Stream.OnWrite | lib/_stream_writable.js:161-261 | the write in flight is done; 'finish' once and only with everything completed; nothing is left queued without a write in flight |
| Writable.Stream.Complete | lib/_stream_writable.js:161-196 | one callback is called or deferred, deferred if the completion was synchronous |
| Writable.Stream.UserCallback | lib/_stream_writable.js:190-196 | a callback, called from an asynchronous completion or from the tick queue, may call `end`; counts and order are kept, and 'finish' follows at once only if nothing is left |
| Writable.Stream.ProcessBuffer | lib/_stream_writable.js:219-260 | the loop writes queued entries in order until one is asynchronous |
| Writable.Stream.WriteQueued | lib/_stream_writable.js:227-253 | one turn of it |
| Writable.Stream.Trim | lib/_stream_writable.js:255-259 | exactly the passed entries are dropped |
| Writable.Stream.CompleteLater | lib/_stream_writable.js:161-261 | an asynchronous completion leads from rest to rest |
| Writable.Stream.End | lib/_stream_writable.js:269-285 | after `end` everything accepted is kept, and 'finish' has been emitted if nothing is pending; a second `end` changes nothing |
| Writable.Stream.EndNow | lib/_stream_writable.js:269-285 | `end()` at any point of a completion: 'finish' exactly if nothing is pending; ignored if already ending |
| Writable.Stream.RunCallbackTick | lib/_stream_writable.js:192-193 | deferred callbacks are called once, in order |
| Writable.Stream.RunDrainTick | lib/_stream_writable.js:211-216 | 'drain' follows if and only if it is still due |
| Writable.Stream.NoProducerForgotten | lib/_stream_writable.js:138-217 | at rest, `needDrain` means a write in flight, a pending drain tick, or a finished stream |
| Writable.Stream.CalledInOrder | lib/_stream_writable.js:190-194 | if all writes complete at once, their callbacks are called in the order of the writes |
| Writable.Stream.CheckDrain | lib/_stream_writable.js:207-217 | a check for 'drain' is put on the tick queue exactly if a producer waits and the buffer is down to the low mark |
| Writable.Stream.FinishedIsDone | lib/_stream_writable.js:198-205 | 'finish' only after `end` and with everything accepted completed |
| Writable.AnyRun | lib/_stream_writable.js:114-285 | in every run: `_write` has been called once with every entry not queued, in order, and nothing is queued unless it is at work; completed writes are a prefix of accepted ones, their callbacks are called or pending exactly once, 'finish' at most once, back-pressure is not forgotten |
| PassThrough.MoveToReadable | lib/_stream_transform.js:176-200 | handing the transformed chunk to the readable side conserves the byte sequence |
| PassThrough.MoveFromQueue | lib/_stream_writable.js:227-242 | so does taking the next queued chunk |
| PassThrough.MoveIn | lib/_stream_writable.js:138-155 | and accepting a new one |
| PassThrough.Stream.constructor | lib/_stream_transform.js:82-103 | a new stream is at rest |
| PassThrough.Stream.Read | lib/_stream_readable.js:128-213 | re-entered from `_write` or a listener: bytes conserved; null or n bytes or the remainder, and all that left the buffer, but for what listeners got, is what its caller gets; when 'end' is scheduled |
| PassThrough.Stream.ReadNow | lib/_stream_readable.js:177-186 | the synchronous call of `_read` leaves `reading` and `pendingReadCb` paired |
| PassThrough.Stream.OnRead | lib/_stream_readable.js:215-275 | the chunk joins the readable buffer |
| PassThrough.Stream.OnReadEnd | lib/_stream_readable.js:223-246 | the end of input leaves the writable side alone |
| PassThrough.Stream.TRead | lib/_stream_transform.js:146-174 | the throw at line 152 is unreachable; a waiting chunk is moved through, otherwise the callback is kept |
| PassThrough.Stream.Shift | lib/_stream_transform.js:163-173 | the chunk leaves the transform queue and is in flight |
| PassThrough.Stream.Transformed | lib/_stream_passthrough.js:39-41 | the callback of `_transform`: the chunk itself is output and the write completes |
| PassThrough.Stream.Output | lib/_stream_transform.js:176-200 | a pending callback is always there to take the chunk |
| PassThrough.Stream.Done | lib/_stream_transform.js:202-231 | the throws at lines 213 and 216 are unreachable; 'end' is emitted here exactly if no reader waits and nothing is buffered |
| PassThrough.Stream.TWrite | lib/_stream_transform.js:119-144 | no chunk is left behind for a waiting reader; the state is exactly what `PassThroughView.Written` computes, with any listeners |
| PassThrough.Stream.Offer | lib/_stream_transform.js:128-143 | the same once the chunk is in the transform queue: given to a waiting reader, or pulled in if there is room |
| PassThrough.Stream.GiveToReader | lib/_stream_transform.js:130-134 | a waiting reader gets the chunk: the kept callback of `_read` takes it |
| PassThrough.Stream.AutoPull | lib/_stream_transform.js:136-143 | the error at line 142 is unreachable; a chunk in the transform queue is pulled in if there is room |
| PassThrough.Stream.OnWrite | lib/_stream_writable.js:161-261 | completion, 'finish' through `done`, and the buffer loop, with the whole machine in its invariant |
| PassThrough.Stream.ProcessBuffer | lib/_stream_writable.js:219-260 | queued chunks move through in order |
| PassThrough.Stream.Loop | lib/_stream_writable.js:227-253 | the loop computes `PassThroughView.Looped` on the queued sizes, with any listeners |
| PassThrough.Stream.Write | lib/_stream_writable.js:114-159 | from rest to rest, the chunk is appended to what was written; false is returned exactly if the mark is reached, and sets `needDrain` |
| PassThrough.Stream.CheckDrain | lib/_stream_writable.js:207-217 | a check for 'drain' is queued exactly if a producer waits and the buffer is down to the low mark |
| PassThrough.Stream.End | lib/_stream_writable.js:269-285 | from rest to rest; when 'end' comes before the last chunk is read: exactly for listeners that only read something, in closed form for listeners that do not read; `done` emits it, with a high mark of at least zero and any listeners, if and only if there is no chunk, nothing pending and no reader |
| PassThrough.Stream.UserRead | lib/_stream_readable.js:128-213 | from rest to rest, computing `PassThroughView.UserReadNow`; a stream whose `done` emitted 'end' schedules a second one; when a read schedules 'end' before the data: exactly after the end and for listeners that do not read, and otherwise never with a low mark of zero |
| PassThrough.Stream.InOrder | lib/_stream_transform.js:119-231 | bytes that callers of `read` got, readable buffer, chunk awaiting transform and writable queue make up the bytes written, in order |
| PassThrough.Stream.AllDelivered | lib/_stream_transform.js:202-231 | with the writer finished and the buffer empty, every byte has come through |
| PassThrough.Stream.NoStall | lib/_stream_transform.js:128-143 | no chunk waits anywhere while the reader waits for data |
| PassThrough.Stream.NoProducerForgotten | lib/_stream_writable.js:207-217 | a writer that was told to wait has a chunk under way, a pending 'drain', or a finished stream |
| PassThrough.EndTwice | lib/_stream_transform.js:223-230 | a stream ended while empty and then read emits 'end' twice, for all marks and listeners |
| PassThrough.EndAtDoneWithChunk | lib/_stream_transform.js:218-230 | with a negative high mark, `done` emits 'end' although `end` brought a chunk |
| PassThrough.Stream.Listeners | lib/_stream_readable.js:268-273 | listeners make the calls of their script, re-entering `read`, and the state is what `PassThroughView.Listened` computes |
| PassThrough.Stream.Tell | lib/_stream_readable.js:262-274 | up to the low mark the next chunk is asked for, past it a waiting consumer is told |
| PassThrough.EndBeforeData | lib/_stream_transform.js:136-143 | for every last chunk within the high mark and every low mark, 'end' is scheduled while the chunk is unread |
| PassThrough.AnyRun | lib/_stream_transform.js:119-231 | in every run, with any listeners if the marks are `Safe` and with listeners that do not read for all marks, what callers of `read` got is a prefix of what is written, the rest is in the three buffers, and a finished and emptied stream has delivered everything |
| PassThroughView.EarlyByEnd | lib/_stream_transform.js:119-144 | a last chunk brings 'end' forward if and only if a reader waits and it fits under the high mark |
| PassThroughView.AtDoneByEnd | lib/_stream_transform.js:218-230 | `done` emits 'end' if and only if no reader waits and nothing is buffered |
| PassThroughView.EarlyWhenBelow | lib/_stream_writable.js:227-253 | the loop over queued chunks that arrive below the low mark: when 'end' comes before them |
| PassThroughView.EarlyByRead | lib/_stream_readable.js:165-192 | a read that pulls the last chunk in schedules 'end' early if and only if `EarlyRead` holds, a condition on the sizes queued |
| PassThroughView.WrittenByRead | lib/_stream_transform.js:136-143 | `_write` without a reader is `read(0)` with the chunk in the transform queue |
| PassThroughView.UnsafeMarks | lib/_stream_readable.js:191-205 | for all marks that are not `Safe`, a run in which a listener's read makes `length` negative with nothing buffered |
| PassThroughView.StaleCount | lib/_stream_readable.js:191-205 | for every low mark from 3 on and every greater high mark: `length` is -1 |
| PassThroughView.StaleCountLow | lib/_stream_readable.js:191-205 | the same for every high mark below the low mark by two or more |
| PassThroughView.StaleCountReadingAll | lib/_stream_readable.js:191-205 | the same with a listener that only calls `read()` |
| PassThroughEnds.DoneEmits | lib/_stream_transform.js:218-230 | for all listeners, `done` emits 'end' if and only if no `_read` is pending and nothing is buffered |
| PassThroughEnds.NoEndByRead | lib/_stream_transform.js:202-231 | with a high mark of at least zero no `read` that pulls chunks in makes `done` emit 'end', for all listeners |
| PassThroughEnds.NoEndByChunk | lib/_stream_transform.js:202-231 | nor does the last chunk itself |
| PassThroughEnds.EndByChunk | lib/_stream_transform.js:202-231 | for every negative high mark a run in which it does |
| PassThroughEnds.LoopedLeaves | lib/_stream_writable.js:227-253 | nor do any number of queued chunks; without the end of input none schedules 'end' early |
| PassThroughEnds.EarlyByEndPlain | lib/_stream_transform.js:119-144 | for listeners that only read something, a last chunk brings 'end' forward if and only if a reader waits and data is left while there is room |
| PassThroughEnds.EarlyByReadPlain | lib/_stream_readable.js:165-192 | for them, a read brings 'end' forward only if chunks are queued behind one that stays below the low mark |
| PassThroughEnds.DirectInTime | lib/_stream_writable.js:227-253 | for them, past the low mark queued chunks do not bring 'end' forward |
| HttpChunked.HexRoundTrip | lib/http.js:707-713 | the size line reads back as the size |
| HttpChunked.DecodeOneChunk | lib/http.js:705-716 | a decoder by section 3.6.1 of RFC 2616 takes off exactly one written chunk |
| HttpChunked.DecodeInvertsChunks | lib/http.js:705-716 | decoding any sequence of non-empty chunks and the last chunk gives their concatenation, and stops after the last chunk |
| HttpPipeline.Connection.Respond | lib/http.js:687-873 | a whole response, with its header written first or left to the first write and anything happening in between: it is given header and body; a chunked body decodes to everything written, empty writes included, any other body is what was written |
| HttpPipeline.Connection.Elsewhere | lib/http.js:1795-1864 | whatever happens on the connection between two calls of a handler, the bytes and framing of its response are its own |
| HttpChunked.HotBuffer | lib/http.js:789-836 | the preallocated buffer is filled exactly and equals header, chunk, last chunk |
| HttpChunked.HotPlainBuffer | lib/http.js:838-842 | the same without chunking |
| HttpPipeline.BufferedContent | lib/http.js:481-505 | merging strings of one encoding or pushing appends the data to the buffered content |
| HttpEncodings.SameOnlyForAscii | lib/http.js:705-710 | the bytes of a string in 'binary' are those in UTF-8 for ASCII, and fewer for any other string |
| HttpEncodings.BufferedKeeps | lib/http.js:481-505 | `_buffer` adds exactly the bytes of the data if and only if it does not join it to a string under whose encoding they are others |
| HttpEncodings.CarriedIsLast | lib/http.js:492-500 | the encoding under which the next string without one would be sent |
| HttpEncodings.BytesKept | lib/http.js:481-505 | over any sequence of pieces, each adds its own bytes at every step if and only if no such string is joined |
| HttpEncodings.OneByteShort | lib/http.js:496-500 | two writes for which one byte is sent where two were announced |
| HttpEncodings.HeaderKept | lib/http.js:440-447 | the header in front of a string keeps its bytes if and only if it is ASCII or the string is 'binary' |
| HttpEncodings.TextReadsBack | lib/string_decoder.js:80-109 | UTF-8 text is read back as the units of its characters by the decoder of `Encodings` |
| HttpEncodings.CharReadsBack | lib/string_decoder.js:127-158 | and so is each character |
| HttpEncodings.CharIsEncoded | lib/string_decoder.js:127-158 | whatever the decoder takes for a character is the encoding of the scalar it gives |
| HttpEncodings.Utf8IsEncoded | lib/string_decoder.js:127-158 | the byte strings the decoder takes for UTF-8 are exactly the encoded texts |
| HttpPipeline.WithHeaderContent | lib/http.js:436-450 | the header goes first, once, whether concatenated or unshifted |
| HttpPipeline.WireGrow | lib/http.js:436-478 | giving more to an unfinished response keeps the wire a prefix |
| HttpPipeline.WireComplete | lib/http.js:1839-1864 | a completed response moves the wire on to the next |
| HttpPipeline.Connection.Send | lib/http.js:436-478 | the bytes are added to this response alone, and go to the socket only in its turn |
| HttpPipeline.Connection.SendNow | lib/http.js:458-473 | straight to the socket, after what is buffered |
| HttpPipeline.Connection.SendLater | lib/http.js:474-505 | into the response's own buffer |
| HttpPipeline.Connection.Drain | lib/http.js:462-470 | the buffered pieces go out in order as long as the socket is writable |
| HttpPipeline.Connection.Finish | lib/http.js:1839-1864 | the assertion on `incoming[0]` holds; after the last response the socket is closed, after any other the next one has its turn |
| HttpPipeline.Connection.Destroy | lib/http.js:1855-1857 | a response that closes the connection closes the socket |
| HttpPipeline.Connection.Detach | lib/http.js:968-973 | the finished response leaves the socket and the request queue |
| HttpPipeline.Connection.NextTurn | lib/http.js:959-966 | the first waiting response takes the socket |
| HttpPipeline.Connection.Flush | lib/http.js:890-931 | its backlog is sent, and if it has ended the turn passes on |
| HttpPipeline.Connection.StoreHeader | lib/http.js:508-614 | a header is stored, not sent |
| HttpPipeline.Connection.Write | lib/http.js:687-723 | the response is given its header, if not sent yet, and the framed data, nothing for an empty chunk |
| HttpPipeline.Connection.WriteChunk | lib/http.js:705-716 | one string or three pieces, the same bytes |
| HttpPipeline.Connection.End | lib/http.js:750-873 | by either path the response is given header, body and closing bytes, is finished and keeps its framing, as do all others |
| HttpPipeline.Connection.EndHot | lib/http.js:766-847 | the hot path gives the same bytes as the normal one |
| HttpPipeline.Connection.EndNormally | lib/http.js:849-861 | the body as in `write`, then the last chunk or a forced header |
| HttpPipeline.Connection.MarkFinished | lib/http.js:863-870 | 'finish' follows if all has been sent in its turn |
| HttpPipeline.Connection.OnIncoming | lib/http.js:1821-1835 | a new response queues behind the others or takes the socket |
| HttpPipeline.Connection.OnEnd | lib/http.js:1795-1806 | requests are aborted, the order on the wire is kept |
| HttpPipeline.Connection.OnHalfOpenEnd | lib/http.js:1807-1813 | the last response will close, or the socket is ended at once |
| HttpPipeline.Connection.WireInOrder | lib/http.js:1821-1880 | in every reachable state the wire is complete, ended responses in request order and a prefix of the next |
| HttpPipeline.Connection.NothingHeldBack | lib/http.js:1839-1864 | on a writable socket all that the current response has produced has been sent, and it has not ended |
| HttpPipeline.Connection.NextIsServed | lib/http.js:1855-1863 | without a failure, and until a response closes the connection, the first unfinished response is on the socket and has been sent as far as it goes |
| HttpPipeline.Connection.EndedAreSent | lib/http.js:1839-1864 | without a failure, all responses up to one that have ended, none of them closing, are on the wire in full, and no more than that if the next has not ended |
| HttpPipeline.Connection.ClosedByLast | lib/http.js:1855-1857 | the socket is open exactly until it fails or a response that closes it is over |
| HttpPipeline.AnyRun | lib/http.js:1821-1880 | in every run of requests, interleaved writes and ends, and socket failures, the wire is in request order; without a failure or a closing response, once all have ended the wire is all they were given |
| HttpAgent.RemovedFacts | lib/http.js:1174-1176 | splicing a socket out removes it and nothing else |
| HttpAgent.FifoShift | lib/http.js:1088-1093 | giving a socket to the oldest request keeps the order of submission for every name |
| HttpAgent.Agent.AddRequest | lib/http.js:1110-1128 | a new socket of the pool serves it if there is room, else it goes to the end of its queue; nothing else changes, and all pool invariants hold |
| HttpAgent.Agent.CreateSocket | lib/http.js:1129-1171 | a new, idle socket joins the pool of its name |
| HttpAgent.Agent.OnFree | lib/http.js:1082-1101 | the oldest waiting request takes the socket; without one it is destroyed |
| HttpAgent.Agent.ResponseOnEnd | lib/http.js:1530-1551 | the live request of the socket is over; with keep-alive the oldest waiting request takes the socket |
| HttpAgent.Agent.RemoveSocket | lib/http.js:1172-1188 | exactly this socket leaves the pool, and the oldest waiting request of its name gets a new one; other names keep theirs |
| HttpAgent.Agent.DropSocket | lib/http.js:1173-1182 | no empty list is left behind |
| HttpAgent.AnyRun | lib/http.js:1074-1188 | in every run: at most `maxSockets` per name, dispatch in order of submission, and a request waits only while the pool is full |
| Encodings.Utf8Concat | lib/string_decoder.js:80-109 | decoding distributes over a cut between characters |
| Encodings.Base64Concat | lib/string_decoder.js:185-189 | and over a cut between groups of three bytes |
| Encodings.Base64ReadsBack | lib/string_decoder.js:185-189 | a group of base64, read by the alphabet of RFC 4648, is its three bytes |
| Encodings.Base64DigitReadsBack | lib/string_decoder.js:185-189 | the alphabet |
| Encodings.Utf8LastUnit | lib/string_decoder.js:82-88 | without encoded surrogates the last unit is never a lead |
| Encodings.BoundarySplits | lib/string_decoder.js:127-158 | the last boundary splits a text into whole characters and one incomplete one |
| Encodings.OnlyTheLastIsIncomplete | lib/string_decoder.js:127-158 | a byte announces more than is there exactly at the last boundary |
| StringDecoder.NextCut | lib/string_decoder.js:99-107 | where the cut moves to with the next buffer |
| StringDecoder.UnitCut | lib/string_decoder.js:63-97 | when a continued character is complete |
| StringDecoder.Decoder.Write | lib/string_decoder.js:58-125 | what was returned is the decoding up to the cut, and exactly the incomplete last character is held back |
| StringDecoder.Decoder.Continue | lib/string_decoder.js:62-97 | completing a character across any number of buffers |
| StringDecoder.Decoder.DecodeWhole | lib/string_decoder.js:99-124 | decoding the whole characters and keeping the rest |
| StringDecoder.Decoder.DetectIncompleteChar | lib/string_decoder.js:127-189 | the number of held-back bytes and the size of their character |
| StringDecoder.Decoder.DetectUtf8 | lib/string_decoder.js:127-158 | the backward loop over at most three bytes finds the last boundary |
| StringDecoder.Decoder.End | lib/string_decoder.js:160-173 | nothing is lost at the end |
| StringDecoder.DecodeChunks | lib/string_decoder.js:58-173 | for every text and every way of cutting it, the pieces make up the one-shot decoding |
| NextTick.Scheduler.NextTick | src/node.js:355-369 | the callback is queued last and a tick is requested; nothing while exiting |
| NextTick.Scheduler.TickDone | src/node.js:272-280 | exactly the started callbacks leave the queue, and a tick is requested exactly if one was, or any are left |
| NextTick.Scheduler.TickCallback | src/node.js:293-353 | each callback at most once and in order, also when re-entered; at rest a waiting callback has a tick requested; the depth never exceeds the limit; all queued on entry run unless one throws; nothing is left unless as many batches have run as the limit allows |
| NextTick.Scheduler.RunBatches | src/node.js:317-352 | the loop ends, even if callbacks queue forever, and not before the queue is empty or the depth limit is reached, unless one throws |
| NextTick.Scheduler.RunBatch | src/node.js:325-344 | one batch, all of it or up to the first throw |
| NextTick.Scheduler.UserCode | src/node.js:333-340 | any callback leaves the running batch alone |
| NextTick.Scheduler.Call | src/node.js:331-340 | a callback is started once it has left the queue, and leaves the running batch alone |
| NextTick.Scheduler.SpinnerTick | src/node.cc:159-186 | the spinner's call starts everything queued unless one throws, whatever the depth; it alone lifts the depth limit |
| NextTick.Scheduler.MakeCallback | src/node.js:239-255 | every entry from the event loop returns to rest, and runs the queue unless the user code throws or the depth limit turns it away; it never lifts that limit |
| NextTick.AnyRun | src/node.js:257-370 | in every run: started callbacks and the queue make up the submitted ones in order, a waiting callback has a tick requested, and the depth is bounded |
| Path.NormalizeArray | lib/path.js:31-55 | the splicing loop and the unshifts equal the forward stack |
| Path.ScanBackward | lib/path.js:32-45 | the in-place loop computes the backward scan |
| Path.BackwardIsWalk | lib/path.js:32-45 | pending '..'s take names away, and count as left over where names run out |
| Path.WalkIsForward | lib/path.js:31-55 | counting '..'s apart from names equals the stack |
| Path.BackwardIsForward | lib/path.js:31-55 | backward scan equals forward stack, for every list and both flags |
| PathAlgebra.ComputeResolve | lib/path.js:300-325 | the loop over the arguments and the current directory computes the specification |
| PathAlgebra.ResolveIsAbsolute | lib/path.js:300-325 | the result is the slash and the joined directory names |
| PathAlgebra.NamesAreNormal | lib/path.js:319-324 | no empty, '.' or '..' part is left |
| PathAlgebra.ComputeNormalize | lib/path.js:329-346 | `normalize` computes the specification |
| PathAlgebra.PartsOfNormalized | lib/path.js:329-346 | leading and trailing slash are kept and the parts are the evaluated ones |
| PathAlgebra.NormalizeIsIdempotent | lib/path.js:329-346 | normalize(normalize(p)) == normalize(p) |
| PathAlgebra.PartsOfJoin | lib/path.js:320-322 | splitting undoes joining |
| PathAlgebra.ForwardTwice | lib/path.js:31-55 | evaluating an evaluated list changes nothing |
| PathAlgebra.Trim | lib/path.js:364-377 | on the lists it gets, `trim` drops only the empty part of the root |
| PathAlgebra.ComputeRelative | lib/path.js:360-399 | `relative` computes the specification |
| PathAlgebra.JoinRelative | lib/path.js:382-398 | the loops find the common prefix, go up and then down |
| PathAlgebra.RelativeLeadsThere | lib/path.js:382-398 | walking the relative parts from `from` arrives at `to` |
| PathAlgebra.RelativeInvertsResolve | lib/path.js:300-399 | resolve(from, relative(from, to)) == resolve(to), for all strings |
| PathAlgebra.ResolveIsChangeDirs | lib/path.js:300-325 | resolving any list of paths is changing directory from one to the next; an absolute one starts again at the root |
| PathAlgebra.RelativeIsShortest | lib/path.js:382-398 | no list of parts that leads from `from` to `to` is shorter |
| LinkList.Init | lib/_linklist.js:22-25 | an empty ring |
| LinkList.Peek | lib/_linklist.js:30-33 | the oldest item, or null |
| LinkList.Shift | lib/_linklist.js:38-42 | takes the oldest; on an empty list, the list itself |
| LinkList.Remove | lib/_linklist.js:47-58 | the ring closes up; safe on detached and self-linked nodes; only the node and its neighbours change |
| LinkList.Append | lib/_linklist.js:63-69 | out of any ring, then newest of this one |
| LinkList.IsEmpty | lib/_linklist.js:73-75 | exactly if there is no item |
| TimerRings.RingMinus | lib/_linklist.js:47-58 | taking a node out of a ring is taking its item out of the items |
| TimerRings.AllMinus | lib/timers.js:53-116 | removing an item that gets a new time drops its entry from its list and changes no other list |
| TimerRings.Rings.Remove | lib/_linklist.js:47-58 | with all lists on one heap: the item leaves its ring, whichever it is, and no other list changes |
| TimerRings.Rings.Append | lib/timers.js:158-159 | the item leaves its ring and becomes the newest of this one, with its new time |
| TimerRings.Rings.Link | lib/_linklist.js:64-68 | the four assignments of `append` |
| TimerRings.Rings.InitItem | lib/timers.js:144-144 | an item linked to itself is in no list, and no list changes |
| TimerRings.Rings.NewList | lib/timers.js:63-66 | one more list, which is empty |
| TimerRings.Rings.Peek | lib/_linklist.js:30-33 | the item and the time of the oldest entry |
| TimerRings.Rings.IsEmpty | lib/_linklist.js:73-75 | exactly if the list has no entry |
| TimerRings.Rings.IsLinked | lib/timers.js:141-141 | exactly if the item is in a list or linked to itself |
| TimerLists.DropFacts | lib/timers.js:84-84 | removing an item keeps order and deadlines and removes nothing else |
| TimerLists.SubsequenceKept | lib/timers.js:77-107 | crossing out touched items leaves a subsequence |
| Timers.Timers.Unenroll | lib/timers.js:121-134 | the item leaves its list; the list of that timeout is closed and leaves the table exactly if it is empty, and nothing else changes |
| Timers.Timers.CloseIfEmpty | lib/timers.js:124-131 | the table never keeps an empty list, the list that leaves it is closed, and nothing else changes |
| Timers.Timers.Enroll | lib/timers.js:138-145 | out of the old list, ready for `active` |
| Timers.Timers.Insert | lib/timers.js:52-118 | the item becomes the newest entry of the list of its timeout, created with an armed watcher if missing |
| Timers.Timers.NewList | lib/timers.js:63-68 | an empty list whose watcher fires no later than the deadline |
| Timers.Timers.AppendTo | lib/timers.js:116-117 | the item is moved to the end of the list, on the heap and among the entries |
| Timers.Timers.Active | lib/timers.js:150-162 | the timeout starts anew: the item becomes the newest entry of its timeout's list, as of now, and leaves every other place |
| Timers.Timers.OnTimeout | lib/timers.js:70-113 | takes off, in order, only due items and leaves none due; from 2 ms on, exactly the items due at entry that no callback touched, at most as many as were queued; every item taken off is recorded with the time it was last active, and its callback called if it has one |
| Timers.Timers.TakeFirst | lib/timers.js:84-85 | only the oldest entry leaves, on the heap and among the entries |
| Timers.Timers.Fire | lib/timers.js:84-104 | taking an item off and running its callback makes progress on the queue, and is not earlier than its timeout allows |
| Timers.Timers.Remove | lib/timers.js:122-122 | the item leaves its list on the heap and among the entries |
| Timers.Timers.Rearm | lib/timers.js:78-82 | the watcher is armed for the oldest item left |
| Timers.Timers.Finish | lib/timers.js:109-112 | the list is closed, and the table keeps only open lists whatever was deleted |
| Timers.Timers.UserCode | lib/timers.js:99-104 | any calls in a callback keep the invariant, and touched items go behind untouched ones |
| Timers.Timers.WatchersArmed | lib/timers.js:37-43 | at rest every non-empty list has a watcher no later than the deadline of each of its items |
| Timers.ProgressCallback | lib/timers.js:99-104 | a callback loses no untouched item |
| Timers.ProgressEnd | lib/timers.js:77-112 | when nothing is due any more, the due untouched items have all been taken |
| Timers.CurrentRestarted | lib/timers.js:150-162 | entries stay as old as the last call of `active` for their items |
| Timers.AnyRun | lib/timers.js:52-162 | in every run the linked lists hold the entries, all lists stay ordered and every non-empty list has a watcher in time; no item is taken off before the time of its last `active` plus its timeout, less a millisecond |
| Debugger.CharsOfBytes | lib/_debugger.js:124-129 | decoding the bytes of a text gives the text back |
| Debugger.FindBlank | lib/_debugger.js:98-98 | the first blank line, or none |
| Debugger.BlankInPrefix | lib/_debugger.js:98-102 | the blank line shows exactly when the first header has arrived in full |
| Debugger.BytesTell | lib/_debugger.js:115-123 | counting bytes tells exactly whether the first message has arrived in full |
| Debugger.BytesCut | lib/_debugger.js:124-137 | cutting the bytes at the announced length gives the body and what follows |
| Debugger.ReadHeaders | lib/_debugger.js:105-110 | the loop over the lines gives the last Content-Length |
| Debugger.Protocol.constructor | lib/_debugger.js:78-80 | nothing is delivered before anything arrives |
| Debugger.Protocol.NewRes | lib/_debugger.js:84-89 | left-over text is parsed at once; the request counter restarts |
| Debugger.Protocol.Execute | lib/_debugger.js:92-145 | messages are delivered once and in order; `raw` is what has arrived since, short of one message; terminates |
| Debugger.Protocol.ParseHeader | lib/_debugger.js:102-113 | length and start of the body are those of the message |
| Debugger.Feed | lib/_debugger.js:92-145 | for every list of messages and every split of any part of their stream, exactly the complete messages are delivered, and `raw` is the unfinished rest |
| Debugger.Protocol.Serialize | lib/_debugger.js:148-154 | the request is framed with its own length and numbered in sequence |
| Debugger.DecimalRoundTrip | lib/_debugger.js:152-152 | the length reads back |
| Debugger.SerializedIsWellFormed | lib/_debugger.js:148-154 | what `serialize` produces is a message the parser recovers |
| Debugger.HeaderLines | lib/_debugger.js:105-105 | splitting a header gives its lines |
| Debugger.FieldsAreWellFormed | lib/_debugger.js:92-124 | any header fields, the last of them for the length being right, and a body make a message the parser recovers |

## Left out

- Native code: `src/*.cc` apart from the tick flag, `lib/net.js`, `lib/fs.js`, `lib/dgram.js`, `lib/dns.js`, `lib/tls.js`,
  `lib/crypto.js`, `lib/zlib.js`, `lib/child_process.js`, `lib/cluster.js`: I/O over handles decided by bindings.
- `lib/url.js`, `lib/querystring.js`, `lib/util.js`, `lib/repl.js`, `lib/readline.js`, `lib/buffer_ieee754.js` and the
  command-line tools.
- Punycode: `toASCII`, `toUnicode` and `mapDomain`, which split at dots and call the codec.
- PunycodeLoops.ReadInt: as DecodeString.
- PunycodeLoops.DecodeFrom: as DecodeString.
- PunycodeLoops.DecodeString: requires that no character after the last separator has a negative `basicToDigit`
  (codes below 22, 58 to 64, and 91 to 96); there the source works with a negative insertion point. Encoder output
  never has such characters, as `PunycodeRoundTrip.EncodedIsBasic` states.
- Streams: string decoding inside streams, `pipe`, flowing mode, `wrap` and other legacy modes, and errors reported by
  `_read`, `_write` or `_transform`.
- Writable.Stream.Write: non-empty chunks only, and user callbacks and listeners of 'finish' and 'drain' that do not
  call `write` synchronously, because the source tests for 'finish' before it drains its buffer.
- Writable.Stream.End: a last chunk that is not empty, for the same reason.
- PassThrough.Stream.constructor: listeners of 'readable' that read only with `Safe` marks, since the stream fails with
  all others, as said above; listeners do not write. Callbacks of individual writes are in the Writable model only.
- PassThrough.AnyRun: as the constructor.
- PassThrough.Stream.Write: non-empty chunks, as for Writable.
- PassThrough.Stream.End: non-empty chunks. When 'end' comes before the data is exact for listeners that only read
  something; one that calls `read(0)` or `read(-1)` after the end of input schedules it itself, as said above. When `done`
  emits it is exact but for a negative high mark with listeners that read.
- PassThrough.Stream.UserRead: for listeners that read, that a `read` schedules 'end' before the data is bounded from one
  side only; which listeners let it happen depends on every call they make.
- StringDecoder.DecodeChunks: UTF-8 without encoded surrogates, and base64; utf16le and CESU-8 surrogate joining are
  not modelled.
- HTTP: rendering of headers (`StoreHeader` stores some non-empty bytes), dates, upgrade and CONNECT, 100-continue,
  timeouts, the parser, the client side of a message.
- HttpPipeline.Connection.Write: a string stands for the bytes of its encoding, which is what the strings of a response
  keep exactly if they are `Clean` and the header is ASCII (`HttpEncodings`, which has UTF-8 and 'binary', and strings that
  do not end inside a surrogate pair); Buffers are passed without an encoding argument, since `_buffer` would otherwise
  join a string to a Buffer; no `write` after `end`.
- HttpPipeline.BufferedContent: strings of one encoding, as for `Write`; `HttpEncodings.BufferedKeeps` has the others.
- HttpPipeline.Connection.OnIncoming: no `writeContinue` on a response that waits, which would put its header before
  data already buffered.
- HttpAgent.Agent.RemoveSocket: a socket closes, or is removed, once; `maxSockets` is at least 1.
- HttpAgent.Agent.ResponseOnEnd: that 'free' comes from here only, once per response, is how the client request works;
  the request itself is not part of this model.
- NextTick.Scheduler.TickCallback: domains are absent, and the deprecation warning has no effect on the state.
- Timers: `setTimeout`, `setInterval`, `setImmediate`, `ref` and `unref`, domains, and callbacks whose exception nobody handles.
- Timers.Timers.OnTimeout: user code makes finitely many calls per run, and which items have a callback does not change.
- Paths: the Windows half, `join`, `dirname`, `basename`, `extname`, `exists`.
- PathAlgebra.Trim: requires one of the lists that `relative` passes to it.
- Debugger.Protocol.Execute: text is cut between characters, as a UTF-8 socket delivers it, not inside a surrogate pair;
  numbers are decimal digits; the stream consists of well-formed messages, so that a header without a usable
  Content-Length, which makes the parser wait for ever, does not occur; `JSON.parse` and the debugger client are not
  modelled, and `JSON.stringify` is a parameter of `Serialize`.
