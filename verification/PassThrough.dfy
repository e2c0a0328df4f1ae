/**
 * PassThrough end to end: the Writable, Transform and Readable halves of one stream, with the calls between
 * them (lib/_stream_writable.js, lib/_stream_transform.js, lib/_stream_readable.js, lib/_stream_passthrough.js).
 */
module PassThrough {
  import opened Common
  import Readable
  import Spec = PassThroughView
  import Timing = PassThroughEnds

  type Chunk = seq<byte>

  /** Where the chunk is that the writable side considers in flight. */
  datatype Stage = Idle | Handed | Queued | Moving

  ghost predicate Conserved(written: seq<byte>, taken: seq<byte>, rBuffer: seq<Chunk>, carried: seq<byte>,
                            tBuffer: seq<Chunk>, waiting: seq<Chunk>)
  {
    written == taken + Flatten(rBuffer) + carried + Flatten(tBuffer) + Flatten(waiting)
  }

  // The moves of a chunk through the stream keep the bytes and their order.

  lemma MoveToReadable(w: seq<byte>, t: seq<byte>, r: seq<Chunk>, chunk: Chunk, waiting: seq<Chunk>)
    requires Conserved(w, t, r, chunk, [], waiting)
    ensures Conserved(w, t, r + [chunk], [], [], waiting)
  {
    FlattenPush(r, chunk);
  }

  lemma MoveThroughTransform(w: seq<byte>, t: seq<byte>, r: seq<Chunk>, chunk: Chunk, waiting: seq<Chunk>)
    ensures Conserved(w, t, r, chunk, [], waiting) <==> Conserved(w, t, r, [], [chunk], waiting)
  {
    FlattenOne(chunk);
  }

  lemma MoveFromQueue(w: seq<byte>, t: seq<byte>, r: seq<Chunk>, waiting: seq<Chunk>)
    requires waiting != [] && Conserved(w, t, r, [], [], waiting)
    ensures Conserved(w, t, r, waiting[0], [], waiting[1..])
  {
  }

  lemma MoveIn(w: seq<byte>, t: seq<byte>, r: seq<Chunk>, b: seq<Chunk>, waiting: seq<Chunk>, chunk: Chunk)
    requires Conserved(w, t, r, [], b, waiting)
    ensures Conserved(w + chunk, t, r, [], b, waiting + [chunk])
    ensures b == [] && waiting == [] ==> Conserved(w + chunk, t, r, chunk, [], [])
  {
    FlattenPush(waiting, chunk);
  }

  lemma MoveOut(w: seq<byte>, t: seq<byte>, r: seq<Chunk>, r': seq<Chunk>, out: Chunk, c: seq<byte>, b: seq<Chunk>,
                waiting: seq<Chunk>)
    requires Conserved(w, t, r, c, b, waiting) && Flatten(r) == out + Flatten(r')
    ensures Conserved(w, t + out, r', c, b, waiting)
  {
  }

  lemma NonEmptyMoves(list: seq<Chunk>, chunk: Chunk, k: nat)
    requires Readable.NonEmpty(list) && chunk != [] && k <= |list|
    ensures Readable.NonEmpty(list + [chunk]) && Readable.NonEmpty(list[k..])
    ensures Flatten(list + [chunk]) == Flatten(list) + chunk
    ensures list[k..] == [] <==> Flatten(list[k..]) == []
  {
    FlattenPush(list, chunk);
    if Flatten(list[k..]) == [] {
      Readable.FlattenNothing(list[k..]);
    }
  }

  function Lengths(list: seq<Chunk>): (r: seq<nat>)
    ensures |r| == |list|
  {
    seq(|list|, i requires 0 <= i < |list| => |list[i]|)
  }

  lemma QueueParts(list: seq<Chunk>, c: nat)
    requires c < |list| && Readable.NonEmpty(list)
    ensures list[c] != [] && |Flatten(list[c..])| == |list[c]| + |Flatten(list[c + 1..])|
  {
    assert list[c..][1..] == list[c + 1..];
  }

  lemma LengthsNone()
    ensures Lengths([]) == []
  {
  }

  lemma LengthsParts(list: seq<Chunk>, c: nat)
    requires c < |list|
    ensures Lengths(list[c..])[0] == |list[c]| && Lengths(list[c..])[1..] == Lengths(list[c + 1..])
  {
  }

  /** What the calls inside a stream change in one direction only. */
  datatype Progress = Progress(written: seq<byte>, taken: seq<byte>, got: seq<byte>, len: int, processing: bool,
                               queue: seq<Chunk>, cursor: nat, inRead: bool, ending: bool, wEnded: bool, rEnded: bool,
                               rSync: bool, rank: nat, drain: bool)

  /** The fields that only the writable side changes. */
  datatype WriterState = WriterState(wBuffer: seq<Chunk>, wLength: int, writing: bool, writelen: nat, stage: Stage,
                                     tBuffer: seq<Chunk>, finishing: bool, finished: bool, needDrain: bool, drainTicks: nat)

  /**
   * Bytes are only taken, and not while a `read` relies on them, and callers have got them; the end is final; chunks only
   * move on.
   */
  ghost predicate Onward(a: Progress, b: Progress) {
    && b.written == a.written && a.taken <= b.taken
    && b.processing == a.processing && b.inRead == a.inRead
    && (b.processing ==> b.queue == a.queue && b.cursor == a.cursor)
    && b.ending == a.ending && b.wEnded == a.wEnded
    && (a.rEnded ==> b.rEnded) && (b.rSync ==> a.rSync)
    && b.rank <= a.rank
    && (b.inRead && !b.rEnded ==> b.taken == a.taken)
    && |b.taken| + b.len >= |a.taken| + a.len
    && (a.got == a.taken ==> b.got == b.taken) && b.drain == a.drain
  }

  lemma OnwardSelf(a: Progress)
    ensures Onward(a, a)
  {
  }

  lemma OnwardTrans(a: Progress, b: Progress, c: Progress)
    requires Onward(a, b) && Onward(b, c)
    ensures Onward(a, c)
  {
  }

  lemma OnwardFacts(a: Progress, b: Progress)
    requires Onward(a, b)
    ensures b.written == a.written && |a.taken| <= |b.taken| && b.inRead == a.inRead && b.ending == a.ending
    ensures b.wEnded == a.wEnded
    ensures b.processing == a.processing && (b.processing ==> b.queue == a.queue && b.cursor == a.cursor)
    ensures (a.rEnded ==> b.rEnded) && (b.rSync ==> a.rSync) && b.rank <= a.rank && b.drain == a.drain
  {
  }

  lemma OnwardTaken(a: Progress, b: Progress)
    requires Onward(a, b)
    ensures a.taken <= b.taken && (a.got == a.taken ==> b.got == b.taken)
  {
  }

  lemma OnwardRank(a: Progress, b: Progress, c: Progress)
    requires b == a.(rank := b.rank) && b.rank <= a.rank && Onward(b, c)
    ensures Onward(a, c)
  {
  }

  lemma OnwardGrow(a: Progress, b: Progress)
    requires b == a.(len := b.len) && b.len >= a.len
    ensures Onward(a, b)
  {
  }

  lemma OnwardEnd(a: Progress)
    ensures Onward(a, a.(rEnded := true))
  {
  }

  /** A `read` that marked itself, and unmarks itself again. */
  lemma OnwardRead(a: Progress, b: Progress, c: Progress)
    requires b == a.(inRead := b.inRead, rSync := true) && (a.inRead ==> b.inRead) && Onward(b, c)
    ensures Onward(a, c.(inRead := a.inRead, rSync := false))
    ensures c.inRead == b.inRead && c.ending == a.ending && (b.inRead && !c.rEnded ==> c.len >= a.len)
  {
  }

  /** The bytes `x` have left the buffer. */
  function Less(p: Progress, x: seq<byte>): Progress {
    p.(taken := p.taken + x, len := p.len - |x|)
  }

  lemma LessNothing(p: Progress)
    ensures Less(p, []) == p
  {
    assert p.taken + [] == p.taken;
  }

  lemma OnwardTake(a: Progress, b: Progress, x: seq<byte>)
    requires Onward(a, b) && (x == [] || !(b.inRead && !b.rEnded))
    ensures Onward(a, Less(b, x).(got := b.got + x))
  {
    LessNothing(b);
    assert b.got + [] == b.got;
  }

  lemma OnwardCursor(a: Progress, c: nat, b: Progress)
    requires Onward(a.(cursor := c), b)
    ensures Onward(a.(cursor := c + 1), b.(cursor := c + 1))
    ensures b.processing && a.processing ==> b.(cursor := c) == b
  {
  }

  lemma OnwardLoop(a: Progress, start: Progress, c: nat, b: Progress, d: Progress)
    requires start == a.(processing := true) && !a.processing && Onward(start.(cursor := c), b)
    requires d == b.(processing := false, queue := d.queue, cursor := 0)
    ensures Onward(a, d)
  {
  }

  lemma Suffix<T>(a: seq<T>, b: seq<T>)
    ensures (a + b)[|a + b| - |b|..] == b
  {
  }

  /** The bytes a `read` gives its caller. */
  function Given(ret: Option<Chunk>): Chunk {
    if ret.Some? then ret.value else []
  }

  class Stream {
    const writeMark: int
    const readMark: int
    const lowMark: nat
    /** Listeners of 'readable' may call `read` at once. */
    const reentrant: bool
    /** Each time 'readable' is emitted, the listeners make the calls of `read` that come next here, none when it is used up. */
    var script: seq<seq<Option<int>>>

    // WritableState
    var wLength: int
    var needDrain: bool
    var ending: bool
    var wEnded: bool
    var finishing: bool
    var finished: bool
    var writing: bool
    var bufferProcessing: bool
    var writelen: nat
    var wBuffer: seq<Chunk>
    var drainTicks: nat

    // TransformState
    var tBuffer: seq<Chunk>
    var transforming: bool
    var pending: bool   // pendingReadCb is set; it is always the readable side's onread

    // ReadableState
    var rBuffer: seq<Chunk>
    var rLength: nat
    var rEnded: bool
    var endEmitted: bool
    var reading: bool
    var rSync: bool
    var needReadable: bool
    var emittedReadable: bool

    /** All bytes passed to `write` and `end`; all bytes that have left the buffers; and those that callers of `read` got. */
    ghost var written: seq<byte>
    ghost var taken: seq<byte>
    ghost var got: seq<byte>
    ghost var stage: Stage
    /** Bytes of the chunk in flight while it is in no buffer. */
    ghost var carried: seq<byte>
    ghost var cursor: nat
    /** A `read` that relies on what is buffered is waiting for its `_read` to return. */
    ghost var inRead: bool
    /** 'end' events emitted or scheduled; `done` emitted one itself; one was scheduled with data still buffered. */
    ghost var endEvents: nat
    ghost var endAtDone: bool
    ghost var early: bool

    ghost function Waiting(): seq<Chunk>
      reads this`cursor, this`wBuffer
    {
      if cursor <= |wBuffer| then wBuffer[cursor..] else []
    }

    ghost predicate ReadableSide()
      reads this`rBuffer, this`rLength
    {
      Readable.NonEmpty(rBuffer) && rLength == |Flatten(rBuffer)|
    }

    ghost predicate WritableSide()
      reads this`cursor, this`wBuffer, this`bufferProcessing, this`writing, this`writelen, this`wLength
      reads this`stage, this`tBuffer, this`transforming
    {
      && cursor <= |wBuffer| && (!bufferProcessing ==> cursor == 0)
      && Readable.NonEmpty(wBuffer)
      && (writing <==> stage != Idle) && (writing ==> writelen > 0)
      && wLength == (if writing then writelen else 0) + |Flatten(Waiting())|
      && |tBuffer| <= 1 && (stage == Queued <==> tBuffer != [])
      && (tBuffer != [] ==> |tBuffer[0]| == writelen)
      && !transforming
    }

    ghost predicate Ending()
      reads this`ending, this`wEnded, this`finishing, this`finished, this`wLength, this`rEnded, this`endEmitted
      reads this`reading, this`pending
    {
      && (finishing ==> ending && wLength == 0) && (wEnded ==> ending)
      && (finished ==> rEnded) && (rEnded ==> finishing && !reading) && (endEmitted ==> rEnded)
      && (pending ==> reading || rEnded)
    }

    ghost predicate Ends()
      reads this`endEvents, this`endEmitted, this`endAtDone, this`early, this`rEnded, this`rLength
    {
      && endEvents == (if endEmitted then 1 else 0) + (if endAtDone then 1 else 0)
      && (endAtDone ==> rEnded && rLength == 0) && (early ==> endEmitted)
    }

    ghost predicate Bytes()
      reads this`written, this`taken, this`rBuffer, this`carried, this`tBuffer, this`cursor, this`wBuffer
    {
      Conserved(written, taken, rBuffer, carried, tBuffer, Waiting())
    }

    /** The marks with which listeners may read at any time. */
    ghost predicate SafeMarks() {
      Spec.Safe(Marks())
    }

    /**
     * Inside a `read` that relies on what is buffered, a `_read` may be pending only while nothing is announced and nobody
     * needs to be told.
     */
    ghost predicate Quiet()
      reads this`inRead, this`pending, this`rEnded, this`rSync, this`rLength, this`needReadable, this`script
    {
      && (if reentrant then SafeMarks() else script == [])
      && (reentrant && inRead && !rEnded ==>
            rLength >= 2 && (rLength >= lowMark || !needReadable) && (pending ==> rSync))
    }

    /** After a chunk has arrived inside such a `read`, one is pending exactly below the low mark. */
    ghost predicate Calm()
      reads this`inRead, this`pending, this`rEnded, this`rSync, this`rLength, this`needReadable
    {
      reentrant && inRead && !rEnded ==>
        (pending <==> rLength <= lowMark) && (pending ==> lowMark > 2 && rSync && !needReadable)
    }

    /** A chunk stays in the transform queue only while there is no room for it and nobody asks. */
    ghost predicate Parked()
      reads this`tBuffer, this`needReadable, this`rLength
    {
      tBuffer != [] ==> !needReadable && rLength > readMark
    }

    /** Later somebody may ask, but then there is no room, or nothing left. */
    ghost predicate Asking()
      reads this`tBuffer, this`needReadable, this`rLength, this`rEnded
    {
      tBuffer != [] && !rEnded && needReadable ==> rLength > readMark || rLength == 0
    }

    /** The readable side as module PassThroughView has it, for listeners that do not read. */
    ghost function Now(): Spec.View
      reads this`rLength, this`needReadable, this`emittedReadable, this`pending, this`rSync, this`rEnded, this`endEmitted
      reads this`early, this`endAtDone, this`script
    {
      Spec.View(rLength, rLength, needReadable, emittedReadable, pending, rSync, rEnded, endEmitted, early, endAtDone, script)
    }

    ghost function Marks(): Spec.Marks {
      Spec.Marks(lowMark, readMark)
    }

    /** The sizes of the chunks that the loop of `onwrite` will go through. */
    ghost function Rest(): seq<nat>
      reads this`bufferProcessing, this`wBuffer
    {
      if bufferProcessing then [] else Lengths(wBuffer)
    }

    /** The chunk in flight is the last one. */
    ghost predicate Last()
      reads this`ending, this`wLength, this`writelen
    {
      ending && wLength == writelen
    }

    /** Holds at every call from one half of the stream to another. */
    ghost predicate Core()
      reads this
    {
      Books() && Ending() && Quiet()
    }

    ghost predicate Books()
      reads this`rBuffer, this`rLength, this`cursor, this`wBuffer, this`bufferProcessing, this`writing
      reads this`writelen, this`wLength
      reads this`stage, this`tBuffer, this`transforming, this`written, this`taken, this`carried
      reads this`endEvents, this`endEmitted, this`endAtDone, this`early, this`rEnded
    {
      ReadableSide() && WritableSide() && Ends() && Bytes()
    }

    /** The readable side waits exactly when the transform side holds its callback. */
    ghost predicate Paired()
      reads this`rEnded, this`reading, this`pending
    {
      rEnded || (reading <==> pending)
    }

    /** Nothing of the stream is on the stack. */
    ghost predicate Resting()
      reads this
    {
      && Core() && Paired() && carried == [] && (stage == Idle || stage == Queued)
      && !bufferProcessing && !inRead && !rSync && (wBuffer != [] ==> writing)
      && ending == wEnded && finishing == finished && (wEnded && wLength == 0 ==> finished)
      && (pending && !rEnded ==> !writing) && Asking() && got == taken && DrainDue()
    }

    /** Decreases with every chunk that goes through. */
    ghost function Rank(): nat
      reads this`tBuffer, this`cursor, this`wBuffer, this`stage
    {
      |tBuffer| + (if cursor <= |wBuffer| then |wBuffer| - cursor else 0) + (if stage == Handed then 1 else 0)
    }

    /** What all the calls inside the stream leave alone, or move one way only. */
    twostate predicate Stable()
      reads this
    {
      Onward(old(Snap()), Snap())
    }

    /** The same for a `read`, once its caller has got the result. */
    twostate predicate StableWith(new ret: Option<Chunk>)
      reads this
    {
      Onward(old(Snap()), Snap().(got := got + Given(ret)))
    }

    /** The writable side is as it was, and `done` has not run. */
    twostate predicate WriterKept()
      reads this
    {
      Writer() == old(Writer()) && endAtDone == old(endAtDone)
    }

    ghost function Snap(): Progress
      reads this`written, this`taken, this`got, this`rLength, this`bufferProcessing, this`wBuffer, this`cursor
      reads this`inRead, this`ending, this`wEnded, this`rEnded, this`rSync, this`tBuffer, this`stage, this`needDrain
    {
      Progress(written, taken, got, rLength, bufferProcessing, wBuffer, cursor, inRead, ending, wEnded, rEnded, rSync, Rank(),
               needDrain)
    }

    ghost function Writer(): WriterState
      reads this`wBuffer, this`wLength, this`writing, this`writelen, this`stage, this`tBuffer, this`finishing, this`finished
      reads this`needDrain, this`drainTicks
    {
      WriterState(wBuffer, wLength, writing, writelen, stage, tBuffer, finishing, finished, needDrain, drainTicks)
    }

    /** A writer that was told to wait will be told to go on. */
    ghost predicate DrainDue()
      reads this`needDrain, this`drainTicks, this`writing, this`wLength, this`finished
    {
      needDrain && !writing && wLength <= lowMark ==> drainTicks > 0 || finished
    }

    /** After a chunk has been dealt with: nothing is left waiting for a reader that is ready. */
    ghost predicate Settled()
      reads this`stage, this`bufferProcessing, this`wBuffer, this`writing, this`ending, this`wLength, this`finished
      reads this`pending, this`rEnded, this`tBuffer, this`needDrain, this`drainTicks
    {
      && DrainDue()
      && (stage == Idle || stage == Queued)
      && (!bufferProcessing && wBuffer != [] ==> writing)
      && (ending && wLength == 0 ==> finished)
      && (pending && !rEnded ==> tBuffer == [])
    }

    // ---------- facts about a state ----------

    lemma NothingToRead(n: Option<int>, length: nat)
      ensures Readable.HowMuchToRead(n, length, true) == 0 <==> length == 0 || (n.Some? && n.value <= 0)
    {
    }

    lemma QueuedIsSettled()
      requires Core() && tBuffer != [] && (pending ==> rEnded)
      ensures Settled()
    {
    }

    lemma QueuedNotFinishing()
      requires Core() && cursor < |wBuffer|
      ensures !finishing && !rEnded
    {
      Readable.FirstChunk(Waiting());
    }

    lemma MarksAreSafe()
      requires Core()
      ensures if reentrant then SafeMarks() else script == []
    {
    }

    lemma IdleWhenEmpty()
      requires Core() && wLength == 0
      ensures stage == Idle
    {
    }

    lemma StageIs()
      requires Core()
      ensures (writing <==> stage != Idle) && (stage == Queued <==> tBuffer != [])
    {
    }

    lemma QueueIsEmpty()
      requires Core() && stage != Idle
      ensures wLength == writelen <==> cursor == |wBuffer|
    {
      NonEmptyMoves(wBuffer, [0], cursor);
    }

    lemma EndedIsEmpty()
      requires Core() && (finishing || rEnded)
      ensures tBuffer == [] && stage == Idle && (!bufferProcessing ==> wBuffer == [])
    {
      if Flatten(Waiting()) == [] {
        NonEmptyMoves(wBuffer, [0], cursor);
      }
    }

    lemma NowIs()
      ensures var v := Now();
              && v.len == v.held == rLength && v.need == needReadable && v.told == emittedReadable && v.pend == pending
              && v.sync == rSync && v.ended == rEnded && v.early == early && v.atDone == endAtDone && v.script == script
    {
    }

    /** The tests of `read` in terms of the view. */
    lemma Tests(n: Option<int>)
      requires Core() && Paired()
      ensures Spec.Reading(Now()) <==> reading
      ensures reading ==> !rEnded
      ensures var m := Readable.HowMuchToRead(n, rLength, rEnded);
              && m == Spec.Much(Now(), n)
              && (Spec.Pulls(Spec.Looked(Now(), n), m, Marks()) <==>
                  (needReadable || Readable.AsksForMore(n, rLength, rEnded) || rLength - m <= readMark) && !rEnded && !reading)
    {
      hide Books;
    }

    // ---------- readable side ----------

    method EndReadable()
      requires Core() && rEnded
      modifies this`endEmitted, this`endEvents, this`early
      ensures Core() && endEmitted && early == (old(early) || (!old(endEmitted) && rLength > 0))
      ensures Now() == Spec.Scheduled(old(Now()))
    {
      hide ReadableSide;
      hide WritableSide;
      hide Bytes;
      hide Quiet;
      if endEmitted {
        return;
      }
      endEmitted := true;
      endEvents, early := endEvents + 1, rLength > 0;
    }

    /** `howMuchToRead` */
    method HowMuchToRead(n: Option<int>) returns (m: nat)
      requires Core()
      requires reentrant && inRead && !rEnded ==> n.Some? && n.value <= 0
      modifies this`needReadable
      ensures Core() && Now() == Spec.Asked(old(Now()), n)
      ensures needReadable == (old(needReadable) || Readable.AsksForMore(n, rLength, rEnded))
      ensures m == Readable.HowMuchToRead(n, rLength, rEnded) == Spec.Much(old(Now()), n)
    {
      hide Books;
      hide Ending;
      if Readable.AsksForMore(n, rLength, rEnded) {
        needReadable := true;
      }
      m := Readable.HowMuchToRead(n, rLength, rEnded);
    }

    /** The start of `read`. */
    method Look(n: Option<int>)
      requires Core()
      requires reentrant && inRead && !rEnded ==> n.Some? && n.value <= 0
      modifies this`emittedReadable, this`needReadable
      ensures Core() && Now() == Spec.Looked(old(Now()), n)
      ensures needReadable == (old(needReadable) || Readable.AsksForMore(n, rLength, rEnded))
    {
      hide Books;
      hide Ending;
      hide Quiet;
      if n.None? || n.value > 0 {
        emittedReadable := false;
      }
      var _ := HowMuchToRead(n);
    }

    /** `read(n)`: also called with 0 by `_write`, and by listeners of 'readable'. */
    method Read(n: Option<int>) returns (ret: Option<Chunk>)
      requires Core() && Paired() && carried == [] && stage != Handed
      requires Calm() && (reentrant && inRead && !rEnded ==> tBuffer != [] && !pending)
      requires pending && !rEnded ==> tBuffer == []
      requires Asking() || (n.Some? && n.value <= 0)
      requires inRead && !rEnded ==> n.Some? && n.value <= 0
      modifies this
      ensures Core() && StableWith(ret) && Paired() && carried == []
      ensures old(tBuffer) == [] ==> WriterKept() && rEnded == old(rEnded)
      ensures old(tBuffer) != [] ==> Settled()
      ensures Calm() && (reentrant && inRead && !rEnded ==> !pending)
      ensures old(tBuffer) != [] ==> Asking()
      ensures ret.Some? ==> ret.value != [] && |old(taken)| + |ret.value| <= |taken|
      ensures ret.Some? ==> taken[|taken| - |ret.value|..] == ret.value
      ensures ret.Some? && n.Some? ==>
                n.value > 0 && (|ret.value| == n.value || (rEnded && rBuffer == [] && |ret.value| < n.value))
      ensures old(rEnded) && (old(rLength) == 0 || (n.Some? && n.value <= 0)) ==>
                ret.None? && endEmitted && early == (old(early) || (!old(endEmitted) && old(rLength) > 0))
      ensures old(rEnded) && !(old(rLength) == 0 || (n.Some? && n.value <= 0)) ==> early == old(early)
      ensures old(tBuffer) == [] ==> Now() == Spec.ReadEmpty(old(Now()), n, Marks())
      ensures old(tBuffer) != [] ==>
                Now() == Spec.ReadQueued(old(Now()), n, old(writelen), old(Last()), old(Rest()), ending, Marks()).v
      ensures old(tBuffer != [] && Rest() == [] && Pulling(n)) ==> tBuffer == []
      decreases Rank(), 5, 1
    {
      hide Core;
      hide Snap;
      hide Onward;
      hide Writer;
      hide Now;
      hide Settled;
      hide Readable.HowMuchToRead;
      hide Spec.ReadEmpty;
      hide Spec.ReadQueued;
      hide Rest;
      hide Rank;
      NothingToRead(n, rLength);
      if rEnded {
        EndedIsEmpty();
        if Readable.HowMuchToRead(n, rLength, true) == 0 {
          ReadAtEnd(n);
          NothingGot();
          return None;
        }
      }
      ret := FillAndTake(n);
    }

    /** `read(n)` will call `_read`. */
    ghost predicate Pulling(n: Option<int>)
      reads this`rLength, this`needReadable, this`rEnded, this`reading
    {
      var m := Readable.HowMuchToRead(n, rLength, rEnded);
      (needReadable || Readable.AsksForMore(n, rLength, rEnded) || rLength - m <= readMark) && !rEnded && !reading
    }

    /** `read(n)` after the end, with nothing to return. */
    method ReadAtEnd(n: Option<int>)
      requires Core() && Paired() && rEnded && Readable.HowMuchToRead(n, rLength, true) == 0
      modifies this`emittedReadable, this`needReadable, this`endEmitted, this`endEvents, this`early
      ensures Core() && Stable() && Paired() && WriterKept() && endEmitted
      ensures early == (old(early) || (!old(endEmitted) && rLength > 0))
      ensures Now() == Spec.ReadEmpty(old(Now()), n, Marks())
    {
      hide Core;
      hide Snap;
      hide Onward;
      hide Writer;
      hide Now;
      hide Spec.Looked;
      hide Spec.Scheduled;
      hide Spec.ReadEmpty;
      Tests(n);
      NowIs();
      Spec.ReadEmptyCases(Now(), n, Marks());
      OnwardSelf(Snap());
      Look(n);
      EndReadable();
    }

    method FillAndTake(n: Option<int>) returns (ret: Option<Chunk>)
      requires Core() && Paired() && carried == [] && stage != Handed
      requires Calm() && (reentrant && inRead && !rEnded ==> tBuffer != [] && !pending)
      requires pending && !rEnded ==> tBuffer == []
      requires Asking() || (n.Some? && n.value <= 0)
      requires rEnded ==> tBuffer == [] && Readable.HowMuchToRead(n, rLength, true) > 0
      requires inRead && !rEnded ==> n.Some? && n.value <= 0
      modifies this
      ensures Core() && StableWith(ret) && Paired() && carried == []
      ensures old(tBuffer) == [] ==> WriterKept() && rEnded == old(rEnded)
      ensures old(tBuffer) != [] ==> Settled()
      ensures Calm() && (reentrant && inRead && !rEnded ==> !pending)
      ensures old(tBuffer) != [] ==> Asking()
      ensures ret.Some? ==> ret.value != [] && |old(taken)| + |ret.value| <= |taken|
      ensures ret.Some? ==> taken[|taken| - |ret.value|..] == ret.value
      ensures ret.Some? && n.Some? ==>
                n.value > 0 && (|ret.value| == n.value || (rEnded && rBuffer == [] && |ret.value| < n.value))
      ensures old(rEnded) ==> early == old(early)
      ensures old(tBuffer) == [] ==> Now() == Spec.ReadEmpty(old(Now()), n, Marks())
      ensures old(tBuffer) != [] ==>
                Now() == Spec.ReadQueued(old(Now()), n, old(writelen), old(Last()), old(Rest()), ending, Marks()).v
      ensures old(tBuffer != [] && Rest() == [] && Pulling(n)) ==> tBuffer == []
      decreases Rank(), 5, 0
    {
      hide Calm;
      hide Last;
      hide Less;
      hide Core;
      hide Snap;
      hide Onward;
      hide Writer;
      hide Now;
      hide Settled;
      hide Readable.HowMuchToRead;
      hide Spec.ReadEmpty;
      hide Spec.ReadQueued;
      hide Spec.Returned;
      hide Rest;
      hide Rank;
      hide Paired;
      var m' := Fill(n);
      ghost var before := Snap();
      SnapIs();
      ret := Take(m');
      OnwardTake(old(Snap()), before, Given(ret));
    }

    lemma NothingGot()
      ensures Snap().(got := got + Given(None)) == Snap()
    {
      assert got + [] == got;
    }

    lemma SnapIs()
      ensures var p := Snap();
              && p.written == written && p.taken == taken && p.got == got && p.len == rLength && p.inRead == inRead
              && p.rank == Rank()
              && p.processing == bufferProcessing && p.queue == wBuffer && p.cursor == cursor
              && p.ending == ending && p.wEnded == wEnded && p.rEnded == rEnded && p.rSync == rSync && p.drain == needDrain
    {
    }

    /** The middle of `read`: how much can be returned after a `_read` that may have run at once. */
    method Fill(n: Option<int>) returns (m': nat)
      requires Core() && Paired() && carried == [] && stage != Handed
      requires Calm() && (reentrant && inRead && !rEnded ==> tBuffer != [] && !pending)
      requires pending && !rEnded ==> tBuffer == []
      requires Asking() || (n.Some? && n.value <= 0)
      requires inRead && !rEnded ==> n.Some? && n.value <= 0
      requires rEnded ==> tBuffer == [] && Readable.HowMuchToRead(n, rLength, true) > 0
      modifies this
      ensures Core() && Stable() && Paired() && carried == []
      ensures old(tBuffer) == [] ==> WriterKept() && rEnded == old(rEnded)
      ensures old(tBuffer) != [] ==> Settled()
      ensures Calm() && (reentrant && inRead && !rEnded ==> !pending)
      ensures old(tBuffer) != [] && tBuffer != [] && !rEnded && needReadable ==> rLength > readMark && m' == 0
      ensures old(tBuffer) != [] && tBuffer != [] && !rEnded && m' == 0 ==> rLength > readMark
      ensures inRead == old(inRead) && |old(taken)| <= |taken| && (old(rEnded) ==> rEnded)
      ensures m' <= rLength || (m' == 1 && rLength == 0)
      ensures m' > 0 && n.Some? ==> n.value > 0 && (m' == n.value || (rEnded && m' == rLength && m' < n.value))
      ensures old(rEnded) ==> early == old(early)
      ensures old(tBuffer) == [] ==> Spec.Returned(Now(), m') == Spec.ReadEmpty(old(Now()), n, Marks())
      ensures old(tBuffer) != [] ==>
                Spec.Returned(Now(), m')
                == Spec.ReadQueued(old(Now()), n, old(writelen), old(Last()), old(Rest()), ending, Marks()).v
      ensures old(tBuffer != [] && Rest() == [] && Pulling(n)) ==> tBuffer == []
      decreases Rank(), 4, 2
    {
      hide Core;
      hide Snap;
      hide Onward;
      hide Writer;
      hide Now;
      hide Settled;
      hide Spec.ReadEmpty;
      hide Spec.ReadQueued;
      hide Spec.Returned;
      hide Rest;
      hide Rank;
      m' := Readable.HowMuchToRead(n, rLength, rEnded);
      if (needReadable || Readable.AsksForMore(n, rLength, rEnded) || rLength - m' <= readMark) && !rEnded && !reading {
        m' := FillNow(n);
      } else {
        OnwardSelf(Snap());
        if tBuffer != [] {
          QueuedIsSettled();
        }
        LookOnly(n);
      }
    }

    /** `_read` is not called. */
    method LookOnly(n: Option<int>)
      requires Core() && Paired() && !Pulling(n) && (inRead && !rEnded ==> n.Some? && n.value <= 0)
      requires rEnded ==> tBuffer == [] && Readable.HowMuchToRead(n, rLength, true) > 0
      modifies this`emittedReadable, this`needReadable
      ensures Core() && Calm() == old(Calm())
      ensures needReadable == (old(needReadable) || Readable.AsksForMore(n, rLength, rEnded))
      ensures Spec.Returned(Now(), Readable.HowMuchToRead(n, rLength, rEnded))
           == if tBuffer == [] then Spec.ReadEmpty(old(Now()), n, Marks())
              else Spec.ReadQueued(old(Now()), n, writelen, Last(), Rest(), ending, Marks()).v
    {
      hide Core;
      hide Now;
      hide Rest;
      hide Spec.ReadEmpty;
      hide Spec.ReadQueued;
      hide Spec.Returned;
      hide Spec.Looked;
      hide Spec.Pulls;
      hide Spec.Much;
      Tests(n);
      NowIs();
      Spec.ReadQueuedCases(Now(), n, writelen, Last(), Rest(), ending, Marks());
      Spec.ReadEmptyCases(Now(), n, Marks());
      Look(n);
    }

    /** The same when `_read` is called. */
    method FillNow(n: Option<int>) returns (m': nat)
      requires Core() && Paired() && carried == [] && stage != Handed
      requires Calm() && (reentrant && inRead && !rEnded ==> tBuffer != [] && !pending)
      requires pending && !rEnded ==> tBuffer == []
      requires Asking() || (n.Some? && n.value <= 0)
      requires inRead && !rEnded ==> n.Some? && n.value <= 0
      requires Pulling(n)
      modifies this
      ensures Core() && Stable() && Paired() && carried == []
      ensures old(tBuffer) == [] ==> WriterKept() && rEnded == old(rEnded)
      ensures old(tBuffer) != [] ==> Settled()
      ensures Calm() && (reentrant && inRead && !rEnded ==> !pending)
      ensures old(tBuffer) != [] && tBuffer != [] && !rEnded && needReadable ==> rLength > readMark && m' == 0
      ensures old(tBuffer) != [] && tBuffer != [] && !rEnded && m' == 0 ==> rLength > readMark
      ensures inRead == old(inRead) && |old(taken)| <= |taken|
      ensures m' <= rLength || (m' == 1 && rLength == 0)
      ensures m' > 0 && n.Some? ==> n.value > 0 && (m' == n.value || (rEnded && m' == rLength && m' < n.value))
      ensures old(tBuffer) == [] ==> Spec.Returned(Now(), m') == Spec.ReadEmpty(old(Now()), n, Marks())
      ensures old(tBuffer) != [] ==>
                Spec.Returned(Now(), m')
                == Spec.ReadQueued(old(Now()), n, old(writelen), old(Last()), old(Rest()), ending, Marks()).v
      ensures old(tBuffer != [] && Rest() == []) ==> tBuffer == []
      decreases Rank(), 4, 1
    {
      hide Core;
      hide Snap;
      hide Onward;
      hide Writer;
      hide Now;
      hide Settled;
      hide Spec.ReadEmpty;
      hide Spec.ReadQueued;
      hide Spec.Returned;
      hide Spec.Looked;
      hide Spec.Asked;
      hide Spec.Begun;
      hide Spec.Pulled;
      hide Spec.Pulls;
      hide Spec.Reading;
      hide Spec.Much;
      hide Rest;
      hide Rank;
      Tests(n);
      NowIs();
      MarksAreSafe();
      if tBuffer != [] {
        Spec.ReadQueuedCases(Now(), n, writelen, Last(), Rest(), ending, Marks());
      } else {
        Spec.ReadEmptyCases(Now(), n, Marks());
      }
      m' := Readable.HowMuchToRead(n, rLength, rEnded);
      ReadNow(n, m');
      Tests(n);
      if !reading {
        m' := HowMuchToRead(n);
      }
    }

    /** The call of `_read`, marked as synchronous while it lasts. */
    method ReadNow(n: Option<int>, m: nat)
      requires m == Readable.HowMuchToRead(n, rLength, rEnded) <= rLength
      requires (reentrant && inRead ==> n.Some? && n.value <= 0 && rLength > lowMark)
      requires reentrant && m >= 2 && tBuffer != [] ==> rLength >= lowMark || !needReadable
      requires Core() && !reading && !pending && !rEnded && carried == [] && stage != Handed
      requires reentrant && inRead ==> tBuffer != []
      modifies this
      ensures Core() && Stable() && Paired() && carried == []
      ensures ending == old(ending) && inRead == old(inRead) && |old(taken)| <= |taken|
      ensures old(tBuffer) == [] ==> WriterKept() && rEnded == old(rEnded)
      ensures old(tBuffer) != [] ==> Settled()
      ensures Calm() && (reentrant && inRead && !rEnded ==> !pending) && (old(tBuffer) != [] ==> Parked())
      ensures !rEnded && (m >= 2 || !reentrant) ==> rLength >= old(rLength)
      ensures old(tBuffer) == [] ==> reading
      ensures Now() == Spec.Called(Spec.Begun(Spec.Looked(old(Now()), n)), old(tBuffer) != [], old(writelen), old(Last()),
                                     old(Rest()), ending, Marks()).(sync := false)
      ensures old(tBuffer != [] && Rest() == []) ==> tBuffer == []
      decreases Rank(), 4, 0
    {
      hide Core;
      hide Snap;
      hide Onward;
      hide Writer;
      hide Now;
      hide Settled;
      hide Spec.Looked;
      hide Spec.Begun;
      hide Spec.Called;
      hide Rest;
      hide Rank;
      hide Paired;
      SnapIs();
      ghost var start := Snap();
      BeginRead(n, m);
      CallRead(start);
    }

    /** `_read`, and the marks are taken back. */
    method CallRead(ghost start: Progress)
      requires Core() && reading && rSync && !pending && !rEnded && carried == [] && stage != Handed
      requires Snap() == start.(inRead := inRead, rSync := true) && (start.inRead ==> inRead)
      requires reentrant && start.inRead ==> tBuffer != [] && rLength > lowMark
      requires reentrant && inRead ==> tBuffer != []
      modifies this
      ensures Core() && Paired() && carried == [] && Onward(start, Snap())
      ensures ending == old(ending) && inRead == start.inRead && |old(taken)| <= |taken|
      ensures old(tBuffer) == [] ==> WriterKept() && !rEnded && reading && rLength == old(rLength)
      ensures old(tBuffer) != [] ==> Settled()
      ensures Calm() && (reentrant && inRead && !rEnded ==> !pending) && (old(tBuffer) != [] ==> Parked())
      ensures !rEnded && old(inRead) ==> rLength >= old(rLength)
      ensures Now() == Spec.Called(old(Now()), old(tBuffer) != [], old(writelen), old(Last()), old(Rest()), ending, Marks())
                         .(sync := false)
      ensures old(tBuffer != [] && Rest() == []) ==> tBuffer == []
      decreases Rank(), 3, 1
    {
      hide Parked;
      hide Last;
      hide Core;
      hide Snap;
      hide Onward;
      hide Writer;
      hide Now;
      hide Settled;
      hide Rest;
      hide Rank;
      hide Spec.Called;
      ghost var begun := Snap();
      SnapIs();
      TRead();
      SnapIs();
      OnwardRead(start, begun, Snap());
      EndRead(start.inRead);
    }

    method BeginRead(n: Option<int>, m: nat)
      requires Core() && !reading && !pending && !rEnded && m == Readable.HowMuchToRead(n, rLength, rEnded)
      requires (reentrant && inRead ==> n.Some? && n.value <= 0)
      requires reentrant && m >= 2 && tBuffer != [] ==> rLength >= lowMark || !needReadable
      modifies this`reading, this`rSync, this`needReadable, this`inRead, this`emittedReadable
      ensures Core() && reading && rSync && inRead == (old(inRead) || (m >= 2 && tBuffer != []) || !reentrant)
      ensures Snap() == old(Snap()).(inRead := inRead, rSync := true) && Writer() == old(Writer())
      ensures Now() == Spec.Begun(Spec.Looked(old(Now()), n))
    {
      hide Core;
      hide Snap;
      hide Now;
      hide Spec.Looked;
      hide Spec.Begun;
      Look(n);
      Mark(m);
    }

    method Mark(m: nat)
      requires Core() && !reading && !pending && !rEnded && m <= rLength
      requires reentrant && m >= 2 && tBuffer != [] ==> rLength >= lowMark || !needReadable
      modifies this`reading, this`rSync, this`needReadable, this`inRead
      ensures Core() && reading && rSync && inRead == (old(inRead) || (m >= 2 && tBuffer != []) || !reentrant)
      ensures Snap() == old(Snap()).(inRead := inRead, rSync := true) && Now() == Spec.Begun(old(Now()))
    {
      hide Books;
      reading, rSync := true, true;
      if rLength == 0 {
        needReadable := true;
      }
      inRead := inRead || (m >= 2 && tBuffer != []) || !reentrant;
    }

    method EndRead(ghost outer: bool)
      requires Core() && (outer ==> inRead) && (reentrant && outer && !rEnded ==> !pending)
      modifies this`rSync, this`inRead
      ensures Core() && !rSync && inRead == outer && Now() == old(Now()).(sync := false)
      ensures Snap() == old(Snap()).(inRead := outer, rSync := false) && Writer() == old(Writer())
    {
      hide Books;
      hide Ending;
      inRead := outer;
      rSync := false;
    }

    /** The end of `read`: the bytes leave the buffer. */
    method Take(m: nat) returns (ret: Option<Chunk>)
      requires Core() && (m <= rLength || (m == 1 && rLength == 0)) && (inRead && !rEnded ==> m == 0)
      requires Calm() && (reentrant && inRead && !rEnded ==> !pending)
      modifies this`rBuffer, this`rLength, this`needReadable, this`taken
      ensures needReadable == (old(needReadable) || ret.None? || (rLength == 0 && !rEnded))
      ensures Core() && Calm()
      ensures m == 0 || old(rLength) == 0 ==> ret == None && Snap() == old(Snap()) && rLength == old(rLength)
      ensures m > 0 && old(rLength) > 0 ==>
                && ret.Some? && |ret.value| == m && taken == old(taken) + ret.value
                && Snap() == old(Snap()).(taken := taken, len := rLength) && rLength == old(rLength) - m
      ensures m > 0 && m == old(rLength) ==> rBuffer == []
      ensures ret.Some? ==> |taken| == |old(taken)| + |ret.value| && taken[|taken| - |ret.value|..] == ret.value
      ensures Snap() == Less(old(Snap()), Given(ret)) && got == old(got)
      ensures Now() == Spec.Returned(old(Now()), m)
    {
      hide Core;
      hide Snap;
      hide Now;
      hide Calm;
      hide Spec.Returned;
      ret := Pluck(m);
      if ret == None || (rLength == 0 && !rEnded) {
        SetNeed();
      }
    }

    /** The bytes, if any are asked for and there are some. */
    method Pluck(m: nat) returns (ret: Option<Chunk>)
      requires Core() && (m <= rLength || (m == 1 && rLength == 0)) && (inRead && !rEnded ==> m == 0)
      requires Calm() && (reentrant && inRead && !rEnded ==> !pending)
      modifies this`rBuffer, this`rLength, this`taken
      ensures Core() && Calm()
      ensures m == 0 || old(rLength) == 0 ==>
                ret == None && Snap() == old(Snap()) && rLength == old(rLength)
      ensures m > 0 && old(rLength) > 0 ==>
                && ret.Some? && |ret.value| == m && taken == old(taken) + ret.value
                && Snap() == old(Snap()).(taken := taken, len := rLength) && rLength == old(rLength) - m
      ensures Snap() == Less(old(Snap()), Given(ret))
      ensures var asks := ret == None || (rLength == 0 && !rEnded);
                Spec.Returned(old(Now()), m) == if asks then Now().(need := true) else Now()
      ensures m > 0 && m == old(rLength) ==> rBuffer == []
      ensures ret.Some? ==> |taken| == |old(taken)| + |ret.value| && taken[|taken| - |ret.value|..] == ret.value
    {
      hide Core;
      hide Snap;
      hide Now;
      hide Spec.Returned;
      NowIs();
      ret := None;
      SnapIs();
      LessNothing(Snap());
      if m > 0 {
        ret := TakeBytes(m);
        if ret.Some? {
          Suffix(old(taken), ret.value);
        }
      }
      NowIs();
      Spec.ReturnedCases(old(Now()), m, Now());
    }

    method SetNeed()
      requires Core() && Calm() && (reentrant && inRead && !rEnded ==> !pending)
      modifies this`needReadable
      ensures Core() && Calm() && needReadable && Now() == old(Now()).(need := true)
    {
      hide Books;
      hide Ending;
      needReadable := true;
    }

    /** `fromList`, and the length follows. */
    method TakeBytes(m: nat) returns (ret: Option<Chunk>)
      requires Core() && m > 0 && (m <= rLength || rLength == 0) && !(inRead && !rEnded)
      modifies this`rBuffer, this`rLength, this`taken
      ensures Core()
      ensures old(rLength) == 0 ==> ret == None && Snap() == old(Snap()) && Now() == old(Now())
      ensures old(rLength) > 0 ==>
                && ret.Some? && |ret.value| == m && taken == old(taken) + ret.value && rLength == old(rLength) - m
                && Snap() == old(Snap()).(taken := taken, len := rLength) && Now() == old(Now()).(len := rLength, held := rLength)
      ensures m == old(rLength) ==> rBuffer == []
    {
      hide WritableSide;
      hide Ending;
      hide ReadableSide;
      hide Bytes;
      ret := MoveBytes(m);
    }

    method MoveBytes(m: nat) returns (ret: Option<Chunk>)
      requires ReadableSide() && Bytes() && m > 0 && (m <= rLength || rLength == 0)
      modifies this`rBuffer, this`rLength, this`taken
      ensures ReadableSide() && Bytes()
      ensures old(rLength) == 0 ==> ret == None && taken == old(taken) && rLength == 0
      ensures old(rLength) > 0 ==>
                ret.Some? && |ret.value| == m && taken == old(taken) + ret.value && rLength == old(rLength) - m
      ensures m == old(rLength) ==> rBuffer == []
    {
      hide Conserved;
      ghost var before, all := rBuffer, Flatten(rBuffer);
      if rLength == 0 {
        Readable.FlattenNothing(rBuffer);
      }
      ret, rBuffer := Readable.FromList(m, rBuffer, rLength);
      if ret.Some? {
        assert all == ret.value + Flatten(rBuffer);
        MoveOut(written, taken, before, rBuffer, ret.value, carried, tBuffer, Waiting());
        taken := taken + ret.value;
        rLength := rLength - m;
        if rLength == 0 {
          Readable.FlattenNothing(rBuffer);
        }
      }
    }

    /** `onread` with data: the chunk in flight joins the readable buffer. */
    method OnRead(chunk: Chunk)
      requires Core() && reading && !pending && !rEnded && stage == Moving && tBuffer == [] && carried == chunk
      requires chunk != []
      requires reentrant && inRead ==> rSync
      modifies this
      ensures Core() && Paired() && carried == [] && Stable() && WriterKept() && !rEnded
      ensures Calm() && (reentrant && inRead ==> needReadable == old(needReadable))
      ensures Now() == Spec.Arrived(old(Now()), |chunk|, Marks())
      decreases Rank(), 11
    {
      hide Core;
      hide Snap;
      hide Onward;
      hide Writer;
      hide Spec.Told;
      hide Rank;
      SnapIs();
      ghost var start := Snap();
      Push(chunk);
      ghost var pushed := Snap();
      OnwardGrow(start, pushed);
      Tell();
      OnwardTrans(start, pushed, Snap());
    }

    /** Below the low mark: another `_read`. Above it a consumer is told. */
    method Tell()
      requires Core() && Paired() && !reading && !pending && !rEnded && carried == [] && tBuffer == []
      requires stage != Handed
      requires reentrant && inRead ==> rSync && (rLength <= lowMark ==> lowMark > 2 && !needReadable)
      modifies this
      ensures Core() && Paired() && carried == [] && Stable() && WriterKept() && !rEnded
      ensures Calm() && (reentrant && inRead ==> needReadable == old(needReadable))
      ensures Now() == Spec.Told(old(Now()), Marks())
      decreases Rank(), 10, 2
    {
      hide Core;
      hide Snap;
      hide Onward;
      hide Writer;
      hide Now;
      hide Spec.Told;
      hide Spec.Announced;
      hide Rank;
      NowIs();
      Spec.ToldCases(Now(), Marks());
      if rLength <= lowMark {
        ReadAgain();
        NowIs();
      } else {
        Announce();
      }
    }

    /** A consumer that needs to know is told, unless `_read` is still running. */
    method Announce()
      requires Core() && Paired() && !pending && carried == [] && tBuffer == [] && stage != Handed && !rEnded
      requires reentrant && inRead ==> rSync
      modifies this
      ensures Core() && Paired() && carried == [] && Stable() && WriterKept() && !rEnded
      ensures reentrant && inRead ==> !pending && rLength == old(rLength) && needReadable == old(needReadable)
      ensures Now() == if old(needReadable && !rSync) then Spec.Announced(old(Now()).(need := false), Marks()) else old(Now())
      decreases Rank(), 10, 1
    {
      hide Core;
      hide Snap;
      hide Onward;
      hide Writer;
      hide Now;
      hide Rank;
      hide Spec.Announced;
      SnapIs();
      OnwardSelf(Snap());
      if needReadable && !rSync {
        ClearNeed();
        EmitReadable();
        OnwardFacts(old(Snap()), Snap());
        SnapIs();
      }
    }

    /** The chunk is buffered, and `reading` cleared. */
    method Push(chunk: Chunk)
      requires Core() && reading && !pending && !rEnded && tBuffer == [] && carried == chunk && chunk != []
      modifies this`rBuffer, this`rLength, this`carried, this`reading
      ensures Core() && carried == [] && !reading && Paired() && rLength == old(rLength) + |chunk|
      ensures reentrant && inRead && rLength <= lowMark ==> lowMark > 2 && !needReadable
      ensures Now() == old(Now()).(len := rLength, held := rLength) && Snap() == old(Snap()).(len := rLength)
    {
      hide WritableSide;
      hide ReadableSide;
      hide Bytes;
      reading := false;
      PushBytes(chunk);
    }

    method PushBytes(chunk: Chunk)
      requires ReadableSide() && Bytes() && tBuffer == [] && carried == chunk && chunk != []
      modifies this`rBuffer, this`rLength, this`carried
      ensures ReadableSide() && Bytes() && carried == [] && rLength == old(rLength) + |chunk|
      ensures rBuffer == old(rBuffer) + [chunk]
    {
      hide Conserved;
      hide Flatten;
      hide Readable.NonEmpty;
      NonEmptyMoves(rBuffer, chunk, 0);
      MoveToReadable(written, taken, rBuffer, chunk, Waiting());
      rLength := rLength + |chunk|;
      rBuffer := rBuffer + [chunk];
      carried := [];
    }

    /** Below the low mark: another `_read`. */
    method ReadAgain()
      requires Core() && !reading && !pending && !rEnded && carried == [] && tBuffer == [] && stage != Handed
      requires reentrant && inRead ==> rSync
      modifies this
      ensures Core() && Paired() && carried == [] && Stable() && WriterKept() && !rEnded
      ensures inRead == old(inRead) && Now() == old(Now()).(pend := true)
      decreases Rank(), 10, 0
    {
      hide Books;
      hide Snap;
      hide Onward;
      hide Now;
      reading := true;
      TRead();
    }

    method ClearNeed()
      requires Core()
      modifies this`needReadable
      ensures Core() && Now() == old(Now()).(need := false)
    {
      hide Books;
      hide Ending;
      needReadable := false;
    }

    /** `onread` without data: the end of input. */
    method OnReadEnd()
      requires Core() && pending && reading && finishing && !rEnded && carried == [] && tBuffer == [] && stage == Idle
      requires reentrant && inRead ==> rSync
      modifies this
      ensures Core() && carried == [] && Stable() && WriterKept() && rEnded
      ensures Now() == Spec.Stopped(old(Now()), Marks())
      decreases Rank(), 11
    {
      hide Core;
      hide Snap;
      hide Onward;
      hide Writer;
      hide Now;
      hide Spec.Stopped;
      hide Spec.Announced;
      hide Spec.Scheduled;
      hide Rank;
      NowIs();
      Spec.StoppedCases(Now(), Marks());
      ghost var start := Snap();
      OnwardEnd(start);
      Stop();
      if !rSync {
        if rLength > 0 {
          ClearNeed();
          EmitReadable();
          OnwardTrans(start, start.(rEnded := true), Snap());
        } else {
          EndReadable();
        }
      }
    }

    /** `ended` is set. */
    method Stop()
      requires Core() && Paired() && finishing && !rEnded
      modifies this`reading, this`rEnded
      ensures Core() && Paired() && rEnded && Snap() == old(Snap()).(rEnded := true)
      ensures Now() == old(Now()).(ended := true)
    {
      hide ReadableSide;
      hide WritableSide;
      hide Bytes;
      reading := false;
      rEnded := true;
    }

    method EmitReadable()
      requires Core() && Paired() && carried == [] && tBuffer == [] && stage != Handed
      requires reentrant && inRead ==> rEnded
      modifies this
      ensures Core() && Paired() && carried == [] && Stable() && WriterKept() && rEnded == old(rEnded)
      ensures Now() == Spec.Announced(old(Now()), Marks())
      decreases Rank(), 10, 0
    {
      hide Books;
      hide Ending;
      hide Quiet;
      hide Snap;
      hide Onward;
      hide Writer;
      OnwardSelf(Snap());
      if emittedReadable {
        return;
      }
      emittedReadable := true;
      Listeners();
    }

    /** The listeners of 'readable'. */
    method Listeners()
      requires Core() && Paired() && carried == [] && tBuffer == [] && stage != Handed
      requires reentrant && inRead ==> rEnded
      modifies this
      ensures Core() && Paired() && carried == [] && Stable() && WriterKept() && rEnded == old(rEnded)
      ensures Now() == Spec.Listened(old(Now()), Marks())
      decreases Rank(), 9
    {
      hide Rank;
      hide Given;
      hide Core;
      hide Snap;
      hide Onward;
      hide Now;
      hide Spec.ReadEmpty;
      SnapIs();
      OnwardSelf(Snap());
      NowIs();
      if script == [] {
        return;
      }
      MarksAreSafe();
      var calls := NextCalls();
      assert calls[0..] == calls;
      for i := 0 to |calls|
        invariant Core() && Paired() && carried == [] && Stable() && WriterKept() && rEnded == old(rEnded)
        invariant inRead == old(inRead)
        invariant Rank() <= old(Rank())
        invariant Spec.Heard(Now(), calls[i..], Marks()) == Spec.Listened(old(Now()), Marks())
      {
        Spec.HeardFirst(Now(), calls[i..], Marks());
        assert calls[i..][1..] == calls[i + 1..];
        ghost var start := Snap();
        Hear(calls[i]);
        OnwardTrans(old(Snap()), start, Snap());
      }
      assert calls[|calls|..] == [];
      Spec.HeardFirst(Now(), [], Marks());
    }

    /** One of their calls. */
    method Hear(n: Option<int>)
      requires Core() && Paired() && carried == [] && tBuffer == [] && stage != Handed
      requires reentrant && (inRead ==> rEnded)
      modifies this
      ensures Core() && Paired() && carried == [] && Stable() && WriterKept() && rEnded == old(rEnded)
      ensures inRead == old(inRead) && Rank() <= old(Rank())
      ensures Now() == Spec.ReadEmpty(old(Now()), n, Marks())
      decreases Rank(), 8
    {
      hide Rank;
      hide Given;
      hide Core;
      hide Snap;
      hide Onward;
      hide Now;
      hide Spec.ReadEmpty;
      SnapIs();
      MarksAreSafe();
      var ret := Read(n);
      Receive(ret);
      OnwardFacts(old(Snap()), Snap());
      SnapIs();
    }

    /** What a caller of `read` has got. */
    ghost method Receive(ret: Option<Chunk>)
      requires Core()
      modifies this`got
      ensures Core() && got == old(got) + Given(ret) && Snap() == old(Snap()).(got := got)
    {
      hide Books;
      hide Ending;
      hide Quiet;
      got := got + Given(ret);
    }

    method NextCalls() returns (calls: seq<Option<int>>)
      requires Core() && script != []
      modifies this`script
      ensures Core() && calls == old(script)[0] && script == old(script)[1..]
      ensures Now() == old(Now()).(script := script)
    {
      hide Books;
      hide Ending;
      calls, script := script[0], script[1..];
    }

    // ---------- transform side ----------

    /** `_read`: remember who asks, and transform the chunk that waits, if any. */
    method TRead()
      requires Core() && reading && !pending && !rEnded && carried == [] && stage != Handed
      requires reentrant && inRead ==> rSync
      modifies this
      ensures Core() && Stable() && Paired() && carried == []
      ensures ending == old(ending) && inRead == old(inRead) && |old(taken)| <= |taken|
      ensures old(tBuffer) == [] ==> pending && reading && !rEnded && WriterKept()
      ensures old(tBuffer) == [] ==> rLength == old(rLength) && needReadable == old(needReadable)
      ensures old(tBuffer) != [] ==> Settled()
      ensures old(tBuffer) != [] ==> Calm() && Parked()
      ensures old(Rest()) == [] && reentrant && inRead && !rEnded ==> needReadable == old(needReadable)
      ensures Now() == Spec.Called(old(Now()), old(tBuffer) != [], old(writelen), old(Last()), old(Rest()), ending, Marks())
      ensures old(tBuffer != [] && Rest() == []) ==> tBuffer == [] && Rest() == []
      decreases Rank(), 3, 0
    {
      hide Core;
      hide Snap;
      hide Onward;
      hide Writer;
      hide Now;
      hide Settled;
      hide Spec.Pulled;
      if pending {
        assert false;  // '_read while _read already in progress'
      }
      OnwardSelf(Snap());
      SnapIs();
      Spec.AnyPend(Now(), true, writelen, Last(), Rest(), ending, Marks());
      SetPending();
      if tBuffer == [] || transforming {
        NotTransforming();
        return;
      }
      Pull();
      OnwardFacts(old(Snap()), Snap());
      SnapIs();
    }

    /** The chunk that waits goes through. */
    method Pull()
      requires Core() && pending && reading && !rEnded && carried == [] && tBuffer != []
      requires reentrant && inRead ==> rSync
      modifies this
      ensures Core() && Stable() && Paired() && carried == [] && Settled()
      ensures Calm() && Parked()
      ensures old(Rest()) == [] && reentrant && inRead && !rEnded ==> needReadable == old(needReadable)
      ensures Now() == Spec.Pulled(old(Now()), old(writelen), old(Last()), old(Rest()), ending, Marks()).v
      ensures old(Rest()) == [] ==> tBuffer == [] && Rest() == []
      decreases Rank(), 2
    {
      hide Core;
      hide Snap;
      hide Onward;
      hide Now;
      hide Settled;
      hide Spec.Pulled;
      hide Rest;
      hide Rank;
      ghost var start := Snap();
      SnapIs();
      var chunk := Shift();
      ghost var shifted := Snap();
      SnapIs();
      Transformed(chunk);
      OnwardRank(start, shifted, Snap());
    }

    lemma NotTransforming()
      requires Core()
      ensures !transforming
    {
    }

    /** `ts.pendingReadCb = readcb` */
    method SetPending()
      requires Core() && reading && !rEnded && (reentrant && inRead ==> rSync)
      modifies this`pending
      ensures Core() && Paired() && pending && Now() == old(Now()).(pend := true)
    {
      hide Books;
      pending := true;
    }

    /** `ts.pendingReadCb = null` */
    method ClearPending()
      requires Core()
      modifies this`pending
      ensures Core() && !pending && Now() == old(Now()).(pend := false)
    {
      hide Books;
      pending := false;
    }

    /** The callback given to `_transform`. */
    method Transformed(chunk: Chunk)
      requires Core() && pending && reading && !rEnded && stage == Moving && tBuffer == [] && carried == chunk
      requires chunk != []
      requires reentrant && inRead ==> rSync
      requires |chunk| == writelen
      modifies this
      ensures Core() && Stable() && Paired() && carried == [] && Settled()
      ensures Calm() && Parked()
      ensures old(Rest()) == [] && reentrant && inRead && !rEnded ==> needReadable == old(needReadable)
      ensures Now() == Spec.Pulled(old(Now()), |chunk|, old(Last()), old(Rest()), ending, Marks()).v
      ensures old(Rest()) == [] ==> tBuffer == [] && Rest() == []
      decreases Rank(), 16
    {
      hide Core;
      hide Snap;
      hide Onward;
      hide Now;
      hide Settled;
      hide Spec.Arrived;
      hide Spec.Stopped;
      hide Spec.Looped;
      hide Rest;
      hide Rank;
      SnapIs();
      Output(chunk);
      ghost var start := Snap();
      SnapIs();
      OnwardFacts(old(Snap()), start);
      OnWrite();
      OnwardTrans(old(Snap()), start, Snap());
      SnapIs();
    }

    /** `ts.buffer.shift()`, and PassThrough's `_transform`, which calls back at once with the chunk itself. */
    method Shift() returns (chunk: Chunk)
      requires Core() && carried == [] && tBuffer != []
      modifies this`tBuffer, this`transforming, this`carried, this`stage
      ensures Core() && carried == chunk && [chunk] == old(tBuffer) && chunk != [] && tBuffer == [] && stage == Moving
      ensures Rank() < old(Rank())
      ensures |chunk| == writelen && Snap() == old(Snap()).(rank := Rank())
    {
      hide Quiet;
      hide ReadableSide;
      hide Ending;
      hide Ends;
      hide Conserved;
      hide Flatten;
      hide Readable.NonEmpty;
      chunk := tBuffer[0];
      assert tBuffer == [chunk];
      MoveThroughTransform(written, taken, rBuffer, chunk, Waiting());
      tBuffer := tBuffer[1..];
      transforming := true;
      carried, stage := chunk, Moving;
      transforming := false;
    }

    /** `_output`: with a `_read` pending, the chunk goes to its callback. */
    method Output(chunk: Chunk)
      requires Core() && pending && reading && !rEnded && stage == Moving && tBuffer == [] && carried == chunk
      requires chunk != []
      requires reentrant && inRead ==> rSync
      modifies this
      ensures Core() && Paired() && carried == [] && Stable() && WriterKept() && !rEnded
      ensures Calm() && (reentrant && inRead ==> needReadable == old(needReadable))
      ensures Now() == Spec.Arrived(old(Now()), |chunk|, Marks())
      decreases Rank(), 12
    {
      hide Core;
      hide Snap;
      hide Onward;
      hide Writer;
      hide Now;
      hide Spec.Arrived;
      hide Rank;
      if !pending {
        assert false;  // the chunk would be pushed onto the readable buffer directly
      }
      Spec.AnyPend(Now(), false, |chunk|, false, [], ending, Marks());
      ClearPending();
      OnRead(chunk);
    }

    /** `done`: the writable side has finished. */
    method Done()
      requires Core() && Paired() && carried == [] && stage == Idle && finishing && !rEnded
      requires Calm()
      modifies this
      ensures Core() && Paired() && carried == [] && Stable() && Writer() == old(Writer()) && rEnded
      ensures endAtDone <==> old(!pending && rLength == 0)
      ensures Now() == Spec.Stopped(old(Now()), Marks())
      decreases Rank(), 13
    {
      hide Snap;
      hide Onward;
      hide Writer;
      hide Now;
      hide ReadableSide;
      hide Bytes;
      hide Spec.Stopped;
      hide Spec.Listened;
      if wLength != 0 {
        assert false;  // 'calling transform done when ws.length != 0'
      }
      if transforming {
        assert false;  // 'calling transform done when still transforming'
      }
      EndedIsEmpty();
      NowIs();
      Spec.StoppedCases(Now(), Marks());
      if pending {
        OnReadEnd();
        return;
      }
      ghost var start := Snap();
      OnwardEnd(start);
      Stop();
      if rLength > 0 && needReadable {
        NowIs();
        Listeners();
        OnwardTrans(start, start.(rEnded := true), Snap());
      } else if rLength == 0 {
        EmitEnd();
      }
    }

    /** `stream.emit('end')` */
    ghost method EmitEnd()
      requires Core() && rEnded && rLength == 0 && !endAtDone
      modifies this`endEvents, this`endAtDone
      ensures Core() && endAtDone && Now() == old(Now()).(atDone := true)
    {
      hide ReadableSide;
      hide WritableSide;
      hide Bytes;
      hide Ending;
      hide Quiet;
      endEvents, endAtDone := endEvents + 1, true;
    }

    /** Transform's `_write`: queue the chunk, and pull it through if someone wants it. */
    method TWrite(chunk: Chunk)
      requires Core() && Paired() && !rEnded && stage == Handed && carried == chunk && chunk != []
      requires |chunk| == writelen
      requires Calm()
      requires !bufferProcessing ==> wBuffer == []
      modifies this
      ensures Core() && Stable() && Paired() && carried == [] && Settled()
      ensures Calm() && Parked()
      ensures (Now(), tBuffer != []) == Spec.Written(old(Now()), old(writelen), old(Last()), Marks())
      decreases Rank(), 6
    {
      hide Core;
      hide Snap;
      hide Onward;
      hide Now;
      hide Settled;
      hide Rank;
      hide Spec.Written;
      SnapIs();
      assert Rest() == [];
      Queue(chunk);
      SnapIs();
      if transforming {
        NotTransforming();
        assert false;
      }
      Offer();
    }

    /** The queued chunk goes to the reader that waits for it; then there may be room for more. */
    method Offer()
      requires Core() && Paired() && !rEnded && carried == [] && tBuffer != [] && Rest() == [] && Calm()
      modifies this
      ensures Core() && Stable() && Paired() && carried == [] && Settled()
      ensures Calm() && Parked()
      ensures (Now(), tBuffer != []) == Spec.Written(old(Now()), old(writelen), old(Last()), Marks())
      decreases Rank(), 5, 3
    {
      hide Core;
      hide Snap;
      hide Onward;
      hide Now;
      hide Settled;
      hide Rest;
      hide Rank;
      hide Spec.Written;
      hide Spec.Pulled;
      hide Spec.ReadEmpty;
      hide Spec.ReadQueued;
      hide Spec.Reading;
      NowIs();
      SnapIs();
      OnwardSelf(Snap());
      if pending {
        Spec.WrittenToReader(Now(), writelen, Last(), ending, Marks());
        GiveToReader();
      } else {
        Spec.WrittenByRead(Now(), writelen, Last(), ending, Marks());
        QueuedIsSettled();
      }
      ghost var start := Snap();
      NowIs();
      Tests(Some(0));
      AutoPull();
      OnwardTrans(old(Snap()), start, Snap());
    }

    /** The reader that waits gets the chunk. */
    method GiveToReader()
      requires Core() && Paired() && !rEnded && carried == [] && tBuffer != [] && Rest() == [] && Calm() && pending
      modifies this
      ensures Core() && Stable() && Paired() && carried == [] && Settled() && Calm()
      ensures ending == old(ending) && tBuffer == [] && Rest() == [] && Rank() <= old(Rank())
      ensures reentrant && inRead && !rEnded ==> reading || (!needReadable && rLength > readMark)
      ensures Now() == Spec.Pulled(old(Now()).(pend := false), old(writelen), old(Last()), [], ending, Marks()).v
      decreases Rank(), 5, 2
    {
      hide Core;
      hide Snap;
      hide Onward;
      hide Now;
      hide Settled;
      hide Spec.Pulled;
      hide Rank;
      SnapIs();
      MarksAreSafe();
      ClearPending();
      StageIs();
      TRead();
      OnwardFacts(old(Snap()), Snap());
      SnapIs();
    }

    /** The end of `_write`: with room in the readable buffer, pull a chunk in, so that it is there when asked for. */
    method AutoPull()
      requires Core() && Paired() && carried == [] && Settled() && Rest() == []
      requires Calm()
      requires reentrant && inRead && !rEnded ==>
                 (tBuffer != [] && !pending) || reading || (!needReadable && rLength > readMark)
      modifies this
      ensures Core() && Stable() && Paired() && carried == [] && Settled() && ending == old(ending)
      ensures Calm() && Parked()
      ensures !old((needReadable || rLength <= readMark) && !reading) ==> Now() == old(Now()) && tBuffer == old(tBuffer)
      ensures old((needReadable || rLength <= readMark) && !reading) ==> tBuffer == []
      ensures old((needReadable || rLength <= readMark) && !reading) ==>
                Now() == if old(tBuffer) == [] then Spec.ReadEmpty(old(Now()), Some(0), Marks())
                         else Spec.ReadQueued(old(Now()), Some(0), old(writelen), old(Last()), [], ending, Marks()).v
      decreases Rank(), 5, 2
    {
      hide Core;
      hide Snap;
      hide Onward;
      hide Now;
      hide Spec.ReadEmpty;
      hide Spec.ReadQueued;
      SnapIs();
      OnwardSelf(Snap());
      if rEnded {
        EndedIsEmpty();
      }
      var doRead := needReadable || rLength <= readMark;
      if doRead && !reading {
        var ret := Read(Some(0));
        if ret.Some? {
          assert false;  // 'invalid stream transform state'
        }
        NothingGot();
        OnwardFacts(old(Snap()), Snap());
        SnapIs();
      }
    }

    method Queue(chunk: Chunk)
      requires Core() && stage == Handed && carried == chunk && chunk != [] && |chunk| == writelen
      modifies this`tBuffer, this`carried, this`stage
      ensures Core() && carried == [] && tBuffer == [chunk] && stage == Queued && Snap() == old(Snap())
    {
      hide Ends;
      hide ReadableSide;
      hide Ending;
      hide Quiet;
      hide Conserved;
      MoveThroughTransform(written, taken, rBuffer, chunk, Waiting());
      assert tBuffer == [];
      tBuffer := tBuffer + [chunk];
      assert tBuffer == [chunk];
      carried, stage := [], Queued;
    }

    // ---------- writable side ----------

    /** `onwrite`: the chunk in flight has been transformed. */
    method OnWrite()
      requires Core() && Paired() && !rEnded && stage == Moving && carried == []
      requires Calm()
      modifies this
      ensures Core() && Stable() && Paired() && carried == [] && Settled()
      ensures Calm() && Parked()
      ensures old(Rest()) == [] && reentrant && inRead && !rEnded ==> needReadable == old(needReadable)
      ensures Now() == if old(Last()) then Spec.Stopped(old(Now()), Marks())
                         else Spec.Looped(old(Now()), old(Rest()), ending, Marks()).v
      ensures old(Rest()) == [] ==> tBuffer == [] && Rest() == []
      decreases Rank(), 15
    {
      hide Core;
      hide Snap;
      hide Onward;
      hide Now;
      hide Spec.Stopped;
      hide Spec.Looped;
      Spec.LoopedNone(Now(), ending, Marks());
      OnwardSelf(Snap());
      SnapIs();
      Complete();
      if wLength == 0 && (wEnded || ending) && !finished && !finishing {
        Finish();
        OnwardFacts(old(Snap()), Snap());
        SnapIs();
        return;
      }
      CheckDrain();
      if !bufferProcessing && |wBuffer| > 0 {
        ProcessBuffer();
        SnapIs();
      }
    }

    /** A check for 'drain' on a later tick, if somebody waits and the buffer is down to the low mark. */
    method CheckDrain()
      requires Core()
      modifies this`drainTicks
      ensures Core() && drainTicks == old(drainTicks) + if wLength <= lowMark && needDrain then 1 else 0
    {
      hide Books;
      if wLength <= lowMark && needDrain {
        drainTicks := drainTicks + 1;
      }
    }

    /** 'finish' is emitted, and the listener of the transform side runs `done`. */
    method Finish()
      requires Core() && Paired() && carried == [] && stage == Idle && wLength == 0 && ending && !finishing
      requires !finished && !rEnded
      requires Calm()
      modifies this
      ensures Core() && Paired() && carried == [] && Stable() && stage == Idle && tBuffer == [] && rEnded && finishing
      ensures finished
      ensures wBuffer == old(wBuffer) && wLength == 0 && Settled()
      ensures endAtDone <==> old(!pending && rLength == 0)
      ensures Now() == Spec.Stopped(old(Now()), Marks())
      decreases Rank(), 14
    {
      hide Books;
      hide Quiet;
      hide Snap;
      hide Onward;
      hide Now;
      hide Spec.Stopped;
      finishing := true;
      Done();
      EndedIsEmpty();
      finished := true;
    }

    method Complete()
      requires Core() && stage == Moving && !rEnded
      modifies this`writing, this`stage, this`wLength
      ensures Core() && stage == Idle && Snap() == old(Snap())
      ensures !writing && !finishing && !finished && (wEnded ==> ending) && tBuffer == []
      ensures wLength == old(wLength) - writelen
    {
      hide ReadableSide;
      hide Ends;
      hide Bytes;
      hide Quiet;
      writing, stage := false, Idle;
      wLength := wLength - writelen;
    }

    /** The loop of `onwrite` over what was queued meanwhile. */
    method ProcessBuffer()
      requires Core() && Paired() && !finishing && stage == Idle && !writing && carried == [] && !bufferProcessing
      requires wBuffer != []
      requires Calm()
      modifies this
      ensures Core() && Stable() && Paired() && carried == [] && Settled()
      ensures Calm() && Parked()
      ensures Now() == Spec.Looped(old(Now()), Lengths(old(wBuffer)), ending, Marks()).v
      decreases Rank(), 8, 2
    {
      hide Core;
      hide Snap;
      hide Onward;
      hide Now;
      hide Lengths;
      hide Spec.Looped;
      hide Spec.Written;
      SnapIs();
      BeginLoop();
      ghost var start := Snap();
      var c := Loop();
      ghost var before := Snap();
      Trim(c);
      OnwardLoop(old(Snap()), start, c, before, Snap());
    }

    method Loop() returns (c: nat)
      requires Core() && Paired() && carried == [] && bufferProcessing && cursor == 0 < |wBuffer| && stage == Idle
      requires !writing
      requires Calm()
      modifies this
      ensures Core() && Paired() && carried == [] && bufferProcessing && c == cursor <= |wBuffer|
      ensures wBuffer == old(wBuffer)
      ensures Settled() && (c < |wBuffer| ==> writing) && Onward(old(Snap()).(cursor := c), Snap())
      ensures ending == old(ending)
      ensures Calm() && Parked()
      ensures Now() == Spec.Looped(old(Now()), Lengths(wBuffer), ending, Marks()).v
      decreases Rank(), 8, 1
    {
      hide Core;
      hide Snap;
      hide Onward;
      hide Now;
      hide Settled;
      hide Lengths;
      hide Spec.Looped;
      hide Rest;
      hide Rank;
      ghost var start, end := Snap(), Spec.Looped(Now(), Lengths(wBuffer), ending, Marks()).v;
      assert wBuffer[0..] == wBuffer;
      OnwardSelf(start);
      SnapIs();
      c := 0;
      while c < |wBuffer|
        invariant Core() && Paired() && carried == [] && bufferProcessing && c == cursor <= |wBuffer|
        invariant wBuffer == old(wBuffer)
        invariant (Settled() || c == 0) && stage == Idle && !writing
        invariant Onward(start.(cursor := c), Snap()) && ending == old(ending) && inRead == old(inRead)
        invariant Calm()
        invariant end == Spec.Looped(Now(), Lengths(wBuffer[c..]), ending, Marks()).v
        decreases |wBuffer| - c
      {
        OnwardFacts(start.(cursor := c), Snap());
        SnapIs();
        Turn(c, start);
        c := c + 1;
        if writing {
          return;
        }
      }
      StageIs();
      LengthsNone();
      Spec.LoopedNone(Now(), ending, Marks());
    }

    /** One turn of the loop, seen from its start. */
    method Turn(c: nat, ghost start: Progress)
      requires Core() && Paired() && carried == [] && bufferProcessing && stage == Idle && c == cursor < |wBuffer|
      requires Calm()
      requires Onward(start.(cursor := c), Snap())
      modifies this
      ensures Core() && Paired() && carried == [] && bufferProcessing && cursor == c + 1 && wBuffer == old(wBuffer)
      ensures Settled()
      ensures (writing <==> tBuffer != []) && (writing <==> stage != Idle)
      ensures Onward(start.(cursor := c + 1), Snap()) && ending == old(ending) && inRead == old(inRead)
      ensures Calm() && Parked()
      ensures Spec.Looped(old(Now()), Lengths(wBuffer[c..]), ending, Marks()).v
                == if writing then Now() else Spec.Looped(Now(), Lengths(wBuffer[c + 1..]), ending, Marks()).v
      decreases Rank(), 8, 0
    {
      hide Core;
      hide Snap;
      hide Onward;
      hide Now;
      hide Settled;
      hide Lengths;
      hide Spec.Looped;
      hide Spec.Written;
      hide Rest;
      hide Rank;
      LengthsParts(wBuffer, c);
      Spec.LoopedFirst(Now(), Lengths(wBuffer[c..]), ending, Marks());
      OnwardCursor(start, c, Snap());
      SnapIs();
      ghost var before := Snap();
      WriteQueued(c);
      OnwardTrans(start.(cursor := c + 1), before.(cursor := c + 1), Snap());
      OnwardFacts(before.(cursor := c + 1), Snap());
      SnapIs();
    }

    method BeginLoop()
      requires Core() && !bufferProcessing
      modifies this`bufferProcessing
      ensures Core() && bufferProcessing && cursor == 0 && Snap() == old(Snap()).(processing := true)
    {
      hide ReadableSide;
      hide Ends;
      hide Bytes;
      hide Ending;
      hide Quiet;
      bufferProcessing := true;
    }

    /** One turn of the loop. */
    method WriteQueued(c: nat)
      requires Core() && Paired() && carried == [] && bufferProcessing && stage == Idle && c == cursor < |wBuffer|
      requires Calm()
      modifies this
      ensures Core() && Paired() && carried == [] && bufferProcessing && cursor == c + 1 && wBuffer == old(wBuffer)
      ensures Settled()
      ensures (writing <==> tBuffer != []) && (writing <==> stage != Idle)
      ensures Onward(old(Snap()).(cursor := c + 1), Snap())
      ensures Calm() && Parked()
      ensures (Now(), tBuffer != []) == Spec.Written(old(Now()), |wBuffer[c]|, ending && c + 1 == |wBuffer|, Marks())
      decreases Rank(), 7
    {
      hide Core;
      hide Snap;
      hide Onward;
      hide Now;
      hide Spec.Written;
      SnapIs();
      var chunk := StartQueued(c);
      QueueIsEmpty();
      SnapIs();
      TWrite(chunk);
      StageIs();
      SnapIs();
      OnwardFacts(old(Snap()).(cursor := c + 1), Snap());
    }

    method StartQueued(c: nat) returns (chunk: Chunk)
      requires Core() && carried == [] && bufferProcessing && stage == Idle && c == cursor < |wBuffer|
      modifies this`writelen, this`writing, this`cursor, this`carried, this`stage
      ensures Core() && carried == chunk && chunk != [] && |chunk| == writelen && stage == Handed && cursor == c + 1
      ensures Snap() == old(Snap()).(cursor := c + 1) && !finishing && !rEnded && chunk == wBuffer[c]
    {
      hide Quiet;
      hide ReadableSide;
      hide Ends;
      hide Ending;
      hide Conserved;
      hide Flatten;
      hide Readable.NonEmpty;
      QueuedNotFinishing();
      chunk := wBuffer[c];
      assert Waiting()[0] == chunk && Waiting()[1..] == wBuffer[c + 1..];
      QueueParts(wBuffer, c);
      MoveFromQueue(written, taken, rBuffer, Waiting());
      writelen, writing := |chunk|, true;
      cursor, carried, stage := c + 1, chunk, Handed;
    }

    method Trim(c: nat)
      requires Core() && bufferProcessing && c == cursor
      modifies this`bufferProcessing, this`wBuffer, this`cursor
      ensures Core() && !bufferProcessing && wBuffer == old(wBuffer)[c..]
      ensures Snap() == old(Snap()).(processing := false, queue := wBuffer, cursor := 0)
    {
      hide ReadableSide;
      hide Ends;
      hide Ending;
      hide Quiet;
      hide Conserved;
      bufferProcessing := false;
      wBuffer := if c < |wBuffer| then wBuffer[c..] else [];
      cursor := 0;
      assert Waiting() == old(Waiting());
    }

    // ---------- what a user calls ----------

    constructor (writeMark: int, readMark: int, lowMark: nat, script: seq<seq<Option<int>>>)
      requires script != [] ==> Spec.Safe(Spec.Marks(lowMark, readMark))
      ensures Resting() && written == taken == [] && !wEnded && !rEnded && !reading && rLength == 0
      ensures this.readMark == readMark && this.lowMark == lowMark && Now() == Spec.New(script).v && tBuffer == []
      ensures !writing && writelen == 0 && wBuffer == [] && wLength == 0 && !needDrain && drainTicks == 0
    {
      this.writeMark, this.readMark, this.lowMark, this.reentrant := writeMark, readMark, lowMark, script != [];
      this.script := script;
      wLength, needDrain, ending, wEnded, finishing, finished := 0, false, false, false, false, false;
      writing, bufferProcessing, writelen, wBuffer, drainTicks := false, false, 0, [], 0;
      tBuffer, transforming, pending := [], false, false;
      rBuffer, rLength, rEnded, endEmitted, reading, rSync := [], 0, false, false, false, false;
      needReadable, emittedReadable := false, false;
      written, taken, got, stage, carried, cursor, inRead := [], [], [], Idle, [], 0, false;
      endEvents, endAtDone, early := 0, false, false;
    }

    /** `write(chunk)`; the result is `None` for the error 'write after end'. */
    method Write(chunk: Chunk) returns (ret: Option<bool>)
      requires Resting() && chunk != []
      modifies this
      ensures Resting()
      ensures old(wEnded) ==> ret.None? && unchanged(this)
      ensures !old(wEnded) ==> ret == Some(old(wLength) + |chunk| < writeMark)
      ensures !old(wEnded) ==> written == old(written) + chunk && old(taken) <= taken
      ensures !old(wEnded) ==> needDrain == (old(needDrain) || ret == Some(false))
    {
      hide ReadableSide;
      hide Bytes;
      if wEnded {
        return None;
      }
      ret := Some(wLength + |chunk| < writeMark);
      Accept(chunk);
    }

    method Accept(chunk: Chunk)
      requires Core() && Paired() && carried == [] && (stage == Idle || stage == Queued) && chunk != []
      requires !bufferProcessing && !inRead && !rSync && (wBuffer != [] ==> writing) && !finishing
      requires (pending && !rEnded ==> !writing) && Asking() && got == taken
      modifies this
      ensures Core() && Paired() && carried == [] && Settled() && Asking() && !bufferProcessing && !inRead && !rSync
      ensures got == taken
      ensures written == old(written) + chunk && old(taken) <= taken && ending == old(ending) && wEnded == old(wEnded)
      ensures Now() == if old(writing) then old(Now()) else Spec.Written(old(Now()), |chunk|, ending, Marks()).0
      ensures needDrain == (old(needDrain) || old(wLength) + |chunk| >= writeMark)
    {
      hide Core;
      hide Snap;
      hide Onward;
      hide Now;
      hide Settled;
      hide Spec.Written;
      hide Rank;
      NoteDrain(|chunk|);
      StageIs();
      if writing {
        Enqueue(chunk);
        QueuedIsSettled();
      } else {
        WriteNow(chunk);
      }
    }

    /** Nothing is in flight: the chunk goes to `_write` at once. */
    method WriteNow(chunk: Chunk)
      requires Core() && Paired() && carried == [] && stage == Idle && chunk != []
      requires !bufferProcessing && !inRead && !rSync && wBuffer == [] && !finishing && got == taken
      modifies this
      ensures Core() && Paired() && carried == [] && Settled() && Asking() && !bufferProcessing && !inRead && !rSync
      ensures got == taken && needDrain == old(needDrain)
      ensures written == old(written) + chunk && old(taken) <= taken && ending == old(ending) && wEnded == old(wEnded)
      ensures Now() == Spec.Written(old(Now()), |chunk|, ending, Marks()).0
    {
      hide Core;
      hide Snap;
      hide Onward;
      hide Now;
      hide Settled;
      hide Spec.Written;
      hide Rank;
      Start(chunk);
      ghost var start := Snap();
      SnapIs();
      TWrite(chunk);
      OnwardFacts(start, Snap());
      OnwardTaken(start, Snap());
      SnapIs();
    }

    /** `needDrain` is set if the chunk fills the buffer. */
    method NoteDrain(size: nat)
      requires Core()
      modifies this`needDrain
      ensures Core() && needDrain == (old(needDrain) || wLength + size >= writeMark)
    {
      hide Books;
      if !(wLength + size < writeMark) {
        needDrain := true;
      }
    }

    method Enqueue(chunk: Chunk)
      requires Core() && carried == [] && !bufferProcessing && writing && chunk != [] && !finishing
      modifies this`wLength, this`wBuffer, this`written
      ensures Core() && written == old(written) + chunk && wLength == old(wLength) + |chunk|
    {
      hide Quiet;
      hide Ends;
      hide ReadableSide;
      hide Conserved;
      hide Flatten;
      hide Readable.NonEmpty;
      assert Waiting() == wBuffer;
      MoveIn(written, taken, rBuffer, tBuffer, wBuffer, chunk);
      NonEmptyMoves(wBuffer, chunk, 0);
      wLength := wLength + |chunk|;
      wBuffer := wBuffer + [chunk];
      written := written + chunk;
      assert Waiting() == wBuffer;
    }

    method Start(chunk: Chunk)
      requires Core() && carried == [] && !bufferProcessing && stage == Idle && wBuffer == [] && chunk != []
      requires !finishing
      modifies this`wLength, this`written, this`writing, this`writelen, this`carried, this`stage
      ensures Core() && stage == Handed && carried == chunk && |chunk| == writelen && !rEnded
      ensures written == old(written) + chunk && wLength == |chunk|
    {
      hide Quiet;
      hide Ends;
      hide ReadableSide;
      hide Conserved;
      assert Waiting() == [];
      MoveIn(written, taken, rBuffer, tBuffer, [], chunk);
      wLength := wLength + |chunk|;
      written := written + chunk;
      writing, writelen := true, |chunk|;
      carried, stage := chunk, Handed;
    }

    /**
     * `end(chunk)`. Whether 'end' is scheduled before the last chunk is read: for listeners that only read something exactly
     * if a reader is waiting and they leave data while there is room; for listeners that do not read exactly if a reader is
     * waiting and the chunk does not take the buffer past its high mark. And `done` emits 'end' itself, with a high mark of
     * at least zero, exactly if there is no chunk, nothing is queued or buffered, and no reader is waiting.
     */
    method End(chunk: Option<Chunk>)
      requires Resting() && (chunk.Some? ==> chunk.value != [])
      modifies this
      ensures Resting() && wEnded
      ensures old(wEnded) ==> unchanged(this)
      ensures !old(wEnded) ==>
                written == old(written) + (if chunk.Some? then chunk.value else []) && old(taken) <= taken
      ensures !old(wEnded || writing) && chunk.Some? ==>
                Now() == Spec.Written(old(Now()), |chunk.value|, true, Marks()).0
      ensures !old(wEnded) && Timing.Plain(old(script)) ==>
                (early <==> chunk.Some? && Timing.EarlyEnd(old(Now()), |chunk.value|, Marks()))
      ensures !old(wEnded) && old(script) == [] ==>
                (early <==> chunk.Some? && old(pending) && old(rLength) + |chunk.value| <= readMark)
      ensures !old(wEnded) && (readMark >= 0 || chunk.None? || old(script) == []) ==>
                (endAtDone <==> chunk.None? && old(wLength == 0 && !pending && rLength == 0))
      ensures old(!wEnded && pending && !rEnded && script == []) && chunk.Some? ==>
                rLength == old(rLength) + |chunk.value|
    {
      hide Books;
      hide Quiet;
      hide Snap;
      hide Onward;
      hide Now;
      hide Spec.Written;
      hide Spec.Stopped;
      hide Timing.EarlyEnd;
      hide Timing.Plain;
      if ending || wEnded || finished {
        return;
      }
      Open();
      ending := true;
      if chunk.Some? {
        EndChunk(chunk.value);
      } else if wLength == 0 && !finishing && !finished {
        EndNow();
      }
      StageIs();
      wEnded := true;
    }

    /** The last chunk. */
    method EndChunk(chunk: Chunk)
      requires Core() && Paired() && carried == [] && (stage == Idle || stage == Queued) && chunk != []
      requires !bufferProcessing && !inRead && !rSync && (wBuffer != [] ==> writing) && !finishing
      requires (pending && !rEnded ==> !writing) && ending && Asking() && got == taken
      modifies this
      ensures Core() && Paired() && carried == [] && Settled() && Asking() && !bufferProcessing && !inRead && !rSync
      ensures got == taken
      ensures written == old(written) + chunk && old(taken) <= taken && ending && wEnded == old(wEnded)
      ensures Now() == if old(writing) then old(Now()) else Spec.Written(old(Now()), |chunk|, true, Marks()).0
      ensures Timing.Plain(old(script)) ==> (early <==> Timing.EarlyEnd(old(Now()), |chunk|, Marks()))
      ensures old(script) == [] ==> (early <==> old(pending) && old(rLength) + |chunk| <= readMark)
      ensures readMark >= 0 || old(script) == [] ==> !endAtDone
      ensures old(script == [] && pending) ==> rLength == old(rLength) + |chunk|
    {
      hide Core;
      hide Now;
      hide Settled;
      hide Spec.Written;
      hide Timing.Plain;
      Open();
      NowIs();
      ghost var v, plain := Now(), Timing.Plain(script);
      Timing.NeedsReader(v, |chunk|, Marks());
      if script == [] {
        Spec.EarlyByEnd(v, |chunk|, Marks());
      }
      if plain {
        Timing.EarlyByEndPlain(v, |chunk|, Marks());
      }
      if readMark >= 0 {
        Timing.NoEndByChunk(v, |chunk|, Marks());
      }
      hide Timing.EarlyEnd;
      Accept(chunk);
      NowIs();
    }

    /** No chunk, and none pending. */
    method EndNow()
      requires Core() && Paired() && carried == [] && wLength == 0 && ending && !finishing && !finished && !inRead
      requires got == taken
      modifies this
      ensures got == taken
      ensures Core() && Paired() && carried == [] && Settled() && finishing && finished && wLength == 0
      ensures wBuffer == old(wBuffer)
      ensures stage == Idle && written == old(written) && old(taken) <= taken && ending && wEnded == old(wEnded)
      ensures bufferProcessing == old(bufferProcessing) && !inRead && (rSync ==> old(rSync)) && rEnded
      ensures endAtDone <==> old(!pending && rLength == 0)
      ensures Timing.Plain(old(script)) || old(script) == [] ==> !early
    {
      hide Core;
      hide Snap;
      hide Onward;
      hide Now;
      hide Settled;
      hide Spec.Stopped;
      Open();
      NowIs();
      hide Timing.Plain;
      Timing.NoneIsPlain();
      if Timing.Plain(script) {
        Timing.StopInTime(Now(), Marks());
      }
      IdleWhenEmpty();
      SnapIs();
      Finish();
      OnwardFacts(old(Snap()), Snap());
      OnwardTaken(old(Snap()), Snap());
      SnapIs();
      NowIs();
    }

    /** Before `end` nothing has happened to 'end'. */
    lemma Open()
      requires Core() && !finishing
      ensures Spec.Open(Now()) && !early && !endAtDone && !rEnded
    {
    }

    /**
     * A `read` by the user, with nothing of the stream on the stack. If `done` has emitted 'end', it is scheduled a second
     * time. Before the end of input it comes before the data exactly as `EarlyRead` says if listeners do not read, and for
     * listeners that only read something at most as `MayBeEarly` says: never with a low mark of zero.
     */
    method UserRead(n: Option<int>) returns (ret: Option<Chunk>)
      requires Resting()
      modifies this
      ensures Resting() && written == old(written) && old(taken) <= taken
      ensures ret.Some? ==> ret.value != [] && |old(got)| + |ret.value| <= |got|
      ensures ret.Some? ==> got[|got| - |ret.value|..] == ret.value
      ensures ret.Some? && n.Some? ==>
                n.value > 0 && (|ret.value| == n.value || (rEnded && rBuffer == [] && |ret.value| < n.value))
      ensures wEnded == old(wEnded)
      ensures old(tBuffer) == [] ==> rEnded == old(rEnded) && tBuffer == [] && writing == old(writing)
      ensures old(endAtDone) ==> ret.None? && endEvents == 2
      ensures old(rEnded && !endEmitted) ==> (early <==> n.Some? && n.value <= 0 && old(rLength) > 0)
      ensures Now() == Spec.UserReadNow(old(Now()), n, old(tBuffer) != [], old(writelen), old(Lengths(wBuffer)), wEnded, Marks())
      ensures !old(rEnded) && old(script) == [] ==>
                (early <==> old(tBuffer) != [] &&
                            Spec.EarlyRead(old(Now()), n, old(writelen), Lengths(old(wBuffer)), wEnded, Marks()))
      ensures !old(rEnded) && Timing.Plain(old(script)) && early ==>
                old(tBuffer) != [] && Timing.MayBeEarly(old(Now()), old(writelen), Lengths(old(wBuffer)), wEnded, Marks())
      ensures (readMark >= 0 || old(script) == []) && !old(endAtDone) ==> !endAtDone
    {
      hide Core;
      hide Now;
      hide Spec.UserReadNow;
      hide Spec.EarlyRead;
      hide Spec.ReadQueued;
      hide Timing.Plain;
      hide Timing.MayBeEarly;
      BeforeRead(n);
      NowIs();
      ret := ReadAtRest(n);
      NowIs();
    }

    /** What it does to 'end'. */
    lemma BeforeRead(n: Option<int>)
      requires Resting()
      ensures var w := Spec.UserReadNow(Now(), n, tBuffer != [], writelen, Lengths(wBuffer), wEnded, Marks());
              && (!rEnded && script == [] ==>
                    (w.early <==> tBuffer != [] &&
                                  Spec.EarlyRead(Now(), n, writelen, Lengths(wBuffer), wEnded, Marks())))
              && (!rEnded && Timing.Plain(script) && w.early ==>
                    tBuffer != [] && Timing.MayBeEarly(Now(), writelen, Lengths(wBuffer), wEnded, Marks()))
              && ((readMark >= 0 || script == []) && !endAtDone ==> !w.atDone)
    {
      hide ReadableSide;
      hide Bytes;
      hide Spec.ReadQueued;
      hide Spec.EarlyRead;
      hide Timing.Plain;
      hide Timing.MayBeEarly;
      if !rEnded {
        NotFinishing();
        Open();
        if tBuffer != [] {
          QueuedAtRest();
          WhenRead(n);
        }
      } else {
        EndedIsEmpty();
      }
    }

    method ReadAtRest(n: Option<int>) returns (ret: Option<Chunk>)
      requires Resting()
      modifies this
      ensures Resting() && written == old(written) && old(taken) <= taken
      ensures ret.Some? ==> ret.value != [] && |old(got)| + |ret.value| <= |got|
      ensures ret.Some? ==> got[|got| - |ret.value|..] == ret.value
      ensures ret.Some? && n.Some? ==>
                n.value > 0 && (|ret.value| == n.value || (rEnded && rBuffer == [] && |ret.value| < n.value))
      ensures wEnded == old(wEnded)
      ensures old(tBuffer) == [] ==> rEnded == old(rEnded) && tBuffer == [] && writing == old(writing)
      ensures old(endAtDone) ==> ret.None? && endEvents == 2
      ensures old(rEnded && !endEmitted) ==> (early <==> n.Some? && n.value <= 0 && old(rLength) > 0)
      ensures Now() == Spec.UserReadNow(old(Now()), n, old(tBuffer) != [], old(writelen), old(Lengths(wBuffer)), wEnded, Marks())
    {
      hide Last;
      hide ReadableSide;
      hide Bytes;
      hide Spec.ReadQueued;
      if !rEnded {
        NotFinishing();
        if tBuffer != [] {
          QueuedAtRest();
        }
      }
      ret := Read(n);
      OnwardTaken(old(Snap()), Snap().(got := got + Given(ret)));
      Receive(ret);
    }

    /** What reading a waiting chunk does to 'end'. */
    lemma WhenRead(n: Option<int>)
      requires Spec.Open(Now()) && !pending && writelen > 0 && Spec.Sizes(Lengths(wBuffer))
      ensures var rest := Lengths(wBuffer);
              var w := Spec.ReadQueued(Now(), n, writelen, ending && rest == [], rest, ending, Marks()).v;
              && (script == [] ==> (w.early <==> Spec.EarlyRead(Now(), n, writelen, rest, ending, Marks())) && !w.atDone)
              && (Timing.Plain(script) && w.early ==> Timing.MayBeEarly(Now(), writelen, rest, ending, Marks()))
              && (readMark >= 0 ==> !w.atDone)
    {
      hide Spec.ReadQueued;
      hide Timing.Plain;
      var rest := Lengths(wBuffer);
      if script == [] {
        Spec.EarlyByRead(Now(), n, writelen, rest, ending, Marks());
      }
      if Timing.Plain(script) {
        Timing.EarlyByReadPlain(Now(), n, writelen, rest, ending, Marks());
      }
      if readMark >= 0 {
        Timing.NoEndByRead(Now(), n, writelen, rest, ending, Marks());
      }
    }

    lemma NotFinishing()
      requires Resting() && !rEnded
      ensures !finishing
    {
    }

    /** A chunk waits in the transform queue: no reader does, and it is the last one exactly if none is queued behind it. */
    lemma QueuedAtRest()
      requires Resting() && tBuffer != []
      ensures writelen > 0 && !pending && !rEnded && Spec.Sizes(Lengths(wBuffer)) && Rest() == Lengths(wBuffer)
      ensures Last() <==> ending && Lengths(wBuffer) == []
    {
      assert Waiting() == wBuffer;
      NonEmptyMoves(wBuffer, [0], 0);
      assert wBuffer[0..] == wBuffer;
    }

    /** The check for 'drain' on a later tick. */
    method RunDrainTick()
      requires Resting() && drainTicks > 0
      modifies this`drainTicks, this`needDrain
      ensures Resting() && !needDrain && drainTicks == old(drainTicks) - 1
    {
      hide Ends;
      drainTicks := drainTicks - 1;
      needDrain := false;
    }

    // ---------- end to end ----------

    /** What has been read is always a prefix of what was written; the rest is in the three buffers, in order. */
    lemma InOrder()
      requires Resting()
      ensures got <= written
      ensures written == got + Flatten(rBuffer) + Flatten(tBuffer) + Flatten(wBuffer) && rLength == |Flatten(rBuffer)|
    {
      assert Waiting() == wBuffer;
    }

    /** Once the writer has finished and the reader has emptied the buffer, every byte has come through. */
    lemma AllDelivered()
      requires Resting() && finished && rBuffer == []
      ensures got == written && rEnded
    {
      EndedIsEmpty();
    }

    /** A writer that was told to wait has a chunk under way, a pending 'drain', or nothing to wait for. */
    lemma NoProducerForgotten()
      requires Resting() && needDrain
      ensures writing || drainTicks > 0 || finished
    {
      assert Waiting() == wBuffer;
    }

    /** No chunk waits for a reader that is waiting for data. */
    lemma NoStall()
      requires Resting() && !rEnded && reading
      ensures pending && wBuffer == [] && tBuffer == [] && wLength == 0
    {
      assert Waiting() == [];
    }
  }

  /** 'end' is emitted twice by every stream that is ended while empty and then read, whatever its listeners do. */
  method EndTwice(writeMark: int, readMark: int, lowMark: nat, script: seq<seq<Option<int>>>) returns (s: Stream)
    requires script != [] ==> Spec.Safe(Spec.Marks(lowMark, readMark))
    ensures fresh(s) && s.Resting() && s.endEvents == 2
  {
    s := new Stream(writeMark, readMark, lowMark, script);
    s.End(None);
    var ret := s.UserRead(None);
  }

  /** A new stream with a reader that waits. */
  method WaitingReader(writeMark: int, readMark: int, lowMark: nat) returns (s: Stream)
    requires readMark >= 0
    ensures fresh(s) && s.Resting() && s.readMark == readMark && s.script == [] && s.pending && s.rLength == 0
    ensures !s.wEnded && !s.writing && !s.rEnded && s.written == s.got == []
  {
    s := new Stream(writeMark, readMark, lowMark, []);
    var ret := s.UserRead(None);
    s.InOrder();
  }

  /** 'end' is scheduled before the data when a reader waits and `end` brings a chunk within the mark. */
  method EndBeforeData(writeMark: int, readMark: int, lowMark: nat, chunk: Chunk) returns (s: Stream)
    requires 0 < |chunk| <= readMark
    ensures fresh(s) && s.Resting() && s.early && s.got == [] && Flatten(s.rBuffer) == chunk
  {
    hide Spec.Written;
    hide Timing.EarlyEnd;
    hide Timing.Plain;
    s := WaitingReader(writeMark, readMark, lowMark);
    s.End(Some(chunk));
    s.InOrder();
    assert Flatten(s.tBuffer) == [] && Flatten(s.wBuffer) == [] && s.written == chunk;
    assert s.got + Flatten(s.rBuffer) + [] + [] == Flatten(s.rBuffer);
  }

  /** With a negative high mark, a listener that reads the last chunk makes `done` emit 'end' although there was a chunk. */
  method EndAtDoneWithChunk(writeMark: int, readMark: int, chunk: Chunk) returns (s: Stream)
    requires readMark < 0 && |chunk| == 1
    ensures fresh(s) && s.Resting() && s.endAtDone
  {
    hide Spec.EarlyRead;
    hide Timing.Plain;
    hide Timing.EarlyEnd;
    hide Timing.MayBeEarly;
    hide Spec.ReadEmpty;
    hide Spec.Written;
    s := new Stream(writeMark, readMark, 0, [[None]]);
    var ret := s.UserRead(None);
    ret := s.UserRead(None);
    Timing.EndByChunk(Spec.Marks(0, readMark));
    s.NowIs();
    s.End(Some(chunk));
    s.NowIs();
  }

  /** Every run: from the start, any sequence of writes, ends, reads and ticks; what is read is a prefix of what is written. */
  method AnyRun(writeMark: int, readMark: int, lowMark: nat, script: seq<seq<Option<int>>>,
                steps: nat) returns (s: Stream)
    requires script != [] ==> Spec.Safe(Spec.Marks(lowMark, readMark))
    ensures fresh(s) && s.Resting() && s.got <= s.written
    ensures s.written == s.got + Flatten(s.rBuffer) + Flatten(s.tBuffer) + Flatten(s.wBuffer)
    ensures s.finished && s.rBuffer == [] ==> s.got == s.written
  {
    hide Flatten;
    s := new Stream(writeMark, readMark, lowMark, script);
    for k := 0 to steps
      invariant fresh(s) && s.Resting()
    {
      if * {
        var chunk: Chunk := *;
        if chunk != [] {
          var ret := s.Write(chunk);
        }
      } else if * {
        var chunk: Option<Chunk> := *;
        if chunk != Some([]) {
          s.End(chunk);
        }
      } else if * {
        var n: Option<int> := *;
        var ret := s.UserRead(n);
      } else if s.drainTicks > 0 {
        s.RunDrainTick();
      }
    }
    s.InOrder();
    if s.finished && s.rBuffer == [] {
      s.AllDelivered();
    }
  }
}
