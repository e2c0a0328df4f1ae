/** Writable streams: lib/_stream_writable.js with an arbitrary `_write`. */
module Writable {
  import opened Common

  type Chunk = seq<byte>
  type Callback = nat

  /** A chunk and the callback given with it, as queued in `state.buffer`. */
  datatype Entry = Entry(chunk: Chunk, cb: Option<Callback>)

  function Size(es: seq<Entry>): nat {
    if es == [] then 0 else |es[0].chunk| + Size(es[1..])
  }

  function Callbacks(es: seq<Entry>): multiset<Callback> {
    if es == [] then multiset{}
    else Callbacks(es[..|es| - 1]) + OneCallback(es[|es| - 1])
  }

  function OneCallback(e: Entry): multiset<Callback> {
    if e.cb.Some? then multiset{e.cb.value} else multiset{}
  }

  ghost predicate NonEmpty(es: seq<Entry>) {
    forall i :: 0 <= i < |es| ==> es[i].chunk != []
  }

  lemma {:induction false} SizePush(es: seq<Entry>, e: Entry)
    ensures Size(es + [e]) == Size(es) + |e.chunk|
  {
    if es == [] {
      assert [e][1..] == [];
    } else {
      SizePush(es[1..], e);
      assert (es + [e])[1..] == es[1..] + [e];
    }
  }

  lemma SizeZero(es: seq<Entry>)
    requires NonEmpty(es) && Size(es) == 0
    ensures es == []
  {
  }

  lemma NonEmptyParts(es: seq<Entry>, c: nat)
    requires NonEmpty(es) && c <= |es|
    ensures NonEmpty(es[c..]) && NonEmpty([])
    ensures c < |es| ==> es[c].chunk != []
  {
  }

  lemma NonEmptyPush(es: seq<Entry>, e: Entry)
    requires NonEmpty(es) && e.chunk != []
    ensures NonEmpty(es + [e])
  {
  }

  lemma CallbacksPush(es: seq<Entry>, e: Entry)
    ensures Callbacks(es + [e]) == Callbacks(es) + OneCallback(e)
  {
    assert (es + [e])[..|es|] == es;
  }

  /** Those of `s` whose flag is `late`, in order. */
  function Those(s: seq<Callback>, flags: seq<bool>, late: bool): seq<Callback>
    requires |flags| == |s|
  {
    if s == [] then []
    else
      var n := |s| - 1;
      Those(s[..n], flags[..n], late) + if flags[n] == late then [s[n]] else []
  }

  /** The callbacks of the entries whose flag is `late`, in order. */
  function CallbacksOf(es: seq<Entry>, flags: seq<bool>, late: bool): seq<Callback>
    requires |flags| == |es|
  {
    if es == [] then []
    else
      var n := |es| - 1;
      CallbacksOf(es[..n], flags[..n], late) + if flags[n] == late && es[n].cb.Some? then [es[n].cb.value] else []
  }

  lemma ThosePush(s: seq<Callback>, flags: seq<bool>, x: Callback, flag: bool, late: bool)
    requires |flags| == |s|
    ensures Those(s + [x], flags + [flag], late) == Those(s, flags, late) + if flag == late then [x] else []
  {
    assert (s + [x])[..|s|] == s && (flags + [flag])[..|s|] == flags;
  }

  lemma CallbacksOfPush(es: seq<Entry>, flags: seq<bool>, e: Entry, flag: bool, late: bool)
    requires |flags| == |es|
    ensures CallbacksOf(es + [e], flags + [flag], late)
         == CallbacksOf(es, flags, late) + if flag == late && e.cb.Some? then [e.cb.value] else []
  {
    assert (es + [e])[..|es|] == es && (flags + [flag])[..|es|] == flags;
  }

  /** What has become of callbacks: those called, and which of them from the tick queue; and which writes deferred theirs. */
  datatype Calls = Calls(called: seq<Callback>, ticked: seq<bool>, late: seq<bool>)

  /**
   * The callbacks of completed writes have been called, or wait on the tick queue, once each: the deferred ones in the order
   * of their writes, and so the others.
   */
  ghost predicate Called(c: Calls, cbTicks: seq<Callback>, done: seq<Entry>) {
    && |c.ticked| == |c.called| && |c.late| == |done|
    && Those(c.called, c.ticked, true) + cbTicks == CallbacksOf(done, c.late, true)
    && Those(c.called, c.ticked, false) == CallbacksOf(done, c.late, false)
  }

  /** A write completes: its callback is deferred, or called at once. */
  lemma CallNow(c: Calls, cbTicks: seq<Callback>, done: seq<Entry>, e: Entry, late: bool)
    requires Called(c, cbTicks, done)
    ensures var d := c.(late := c.late + [late]);
              if e.cb.None? then Called(d, cbTicks, done + [e])
              else if late then Called(d, cbTicks + [e.cb.value], done + [e])
              else Called(d.(called := c.called + [e.cb.value], ticked := c.ticked + [false]), cbTicks, done + [e])
  {
    CallbacksOfPush(done, c.late, e, late, true);
    CallbacksOfPush(done, c.late, e, late, false);
    if e.cb.Some? && !late {
      ThosePush(c.called, c.ticked, e.cb.value, false, true);
      ThosePush(c.called, c.ticked, e.cb.value, false, false);
    }
    hide Those;
    hide CallbacksOf;
    if e.cb.Some? && late {
      Assoc(Those(c.called, c.ticked, true), cbTicks, [e.cb.value]);
    }
  }

  lemma CallTick(c: Calls, cbTicks: seq<Callback>, done: seq<Entry>)
    requires Called(c, cbTicks, done) && cbTicks != []
    ensures Called(c.(called := c.called + [cbTicks[0]], ticked := c.ticked + [true]), cbTicks[1..], done)
  {
    ThosePush(c.called, c.ticked, cbTicks[0], true, true);
    ThosePush(c.called, c.ticked, cbTicks[0], true, false);
    hide Those;
    hide CallbacksOf;
    assert cbTicks == [cbTicks[0]] + cbTicks[1..];
    Assoc(Those(c.called, c.ticked, true), [cbTicks[0]], cbTicks[1..]);
  }

  lemma {:induction false} ThoseAll(s: seq<Callback>, flags: seq<bool>)
    requires |flags| == |s|
    ensures multiset(s) == multiset(Those(s, flags, true)) + multiset(Those(s, flags, false))
  {
    if s != [] {
      var n := |s| - 1;
      ThoseAll(s[..n], flags[..n]);
      assert s == s[..n] + [s[n]];
    }
  }

  lemma {:induction false} CallbacksAll(es: seq<Entry>, flags: seq<bool>)
    requires |flags| == |es|
    ensures Callbacks(es) == multiset(CallbacksOf(es, flags, true)) + multiset(CallbacksOf(es, flags, false))
  {
    if es != [] {
      CallbacksAll(es[..|es| - 1], flags[..|es| - 1]);
    }
  }

  /** Each exactly once. */
  lemma OnceEach(c: Calls, cbTicks: seq<Callback>, done: seq<Entry>)
    requires Called(c, cbTicks, done)
    ensures multiset(c.called) + multiset(cbTicks) == Callbacks(done)
  {
    ThoseAll(c.called, c.ticked);
    CallbacksAll(done, c.late);
    assert multiset(Those(c.called, c.ticked, true) + cbTicks) == multiset(Those(c.called, c.ticked, true)) + multiset(cbTicks);
  }

  lemma {:induction false} ThoseNone(s: seq<Callback>, flags: seq<bool>)
    requires |flags| == |s| && Those(s, flags, false) == []
    ensures Those(s, flags, true) == s
  {
    if s != [] {
      var n := |s| - 1;
      ThoseNone(s[..n], flags[..n]);
      assert s == s[..n] + [s[n]];
    }
  }

  lemma {:induction false} AllLate(es: seq<Entry>, flags: seq<bool>)
    requires |flags| == |es| && forall i :: 0 <= i < |es| ==> flags[i]
    ensures CallbacksOf(es, flags, false) == []
  {
    if es != [] {
      AllLate(es[..|es| - 1], flags[..|es| - 1]);
    }
  }

  class Stream {
    const highWaterMark: int
    const lowWaterMark: nat

    var needDrain: bool
    var ending: bool
    var ended: bool
    var finished: bool
    var finishing: bool
    var length: int
    var writing: bool
    var sync: bool
    var bufferProcessing: bool
    var writelen: nat
    var writecb: Option<Callback>
    var buffer: seq<Entry>

    /** Entries accepted by `write`; those `_write` has completed; the one it is working on, if any. */
    ghost var accepted: seq<Entry>
    ghost var done: seq<Entry>
    ghost var current: seq<Entry>
    /** Entries `_write` has been called with. */
    ghost var handed: seq<Entry>
    /** The buffer loop has passed this many entries of `buffer`. */
    ghost var cursor: nat
    /** Callbacks already called, and those waiting on the tick queue. */
    ghost var calls: Calls
    var cbTicks: seq<Callback>
    var drainTicks: nat
    /** The fill levels at which a check for 'drain' has been put on the tick queue. */
    ghost var drainLevels: seq<int>
    ghost var finishEvents: nat
    ghost var drainEvents: nat

    ghost function Waiting(): seq<Entry>
      reads this`cursor, this`buffer
      requires cursor <= |buffer|
    {
      buffer[cursor..]
    }

    /** A producer that was told to wait will be told to go on. */
    ghost predicate DrainDue()
      reads this`needDrain, this`writing, this`length, this`drainTicks, this`finished
    {
      needDrain && !writing && length <= lowWaterMark ==> drainTicks > 0 || finished
    }

    /** No check is put there above the low mark. */
    ghost predicate Levels()
      reads this`drainLevels, this`drainTicks
    {
      drainTicks <= |drainLevels| && forall i :: 0 <= i < |drainLevels| ==> drainLevels[i] <= lowWaterMark
    }

    /** Holds at every call and return of `_write` and its callback. */
    ghost predicate Core()
      reads this
    {
      Accounted() && DrainDue() && Levels()
    }

    /** `_write` is called with every entry in its turn. */
    ghost predicate Handed()
      reads this`handed, this`done, this`current
    {
      handed == done + current
    }

    ghost predicate Accounted()
      reads this
    {
      Queued() && Called(calls, cbTicks, done) && Flags()
    }

    /** Entries pass through `_write` in order and one at a time, and `length` counts the bytes not yet completed. */
    ghost predicate Queued()
      reads this`cursor, this`buffer, this`bufferProcessing, this`accepted, this`done, this`current
      reads this`writing, this`writelen, this`writecb, this`length
    {
      && cursor <= |buffer| && (!bufferProcessing ==> cursor == 0)
      && NonEmpty(buffer)
      && InOrder(accepted, done + current, Waiting())
      && (if writing then |current| == 1 && current[0].chunk != [] && |current[0].chunk| == writelen && current[0].cb == writecb
          else current == [])
      && length == (if writing then writelen else 0) + Size(Waiting())
    }

    ghost predicate Flags()
      reads this`finishing, this`finished, this`finishEvents, this`ending, this`ended, this`length
    {
      && finishing == finished && finishEvents == (if finished then 1 else 0)
      && (finished ==> ending && length == 0) && (ended ==> ending)
    }

    /** Nothing of the stream is on the stack. */
    ghost predicate Resting()
      reads this
    {
      && Core() && Handed() && !sync && !bufferProcessing && ending == ended
      && (buffer != [] ==> writing)
      && (ended && length == 0 ==> finished)
    }

    constructor (highWaterMark: int, lowWaterMark: nat)
      ensures Resting() && accepted == [] && buffer == [] && !ended && !finished && !writing && writecb.None?
      ensures writelen == 0
      ensures cbTicks == [] && calls.called == [] && !needDrain && drainTicks == 0 && drainEvents == 0
      ensures this.highWaterMark == highWaterMark && this.lowWaterMark == lowWaterMark
    {
      this.highWaterMark, this.lowWaterMark := highWaterMark, lowWaterMark;
      needDrain, ending, ended, finished, finishing := false, false, false, false, false;
      length, writing, sync, bufferProcessing, writelen, writecb, buffer := 0, false, false, false, 0, None, [];
      accepted, done, current, handed, cursor, calls, cbTicks := [], [], [], [], 0, Calls([], [], []), [];
      drainTicks, drainLevels, finishEvents, drainEvents := 0, [], 0, 0;
    }

    /** `write(chunk, cb)`; the result is `None` for the error 'write after end'. */
    method Write(chunk: Chunk, cb: Option<Callback>) returns (ret: Option<bool>)
      requires Core() && !sync && !bufferProcessing && (buffer != [] ==> writing) && chunk != []
      requires Handed() && (finished ==> ended)
      modifies this
      ensures Core() && Handed() && !sync && !bufferProcessing && (buffer != [] ==> writing)
      ensures old(ended) ==> ret.None? && unchanged(this)
      ensures !old(ended) ==> ret == Some(old(length) + |chunk| < highWaterMark)
      ensures !old(ended) ==> accepted == old(accepted) + [Entry(chunk, cb)] && old(done) <= done
      ensures !old(ended) ==> needDrain == (old(needDrain) || ret == Some(false))
      ensures ending == old(ending) && ended == old(ended)
      ensures !ending && !old(finished) ==> !finished
      ensures !old(ended) && ending && length == 0 ==> finished
    {
      hide Size;
      hide Called;
      hide InOrder;
      hide NonEmpty;
      hide Queued;
      hide DrainDue;
      if ended {
        return None;
      }
      var e := Entry(chunk, cb);
      ret := Some(length + |chunk| < highWaterMark);
      Accept(e);
      if sync {
        assert done + old(current) == done;
        CallWrite(e);
        sync := false;
      }
    }

    /** The first half of `write`: count the entry, and queue it or make it the write in flight. */
    method Accept(e: Entry)
      requires Core() && !sync && !bufferProcessing && (buffer != [] ==> writing) && e.chunk != [] && !finished
      modifies this`length, this`needDrain, this`accepted, this`buffer, this`writing, this`sync
      modifies this`writelen, this`writecb, this`current
      ensures Core() && writing && sync == !old(writing) && accepted == old(accepted) + [e] && length > 0
      ensures length == old(length) + |e.chunk| && needDrain == (old(needDrain) || length >= highWaterMark)
      ensures old(writing) ==> current == old(current) && buffer == old(buffer) + [e]
      ensures !old(writing) ==> current == [e] && old(current) == [] && buffer == []
    {
      hide Size;
      hide Called;
      hide InOrder;
      hide NonEmpty;
      if writing {
        Enqueue(e);
      } else {
        Start(e);
      }
      if !(length < highWaterMark) {
        needDrain := true;
      }
    }

    method Enqueue(e: Entry)
      requires Queued() && writing && !bufferProcessing && e.chunk != []
      modifies this`length, this`accepted, this`buffer
      ensures Queued() && accepted == old(accepted) + [e] && length == old(length) + |e.chunk|
      ensures buffer == old(buffer) + [e]
    {
      hide InOrder;
      hide NonEmpty;
      assert Waiting() == buffer;
      OrderMoves(accepted, done + current, buffer, e);
      NonEmptyPush(buffer, e);
      SizePush(buffer, e);
      hide Size;
      length := length + |e.chunk|;
      accepted := accepted + [e];
      buffer := buffer + [e];
      assert Waiting() == buffer;
    }

    method Start(e: Entry)
      requires Queued() && !writing && buffer == [] && e.chunk != []
      modifies this`length, this`accepted, this`writing, this`sync, this`writelen, this`writecb, this`current
      ensures Queued() && writing && sync && accepted == old(accepted) + [e] && length == |e.chunk| && current == [e]
    {
      hide InOrder;
      hide NonEmpty;
      assert Waiting() == [];
      OrderMoves(accepted, done + current, [], e);
      assert done + current + [e] == done + [e];
      length := length + |e.chunk|;
      accepted := accepted + [e];
      writing, sync, writelen, writecb := true, true, |e.chunk|, e.cb;
      current := [e];
    }

    /** `this._write(chunk, onwrite)` for any `_write`: its callback runs now, or some time later. */
    method CallWrite(e: Entry)
      requires Core() && writing && sync && current == [e] && handed == done
      requires !bufferProcessing ==> buffer == []
      modifies this
      ensures Core() && Handed() && sync == old(sync) && bufferProcessing == old(bufferProcessing)
      ensures accepted == old(accepted) && old(done) <= done && buffer == old(buffer) && cursor == old(cursor)
      ensures ending == old(ending) && ended == old(ended) && needDrain == old(needDrain)
      ensures !ending ==> finished == old(finished)
      ensures ending && length == 0 ==> finished
      decreases if bufferProcessing then 0 else 2, 1
    {
      handed := handed + [e];
      if * {
        OnWrite();
      }
    }

    /** The completion callback passed to `_write`; a user callback it calls may call `end`. */
    method OnWrite()
      requires Core() && Handed() && writing
      requires sync && !bufferProcessing ==> buffer == []
      modifies this
      ensures Core() && Handed() && bufferProcessing == old(bufferProcessing)
      ensures accepted == old(accepted) && old(done + current) <= done
      ensures sync ==> old(sync)
      ensures old(bufferProcessing || buffer == []) ==>
                sync == old(sync) && done == old(done + current) && buffer == old(buffer) && cursor == old(cursor) && !writing
      ensures !bufferProcessing && buffer != [] ==> writing
      ensures old(bufferProcessing || buffer == []) ==>
                drainTicks == old(drainTicks) +
                              if needDrain && length <= lowWaterMark && !(length == 0 && old(ending)) then 1 else 0
      ensures needDrain == old(needDrain) && SameEnd()
      ensures !ending ==> finished == old(finished)
      ensures ending && length == 0 ==> finished
      decreases if bufferProcessing then 0 else 2, 0
    {
      hide Size;
      hide Called;
      hide NonEmpty;
      hide Queued;
      hide Levels;
      Complete();
      assert done + current == done;
      if length == 0 && (ended || ending) && !finished && !finishing {
        Finish();
        return;
      }
      CheckDrain();
      if !bufferProcessing && |buffer| > 0 {
        ProcessBuffer();
      }
    }

    /** A check for 'drain' on a later tick, if somebody waits and the buffer is down to the low mark. */
    method CheckDrain()
      requires Accounted() && Levels()
      modifies this`drainTicks, this`drainLevels
      ensures Accounted() && DrainDue() && Levels()
      ensures drainTicks == old(drainTicks) + if length <= lowWaterMark && needDrain then 1 else 0
    {
      hide Called;
      hide Queued;
      hide Flags;
      if length <= lowWaterMark && needDrain {
        drainTicks, drainLevels := drainTicks + 1, drainLevels + [length];
      }
    }

    /** `end` has not been called, unless from an asynchronous completion. */
    twostate predicate SameEnd()
      reads this`ending, this`ended, this`sync
    {
      (ending == old(ending) && ended == old(ended)) || (!old(sync) && !old(ending) && ending && ended)
    }

    /** `cb()`, for any user callback that does not write: it may call `end`. */
    method UserCallback(cb: Callback, ghost ticked: bool)
      requires Queued() && Flags()
      requires Called(calls.(called := calls.called + [cb], ticked := calls.ticked + [ticked]), cbTicks, done)
      modifies this`calls, this`ending, this`ended, this`finishing, this`finished, this`finishEvents
      ensures Accounted()
      ensures calls == old(calls).(called := old(calls).called + [cb], ticked := old(calls).ticked + [ticked])
      ensures (ending == old(ending) && ended == old(ended) && finished == old(finished))
              || (!old(ending) && ending && ended && (finished <==> length == 0))
    {
      hide Called;
      hide Queued;
      calls := calls.(called := calls.called + [cb], ticked := calls.ticked + [ticked]);
      if * {
        EndNow();
      }
    }

    /** `end()` */
    method EndNow()
      requires Accounted()
      modifies this`ending, this`ended, this`finishing, this`finished, this`finishEvents
      ensures Accounted() && ending
      ensures old(ending || ended || finished) ==> unchanged(this)
      ensures !old(ending || ended || finished) ==> ended && (finished <==> length == 0)
    {
      hide Called;
      hide Queued;
      if ending || ended || finished {
        return;
      }
      ending := true;
      if length == 0 && !finishing && !finished {
        Finish();
      }
      ended := true;
    }

    /** 'finish' is emitted. */
    method Finish()
      requires Accounted() && length == 0 && ending && !finished
      modifies this`finishing, this`finished, this`finishEvents
      ensures Accounted() && finished
    {
      hide Called;
      hide Queued;
      finishing := true;
      finishEvents := finishEvents + 1;
      finished := true;
    }

    /** The start of `onwrite`: the write is over and its callback is called, or deferred if synchronous. */
    method Complete()
      requires Accounted() && writing
      modifies this`writing, this`length, this`done, this`current, this`calls, this`cbTicks
      modifies this`ending, this`ended, this`finishing, this`finished, this`finishEvents
      ensures Accounted() && !writing && done == old(done + current) && current == []
      ensures length == 0 && !bufferProcessing ==> buffer == []
      ensures calls.late == old(calls).late + [sync]
      ensures calls.called == old(calls).called + if writecb.Some? && !sync then [writecb.value] else []
      ensures cbTicks == old(cbTicks) + if writecb.Some? && sync then [writecb.value] else []
      ensures (ending == old(ending) && ended == old(ended) && !finished)
              || (writecb.Some? && !sync && !old(ending) && ending && ended && (finished <==> length == 0))
    {
      hide Called;
      CallNow(calls, cbTicks, done, current[0], sync);
      assert current == [current[0]];
      Retire();
      calls := calls.(late := calls.late + [sync]);
      if writecb.Some? {
        if sync {
          cbTicks := cbTicks + [writecb.value];
        } else {
          UserCallback(writecb.value, false);
        }
      }
    }

    method Retire()
      requires Queued() && writing
      modifies this`writing, this`length, this`done, this`current
      ensures Queued() && !writing && done == old(done + current) && current == [] && length == old(length) - writelen
      ensures length == 0 && !bufferProcessing ==> buffer == []
    {
      hide Size;
      hide InOrder;
      hide NonEmpty;
      writing := false;
      length := length - writelen;
      assert done + current + [] == done + current;
      done, current := done + current, [];
      if length == 0 {
        NonEmptyParts(buffer, cursor);
        SizeZero(Waiting());
      }
    }

    /** The loop of `onwrite` over what was queued while a write was in flight. */
    method ProcessBuffer()
      requires Core() && Handed() && !writing && !bufferProcessing && !sync && buffer != []
      modifies this
      ensures Core() && Handed() && !sync && !bufferProcessing && (buffer != [] ==> writing)
      ensures accepted == old(accepted) && old(done) <= done
      ensures ending == old(ending) && ended == old(ended) && needDrain == old(needDrain)
      ensures !ending ==> finished == old(finished)
      ensures ending && length == 0 ==> finished
      decreases 1, 0
    {
      hide Size;
      hide Called;
      hide InOrder;
      hide NonEmpty;
      hide Flags;
      hide DrainDue;
      bufferProcessing := true;
      var c := 0;
      while c < |buffer|
        invariant Core() && Handed() && bufferProcessing && !writing && c == cursor <= |buffer| && buffer == old(buffer)
        invariant accepted == old(accepted) && old(done) <= done
        invariant ending == old(ending) && ended == old(ended) && needDrain == old(needDrain)
        invariant !ending ==> finished == old(finished)
        invariant !sync && (c > 0 && ending && length == 0 ==> finished)
        decreases |buffer| - c
      {
        WriteQueued(c);
        c := c + 1;
        if writing {
          break;
        }
      }
      Trim(c);
    }

    /** The end of the loop: drop what it has passed. */
    method Trim(c: nat)
      requires Core() && bufferProcessing && c == cursor
      modifies this`bufferProcessing, this`buffer, this`cursor
      ensures Core() && !bufferProcessing && buffer == old(buffer)[c..]
    {
      hide Size;
      hide Called;
      hide InOrder;
      hide NonEmpty;
      bufferProcessing := false;
      NonEmptyParts(buffer, c);
      if c < |buffer| {
        buffer := buffer[c..];
      } else {
        buffer := [];
      }
      cursor := 0;
      assert Waiting() == old(Waiting());
    }

    /** One turn of the loop. */
    method WriteQueued(c: nat)
      requires Core() && Handed() && bufferProcessing && !writing && c == cursor < |buffer|
      modifies this
      ensures Core() && Handed() && !sync && bufferProcessing && cursor == c + 1 && buffer == old(buffer)
      ensures accepted == old(accepted) && old(done) <= done
      ensures ending == old(ending) && ended == old(ended) && needDrain == old(needDrain)
      ensures !ending ==> finished == old(finished)
      ensures ending && length == 0 ==> finished
      decreases 0, 2
    {
      hide Called;
      hide Flags;
      hide DrainDue;
      hide Queued;
      StartQueued(c);
      assert done + old(current) == done;
      CallWrite(buffer[c]);
      sync := false;
    }

    /** The next queued entry becomes the write in flight. */
    method StartQueued(c: nat)
      requires Core() && bufferProcessing && !writing && c == cursor < |buffer|
      modifies this`writelen, this`writecb, this`writing, this`sync, this`cursor, this`current
      ensures Core() && writing && sync && cursor == old(cursor) + 1 && current == [buffer[c]] && old(current) == []
    {
      hide Called;
      hide InOrder;
      hide NonEmpty;
      NonEmptyParts(buffer, c);
      var e := buffer[c];
      OrderMoves(accepted, done + current, Waiting(), e);
      assert done + current + [e] == done + [e];
      writelen, writecb, writing, sync := |e.chunk|, e.cb, true, true;
      assert Waiting()[1..] == buffer[c + 1..] && Waiting()[0] == e;
      assert Waiting() == [e] + buffer[c + 1..];
      cursor, current := cursor + 1, [e];
    }

    /** `_write` calls back on a later turn. */
    method CompleteLater()
      requires Resting() && writing
      modifies this
      ensures Resting() && accepted == old(accepted) && old(done + current) <= done
      ensures old(ended) ==> ended
    {
      OnWrite();
    }

    /** `end(chunk)`: 'finish' follows as soon as everything accepted has completed. */
    method End(chunk: Option<Chunk>)
      requires Resting() && (chunk.Some? ==> chunk.value != [])
      modifies this
      ensures Resting() && ended
      ensures old(ended) ==> unchanged(this)
      ensures !old(ended) ==> accepted == old(accepted) + if chunk.Some? then [Entry(chunk.value, None)] else []
      ensures old(done) <= done
    {
      hide Size;
      hide Called;
      hide Queued;
      if chunk.None? {
        EndNow();
        return;
      }
      if ending || ended || finished {
        return;
      }
      ending := true;
      var _ := Write(chunk.value, None);
      ended := true;
    }

    /** A deferred user callback runs from the tick queue. */
    method RunCallbackTick()
      requires Resting() && cbTicks != []
      modifies this`calls, this`cbTicks, this`ending, this`ended, this`finishing, this`finished, this`finishEvents
      ensures Resting() && calls.called == old(calls).called + [old(cbTicks)[0]] && cbTicks == old(cbTicks)[1..]
      ensures calls.ticked == old(calls).ticked + [true] && (old(ended) ==> ended)
    {
      hide Called;
      hide Size;
      hide InOrder;
      hide NonEmpty;
      CallTick(calls, cbTicks, done);
      var cb := cbTicks[0];
      cbTicks := cbTicks[1..];
      UserCallback(cb, true);
    }

    /** A deferred 'drain' check runs from the tick queue. */
    method RunDrainTick()
      requires Resting() && drainTicks > 0
      modifies this`drainTicks, this`needDrain, this`drainEvents
      ensures Resting() && !needDrain && drainTicks == old(drainTicks) - 1
      ensures drainEvents == old(drainEvents) + if old(needDrain) then 1 else 0
    {
      hide Size;
      hide Called;
      hide InOrder;
      hide NonEmpty;
      drainTicks := drainTicks - 1;
      if !needDrain {
        return;
      }
      needDrain := false;
      drainEvents := drainEvents + 1;
    }

    /** A producer that was told `false` waits for a write in flight, a pending 'drain', or nothing: the stream is over. */
    lemma NoProducerForgotten()
      requires Resting() && needDrain
      ensures writing || drainTicks > 0 || finished
    {
    }

    /** If all writes completed at once, callbacks are called in the order of the writes. */
    lemma CalledInOrder()
      requires Resting() && forall i :: 0 <= i < |calls.late| ==> calls.late[i]
      ensures calls.called + cbTicks == CallbacksOf(done, calls.late, true)
    {
      AllLate(done, calls.late);
      ThoseNone(calls.called, calls.ticked);
    }

    /** 'finish' means that everything accepted has been completed. */
    lemma FinishedIsDone()
      requires Resting() && finished
      ensures ended && done == accepted
    {
      SizeZero(Waiting());
    }
  }

  /**
   * Every run: from the start, any sequence of writes, ends, completions and ticks. `_write` has been called with what
   * is not queued, none of it twice, and nothing is queued unless it is at work. It has completed the entries of
   * `done`, in the order of `write`; the callback of each has been called or is about to be, once.
   */
  method AnyRun(highWaterMark: int, lowWaterMark: nat, steps: nat) returns (s: Stream)
    ensures fresh(s) && s.Resting()
    ensures s.accepted == s.handed + s.buffer && s.done <= s.handed && (!s.writing ==> s.done == s.accepted)
    ensures s.done <= s.accepted && multiset(s.calls.called) + multiset(s.cbTicks) == Callbacks(s.done)
    ensures Called(s.calls, s.cbTicks, s.done)
    ensures s.finishEvents <= 1 && (s.finishEvents == 1 ==> s.ended && s.done == s.accepted)
    ensures s.needDrain ==> s.writing || s.drainTicks > 0 || s.finished
  {
    hide Size;
    hide Callbacks;
    hide NonEmpty;
    s := new Stream(highWaterMark, lowWaterMark);
    for k := 0 to steps
      invariant fresh(s) && s.Resting()
    {
      if * {
        var chunk: Chunk, cb: Option<Callback> := *, *;
        if chunk != [] {
          var ret := s.Write(chunk, cb);
        }
      } else if * {
        var chunk: Option<Chunk> := *;
        if chunk != Some([]) {
          s.End(chunk);
        }
      } else if * {
        if s.writing {
          s.CompleteLater();
        }
      } else if * {
        if s.cbTicks != [] {
          s.RunCallbackTick();
        }
      } else {
        if s.drainTicks > 0 {
          s.RunDrainTick();
        }
      }
    }
    OnceEach(s.calls, s.cbTicks, s.done);
    if s.needDrain {
      s.NoProducerForgotten();
    }
    if s.finished {
      s.FinishedIsDone();
    }
  }
}
