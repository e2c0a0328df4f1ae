/** Readable streams: lib/_stream_readable.js with an arbitrary `_read`. */
module Readable {
  import opened Common

  type Chunk = seq<byte>

  ghost predicate NonEmpty(list: seq<Chunk>) {
    forall i :: 0 <= i < |list| ==> list[i] != []
  }

  /** How many bytes `read(n)` may return; `None` stands for `read()` without a number. */
  function HowMuchToRead(n: Option<int>, length: int, ended: bool): (r: int)
    ensures length >= 0 ==> 0 <= r <= length
    ensures n.None? ==> r == length
    ensures n.Some? && r > 0 ==> r == n.value || (ended && r == length < n.value)
    ensures r == 0 ==> length == 0 || (n.Some? && (n.value <= 0 || (n.value > length && !ended)))
  {
    if length == 0 && ended then 0
    else if n.None? then length
    else if n.value <= 0 then 0
    else if n.value > length then (if ended then length else 0)
    else n.value
  }

  /** Whether `howMuchToRead` also sets `needReadable`. */
  predicate AsksForMore(n: Option<int>, length: int, ended: bool) {
    !ended && n.Some? && n.value > length
  }

  /** The oldest chunk holds the first bytes, at least one. */
  lemma FirstChunk(list: seq<Chunk>)
    requires list != []
    ensures Flatten(list) == list[0] + Flatten(list[1..])
    ensures NonEmpty(list) ==> |list[0]| > 0 && NonEmpty(list[1..])
  {
    FlattenFirst(list);
  }

  /** Plucks `n` bytes off the front of a list of chunks; `list'` is the list afterwards. */
  method FromList(n: nat, list: seq<Chunk>, length: nat) returns (ret: Option<Chunk>, list': seq<Chunk>)
    requires length == |Flatten(list)| && NonEmpty(list)
    ensures list == [] ==> ret == None && list' == []
    ensures list != [] ==> var k := if n == 0 || n > length then length else n;
                           ret == Some(Flatten(list)[..k]) && Flatten(list') == Flatten(list)[k..]
    ensures NonEmpty(list')
  {
    if list == [] {
      return None, list;
    }
    FirstChunk(list);
    if n == 0 || n >= length {
      assert Flatten(list)[..length] == Flatten(list);
      return Some(Flatten(list)), [];
    }
    if n < |list[0]| {
      var buf := list[0];
      ret, list' := Some(buf[..n]), list[0 := buf[n..]];
      FirstChunk(list');
      assert list'[1..] == list[1..];
      assert Flatten(list)[..n] == buf[..n] && Flatten(list)[n..] == buf[n..] + Flatten(list[1..]);
      return;
    }
    if n == |list[0]| {
      return Some(list[0]), list[1..];
    }
    var out: Chunk;
    out, list' := CopyOut(n, list);
    assert Flatten(list)[..n] == out && Flatten(list)[n..] == Flatten(list');
    ret := Some(out);
  }

  /** The general case: `n` bytes that span several chunks. */
  method CopyOut(n: nat, list: seq<Chunk>) returns (out: Chunk, list': seq<Chunk>)
    requires n <= |Flatten(list)| && NonEmpty(list)
    ensures |out| == n && Flatten(list) == out + Flatten(list') && NonEmpty(list')
  {
    out, list' := [], list;
    while list' != [] && |out| < n
      invariant |out| <= n && NonEmpty(list')
      invariant Flatten(list) == out + Flatten(list')
      decreases n - |out|
    {
      FirstChunk(list');
      var buf := list'[0];
      var cpy := if n - |out| < |buf| then n - |out| else |buf|;
      ghost var before, rest := Flatten(list'), list'[1..];
      if cpy < |buf| {
        list' := list'[0 := buf[cpy..]];
        FirstChunk(list');
        assert list'[1..] == rest;
      } else {
        list' := list'[1..];
      }
      assert before == buf[..cpy] + Flatten(list');
      out := out + buf[..cpy];
    }
  }

  function Size(ret: Option<Chunk>): nat {
    if ret.Some? then |ret.value| else 0
  }

  class Stream {
    const highWaterMark: int
    const lowWaterMark: int

    var buffer: seq<Chunk>
    var length: nat
    var ended: bool
    var endEmitted: bool
    var reading: bool
    var sync: bool
    var needReadable: bool
    var emittedReadable: bool

    /** Everything `_read` has delivered, and everything `read` has returned. */
    ghost var pushed: seq<byte>
    ghost var taken: seq<byte>
    /** Calls of `_read`, and those of them whose callback has not been called yet. */
    ghost var calls: nat
    ghost var outstanding: nat
    /** Calls of `read`. */
    ghost var looks: nat
    /** 'readable' events emitted. */
    ghost var notices: nat
    /** 'end' events put on the tick queue. */
    ghost var endTicks: nat
    /** `read(0)` was called after the end of input with data still buffered. */
    ghost var zeroReadAtEnd: bool

    ghost predicate Consistent()
      reads this`buffer, this`length, this`pushed, this`taken, this`ended, this`reading, this`endTicks, this`endEmitted
      reads this`zeroReadAtEnd
    {
      && NonEmpty(buffer) && length == |Flatten(buffer)|
      && pushed == taken + Flatten(buffer)
      && (ended ==> !reading)
      && endTicks == (if endEmitted then 1 else 0)
      && (endEmitted ==> ended)
      && (endEmitted && length > 0 ==> zeroReadAtEnd)
      && (zeroReadAtEnd ==> endEmitted)
    }

    /**
     * What holds whenever user code may run: bytes are conserved, at most one `_read` is outstanding,
     * 'end' is scheduled at most once, and with data buffered only through `read(0)`.
     */
    ghost predicate Valid()
      reads this`buffer, this`length, this`pushed, this`taken, this`ended, this`reading, this`endTicks, this`endEmitted
      reads this`zeroReadAtEnd, this`outstanding
    {
      Consistent() && outstanding == (if reading then 1 else 0)
    }

    constructor (highWaterMark: int, lowWaterMark: int)
      ensures Valid() && !sync && pushed == [] && taken == [] && calls == 0 && !needReadable && !reading && !ended
      ensures !emittedReadable && notices == 0
      ensures this.highWaterMark == highWaterMark && this.lowWaterMark == lowWaterMark
    {
      this.highWaterMark, this.lowWaterMark := highWaterMark, lowWaterMark;
      buffer, length, ended, endEmitted, reading, sync := [], 0, false, false, false, false;
      needReadable, emittedReadable := false, false;
      pushed, taken, calls, outstanding, looks, notices, endTicks, zeroReadAtEnd := [], [], 0, 0, 0, 0, 0, false;
    }

    /** What makes `read(n)` call `_read`. */
    ghost predicate Wants(n: Option<int>)
      reads this`needReadable, this`length, this`ended, this`reading
    {
      && !ended && !reading
      && (needReadable || AsksForMore(n, length, ended) || length - HowMuchToRead(n, length, ended) <= highWaterMark)
    }

    /** How much `read(n)` returned: judged again after a `_read` that was called and has called back. */
    twostate predicate Returned(n: Option<int>, m: nat)
      reads this`length, this`ended, this`reading
    {
      m == if old(Wants(n)) && !reading then HowMuchToRead(n, length + m, ended) else HowMuchToRead(n, old(length), old(ended))
    }

    /** Nobody is told, and nothing is asked for. */
    twostate predicate Quiet()
      reads this`notices, this`taken, this`calls, this`reading, this`needReadable
    {
      notices == old(notices) && taken == old(taken) && calls == old(calls) && !reading && needReadable == old(needReadable)
    }

    /** 'readable' is emitted unless it is out already; while no listener reads, it stays out and nobody else is told. */
    twostate predicate Told()
      reads this
    {
      && (looks > old(looks) ==> !old(emittedReadable))
      && (old(emittedReadable) || notices > old(notices))
      && (looks == old(looks) ==>
            && emittedReadable && !needReadable && taken == old(taken)
            && notices == old(notices) + if old(emittedReadable) then 0 else 1)
    }

    /** The `_read` just made has not called back. */
    twostate predicate Unanswered()
      reads this
    {
      && pushed == old(pushed) && taken == old(taken) && notices == old(notices) && needReadable == old(needReadable)
      && emittedReadable == old(emittedReadable) && ended == old(ended) && endEmitted == old(endEmitted)
    }

    /** Nothing is left for `read(n)` after the end of input. */
    ghost predicate AtEnd(n: Option<int>)
      reads this`length, this`ended
    {
      ended && HowMuchToRead(n, length, ended) == 0
    }

    /** Whether the consumer has to be told of the next data. */
    twostate predicate Needed(n: Option<int>, new ret: Option<Chunk>)
      reads this`length, this`ended, this`reading
    {
      || old(needReadable) || AsksForMore(n, old(length), old(ended)) || (old(Wants(n)) && old(length) == 0)
      || (old(Wants(n)) && !reading && AsksForMore(n, length + Size(ret), ended))
      || ret.None? || (length == 0 && !ended)
    }

    /** `read` on a stream that has ended and has nothing for it. */
    method ReadAtEnd()
      requires Valid() && ended
      modifies this`endEmitted, this`endTicks, this`zeroReadAtEnd, this`ended
      ensures Valid() && ended && endEmitted
      ensures zeroReadAtEnd == (old(zeroReadAtEnd) || (length > 0 && !old(endEmitted)))
    {
      hide Flatten;
      hide NonEmpty;
      zeroReadAtEnd := zeroReadAtEnd || (length > 0 && !endEmitted);
      EndReadable();
    }

    method EndReadable()
      requires endEmitted ==> ended
      modifies this`ended, this`endEmitted, this`endTicks
      ensures ended && endEmitted
      ensures endTicks == old(endTicks) + if old(endEmitted) then 0 else 1
    {
      if endEmitted {
        return;
      }
      ended := true;
      endEmitted := true;
      endTicks := endTicks + 1;
    }

    /**
     * `read(n)`. It returns null, exactly `n` bytes, or, after the end of input, the whole remainder;
     * `read()` returns at least all that was buffered. What it returns follows what was returned before.
     */
    method Read(n: Option<int>) returns (ret: Option<Chunk>)
      requires Valid() && !sync
      modifies this
      ensures Valid() && !sync
      ensures old(pushed) <= pushed
      ensures ret.None? ==> taken == old(taken)
      ensures needReadable == if old(AtEnd(n)) then old(needReadable) else Needed(n, ret)
      ensures endEmitted == (old(endEmitted) || old(AtEnd(n)))
      ensures ret.Some? ==> ret.value != [] && taken == old(taken) + ret.value
      ensures ret.Some? && n.None? ==> old(pushed) <= taken
      ensures ret.Some? && n.Some? ==>
                n.value > 0 && (|ret.value| == n.value || (ended && buffer == [] && |ret.value| < n.value))
      ensures notices == old(notices)
      ensures zeroReadAtEnd <==> old(zeroReadAtEnd) ||
                                 (n.Some? && n.value <= 0 && old(ended) && old(length) > 0 && !old(endEmitted))
      ensures calls >= old(calls) && (calls > old(calls) <==> old(Wants(n))) && (old(ended) ==> ended)
      ensures calls == old(calls) ==> reading == old(reading) && ended == old(ended) && pushed == old(pushed)
      ensures Returned(n, Size(ret)) && looks == old(looks) + 1
      ensures emittedReadable == (old(emittedReadable) && n.Some? && n.value <= 0)
      // A read that comes back empty has a `_read` to wait for, or has just made one.
      ensures ret.None? && !ended && (if n.Some? then n.value > 0 else highWaterMark >= 0 || old(needReadable)) ==>
                old(reading) || calls > old(calls)
      decreases 1, 0, 2
    {
      hide Flatten;
      hide NonEmpty;
      hide Consistent;
      looks := looks + 1;
      if n.None? || n.value > 0 {
        emittedReadable := false;
      }
      if AsksForMore(n, length, ended) {
        needReadable := true;
      }
      var m := HowMuchToRead(n, length, ended);
      if m == 0 && ended {
        ReadAtEnd();
        return None;
      }
      ret := FillAndTake(n, m);
    }

    method FillAndTake(n: Option<int>, wanted: nat) returns (ret: Option<Chunk>)
      requires Valid() && !sync && wanted == HowMuchToRead(n, length, ended) && (ended ==> wanted > 0)
      requires AsksForMore(n, length, ended) ==> needReadable
      modifies this
      ensures Valid() && !sync && old(pushed) <= pushed
      ensures ret.None? ==> taken == old(taken)
      ensures needReadable == Needed(n, ret) && endEmitted == old(endEmitted)
      ensures ret.Some? ==> ret.value != [] && taken == old(taken) + ret.value
      ensures ret.Some? && n.None? ==> old(pushed) <= taken
      ensures ret.Some? && n.Some? ==>
                n.value > 0 && (|ret.value| == n.value || (ended && buffer == [] && |ret.value| < n.value))
      ensures zeroReadAtEnd == old(zeroReadAtEnd) && notices == old(notices) && emittedReadable == old(emittedReadable)
      ensures looks == old(looks)
      ensures calls >= old(calls) && (calls > old(calls) <==> old(Wants(n))) && (old(ended) ==> ended)
      ensures calls == old(calls) ==> reading == old(reading) && ended == old(ended) && pushed == old(pushed)
      ensures Returned(n, Size(ret))
      decreases 1, 0, 1
    {
      hide Flatten;
      hide NonEmpty;
      var m := Fill(n, wanted);
      assert n.None? ==> m >= old(length);
      ret := Take(m);
      if n.None? && m > 0 {
        PrefixByLength(old(pushed), taken, pushed);
      }
      if length == 0 && !ended {
        needReadable := true;
      }
    }

    /** The middle of `read`: start a `_read` when the buffer runs low, and look again if it was synchronous. */
    method Fill(n: Option<int>, m: nat) returns (m': nat)
      requires Valid() && !sync && m == HowMuchToRead(n, length, ended) && (ended ==> m > 0)
      requires AsksForMore(n, length, ended) ==> needReadable
      modifies this
      ensures Valid() && !sync && old(pushed) <= pushed && taken == old(taken) && length >= old(length)
      ensures m' == if old(Wants(n)) && !reading then HowMuchToRead(n, length, ended) else m
      ensures calls >= old(calls) && (calls > old(calls) <==> old(Wants(n))) && (old(ended) ==> ended)
      ensures calls == old(calls) ==> reading == old(reading) && ended == old(ended) && pushed == old(pushed)
      ensures n.None? ==> m' >= m
      ensures zeroReadAtEnd == old(zeroReadAtEnd) && notices == old(notices) && emittedReadable == old(emittedReadable)
      ensures looks == old(looks)
      ensures needReadable == (old(needReadable) || (old(Wants(n)) && old(length) == 0) ||
                               (old(Wants(n)) && !reading && AsksForMore(n, length, ended)))
      ensures endEmitted == old(endEmitted)
      ensures old(ended) ==> unchanged(this)
      decreases 1, 0, 0
    {
      m' := m;
      var doRead := (needReadable || length - m <= highWaterMark) && !ended && !reading;
      if doRead {
        reading, sync := true, true;
        if length == 0 {
          needReadable := true;
        }
        CallRead();
        sync := false;
      }
      if doRead && !reading {
        if AsksForMore(n, length, ended) {
          needReadable := true;
        }
        m' := HowMuchToRead(n, length, ended);
      }
    }

    /** The end of `read`: the bytes leave the buffer and `length` follows. */
    method Take(m: nat) returns (ret: Option<Chunk>)
      requires Valid() && m <= length
      modifies this`buffer, this`length, this`needReadable, this`taken
      ensures Valid()
      ensures m == 0 ==> ret == None && taken == old(taken) && buffer == old(buffer)
      ensures m > 0 ==> ret.Some? && |ret.value| == m && taken == old(taken) + ret.value
      ensures needReadable == (old(needReadable) || m == 0)
      ensures m > 0 && m == old(length) ==> buffer == [] && taken == pushed
      ensures length == old(length) - m
    {
      ghost var before := Flatten(buffer);
      ret := None;
      if m > 0 {
        ret, buffer := FromList(m, buffer, length);
        assert before == before[..m] + before[m..];
        taken := taken + ret.value;
        length := length - m;
        if length == 0 {
          FlattenNothing(buffer);
        }
      } else {
        needReadable := true;
      }
    }

    /** `this._read(bufferSize, onread)` for any `_read`: its callback runs now, or some time later. */
    method CallRead()
      requires Consistent() && reading && outstanding == 0
      modifies this
      ensures Valid() && sync == old(sync) && old(pushed) <= pushed && (old(zeroReadAtEnd) ==> zeroReadAtEnd)
      ensures notices >= old(notices) && calls > old(calls) && (old(ended) ==> ended)
      ensures sync ==>
                taken == old(taken) && notices == old(notices) && zeroReadAtEnd == old(zeroReadAtEnd) && !endEmitted
      ensures sync ==>
                emittedReadable == old(emittedReadable) && needReadable == old(needReadable) && looks == old(looks)
      ensures looks >= old(looks) && (calls == old(calls) + 1 && reading ==> Unanswered())
      decreases if sync then 0 else 2, Missing(), 2
    {
      calls, outstanding := calls + 1, 1;
      if * {
        var chunk: Chunk := *;
        OnRead(chunk);
      }
    }

    /** How far the buffer is from passing the low water mark. */
    ghost function Missing(): nat
      reads this
    {
      if length <= lowWaterMark then lowWaterMark - length + 1 else 0
    }

    /**
     * The callback of `_read`; an empty chunk stands for the end of input. A consumer that is waiting
     * is told: of data past the low water mark, and of the end.
     */
    method OnRead(chunk: Chunk)
      requires Valid() && reading
      modifies this
      ensures Valid() && sync == old(sync) && old(pushed) + chunk <= pushed && (old(zeroReadAtEnd) ==> zeroReadAtEnd)
      ensures sync ==>
                taken == old(taken) && notices == old(notices) && zeroReadAtEnd == old(zeroReadAtEnd) && !endEmitted
      ensures sync ==>
                emittedReadable == old(emittedReadable) && needReadable == old(needReadable) && looks == old(looks)
      ensures looks >= old(looks) && (reading ==> calls > old(calls))
      ensures chunk == [] ==> ended
      ensures !sync && chunk == [] && old(length) == 0 ==> endEmitted && notices == old(notices) && taken == old(taken)
      ensures !sync && chunk == [] && old(length) > 0 ==> Told()
      ensures !sync && chunk != [] && old(needReadable && length + |chunk| > lowWaterMark) ==> Told()
      ensures !sync && chunk != [] && old(!needReadable && length + |chunk| > lowWaterMark) ==> Quiet()
      ensures notices >= old(notices) && calls >= old(calls) && (old(ended) ==> ended)
      ensures chunk != [] && old(length) + |chunk| <= lowWaterMark ==> calls > old(calls)
      ensures sync && (chunk == [] || old(length) + |chunk| > lowWaterMark) ==> calls == old(calls) && !reading
      decreases if sync then 0 else 2, Missing(), 1
    {
      hide Flatten;
      reading, outstanding := false, 0;
      if chunk == [] {
        ended := true;
        if !sync {
          if length > 0 {
            needReadable := false;
            EmitReadable();
          } else {
            EndReadable();
          }
        }
        return;
      }
      Arrive(chunk);
    }

    /** Data is appended; up to the low water mark more is asked for, past it a waiting consumer is told. */
    method Arrive(chunk: Chunk)
      requires Valid() && !reading && !ended && chunk != []
      modifies this
      ensures Valid() && sync == old(sync) && old(pushed) + chunk <= pushed && (old(zeroReadAtEnd) ==> zeroReadAtEnd)
      ensures sync ==>
                taken == old(taken) && notices == old(notices) && zeroReadAtEnd == old(zeroReadAtEnd) && !endEmitted
      ensures sync ==>
                emittedReadable == old(emittedReadable) && needReadable == old(needReadable) && looks == old(looks)
      ensures looks >= old(looks) && (reading ==> calls > old(calls))
      ensures !sync && old(needReadable && length + |chunk| > lowWaterMark) ==> Told()
      ensures !sync && old(!needReadable && length + |chunk| > lowWaterMark) ==> Quiet()
      ensures notices >= old(notices) && calls >= old(calls) && (old(ended) ==> ended)
      ensures old(length) + |chunk| <= lowWaterMark ==> calls > old(calls)
      ensures old(length) + |chunk| <= lowWaterMark && calls == old(calls) + 1 && reading ==>
                notices == old(notices) && taken == old(taken) && pushed == old(pushed) + chunk
      ensures sync && old(length) + |chunk| > lowWaterMark ==> calls == old(calls) && !reading
      decreases if sync then 0 else 2, Missing(), 0
    {
      hide Flatten;
      FlattenPush(buffer, chunk);
      length := length + |chunk|;
      buffer := buffer + [chunk];
      pushed := pushed + chunk;
      if length <= lowWaterMark {
        reading := true;
        CallRead();
        return;
      }
      if needReadable && !sync {
        needReadable := false;
        EmitReadable();
      }
    }

    /** Emits 'readable' unless it is already out; its listeners may call `read` any number of times. */
    method EmitReadable()
      requires Valid() && !sync
      modifies this
      ensures Valid() && !sync && old(pushed) <= pushed && (old(zeroReadAtEnd) ==> zeroReadAtEnd)
      ensures notices >= old(notices) && calls >= old(calls) && (old(ended) ==> ended)
      ensures if old(emittedReadable) then unchanged(this) else notices > old(notices)
      ensures looks >= old(looks) && (calls == old(calls) ==> reading == old(reading))
      ensures looks == old(looks) ==>
                && emittedReadable && needReadable == old(needReadable) && taken == old(taken)
                && notices == old(notices) + if old(emittedReadable) then 0 else 1
      decreases 1, 1, 0
    {
      if emittedReadable {
        return;
      }
      emittedReadable := true;
      notices := notices + 1;
      var times: nat := *;
      while times > 0
        invariant notices > old(notices) && calls >= old(calls) && (old(ended) ==> ended)
        invariant Valid() && !sync && old(pushed) <= pushed && (old(zeroReadAtEnd) ==> zeroReadAtEnd)
        invariant looks >= old(looks) && (calls == old(calls) ==> reading == old(reading))
        invariant looks == old(looks) ==>
                    emittedReadable && needReadable == old(needReadable) && taken == old(taken) && notices == old(notices) + 1
      {
        var n: Option<int> := *;
        var ret := Read(n);
        times := times - 1;
      }
    }
  }

  lemma PrefixByLength<T>(a: seq<T>, b: seq<T>, whole: seq<T>)
    requires a <= whole && b <= whole && |a| <= |b|
    ensures a <= b
  {
  }

  lemma FlattenNothing(list: seq<Chunk>)
    requires NonEmpty(list) && Flatten(list) == []
    ensures list == []
  {
    if list != [] {
      FirstChunk(list);
    }
  }

  /** With a negative high mark, `read()` on a new stream returns nothing and asks for nothing. */
  method NothingAsked(highWaterMark: int, lowWaterMark: int) returns (s: Stream)
    requires highWaterMark < 0
    ensures fresh(s) && s.Valid() && s.calls == 0 && !s.reading && !s.ended
  {
    s := new Stream(highWaterMark, lowWaterMark);
    var ret := s.Read(None);
    assert ret.None?;
  }

  /** Every run: from the start, any sequence of reads and deliveries; nothing is lost, doubled or reordered. */
  method AnyRun(highWaterMark: int, lowWaterMark: int, steps: nat) returns (s: Stream)
    ensures fresh(s) && s.Valid() && !s.sync
    ensures s.pushed == s.taken + Flatten(s.buffer) && s.length == |Flatten(s.buffer)|
    ensures s.outstanding <= 1 && s.endTicks <= 1
    ensures s.endTicks == 1 && s.buffer != [] ==> s.zeroReadAtEnd
  {
    s := new Stream(highWaterMark, lowWaterMark);
    for k := 0 to steps
      invariant fresh(s) && s.Valid() && !s.sync
    {
      if * {
        var n: Option<int> := *;
        var ret := s.Read(n);
      } else if s.reading {
        var chunk: Chunk := *;
        s.OnRead(chunk);
      }
    }
    if s.length == 0 {
      FlattenNothing(s.buffer);
    }
  }
}
