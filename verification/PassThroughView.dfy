/**
 * PassThrough with known listeners, as functions: what every call does to the readable side, and to the sizes of the
 * chunks that wait. Module PassThrough proves that its methods compute these functions when listeners do not read.
 */
module PassThroughView {
  import opened Common
  import Readable

  /** `lowWaterMark` and `highWaterMark` of the readable side. */
  datatype Marks = Marks(low: nat, high: int)

  /**
   * The fields of the readable and transform sides: `length`, the bytes the buffer really holds, `needReadable`,
   * `emittedReadable`, whether `pendingReadCb` is set, `sync`, `ended`, `endEmitted`; whether 'end' was scheduled with
   * data buffered, and whether `done` emitted it. Each time 'readable' is emitted, the listeners make the calls of
   * `read` that come next in `script`, none once it is empty.
   */
  datatype View = View(len: int, held: int, need: bool, told: bool, pend: bool, sync: bool, ended: bool, emitted: bool,
                       early: bool, atDone: bool, script: seq<seq<Option<int>>>)

  predicate Reading(v: View) {
    v.pend && !v.ended
  }

  // ---------- the readable side ----------

  /** `howMuchToRead` sets `needReadable`. */
  function Asked(v: View, n: Option<int>): View {
    v.(need := v.need || Readable.AsksForMore(n, v.len, v.ended))
  }

  /** The start of `read`. */
  function Looked(v: View, n: Option<int>): View {
    Asked(v, n).(told := v.told && n.Some? && n.value <= 0)
  }

  function Much(v: View, n: Option<int>): int {
    Readable.HowMuchToRead(n, v.len, v.ended)
  }

  /** Whether `read(n)` calls `_read`. */
  predicate Pulls(v: View, m: int, marks: Marks) {
    (v.need || v.len - m <= marks.high) && !v.ended && !Reading(v)
  }

  /** The end of `read`: `m` bytes leave, as many as `fromList` finds. */
  function Returned(v: View, m: int): View {
    var w := Plucked(v, m);
    if w.len == 0 && !w.ended then w.(need := true) else w
  }

  function Plucked(v: View, m: int): View {
    if m > 0 && v.held > 0 then v.(len := v.len - m, held := if m >= v.len then 0 else v.held - m) else v.(need := true)
  }

  /** `endReadable` */
  function Scheduled(v: View): View {
    if v.emitted then v else v.(emitted := true, early := v.len > 0)
  }

  /** `read` starts its `_read`. */
  function Begun(v: View): View {
    v.(need := v.need || v.len == 0, sync := true)
  }

  /** `read(n)` with no chunk waiting: a `_read` that it starts stays pending. */
  function ReadEmpty(v: View, n: Option<int>, marks: Marks): View {
    var u, m := Looked(v, n), Much(v, n);
    if v.ended && m == 0 then Scheduled(u)
    else if Pulls(u, m, marks) then Returned(Begun(u).(pend := true, sync := false), m)
    else Returned(u, m)
  }

  function Heard(v: View, calls: seq<Option<int>>, marks: Marks): View
    decreases |calls|
  {
    if calls == [] then v else Heard(ReadEmpty(v, calls[0], marks), calls[1..], marks)
  }

  /** 'readable' is emitted. */
  function Listened(v: View, marks: Marks): View {
    if v.script == [] then v else Heard(v.(script := v.script[1..]), v.script[0], marks)
  }

  function Announced(v: View, marks: Marks): View {
    if v.told then v else Listened(v.(told := true), marks)
  }

  /** `onread` with a chunk of `size` bytes. */
  function Arrived(v: View, size: nat, marks: Marks): View {
    Told(v.(pend := false, len := v.len + size, held := v.held + size), marks)
  }

  /** Below the low mark `onread` calls `_read` again, above it a consumer that needs to know is told. */
  function Told(w: View, marks: Marks): View {
    if w.len <= marks.low then w.(pend := true)
    else if w.need && !w.sync then Announced(w.(need := false), marks)
    else w
  }

  // ---------- the transform side ----------

  /** `done`, and `onread` without data if a `_read` is pending. */
  function Stopped(v: View, marks: Marks): View {
    var w := v.(ended := true);
    if w.pend then
      if w.sync then w else if w.len > 0 then Announced(w.(need := false), marks) else Scheduled(w)
    else if w.len > 0 && w.need then Listened(w, marks)
    else if w.len == 0 then w.(atDone := true)
    else w
  }

  /** A chunk is transformed; after the last one the writable side finishes. */
  function Through(v: View, size: nat, last: bool, marks: Marks): View {
    var a := Arrived(v, size, marks);
    if last then Stopped(a, marks) else a
  }

  /** `_write` of Transform: the second component tells that the chunk stays in the transform queue. */
  function Written(v: View, size: nat, last: bool, marks: Marks): (View, bool) {
    if v.pend then
      var a := Through(v, size, last, marks);
      (if (a.need || a.len <= marks.high) && !Reading(a) then ReadEmpty(a, Some(0), marks) else a, false)
    else if v.need || v.len <= marks.high then
      (Returned(Through(Begun(v), size, last, marks).(sync := false), 0), false)
    else (v, true)
  }

  // ---------- the writable side ----------

  /** The readable side, the size of the chunk in the transform queue, and the sizes of the chunks queued behind it. */
  datatype State = State(v: View, t: seq<nat>, w: seq<nat>)

  /** The loop of `onwrite`. */
  function Looped(v: View, sizes: seq<nat>, ending: bool, marks: Marks): State
    decreases |sizes|
  {
    if sizes == [] then State(v, [], [])
    else
      var (a, stays) := Written(v, sizes[0], ending && |sizes| == 1, marks);
      if stays then State(a, [sizes[0]], sizes[1..]) else Looped(a, sizes[1..], ending, marks)
  }

  /** `_read` with a chunk waiting: it goes through, and the loop of `onwrite` follows. */
  function Pulled(v: View, size: nat, last: bool, rest: seq<nat>, ending: bool, marks: Marks): State {
    if last then State(Through(v, size, true, marks), [], [])
    else Looped(Arrived(v, size, marks), rest, ending, marks)
  }

  /** `_read`, with or without a chunk waiting. */
  function Called(v: View, waiting: bool, size: nat, last: bool, rest: seq<nat>, ending: bool, marks: Marks): View {
    if waiting then Pulled(v, size, last, rest, ending, marks).v else v.(pend := true)
  }

  /** `read(n)` with a chunk of `size` bytes waiting. */
  function ReadQueued(v: View, n: Option<int>, size: nat, last: bool, rest: seq<nat>, ending: bool,
                      marks: Marks): State {
    var u, m := Looked(v, n), Much(v, n);
    if Pulls(u, m, marks) then
      var p := Pulled(Begun(u), size, last, rest, ending, marks);
      var c := p.v.(sync := false);
      p.(v := if Reading(c) then Returned(c, m) else Returned(Asked(c, n), Much(c, n)))
    else State(Returned(u, m), [size], rest)
  }

  lemma ReadEmptyCases(v: View, n: Option<int>, marks: Marks)
    ensures var u, m := Looked(v, n), Much(v, n);
            && (v.ended && m == 0 ==> ReadEmpty(v, n, marks) == Scheduled(u))
            && (!(v.ended && m == 0) && Pulls(u, m, marks) ==>
                  ReadEmpty(v, n, marks) == Returned(Begun(u).(pend := true, sync := false), m))
            && (!(v.ended && m == 0) && !Pulls(u, m, marks) ==> ReadEmpty(v, n, marks) == Returned(u, m))
  {
  }

  lemma ReadQueuedCases(v: View, n: Option<int>, size: nat, last: bool, rest: seq<nat>, ending: bool, marks: Marks)
    ensures var u, m, r := Looked(v, n), Much(v, n), ReadQueued(v, n, size, last, rest, ending, marks).v;
            var c := Pulled(Begun(u), size, last, rest, ending, marks).v.(sync := false);
            && (!Pulls(u, m, marks) ==> r == Returned(u, m))
            && (Pulls(u, m, marks) && Reading(c) ==> r == Returned(c, m))
            && (Pulls(u, m, marks) && !Reading(c) ==> r == Returned(Asked(c, n), Much(c, n)))
  {
  }

  /** Whether a `_read` was pending does not matter to a chunk that goes through. */
  lemma AnyPend(v: View, pend: bool, size: nat, last: bool, rest: seq<nat>, ending: bool, marks: Marks)
    ensures Arrived(v.(pend := pend), size, marks) == Arrived(v, size, marks)
    ensures Pulled(v.(pend := pend), size, last, rest, ending, marks) == Pulled(v, size, last, rest, ending, marks)
  {
    hide Looped;
    hide Stopped;
    hide Announced;
  }

  lemma PulledAlone(v: View, size: nat, last: bool, ending: bool, marks: Marks)
    ensures Pulled(v, size, last, [], ending, marks).v == Through(v, size, last, marks)
  {
    LoopedNone(Arrived(v, size, marks), ending, marks);
  }

  lemma ToldCases(w: View, marks: Marks)
    ensures w.len <= marks.low ==> Told(w, marks) == w.(pend := true)
    ensures w.len > marks.low && w.need && !w.sync ==> Told(w, marks) == Announced(w.(need := false), marks)
    ensures w.len > marks.low && !(w.need && !w.sync) ==> Told(w, marks) == w
  {
  }

  /** The bytes leave first, and then more is asked for if none came or none are left. */
  lemma ReturnedCases(v: View, m: int, w: View)
    requires v.len == v.held >= 0 && (m <= v.len || v.len == 0)
    requires w == if m > 0 && v.len > 0 then v.(len := v.len - m, held := v.len - m) else v
    ensures m <= 0 || v.len == 0 || (w.len == 0 && !w.ended) ==> Returned(v, m) == w.(need := true)
    ensures m > 0 && v.len > 0 && (w.len > 0 || w.ended) ==> Returned(v, m) == w
  {
  }

  lemma StoppedCases(v: View, marks: Marks)
    ensures var w := v.(ended := true);
            && (v.pend && v.sync ==> Stopped(v, marks) == w)
            && (v.pend && !v.sync && v.len > 0 ==> Stopped(v, marks) == Announced(w.(need := false), marks))
            && (v.pend && !v.sync && v.len <= 0 ==> Stopped(v, marks) == Scheduled(w))
            && (!v.pend && v.len > 0 && v.need ==> Stopped(v, marks) == Listened(w, marks))
            && (!v.pend && v.len == 0 ==> Stopped(v, marks) == w.(atDone := true))
            && (!v.pend && v.len > 0 && !v.need ==> Stopped(v, marks) == w)
  {
  }

  lemma HeardFirst(v: View, calls: seq<Option<int>>, marks: Marks)
    ensures calls == [] ==> Heard(v, calls, marks) == v
    ensures calls != [] ==> Heard(v, calls, marks) == Heard(ReadEmpty(v, calls[0], marks), calls[1..], marks)
  {
  }

  /** `_write` with a reader waiting: the chunk goes through, and another `_read` may be started. */
  lemma WrittenToReader(v: View, size: nat, last: bool, ending: bool, marks: Marks)
    requires v.pend
    ensures var a := Pulled(v.(pend := false), size, last, [], ending, marks).v;
            Written(v, size, last, marks)
            == (if (a.need || a.len <= marks.high) && !Reading(a) then ReadEmpty(a, Some(0), marks) else a, false)
  {
    hide ReadEmpty;
    hide Pulled;
    AnyPend(v, false, size, last, [], ending, marks);
    PulledAlone(v, size, last, ending, marks);
  }

  lemma LoopedNone(v: View, ending: bool, marks: Marks)
    ensures Looped(v, [], ending, marks) == State(v, [], [])
  {
  }

  lemma LoopedFirst(v: View, sizes: seq<nat>, ending: bool, marks: Marks)
    requires sizes != []
    ensures var (a, stays) := Written(v, sizes[0], ending && |sizes| == 1, marks);
            Looped(v, sizes, ending, marks)
            == if stays then State(a, [sizes[0]], sizes[1..]) else Looped(a, sizes[1..], ending, marks)
  {
  }

  /** `_write` without a reader waiting is `read(0)` with the chunk in the transform queue. */
  lemma WrittenByRead(v: View, size: nat, last: bool, ending: bool, marks: Marks)
    requires !v.pend && !v.ended && v.len >= 0
    ensures Written(v, size, last, marks)
         == if v.need || v.len <= marks.high then (ReadQueued(v, Some(0), size, last, [], ending, marks).v, false) else (v, true)
  {
    hide Pulled;
    hide Through;
    PulledAlone(Begun(v), size, last, ending, marks);
    assert Looked(v, Some(0)) == v;
  }

  // ---------- what a user calls, before `end` ----------

  function UserRead(s: State, n: Option<int>, marks: Marks): State {
    if s.t == [] then s.(v := ReadEmpty(s.v, n, marks))
    else ReadQueued(s.v, n, s.t[0], false, s.w, false, marks)
  }

  /** The same on the sizes alone, also after `end`. */
  function UserReadNow(v: View, n: Option<int>, waiting: bool, size: nat, rest: seq<nat>, ending: bool,
                       marks: Marks): View {
    if waiting then ReadQueued(v, n, size, ending && rest == [], rest, ending, marks).v else ReadEmpty(v, n, marks)
  }

  function UserWrite(s: State, size: nat, marks: Marks): State {
    if s.t != [] then s.(w := s.w + [size])
    else
      var (a, stays) := Written(s.v, size, false, marks);
      State(a, if stays then [size] else [], [])
  }

  function New(script: seq<seq<Option<int>>>): State {
    State(View(0, 0, false, false, false, false, false, false, false, false, script), [], [])
  }

  // ---------- when 'end' comes before the data ----------

  function Sum(sizes: seq<nat>): nat {
    if sizes == [] then 0 else sizes[0] + Sum(sizes[1..])
  }

  ghost predicate Sizes(sizes: seq<nat>) {
    forall i :: 0 <= i < |sizes| ==> sizes[i] > 0
  }

  /** No 'end' so far. */
  ghost predicate Open(v: View) {
    !v.ended && !v.emitted && !v.early && !v.atDone && v.len >= 0
  }

  /** The same with listeners that do not read. */
  ghost predicate Silent(v: View) {
    Open(v) && v.script == []
  }

  lemma ThroughToReader(v: View, size: nat, marks: Marks)
    requires Silent(v) && !v.sync && v.pend && size > 0
    ensures var a := Through(v, size, true, marks);
            a.ended && a.len == v.len + size && !a.need && !a.emitted && !a.early && !a.atDone
  {
    ToldCases(v.(pend := false, len := v.len + size, held := v.held + size), marks);
    StoppedCases(Arrived(v, size, marks), marks);
    hide Told;
    hide Stopped;
  }

  lemma ThroughAlone(v: View, size: nat, marks: Marks)
    requires Silent(v) && v.sync && !v.pend && size > 0
    ensures var a := Through(v, size, true, marks); !a.early && !a.atDone
  {
    ToldCases(v.(pend := false, len := v.len + size, held := v.held + size), marks);
    StoppedCases(Arrived(v, size, marks), marks);
    hide Told;
    hide Stopped;
  }

  /** A chunk that `end` brings: 'end' is scheduled before it is read exactly if a reader waits and the mark is not passed. */
  lemma EarlyByEnd(v: View, size: nat, marks: Marks)
    requires Silent(v) && !v.sync && size > 0
    ensures var w := Written(v, size, true, marks).0;
            (w.early <==> v.pend && v.len + size <= marks.high) && !w.atDone && (v.pend ==> w.len == v.len + size)
  {
    hide Through;
    hide Returned;
    if v.pend {
      ThroughToReader(v, size, marks);
    } else {
      ThroughAlone(Begun(v), size, marks);
      ReturnedKeeps(Through(Begun(v), size, true, marks).(sync := false), 0);
    }
  }

  /** No chunk: `done` emits 'end' exactly if no reader waits and nothing is buffered. */
  lemma AtDoneByEnd(v: View, marks: Marks)
    requires Silent(v)
    ensures var w := Stopped(v, marks); (w.atDone <==> !v.pend && v.len == 0) && !w.early
  {
  }

  /** Chunks that `_write` pulls in by its own `read(0)` do not bring 'end' forward. */
  lemma {:induction false} EarlyWhenDirect(v: View, rest: seq<nat>, ending: bool, marks: Marks)
    requires Silent(v) && !v.pend && v.len > marks.low && Sizes(rest)
    ensures var w := Looped(v, rest, ending, marks).v; !w.early && !w.atDone
    decreases |rest|
  {
    if rest != [] {
      var (a, stays) := Written(v, rest[0], ending && |rest| == 1, marks);
      if !stays && |rest| > 1 {
        EarlyWhenDirect(a, rest[1..], ending, marks);
      } else if !stays {
        assert rest[1..] == [];
      }
    }
  }

  /** Chunks that are announced bring 'end' forward exactly if all of them fit under the mark. */
  lemma {:induction false} EarlyWhenTold(v: View, rest: seq<nat>, ending: bool, marks: Marks)
    requires Silent(v) && v.pend && !v.sync && v.need && v.len > marks.low && rest != [] && Sizes(rest)
    ensures var w := Looped(v, rest, ending, marks).v;
            (w.early <==> ending && v.len + Sum(rest) <= marks.high) && !w.atDone
    decreases |rest|
  {
    var (a, stays) := Written(v, rest[0], ending && |rest| == 1, marks);
    if |rest| == 1 {
      assert rest[1..] == [];
    } else if v.len + rest[0] <= marks.high {
      EarlyWhenTold(a, rest[1..], ending, marks);
    } else {
      assert Looped(a, rest[1..], ending, marks).v == a;
    }
  }

  /** One chunk that arrives below the low mark, while `sync` is set. */
  lemma BelowStep(v: View, size: nat, last: bool, marks: Marks)
    requires Silent(v) && v.pend && v.sync && v.len <= marks.low && size > 0
    ensures !Written(v, size, last, marks).1
    ensures var a, len := Written(v, size, last, marks).0, v.len + size;
            && (last ==> (a.early <==> v.need || len <= marks.high) && !a.atDone)
            && (!last ==> Silent(a) && a.len == len)
            && (!last && len <= marks.low ==> a.pend && a.sync && a.need == v.need)
            && (!last && len > marks.low && (v.need || len <= marks.high) ==> a.pend && !a.sync && a.need)
            && (!last && len > marks.low && !(v.need || len <= marks.high) ==> !a.pend && !a.need)
  {
  }

  /** Chunks that arrive below the low mark, one `_read` after another. */
  lemma {:induction false} EarlyWhenBelow(v: View, rest: seq<nat>, ending: bool, marks: Marks)
    requires Silent(v) && v.pend && v.sync && v.len <= marks.low && rest != [] && Sizes(rest)
    ensures var w := Looped(v, rest, ending, marks).v;
            var total := v.len + Sum(rest);
            && (w.early <==> ending && (total <= marks.high || (v.need && total - rest[|rest| - 1] <= marks.low)))
            && !w.atDone
    decreases |rest|
  {
    var last := ending && |rest| == 1;
    BelowStep(v, rest[0], last, marks);
    var a := Written(v, rest[0], last, marks).0;
    LoopedFirst(v, rest, ending, marks);
    if |rest| == 1 {
      assert rest[1..] == [];
    } else {
      hide Looped;
      SumLast(rest);
      if v.len + rest[0] <= marks.low {
        EarlyWhenBelow(a, rest[1..], ending, marks);
      } else if v.need || v.len + rest[0] <= marks.high {
        EarlyWhenTold(a, rest[1..], ending, marks);
      } else {
        LoopedFirst(a, rest[1..], ending, marks);
      }
    }
  }

  lemma SumLast(rest: seq<nat>)
    requires |rest| > 1
    ensures Sum(rest) >= rest[0] + rest[|rest| - 1] && rest[1..][|rest| - 2] == rest[|rest| - 1]
  {
    SumMember(rest[1..], |rest| - 2);
  }

  lemma {:induction false} SumMember(rest: seq<nat>, i: nat)
    requires i < |rest|
    ensures rest[i] <= Sum(rest)
    decreases |rest|
  {
    if i > 0 {
      SumMember(rest[1..], i - 1);
    }
  }

  /** What `read(n)` needs to bring 'end' forward. */
  predicate EarlyRead(v: View, n: Option<int>, size: nat, rest: seq<nat>, ending: bool, marks: Marks) {
    var u := Looked(v, n);
    var total := v.len + size + Sum(rest);
    && Pulls(u, Much(v, n), marks) && ending && rest != [] && v.len + size <= marks.low
    && (total <= marks.high || (Begun(u).need && total - rest[|rest| - 1] <= marks.low))
  }

  /**
   * A read that pulls the last chunk in schedules 'end' early exactly if chunks were queued behind the one waiting,
   * the first stays below the low mark, and all of them stay under the high mark or, with a reader to be told, all but
   * the last below the low mark.
   */
  lemma EarlyByRead(v: View, n: Option<int>, size: nat, rest: seq<nat>, ending: bool, marks: Marks)
    requires Silent(v) && !v.pend && size > 0 && Sizes(rest)
    ensures var w := ReadQueued(v, n, size, ending && rest == [], rest, ending, marks).v;
            (w.early <==> EarlyRead(v, n, size, rest, ending, marks)) && !w.atDone
  {
    hide Pulled;
    hide Returned;
    var u, last := Looked(v, n), ending && rest == [];
    if Pulls(u, Much(v, n), marks) {
      EarlyByPull(Begun(u), size, rest, ending, marks);
      var c := Pulled(Begun(u), size, last, rest, ending, marks).v.(sync := false);
      ReturnedKeeps(c, Much(v, n));
      ReturnedKeeps(Asked(c, n), Much(c, n));
    } else {
      ReturnedKeeps(u, Much(v, n));
    }
  }

  lemma ReturnedKeeps(v: View, m: int)
    ensures Returned(v, m).early == v.early && Returned(v, m).atDone == v.atDone
  {
    PluckedKeeps(v, m);
    hide Plucked;
  }

  lemma PluckedKeeps(v: View, m: int)
    ensures Plucked(v, m).early == v.early && Plucked(v, m).atDone == v.atDone
  {
  }

  lemma EarlyByPull(v: View, size: nat, rest: seq<nat>, ending: bool, marks: Marks)
    requires Silent(v) && !v.pend && v.sync && size > 0 && Sizes(rest)
    ensures var w := Pulled(v, size, ending && rest == [], rest, ending, marks).v;
            var total := v.len + size + Sum(rest);
            && (w.early <==> ending && rest != [] && v.len + size <= marks.low
                             && (total <= marks.high || (v.need && total - rest[|rest| - 1] <= marks.low)))
            && !w.atDone
  {
    hide Looped;
    var a := Arrived(v, size, marks);
    if rest == [] {
      LoopedNone(a, ending, marks);
    } else if v.len + size <= marks.low {
      EarlyWhenBelow(a, rest, ending, marks);
    } else {
      EarlyWhenDirect(a, rest, ending, marks);
    }
  }

  // ---------- a read whose count goes stale ----------

  /** A state without an 'end', with `len` bytes buffered. */
  function At(len: int, need: bool, told: bool, pend: bool, sync: bool, script: seq<seq<Option<int>>>): View {
    View(len, len, need, told, pend, sync, false, false, false, false, script)
  }

  /** A reader waits, and ignores the first announcement; more chunks than it wants are written. */
  lemma Backlog(marks: Marks, big: nat, script: seq<seq<Option<int>>>)
    requires marks.low <= marks.high < big
    ensures var s0 := UserRead(New([[]] + script), None, marks);
            UserWrite(UserWrite(s0, big, marks), 1, marks) == State(At(big, false, true, false, false, script), [1], [])
  {
    assert ([[]] + script)[1..] == script;
    var v := At(0, true, false, true, false, [[]] + script);
    assert UserRead(New([[]] + script), None, marks) == State(v, [], []);
    assert Arrived(v, big, marks) == At(big, false, true, false, false, script);
  }

  function AllWritten(s: State, sizes: seq<nat>, marks: Marks): State
    decreases |sizes|
  {
    if sizes == [] then s else AllWritten(UserWrite(s, sizes[0], marks), sizes[1..], marks)
  }

  lemma {:induction false} Queue(s: State, sizes: seq<nat>, marks: Marks)
    requires s.t != []
    ensures AllWritten(s, sizes, marks) == State(s.v, s.t, s.w + sizes)
    decreases |sizes|
  {
    if sizes == [] {
      assert s.w + [] == s.w;
    } else {
      Queue(UserWrite(s, sizes[0], marks), sizes[1..], marks);
      assert s.w + [sizes[0]] + sizes[1..] == s.w + sizes;
    }
  }

  /** Reading most of it leaves two bytes buffered and a chunk waiting. */
  lemma TwoLeft(marks: Marks, big: nat, rest: seq<nat>, script: seq<seq<Option<int>>>)
    requires 1 <= marks.low <= marks.high < big
    ensures UserRead(State(At(big, false, true, false, false, script), [1], [1] + rest), Some(big - 1), marks)
         == State(At(2, false, false, false, false, script), [1], rest)
  {
    var v := At(big + 1, false, false, false, true, script);
    assert ([1] + rest)[1..] == rest;
    assert Looped(v, [1] + rest, false, marks) == State(v, [1], rest);
  }

  /** Below the low mark `_read` is called again, and finds the next chunk; `sync` is lost on the way. */
  lemma SyncLost(marks: Marks, rest: seq<nat>, script: seq<seq<Option<int>>>)
    requires 3 <= marks.low < marks.high
    ensures Pulled(Begun(At(2, false, false, false, false, script)), 1, false, [marks.low - 2] + rest, false, marks)
         == Looped(At(marks.low + 1, true, false, true, false, script), rest, false, marks)
  {
    var low := marks.low;
    var v := At(3, false, false, true, true, script);
    assert ([low - 2] + rest)[1..] == rest;
    assert Through(v, low - 2, false, marks) == At(low + 1, false, false, false, true, script);
    assert Written(v, low - 2, false, marks) == (At(low + 1, true, false, true, false, script), false);
  }

  /** A reader waits; a big chunk and small ones are written; most is read, and then two bytes more. */
  function Run(script: seq<seq<Option<int>>>, sizes: seq<nat>, marks: Marks): State
    requires marks.high >= 0 && marks.low >= 2
  {
    var s0 := UserRead(New([[]] + script), None, marks);
    var s1 := AllWritten(UserWrite(UserWrite(s0, marks.high + 1, marks), 1, marks), [1, marks.low - 2] + sizes, marks);
    UserRead(UserRead(s1, Some(marks.high), marks), Some(2), marks)
  }

  lemma RunTo(script: seq<seq<Option<int>>>, sizes: seq<nat>, marks: Marks)
    requires 3 <= marks.low < marks.high
    ensures Run(script, sizes, marks)
         == UserRead(State(At(2, false, false, false, false, script), [1], [marks.low - 2] + sizes), Some(2), marks)
  {
    hide UserRead;
    hide UserWrite;
    hide AllWritten;
    hide At;
    var big, rest := marks.high + 1, [marks.low - 2] + sizes;
    Backlog(marks, big, script);
    Queue(State(At(big, false, true, false, false, script), [1], []), [1, marks.low - 2] + sizes, marks);
    assert [] + ([1, marks.low - 2] + sizes) == [1] + rest;
    TwoLeft(marks, big, rest, script);
  }

  /**
   * Listeners that read some bytes when they are told, and a `lowWaterMark` of 3 or more: in the middle of `read(2)` the
   * listener takes all but one byte, and `length` becomes negative.
   */
  lemma StaleCount(marks: Marks)
    requires 3 <= marks.low < marks.high
    ensures var s := Run([[Some(marks.low + 1)]], [1], marks); s.v.len == -1 && s.v.held == 0
  {
    hide UserRead;
    hide Looped;
    hide Pulled;
    hide Run;
    var script := [[Some(marks.low + 1)]];
    RunTo(script, [1], marks);
    SyncLost(marks, [1], script);
    TakesAllButOne(marks);
    StaleRead(At(2, false, false, false, false, script), [marks.low - 2] + [1], At(1, false, false, true, false, []), marks);
  }

  lemma TakesAllButOne(marks: Marks)
    requires 3 <= marks.low < marks.high
    ensures Looped(At(marks.low + 1, true, false, true, false, [[Some(marks.low + 1)]]), [1], false, marks)
         == State(At(1, false, false, true, false, []), [], [])
  {
    var low := marks.low;
    var v := At(low + 1, true, false, true, false, [[Some(low + 1)]]);
    var w := At(low + 2, false, true, false, false, []);
    assert [[Some(low + 1)]][1..] == [];
    assert Heard(w, [Some(low + 1)], marks) == Heard(ReadEmpty(w, Some(low + 1), marks), [], marks);
    assert Through(v, 1, false, marks) == At(1, false, false, true, false, []);
    assert [1][1..] == [];
  }

  /** The outer `read(2)` goes on with its old count, because a `_read` is pending again. */
  lemma StaleRead(v: View, rest: seq<nat>, p: View, marks: Marks)
    requires v.len == 2 && !v.ended && !v.pend && !v.told && marks.high >= 0
    requires Pulled(Begun(v), 1, false, rest, false, marks).v == p && p.pend && !p.ended && p.len == p.held == 1
    ensures var s := UserRead(State(v, [1], rest), Some(2), marks); s.v.len == -1 && s.v.held == 0
  {
    hide Pulled;
    assert Looked(v, Some(2)) == v;
  }

  /**
   * Listeners that only ever read everything are no better: after one has emptied the buffer, a small chunk that is not
   * announced leaves one byte.
   */
  lemma StaleCountReadingAll(marks: Marks)
    requires 3 <= marks.low < marks.high
    ensures var s := Run([[None]], [1, 1], marks); s.v.len == -1 && s.v.held == 0
  {
    hide UserRead;
    hide Looped;
    hide Pulled;
    hide Run;
    var script: seq<seq<Option<int>>> := [[None]];
    RunTo(script, [1, 1], marks);
    SyncLost(marks, [1, 1], script);
    TakesAll(marks);
    StaleRead(At(2, false, false, false, false, script), [marks.low - 2] + [1, 1], At(1, true, false, true, false, []), marks);
  }

  lemma TakesAll(marks: Marks)
    requires 3 <= marks.low < marks.high
    ensures Looped(At(marks.low + 1, true, false, true, false, [[None]]), [1, 1], false, marks).v
         == At(1, true, false, true, false, [])
  {
    var low := marks.low;
    var v := At(low + 1, true, false, true, false, [[None]]);
    var w := At(low + 2, false, true, false, false, []);
    var script: seq<seq<Option<int>>> := [[None]];
    assert script[1..] == [];
    assert Heard(w, [None], marks) == Heard(ReadEmpty(w, None, marks), [], marks);
    assert Through(v, 1, false, marks) == At(0, true, false, true, false, []);
    assert [1, 1][1..] == [1] && [1][1..] == [];
    assert Through(At(0, true, false, true, false, []), 1, false, marks) == At(1, true, false, true, false, []);
  }

  // ---------- the same with a high mark below the low one ----------

  /** As many bytes as are left unread without `_read` being called, and at least two. */
  function Left(marks: Marks): nat {
    if marks.high + 1 > 2 then marks.high + 1 else 2
  }

  /**
   * A reader waits; a big chunk and small ones are written; some of it is read, `read(0)` asks to be told, and the rest is
   * read. The listener leaves one byte and asks for more.
   */
  function LowRun(marks: Marks): State
    requires 3 <= marks.low && marks.high < marks.low - 1
  {
    var x, big := Left(marks), marks.low + 1;
    var s0 := UserRead(UserRead(New([[], [Some(big), Some(0), Some(0)]]), None, marks), None, marks);
    var s1 := AllWritten(UserWrite(UserWrite(s0, big, marks), 1, marks), [marks.low - x, 1], marks);
    UserRead(UserRead(UserRead(s1, Some(big - x), marks), Some(0), marks), Some(x), marks)
  }

  lemma LowBacklog(marks: Marks, script: seq<seq<Option<int>>>)
    requires 3 <= marks.low && marks.high < marks.low - 1
    ensures var s0 := UserRead(UserRead(New([[]] + script), None, marks), None, marks);
            UserWrite(UserWrite(s0, marks.low + 1, marks), 1, marks)
            == State(At(marks.low + 1, false, true, false, false, script), [1], [])
  {
    assert ([[]] + script)[1..] == script;
    var v := At(0, true, false, true, false, [[]] + script);
    assert UserRead(UserRead(New([[]] + script), None, marks), None, marks) == State(v, [], []);
    assert Arrived(v, marks.low + 1, marks) == At(marks.low + 1, false, true, false, false, script);
  }

  lemma LeftAsking(marks: Marks, rest: seq<nat>, script: seq<seq<Option<int>>>)
    requires 3 <= marks.low && marks.high < marks.low - 1
    ensures var x, s := Left(marks), State(At(marks.low + 1, false, true, false, false, script), [1], rest);
            UserRead(UserRead(s, Some(marks.low + 1 - x), marks), Some(0), marks)
            == State(At(x, true, false, false, false, script), [1], rest)
  {
    var x, s := Left(marks), State(At(marks.low + 1, false, true, false, false, script), [1], rest);
    assert UserRead(s, Some(marks.low + 1 - x), marks) == State(At(x, false, false, false, false, script), [1], rest);
  }

  lemma LowSyncLost(marks: Marks, script: seq<seq<Option<int>>>)
    requires 3 <= marks.low && marks.high < marks.low - 1
    ensures var x := Left(marks);
            Pulled(Begun(At(x, true, false, false, false, script)), 1, false, [marks.low - x, 1], false, marks)
            == Looped(At(marks.low + 1, true, false, true, false, script), [1], false, marks)
  {
    var x := Left(marks);
    var v := At(x + 1, true, false, true, true, script);
    assert [marks.low - x, 1][1..] == [1];
    assert Through(v, marks.low - x, false, marks) == At(marks.low + 1, true, false, false, true, script);
    assert Written(v, marks.low - x, false, marks) == (At(marks.low + 1, true, false, true, false, script), false);
  }

  lemma LowListener(marks: Marks)
    requires 3 <= marks.low && marks.high < marks.low - 1
    ensures var big := marks.low + 1;
            Heard(At(marks.low + 2, false, true, false, false, []), [Some(big), Some(0), Some(0)], marks)
            == At(1, true, false, true, false, [])
  {
    var big := marks.low + 1;
    var calls := [Some(big), Some(0), Some(0)];
    var w := At(marks.low + 2, false, true, false, false, []);
    var w1 := ReadEmpty(w, Some(big), marks);
    assert w1 == At(1, false, false, marks.high >= 1, false, []);
    var w2 := ReadEmpty(w1, Some(0), marks);
    assert w2 == At(1, true, false, marks.high >= 1, false, []);
    assert calls[1..] == [Some(0), Some(0)] && calls[1..][1..] == [Some(0)] && [Some(0)][1..] == [];
    assert Heard(w, calls, marks) == Heard(w2, [Some(0)], marks);
    assert ReadEmpty(w2, Some(0), marks) == At(1, true, false, true, false, []);
  }

  lemma LowTold(marks: Marks)
    requires 3 <= marks.low && marks.high < marks.low - 1
    ensures Looped(At(marks.low + 1, true, false, true, false, [[Some(marks.low + 1), Some(0), Some(0)]]), [1], false, marks).v
         == At(1, true, false, true, false, [])
  {
    hide Heard;
    var script := [[Some(marks.low + 1), Some(0), Some(0)]];
    var v := At(marks.low + 1, true, false, true, false, script);
    assert script[1..] == [];
    LowListener(marks);
    assert Through(v, 1, false, marks) == At(1, true, false, true, false, []);
    assert [1][1..] == [];
  }

  /** Also with a high mark below the low one by more than one, `length` becomes negative. */
  lemma StaleCountLow(marks: Marks)
    requires 3 <= marks.low && marks.high < marks.low - 1
    ensures var s := LowRun(marks); s.v.len < 0 && s.v.held == 0
  {
    hide UserRead;
    hide UserWrite;
    hide AllWritten;
    hide Looped;
    hide Pulled;
    var x, big := Left(marks), marks.low + 1;
    var script := [[Some(big), Some(0), Some(0)]];
    assert [[], [Some(big), Some(0), Some(0)]] == [[]] + script;
    LowBacklog(marks, script);
    Queue(State(At(big, false, true, false, false, script), [1], []), [marks.low - x, 1], marks);
    assert [] + [marks.low - x, 1] == [marks.low - x, 1];
    LeftAsking(marks, [marks.low - x, 1], script);
    LowSyncLost(marks, script);
    LowTold(marks);
    LowStaleRead(At(x, true, false, false, false, script), [marks.low - x, 1], At(1, true, false, true, false, []), marks);
  }

  lemma LowStaleRead(v: View, rest: seq<nat>, p: View, marks: Marks)
    requires v.len >= 2 && v.need && !v.ended && !v.pend && !v.told
    requires Pulled(Begun(v), 1, false, rest, false, marks).v == p && p.pend && !p.ended && p.len == p.held == 1
    ensures var s := UserRead(State(v, [1], rest), Some(v.len), marks); s.v.len < 0 && s.v.held == 0
  {
    hide Pulled;
    assert Looked(v, Some(v.len)) == v;
  }

  /** The marks with which module PassThrough proves all listeners safe. */
  predicate Safe(marks: Marks) {
    marks.low <= 2 || marks.low - 1 <= marks.high <= marks.low
  }

  /** With all other marks there is a run in which the length goes wrong. */
  lemma UnsafeMarks(marks: Marks)
    requires !Safe(marks)
    ensures var s := if marks.high > marks.low then Run([[Some(marks.low + 1)]], [1], marks) else LowRun(marks);
            s.v.len < 0 && s.v.held == 0
  {
    hide Run;
    hide LowRun;
    if marks.high > marks.low {
      StaleCount(marks);
    } else {
      StaleCountLow(marks);
    }
  }
}
