/** PassThrough with listeners that read: when 'end' is scheduled before the data, and when `done` emits it. */
module PassThroughEnds {
  import opened Common
  import Readable
  import opened PassThroughView

  // ---------- `done` and 'end' ----------

  /** A `_read` is pending or there is data; `done` has not run. */
  ghost predicate Occupied(v: View) {
    !v.ended && v.len >= 0 && (v.pend || v.len > 0)
  }

  lemma ReturnedLeaves(v: View, m: int)
    ensures var w := Returned(v, m);
            && w.atDone == v.atDone && w.ended == v.ended && w.pend == v.pend && w.early == v.early && w.script == v.script
            && (m <= 0 ==> w.len == v.len)
            && (0 <= m <= v.len ==> v.len - m <= w.len <= v.len)
  {
    PluckedLeaves(v, m);
    hide Plucked;
  }

  lemma PluckedLeaves(v: View, m: int)
    ensures var w := Plucked(v, m);
            && w.atDone == v.atDone && w.ended == v.ended && w.pend == v.pend && w.early == v.early && w.script == v.script
            && (w.len == v.len || (m > 0 && w.len == v.len - m))
  {
  }

  /** With a high mark of at least zero, a `read` before the end leaves a `_read` pending or data behind. */
  lemma ReadLeaves(v: View, n: Option<int>, marks: Marks)
    requires v.len >= 0
    ensures var w := ReadEmpty(v, n, marks);
            && w.len >= 0 && w.ended == v.ended && w.atDone == v.atDone && w.script == v.script
            && (!v.ended ==> w.early == v.early) && (marks.high >= 0 && !v.ended ==> Occupied(w))
  {
    hide ReadEmpty;
    hide Returned;
    var u, m := Looked(v, n), Much(v, n);
    ReadEmptyCases(v, n, marks);
    ReturnedLeaves(u, m);
    ReturnedLeaves(Begun(u).(pend := true, sync := false), m);
  }

  lemma {:induction false} HeardLeaves(v: View, calls: seq<Option<int>>, marks: Marks)
    requires v.len >= 0
    ensures var w := Heard(v, calls, marks);
            && w.len >= 0 && w.ended == v.ended && w.atDone == v.atDone
            && (!v.ended ==> w.early == v.early) && (marks.high >= 0 && Occupied(v) ==> Occupied(w))
    decreases |calls|
  {
    if calls != [] {
      hide ReadEmpty;
      ReadLeaves(v, calls[0], marks);
      HeardLeaves(ReadEmpty(v, calls[0], marks), calls[1..], marks);
    }
  }

  lemma ToldLeaves(v: View, marks: Marks)
    requires v.len >= 0
    ensures var w := Listened(v, marks);
            && w.len >= 0 && w.ended == v.ended && w.atDone == v.atDone
            && (!v.ended ==> w.early == v.early) && (marks.high >= 0 && Occupied(v) ==> Occupied(w))
    ensures var w := Announced(v, marks);
            && w.len >= 0 && w.ended == v.ended && w.atDone == v.atDone
            && (!v.ended ==> w.early == v.early) && (marks.high >= 0 && Occupied(v) ==> Occupied(w))
  {
    hide Heard;
    if v.script != [] {
      HeardLeaves(v.(script := v.script[1..]), v.script[0], marks);
      HeardLeaves(v.(told := true, script := v.script[1..]), v.script[0], marks);
    }
  }

  lemma ArrivedLeaves(v: View, size: nat, marks: Marks)
    requires !v.ended && v.len >= 0 && size > 0
    ensures var w := Arrived(v, size, marks);
            w.len >= 0 && !w.ended && w.atDone == v.atDone && w.early == v.early && (marks.high >= 0 ==> Occupied(w))
  {
    hide Announced;
    ToldLeaves(v.(pend := false, len := v.len + size, held := v.held + size, need := false), marks);
  }

  /** `done` emits 'end' exactly if no `_read` is pending and nothing is buffered, whatever the listeners do. */
  lemma DoneEmits(v: View, marks: Marks)
    requires !v.ended && v.len >= 0
    ensures var w := Stopped(v, marks); w.ended && w.len >= 0 && (w.atDone <==> v.atDone || (!v.pend && v.len == 0))
  {
    hide Announced;
    hide Listened;
    var w := v.(ended := true);
    ToldLeaves(w, marks);
    ToldLeaves(w.(need := false), marks);
  }

  lemma ThroughLeaves(v: View, size: nat, last: bool, marks: Marks)
    requires !v.ended && v.len >= 0 && size > 0
    ensures var w := Through(v, size, last, marks);
            w.len >= 0 && w.ended == last && (marks.high >= 0 ==> w.atDone == v.atDone) && (!last ==> w.early == v.early)
  {
    hide Arrived;
    hide Stopped;
    ArrivedLeaves(v, size, marks);
    DoneEmits(Arrived(v, size, marks), marks);
  }

  lemma WrittenLeaves(v: View, size: nat, last: bool, marks: Marks)
    requires !v.ended && v.len >= 0 && size > 0
    ensures var (w, stays) := Written(v, size, last, marks);
            && w.len >= 0 && (!stays ==> w.ended == last) && (stays ==> w == v)
            && (marks.high >= 0 ==> w.atDone == v.atDone) && (!last ==> w.early == v.early)
  {
    hide Through;
    hide ReadEmpty;
    hide Returned;
    ThroughLeaves(v, size, last, marks);
    ThroughLeaves(Begun(v), size, last, marks);
    ReadLeaves(Through(v, size, last, marks), Some(0), marks);
    ReturnedLeaves(Through(Begun(v), size, last, marks).(sync := false), 0);
  }

  /** The loop over queued chunks: `done` emits no 'end', and without an end of input none is scheduled. */
  lemma {:induction false} LoopedLeaves(v: View, sizes: seq<nat>, ending: bool, marks: Marks)
    requires !v.ended && v.len >= 0 && Sizes(sizes)
    ensures var w := Looped(v, sizes, ending, marks).v;
            (marks.high >= 0 ==> w.atDone == v.atDone) && (!ending ==> w.early == v.early)
    decreases |sizes|
  {
    if sizes == [] {
      LoopedNone(v, ending, marks);
    } else {
      hide Looped;
      hide Written;
      var last := ending && |sizes| == 1;
      WrittenLeaves(v, sizes[0], last, marks);
      LoopedFirst(v, sizes, ending, marks);
      var (a, stays) := Written(v, sizes[0], last, marks);
      if !stays && |sizes| > 1 {
        LoopedLeaves(a, sizes[1..], ending, marks);
      } else {
        assert !stays ==> sizes[1..] == [];
        LoopedNone(a, ending, marks);
      }
    }
  }

  /** With a high mark of at least zero, `done` never emits 'end' when chunks come through, whatever the listeners do. */
  lemma NoEndByRead(v: View, n: Option<int>, size: nat, rest: seq<nat>, ending: bool, marks: Marks)
    requires marks.high >= 0 && Open(v) && size > 0 && Sizes(rest)
    ensures !ReadQueued(v, n, size, ending && rest == [], rest, ending, marks).v.atDone
  {
    hide Looped;
    hide Through;
    hide Arrived;
    hide Returned;
    var u, last := Looked(v, n), ending && rest == [];
    var b := Begun(u);
    ThroughLeaves(b, size, true, marks);
    ArrivedLeaves(b, size, marks);
    LoopedLeaves(Arrived(b, size, marks), rest, ending, marks);
    var c := Pulled(b, size, last, rest, ending, marks).v.(sync := false);
    ReturnedLeaves(c, Much(v, n));
    ReturnedLeaves(Asked(c, n), Much(c, n));
    ReturnedLeaves(u, Much(v, n));
  }

  lemma NoEndByChunk(v: View, size: nat, marks: Marks)
    requires marks.high >= 0 && Open(v) && size > 0
    ensures !Written(v, size, true, marks).0.atDone
  {
    WrittenLeaves(v, size, true, marks);
  }

  /**
   * With a negative high mark a listener that reads the last chunk makes `done` emit 'end' although `end` brought a chunk:
   * a reader waits, the chunk passes the low mark, and the listener takes all of it.
   */
  lemma EndByChunk(marks: Marks)
    requires marks.high < 0
    ensures var v := ReadEmpty(ReadEmpty(New([[None]]).v, None, marks), None, marks);
            v.pend && Written(v, marks.low + 1, true, marks).0.atDone
  {
    var script: seq<seq<Option<int>>> := [[None]];
    var v := At(0, true, false, true, false, script);
    assert script[1..] == [];
    assert ReadEmpty(ReadEmpty(New(script).v, None, marks), None, marks) == v;
    var w := At(marks.low + 1, false, true, false, false, []);
    assert Heard(w, [None], marks) == Heard(ReadEmpty(w, None, marks), [], marks);
    assert Arrived(v, marks.low + 1, marks) == At(0, true, false, false, false, []);
  }

  // ---------- 'end' before the data ----------

  /** Listeners that only call `read()` or `read(n)` with a positive `n`. */
  ghost predicate Plain(script: seq<seq<Option<int>>>) {
    forall i, j :: 0 <= i < |script| && 0 <= j < |script[i]| ==> PlainCall(script[i][j])
  }

  predicate PlainCall(n: Option<int>) {
    n.None? || n.value > 0
  }

  ghost predicate PlainCalls(calls: seq<Option<int>>) {
    forall j :: 0 <= j < |calls| ==> PlainCall(calls[j])
  }

  /** 'end' has not been scheduled with data buffered. */
  ghost predicate InTime(v: View) {
    !v.early && v.len >= 0 && Plain(v.script)
  }

  lemma ReadInTime(v: View, n: Option<int>, marks: Marks)
    requires InTime(v) && PlainCall(n)
    ensures InTime(ReadEmpty(v, n, marks)) && ReadEmpty(v, n, marks).script == v.script
  {
    hide Plain;
    hide ReadEmpty;
    hide Returned;
    var u, m := Looked(v, n), Much(v, n);
    ReadEmptyCases(v, n, marks);
    ReturnedLeaves(u, m);
    ReturnedLeaves(Begun(u).(pend := true, sync := false), m);
  }

  lemma {:induction false} HeardInTime(v: View, calls: seq<Option<int>>, marks: Marks)
    requires InTime(v) && PlainCalls(calls)
    ensures InTime(Heard(v, calls, marks))
    decreases |calls|
  {
    if calls != [] {
      hide ReadEmpty;
      ReadInTime(v, calls[0], marks);
      HeardInTime(ReadEmpty(v, calls[0], marks), calls[1..], marks);
    }
  }

  lemma ToldInTime(v: View, marks: Marks)
    requires InTime(v)
    ensures InTime(Listened(v, marks)) && InTime(Announced(v, marks))
  {
    hide Heard;
    if v.script != [] {
      HeardInTime(v.(script := v.script[1..]), v.script[0], marks);
      HeardInTime(v.(told := true, script := v.script[1..]), v.script[0], marks);
    }
  }

  lemma ThroughInTime(v: View, size: nat, last: bool, marks: Marks)
    requires InTime(v)
    ensures InTime(Through(v, size, last, marks))
  {
    hide Announced;
    hide Listened;
    hide Plain;
    var w := v.(pend := false, len := v.len + size, held := v.held + size);
    ToldInTime(w.(need := false), marks);
    StopInTime(Arrived(v, size, marks), marks);
  }

  lemma StopInTime(v: View, marks: Marks)
    requires InTime(v)
    ensures InTime(Stopped(v, marks))
  {
    hide Announced;
    hide Listened;
    hide Plain;
    ToldInTime(v.(ended := true), marks);
    ToldInTime(v.(ended := true, need := false), marks);
  }

  /** What `end(chunk)` needs to bring 'end' forward: a reader, and data that the listeners leave while there is room. */
  predicate EarlyEnd(v: View, size: nat, marks: Marks) {
    var a := Through(v, size, true, marks);
    v.pend && !a.emitted && a.len > 0 && (a.need || a.len <= marks.high)
  }

  lemma NeedsReader(v: View, size: nat, marks: Marks)
    ensures EarlyEnd(v, size, marks) ==> v.pend
  {
  }

  lemma NoneIsPlain()
    ensures Plain([])
  {
  }

  /** For listeners that only read something, `end(chunk)` brings 'end' forward exactly then. */
  lemma EarlyByEndPlain(v: View, size: nat, marks: Marks)
    requires Open(v) && Plain(v.script) && size > 0
    ensures Written(v, size, true, marks).0.early <==> EarlyEnd(v, size, marks)
  {
    hide Through;
    hide Plain;
    ThroughInTime(v, size, true, marks);
    ThroughInTime(Begun(v), size, true, marks);
    ThroughLeaves(v, size, true, marks);
    ReturnedKeeps(Through(Begun(v), size, true, marks).(sync := false), 0);
  }

  /** Past the low mark, chunks that `_write` pulls in do not bring 'end' forward. */
  lemma {:induction false} DirectInTime(v: View, rest: seq<nat>, ending: bool, marks: Marks)
    requires Open(v) && Plain(v.script) && !v.pend && v.len > marks.low && Sizes(rest)
    ensures !Looped(v, rest, ending, marks).v.early
    decreases |rest|
  {
    if rest == [] {
      LoopedNone(v, ending, marks);
    } else {
      hide Looped;
      hide Plain;
      var last := ending && |rest| == 1;
      LoopedFirst(v, rest, ending, marks);
      DirectStep(v, rest[0], last, marks);
      var (a, stays) := Written(v, rest[0], last, marks);
      if !stays && |rest| > 1 {
        DirectInTime(a, rest[1..], ending, marks);
      } else {
        assert !stays ==> rest[1..] == [];
        LoopedNone(a, ending, marks);
      }
    }
  }

  lemma DirectStep(v: View, size: nat, last: bool, marks: Marks)
    requires Open(v) && Plain(v.script) && !v.pend && v.len > marks.low && size > 0
    ensures var (a, stays) := Written(v, size, last, marks);
            !a.early && (!stays && !last ==> Open(a) && a.script == v.script && !a.pend && a.len > marks.low)
  {
    hide Plain;
    hide Stopped;
    hide Announced;
    StopInTime(Arrived(Begun(v), size, marks), marks);
    ReturnedKeeps(Through(Begun(v), size, last, marks).(sync := false), 0);
  }

  /** What a `read` needs to bring 'end' forward: chunks queued behind one that stays below the low mark. */
  predicate MayBeEarly(v: View, size: nat, rest: seq<nat>, ending: bool, marks: Marks) {
    ending && rest != [] && v.len + size <= marks.low
  }

  /** For listeners that only read something, a `read` brings 'end' forward only then: never with a low mark of zero. */
  lemma EarlyByReadPlain(v: View, n: Option<int>, size: nat, rest: seq<nat>, ending: bool, marks: Marks)
    requires Open(v) && Plain(v.script) && !v.pend && size > 0 && Sizes(rest)
    ensures ReadQueued(v, n, size, ending && rest == [], rest, ending, marks).v.early ==>
              MayBeEarly(v, size, rest, ending, marks)
  {
    hide Looped;
    hide Through;
    hide Arrived;
    hide Returned;
    hide Plain;
    var u, last := Looked(v, n), ending && rest == [];
    var b := Begun(u);
    if !MayBeEarly(v, size, rest, ending, marks) {
      EarlyByPullPlain(b, size, rest, ending, marks);
      var c := Pulled(b, size, last, rest, ending, marks).v.(sync := false);
      ReturnedLeaves(c, Much(v, n));
      ReturnedLeaves(Asked(c, n), Much(c, n));
      ReturnedLeaves(u, Much(v, n));
    }
  }

  lemma EarlyByPullPlain(v: View, size: nat, rest: seq<nat>, ending: bool, marks: Marks)
    requires Open(v) && Plain(v.script) && !v.pend && v.sync && size > 0 && Sizes(rest)
    requires !MayBeEarly(v, size, rest, ending, marks)
    ensures !Pulled(v, size, ending && rest == [], rest, ending, marks).v.early
  {
    hide Looped;
    hide Plain;
    hide Announced;
    hide Stopped;
    var a := Arrived(v, size, marks);
    StopInTime(a, marks);
    ArrivedLeaves(v, size, marks);
    LoopedLeaves(a, rest, ending, marks);
    LoopedNone(a, ending, marks);
    if v.len + size > marks.low {
      DirectInTime(a, rest, ending, marks);
    }
  }
}
