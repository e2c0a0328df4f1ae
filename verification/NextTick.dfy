/** process.nextTick: the re-entrant batch scheduler of src/node.js and the wake-up flag of src/node.cc. */
module NextTick {

  type Callback = nat

  class Scheduler {
    const maxTickDepth: int
    var queue: seq<Callback>
    var index: nat
    var inTick: bool
    var tickDepth: nat
    var exiting: bool
    /** `need_tick_cb` in src/node.cc: the spinner will call `_tickCallback`. */
    var needTick: bool

    /** Callbacks accepted by `nextTick`, and callbacks started, in order. */
    ghost var submitted: seq<Callback>
    ghost var started: seq<Callback>
    /** How many batches have been begun, and how many callbacks have thrown. */
    ghost var turns: nat
    ghost var thrown: nat
    /** How often `_tickCallback` has been called, and how often the spinner has lifted the depth limit. */
    ghost var ticks: nat
    ghost var lifted: nat

    ghost predicate Valid()
      reads this
    {
      && index <= |queue| && (!inTick ==> index == 0) && (inTick ==> queue != [])
      // each callback is started at most once, and in the order of submission
      && submitted == started + queue[index..]
      && (maxTickDepth >= 1 ==> tickDepth <= maxTickDepth)
    }

    /** Nothing is on the stack: callbacks that are waiting will be called for. */
    ghost predicate Resting()
      reads this
    {
      Valid() && !inTick && (queue != [] ==> needTick)
    }

    constructor (maxTickDepth: int)
      ensures Resting() && submitted == started == queue == [] && this.maxTickDepth == maxTickDepth
      ensures !needTick && !exiting && tickDepth == turns == thrown == ticks == lifted == 0
    {
      this.maxTickDepth := maxTickDepth;
      queue, index, inTick, tickDepth, exiting, needTick := [], 0, false, 0, false, false;
      submitted, started, turns, thrown, ticks, lifted := [], [], 0, 0, 0, 0;
    }

    method NextTick(callback: Callback)
      requires Valid()
      modifies this`queue, this`needTick, this`submitted
      ensures Valid()
      ensures exiting ==> unchanged(this)
      ensures !exiting ==> needTick && queue == old(queue) + [callback] && submitted == old(submitted) + [callback]
    {
      if exiting {
        return;
      }
      queue := queue + [callback];
      submitted := submitted + [callback];
      assert queue[index..] == old(queue)[index..] + [callback];
      if |queue| > 0 {
        needTick := true;
      }
    }

    method TickDone(depth: nat)
      requires index <= |queue| && submitted == started + queue[index..]
      requires maxTickDepth >= 1 ==> depth <= maxTickDepth
      modifies this`tickDepth, this`queue, this`index, this`inTick, this`needTick
      ensures Resting() && queue == old(queue)[old(index)..] && tickDepth == depth
      ensures needTick == (old(needTick) || queue != [])
    {
      tickDepth := depth;
      queue := queue[index..];
      index := 0;
      assert queue[0..] == queue;
      inTick := false;
      if |queue| > 0 {
        needTick := true;
      }
    }

    /**
     * Any user code: it may queue callbacks, call `_tickCallback` (through `_makeCallback`), catch what that
     * throws, and throw itself.
     */
    method UserCode() returns (threw: bool, ghost own: nat)
      requires Valid() && (!inTick ==> Resting())
      modifies this
      ensures ticks == old(ticks) + own && lifted == old(lifted)
      ensures Valid() && inTick == old(inTick) && (!inTick ==> Resting())
      ensures old(submitted) <= submitted && old(started) <= started && old(turns) <= turns
      ensures inTick ==> turns == old(turns) && thrown == old(thrown)
      ensures inTick ==>
                index == old(index) && tickDepth == old(tickDepth) && started == old(started) && old(queue) <= queue
      decreases if inTick then 1 else 3, 0
    {
      var steps: nat := *;
      own := 0;
      while steps > 0
        invariant ticks == old(ticks) + own && lifted == old(lifted)
        invariant Valid() && inTick == old(inTick) && (!inTick ==> Resting())
        invariant old(submitted) <= submitted && old(started) <= started && old(turns) <= turns
        invariant inTick ==> turns == old(turns) && thrown == old(thrown)
        invariant inTick ==>
                    index == old(index) && tickDepth == old(tickDepth) && started == old(started) && old(queue) <= queue
        decreases steps
      {
        if * {
          var callback: Callback := *;
          NextTick(callback);
        } else if * {
          exiting := true;
        } else {
          ghost var before := ticks;
          threw := TickCallback(false);
          own := own + (ticks - before);
          if threw {
            var caught: bool := *;
            if !caught {
              return;
            }
          }
        }
        steps := steps - 1;
      }
      threw := *;
    }

    /** The depth a run of batches starts from. */
    ghost function Depth(depth: nat, fromSpinner: bool): nat {
      if depth >= maxTickDepth && fromSpinner then 0 else depth
    }

    /** `_tickCallback(fromSpinner)`; re-entered from a callback, it leaves the running batch alone. */
    method TickCallback(fromSpinner: bool) returns (threw: bool)
      requires Valid()
      requires inTick ==> !fromSpinner
      modifies this
      ensures Valid() && inTick == old(inTick) && old(submitted) <= submitted && old(started) <= started
      ensures old(turns) <= turns
      ensures inTick ==> !threw && queue == old(queue) && index == old(index)
      ensures inTick ==> tickDepth == old(tickDepth) && started == old(started)
      ensures inTick ==> turns == old(turns) && thrown == old(thrown)
      ensures !inTick ==> thrown == old(thrown) + if threw then 1 else 0
      ensures !inTick ==> Resting()
      ensures ticks > old(ticks) && lifted == old(lifted) + if fromSpinner && old(tickDepth) >= maxTickDepth then 1 else 0
      // unless the depth limit turns it away or a callback throws, everything queued on entry is started
      ensures !inTick && !threw && (fromSpinner || old(tickDepth) < maxTickDepth) ==>
                |started| >= |old(started)| + |old(queue)|
      // and nothing is left, unless the depth limit has been reached by as many batches
      ensures !inTick && !threw && (fromSpinner || old(tickDepth) < maxTickDepth) ==>
                tickDepth == 0 && (queue == [] || Depth(old(tickDepth), fromSpinner) + turns - old(turns) >= maxTickDepth)
      // the depth limit turns away any call but the spinner's
      ensures !inTick && !fromSpinner && old(tickDepth) >= maxTickDepth ==>
                !threw && started == old(started) && queue == old(queue) && tickDepth == old(tickDepth) &&
                needTick == (old(needTick) || queue != [])
      ensures old(queue) == [] && !inTick ==> !threw && needTick == old(needTick) && queue == []
      decreases if inTick then 0 else 2, 0
    {
      ticks := ticks + 1;
      if tickDepth >= maxTickDepth {
        if fromSpinner {
          tickDepth, lifted := 0, lifted + 1;
        } else {
          if |queue| > 0 {
            needTick := true;
          }
          return false;
        }
      }
      if |queue| == 0 {
        TickDone(0);
        return false;
      }
      if inTick {
        return false;
      }
      inTick := true;
      threw := RunBatches();
    }

    /** The do-while loop: one batch per turn, at most `maxTickDepth` of them. */
    method RunBatches() returns (threw: bool)
      requires Valid() && inTick && index == 0 && queue != []
      requires tickDepth < maxTickDepth || tickDepth == 0
      modifies this
      ensures Resting() && old(submitted) <= submitted && old(started) <= started
      ensures !threw ==> |started| >= |old(started)| + |old(queue)| && tickDepth == 0
      ensures !threw ==> queue == [] || old(tickDepth) + turns - old(turns) >= maxTickDepth
      ensures turns > old(turns) && thrown == old(thrown) + if threw then 1 else 0
      ensures ticks >= old(ticks) && lifted == old(lifted)
      decreases 1, 3
    {
      var again := true;
      threw := false;
      while again
        invariant (queue != [] ==> Valid()) && submitted == started + queue[0..]
        invariant inTick && index == 0 && (maxTickDepth >= 1 ==> tickDepth <= maxTickDepth)
        invariant old(submitted) <= submitted && old(started) <= started
        invariant tickDepth == old(tickDepth) + turns - old(turns) && thrown == old(thrown)
        invariant (turns > old(turns) || again) && ticks >= old(ticks) && lifted == old(lifted)
        invariant again || queue == [] || tickDepth >= maxTickDepth
        invariant again ==> queue != [] && (tickDepth < maxTickDepth || tickDepth == 0)
        invariant |started| >= |old(started)| + |old(queue)| || (queue == old(queue) && started == old(started) && again)
        decreases again, maxTickDepth - tickDepth
      {
        tickDepth, turns := tickDepth + 1, turns + 1;
        threw := RunBatch(|queue|);
        if threw {
          TickDone(tickDepth);
          return;
        }
        Splice();
        again := tickDepth < maxTickDepth && |queue| > 0;
      }
      TickDone(0);
    }

    method Splice()
      requires Valid() && inTick
      modifies this`queue, this`index
      ensures queue == old(queue)[old(index)..] && index == 0 && submitted == started + queue[0..]
    {
      queue := queue[index..];
      index := 0;
      assert queue[0..] == queue;
    }

    /** The inner loop: the callbacks that were queued when the turn began; stops when one throws. */
    method RunBatch(nextTickLength: nat) returns (threw: bool)
      requires Valid() && inTick && index == 0 && nextTickLength == |queue|
      modifies this
      ensures Valid() && inTick && tickDepth == old(tickDepth) && old(submitted) <= submitted && old(queue) <= queue
      ensures turns == old(turns) && ticks >= old(ticks) && lifted == old(lifted)
      ensures started == old(started) + queue[..index] && index <= nextTickLength
      ensures if threw then thrown == old(thrown) + 1 else thrown == old(thrown) && index == nextTickLength
      decreases 1, 2
    {
      threw := false;
      while index < nextTickLength
        invariant Valid() && inTick && tickDepth == old(tickDepth) && old(submitted) <= submitted && old(queue) <= queue
        invariant started == old(started) + queue[..index] && index <= nextTickLength && turns == old(turns)
        invariant thrown == old(thrown) && ticks >= old(ticks) && lifted == old(lifted)
        decreases nextTickLength - index
      {
        var callback := queue[index];
        assert queue[index..] == [callback] + queue[index + 1..];
        index := index + 1;
        threw := Call(callback);
        thrown := thrown + if threw then 1 else 0;
        if threw {
          return;
        }
      }
    }

    /** `callback()` for the callback just passed. */
    method Call(callback: Callback) returns (threw: bool)
      requires inTick && 0 < index <= |queue| && submitted == started + [callback] + queue[index..]
      requires maxTickDepth >= 1 ==> tickDepth <= maxTickDepth
      modifies this
      ensures Valid() && inTick && old(submitted) <= submitted && started == old(started) + [callback]
      ensures index == old(index) && tickDepth == old(tickDepth) && old(queue) <= queue
      ensures turns == old(turns) && thrown == old(thrown) && ticks >= old(ticks) && lifted == old(lifted)
      decreases 1, 1
    {
      started := started + [callback];
      ghost var own;
      threw, own := UserCode();
    }

    /** `Tick` in src/node.cc: the spinner acts on the flag. */
    method SpinnerTick() returns (threw: bool)
      requires Resting() && needTick
      modifies this
      ensures Resting() && old(submitted) <= submitted && old(started) <= started
      ensures !threw ==> |started| >= |old(started)| + |old(queue)| && tickDepth == 0
      ensures !threw ==> queue == [] || Depth(old(tickDepth), true) + turns - old(turns) >= maxTickDepth
      ensures thrown == old(thrown) + if threw then 1 else 0
      ensures lifted == old(lifted) + if old(tickDepth) >= maxTickDepth then 1 else 0
      ensures old(queue) == [] ==> !needTick
    {
      needTick := false;
      threw := TickCallback(true);
    }

    /**
     * `_makeCallback`: user code from the event loop, and then the tick queue, unless that code throws. `own` are the
     * calls of `_tickCallback` it makes itself.
     */
    method MakeCallback() returns (threw: bool, ghost own: nat, ghost userThrew: bool)
      requires Resting()
      modifies this
      ensures Resting() && old(submitted) <= submitted && old(started) <= started
      ensures !threw ==> tickDepth >= maxTickDepth || queue == [] || turns > old(turns)
      ensures lifted == old(lifted)
      ensures if userThrew then threw && ticks == old(ticks) + own else ticks > old(ticks) + own
    {
      threw, own := UserCode();
      userThrew := threw;
      if !threw {
        threw := TickCallback(false);
      }
    }
  }

  /** Every run of the event loop: each callback is started at most once and in order, and none is forgotten. */
  method AnyRun(maxTickDepth: int, steps: nat) returns (s: Scheduler)
    ensures fresh(s) && s.Resting()
    ensures s.submitted == s.started + s.queue && (s.queue != [] ==> s.needTick)
    ensures maxTickDepth >= 1 ==> s.tickDepth <= maxTickDepth
  {
    s := new Scheduler(maxTickDepth);
    var threw: bool;
    ghost var own, userThrew;
    for k := 0 to steps
      invariant fresh(s) && s.Resting() && s.maxTickDepth == maxTickDepth
    {
      if s.needTick {
        if * {
          threw := s.SpinnerTick();
        } else {
          threw, own, userThrew := s.MakeCallback();
        }
      } else {
        threw, own, userThrew := s.MakeCallback();
      }
    }
  }
}
