/** Idle timers of lib/timers.js: one watcher for all items with the same timeout. */
module Timers {
  import opened Common
  import opened TimerLists
  import opened TimerRings

  type ListId = nat

  function OwnedBy(owner: map<Item, ListId>, id: ListId): set<Item> {
    set x | x in owner && owner[x] == id
  }

  lemma OwnedChanges(owner: map<Item, ListId>, x: Item, to: ListId)
    ensures forall id :: OwnedBy(owner - {x}, id) == OwnedBy(owner, id) - {x}
    ensures forall id :: OwnedBy(owner[x := to], id) == if id == to then OwnedBy(owner, id) + {x} else OwnedBy(owner, id) - {x}
  {
  }

  lemma OwnedIn(owner: map<Item, ListId>, x: Item, id: ListId)
    ensures x in OwnedBy(owner, id) <==> x in owner && owner[x] == id
  {
  }

  /** The watcher of a list with items is armed, no later than the deadline of its oldest item. */
  ghost predicate Ready(l: TimerList) {
    l.entries != [] ==> !l.closed && l.armed.Some? && l.armed.value <= l.entries[0].start + l.msecs
  }

  ghost predicate ListOk(l: TimerList, clock: int, firing: bool) {
    Ordered(l.entries, clock) && (l.closed ==> l.entries == []) && (firing || Ready(l))
  }

  /** A list that an item may be appended to. */
  ghost predicate Receptive(l: TimerList, clock: int, firing: bool) {
    var oldest := if l.entries == [] then clock else l.entries[0].start;
    !l.closed && (firing || (l.armed.Some? && l.armed.value <= oldest + l.msecs))
  }

  /** Since the timeout began, touched items were appended with later times, behind the untouched ones. */
  ghost predicate TouchedLast(es: seq<Entry>, touched: set<Item>, since: int) {
    && (forall i :: 0 <= i < |es| && es[i].item in touched ==> es[i].start >= since)
    && (forall i, j :: 0 <= i < j < |es| && es[i].item in touched ==> es[j].item in touched)
  }

  lemma TouchedLastFirst(es: seq<Entry>, touched: set<Item>, since: int)
    requires es != [] && TouchedLast(es, touched, since)
    ensures TouchedLast(es[1..], touched, since)
    ensures es[0].item in touched ==> es[0].start >= since && forall e :: e in es[1..] ==> e.item in touched
  {
  }

  lemma TouchedLastCons(e: Entry, es: seq<Entry>, touched: set<Item>, since: int)
    requires TouchedLast(es, touched, since)
    requires e.item in touched ==> e.start >= since && forall f :: f in es ==> f.item in touched
    ensures TouchedLast([e] + es, touched, since)
  {
  }

  lemma {:induction false} TouchedLastDrop(es: seq<Entry>, touched: set<Item>, since: int, x: Item)
    requires TouchedLast(es, touched, since)
    ensures TouchedLast(Drop(es, x), touched + {x}, since)
  {
    hide TouchedLast;
    if es == [] {
      TouchedLastNone(touched + {x}, since);
    } else {
      TouchedLastFirst(es, touched, since);
      TouchedLastDrop(es[1..], touched, since, x);
      DropFirst(es, x);
      DropMembers(es[1..], x);
      hide Drop;
      if es[0].item != x {
        TouchedLastCons(es[0], Drop(es[1..], x), touched + {x}, since);
      }
    }
  }

  lemma TouchedLastNone(touched: set<Item>, since: int)
    ensures TouchedLast([], touched, since)
  {
  }

  lemma TouchedLastPush(es: seq<Entry>, touched: set<Item>, since: int, x: Item, clock: int)
    requires TouchedLast(es, touched, since) && since <= clock && x in touched
    ensures TouchedLast(es + [Entry(x, clock)], touched, since)
    ensures Kept(es + [Entry(x, clock)], touched) == Kept(es, touched)
  {
    KeptConcat(es, [Entry(x, clock)], touched);
    assert Kept([Entry(x, clock)], touched) == [];
  }

  /** What taking the oldest entry off leaves. */
  lemma FirstFacts(es: seq<Entry>, clock: int, touched: set<Item>, since: int)
    requires es != [] && Ordered(es, clock) && TouchedLast(es, touched, since)
    ensures Ordered(es[1..], clock) && TouchedLast(es[1..], touched, since)
    ensures es[0].item in Items(es) && Items(es[1..]) == Items(es) - {es[0].item}
    ensures es[1..] != [] ==> es[1..][0].item != es[0].item
  {
    ItemsIn(es[1..]);
  }

  lemma DropOldest(es: seq<Entry>, clock: int)
    requires es != [] && Ordered(es, clock)
    ensures Drop(es, es[0].item) == es[1..]
  {
    DropFirst(es, es[0].item);
    ItemsIn(es[1..]);
    DropItems(es[1..], es[0].item);
  }

  /** A list stays in order when an item leaves it. */
  lemma ListOkDrop(l: TimerList, clock: int, firing: bool, x: Item)
    requires ListOk(l, clock, firing)
    ensures ListOk(l.(entries := Drop(l.entries, x)), clock, firing)
    ensures Items(Drop(l.entries, x)) == Items(l.entries) - {x}
    ensures |Drop(l.entries, x)| == |l.entries| - if x in Items(l.entries) then 1 else 0
  {
    hide Drop;
    hide Items;
    hide Ordered;
    DropFacts(l.entries, x, clock);
  }

  /** Removing an item does not make a watcher late. */
  lemma ReceptiveDrop(l: TimerList, clock: int, firing: bool, x: Item)
    requires Receptive(l, clock, firing) && Ordered(l.entries, clock)
    ensures Receptive(l.(entries := Drop(l.entries, x)), clock, firing)
  {
    hide Drop;
    DropFacts(l.entries, x, clock);
  }

  ghost predicate TableEntry(m: int, id: ListId, lists: seq<TimerList>, firing: Option<ListId>, loose: set<ListId>) {
    && id < |lists| && lists[id].msecs == m && !lists[id].closed
    && (lists[id].entries != [] || firing == Some(id) || id in loose)
  }

  function EntriesOf(lists: seq<TimerList>): (r: seq<seq<Entry>>)
    ensures |r| == |lists| && forall id :: 0 <= id < |lists| ==> r[id] == lists[id].entries
  {
    seq(|lists|, id requires 0 <= id < |lists| => lists[id].entries)
  }

  /** All lists without the entries of `x`. */
  function DroppedAll(es: seq<seq<Entry>>, x: Item): (r: seq<seq<Entry>>)
    ensures |r| == |es| && forall i :: 0 <= i < |es| ==> r[i] == Drop(es[i], x)
  {
    seq(|es|, i requires 0 <= i < |es| => Drop(es[i], x))
  }

  /** `x` is idle since `now`: the newest of list `id`, which may be a new one, and in no other. */
  function Restarted(es: seq<seq<Entry>>, id: ListId, x: Item, now: int): seq<seq<Entry>>
    requires id <= |es|
  {
    var rest := DroppedAll(if id == |es| then es + [[]] else es, x);
    rest[id := rest[id] + [Entry(x, now)]]
  }

  lemma RestartedNew(es: seq<seq<Entry>>, x: Item, now: int)
    ensures Restarted(es + [[]], |es|, x, now) == Restarted(es, |es|, x, now)
  {
  }

  /** Each list has become at most one entry longer, or none. */
  lemma DroppedLengths(es: seq<seq<Entry>>, x: Item)
    ensures forall i :: 0 <= i < |es| ==> |DroppedAll(es, x)[i]| <= |es[i]|
  {
    hide Drop;
    forall i | 0 <= i < |es|
      ensures |DroppedAll(es, x)[i]| <= |es[i]|
    {
      DropMembers(es[i], x);
    }
  }

  lemma RestartedLengths(es: seq<seq<Entry>>, id: ListId, x: Item, now: int)
    requires id <= |es|
    ensures |es| <= |Restarted(es, id, x, now)| && id < |Restarted(es, id, x, now)|
    ensures forall i :: 0 <= i < |es| ==> |Restarted(es, id, x, now)[i]| <= |es[i]| + 1
  {
    hide Drop;
    DroppedLengths(if id == |es| then es + [[]] else es, x);
  }

  /** An item taken off by a timeout: when it was last active, when the timeout began, and its timeout. */
  datatype Off = Off(item: Item, active: int, at: int, msecs: nat)

  /** No item is taken off earlier than its timeout allows, counted from the last call of `active`. */
  ghost predicate InTime(offs: seq<Off>) {
    forall i :: 0 <= i < |offs| ==> offs[i].at - offs[i].active >= offs[i].msecs - 1
  }

  /** The entries of `fired` have been taken off at `at`. */
  ghost predicate Recorded(before: seq<Off>, offs: seq<Off>, fired: seq<Entry>, at: int, msecs: nat) {
    && |offs| == |before| + |fired| && before <= offs
    && forall i :: 0 <= i < |fired| ==> offs[|before| + i] == Off(fired[i].item, fired[i].start, at, msecs)
  }

  lemma RecordedNone(offs: seq<Off>, at: int, msecs: nat)
    ensures Recorded(offs, offs, [], at, msecs)
  {
  }

  lemma RecordedMore(before: seq<Off>, offs: seq<Off>, more: seq<Off>, fired: seq<Entry>, e: Entry, at: int, msecs: nat)
    requires Recorded(before, offs, fired, at, msecs) && Recorded(offs, more, [e], at, msecs)
    ensures Recorded(before, more, fired + [e], at, msecs)
  {
    assert [e][0] == e;
  }

  /** The items whose callbacks are called for the entries taken off. */
  function CallsOf(fired: seq<Entry>, handlers: set<Item>): seq<Item> {
    if fired == [] then []
    else
      var n := |fired| - 1;
      CallsOf(fired[..n], handlers) + if fired[n].item in handlers then [fired[n].item] else []
  }

  lemma CallsOfNone(before: seq<Item>, handlers: set<Item>)
    ensures before + CallsOf([], handlers) == before
  {
  }

  lemma CallsOfMore(before: seq<Item>, fired: seq<Entry>, e: Entry, handlers: set<Item>)
    ensures before + CallsOf(fired, handlers) + CallsOf([e], handlers) == before + CallsOf(fired + [e], handlers)
  {
    assert (fired + [e])[..|fired|] == fired && [e][..0] == [];
  }

  /** The entries have the times at which their items were last active. */
  ghost predicate Current(es: seq<seq<Entry>>, active: map<Item, int>) {
    forall i, e :: 0 <= i < |es| && e in es[i] ==> e.item in active && active[e.item] == e.start
  }

  /** An item whose time is up is taken off in time. */
  lemma FirstInTime(es: seq<seq<Entry>>, id: ListId, active: map<Item, int>, offs: seq<Off>, at: int, msecs: nat)
    requires Current(es, active) && InTime(offs) && id < |es| && es[id] != [] && Due(es[id][0], at, msecs)
    ensures es[id][0].item in active && Current(es[id := es[id][1..]], active)
    ensures var off := Off(es[id][0].item, active[es[id][0].item], at, msecs);
            InTime(offs + [off]) && Recorded(offs, offs + [off], [es[id][0]], at, msecs)
  {
    assert es[id][0] in es[id];
  }

  lemma CurrentDropped(es: seq<seq<Entry>>, x: Item, active: map<Item, int>)
    requires Current(es, active)
    ensures Current(DroppedAll(es, x), active)
    ensures forall i, e :: 0 <= i < |es| && e in DroppedAll(es, x)[i] ==> e.item != x
  {
    hide Drop;
    forall i | 0 <= i < |es|
      ensures forall e :: e in DroppedAll(es, x)[i] ==> e in es[i] && e.item != x
    {
      DropMembers(es[i], x);
    }
  }

  lemma CurrentRestarted(es: seq<seq<Entry>>, id: ListId, x: Item, now: int, active: map<Item, int>)
    requires Current(es, active) && id <= |es|
    ensures Current(Restarted(es, id, x, now), active[x := now])
  {
    hide Drop;
    var all := if id == |es| then es + [[]] else es;
    CurrentDropped(all, x, active);
    var r, d := Restarted(es, id, x, now), DroppedAll(all, x);
    forall i, e: Entry | 0 <= i < |r| && e in r[i]
      ensures e.item in active[x := now] && active[x := now][e.item] == e.start
    {
      assert e == Entry(x, now) || e in d[i];
    }
  }

  /** An item leaves its list. */
  ghost predicate Dropped(a: seq<TimerList>, b: seq<TimerList>, owner: map<Item, ListId>, x: Item) {
    if x in owner && owner[x] < |a| then b == a[owner[x] := a[owner[x]].(entries := Drop(a[owner[x]].entries, x))] else b == a
  }

  ghost predicate OnlyEntries(a: seq<TimerList>, b: seq<TimerList>) {
    |a| == |b| && forall id :: 0 <= id < |a| ==> b[id] == a[id].(entries := b[id].entries)
  }

  lemma EntriesDropped(a: seq<TimerList>, b: seq<TimerList>, owner: map<Item, ListId>, x: Item)
    requires Dropped(a, b, owner, x)
    ensures EntriesOf(b) == DroppedFrom(EntriesOf(a), owner, x)
  {
    hide Drop;
  }

  lemma EntriesPushed(a: seq<TimerList>, id: ListId, e: Entry)
    requires id < |a|
    ensures EntriesOf(a[id := a[id].(entries := a[id].entries + [e])]) == EntriesOf(a)[id := EntriesOf(a)[id] + [e]]
  {
  }

  lemma EntriesNewest(a: seq<TimerList>, b: seq<TimerList>)
    requires |b| == |a| + 1 && b[..|a|] == a && b[|a|].entries == []
    ensures EntriesOf(b) == EntriesOf(a) + [[]]
  {
    assert forall i :: 0 <= i < |a| ==> b[i] == b[..|a|][i];
  }

  lemma EntriesNew(a: seq<TimerList>, list: TimerList)
    requires list.entries == []
    ensures EntriesOf(a + [list]) == EntriesOf(a) + [[]]
  {
  }

  /** Arming or closing a watcher moves no item. */
  lemma EntriesSame(a: seq<TimerList>, id: ListId, armed: Option<int>, closed: bool)
    requires id < |a|
    ensures EntriesOf(a[id := a[id].(armed := armed, closed := closed)]) == EntriesOf(a)
  {
  }

  class Timers {
    /** `Date.now()` */
    var clock: int
    /** `lists[msecs]` */
    var table: map<int, ListId>
    /** Every list object that was ever created. What `entries` says is in the linked lists; the code looks only there. */
    var lists: seq<TimerList>
    /** `item._idleTimeout` */
    var timeout: map<Item, int>
    /** The list an item is linked into; `enrolled` are the items linked only to themselves. */
    var owner: map<Item, ListId>
    var enrolled: set<Item>
    /** How many more calls user code will make. */
    var budget: nat
    /** The linked lists themselves; `lists`, `owner` and `enrolled` say what is in them. */
    const rings: Rings

    /** The list whose `ontimeout` is running, since when, and the items that callbacks have dealt with since. */
    ghost var firing: Option<ListId>
    ghost var since: int
    ghost var touched: set<Item>

    /** When each item was last active; the items that timeouts have taken off. */
    ghost var lastActive: map<Item, int>
    ghost var offs: seq<Off>
    /** Items whose callbacks have been called. */
    ghost var called: seq<Item>
    /** Items that have a callback `_onTimeout`. */
    const handlers: set<Item>

    ghost predicate ListsOk()
      reads this`clock, this`lists, this`firing
    {
      forall id :: 0 <= id < |lists| ==> ListOk(lists[id], clock, firing == Some(id))
    }

    ghost predicate OwnersOk()
      reads this`lists, this`owner, this`timeout
    {
      && (forall id :: 0 <= id < |lists| ==> OwnedBy(owner, id) == Items(lists[id].entries))
      && (forall x :: x in owner ==> owner[x] < |lists| && x in timeout && timeout[x] == lists[owner[x]].msecs)
    }

    /** Lists in the table are open and not empty, but for the one that is firing, and `loose`. */
    ghost predicate TableOk(loose: set<ListId>)
      reads this`table, this`lists, this`firing
    {
      forall m :: m in table ==> TableEntry(m, table[m], lists, firing, loose)
    }

    ghost predicate FiringOk()
      reads this`firing, this`since, this`clock, this`touched, this`lists
    {
      firing.Some? ==>
        firing.value < |lists| && since <= clock && TouchedLast(lists[firing.value].entries, touched, since)
    }

    /** The linked lists hold the entries. */
    ghost predicate OnHeap()
      reads this`lists, this`owner, this`enrolled, rings, rings.Repr
    {
      rings.Valid() && rings.All() == EntriesOf(lists) && rings.owner == owner && rings.alone == enrolled
    }

    ghost predicate Valid()
      reads this, rings, rings.Repr
    {
      ListsOk() && OwnersOk() && TableOk({}) && FiringOk() && OnHeap()
    }

    /** Holds in every run: entries are as old as the last call of `active`, and none was taken off too early. */
    ghost predicate OnTime()
      reads this`lists, this`lastActive, this`offs
    {
      Current(EntriesOf(lists), lastActive) && InTime(offs)
    }

    /** What every operation leaves alone. */
    twostate predicate Steady()
      reads this
    {
      && old(touched) <= touched && firing == old(firing) && since == old(since) && clock >= old(clock)
      && |lists| >= |old(lists)| && (forall id :: 0 <= id < |old(lists)| ==> lists[id].msecs == old(lists)[id].msecs)
      && (firing.Some? && firing.value < |old(lists)| ==>
            Kept(lists[firing.value].entries, touched) == Kept(old(lists)[firing.value].entries, touched))
    }

    /** At rest, every list with items has a watcher that fires no later than the first deadline. */
    lemma WatchersArmed(id: ListId)
      requires Valid() && firing == None && id < |lists| && lists[id].entries != []
      ensures lists[id].armed.Some? && !lists[id].closed
      ensures forall i :: 0 <= i < |lists[id].entries| ==>
                lists[id].armed.value <= lists[id].entries[i].start + lists[id].msecs
    {
      assert ListOk(lists[id], clock, false);
    }

    /** If the list for `m` has become empty, it is closed and leaves the table; apart from that, only entries differ. */
    twostate predicate Emptied(m: int)
      reads this`lists, this`table
    {
      var t := old(table);
      if m in t && t[m] < |lists| && t[m] < |old(lists)| && lists[t[m]].entries == [] then
        table == t - {m} && OnlyEntries(old(lists)[t[m] := old(lists)[t[m]].(armed := None, closed := true)], lists)
      else table == t && OnlyEntries(old(lists), lists)
    }

    constructor (clock: int, budget: nat, handlers: set<Item>)
      ensures this.handlers == handlers && called == []
      ensures Valid() && firing == None && fresh(rings) && fresh(rings.Repr) && OnTime()
      ensures this.clock == clock && this.budget == budget && lists == [] && table == map[] && timeout == map[]
      ensures lastActive == map[] && offs == []
    {
      hide Rings.Valid;
      hide Rings.All;
      rings := new Rings();
      this.clock, this.budget, this.handlers, called := clock, budget, handlers, [];
      table, lists, timeout, owner, enrolled := map[], [], map[], map[], {};
      firing, since, touched, lastActive, offs := None, clock, {}, map[], [];
    }

    /** An item is in no list but its own. */
    lemma InItsList(x: Item)
      requires OwnersOk()
      ensures DroppedFrom(EntriesOf(lists), owner, x) == DroppedAll(EntriesOf(lists), x)
    {
      hide Drop;
      hide Items;
      hide OwnedBy;
      var es := EntriesOf(lists);
      forall i | 0 <= i < |es|
        ensures DroppedFrom(es, owner, x)[i] == Drop(es[i], x)
      {
        OwnedIn(owner, x, i);
        DropItems(es[i], x);
      }
    }

    /** `L.remove(item)` */
    method Remove(x: Item, ghost loose: set<ListId>)
      requires ListsOk() && OwnersOk() && TableOk(loose) && FiringOk() && OnHeap()
      modifies this`lists, this`owner, this`enrolled, this`touched, rings, rings.Repr
      ensures ListsOk() && OwnersOk() && FiringOk() && OnHeap() && Steady() && x !in owner && x !in enrolled
      ensures TableOk(loose + if x in old(owner) then {old(owner)[x]} else {})
      ensures EntriesOf(lists) == DroppedAll(EntriesOf(old(lists)), x)
      ensures OnlyEntries(old(lists), lists)
      ensures fresh(rings.Repr - old(rings.Repr))
    {
      hide Rings.Valid;
      hide Rings.All;
      hide Drop;
      hide Items;
      hide Kept;
      hide TouchedLast;
      hide OwnedBy;
      hide ListOk;
      InItsList(x);
      rings.Meet(x);
      rings.Remove(x);
      Unlink(x, loose);
      assert loose + {} == loose;
      EntriesDropped(old(lists), lists, old(owner), x);
    }

    /** The item is in no list any more. */
    method Unlink(x: Item, ghost loose: set<ListId>)
      requires ListsOk() && OwnersOk() && TableOk(loose) && FiringOk()
      modifies this`lists, this`owner, this`enrolled, this`touched
      ensures ListsOk() && OwnersOk() && FiringOk() && Steady() && x in touched && x !in enrolled
      ensures x in old(owner) ==> TableOk(loose + {old(owner)[x]})
      ensures x !in old(owner) ==> TableOk(loose) && lists == old(lists)
      ensures owner == old(owner) - {x} && enrolled == old(enrolled) - {x}
      ensures x in old(owner) ==>
                var id := old(owner)[x]; lists == old(lists)[id := old(lists)[id].(entries := Drop(old(lists)[id].entries, x))]
      ensures |lists| == |old(lists)| && forall id :: 0 <= id < |lists| ==>
                |lists[id].entries| <= |old(lists)[id].entries|
    {
      hide Rings.Valid;
      hide Rings.All;
      hide Drop;
      hide Items;
      hide Kept;
      hide TouchedLast;
      hide OwnedBy;
      hide ListOk;
      enrolled := enrolled - {x};
      if x in owner {
        UnlinkFrom(owner[x], x, loose);
      } else {
        if firing.Some? {
          TouchedLastDrop(lists[firing.value].entries, touched, since, x);
          DropItems(lists[firing.value].entries, x);
          OwnedIn(owner, x, firing.value);
        }
        touched := touched + {x};
        assert owner - {x} == owner;
      }
    }

    method UnlinkFrom(id: ListId, x: Item, ghost loose: set<ListId>)
      requires ListsOk() && OwnersOk() && TableOk(loose) && FiringOk() && x in owner && owner[x] == id
      modifies this`lists, this`owner, this`touched
      ensures ListsOk() && OwnersOk() && FiringOk() && Steady() && touched == old(touched) + {x}
      ensures owner == old(owner) - {x}
      ensures TableOk(loose + {id})
      ensures id < |old(lists)|
      ensures lists == old(lists)[id := old(lists)[id].(entries := Drop(old(lists)[id].entries, x))]
      ensures |lists[id].entries| < |old(lists)[id].entries|
    {
      hide Rings.Valid;
      hide Rings.All;
      hide Drop;
      hide Items;
      hide Kept;
      hide TouchedLast;
      hide OwnedBy;
      hide Ordered;
      hide ListOk;
      var es := lists[id].entries;
      OwnedIn(owner, x, id);
      ListOkDrop(lists[id], clock, firing == Some(id), x);
      OwnedChanges(owner, x, 0);
      if firing.Some? {
        var fs := lists[firing.value].entries;
        TouchedLastDrop(fs, touched, since, x);
        KeptDrop(fs, x, touched + {x});
        DropItems(fs, x);
        OwnedIn(owner, x, firing.value);
      }
      touched := touched + {x};
      lists := lists[id := lists[id].(entries := Drop(es, x))];
      owner := owner - {x};
      forall i | 0 <= i < |lists|
        ensures OwnedBy(owner, i) == Items(lists[i].entries)
      {
        OwnedIn(old(owner), x, i);
      }
    }

    lemma SameTimeout(x: Item)
      requires OwnersOk()
      ensures x in owner ==> owner[x] < |lists| && x in timeout && timeout[x] == lists[owner[x]].msecs
    {
    }

    /** `unenroll`: an item leaves its list, and a list left empty is closed. */
    method Unenroll(x: Item)
      requires Valid()
      modifies this`lists, this`table, this`timeout, this`owner, this`enrolled, this`touched, rings, rings.Repr
      ensures fresh(rings.Repr - old(rings.Repr))
      ensures Valid() && Steady() && x !in owner && x !in enrolled
      ensures EntriesOf(lists) == DroppedAll(EntriesOf(old(lists)), x)
      ensures timeout == old(timeout)[x := -1]
      ensures if x in old(timeout) then Emptied(old(timeout)[x]) else table == old(table) && OnlyEntries(old(lists), lists)
    {
      hide Rings.Valid;
      hide Rings.All;
      hide Items;
      hide Kept;
      hide TouchedLast;
      hide OwnedBy;
      hide Ordered;
      hide Drop;
      hide ListOk;
      hide ListsOk;
      hide OwnersOk;
      hide FiringOk;
      SameTimeout(x);
      Remove(x, {});
      ghost var loose := if x in old(owner) then {old(owner)[x]} else {};
      assert TableOk(loose) by {
        assert {} + loose == loose;
      }
      if x in timeout {
        CloseIfEmpty(timeout[x], loose);
      }
      SetTimeout(x, -1);
    }

    /** `item._idleTimeout = msecs` */
    method SetTimeout(x: Item, msecs: int)
      requires Valid() && x !in owner
      modifies this`timeout
      ensures Valid() && timeout == old(timeout)[x := msecs]
    {
      hide Rings.Valid;
      hide Rings.All;
      hide OwnedBy;
      hide Items;
      hide ListsOk;
      hide TableOk;
      hide FiringOk;
      timeout := timeout[x := msecs];
    }

    /** The list for `m` is closed and leaves the table if it has become empty. */
    method CloseIfEmpty(m: int, ghost loose: set<ListId>)
      requires ListsOk() && OwnersOk() && TableOk(loose) && FiringOk() && OnHeap()
      requires forall id :: id in loose ==> id < |lists| && lists[id].msecs == m
      modifies this`lists, this`table
      ensures Valid() && Steady() && EntriesOf(lists) == EntriesOf(old(lists)) && Emptied(m)
    {
      hide Rings.Valid;
      hide Rings.All;
      hide Items;
      hide Kept;
      hide TouchedLast;
      hide OwnedBy;
      hide ListOk;
      if m in table {
        var id := table[m];
        assert TableEntry(m, id, lists, firing, loose);
        var empty := rings.IsEmpty(id);
        if empty {
          Close(id);
          table := table - {m};
        }
      }
      forall k | k in table
        ensures TableEntry(k, table[k], lists, firing, {})
      {
        assert TableEntry(k, table[k], old(lists), firing, loose);
      }
    }

    /** `list.close()` of an empty list. */
    method Close(id: ListId)
      requires ListsOk() && OwnersOk() && FiringOk() && id < |lists| && lists[id].entries == []
      modifies this`lists
      ensures ListsOk() && OwnersOk() && FiringOk()
      ensures lists == old(lists)[id := old(lists)[id].(armed := None, closed := true)]
    {
      hide Rings.Valid;
      hide Rings.All;
      hide Items;
      hide TouchedLast;
      hide OwnedBy;
      hide Ordered;
      assert ListOk(lists[id], clock, firing == Some(id));
      lists := lists[id := lists[id].(armed := None, closed := true)];
    }

    /** `enroll`: out of the old list, ready for `active`. */
    method Enroll(x: Item, msecs: int)
      requires Valid()
      modifies this`lists, this`table, this`timeout, this`owner, this`enrolled, this`touched, rings, rings.Repr
      ensures fresh(rings.Repr - old(rings.Repr))
      ensures Valid() && Steady()
      ensures EntriesOf(lists) == DroppedAll(EntriesOf(old(lists)), x)
      ensures timeout == old(timeout)[x := msecs] && x !in owner && x in enrolled
      ensures if x in old(timeout) && (x in old(owner) || x in old(enrolled)) then Emptied(old(timeout)[x])
              else table == old(table) && OnlyEntries(old(lists), lists)
    {
      hide Rings.Valid;
      hide Rings.All;
      hide Items;
      hide Kept;
      hide TouchedLast;
      hide OwnedBy;
      hide Ordered;
      hide ListsOk;
      hide TableOk;
      hide FiringOk;
      hide Drop;
      var linked := rings.IsLinked(x);
      if linked {
        Unenroll(x);
      } else {
        InItsList(x);
      }
      Prepare(x, msecs);
      assert timeout == old(timeout)[x := msecs];
    }

    /** `item._idleTimeout = msecs` and `L.init(item)` */
    method Prepare(x: Item, msecs: int)
      requires Valid() && x !in owner
      modifies this`timeout, this`enrolled, rings, rings.Repr
      ensures fresh(rings.Repr - old(rings.Repr))
      ensures Valid() && timeout == old(timeout)[x := msecs] && x in enrolled
    {
      hide Rings.Valid;
      hide Rings.All;
      hide OwnedBy;
      hide Items;
      hide ListsOk;
      hide TableOk;
      hide FiringOk;
      hide OwnersOk;
      rings.Meet(x);
      rings.InitItem(x);
      enrolled := enrolled + {x};
      SetTimeout(x, msecs);
    }

    /** `L.append(list, item)`, where the list is the table's list for the item's timeout. */
    method AppendTo(id: ListId, x: Item)
      requires ListsOk() && OwnersOk() && TableOk({id}) && FiringOk() && OnHeap()
      requires id < |lists| && Receptive(lists[id], clock, firing == Some(id))
      requires x in timeout && timeout[x] == lists[id].msecs && timeout[x] in table && table[timeout[x]] == id
      modifies this`lists, this`owner, this`enrolled, this`touched, rings, rings.Repr
      ensures fresh(rings.Repr - old(rings.Repr))
      ensures Valid() && Steady() && owner == old(owner)[x := id]
      ensures EntriesOf(lists) == Restarted(EntriesOf(old(lists)), id, x, clock)
    {
      hide Rings.Valid;
      hide Rings.All;
      hide ListsOk;
      hide OwnersOk;
      hide TableOk;
      hide FiringOk;
      hide Receptive;
      hide Kept;
      InItsList(x);
      rings.Meet(x);
      rings.Append(id, x, clock);
      ghost var rest := Move(id, x);
      EntriesDropped(old(lists), rest, old(owner), x);
      EntriesPushed(rest, id, Entry(x, clock));
    }

    /** The table has one list for each timeout. */
    lemma NarrowTable(id: ListId, other: ListId)
      requires TableOk({id} + {other}) && id < |lists| && other < |lists| && lists[other].msecs == lists[id].msecs
      requires lists[id].msecs in table && table[lists[id].msecs] == id
      ensures TableOk({id})
    {
      forall m | m in table
        ensures TableEntry(m, table[m], lists, firing, {id})
      {
        assert TableEntry(m, table[m], lists, firing, {id} + {other});
      }
    }

    /** The item leaves whatever list it is in and joins this one. */
    method Move(id: ListId, x: Item) returns (ghost rest: seq<TimerList>)
      requires ListsOk() && OwnersOk() && TableOk({id}) && FiringOk()
      requires id < |lists| && Receptive(lists[id], clock, firing == Some(id))
      requires x in timeout && timeout[x] == lists[id].msecs && timeout[x] in table && table[timeout[x]] == id
      modifies this`lists, this`owner, this`enrolled, this`touched
      ensures ListsOk() && OwnersOk() && TableOk({}) && FiringOk() && Steady()
      ensures owner == old(owner)[x := id] && enrolled == old(enrolled) - {x}
      ensures Dropped(old(lists), rest, old(owner), x) && id < |rest|
      ensures lists == rest[id := rest[id].(entries := rest[id].entries + [Entry(x, clock)])]
      ensures |lists| == |old(lists)|
      ensures forall i :: 0 <= i < |lists| ==> |lists[i].entries| <= |old(lists)[i].entries| + 1
    {
      hide Items;
      hide Kept;
      hide TouchedLast;
      hide OwnedBy;
      hide Drop;
      hide Ordered;
      hide Receptive;
      hide TableOk;
      hide OwnersOk;
      hide FiringOk;
      assert ListOk(lists[id], clock, firing == Some(id));
      ReceptiveDrop(lists[id], clock, firing == Some(id), x);
      SameTimeout(x);
      Unlink(x, {id});
      if x in old(owner) {
        NarrowTable(id, old(owner)[x]);
      }
      rest := lists;
      Push(id, x);
      assert owner == old(owner)[x := id];
    }

    /** The rest of `append`: the item is in no list any more. */
    method Push(id: ListId, x: Item)
      requires ListsOk() && OwnersOk() && TableOk({id}) && FiringOk() && x !in owner && x in touched
      requires id < |lists| && Receptive(lists[id], clock, firing == Some(id))
      requires x in timeout && timeout[x] == lists[id].msecs
      modifies this`lists, this`owner
      ensures ListsOk() && OwnersOk() && TableOk({}) && FiringOk() && Steady() && owner == old(owner)[x := id]
      ensures lists == old(lists)[id := old(lists)[id].(entries := old(lists)[id].entries + [Entry(x, clock)])]
    {
      hide Rings.Valid;
      hide Rings.All;
      hide Items;
      hide Kept;
      hide TouchedLast;
      hide OwnedBy;
      hide Ordered;
      var es := lists[id].entries;
      assert ListOk(lists[id], clock, firing == Some(id));
      OwnedIn(owner, x, id);
      PushFacts(es, x, clock);
      OwnedChanges(owner, x, id);
      if firing == Some(id) {
        TouchedLastPush(es, touched, since, x, clock);
      }
      lists := lists[id := lists[id].(entries := es + [Entry(x, clock)])];
      owner := owner[x := id];
      forall i | 0 <= i < |lists|
        ensures OwnedBy(owner, i) == Items(lists[i].entries)
      {
        OwnedIn(old(owner), x, i);
      }
    }

    lemma TableListIsReceptive(m: int)
      requires Valid() && m in table
      ensures table[m] < |lists| && lists[table[m]].msecs == m
      ensures Receptive(lists[table[m]], clock, firing == Some(table[m]))
    {
      assert TableEntry(m, table[m], lists, firing, {});
      assert ListOk(lists[table[m]], clock, firing == Some(table[m]));
    }

    /** `insert`: the list for `msecs` is created, with its watcher, if there is none. */
    method Insert(x: Item, msecs: nat)
      requires Valid() && x in timeout && timeout[x] == msecs
      modifies this`lists, this`table, this`owner, this`enrolled, this`touched, rings, rings.Repr
      ensures fresh(rings.Repr - old(rings.Repr))
      ensures Valid() && Steady() && msecs in table && owner == old(owner)[x := table[msecs]]
      ensures table[msecs] <= |old(lists)|
      ensures EntriesOf(lists) == Restarted(EntriesOf(old(lists)), table[msecs], x, clock)
    {
      hide Rings.Valid;
      hide Rings.All;
      hide Items;
      hide Kept;
      hide TouchedLast;
      hide OwnedBy;
      hide Ordered;
      hide Receptive;
      if msecs in table {
        TableListIsReceptive(msecs);
        WidenTable(table[msecs]);
        AppendTo(table[msecs], x);
      } else {
        var loopTime := LoopTime();
        var id := NewList(msecs, loopTime);
        EntriesNewest(old(lists), lists);
        AppendTo(id, x);
        RestartedNew(EntriesOf(old(lists)), x, clock);
      }
    }

    lemma WidenTable(id: ListId)
      requires TableOk({})
      ensures TableOk({id})
    {
      forall m | m in table
        ensures TableEntry(m, table[m], lists, firing, {id})
      {
        assert TableEntry(m, table[m], lists, firing, {});
      }
    }

    /** The event loop's time may lag behind the clock. */
    method LoopTime() returns (t: int)
      ensures t <= clock
    {
      t := *;
      t := if t < clock then t else clock;
    }

    /** `new Timer()` and `list.start(msecs)` */
    method NewList(msecs: nat, loopTime: int) returns (id: ListId)
      requires Valid() && msecs !in table && loopTime <= clock
      modifies this`lists, this`table, rings, rings.Repr
      ensures fresh(rings.Repr - old(rings.Repr))
      ensures ListsOk() && OwnersOk() && FiringOk() && TableOk({id}) && OnHeap() && Steady()
      ensures id == |old(lists)| && |lists| == id + 1 && lists[..id] == old(lists) && lists[id].msecs == msecs
      ensures lists[id] == TimerList(msecs, [], Some(loopTime + msecs), false)
      ensures table == old(table)[msecs := id] && Receptive(lists[id], clock, firing == Some(id))
    {
      hide Rings.Valid;
      hide Rings.All;
      hide Kept;
      hide ListsOk;
      hide OwnersOk;
      hide TableOk;
      hide FiringOk;
      hide EntriesOf;
      id := |lists|;
      rings.NewList();
      var list := TimerList(msecs, [], Some(loopTime + msecs), false);
      EntriesNew(lists, list);
      AddList(list);
    }

    /** `lists[msecs] = list` */
    method AddList(list: TimerList)
      requires ListsOk() && OwnersOk() && TableOk({}) && FiringOk() && list.msecs !in table
      requires list.entries == [] && !list.closed
      modifies this`lists, this`table
      ensures ListsOk() && OwnersOk() && FiringOk() && TableOk({|old(lists)|}) && lists == old(lists) + [list]
      ensures table == old(table)[list.msecs := |old(lists)|] && (firing.Some? ==> firing.value < |old(lists)|)
    {
      hide TouchedLast;
      ghost var id := |lists|;
      assert OwnedBy(owner, id) == {};
      table := table[list.msecs := |lists|];
      lists := lists + [list];
      assert lists[id] == list;
      forall m | m in table
        ensures TableEntry(m, table[m], lists, firing, {id})
      {
        assert m != list.msecs ==> TableEntry(m, old(table)[m], old(lists), firing, {});
      }
    }

    /** `active`: the item's timeout starts anew. */
    method Active(x: Item)
      requires Valid()
      modifies this`lists, this`table, this`owner, this`enrolled, this`touched, this`lastActive, rings, rings.Repr
      ensures fresh(rings.Repr - old(rings.Repr))
      ensures Valid() && Steady()
      ensures x in timeout && timeout[x] >= 0 ==>
                var m := timeout[x];
                && m in table && table[m] <= |old(lists)| && owner == old(owner)[x := table[m]]
                && EntriesOf(lists) == Restarted(EntriesOf(old(lists)), table[m], x, clock)
      ensures x !in timeout || timeout[x] < 0 ==> lists == old(lists) && owner == old(owner)
      ensures lastActive == if x in timeout && timeout[x] >= 0 then old(lastActive)[x := clock] else old(lastActive)
      ensures old(OnTime()) ==> OnTime()
    {
      hide Rings.Valid;
      hide Rings.All;
      hide ListsOk;
      hide OwnersOk;
      hide TableOk;
      hide FiringOk;
      hide Current;
      hide Restarted;
      if x !in timeout || timeout[x] < 0 {
        return;
      }
      var msecs := timeout[x];
      Restart(x, msecs);
      if old(OnTime()) {
        CurrentRestarted(EntriesOf(old(lists)), table[msecs], x, clock, lastActive);
      }
      lastActive := lastActive[x := clock];
    }

    method Restart(x: Item, msecs: nat)
      requires Valid() && x in timeout && timeout[x] == msecs
      modifies this`lists, this`table, this`owner, this`enrolled, this`touched, rings, rings.Repr
      ensures fresh(rings.Repr - old(rings.Repr))
      ensures Valid() && Steady() && msecs in table && owner == old(owner)[x := table[msecs]]
      ensures table[msecs] <= |old(lists)|
      ensures EntriesOf(lists) == Restarted(EntriesOf(old(lists)), table[msecs], x, clock)
    {
      hide Rings.Valid;
      hide Rings.All;
      hide Items;
      hide Kept;
      hide TouchedLast;
      hide OwnedBy;
      hide Ordered;
      hide Receptive;
      if msecs !in table {
        Insert(x, msecs);
      } else {
        TableListIsReceptive(msecs);
        var empty := rings.IsEmpty(table[msecs]);
        if empty {
          Insert(x, msecs);
        } else {
          WidenTable(table[msecs]);
          AppendTo(table[msecs], x);
        }
      }
    }

    /** Time passes. */
    method Advance(d: nat)
      requires Valid()
      modifies this`clock
      ensures Valid() && Steady() && clock == old(clock) + d
    {
      hide Rings.Valid;
      hide Rings.All;
      hide Kept;
      hide TouchedLast;
      clock := clock + d;
      forall id | 0 <= id < |lists|
        ensures ListOk(lists[id], clock, firing == Some(id))
      {
        assert ListOk(lists[id], old(clock), firing == Some(id));
      }
    }

    /** Any user code: a callback, or whatever the event loop runs between timeouts. */
    method UserCode()
      requires Valid()
      modifies this, rings, rings.Repr
      ensures fresh(rings.Repr - old(rings.Repr))
      ensures Valid() && Steady() && budget <= old(budget) && (old(OnTime()) ==> OnTime()) && offs == old(offs)
      ensures called == old(called)
      ensures firing.Some? ==>
                |lists[firing.value].entries| + budget <= |old(lists)[firing.value].entries| + old(budget)
    {
      hide Rings.Valid;
      hide Rings.All;
      hide Items;
      hide TouchedLast;
      hide OwnedBy;
      hide Kept;
      hide ListOk;
      var steps: nat := *;
      while steps > 0 && budget > 0
        invariant Valid() && Steady() && budget <= old(budget) && fresh(rings.Repr - old(rings.Repr))
        invariant (old(OnTime()) ==> OnTime()) && offs == old(offs) && called == old(called)
        invariant firing.Some? ==>
                    |lists[firing.value].entries| + budget <= |old(lists)[firing.value].entries| + old(budget)
        decreases steps
      {
        ghost var es, ts := if firing.Some? then lists[firing.value].entries else [], touched;
        OneCall();
        if firing.Some? {
          KeptChain(old(lists)[firing.value].entries, es, ts, lists[firing.value].entries, touched);
        }
        budget := budget - 1;
        steps := steps - 1;
      }
    }

    /** `first._onTimeout()` */
    method Callback(x: Item)
      requires Valid()
      modifies this, rings, rings.Repr
      ensures fresh(rings.Repr - old(rings.Repr))
      ensures Valid() && Steady() && budget <= old(budget) && (old(OnTime()) ==> OnTime()) && offs == old(offs)
      ensures called == old(called) + [x]
      ensures firing.Some? ==>
                |lists[firing.value].entries| + budget <= |old(lists)[firing.value].entries| + old(budget)
    {
      hide Rings.Valid;
      hide Rings.All;
      hide Items;
      hide TouchedLast;
      hide OwnedBy;
      hide Kept;
      hide ListOk;
      called := called + [x];
      UserCode();
    }

    method OneCall()
      requires Valid()
      modifies this, rings, rings.Repr
      ensures fresh(rings.Repr - old(rings.Repr))
      ensures Valid() && Steady() && budget == old(budget) && (old(OnTime()) ==> OnTime()) && offs == old(offs)
      ensures called == old(called)
      ensures firing.Some? ==> |lists[firing.value].entries| <= |old(lists)[firing.value].entries| + 1
    {
      hide Rings.Valid;
      hide Rings.All;
      hide Items;
      hide TouchedLast;
      hide OwnedBy;
      hide Kept;
      hide ListOk;
      var x: Item, msecs: int, d: nat := *, *, *;
      ghost var es := EntriesOf(lists);
      DroppedLengths(es, x);
      if OnTime() {
        CurrentDropped(es, x, lastActive);
      }
      if * {
        Enroll(x, msecs);
      } else if * {
        Unenroll(x);
      } else if * {
        Active(x);
        if x in timeout && timeout[x] >= 0 {
          RestartedLengths(es, table[timeout[x]], x, clock);
        }
      } else {
        Advance(d);
      }
    }

    /**
     * `list.ontimeout`: takes off, in order, the items whose time is up, and runs their callbacks. With a timeout of
     * at least 2, these are exactly the items due when it began that no earlier callback has dealt with, so
     * re-enrolling in a callback cannot keep it going.
     */
    method OnTimeout(id: ListId) returns (ghost fired: seq<Entry>)
      requires Valid() && firing == None && id < |lists| && lists[id].armed.Some? && !lists[id].closed
      modifies this, rings, rings.Repr
      ensures fresh(rings.Repr - old(rings.Repr))
      ensures Valid() && firing == None && id < |lists| && |lists| >= |old(lists)| && (old(OnTime()) ==> OnTime())
      ensures lists[id].msecs == old(lists)[id].msecs
      ensures old(OnTime()) ==> Recorded(old(offs), offs, fired, old(clock), lists[id].msecs)
      ensures called == old(called) + CallsOf(fired, handlers)
      ensures forall i :: 0 <= i < |fired| ==> Due(fired[i], old(clock), lists[id].msecs)
      ensures forall i :: 0 <= i < |lists[id].entries| ==> !Due(lists[id].entries[i], old(clock), lists[id].msecs)
      ensures lists[id].msecs >= 2 ==> Subsequence(fired, old(lists)[id].entries) && |fired| <= |old(lists)[id].entries|
      ensures lists[id].msecs >= 2 ==>
                forall e :: e in old(lists)[id].entries && Due(e, old(clock), lists[id].msecs) && e.item !in touched ==>
                              e in fired
    {
      hide Rings.Valid;
      hide Rings.All;
      hide Items;
      hide TouchedLast;
      hide OwnedBy;
      hide Kept;
      hide ListOk;
      hide Subsequence;
      hide TableOk;
      hide OwnersOk;
      hide FiringOk;
      hide Progress;
      hide Recorded;
      hide CallsOf;
      hide Current;
      ghost var q := lists[id].entries;
      var now, msecs := clock, lists[id].msecs;
      fired := [];
      Begin(id);
      ProgressStart(q);
      RecordedNone(offs, now, msecs);
      CallsOfNone(called, handlers);
      while true
        invariant fresh(rings.Repr - old(rings.Repr))
        invariant Valid() && firing == Some(id) && since == now && id < |lists| && lists[id].msecs == msecs
        invariant |lists| >= |old(lists)| && (old(OnTime()) ==> OnTime())
        invariant forall i :: 0 <= i < |fired| ==> Due(fired[i], now, msecs)
        invariant msecs >= 2 ==> Progress(q, fired, lists[id].entries, touched)
        invariant old(OnTime()) ==> Recorded(old(offs), offs, fired, now, msecs)
        invariant called == old(called) + CallsOf(fired, handlers)
        decreases |lists[id].entries| + budget
      {
        var first := rings.Peek(id);
        if first == None {
          break;
        }
        var diff := now - rings.start[first.value];
        if diff + 1 < msecs {
          NoneDue(id, now);
          OpenList(id);
          ProgressEnd(q, fired, lists[id].entries, touched, now, msecs);
          var loopTime := LoopTime();
          Rearm(id, now, diff, if loopTime < now then loopTime else now);
          return;
        }
        ghost var e, before := lists[id].entries[0], offs;
        Fire(id, first.value, q, fired);
        if old(OnTime()) {
          RecordedMore(old(offs), before, offs, fired, e, now, msecs);
        }
        CallsOfMore(old(called), fired, e, handlers);
        fired := fired + [e];
      }
      ProgressEnd(q, fired, [], touched, now, msecs);
      Finish(id, msecs);
    }

    /** `L.remove(first)`, and the callback of the item, if it has one. */
    method Fire(id: ListId, x: Item, ghost q: seq<Entry>, ghost fired: seq<Entry>)
      requires Valid() && firing == Some(id) && id < |lists| && lists[id].entries != []
      requires x == lists[id].entries[0].item && x in rings.cell && Due(lists[id].entries[0], since, lists[id].msecs)
      requires lists[id].msecs >= 2 ==> Progress(q, fired, lists[id].entries, touched)
      modifies this, rings, rings.Repr
      ensures fresh(rings.Repr - old(rings.Repr))
      ensures Valid() && firing == Some(id) && since == old(since) && |lists| >= |old(lists)|
      ensures lists[id].msecs == old(lists)[id].msecs
      ensures |lists[id].entries| + budget < |old(lists)[id].entries| + old(budget)
      ensures lists[id].msecs >= 2 ==> Progress(q, fired + [old(lists)[id].entries[0]], lists[id].entries, touched)
      ensures called == old(called) + CallsOf([old(lists)[id].entries[0]], handlers)
      ensures old(OnTime()) ==>
                OnTime() && Recorded(old(offs), offs, [old(lists)[id].entries[0]], since, lists[id].msecs)
    {
      hide Rings.Valid;
      hide Rings.All;
      hide Items;
      hide TouchedLast;
      hide Kept;
      hide Subsequence;
      hide TableOk;
      hide OwnersOk;
      hide ListsOk;
      hide OnHeap;
      hide Current;
      hide InTime;
      hide Recorded;
      ghost var es := lists[id].entries;
      if lists[id].msecs >= 2 {
        UntouchedFirst(es, touched, since);
        ProgressFire(q, fired, es, touched);
      }
      if OnTime() {
        FirstInTime(EntriesOf(lists), id, lastActive, offs, since, lists[id].msecs);
        offs := offs + [Off(x, lastActive[x], since, lists[id].msecs)];
      }
      ghost var before, es' := touched, EntriesOf(lists)[id := es[1..]];
      TakeFirst(id, x);
      assert EntriesOf(lists) == es';
      if x in handlers {
        Callback(x);
      }
      if lists[id].msecs >= 2 {
        ProgressCallback(q, fired + [es[0]], es[1..], before, lists[id].entries, touched);
      }
    }

    method Begin(id: ListId)
      requires Valid() && firing == None && id < |lists| && !lists[id].closed
      modifies this`firing, this`since, this`touched, this`lists
      ensures Valid() && firing == Some(id) && since == clock && touched == {}
      ensures lists == old(lists)[id := old(lists)[id].(armed := None)]
    {
      hide Rings.Valid;
      hide Rings.All;
      hide Items;
      hide OwnedBy;
      hide Ordered;
      hide EntriesOf;
      EntriesSame(lists, id, None, false);
      firing, since, touched := Some(id), clock, {};
      assert ListOk(lists[id], clock, false);
      lists := lists[id := lists[id].(armed := None)];
      forall m | m in table
        ensures TableEntry(m, table[m], lists, firing, {})
      {
        assert TableEntry(m, table[m], old(lists), None, {});
      }
    }

    /** `L.remove(first)` of the oldest item. */
    method TakeFirst(id: ListId, x: Item)
      requires Valid() && firing == Some(id) && id < |lists| && lists[id].entries != []
      requires x == lists[id].entries[0].item && x in rings.cell
      modifies this`lists, this`owner, rings, rings.Repr
      ensures Valid() && lists == old(lists)[id := old(lists)[id].(entries := old(lists)[id].entries[1..])]
      ensures fresh(rings.Repr - old(rings.Repr))
    {
      hide Rings.Valid;
      hide Rings.All;
      hide Items;
      hide OwnersOk;
      hide TableOk;
      hide FiringOk;
      hide Ordered;
      assert ListOk(lists[id], clock, true);
      DropOldest(lists[id].entries, clock);
      rings.Remove(x);
      DropFirstEntry(id);
      EntriesDropped(old(lists), lists, old(owner), x);
    }

    /** The oldest entry leaves. */
    method DropFirstEntry(id: ListId)
      requires ListsOk() && OwnersOk() && TableOk({}) && FiringOk()
      requires firing == Some(id) && id < |lists| && lists[id].entries != []
      modifies this`lists, this`owner
      ensures ListsOk() && OwnersOk() && TableOk({}) && FiringOk()
      ensures lists == old(lists)[id := old(lists)[id].(entries := old(lists)[id].entries[1..])]
      ensures var x := old(lists)[id].entries[0].item; x in old(owner) && old(owner)[x] == id && owner == old(owner) - {x}
    {
      hide OwnedBy;
      hide Ordered;
      hide TouchedLast;
      hide Items;
      hide Ready;
      var es := lists[id].entries;
      assert ListOk(lists[id], clock, true);
      var x := es[0].item;
      FirstFacts(es, clock, touched, since);
      OwnedChanges(owner, x, 0);
      OwnedIn(owner, x, id);
      lists := lists[id := lists[id].(entries := es[1..])];
      // assert(first !== L.peek(list))
      assert es[1..] != [] ==> es[1..][0].item != x;
      owner := owner - {x};
      forall i | 0 <= i < |lists|
        ensures OwnedBy(owner, i) == Items(lists[i].entries)
      {
        OwnedIn(old(owner), x, i);
      }
      forall m | m in table
        ensures TableEntry(m, table[m], lists, firing, {})
      {
        assert TableEntry(m, table[m], old(lists), firing, {});
      }
    }

    /** `list.start(msecs - diff)`: the watcher is armed for the oldest item that is left. */
    method Rearm(id: ListId, now: int, diff: int, loopTime: int)
      requires loopTime <= now
      requires Valid() && firing == Some(id) && id < |lists| && lists[id].entries != []
      requires diff == now - lists[id].entries[0].start
      requires !lists[id].closed
      modifies this`lists, this`firing
      ensures Valid() && firing == None && |lists| == |old(lists)|
      ensures lists == old(lists)[id := old(lists)[id].(armed := Some(loopTime + lists[id].msecs - diff))]
    {
      hide Rings.Valid;
      hide Rings.All;
      hide Items;
      hide OwnedBy;
      hide Ordered;
      assert ListOk(lists[id], clock, true);
      lists := lists[id := lists[id].(armed := Some(loopTime + lists[id].msecs - diff))];
      firing := None;
      forall m | m in table
        ensures TableEntry(m, table[m], lists, firing, {})
      {
        assert TableEntry(m, table[m], old(lists), Some(id), {});
      }
    }

    /** The list is empty: `list.close()` and `delete lists[msecs]`, whichever list is there by now. */
    method Finish(id: ListId, msecs: int)
      requires Valid() && firing == Some(id) && id < |lists| && lists[id].entries == [] && lists[id].msecs == msecs
      modifies this`lists, this`firing, this`table
      ensures Valid() && firing == None && table == old(table) - {msecs}
      ensures lists == old(lists)[id := old(lists)[id].(armed := None, closed := true)]
    {
      hide Rings.Valid;
      hide Rings.All;
      hide Items;
      hide OwnedBy;
      hide Ordered;
      Close(id);
      table := table - {msecs};
      firing := None;
      forall m | m in table
        ensures TableEntry(m, table[m], lists, firing, {})
      {
        assert TableEntry(m, old(table)[m], old(lists), Some(id), {});
      }
    }

    lemma OpenList(id: ListId)
      requires Valid() && id < |lists| && lists[id].entries != []
      ensures !lists[id].closed
    {
      assert ListOk(lists[id], clock, firing == Some(id));
    }

    lemma NoneDue(id: ListId, now: int)
      requires Valid() && id < |lists| && lists[id].entries != [] && !Due(lists[id].entries[0], now, lists[id].msecs)
      ensures forall i :: 0 <= i < |lists[id].entries| ==> !Due(lists[id].entries[i], now, lists[id].msecs)
    {
      assert ListOk(lists[id], clock, firing == Some(id));
    }
  }

  /** The test of `ontimeout`, which grants a millisecond. */
  predicate Due(e: Entry, now: int, msecs: nat) {
    now - e.start + 1 >= msecs
  }

  /** `fired`, followed by what is left untouched, are entries of the queue `q` in order; the others were touched. */
  ghost predicate Progress(q: seq<Entry>, fired: seq<Entry>, es: seq<Entry>, touched: set<Item>) {
    && Subsequence(fired + Kept(es, touched), q)
    && forall e :: e in q ==> e in fired || e in Kept(es, touched) || e.item in touched
  }

  lemma UntouchedFirst(es: seq<Entry>, touched: set<Item>, since: int)
    requires TouchedLast(es, touched, since) && es != [] && es[0].start < since
    ensures es[0].item !in touched
  {
  }

  lemma ProgressStart(q: seq<Entry>)
    ensures Progress(q, [], q, {})
  {
    KeptAll(q);
    SubsequenceSelf(q);
    assert [] + q == q;
  }

  lemma ProgressFire(q: seq<Entry>, fired: seq<Entry>, es: seq<Entry>, touched: set<Item>)
    requires Progress(q, fired, es, touched) && es != [] && es[0].item !in touched
    ensures Progress(q, fired + [es[0]], es[1..], touched)
  {
    assert Kept(es, touched) == [es[0]] + Kept(es[1..], touched);
    assert fired + [es[0]] + Kept(es[1..], touched) == fired + Kept(es, touched);
  }

  lemma ProgressCallback(q: seq<Entry>, fired: seq<Entry>, es: seq<Entry>, t1: set<Item>, es': seq<Entry>,
                         t2: set<Item>)
    requires Progress(q, fired, es, t1) && t1 <= t2 && Kept(es', t2) == Kept(es, t2)
    ensures Progress(q, fired, es', t2)
  {
    hide Kept;
    KeptTwice(es, t1, t2);
    assert t1 + t2 == t2;
    SubsequenceKept(fired, Kept(es, t1), q, t2);
    KeptMembers(es, t1);
    KeptMembers(es, t2);
  }

  lemma ProgressEnd(q: seq<Entry>, fired: seq<Entry>, es: seq<Entry>, touched: set<Item>, now: int, msecs: nat)
    requires msecs >= 2 ==> Progress(q, fired, es, touched)
    requires forall i :: 0 <= i < |es| ==> !Due(es[i], now, msecs)
    ensures msecs >= 2 ==> Subsequence(fired, q) && |fired| <= |q|
    ensures msecs >= 2 ==> forall e :: e in q && Due(e, now, msecs) && e.item !in touched ==> e in fired
  {
    if msecs >= 2 {
      KeptMembers(es, touched);
      SubsequencePrefix(fired, Kept(es, touched), q);
      SubsequenceFacts(fired, q);
    }
  }

  lemma {:induction false} SubsequencePrefix(f: seq<Entry>, u: seq<Entry>, q: seq<Entry>)
    requires Subsequence(f + u, q)
    ensures Subsequence(f, q)
    decreases |q|
  {
    if f != [] {
      assert (f + u)[1..] == f[1..] + u;
      if f[0] == q[0] && Subsequence(f[1..] + u, q[1..]) {
        SubsequencePrefix(f[1..], u, q[1..]);
      } else {
        SubsequencePrefix(f, u, q[1..]);
      }
    }
  }

  lemma KeptChain(e0: seq<Entry>, e1: seq<Entry>, t1: set<Item>, e2: seq<Entry>, t2: set<Item>)
    requires Kept(e1, t1) == Kept(e0, t1) && Kept(e2, t2) == Kept(e1, t2) && t1 <= t2
    ensures Kept(e2, t2) == Kept(e0, t2)
  {
    KeptTwice(e1, t1, t2);
    KeptTwice(e0, t1, t2);
    assert t1 + t2 == t2;
  }

  /** Every run of the event loop: user code, passing time and timeouts; no watcher is ever late for its items. */
  method AnyRun(clock: int, steps: nat, handlers: set<Item>) returns (t: Timers)
    ensures fresh(t) && t.Valid() && t.firing == None
    ensures forall id :: 0 <= id < |t.lists| ==> Ordered(t.lists[id].entries, t.clock) && Ready(t.lists[id])
    ensures InTime(t.offs)
  {
    hide Ordered;
    hide Ready;
    hide Items;
    t := new Timers(clock, 0, handlers);
    for k := 0 to steps
      invariant fresh(t) && fresh(t.rings) && fresh(t.rings.Repr) && t.Valid() && t.firing == None && t.OnTime()
    {
      var id: nat, calls: nat := *, *;
      t.budget := if calls > 0 then calls else 0;
      if * {
        t.UserCode();
      } else if id < |t.lists| && t.lists[id].armed.Some? && !t.lists[id].closed {
        ghost var fired := t.OnTimeout(id);
      }
    }
  }
}
