/** The linked lists of lib/timers.js on one heap: what the operations of lib/_linklist.js do to all of them. */
module TimerRings {
  import opened Common
  import opened LinkList
  import opened TimerLists

  /** The link fields of the items, in order. */
  function Cells(cell: map<Item, Node>, xs: seq<Item>): (r: seq<Node>)
    requires forall x :: x in xs ==> x in cell
    ensures |r| == |xs| && forall k :: 0 <= k < |xs| ==> r[k] == cell[xs[k]]
  {
    seq(|xs|, k requires 0 <= k < |xs| => cell[xs[k]])
  }

  /** A list object and its items: the nodes of a ring. */
  function ListNodes(head: Node, cell: map<Item, Node>, xs: seq<Item>): (r: seq<Node>)
    requires forall x :: x in xs ==> x in cell
  {
    [head] + Cells(cell, xs)
  }

  /** The entries of the items, in order. */
  function Entries(start: map<Item, int>, xs: seq<Item>): (r: seq<Entry>)
    requires forall x :: x in xs ==> x in start
    ensures |r| == |xs| && forall k :: 0 <= k < |xs| ==> r[k] == Entry(xs[k], start[xs[k]])
  {
    seq(|xs|, k requires 0 <= k < |xs| => Entry(xs[k], start[xs[k]]))
  }

  function Minus(xs: seq<Item>, x: Item): (r: seq<Item>)
    ensures forall y :: y in r <==> y in xs && y != x
    ensures |r| <= |xs|
  {
    if xs == [] then []
    else
      assert xs == [xs[0]] + xs[1..];
      if xs[0] == x then Minus(xs[1..], x) else [xs[0]] + Minus(xs[1..], x)
  }

  lemma {:induction false} MinusAt(xs: seq<Item>, k: nat)
    requires Distinct(xs) && k < |xs|
    ensures Minus(xs, xs[k]) == Without(xs, k)
  {
    if k == 0 {
      MinusNone(xs[1..], xs[0]);
    } else {
      MinusAt(xs[1..], k - 1);
    }
  }

  lemma {:induction false} MinusNone(xs: seq<Item>, x: Item)
    requires x !in xs
    ensures Minus(xs, x) == xs
  {
    if xs != [] {
      MinusNone(xs[1..], x);
    }
  }

  lemma IndexIs(ring: seq<Node>, k: nat)
    requires Distinct(ring) && k < |ring|
    ensures ring[k] in ring && IndexIn(ring, ring[k]) == k
  {
  }

  lemma RingIsDistinct(ring: seq<Node>)
    requires Ring(ring)
    ensures Distinct(ring)
  {
  }

  lemma NoLinks(item: Node)
    requires Detached(item)
    ensures item.idleNext == null && item.idlePrev == null
  {
  }

  /** A ring none of whose nodes has changed is still one. */
  twostate lemma RingStays(ring: seq<Node>)
    requires old(Ring(ring)) && forall n :: n in ring ==> n.idleNext == old(n.idleNext) && n.idlePrev == old(n.idlePrev)
    ensures Ring(ring)
  {
    forall k | 0 <= k < |ring|
      ensures Linked(ring[k], ring[After(k, |ring|)])
    {
      assert old(Linked(ring[k], ring[After(k, |ring|)]));
    }
  }

  lemma CellsDistinct(head: Node, cell: map<Item, Node>, xs: seq<Item>)
    requires (forall y :: y in xs ==> y in cell) && Distinct([head] + Cells(cell, xs))
    ensures Distinct(xs)
  {
    var ring := [head] + Cells(cell, xs);
    forall i, j | 0 <= i < j < |xs|
      ensures xs[i] != xs[j]
    {
      assert ring[i + 1] != ring[j + 1];
    }
  }

  lemma PlusCell(head: Node, cell: map<Item, Node>, xs: seq<Item>, x: Item)
    requires (forall y :: y in xs ==> y in cell) && x in cell
    ensures ListNodes(head, cell, xs + [x]) == ListNodes(head, cell, xs) + [cell[x]]
  {
  }

  lemma WithoutCell(head: Node, cell: map<Item, Node>, xs: seq<Item>, k: nat)
    requires (forall y :: y in xs ==> y in cell) && k < |xs|
    ensures Without([head] + Cells(cell, xs), k + 1) == [head] + Cells(cell, Without(xs, k))
  {
  }

  /** Taking a node out of a ring is taking its item out of the items. */
  lemma RingMinus(head: Node, cell: map<Item, Node>, xs: seq<Item>, x: Item)
    requires (forall y :: y in xs ==> y in cell) && x in xs
    requires Distinct([head] + Cells(cell, xs))
    ensures var ring := [head] + Cells(cell, xs);
              cell[x] in ring && Without(ring, IndexIn(ring, cell[x])) == [head] + Cells(cell, Minus(xs, x))
  {
    hide Minus;
    hide Without;
    hide IndexIn;
    hide Distinct;
    var k :| 0 <= k < |xs| && xs[k] == x;
    var ring := [head] + Cells(cell, xs);
    assert ring[k + 1] == cell[x];
    IndexIs(ring, k + 1);
    CellsDistinct(head, cell, xs);
    MinusAt(xs, k);
    WithoutCell(head, cell, xs, k);
  }

  lemma EntriesFirst(start: map<Item, int>, x: Item, xs: seq<Item>)
    requires (forall y :: y in xs ==> y in start) && x in start
    ensures forall y :: y in [x] + xs ==> y in start
    ensures Entries(start, [x] + xs) == [Entry(x, start[x])] + Entries(start, xs)
  {
  }

  lemma MinusFirst(xs: seq<Item>, x: Item)
    requires xs != []
    ensures Minus(xs, x) == if xs[0] == x then Minus(xs[1..], x) else [xs[0]] + Minus(xs[1..], x)
  {
  }

  lemma {:induction false} EntriesMinus(start: map<Item, int>, xs: seq<Item>, x: Item, now: int)
    requires forall y :: y in xs ==> y in start
    ensures Entries(start[x := now], Minus(xs, x)) == Drop(Entries(start, xs), x)
  {
    if xs == [] {
      assert Entries(start[x := now], Minus(xs, x)) == [];
    } else {
      hide Drop;
      hide Minus;
      hide Entries;
      var rest := xs[1..];
      EntriesMinus(start, rest, x, now);
      MinusFirst(xs, x);
      assert xs == [xs[0]] + rest;
      EntriesFirst(start, xs[0], rest);
      DropFirst(Entries(start, xs), x);
      assert Entries(start, xs)[1..] == Entries(start, rest);
      if xs[0] != x {
        EntriesFirst(start[x := now], xs[0], Minus(rest, x));
      }
    }
  }

  lemma EntriesPush(start: map<Item, int>, xs: seq<Item>, x: Item)
    requires (forall y :: y in xs ==> y in start) && x in start
    ensures Entries(start, xs + [x]) == Entries(start, xs) + [Entry(x, start[x])]
  {
  }

  /** The entries of all lists. */
  function AllEntries(start: map<Item, int>, items: seq<seq<Item>>): (r: seq<seq<Entry>>)
    requires forall i, y :: 0 <= i < |items| && y in items[i] ==> y in start
    ensures |r| == |items| && forall i :: 0 <= i < |items| ==> r[i] == Entries(start, items[i])
  {
    seq(|items|, i requires 0 <= i < |items| => Entries(start, items[i]))
  }

  /** `owner` says which list an item is in. */
  ghost predicate InLists(items: seq<seq<Item>>, owner: map<Item, nat>) {
    && (forall i, x :: 0 <= i < |items| && x in items[i] ==> x in owner && owner[x] == i)
    && (forall x :: x in owner ==> owner[x] < |items| && x in items[owner[x]])
  }

  function WithoutItem(items: seq<seq<Item>>, owner: map<Item, nat>, x: Item): seq<seq<Item>> {
    if x in owner && owner[x] < |items| then items[owner[x] := Minus(items[owner[x]], x)] else items
  }

  function DroppedFrom(es: seq<seq<Entry>>, owner: map<Item, nat>, x: Item): seq<seq<Entry>> {
    if x in owner && owner[x] < |es| then es[owner[x] := Drop(es[owner[x]], x)] else es
  }

  lemma InListsMinus(items: seq<seq<Item>>, owner: map<Item, nat>, x: Item)
    requires InLists(items, owner)
    ensures InLists(WithoutItem(items, owner, x), owner - {x})
  {
    hide Minus;
    assert x !in owner ==> owner - {x} == owner;
  }

  lemma InListsNew(items: seq<seq<Item>>, owner: map<Item, nat>)
    requires InLists(items, owner)
    ensures InLists(items + [[]], owner)
  {
  }

  lemma InListsPlus(items: seq<seq<Item>>, owner: map<Item, nat>, i: nat, x: Item)
    requires InLists(items, owner) && i < |items| && x !in owner
    ensures InLists(items[i := items[i] + [x]], owner[x := i])
  {
  }

  lemma ListOfNone(list: Node, cell: map<Item, Node>)
    ensures ListNodes(list, cell, []) == [list]
  {
  }

  method EmptyList(id: nat) returns (list: Node)
    ensures fresh(list) && Ring([list])
  {
    list := new Node(id);
    LinkList.Init(list);
  }

  /** Another item's link fields are not in the list. */
  lemma ListStays(head: Node, cell: map<Item, Node>, xs: seq<Item>, x: Item, n: Node)
    requires (forall y :: y in xs ==> y in cell) && x !in cell
    ensures ListNodes(head, cell[x := n], xs) == ListNodes(head, cell, xs)
  {
  }

  /** An item with a new time of becoming idle leaves its list. */
  lemma AllMinus(start: map<Item, int>, items: seq<seq<Item>>, owner: map<Item, nat>, x: Item, now: int)
    requires InLists(items, owner) && forall y :: y in owner ==> y in start
    ensures forall i, y :: 0 <= i < |items| && y in items[i] ==> y in start
    ensures forall i, y :: 0 <= i < |WithoutItem(items, owner, x)| && y in WithoutItem(items, owner, x)[i] ==>
              y in start && y != x
    ensures AllEntries(start[x := now], WithoutItem(items, owner, x)) == DroppedFrom(AllEntries(start, items), owner, x)
  {
    hide Drop;
    hide Minus;
    forall i | 0 <= i < |items|
      ensures Entries(start[x := now], WithoutItem(items, owner, x)[i]) == DroppedFrom(AllEntries(start, items), owner, x)[i]
    {
      if x in owner && i == owner[x] {
        EntriesMinus(start, items[i], x, now);
      }
    }
  }

  class Rings {
    /** The list objects. */
    var heads: seq<Node>
    /** `item._idleNext` and `item._idlePrev` */
    var cell: map<Item, Node>
    /** `item._idleStart` */
    var start: map<Item, int>

    /** The items of each list, oldest first; the list an item is in; the items linked only to themselves. */
    ghost var items: seq<seq<Item>>
    ghost var owner: map<Item, nat>
    ghost var alone: set<Item>
    ghost var Repr: set<Node>

    ghost predicate Owned()
      reads this`items, this`owner
    {
      InLists(items, owner)
    }

    ghost predicate Known()
      reads this`heads, this`cell, this`owner, this`alone, this`Repr
    {
      && (forall x :: x in cell ==> cell[x].id == x && cell[x] in Repr && cell[x] !in heads)
      && (forall h :: h in heads ==> h in Repr) && Distinct(heads)
      && (forall x :: x in owner ==> x in cell && x !in alone)
      && (forall x :: x in alone ==> x in cell)
    }

    ghost predicate Shape()
      reads this`heads, this`cell, this`items, this`owner, this`alone, this`Repr
    {
      Owned() && Known() && |heads| == |items|
    }

    /** The list and its items. */
    ghost function Nodes(i: nat): (r: seq<Node>)
      requires Shape() && i < |heads|
      reads this`heads, this`cell, this`items, this`owner, this`alone, this`Repr
      ensures forall n :: n in r ==> n in Repr
    {
      ListNodes(heads[i], cell, items[i])
    }

    ghost predicate Linkage()
      requires Shape()
      reads this`heads, this`cell, this`items, this`owner, this`alone, this`Repr, Repr
    {
      && (forall i :: 0 <= i < |heads| ==> Ring(Nodes(i)))
      && (forall x :: x in cell && x !in owner ==> if x in alone then Ring([cell[x]]) else Detached(cell[x]))
    }

    ghost predicate Started()
      reads this`owner, this`start
    {
      forall x :: x in owner ==> x in start
    }

    lemma StartedIn(i: nat)
      requires Shape() && Started() && i < |heads|
      ensures forall y :: y in items[i] ==> y in start
    {
    }

    /** What the lists stand for. */
    ghost function All(): (r: seq<seq<Entry>>)
      requires Owned() && Started()
      reads this`items, this`owner, this`start
      ensures |r| == |items|
    {
      AllEntries(start, items)
    }

    ghost predicate Valid()
      reads this, Repr
    {
      Shape() && Linkage() && Started()
    }

    lemma NodesAt(i: nat)
      requires Shape() && i < |heads|
      ensures |Nodes(i)| == |items[i]| + 1 && Nodes(i)[0] == heads[i] && heads[i] in Nodes(i)
      ensures forall k :: 0 <= k < |items[i]| ==> Nodes(i)[k + 1].id == items[i][k]
    {
    }

    lemma ListInCell(i: nat)
      requires Shape() && i < |heads|
      ensures forall y :: y in items[i] ==> y in cell
      ensures Nodes(i) == ListNodes(heads[i], cell, items[i])
    {
      hide ListNodes;
    }

    lemma AllInCell()
      requires Shape()
      ensures forall i, y :: 0 <= i < |heads| && y in items[i] ==> y in cell
    {
    }

    lemma InNodes(i: nat, n: Node)
      requires Shape() && i < |heads| && n in Nodes(i)
      ensures n == heads[i] || (n !in heads && n.id in items[i])
    {
    }

    lemma Apart(i: nat, j: nat)
      requires Shape() && i < |heads| && j < |heads| && i != j
      ensures forall n :: n in Nodes(i) ==> n !in Nodes(j)
    {
      forall n | n in Nodes(i)
        ensures n !in Nodes(j)
      {
        InNodes(i, n);
        if n in Nodes(j) {
          InNodes(j, n);
        }
      }
    }

    lemma OutOf(i: nat, x: Item)
      requires Shape() && i < |heads| && x in cell
      ensures cell[x] in Nodes(i) <==> x in owner && owner[x] == i
    {
      if cell[x] in Nodes(i) {
        assert x in items[i];
      }
      if x in owner && owner[x] == i {
        var k :| 0 <= k < |items[i]| && items[i][k] == x;
        assert Nodes(i)[k + 1] == cell[x];
      }
    }

    constructor ()
      ensures Valid() && heads == [] && owner == map[] && alone == {} && items == [] && fresh(Repr)
    {
      heads, cell, start, items, owner, alone, Repr := [], map[], map[], [], map[], {}, {};
    }

    /** The ring an item is in; none if it is detached. */
    ghost function RingOf(x: Item): seq<Node>
      requires Shape() && x in cell
      reads this
    {
      if x in owner then Nodes(owner[x]) else if x in alone then [cell[x]] else []
    }

    /** The lists other than the one of `x`, and the items other than `x`, are as they should be. */
    ghost predicate Others(x: Item)
      requires Shape()
      reads this, Repr
    {
      && (forall i :: 0 <= i < |heads| && (x in owner ==> i != owner[x]) ==> Ring(Nodes(i)))
      && (forall y :: y in cell && y !in owner && y != x ==> if y in alone then Ring([cell[y]]) else Detached(cell[y]))
    }

    lemma OwnerBound(x: Item)
      requires Shape() && x in owner
      ensures owner[x] < |heads| == |items|
    {
    }

    /** `L.remove(item)` */
    method Remove(x: Item)
      requires Valid() && x in cell
      modifies this`items, this`owner, this`alone, Repr
      ensures Valid() && owner == old(owner) - {x} && alone == old(alone) - {x}
      ensures x in old(owner) ==> alone == old(alone)
      ensures All() == DroppedFrom(old(All()), old(owner), x)
      ensures items == WithoutItem(old(items), old(owner), x)
    {
      hide Ring;
      hide Detached;
      hide Minus;
      hide Cells;
      hide InLists;
      hide ListNodes;
      RemoveLinks(x);
      label linked:
      InListsMinus(items, owner, x);
      AllMinus(start, items, owner, x, if x in start then start[x] else 0);
      if x in owner {
        OwnerBound(x);
        assert start[x := start[x]] == start;
      }
      items := WithoutItem(items, owner, x);
      owner, alone := owner - {x}, alone - {x};
      assert Shape();
      forall i | 0 <= i < |heads|
        ensures Ring(Nodes(i))
      {
        if x !in old(owner) || i != old(owner)[x] {
          assert old@linked(Ring(Nodes(i)));
        }
      }
    }

    lemma RingOfFacts(x: Item)
      requires Valid() && x in cell
      ensures var ring := RingOf(x);
                && (if ring == [] then Detached(cell[x]) else Ring(ring) && cell[x] in ring)
                && (x in owner ==> |ring| > 1)
                && (forall n :: n in ring ==> n in Repr) && cell[x] in Repr
    {
      hide Ring;
      hide Detached;
      hide Cells;
      if x in owner {
        OutOf(owner[x], x);
      }
    }

    lemma RingOfMinus(x: Item)
      requires Valid() && x in owner
      ensures var ring := RingOf(x);
                cell[x] in ring &&
                Without(ring, IndexIn(ring, cell[x])) == [heads[owner[x]]] + Cells(cell, Minus(items[owner[x]], x))
    {
      hide Ring;
      hide Minus;
      hide Without;
      hide IndexIn;
      hide Cells;
      assert Ring(Nodes(owner[x]));
      RingIsDistinct(RingOf(x));
      RingMinus(heads[owner[x]], cell, items[owner[x]], x);
    }

    /** Nothing else is in the ring of `x`. */
    lemma RingOfApart(x: Item)
      requires Shape() && x in cell
      ensures forall i, n :: 0 <= i < |heads| && (x in owner ==> i != owner[x]) && n in Nodes(i) ==>
                n !in RingOf(x) && n != cell[x]
      ensures forall y :: y in cell && y !in owner && y != x ==> cell[y] !in RingOf(x) && cell[y] != cell[x]
    {
      hide Nodes;
      forall i | 0 <= i < |heads| && (x in owner ==> i != owner[x])
        ensures forall n :: n in Nodes(i) ==> n !in RingOf(x) && n != cell[x]
      {
        if x in owner {
          Apart(i, owner[x]);
        }
        OutOf(i, x);
      }
      forall y | y in cell && y !in owner && y != x
        ensures cell[y] !in RingOf(x) && cell[y] != cell[x]
      {
        if x in owner {
          OutOf(owner[x], y);
        }
      }
    }

    /** Nothing else is in list `i`. */
    lemma ListApart(i: nat)
      requires Shape() && i < |heads|
      ensures forall j, n :: 0 <= j < |heads| && j != i && n in Nodes(j) ==> n !in Nodes(i)
      ensures forall y :: y in cell && y !in owner ==> cell[y] !in Nodes(i)
    {
      hide Nodes;
      forall j | 0 <= j < |heads| && j != i
        ensures forall n :: n in Nodes(j) ==> n !in Nodes(i)
      {
        Apart(j, i);
      }
      forall y | y in cell && y !in owner
        ensures cell[y] !in Nodes(i)
      {
        OutOf(i, y);
      }
    }

    method RemoveLinks(x: Item)
      requires Valid() && x in cell
      modifies Repr
      ensures Others(x) && Detached(cell[x])
      ensures x in owner ==> Ring(ListNodes(heads[owner[x]], cell, Minus(items[owner[x]], x)))
    {
      hide Ring;
      hide Detached;
      hide Owned;
      hide Known;
      hide Nodes;
      hide InLists;
      hide RingOf;
      hide Minus;
      hide Without;
      hide IndexIn;
      hide Cells;
      ghost var ring := RingOf(x);
      RingOfFacts(x);
      RingOfApart(x);
      if x in owner {
        RingOfMinus(x);
      }
      if ring != [] {
        Neighbours(ring, cell[x]);
      } else {
        NoLinks(cell[x]);
      }
      assert Others(x);
      LinkList.Remove(cell[x], ring);
      forall i | 0 <= i < |heads| && (x in owner ==> i != owner[x])
        ensures Ring(Nodes(i))
      {
        RingStays(Nodes(i));
      }
    }

    /** The first time an object is met: its link fields are not set. */
    method Meet(x: Item)
      requires Valid()
      modifies this`cell, this`Repr
      ensures Valid() && x in cell && All() == old(All()) && fresh(Repr - old(Repr))
    {
      hide Ring;
      hide Detached;
      hide Cells;
      hide InLists;
      if x !in cell {
        var n := new Node(x);
        assert Linkage();
        AllInCell();
        label made:
        cell, Repr := cell[x := n], Repr + {n};
        assert Shape();
        forall i | 0 <= i < |heads|
          ensures Ring(Nodes(i))
        {
          assert old@made(Ring(Nodes(i)));
          ListStays(heads[i], old(cell), items[i], x, n);
        }
      }
    }

    /** `item._idleNext`, as a test. */
    method IsLinked(x: Item) returns (linked: bool)
      requires Valid()
      ensures linked == (x in owner || x in alone)
    {
      hide Ring;
      hide Cells;
      hide InLists;
      if x !in cell {
        return false;
      }
      linked := cell[x].idleNext != null;
      RingOfFacts(x);
      ghost var ring := RingOf(x);
      if ring != [] {
        Neighbours(ring, cell[x]);
      }
    }

    /** `L.init(item)` */
    method InitItem(x: Item)
      requires Valid() && x in cell && x !in owner
      modifies this`alone, Repr
      ensures Valid() && alone == old(alone) + {x} && All() == old(All())
    {
      hide Ring;
      hide Detached;
      hide Cells;
      hide InLists;
      hide ListNodes;
      InitLinks(x);
      label linked:
      alone := alone + {x};
      assert Shape();
      forall i | 0 <= i < |heads|
        ensures Ring(Nodes(i))
      {
        assert old@linked(Ring(Nodes(i)));
      }
    }

    method InitLinks(x: Item)
      requires Valid() && x in cell && x !in owner
      modifies Repr
      ensures Others(x) && Ring([cell[x]])
    {
      hide Ring;
      hide Detached;
      hide Owned;
      hide Known;
      hide Nodes;
      hide InLists;
      hide RingOf;
      hide Cells;
      RingOfFacts(x);
      RingOfApart(x);
      assert Others(x);
      LinkList.Init(cell[x]);
      forall i | 0 <= i < |heads|
        ensures Ring(Nodes(i))
      {
        OutOf(i, x);
        RingStays(Nodes(i));
      }
    }

    /** `new Timer()` and `L.init(list)` */
    method NewList()
      requires Valid()
      modifies this`heads, this`items, this`Repr
      ensures Valid() && fresh(Repr - old(Repr)) && heads != [] && heads[..|heads| - 1] == old(heads)
      ensures items == old(items) + [[]] && All() == old(All()) + [[]]
    {
      hide Ring;
      hide Detached;
      hide Cells;
      hide InLists;
      hide ListNodes;
      var list := EmptyList(|heads|);
      assert Linkage();
      label linked:
      InListsNew(items, owner);
      ListOfNone(list, cell);
      heads, items, Repr := heads + [list], items + [[]], Repr + {list};
      assert Shape();
      forall i | 0 <= i < |heads|
        ensures Ring(Nodes(i))
      {
        if i < |old(heads)| {
          assert old@linked(Ring(Nodes(i)));
        }
      }
    }

    /** `L.peek(list)` */
    method Peek(i: nat) returns (first: Option<Item>)
      requires Valid() && i < |All()|
      ensures first == if All()[i] == [] then None else Some(All()[i][0].item)
      ensures first.Some? ==> first.value in cell && first.value in start && start[first.value] == All()[i][0].start
    {
      hide Ring;
      hide Detached;
      hide InLists;
      NodesAt(i);
      StartedIn(i);
      ListInCell(i);
      var node := LinkList.Peek(heads[i], Nodes(i));
      if node == null {
        return None;
      }
      return Some(node.id);
    }

    /** `L.isEmpty(list)` */
    method IsEmpty(i: nat) returns (empty: bool)
      requires Valid() && i < |All()|
      ensures empty == (All()[i] == [])
    {
      hide Ring;
      hide Detached;
      hide InLists;
      NodesAt(i);
      empty := LinkList.IsEmpty(heads[i], Nodes(i));
    }

    /** `item._idleStart = now`, and `L.append(list, item)` */
    method Append(i: nat, x: Item, now: int)
      requires Valid() && i < |All()| && x in cell
      modifies this`start, this`items, this`owner, this`alone, Repr
      ensures Valid() && start == old(start)[x := now] && owner == old(owner)[x := i] && alone == old(alone) - {x}
      ensures var rest := DroppedFrom(old(All()), old(owner), x);
                i < |rest| && All() == rest[i := rest[i] + [Entry(x, now)]]
    {
      hide Ring;
      hide Detached;
      hide Minus;
      hide Cells;
      hide InLists;
      hide Nodes;
      AllMinus(start, items, owner, x, now);
      start := start[x := now];
      Remove(x);
      assert All() == DroppedFrom(old(All()), old(owner), x);
      Link(i, x);
    }

    /** The rest of `append`. */
    method Link(i: nat, x: Item)
      requires Valid() && i < |heads| && x in cell && x in start && x !in owner && x !in alone
      modifies this`items, this`owner, Repr
      ensures Valid() && owner == old(owner)[x := i] && items == old(items)[i := old(items)[i] + [x]]
      ensures All() == old(All())[i := old(All())[i] + [Entry(x, start[x])]]
    {
      hide Ring;
      hide Detached;
      hide Cells;
      hide InLists;
      LinkNodes(i, x);
      label linked:
      StartedIn(i);
      EntriesPush(start, items[i], x);
      InListsPlus(items, owner, i, x);
      items, owner := items[i := items[i] + [x]], owner[x := i];
      forall j | 0 <= j < |heads|
        ensures Ring(Nodes(j))
      {
        if j != i {
          assert old@linked(Ring(Nodes(j)));
        }
      }
    }

    method LinkNodes(i: nat, x: Item)
      requires Valid() && i < |heads| && x in cell && x !in owner && x !in alone
      modifies Repr
      ensures forall j :: 0 <= j < |heads| && j != i ==> Ring(Nodes(j))
      ensures forall y :: y in cell && y !in owner && y != x ==>
                if y in alone then Ring([cell[y]]) else Detached(cell[y])
      ensures Ring(ListNodes(heads[i], cell, items[i] + [x]))
    {
      hide Ring;
      hide Detached;
      hide Cells;
      hide InLists;
      hide Nodes;
      hide Known;
      NodesAt(i);
      Neighbours(Nodes(i), heads[i]);
      RingOfFacts(x);
      RingOfApart(x);
      ListApart(i);
      ListInCell(i);
      assert Others(x);
      LinkList.Link(heads[i], cell[x], Nodes(i));
      PlusCell(heads[i], cell, items[i], x);
      forall j | 0 <= j < |heads| && j != i
        ensures Ring(Nodes(j))
      {
        RingStays(Nodes(j));
      }
    }
  }
}
