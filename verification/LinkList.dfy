/** The intrusive circular doubly linked list of lib/_linklist.js. */
module LinkList {
  import opened Common

  class Node {
    /** Which object it is. */
    const id: nat
    var idleNext: Node?
    var idlePrev: Node?

    constructor (id: nat)
      ensures Detached(this) && this.id == id
    {
      this.id, idleNext, idlePrev := id, null, null;
    }
  }

  /** In no list: both pointers are null. */
  ghost predicate Detached(item: Node)
    reads item
  {
    item.idleNext == null && item.idlePrev == null
  }

  function After(k: nat, n: nat): nat
    requires k < n
  {
    if k + 1 == n then 0 else k + 1
  }

  /** `b` follows `a`: oldest first along `_idlePrev`. */
  ghost predicate Linked(a: Node, b: Node)
    reads a, b
  {
    a.idlePrev == b && b.idleNext == a
  }

  /**
   * The nodes of a ring, from the list head on: `ring[0]` is the list, `ring[1]` its oldest item and the last
   * one its newest.
   */
  ghost predicate Ring(ring: seq<Node>)
    reads ring
  {
    && ring != [] && Distinct(ring)
    && forall k :: 0 <= k < |ring| ==> Linked(ring[k], ring[After(k, |ring|)])
  }

  ghost function IndexIn(ring: seq<Node>, item: Node): (k: nat)
    requires item in ring
    ensures k < |ring| && ring[k] == item
  {
    if ring[0] == item then 0 else 1 + IndexIn(ring[1..], item)
  }

  /** `init`: a node linked to itself, which is an empty list. */
  method Init(list: Node)
    modifies list
    ensures Ring([list])
  {
    list.idleNext := list;
    list.idlePrev := list;
  }

  /** `peek`: the oldest item, or null. */
  method Peek(list: Node, ghost ring: seq<Node>) returns (first: Node?)
    requires Ring(ring) && ring[0] == list
    ensures first == if |ring| == 1 then null else ring[1]
  {
    assert Linked(ring[0], ring[After(0, |ring|)]);
    if list.idlePrev == list {
      return null;
    }
    return list.idlePrev;
  }

  method IsEmpty(list: Node, ghost ring: seq<Node>) returns (empty: bool)
    requires Ring(ring) && ring[0] == list
    ensures empty == (|ring| == 1)
  {
    ghost var newest := ring[|ring| - 1];
    assert Linked(newest, ring[After(|ring| - 1, |ring|)]);
    empty := list.idleNext == list;
  }

  /**
   * `remove`: safe on a detached node, on a node linked to itself, and in a list, which it closes up.
   * Only the node and its two neighbours change, so no other list is touched.
   */
  method Remove(item: Node, ghost ring: seq<Node>)
    requires if ring == [] then Detached(item) else Ring(ring) && item in ring
    modifies item, item.idleNext, item.idlePrev
    ensures Detached(item)
    ensures |ring| > 1 ==> Ring(Without(ring, IndexIn(ring, item)))
  {
    ghost var n := |ring|;
    ghost var k := if ring == [] then 0 else IndexIn(ring, item);
    if ring != [] {
      assert Linked(ring[k], ring[After(k, n)]);
      assert Linked(ring[Before(k, n)], ring[After(Before(k, n), n)]);
    }
    Unlink(item);
    if n > 1 {
      ghost var w := Without(ring, k);
      WithoutAt(ring, k);
      forall j | 0 <= j < |w|
        ensures Linked(w[j], w[After(j, |w|)])
      {
        ghost var i := if j < k then j else j + 1;
        assert old(Linked(ring[i], ring[After(i, n)]));
      }
    }
  }

  /** What follows a node once node `k` is taken out. */
  lemma WithoutAt(ring: seq<Node>, k: nat)
    requires k < |ring| && |ring| > 1
    ensures var w := Without(ring, k);
              forall j :: 0 <= j < |w| ==>
                var i := if j < k then j else j + 1;
                && w[j] == ring[i]
                && w[After(j, |w|)] == ring[After(if After(i, |ring|) == k then k else i, |ring|)]
  {
  }

  function Before(k: nat, n: nat): nat
    requires k < n
  {
    if k == 0 then n - 1 else k - 1
  }

  /** The body of `remove`: the neighbours, if any, are linked to each other. */
  method Unlink(item: Node)
    modifies item, item.idleNext, item.idlePrev
    ensures Detached(item)
    ensures var next, prev := old(item.idleNext), old(item.idlePrev);
            && (next != null && next != item ==> next.idlePrev == prev)
            && (prev != null && prev != item ==> prev.idleNext == next)
            && (next != null && next != item && next != prev ==> next.idleNext == old(next.idleNext))
            && (prev != null && prev != item && next != prev ==> prev.idlePrev == old(prev.idlePrev))
  {
    if item.idleNext != null {
      item.idleNext.idlePrev := item.idlePrev;
    }
    if item.idlePrev != null {
      item.idlePrev.idleNext := item.idleNext;
    }
    item.idleNext := null;
    item.idlePrev := null;
  }

  /** `shift`: takes the oldest item; on an empty list it detaches and returns the list itself. */
  method Shift(list: Node, ghost ring: seq<Node>) returns (first: Node)
    requires Ring(ring) && ring[0] == list
    modifies ring
    ensures |ring| > 1 ==> first == ring[1] && Detached(first) && Ring([list] + ring[2..])
    ensures |ring| == 1 ==> first == list && Detached(list)
  {
    assert Linked(ring[0], ring[After(0, |ring|)]);
    assert Linked(ring[Before(0, |ring|)], ring[0]) by {
      assert Linked(ring[Before(0, |ring|)], ring[After(Before(0, |ring|), |ring|)]);
    }
    first := list.idlePrev;
    Neighbours(ring, first);
    Remove(first, ring);
    if |ring| > 1 {
      assert IndexIn(ring, first) == 1;
      assert Without(ring, 1) == [list] + ring[2..];
    }
  }

  /** The nodes next to a node of a ring are in the ring. */
  lemma Neighbours(ring: seq<Node>, item: Node)
    requires Ring(ring) && item in ring
    ensures item.idleNext in ring && item.idlePrev in ring && item.idleNext != null && item.idlePrev != null
  {
    var k, n := IndexIn(ring, item), |ring|;
    assert Linked(ring[k], ring[After(k, n)]);
    assert Linked(ring[Before(k, n)], ring[After(Before(k, n), n)]);
  }

  /** The ring of `list` once `item` is taken out of it. */
  ghost function Rest(ring: seq<Node>, item: Node): seq<Node> {
    if item in ring then Without(ring, IndexIn(ring, item)) else ring
  }

  /**
   * `append`: the item leaves whatever ring it is in (`from`, empty if it is detached; possibly the same list) and
   * becomes the newest of `list`.
   */
  method Append(list: Node, item: Node, ghost ring: seq<Node>, ghost from: seq<Node>)
    requires Ring(ring) && ring[0] == list && item != list
    requires if from == [] then Detached(item) else Ring(from) && item in from
    requires from == ring || (forall x :: x in from ==> x !in ring)
    requires item in ring ==> from == ring
    modifies ring, from, item
    ensures Ring(Rest(ring, item) + [item])
    ensures from != ring && |from| > 1 ==> Ring(Rest(from, item))
  {
    hide Without;
    hide IndexIn;
    if from != [] {
      Neighbours(from, item);
    }
    Remove(item, from);
    RestFacts(ring, item);
    RestFacts(from, item);
    ghost var rest := Rest(ring, item);
    Neighbours(rest, list);
    ghost var others := Rest(from, item);
    Link(list, item, rest);
    if from != ring && |from| > 1 {
      assert forall x :: x in others ==> x !in ring && x != item;
      assert forall k :: 0 <= k < |others| ==> others[k] in others;
    }
  }

  lemma RestFacts(ring: seq<Node>, item: Node)
    requires Distinct(ring)
    ensures item !in Rest(ring, item) && Distinct(Rest(ring, item))
    ensures forall x :: x in Rest(ring, item) ==> x in ring
    ensures ring != [] && ring[0] != item ==> Rest(ring, item) != [] && Rest(ring, item)[0] == ring[0]
  {
    if item in ring {
      var k, w := IndexIn(ring, item), Rest(ring, item);
      assert forall j :: 0 <= j < |w| ==> w[j] == ring[if j < k then j else j + 1];
    }
  }

  /** The four assignments of `append` after its call of `remove`. */
  method Link(list: Node, item: Node, ghost ring: seq<Node>)
    requires Ring(ring) && ring[0] == list && item !in ring
    modifies list, list.idleNext, item
    ensures Ring(ring + [item])
  {
    ghost var n := |ring|;
    assert Linked(ring[n - 1], ring[After(n - 1, n)]);
    item.idleNext := list.idleNext;
    list.idleNext.idlePrev := item;
    item.idlePrev := list;
    list.idleNext := item;
    ghost var r := ring + [item];
    forall k | 0 <= k < |r|
      ensures Linked(r[k], r[After(k, |r|)])
    {
      if k < n - 1 {
        assert old(Linked(ring[k], ring[After(k, n)]));
      }
    }
  }
}
