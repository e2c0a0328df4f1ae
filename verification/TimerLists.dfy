/** The entries of one idle-timer list: items with the time at which they became idle, oldest first. */
module TimerLists {
  import opened Common

  type Item = nat

  datatype Entry = Entry(item: Item, start: int)

  /** One list object with its watcher; `armed` is the time at which the watcher fires. */
  datatype TimerList = TimerList(msecs: nat, entries: seq<Entry>, armed: Option<int>, closed: bool)

  function Items(es: seq<Entry>): set<Item> {
    if es == [] then {} else {es[0].item} + Items(es[1..])
  }

  /** The entries without those of item `x` (`L.remove`). */
  function Drop(es: seq<Entry>, x: Item): seq<Entry> {
    if es == [] then [] else (if es[0].item == x then [] else [es[0]]) + Drop(es[1..], x)
  }

  /** Ordered by start time, each item once, none from the future. */
  ghost predicate Ordered(es: seq<Entry>, clock: int) {
    && (forall i :: 0 <= i < |es| ==> es[i].start <= clock)
    && (forall i, j :: 0 <= i < j < |es| ==> es[i].start <= es[j].start && es[i].item != es[j].item)
  }

  lemma {:induction false} ItemsIn(es: seq<Entry>)
    ensures forall x :: x in Items(es) <==> exists i :: 0 <= i < |es| && es[i].item == x
  {
    if es != [] {
      ItemsIn(es[1..]);
      forall x
        ensures x in Items(es) <==> exists i :: 0 <= i < |es| && es[i].item == x
      {
        if x in Items(es[1..]) {
          var i :| 0 <= i < |es[1..]| && es[1..][i].item == x;
          assert es[i + 1].item == x;
        }
        if i :| 0 <= i < |es| && es[i].item == x {
          if i > 0 {
            assert es[1..][i - 1].item == x;
          }
        }
      }
    }
  }

  lemma {:induction false} ItemsPush(es: seq<Entry>, e: Entry)
    ensures Items(es + [e]) == Items(es) + {e.item}
  {
    if es == [] {
      assert es + [e] == [e] && [e][1..] == [];
    } else {
      ItemsPush(es[1..], e);
      assert (es + [e])[1..] == es[1..] + [e];
    }
  }

  lemma DropFirst(es: seq<Entry>, x: Item)
    requires es != []
    ensures Drop(es, x) == if es[0].item == x then Drop(es[1..], x) else [es[0]] + Drop(es[1..], x)
  {
  }

  lemma {:induction false} DropMembers(es: seq<Entry>, x: Item)
    ensures forall e :: e in Drop(es, x) ==> e in es && e.item != x
    ensures |Drop(es, x)| <= |es|
  {
    if es != [] {
      DropMembers(es[1..], x);
      DropFirst(es, x);
    }
  }

  lemma {:induction false} DropOrdered(es: seq<Entry>, x: Item, clock: int)
    requires Ordered(es, clock)
    ensures Ordered(Drop(es, x), clock)
    ensures Drop(es, x) != [] ==> es != [] && es[0].start <= Drop(es, x)[0].start
  {
    hide Drop;
    if es == [] {
      DropMembers(es, x);
    } else {
      var rest, d := es[1..], Drop(es[1..], x);
      DropOrdered(rest, x, clock);
      DropMembers(rest, x);
      DropFirst(es, x);
      forall j | 0 <= j < |d|
        ensures es[0].start <= d[j].start && es[0].item != d[j].item
      {
        assert d[j] in rest;
        var i :| 0 <= i < |rest| && rest[i] == d[j];
        assert es[i + 1] == d[j];
      }
    }
  }

  lemma {:induction false} DropItems(es: seq<Entry>, x: Item)
    ensures Items(Drop(es, x)) == Items(es) - {x}
    ensures x !in Items(es) ==> Drop(es, x) == es
  {
    if es != [] {
      DropItems(es[1..], x);
      DropFirst(es, x);
      hide Drop;
      if es[0].item != x {
        assert Drop(es, x)[1..] == Drop(es[1..], x);
      }
    }
  }

  lemma {:induction false} DropLength(es: seq<Entry>, x: Item, clock: int)
    requires Ordered(es, clock) && x in Items(es)
    ensures |Drop(es, x)| == |es| - 1
  {
    DropFirst(es, x);
    if es[0].item == x {
      ItemsIn(es[1..]);
      assert x !in Items(es[1..]);
      DropItems(es[1..], x);
    } else {
      DropLength(es[1..], x, clock);
    }
  }

  lemma DropFacts(es: seq<Entry>, x: Item, clock: int)
    requires Ordered(es, clock)
    ensures Ordered(Drop(es, x), clock) && Items(Drop(es, x)) == Items(es) - {x}
    ensures |Drop(es, x)| == |es| - if x in Items(es) then 1 else 0
    ensures x !in Items(es) ==> Drop(es, x) == es
    ensures Drop(es, x) != [] ==> es != [] && es[0].start <= Drop(es, x)[0].start
    ensures forall e :: e in Drop(es, x) ==> e in es && e.item != x
  {
    hide Drop;
    hide Items;
    hide Ordered;
    DropOrdered(es, x, clock);
    DropItems(es, x);
    DropMembers(es, x);
    if x in Items(es) {
      DropLength(es, x, clock);
    }
  }

  lemma PushFacts(es: seq<Entry>, x: Item, clock: int)
    requires Ordered(es, clock) && x !in Items(es)
    ensures Ordered(es + [Entry(x, clock)], clock) && Items(es + [Entry(x, clock)]) == Items(es) + {x}
  {
    ItemsPush(es, Entry(x, clock));
    ItemsIn(es);
  }

  // ---------- what callbacks leave untouched ----------

  /** The entries whose items are not in `touched`. */
  function Kept(es: seq<Entry>, touched: set<Item>): seq<Entry> {
    if es == [] then [] else (if es[0].item in touched then [] else [es[0]]) + Kept(es[1..], touched)
  }

  lemma KeptFirst(es: seq<Entry>, touched: set<Item>)
    requires es != []
    ensures Kept(es, touched) == (if es[0].item in touched then [] else [es[0]]) + Kept(es[1..], touched)
  {
  }

  lemma {:induction false} KeptConcat(a: seq<Entry>, b: seq<Entry>, touched: set<Item>)
    ensures Kept(a + b, touched) == Kept(a, touched) + Kept(b, touched)
  {
    if a == [] {
      assert a + b == b;
    } else {
      hide Kept;
      KeptConcat(a[1..], b, touched);
      assert (a + b)[1..] == a[1..] + b;
      KeptFirst(a, touched);
      KeptFirst(a + b, touched);
      Assoc(if a[0].item in touched then [] else [a[0]], Kept(a[1..], touched), Kept(b, touched));
    }
  }

  lemma {:induction false} KeptDrop(es: seq<Entry>, x: Item, touched: set<Item>)
    requires x in touched
    ensures Kept(Drop(es, x), touched) == Kept(es, touched)
  {
    if es != [] {
      KeptDrop(es[1..], x, touched);
      DropFirst(es, x);
      if es[0].item != x {
        assert Drop(es, x)[1..] == Drop(es[1..], x);
      } else {
        assert Kept(es, touched) == Kept(es[1..], touched);
      }
    }
  }

  lemma {:induction false} KeptTwice(es: seq<Entry>, a: set<Item>, b: set<Item>)
    ensures Kept(Kept(es, a), b) == Kept(es, a + b)
  {
    if es != [] {
      KeptTwice(es[1..], a, b);
      if es[0].item !in a {
        assert Kept(es, a)[1..] == Kept(es[1..], a);
      } else {
        assert Kept(es, a) == Kept(es[1..], a) && Kept(es, a + b) == Kept(es[1..], a + b);
      }
    }
  }

  lemma {:induction false} KeptMembers(es: seq<Entry>, touched: set<Item>)
    ensures forall e :: e in Kept(es, touched) <==> e in es && e.item !in touched
  {
    if es != [] {
      KeptMembers(es[1..], touched);
      assert forall e :: e in es <==> e == es[0] || e in es[1..];
    }
  }

  lemma {:induction false} KeptAll(es: seq<Entry>)
    ensures Kept(es, {}) == es
  {
    if es != [] {
      KeptAll(es[1..]);
    }
  }

  /** `a` is what is left of `b` after crossing out some entries. */
  ghost predicate Subsequence(a: seq<Entry>, b: seq<Entry>) {
    if a == [] then true
    else if b == [] then false
    else if a[0] == b[0] then Subsequence(a[1..], b[1..]) || Subsequence(a, b[1..])
    else Subsequence(a, b[1..])
  }

  lemma {:induction false} SubsequenceSelf(a: seq<Entry>)
    ensures Subsequence(a, a)
  {
    if a != [] {
      SubsequenceSelf(a[1..]);
    }
  }

  lemma {:induction false} SubsequenceFacts(a: seq<Entry>, b: seq<Entry>)
    requires Subsequence(a, b)
    ensures |a| <= |b| && forall e :: e in a ==> e in b
    decreases |b|
  {
    if a != [] {
      if a[0] == b[0] && Subsequence(a[1..], b[1..]) {
        SubsequenceFacts(a[1..], b[1..]);
        assert forall e :: e in a ==> e == a[0] || e in a[1..];
      } else {
        SubsequenceFacts(a, b[1..]);
      }
      assert forall e :: e in b[1..] ==> e in b;
    }
  }

  lemma {:induction false} SubsequenceKept(f: seq<Entry>, u: seq<Entry>, q: seq<Entry>, touched: set<Item>)
    requires Subsequence(f + u, q)
    ensures Subsequence(f + Kept(u, touched), q)
    decreases |q|
  {
    if q == [] {
      assert f + u == [] && f == [] && u == [];
      assert f + Kept(u, touched) == [];
    } else if f == [] {
      assert f + u == u && f + Kept(u, touched) == Kept(u, touched);
      if u != [] {
        if u[0] == q[0] && Subsequence(u[1..], q[1..]) {
          assert [] + u[1..] == u[1..];
          SubsequenceKept([], u[1..], q[1..], touched);
          assert [] + Kept(u[1..], touched) == Kept(u[1..], touched);
          if u[0].item in touched {
            assert Kept(u, touched) == Kept(u[1..], touched);
          } else {
            assert Kept(u, touched)[1..] == Kept(u[1..], touched);
          }
        } else {
          assert [] + u == u;
          SubsequenceKept([], u, q[1..], touched);
        }
      }
    } else {
      var k := Kept(u, touched);
      assert (f + u)[1..] == f[1..] + u && (f + k)[1..] == f[1..] + k;
      if f[0] == q[0] && Subsequence(f[1..] + u, q[1..]) {
        SubsequenceKept(f[1..], u, q[1..], touched);
      } else {
        SubsequenceKept(f, u, q[1..], touched);
      }
    }
  }
}
