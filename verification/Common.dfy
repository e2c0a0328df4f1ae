/** Datatypes and sequence facts shared by the component models. */
module Common {

  datatype Option<+T> = None | Some(value: T)

  datatype Result<+T, +E> = Ok(value: T) | Err(error: E)

  type byte = b: int | 0 <= b < 0x100

  /** A JavaScript string is a sequence of 16-bit code units. */
  type CodeUnit = u: int | 0 <= u < 0x10000

  function Flatten<T>(ss: seq<seq<T>>): seq<T> {
    if ss == [] then [] else ss[0] + Flatten(ss[1..])
  }

  lemma Assoc<T>(a: seq<T>, b: seq<T>, c: seq<T>)
    ensures a + (b + c) == a + b + c
  {
  }

  lemma FlattenNone<T>()
    ensures Flatten<T>([]) == []
  {
  }

  lemma FlattenFirst<T>(ss: seq<seq<T>>)
    requires ss != []
    ensures Flatten(ss) == ss[0] + Flatten(ss[1..])
  {
  }

  lemma {:induction false} FlattenConcat<T>(a: seq<seq<T>>, b: seq<seq<T>>)
    ensures Flatten(a + b) == Flatten(a) + Flatten(b)
  {
    if a == [] {
      assert a + b == b;
    } else {
      hide Flatten;
      FlattenConcat(a[1..], b);
      assert (a + b)[1..] == a[1..] + b;
      FlattenFirst(a);
      FlattenFirst(a + b);
      Assoc(a[0], Flatten(a[1..]), Flatten(b));
    }
  }

  lemma FlattenOne<T>(s: seq<T>)
    ensures Flatten([s]) == s
  {
    assert Flatten([s]) == s + Flatten([]);
  }

  lemma FlattenPush<T>(a: seq<seq<T>>, s: seq<T>)
    ensures Flatten(a + [s]) == Flatten(a) + s
  {
    FlattenConcat(a, [s]);
    FlattenOne(s);
  }

  lemma SlicesAt<T>(ss: seq<T>, k: nat)
    requires k < |ss|
    ensures ss[..k + 1] == ss[..k] + [ss[k]]
    ensures ss[k..][1..] == ss[k + 1..]
    ensures ss == ss[..k + 1] + ss[k + 1..]
  {
  }

  /** The pieces before, at and after `k`. */
  lemma FlattenAt<T>(ss: seq<seq<T>>, k: nat)
    requires k < |ss|
    ensures Flatten(ss[..k + 1]) == Flatten(ss[..k]) + ss[k]
    ensures Flatten(ss[k..]) == ss[k] + Flatten(ss[k + 1..])
    ensures Flatten(ss) == Flatten(ss[..k + 1]) + Flatten(ss[k + 1..])
  {
    hide Flatten;
    SlicesAt(ss, k);
    FlattenPush(ss[..k], ss[k]);
    FlattenFirst(ss[k..]);
    FlattenConcat(ss[..k + 1], ss[k + 1..]);
  }

  lemma ConcatSlices<T>(a: seq<T>, b: seq<T>, n: nat)
    requires n <= |a|
    ensures (a + b)[..n] == a[..n] && (a + b)[n..] == a[n..] + b
  {
  }

  ghost predicate Distinct<T>(s: seq<T>) {
    forall i, j :: 0 <= i < j < |s| ==> s[i] != s[j]
  }

  function Without<T>(s: seq<T>, k: nat): seq<T>
    requires k < |s|
  {
    s[..k] + s[k + 1..]
  }

  /** A queue: what has gone and what is waiting make up all there was, in order. */
  ghost predicate InOrder<T>(all: seq<T>, gone: seq<T>, waiting: seq<T>) {
    all == gone + waiting
  }

  lemma OrderMoves<T>(all: seq<T>, gone: seq<T>, waiting: seq<T>, x: T)
    requires InOrder(all, gone, waiting)
    ensures InOrder(all + [x], gone, waiting + [x])
    ensures waiting == [] ==> InOrder(all + [x], gone + [x], [])
    ensures waiting != [] ==> InOrder(all, gone + [waiting[0]], waiting[1..])
  {
  }
}
