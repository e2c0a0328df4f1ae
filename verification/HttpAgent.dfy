/** The client-side connection pool of lib/http.js: `Agent`. */
module HttpAgent {
  import opened Common

  type Name = string
  type Socket = nat
  type Request = nat

  /** `table[name]`, where a missing entry is as good as an empty list. */
  function At<T>(table: map<Name, seq<T>>, name: Name): seq<T> {
    if name in table then table[name] else []
  }

  /** `list.indexOf(x)`, or the length of the list. */
  function IndexOf(list: seq<Socket>, x: Socket): (k: nat)
    ensures k <= |list|
    ensures k < |list| ==> list[k] == x
    ensures k == |list| <==> x !in list
  {
    if list == [] then 0 else if list[0] == x then 0 else 1 + IndexOf(list[1..], x)
  }

  function Removed(list: seq<Socket>, x: Socket): seq<Socket> {
    var k := IndexOf(list, x);
    if k < |list| then Without(list, k) else list
  }

  lemma RemovedFacts(list: seq<Socket>, x: Socket)
    requires Distinct(list) && x in list
    ensures |Removed(list, x)| == |list| - 1 && Distinct(Removed(list, x)) && x !in Removed(list, x)
    ensures forall y :: y in Removed(list, x) <==> y in list && y != x
  {
    var k, w := IndexOf(list, x), Removed(list, x);
    assert forall i :: 0 <= i < |w| ==> w[i] == if i < k then list[i] else list[i + 1];
    forall y | y in list && y != x
      ensures y in w
    {
      var i :| 0 <= i < |list| && list[i] == y;
      assert w[if i < k then i else i - 1] == y;
    }
  }

  lemma AtSet<T>(table: map<Name, seq<T>>, name: Name, list: seq<T>)
    ensures forall n :: At(table[name := list], n) == if n == name then list else At(table, n)
  {
    forall n
      ensures At(table[name := list], n) == if n == name then list else At(table, n)
    {
    }
  }

  lemma AtRemove<T>(table: map<Name, seq<T>>, name: Name)
    ensures forall n :: At(table - {name}, n) == if n == name then [] else At(table, n)
  {
    forall n
      ensures At(table - {name}, n) == if n == name then [] else At(table, n)
    {
    }
  }

  /** At most `max` sockets, all different, all created for this name. */
  ghost predicate SocketsOk(list: seq<Socket>, name: Name, nameOf: map<Socket, Name>, created: Socket, max: nat) {
    && |list| <= max && Distinct(list)
    && forall s :: s in list ==> s < created && s in nameOf && nameOf[s] == name
  }

  lemma SocketsGrow(list: seq<Socket>, name: Name, nameOf: map<Socket, Name>, created: Socket, max: nat, newName: Name)
    requires SocketsOk(list, name, nameOf, created, max)
    ensures SocketsOk(list, name, nameOf[created := newName], created + 1, max)
    ensures created !in list
    ensures name == newName && |list| < max ==>
              SocketsOk(list + [created], name, nameOf[created := newName], created + 1, max)
  {
  }

  lemma SocketsShrink(list: seq<Socket>, name: Name, nameOf: map<Socket, Name>, created: Socket, max: nat, s: Socket)
    requires SocketsOk(list, name, nameOf, created, max) && s in list
    ensures SocketsOk(Removed(list, s), name, nameOf, created, max) && s < created
    ensures |Removed(list, s)| == |list| - 1
    ensures forall y :: y in Removed(list, s) <==> y in list && y != s
  {
    hide Removed;
    RemovedFacts(list, s);
  }

  lemma AtIn<T>(table: map<Name, seq<T>>, name: Name)
    ensures At(table, name) == if name in table then table[name] else []
  {
  }

  /** Per name, requests are dispatched in the order of submission. */
  ghost predicate FifoOn(submitted: map<Name, seq<Request>>, dispatched: map<Name, seq<Request>>,
                         requests: map<Name, seq<Request>>) {
    forall n :: InOrder(At(submitted, n), At(dispatched, n), At(requests, n))
  }

  ghost predicate SaturatedOn(sockets: map<Name, seq<Socket>>, requests: map<Name, seq<Request>>, max: nat) {
    forall n :: At(requests, n) != [] ==> |At(sockets, n)| == max
  }

  /** A request that finds room is dispatched at once. */
  lemma FifoDirect(submitted: map<Name, seq<Request>>, dispatched: map<Name, seq<Request>>,
                   requests: map<Name, seq<Request>>,
                   name: Name, req: Request)
    requires FifoOn(submitted, dispatched, requests) && At(requests, name) == []
    ensures FifoOn(submitted[name := At(submitted, name) + [req]], dispatched[name := At(dispatched, name) + [req]], requests)
  {
    hide At;
    hide InOrder;
    OrderMoves(At(submitted, name), At(dispatched, name), At(requests, name), req);
    AtSet(submitted, name, At(submitted, name) + [req]);
    AtSet(dispatched, name, At(dispatched, name) + [req]);
  }

  /** The table of queues with the first request of a name taken off. */
  function Shifted(requests: map<Name, seq<Request>>, name: Name, rest: seq<Request>): map<Name, seq<Request>> {
    if |rest| == 0 then requests - {name} else requests[name := rest]
  }

  lemma AtShifted(requests: map<Name, seq<Request>>, name: Name, rest: seq<Request>)
    ensures forall n :: At(Shifted(requests, name, rest), n) == if n == name then rest else At(requests, n)
  {
    AtSet(requests, name, rest);
    AtRemove(requests, name);
  }

  lemma FifoShift(submitted: map<Name, seq<Request>>, dispatched: map<Name, seq<Request>>,
                  requests: map<Name, seq<Request>>,
                  name: Name, req: Request, rest: seq<Request>)
    requires FifoOn(submitted, dispatched, requests) && At(requests, name) == [req] + rest
    ensures FifoOn(submitted, dispatched[name := At(dispatched, name) + [req]], Shifted(requests, name, rest))
  {
    hide At;
    hide InOrder;
    hide Shifted;
    assert ([req] + rest)[1..] == rest;
    OrderMoves(At(submitted, name), At(dispatched, name), At(requests, name), req);
    AtSet(dispatched, name, At(dispatched, name) + [req]);
    AtShifted(requests, name, rest);
  }

  lemma SaturatedShift(sockets: map<Name, seq<Socket>>, requests: map<Name, seq<Request>>, max: nat, name: Name,
                       rest: seq<Request>)
    requires SaturatedOn(sockets, requests, max) && At(requests, name) != []
    ensures SaturatedOn(sockets, Shifted(requests, name, rest), max)
  {
    hide At;
    hide Shifted;
    AtShifted(requests, name, rest);
  }

  /** A name nobody waits for may have any number of sockets. */
  lemma SaturatedFree(sockets: map<Name, seq<Socket>>, requests: map<Name, seq<Request>>, max: nat, name: Name,
                      list: seq<Socket>)
    requires SaturatedOn(sockets, requests, max) && |At(sockets, name)| < max
    ensures At(requests, name) == [] && SaturatedOn(sockets[name := list], requests, max)
  {
    hide At;
    AtSet(sockets, name, list);
  }

  class Agent {
    const maxSockets: nat
    var sockets: map<Name, seq<Socket>>
    var requests: map<Name, seq<Request>>
    /** The identity of the next connection to be created. */
    var created: Socket

    /** The name under which a socket was created. */
    ghost var nameOf: map<Socket, Name>
    /** The live request of each socket that has one. */
    var serving: map<Socket, Request>
    /** Per name: the requests made, and those given a socket, in order. */
    ghost var submitted: map<Name, seq<Request>>
    ghost var dispatched: map<Name, seq<Request>>

    ghost predicate PoolOk()
      reads this`sockets, this`created, this`nameOf
    {
      maxSockets >= 1 && forall n :: SocketsOk(At(sockets, n), n, nameOf, created, maxSockets)
    }

    /** No empty list is left behind. */
    ghost predicate NoLeak()
      reads this`sockets, this`requests
    {
      (forall n :: n in sockets ==> sockets[n] != []) && (forall n :: n in requests ==> requests[n] != [])
    }

    /** A request waits only while the pool for its name is saturated. */
    ghost predicate Saturated()
      reads this`sockets, this`requests
    {
      SaturatedOn(sockets, requests, maxSockets)
    }

    /** Requests are dispatched in the order in which they were made, each at most once. */
    ghost predicate Fifo()
      reads this`requests, this`submitted, this`dispatched
    {
      FifoOn(submitted, dispatched, requests)
    }

    /** Only sockets of the pool have a live request. */
    ghost predicate ServingOk()
      reads this`serving, this`sockets, this`nameOf
    {
      forall s :: s in serving ==> s in nameOf && s in At(sockets, nameOf[s])
    }

    ghost predicate Valid()
      reads this
    {
      PoolOk() && NoLeak() && Saturated() && Fifo() && ServingOk()
    }

    constructor (maxSockets: nat)
      requires maxSockets >= 1
      ensures Valid() && sockets == map[] && requests == map[] && this.maxSockets == maxSockets
    {
      this.maxSockets := maxSockets;
      sockets, requests, created := map[], map[], 0;
      nameOf, serving, submitted, dispatched := map[], map[], map[], map[];
    }

    /** `req.onSocket(socket)`; the socket has no other live request. */
    method OnSocket(s: Socket, req: Request, ghost name: Name)
      requires s !in serving && s in nameOf && s in At(sockets, nameOf[s]) && ServingOk()
      modifies this`serving, this`dispatched
      ensures ServingOk() && serving == old(serving)[s := req]
      ensures dispatched == old(dispatched)[name := At(old(dispatched), name) + [req]]
    {
      hide At;
      serving := serving[s := req];
      dispatched := dispatched[name := At(dispatched, name) + [req]];
    }

    method CreateSocket(name: Name) returns (s: Socket)
      requires PoolOk() && ServingOk() && |At(sockets, name)| < maxSockets
      modifies this`sockets, this`created, this`nameOf
      ensures PoolOk() && ServingOk() && s == old(created) && s !in serving && s in nameOf && nameOf[s] == name
      ensures sockets == old(sockets)[name := At(old(sockets), name) + [s]] && s in At(sockets, name)
    {
      hide SocketsOk;
      s := created;
      forall n
        ensures created !in At(sockets, n)
      {
        SocketsGrow(At(sockets, n), n, nameOf, created, maxSockets, name);
      }
      AtSet(sockets, name, At(sockets, name) + [s]);
      created := created + 1;
      if name !in sockets {
        sockets := sockets[name := []];
      }
      sockets := sockets[name := sockets[name] + [s]];
      assert sockets == old(sockets)[name := At(old(sockets), name) + [s]];
      nameOf := nameOf[s := name];
      forall n
        ensures SocketsOk(At(sockets, n), n, nameOf, created, maxSockets)
      {
        SocketsGrow(At(old(sockets), n), n, old(nameOf), s, maxSockets, name);
      }
    }

    /** `addRequest`: a new socket while there is room, else the queue. */
    method AddRequest(req: Request, name: Name)
      requires Valid()
      modifies this
      ensures Valid()
      ensures submitted == old(submitted)[name := At(old(submitted), name) + [req]]
      ensures |At(old(sockets), name)| < maxSockets ==>
                && dispatched == old(dispatched)[name := At(old(dispatched), name) + [req]] && requests == old(requests)
                && sockets == old(sockets)[name := At(old(sockets), name) + [old(created)]]
                && serving == old(serving)[old(created) := req]
      ensures |At(old(sockets), name)| == maxSockets ==>
                && sockets == old(sockets) && dispatched == old(dispatched) && serving == old(serving)
                && requests == old(requests)[name := At(old(requests), name) + [req]]
    {
      hide At;
      PoolBound(name);
      if |At(sockets, name)| < maxSockets {
        AddToPool(req, name);
      } else {
        AddToQueue(req, name);
      }
    }

    method AddToPool(req: Request, name: Name)
      requires Valid() && |At(sockets, name)| < maxSockets
      modifies this
      ensures Valid()
      ensures submitted == old(submitted)[name := At(old(submitted), name) + [req]]
      ensures dispatched == old(dispatched)[name := At(old(dispatched), name) + [req]] && requests == old(requests)
      ensures sockets == old(sockets)[name := At(old(sockets), name) + [old(created)]]
      ensures serving == old(serving)[old(created) := req]
    {
      hide At;
      hide PoolOk;
      hide ServingOk;
      hide FifoOn;
      hide SaturatedOn;
      SaturatedFree(sockets, requests, maxSockets, name, At(sockets, name) + [created]);
      FifoDirect(submitted, dispatched, requests, name, req);
      submitted := submitted[name := At(submitted, name) + [req]];
      var s := CreateSocket(name);
      OnSocket(s, req, name);
    }

    method AddToQueue(req: Request, name: Name)
      requires Valid() && |At(sockets, name)| == maxSockets
      modifies this`submitted, this`requests
      ensures Valid()
      ensures submitted == old(submitted)[name := At(old(submitted), name) + [req]]
      ensures requests == old(requests)[name := At(old(requests), name) + [req]]
    {
      hide At;
      hide SocketsOk;
      hide InOrder;
      OrderMoves(At(submitted, name), At(dispatched, name), At(requests, name), req);
      AtSet(submitted, name, At(submitted, name) + [req]);
      AtSet(requests, name, At(requests, name) + [req]);
      submitted := submitted[name := At(submitted, name) + [req]];
      requests := requests[name := At(requests, name) + [req]];
    }

    lemma PooledName(s: Socket, name: Name)
      requires PoolOk() && s in At(sockets, name)
      ensures s in nameOf && nameOf[s] == name
    {
    }

    lemma PoolBound(name: Name)
      requires PoolOk()
      ensures |At(sockets, name)| <= maxSockets
    {
      assert SocketsOk(At(sockets, name), name, nameOf, created, maxSockets);
    }

    /**
     * The 'free' event of an idle socket: the oldest request takes it, or it is destroyed (and stays in the pool
     * until 'close').
     */
    method OnFree(s: Socket, name: Name) returns (destroyed: bool)
      requires Valid() && s !in serving && s in nameOf && nameOf[s] == name && s in At(sockets, name)
      modifies this`requests, this`serving, this`dispatched
      ensures Valid() && destroyed == (name !in old(requests))
      ensures destroyed ==> unchanged(this)
      ensures !destroyed ==> serving == old(serving)[s := old(requests)[name][0]]
      ensures !destroyed ==> At(requests, name) == old(requests)[name][1..] && requests - {name} == old(requests) - {name}
      ensures !destroyed ==> dispatched == old(dispatched)[name := At(old(dispatched), name) + [old(requests)[name][0]]]
    {
      hide At;
      hide PoolOk;
      hide FifoOn;
      hide SaturatedOn;
      hide ServingOk;
      AtIn(requests, name);
      if name in requests && |requests[name]| > 0 {
        var req, rest := requests[name][0], requests[name][1..];
        AtSet(requests, name, rest);
        AtRemove(requests, name);
        FifoShift(submitted, dispatched, requests, name, req, rest);
        SaturatedShift(sockets, requests, maxSockets, name, rest);
        OnSocket(s, req, name);
        if |rest| == 0 {
          requests := requests - {name};
        } else {
          requests := requests[name := rest];
        }
        return false;
      }
      return true;
    }

    /**
     * `responseOnEnd`: the request that was live on the socket is over. With keep-alive the socket is free, and the next
     * request takes it; otherwise, or if nobody waits, it is destroyed.
     */
    method ResponseOnEnd(s: Socket, name: Name, keepAlive: bool) returns (destroyed: bool)
      requires Valid() && s in serving && nameOf[s] == name
      modifies this`requests, this`serving, this`dispatched
      ensures Valid() && destroyed == (!keepAlive || name !in old(requests))
      ensures destroyed ==> serving == old(serving) - {s} && requests == old(requests) && dispatched == old(dispatched)
      ensures !destroyed ==> serving == old(serving)[s := old(requests)[name][0]]
      ensures !destroyed ==> At(requests, name) == old(requests)[name][1..] && requests - {name} == old(requests) - {name}
      ensures !destroyed ==> dispatched == old(dispatched)[name := At(old(dispatched), name) + [old(requests)[name][0]]]
    {
      hide At;
      hide SocketsOk;
      hide FifoOn;
      hide SaturatedOn;
      serving := serving - {s};
      if !keepAlive {
        return true;
      }
      destroyed := OnFree(s, name);
      assert !destroyed ==> serving == old(serving)[s := serving[s]];
    }

    /** 'close' or 'agentRemove': the socket leaves the pool, and a waiting request gets a new one. */
    method RemoveSocket(s: Socket, name: Name)
      requires Valid() && s in nameOf && nameOf[s] == name && s in At(sockets, name)
      modifies this
      ensures Valid() && s !in At(sockets, name) && s !in serving && submitted == old(submitted)
      ensures name in old(requests) ==>
                && |At(sockets, name)| == maxSockets && At(requests, name) == old(requests)[name][1..]
                && dispatched == old(dispatched)[name := At(old(dispatched), name) + [old(requests)[name][0]]]
                && serving == (old(serving) - {s})[old(created) := old(requests)[name][0]]
      ensures name !in old(requests) ==>
                && |At(sockets, name)| == |At(old(sockets), name)| - 1 && dispatched == old(dispatched)
                && serving == old(serving) - {s}
      ensures At(sockets, name) ==
              Removed(At(old(sockets), name), s) + if name in old(requests) then [old(created)] else []
      ensures requests - {name} == old(requests) - {name}
      ensures forall n :: n != name ==> At(sockets, n) == At(old(sockets), n)
    {
      hide At;
      hide SocketsOk;
      hide FifoOn;
      hide Removed;
      AtIn(requests, name);
      serving := serving - {s};
      DropSocket(s, name);
      if name in requests && |requests[name]| > 0 {
        AtSet(sockets, name, At(sockets, name) + [created]);
        var socket := CreateSocket(name);
        var destroyed := OnFree(socket, name);
      }
    }

    /** The first half of `removeSocket`. */
    method DropSocket(s: Socket, name: Name)
      requires PoolOk() && NoLeak() && ServingOk() && s in nameOf && nameOf[s] == name && s in At(sockets, name)
      requires s !in serving
      modifies this`sockets
      ensures PoolOk() && NoLeak() && ServingOk() && s !in At(sockets, name) && s < created
      ensures At(sockets, name) == Removed(At(old(sockets), name), s) && |At(sockets, name)| == |At(old(sockets), name)| - 1
      ensures forall n :: n != name ==> At(sockets, n) == At(old(sockets), n)
    {
      hide Removed;
      hide SocketsOk;
      hide At;
      AtIn(sockets, name);
      SocketsShrink(At(sockets, name), name, nameOf, created, maxSockets, s);
      var list := Removed(sockets[name], s);
      AtSet(sockets, name, list);
      AtRemove(sockets, name);
      if |list| == 0 {
        sockets := sockets - {name};
      } else {
        sockets := sockets[name := list];
      }
      assert At(sockets, name) == list;
      forall n
        ensures SocketsOk(At(sockets, n), n, nameOf, created, maxSockets)
      {
        assert n != name ==> SocketsOk(At(old(sockets), n), n, nameOf, created, maxSockets);
      }
    }
  }

  /** Every run of requests, responses that end, and closed sockets: the pool is bounded and its queues are served in order. */
  method AnyRun(maxSockets: nat, steps: nat) returns (a: Agent)
    requires maxSockets >= 1
    ensures fresh(a) && a.Valid() && a.maxSockets == maxSockets
    ensures forall n :: |At(a.sockets, n)| <= maxSockets
    ensures forall n :: At(a.submitted, n) == At(a.dispatched, n) + At(a.requests, n)
    ensures forall n :: At(a.requests, n) != [] ==> |At(a.sockets, n)| == maxSockets
  {
    hide SocketsOk;
    a := new Agent(maxSockets);
    for k := 0 to steps
      invariant fresh(a) && a.Valid() && a.maxSockets == maxSockets
    {
      var name: Name, s: Socket := *, *;
      if * {
        var req: Request := *;
        a.AddRequest(req, name);
      } else {
        if name in a.sockets && s in a.sockets[name] {
          a.PooledName(s, name);
          if * {
            a.RemoveSocket(s, name);
          } else if s in a.serving {
            var keepAlive: bool := *;
            var destroyed := a.ResponseOnEnd(s, name, keepAlive);
          }
        }
      }
    }
    forall n
      ensures |At(a.sockets, n)| <= maxSockets
    {
      a.PoolBound(n);
    }
  }
}
