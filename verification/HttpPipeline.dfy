/** HTTP/1.1 pipelining on the server side of lib/http.js: many responses, one socket. */
module HttpPipeline {
  import opened Common
  import opened HttpChunked

  /** An element of `output`: a string (as the bytes its encoding gives) or a Buffer. */
  datatype Piece = Piece(isText: bool, bytes: Bytes)

  function Content(output: seq<Piece>): Bytes {
    if output == [] then [] else output[0].bytes + Content(output[1..])
  }

  lemma {:induction false} ContentConcat(a: seq<Piece>, b: seq<Piece>)
    ensures Content(a + b) == Content(a) + Content(b)
  {
    hide Content;
    ContentFirst(a);
    if a == [] {
      assert a + b == b;
    } else {
      ContentConcat(a[1..], b);
      ContentFirst(a + b);
      assert (a + b)[1..] == a[1..] + b;
      assert a[0].bytes + (Content(a[1..]) + Content(b)) == a[0].bytes + Content(a[1..]) + Content(b);
    }
  }

  lemma ContentFirst(output: seq<Piece>)
    ensures output == [] ==> Content(output) == []
    ensures output != [] ==> Content(output) == output[0].bytes + Content(output[1..])
  {
  }

  /** The fields of an OutgoingMessage; `header` is empty until `_storeHeader`. */
  datatype Response = Response(output: seq<Piece>, header: Bytes, headerSent: bool, chunked: bool, hasBody: bool,
                               trailer: Bytes, finished: bool, last: bool, attached: bool)

  function Fresh(): Response {
    Response([], [], false, false, true, [], false, false, false)
  }

  /** `_buffer`: a string joins a string, anything else is pushed. */
  function Buffered(output: seq<Piece>, data: Piece): (r: seq<Piece>)
    ensures r != []
  {
    if output != [] && data.isText && output[|output| - 1].isText then
      output[..|output| - 1] + [Piece(true, output[|output| - 1].bytes + data.bytes)]
    else output + [data]
  }

  lemma ContentOne(piece: Piece)
    ensures Content([piece]) == piece.bytes
  {
    assert Content([piece]) == piece.bytes + Content([]);
  }

  lemma BufferedContent(output: seq<Piece>, data: Piece)
    ensures Content(Buffered(output, data)) == Content(output) + data.bytes
  {
    hide Content;
    ContentOne(data);
    if output != [] && data.isText && output[|output| - 1].isText {
      var init, last := output[..|output| - 1], output[|output| - 1];
      assert output == init + [last];
      ContentConcat(init, [last]);
      ContentConcat(init, [Piece(true, last.bytes + data.bytes)]);
      ContentOne(last);
      ContentOne(Piece(true, last.bytes + data.bytes));
      Assoc(Content(init), last.bytes, data.bytes);
    } else {
      ContentConcat(output, [data]);
    }
  }

  /** What `_send` hands on when the header has not gone out yet: the header goes first. */
  function WithHeader(x: Response, data: Piece): (Response, Piece) {
    if x.headerSent then (x, data)
    else if data.isText then (x.(headerSent := true), Piece(true, x.header + data.bytes))
    else (x.(headerSent := true, output := [Piece(true, x.header)] + x.output), data)
  }

  /** The bytes one `write(data)` adds to the body. */
  function Framed(x: Response, data: Bytes): Bytes {
    if !x.hasBody || data == [] then [] else if x.chunked then Chunk(data) else data
  }

  /** The bytes `end` adds after the body. */
  function Closing(x: Response): Bytes {
    if x.chunked then LastChunk(x.trailer) else []
  }

  function Head(x: Response): Bytes {
    if x.headerSent then [] else x.header
  }

  function Range(a: nat, b: nat): (s: seq<nat>)
    ensures |s| == if a <= b then b - a else 0
    ensures forall i :: 0 <= i < |s| ==> s[i] == a + i
  {
    if a <= b then seq(b - a, i requires 0 <= i => a + i) else []
  }

  lemma RangeFacts(a: nat, b: nat)
    requires a <= b
    ensures Range(a, b) + [b] == Range(a, b + 1)
    ensures a < b ==> Range(a, b) != [] && Range(a, b)[0] == a && Range(a, b)[1..] == Range(a + 1, b)
    ensures a == b ==> Range(a, b) == []
    ensures forall i :: 0 <= i < |Range(a, b)| ==> Range(a, b)[i] < b
  {
  }

  /** Only what is buffered and what is attached differs. */
  ghost predicate Kept(a: seq<Response>, b: seq<Response>) {
    && |a| == |b|
    && forall r :: 0 <= r < |a| ==>
                     a[r].(output := [], attached := false) == b[r].(output := [], attached := false)
  }

  /** What decides about the bytes of a response. */
  function Framing(x: Response): Response {
    x.(output := [], attached := false, last := false)
  }

  ghost predicate SameFraming(a: seq<Response>, b: seq<Response>) {
    |a| <= |b| && forall r :: 0 <= r < |a| ==> Framing(a[r]) == Framing(b[r])
  }

  /** A response that waits for its turn: nothing of it has been sent. */
  ghost predicate Waiting(x: Response, prod: Bytes) {
    !x.attached && Backlog(x, prod)
  }

  ghost predicate Backlog(x: Response, prod: Bytes) {
    && (x.headerSent ==> x.header != []) && (x.finished ==> x.headerSent)
    && (if x.headerSent then x.output != [] && prod == Content(x.output) else x.output == [] && prod == [])
  }

  /** The response whose turn it is. */
  ghost predicate Serving(x: Response, prod: Bytes, writable: bool) {
    && x.attached && (x.headerSent ==> x.header != []) && (x.finished ==> x.headerSent && x.output != [])
    && (!x.headerSent ==> x.output == [] && prod == [])
    && (writable ==> x.output == [])
  }

  /** A response assigned to a socket that can no longer be written: its header stays behind. */
  ghost predicate Stranded(x: Response) {
    && x.attached && (x.headerSent ==> x.header != [] && x.output != []) && (x.finished ==> x.headerSent)
    && (!x.headerSent ==> x.output == [])
  }

  /** None of the first `n` responses closes the connection. */
  ghost predicate NoneLast(responses: seq<Response>, n: nat) {
    forall r :: 0 <= r < n && r < |responses| ==> !responses[r].last
  }

  lemma NoneLastKept(responses: seq<Response>, k: nat, x: Response, n: nat)
    requires k < |responses| && (n <= k || x.last == responses[k].last)
    ensures NoneLast(responses[k := x], n) == NoneLast(responses, n)
  {
    var after := responses[k := x];
    assert forall r :: 0 <= r < n && r < |responses| ==> after[r].last == responses[r].last;
  }

  /** Marking one as last does not make the others less so. */
  lemma NoneLastMarked(responses: seq<Response>, k: nat, n: nat)
    requires k < |responses|
    ensures NoneLast(responses[k := responses[k].(last := true)], n) ==> NoneLast(responses, n)
    ensures n <= k ==> NoneLast(responses[k := responses[k].(last := true)], n) == NoneLast(responses, n)
  {
    var after := responses[k := responses[k].(last := true)];
    assert forall r :: 0 <= r < n && r < |responses| && responses[r].last ==> after[r].last;
    assert n <= k ==> forall r :: 0 <= r < n && r < |responses| ==> after[r] == responses[r];
  }

  lemma NoneLastNew(responses: seq<Response>, x: Response, n: nat)
    requires n <= |responses| || !x.last
    ensures NoneLast(responses + [x], n) == NoneLast(responses, n)
  {
    assert forall r :: 0 <= r < |responses| ==> (responses + [x])[r] == responses[r];
  }

  lemma NoneLastMore(responses: seq<Response>, n: nat)
    requires n < |responses|
    ensures NoneLast(responses, n + 1) <==> NoneLast(responses, n) && !responses[n].last
  {
  }

  lemma LastIsFree(x: Response, prod: Bytes, writable: bool)
    ensures Waiting(x.(last := true), prod) == Waiting(x, prod)
    ensures Serving(x.(last := true), prod, writable) == Serving(x, prod, writable)
    ensures Stranded(x.(last := true)) == Stranded(x)
  {
  }

  /** A new response waits; attached to the socket, it is being served, or stranded. */
  lemma FreshStarts(writable: bool)
    ensures Waiting(Fresh(), [])
    ensures Serving(Fresh().(attached := true), [], writable)
    ensures Stranded(Fresh().(attached := true))
  {
  }

  /** The first `full` responses are on the wire completely, then a part of the next one. */
  ghost predicate WireOk(wire: Bytes, produced: seq<Bytes>, full: nat, part: Bytes) {
    && full <= |produced|
    && wire == Flatten(produced[..full]) + part
    && (if full < |produced| then part <= produced[full] else part == [])
  }

  /** Giving more to a response that is not complete leaves the wire a prefix. */
  lemma WireGrow(wire: Bytes, produced: seq<Bytes>, full: nat, part: Bytes, r: nat, more: Bytes)
    requires WireOk(wire, produced, full, part) && full <= r < |produced|
    ensures WireOk(wire, produced[r := produced[r] + more], full, part)
  {
    assert produced[r := produced[r] + more][..full] == produced[..full];
  }

  lemma WireNew(wire: Bytes, produced: seq<Bytes>, full: nat, part: Bytes)
    requires WireOk(wire, produced, full, part)
    ensures full == |produced| ==> part == []
    ensures WireOk(wire, produced + [[]], full, part)
  {
    assert (produced + [[]])[..full] == produced[..full];
  }

  lemma WireComplete(wire: Bytes, produced: seq<Bytes>, full: nat, part: Bytes)
    requires WireOk(wire, produced, full, part) && full < |produced| && part == produced[full]
    ensures WireOk(wire, produced, full + 1, [])
  {
    assert produced[..full + 1] == produced[..full] + [produced[full]];
    FlattenPush(produced[..full], produced[full]);
  }

  lemma WithHeaderContent(x: Response, data: Piece)
    requires !x.headerSent ==> x.output == []
    ensures var (y, d) := WithHeader(x, data);
            && Content(y.output) + d.bytes == Content(x.output) + (Head(x) + data.bytes)
            && y == x.(headerSent := true, output := y.output)
            && (x.headerSent ==> y.output == x.output)
            && d.isText == data.isText && (data.isText ==> y.output == x.output)
            && (!x.headerSent && !data.isText ==> y.output == [Piece(true, x.header)])
            && (data.bytes != [] || (data.isText && !x.headerSent && x.header != []) ==> d.bytes != [])
  {
    if !x.headerSent && !data.isText {
      var h := Piece(true, x.header);
      assert [h] + x.output == [h];
      assert Content([h]) == h.bytes + Content([]);
    }
  }

  class Connection {
    var responses: seq<Response>
    /** `socket._httpMessage` */
    var current: Option<nat>
    var outgoing: seq<nat>
    var incoming: seq<nat>
    var writable: bool
    /** The parser may still deliver requests. */
    var parsing: bool
    /** The bytes the socket has accepted. */
    var wire: Bytes

    /** Everything each response has been given to send. */
    ghost var produced: seq<Bytes>
    /** How many responses have emitted 'finish'. */
    ghost var done: nat
    ghost var full: nat
    ghost var part: Bytes
    /** The socket has failed, or the other side has ended it. */
    ghost var failed: bool

    ghost predicate Wire()
      reads this`wire, this`produced, this`full, this`part
    {
      WireOk(wire, produced, full, part)
    }

    ghost predicate Shape()
      reads this`responses, this`produced, this`done, this`full, this`incoming, this`parsing
    {
      && |produced| == |responses| && full <= done <= |responses|
      && (forall r :: 0 <= r < done ==> responses[r].finished && !responses[r].attached)
      && (incoming == Range(done, |responses|) || (!parsing && incoming == []))
    }

    /** Without a failure finished responses are sent in full; a writable socket has all of the one whose turn it is. */
    ghost predicate CaughtUp()
      reads this`writable, this`full, this`done, this`part, this`produced, this`failed
    {
      && (writable || !failed ==> full == done)
      && (writable && done < |produced| ==> part == produced[done])
    }

    /** The socket is open until it fails or the last response is over. */
    ghost predicate Life()
      reads this`writable, this`failed, this`responses, this`done
    {
      writable <==> !failed && NoneLast(responses, done)
    }

    /** All but the response on the socket wait. */
    ghost predicate Others()
      reads this`responses, this`produced, this`done, this`current
    {
      |produced| == |responses| &&
      forall r :: done <= r < |responses| && current != Some(r) ==> Waiting(responses[r], produced[r])
    }

    ghost predicate Orderly()
      reads this`responses, this`produced, this`done, this`current, this`outgoing, this`writable
    {
      && |produced| == |responses|
      && if done < |responses| then
           current == Some(done) && outgoing == Range(done + 1, |responses|)
           && Serving(responses[done], produced[done], writable)
         else current == None && outgoing == []
    }

    ghost predicate Stuck()
      reads this`responses, this`done, this`current, this`outgoing, this`writable
    {
      && !writable && (current.Some? ==> done <= current.value < |responses| && Stranded(responses[current.value]))
      && forall i :: 0 <= i < |outgoing| ==> outgoing[i] < |responses|
    }

    /** Holds whenever a handler may run. */
    ghost predicate Valid()
      reads this
    {
      Wire() && Shape() && CaughtUp() && Others() && Life() && ((Orderly() && (writable || failed)) || Stuck())
    }

    constructor ()
      ensures Valid() && writable && parsing && wire == [] && responses == []
    {
      responses, current, outgoing, incoming, writable, parsing, wire := [], None, [], [], true, true, [];
      produced, done, full, part, failed := [], 0, 0, [], false;
    }

    /** `socket.write(bytes)`; the socket may stop being writable at any time, and then drops what it is given. */
    method SocketWrite(bytes: Bytes)
      requires Wire() && (writable ==> full < |produced| && part + bytes <= produced[full])
      modifies this`wire, this`part, this`writable, this`failed
      ensures Wire() && (writable ==> old(writable) && part == old(part) + bytes)
      ensures Fails()
    {
      if !writable {
        return;
      }
      wire := wire + bytes;
      part := part + bytes;
      assert wire == Flatten(produced[..full]) + part;
      if * {
        writable, failed := false, true;
      }
    }

    /** The socket stops being writable by a failure only. */
    twostate predicate Fails()
      reads this`writable, this`failed
    {
      if writable == old(writable) then failed == old(failed) else !writable && failed
    }

    /** `_send` and `_writeRaw`: straight to the socket if it is this response's turn, else into its `output`. */
    method Send(r: nat, data: Piece)
      requires Valid() && r < |responses| && !responses[r].finished && responses[r].header != []
      requires data.bytes != [] || (data.isText && !responses[r].headerSent)
      modifies this
      ensures Valid() && |responses| == |old(responses)| && |produced| == |old(produced)| && incoming == old(incoming)
      ensures done == old(done) && outgoing == old(outgoing)
      ensures current == old(current) && parsing == old(parsing)
      ensures produced == old(produced)[r := old(produced)[r] + (Head(old(responses)[r]) + data.bytes)]
      ensures responses == old(responses)[r := responses[r]]
      ensures responses[r] == old(responses)[r].(headerSent := true, output := responses[r].output)
    {
      hide WireOk;
      hide Content;
      hide WithHeader;
      ghost var more := Head(responses[r]) + data.bytes;
      WithHeaderContent(responses[r], data);
      var (x, d) := WithHeader(responses[r], data);
      if x.attached && current == Some(r) && writable {
        SendNow(r, x, d, more);
      } else {
        SendLater(r, x, d, more);
      }
    }

    ghost predicate Sendable(r: nat, x: Response, d: Piece, more: Bytes)
      reads this`responses, this`produced
    {
      && r < |responses| == |produced| && !responses[r].finished && responses[r].header != []
      && x == responses[r].(headerSent := true, output := x.output)
      && Content(x.output) + d.bytes == Content(responses[r].output) + more && d.bytes != []
    }

    method SendLater(r: nat, x: Response, d: Piece, ghost more: Bytes)
      requires Valid() && Sendable(r, x, d, more) && !(x.attached && current == Some(r) && writable)
      modifies this`responses, this`produced
      ensures Valid()
      ensures produced == old(produced)[r := old(produced)[r] + more]
      ensures responses == old(responses)[r := x.(output := responses[r].output)]
    {
      hide NoneLast;
      hide WireOk;
      hide Content;
      hide Buffered;
      BufferedContent(x.output, d);
      ContentOfNone();
      WireGrow(wire, produced, full, part, r, more);
      NoneLastKept(responses, r, x.(output := Buffered(x.output, d)), done);
      responses := responses[r := x.(output := Buffered(x.output, d))];
      produced := produced[r := produced[r] + more];
    }

    method SendNow(r: nat, x: Response, d: Piece, ghost more: Bytes)
      requires Valid() && Sendable(r, x, d, more) && x.attached && current == Some(r) && writable
      modifies this`responses, this`produced, this`wire, this`part, this`writable, this`failed
      ensures Valid()
      ensures produced == old(produced)[r := old(produced)[r] + more]
      ensures responses == old(responses)[r := x.(output := responses[r].output)]
    {
      hide NoneLast;
      hide WireOk;
      hide Content;
      hide Buffered;
      hide Range;
      hide Waiting;
      ContentOfNone();
      assert [] + more == more;
      var output := Push(r, x.output, d, more);
      NoneLastKept(responses, r, x.(output := output), done);
      responses := responses[r := x.(output := output)];
    }

    /** What is buffered goes out, and then the data; yields what could not be sent. */
    method Push(r: nat, pieces: seq<Piece>, d: Piece, ghost more: Bytes) returns (output: seq<Piece>)
      requires Wire() && writable && full == r < |produced| && part == produced[r] && more == Content(pieces) + d.bytes
      modifies this`produced, this`wire, this`part, this`writable, this`failed
      ensures Wire() && produced == old(produced)[r := old(produced)[r] + more] && Fails()
      ensures writable ==> output == [] && part == produced[r]
      ensures output != [] ==> !writable
    {
      hide WireOk;
      hide Content;
      hide Buffered;
      WireGrow(wire, produced, full, part, r, more);
      produced := produced[r := produced[r] + more];
      Assoc(part, Content(pieces), d.bytes);
      output := Drain(pieces, d.bytes, r);
      if output != [] {
        output := Buffered(output, d);
        return;
      }
      SocketWrite(d.bytes);
    }

    /** The loop that sends what is buffered, as long as the socket is writable; yields what is left. */
    method Drain(pieces: seq<Piece>, ghost after: Bytes, ghost r: nat) returns (output: seq<Piece>)
      requires Wire() && full == r < |produced| && (writable ==> part + Content(pieces) + after <= produced[r])
      modifies this`wire, this`part, this`writable, this`failed
      ensures Wire() && (writable ==> old(writable) && output == [] && part == old(part) + Content(pieces)) && Fails()
      ensures output != [] ==> !writable && pieces != []
    {
      output := pieces;
      while output != []
        invariant Wire() && (output != [] ==> pieces != []) && Fails()
        invariant writable ==> old(writable) && part + Content(output) == old(part) + Content(pieces)
      {
        if !writable {
          return;
        }
        var c := output[0];
        assert Content(output) == c.bytes + Content(output[1..]);
        assert part + (c.bytes + Content(output[1..])) == part + c.bytes + Content(output[1..]);
        PrefixSteps(part, c.bytes, Content(output[1..]), after, produced[r]);
        output := output[1..];
        SocketWrite(c.bytes);
      }
      assert part + [] == part;
    }

    // ---------- taking turns ----------

    /** The response on the socket is over: the state in which it emits 'finish'. */
    ghost predicate Over()
      reads this
    {
      && Wire() && Shape() && CaughtUp() && Others() && Life() && done < |responses| && (writable || failed)
      && current == Some(done) && outgoing == Range(done + 1, |responses|)
      && responses[done].attached && responses[done].finished && responses[done].output == []
    }

    /** The listener of 'finish': detach the response and start on the next one. */
    method Finish(r: nat)
      requires Over() && r == done
      modifies this
      ensures Valid() && parsing == old(parsing) && produced == old(produced) && Kept(old(responses), responses)
      ensures done > old(done)
      ensures old(responses)[r].last ==> !writable && done == r + 1
      ensures !old(responses)[r].last && r + 1 < |responses| ==> done > r + 1 || current == Some(r + 1)
      decreases |responses| - done, 0
    {
      hide WireOk;
      hide Waiting;
      hide Range;
      hide NoneLast;
      hide CaughtUp;
      hide Others;
      RangeFacts(done, |responses|);
      RangeFacts(done + 1, |responses|);
      // assert(incoming.length == 0 || incoming[0] === req)
      assert incoming == [] || incoming[0] == r;
      Detach(r);
      if responses[r].last {
        Destroy(r);
      } else if outgoing != [] {
        NextTurn();
      } else {
        Idle();
      }
    }

    /** `socket.destroySoon()` after the last response. */
    method Destroy(r: nat)
      requires Detached(r) && responses[r].last
      modifies this`writable
      ensures Valid() && !writable
    {
      hide WireOk;
      hide Waiting;
      hide Range;
      writable := false;
    }

    /** Response `r` is off the socket, and the next one is not on it yet. */
    ghost predicate Detached(r: nat)
      reads this
    {
      && Wire() && Shape() && Others() && current == None && done == r + 1 && r < |responses|
      && outgoing == Range(done, |responses|) && (writable || failed)
      && (writable || !failed ==> full == done) && (writable ==> part == [])
      && (writable <==> !failed && NoneLast(responses, r))
    }

    /** No response waits. */
    lemma Idle()
      requires 0 < done && Detached(done - 1) && !responses[done - 1].last && outgoing == []
      ensures Valid()
    {
      hide NoneLast;
      hide WireOk;
      hide Waiting;
      RangeFacts(done, |responses|);
      NoneLastMore(responses, done - 1);
    }

    /** `incoming.shift()` and `detachSocket` */
    method Detach(r: nat)
      requires Over() && r == done
      modifies this`incoming, this`current, this`responses, this`done, this`full, this`part
      ensures Detached(r) && Kept(old(responses), responses)
    {
      hide Wire;
      hide CaughtUp;
      hide Waiting;
      hide Range;
      RangeFacts(done, |responses|);
      if incoming != [] {
        incoming := incoming[1..];
      }
      NoneLastKept(responses, r, responses[r].(attached := false), r);
      // assert(socket._httpMessage == this)
      assert current == Some(r);
      current := None;
      responses := responses[r := responses[r].(attached := false)];
      CountComplete();
      done := done + 1;
    }

    /** All of the response is on the wire, if the socket has been writable all along. */
    ghost method CountComplete()
      requires Wire() && CaughtUp() && full <= done < |produced| && (writable || failed)
      modifies this`full, this`part
      ensures Wire() && full <= done + 1 && (writable ==> full == done + 1 && part == [])
    {
      hide WireOk;
      if writable {
        WireComplete(wire, produced, full, part);
        full, part := full + 1, [];
      }
    }

    /** `assignSocket` of the first response in `outgoing`. */
    method NextTurn()
      requires 0 < done < |responses| && Detached(done - 1) && !responses[done - 1].last
      modifies this
      ensures Valid() && parsing == old(parsing) && produced == old(produced) && Kept(old(responses), responses)
      ensures done >= old(done) && (done == old(done) ==> current == Some(done))
      decreases |responses| - done, 2
    {
      hide NoneLast;
      hide WireOk;
      hide Content;
      hide Range;
      RangeFacts(done, |responses|);
      NoneLastMore(responses, done - 1);
      var m := outgoing[0];
      outgoing := outgoing[1..];
      assert Waiting(responses[m], produced[m]);
      NoneLastKept(responses, m, responses[m].(attached := true), done);
      Attach(m);
      Flush(m);
    }

    /** `_flush`: send what the response has buffered; if it is over already, go on to the next. */
    method Flush(m: nat)
      requires Wire() && Shape() && Others() && m == done < |responses|
      requires current == Some(m) && outgoing == Range(done + 1, |responses|)
      requires responses[m].attached && Backlog(responses[m], produced[m])
      requires (writable || failed) && Life() && (writable ==> full == done && part == [])
      modifies this
      ensures Valid() && parsing == old(parsing) && produced == old(produced) && Kept(old(responses), responses)
      ensures done >= old(done) && (done == old(done) ==> current == Some(done))
      decreases |responses| - done, 1
    {
      hide WireOk;
      hide Content;
      hide Range;
      hide Waiting;
      hide NoneLast;
      SendBacklog(m);
      if responses[m].output != [] {
        return;
      }
      if responses[m].finished {
        Finish(m);
      }
    }

    /** The loop of `_flush`. */
    method SendBacklog(m: nat)
      requires Wire() && Shape() && Others() && m == done < |responses| && current == Some(m)
      requires responses[m].attached && Backlog(responses[m], produced[m])
      requires (writable || failed) && Life() && (writable ==> full == done && part == [])
      requires !failed ==> full == done
      modifies this`responses, this`wire, this`part, this`writable, this`failed
      ensures Wire() && Shape() && Others() && Life() && CaughtUp() && (writable || failed)
      ensures responses == old(responses)[m := old(responses)[m].(output := responses[m].output)]
      ensures responses[m].output != [] ==> !writable && old(responses)[m].output != []
    {
      hide WireOk;
      hide Content;
      hide Waiting;
      hide NoneLast;
      ContentOfNone();
      var x := responses[m];
      var output := x.output;
      if writable {
        assert part + Content(output) + [] == produced[m];
        output := Drain(output, [], m);
      }
      NoneLastKept(responses, m, x.(output := output), done);
      responses := responses[m := x.(output := output)];
    }

    // ---------- what handlers call ----------

    /** `writeHead` and `_storeHeader`: some header, and what it decides about the body and the connection. */
    method StoreHeader(r: nat)
      requires Valid() && r < |responses| && responses[r].header == [] && !responses[r].headerSent
      requires !responses[r].finished
      modifies this`responses
      ensures Valid() && responses == old(responses)[r := responses[r]] && responses[r].header != []
      ensures responses[r].finished == old(responses)[r].finished && !responses[r].headerSent
    {
      hide NoneLast;
      hide WireOk;
      hide Content;
      // 'HTTP/1.1 ...'
      var rest: Bytes := *;
      var header := [72] + rest;
      var chunked: bool, hasBody: bool, last: bool, trailer: Bytes := *, *, *, *;
      var x := responses[r].(header := header, chunked := chunked, hasBody := hasBody, last := last, trailer := trailer);
      NoneLastKept(responses, r, x, done);
      responses := responses[r := x];
    }

    ghost predicate Writing(r: nat)
      reads this
    {
      && Valid() && r < |responses| == |produced| && !responses[r].finished
      && (responses[r].headerSent ==> responses[r].header != [])
    }

    /** The response has been given its header, with the first byte of the body, and the body so far. */
    ghost predicate Started(r: nat, datas: seq<Bytes>)
      requires r < |responses| == |produced|
      reads this`responses, this`produced
    {
      && (responses[r].headerSent <==> Body(responses[r], datas) != [])
      && produced[r] == Given(responses[r].header, Body(responses[r], datas))
    }

    /** `write(data)`: the response gets the header, if it has not gone out, and the framed data. */
    method Write(r: nat, data: Bytes, isText: bool)
      requires Writing(r)
      modifies this
      ensures Writing(r) && |responses| == |old(responses)| && |produced| == |old(produced)|
      ensures var x := responses[r];
              var body := Framed(x, data);
              produced == old(produced)[r := old(produced)[r] +
                            if body == [] then [] else (if old(responses)[r].headerSent then [] else x.header) + body]
      ensures old(responses)[r].header != [] ==>
                responses[r] == old(responses)[r].(headerSent := responses[r].headerSent, output := responses[r].output)
      ensures responses[r].header != []
      ensures responses[r].headerSent == (old(responses)[r].headerSent || Framed(responses[r], data) != [])
      ensures responses == old(responses)[r := responses[r]]
      ensures done == old(done) && current == old(current) && outgoing == old(outgoing)
    {
      hide Wire;
      hide Shape;
      hide CaughtUp;
      hide Others;
      hide Orderly;
      hide Stuck;
      if responses[r].header == [] {
        StoreHeader(r);
      }
      if !responses[r].hasBody || data == [] {
        assert produced[r] + [] == produced[r];
        return;
      }
      if responses[r].chunked {
        WriteChunk(r, data, isText);
      } else {
        Send(r, Piece(isText, data));
      }
    }

    method WriteChunk(r: nat, data: Bytes, isText: bool)
      requires Writing(r) && responses[r].header != [] && data != []
      modifies this
      ensures Writing(r) && |responses| == |old(responses)|
      ensures produced == old(produced)[r := old(produced)[r] + (Head(old(responses)[r]) + Chunk(data))]
      ensures responses == old(responses)[r := old(responses)[r].(headerSent := true, output := responses[r].output)]
      ensures done == old(done) && current == old(current) && outgoing == old(outgoing)
    {
      hide Wire;
      hide Shape;
      hide CaughtUp;
      hide Others;
      hide Orderly;
      hide Stuck;
      hide Hex;
      if isText {
        Send(r, Piece(true, Chunk(data)));
      } else {
        ghost var head, p := Head(responses[r]), produced[r];
        Send(r, Piece(true, Hex(|data|) + CRLF));
        Send(r, Piece(false, data));
        Send(r, Piece(true, CRLF));
        ChunkOfThree(p, head, data);
      }
    }

    /** `end(data)`: header, body and closing bytes are complete, and if it is this response's turn it is over. */
    method End(r: nat, data: Bytes, isText: bool)
      requires Writing(r)
      modifies this
      ensures Valid() && |responses| == |old(responses)| && |produced| == |old(produced)|
      ensures responses[r].finished && responses[r].header != []
      ensures var x := responses[r];
              produced == old(produced)[r := old(produced)[r] +
                            ((if old(responses)[r].headerSent then [] else x.header) + (Framed(x, data) + Closing(x)))]
      ensures SameFraming(old(responses)[r := responses[r]], responses)
      ensures old(responses)[r].header != [] ==>
                Framing(responses[r]) == Framing(old(responses)[r]).(headerSent := true, finished := true)
    {
      hide Wire;
      hide Shape;
      hide CaughtUp;
      hide Others;
      hide Orderly;
      hide Stuck;
      hide Chunk;
      hide LastChunk;
      if responses[r].header == [] {
        StoreHeader(r);
      }
      var body := if responses[r].hasBody then data else [];
      var x := responses[r];
      if !x.headerSent && body != [] && x.output == [] && x.attached && writable && current == Some(r) {
        EndHot(r, body, isText);
      } else {
        EndNormally(r, body, isText);
      }
      MarkFinished(r);
    }

    /** Header, body and closing bytes in a single write to the socket. */
    method EndHot(r: nat, data: Bytes, isText: bool)
      requires Writing(r) && responses[r].header != [] && !responses[r].headerSent && responses[r].output == []
      requires responses[r].hasBody && data != [] && responses[r].attached && writable && current == Some(r)
      modifies this
      ensures Writing(r) && |responses| == |old(responses)|
      ensures responses == old(responses)[r := old(responses)[r].(headerSent := true, output := responses[r].output)]
      ensures produced == old(produced)[r := old(produced)[r] +
                            (Head(old(responses)[r]) + (Framed(old(responses)[r], data) + Closing(old(responses)[r])))]
    {
      hide WireOk;
      hide Content;
      hide Hex;
      var x := responses[r];
      var bytes;
      if isText {
        if x.chunked {
          HotLayout(x.header, Hex(|data|), data, x.trailer);
          bytes := x.header + Hex(|data|) + CRLF + data + (CRLF + ZERO + CRLF) + x.trailer + CRLF;
        } else {
          bytes := x.header + data;
        }
      } else if x.chunked {
        var buf := HotBuffer(x.header, data, x.trailer);
        bytes := buf[..];
      } else {
        var buf := HotPlainBuffer(x.header, data);
        bytes := buf[..];
      }
      assert bytes == x.header + (Framed(x, data) + Closing(x));
      ContentOfNone();
      assert [] + bytes == bytes;
      SendNow(r, x.(headerSent := true), Piece(true, bytes), bytes);
    }

    /** The body as in `write`, then the last chunk, or an empty string that forces the header out. */
    method EndNormally(r: nat, data: Bytes, isText: bool)
      requires Writing(r) && responses[r].header != [] && (data != [] ==> responses[r].hasBody)
      modifies this
      ensures Writing(r) && |responses| == |old(responses)|
      ensures responses == old(responses)[r := old(responses)[r].(headerSent := true, output := responses[r].output)]
      ensures produced == old(produced)[r := old(produced)[r] +
                            (Head(old(responses)[r]) + (Framed(old(responses)[r], data) + Closing(old(responses)[r])))]
    {
      hide Wire;
      hide Shape;
      hide CaughtUp;
      hide Others;
      hide Orderly;
      hide Stuck;
      hide Chunk;
      hide LastChunk;
      ghost var p, h := produced[r], Head(responses[r]);
      if data != [] {
        Write(r, data, isText);
      }
      ghost var q := produced[r];
      var x := responses[r];
      if x.chunked {
        LastChunkLength(x.trailer);
        Send(r, Piece(true, LastChunk(x.trailer)));
      } else if !x.headerSent {
        Send(r, Piece(true, []));
      }
      EndLayout(p, h, Framed(x, data), Closing(x));
    }

    // ---------- what the socket and the parser call ----------

    /** `parser.onIncoming`: a request, and the response that will answer it. */
    method OnIncoming() returns (r: nat)
      requires Valid() && parsing
      modifies this
      ensures Valid() && parsing && r == |old(responses)| && |responses| == r + 1 && done == old(done)
      ensures Writing(r) && wire == old(wire) && produced == old(produced) + [[]] && responses[..r] == old(responses)
      ensures current == (if old(current) == None then Some(r) else old(current))
      ensures outgoing == old(outgoing) + if old(current) == None then [] else [r]
      ensures responses[r] == Response(output := [], header := [], headerSent := false, chunked := false, hasBody := true,
                                       trailer := [], finished := false, last := false, attached := old(current) == None)
    {
      hide NoneLast;
      hide WireOk;
      hide Waiting;
      hide Serving;
      hide Stranded;
      hide Range;
      hide Shape;
      hide CaughtUp;
      NoneLastNew(responses, Fresh(), done);
      r := AddRequest();
      FreshStarts(writable);
      if current.Some? {
        if done < r {
          RangeFacts(done + 1, r);
        }
        outgoing := outgoing + [r];
      } else {
        // assignSocket; there is nothing to flush yet
        RangeFacts(r + 1, r + 1);
        NoneLastKept(responses, r, responses[r].(attached := true), done);
        Attach(r);
      }
    }

    method Attach(r: nat)
      requires Shape() && Others() && current == None && done <= r < |responses|
      modifies this`current, this`responses
      ensures Shape() && Others() && current == Some(r)
      ensures responses == old(responses)[r := old(responses)[r].(attached := true)]
    {
      hide Waiting;
      hide Range;
      // assert(!socket._httpMessage)
      assert current == None;
      current := Some(r);
      responses := responses[r := responses[r].(attached := true)];
    }

    /** `incoming.push(req)` and `new ServerResponse(req)` */
    method AddRequest() returns (r: nat)
      requires Wire() && Shape() && CaughtUp() && Others() && parsing
      modifies this`incoming, this`responses, this`produced
      ensures Wire() && Shape() && CaughtUp() && Others() && r == |old(responses)| && done <= r
      ensures responses == old(responses) + [Fresh()] && produced == old(produced) + [[]]
    {
      hide Waiting;
      hide Range;
      hide WireOk;
      FreshStarts(writable);
      r := |responses|;
      RangeFacts(done, r);
      WireNew(wire, produced, full, part);
      incoming := incoming + [r];
      responses, produced := responses + [Fresh()], produced + [[]];
    }

    /** `socket.onend` (half-open connections not allowed) and 'close': no more requests, nothing more to send. */
    method OnEnd()
      requires Valid()
      modifies this`incoming, this`parsing, this`writable, this`failed
      ensures Valid() && !parsing && !writable && incoming == []
    {
      hide NoneLast;
      hide WireOk;
      incoming := [];
      parsing := false;
      writable, failed := false, true;
    }

    /** `socket.onend` with half-open connections allowed: the last response closes the connection. */
    method OnHalfOpenEnd()
      requires Valid()
      modifies this`responses, this`parsing, this`writable, this`failed
      ensures Valid() && !parsing && |responses| == |old(responses)| && SameFraming(old(responses), responses)
      ensures current.None? && outgoing == [] ==> !writable
      ensures outgoing != [] || current.Some? ==>
                var k := if outgoing != [] then outgoing[|outgoing| - 1] else current.value;
                k < |responses| && responses == old(responses)[k := old(responses)[k].(last := true)]
    {
      hide WireOk;
      parsing := false;
      if outgoing != [] {
        MarkLast(outgoing[|outgoing| - 1]);
      } else if current.Some? {
        MarkLast(current.value);
      } else {
        writable, failed := false, true;
      }
    }

    method MarkLast(k: nat)
      requires Valid() && k < |responses| && (writable ==> done <= k)
      modifies this`responses
      ensures Valid() && responses == old(responses)[k := old(responses)[k].(last := true)]
      ensures SameFraming(old(responses), responses)
    {
      hide NoneLast;
      hide WireOk;
      hide Waiting;
      hide Serving;
      hide Stranded;
      hide Range;
      LastIsFree(responses[k], produced[k], writable);
      NoneLastMarked(responses, k, done);
      responses := responses[k := responses[k].(last := true)];
    }

    /** A response that `end` is done with: `finished` is set, and 'finish' follows if all of it has been sent. */
    method MarkFinished(r: nat)
      requires Writing(r) && responses[r].headerSent
      modifies this
      ensures Valid() && |responses| == |old(responses)| && produced == old(produced)
      ensures Kept(old(responses)[r := old(responses)[r].(finished := true)], responses)
    {
      hide NoneLast;
      hide WireOk;
      hide Content;
      hide Range;
      NoneLastKept(responses, r, responses[r].(finished := true), done);
      responses := responses[r := responses[r].(finished := true)];
      if responses[r].output == [] {
        // `this.connection` is not null here
        assert responses[r].attached;
        if current == Some(r) {
          Finish(r);
        }
      }
    }

    /** Any response that has not been ended may be written to. */
    lemma Writes(r: nat)
      requires Valid() && r < |responses| && !responses[r].finished
      ensures Writing(r)
    {
      assert current != Some(r) ==> Waiting(responses[r], produced[r]);
    }

    /** Anything that may happen between two calls of the handler of response `r`. */
    method Elsewhere(r: nat)
      requires Writing(r)
      modifies this
      ensures Writing(r) && produced[r] == old(produced)[r] && Framing(responses[r]) == Framing(old(responses)[r])
    {
      hide Valid;
      hide Framed;
      hide Closing;
      var steps: nat := *;
      while steps > 0
        invariant Writing(r) && produced[r] == old(produced)[r] && Framing(responses[r]) == Framing(old(responses)[r])
        decreases steps
      {
        var q: nat, data: Bytes, isText: bool := *, *, *;
        if * {
          if parsing {
            var _ := OnIncoming();
          }
        } else if * {
          OnEnd();
        } else if * {
          OnHalfOpenEnd();
        } else if q < |responses| && q != r && !responses[q].finished {
          Writes(q);
          if * {
            Write(q, data, isText);
          } else {
            End(q, data, isText);
          }
        }
        Writes(r);
        steps := steps - 1;
      }
    }

    /**
     * A whole response, whatever else happens in between, and whether its header is written first or left to the first
     * write: header and body are what it has been given to send. A chunked body decodes to everything written to it, empty
     * writes included; any other body is what was written to it.
     */
    method Respond(r: nat, datas: seq<Bytes>, final: Bytes) returns (ghost body: Bytes)
      requires Writing(r) && !responses[r].headerSent && produced[r] == []
      modifies this
      ensures Valid() && r < |responses| == |produced| && responses[r].finished && responses[r].header != []
      ensures produced[r] == responses[r].header + body
      ensures responses[r].hasBody && responses[r].chunked ==>
                DecodeChunked(body) == Some((Flatten(datas + [final]), responses[r].trailer + CRLF))
      ensures responses[r].hasBody && !responses[r].chunked ==> body == Flatten(datas + [final])
      ensures !responses[r].hasBody ==> body == Closing(responses[r])
      ensures old(responses)[r].header != [] ==>
                Framing(responses[r]) == Framing(old(responses)[r]).(headerSent := true, finished := true)
    {
      hide Valid;
      hide Framed;
      hide Closing;
      hide Body;
      hide Flatten;
      SameBody(responses[r], responses[r], []);
      assert datas[..0] == [];
      for k := 0 to |datas|
        invariant Writing(r) && Started(r, datas[..k])
        invariant responses[r].header == [] ==> k == 0 && !responses[r].headerSent
        invariant old(responses)[r].header != [] ==>
                    Framing(responses[r]) == Framing(old(responses)[r]).(headerSent := responses[r].headerSent)
      {
        var isText: bool := *;
        ghost var x := responses[r];
        Write(r, datas[k], isText);
        SameBody(x, responses[r], datas[..k]);
        BodyMore(responses[r], datas[..k], datas[k]);
        assert datas[..k + 1] == datas[..k] + [datas[k]];
        x := responses[r];
        Elsewhere(r);
        SameBody(x, responses[r], datas[..k + 1]);
      }
      assert datas[..|datas|] == datas;
      var isText: bool := *;
      ghost var x := responses[r];
      End(r, final, isText);
      SameBody(x, responses[r], datas);
      BodyMore(responses[r], datas, final);
      BodyReads(responses[r], datas + [final]);
      body := Body(responses[r], datas + [final]) + Closing(responses[r]);
    }

    /**
     * However handlers interleave: the wire holds complete responses, in the order of their requests, and then
     * a prefix of the next; each of those complete responses has been ended.
     */
    lemma WireInOrder()
      requires Valid()
      ensures full <= |produced| == |responses|
      ensures wire == Flatten(produced[..full]) + part
      ensures part <= if full < |produced| then produced[full] else []
      ensures forall r :: 0 <= r < full ==> responses[r].finished
    {
    }

    /** While the socket is writable nothing waits that could be sent: only the first unfinished response is active. */
    lemma NothingHeldBack()
      requires Valid() && writable
      ensures full == done
      ensures (done < |responses| ==> current == Some(done) && part == produced[done] && !responses[done].finished)
    {
    }

    /** Without a failure, the turn passes on until a response closes the connection. */
    lemma NextIsServed()
      requires Valid() && !failed && NoneLast(responses, done)
      ensures writable && full == done
      ensures done < |responses| ==>
                current == Some(done) && responses[done].attached && part == produced[done] && !responses[done].finished
    {
      hide WireOk;
    }

    /** Without a failure, all responses up to `k` that have ended, none of them the last, have been sent. */
    lemma EndedAreSent(k: nat)
      requires Valid() && !failed && k < |responses|
      requires forall r :: 0 <= r <= k ==> responses[r].finished && !responses[r].last
      ensures full > k && (k + 1 == |responses| || !responses[k + 1].finished ==> full == k + 1)
    {
      hide WireOk;
      if done <= k {
        NextIsServed();
      }
    }

    /** After a response that closes the connection the socket is closed, and before that only a failure closes it. */
    lemma ClosedByLast()
      requires Valid()
      ensures writable <==> !failed && NoneLast(responses, done)
    {
    }
  }

  lemma {:induction false} ChunkOfThree(p: Bytes, head: Bytes, data: Bytes)
    ensures p + (head + (Hex(|data|) + CRLF)) + ([] + data) + ([] + CRLF) == p + (head + Chunk(data))
  {
    hide Hex;
  }

  /** The writes that are not empty. */
  function Solid(datas: seq<Bytes>): seq<Bytes> {
    if datas == [] then []
    else Solid(datas[..|datas| - 1]) + if datas[|datas| - 1] == [] then [] else [datas[|datas| - 1]]
  }

  lemma SolidEmpty()
    ensures Solid([]) == []
  {
  }

  lemma {:induction false} SolidContent(datas: seq<Bytes>)
    ensures Flatten(Solid(datas)) == Flatten(datas)
    ensures forall i :: 0 <= i < |Solid(datas)| ==> Solid(datas)[i] != []
  {
    hide Flatten;
    if datas == [] {
      SolidEmpty();
    } else {
      var init, last := datas[..|datas| - 1], datas[|datas| - 1];
      SolidContent(init);
      assert datas == init + [last];
      FlattenPush(init, last);
      FlattenPush(Solid(init), last);
      if last == [] {
        assert Solid(init) + [] == Solid(init) && Flatten(init) + [] == Flatten(init);
      }
    }
  }

  lemma {:induction false} ChunksPush(datas: seq<Bytes>, data: Bytes)
    ensures Chunks(datas + [data]) == Chunks(datas) + Chunk(data)
  {
    hide Chunk;
    if datas == [] {
      assert ([] + [data])[1..] == [];
    } else {
      ChunksPush(datas[1..], data);
      assert (datas + [data])[1..] == datas[1..] + [data];
      assert Chunk(datas[0]) + (Chunks(datas[1..]) + Chunk(data)) == Chunk(datas[0]) + Chunks(datas[1..]) + Chunk(data);
    }
  }

  /** The bytes of the body after the writes `datas`. */
  function Body(x: Response, datas: seq<Bytes>): Bytes {
    if datas == [] then [] else Body(x, datas[..|datas| - 1]) + Framed(x, datas[|datas| - 1])
  }

  /** The header goes out with the first bytes of the body. */
  function Given(header: Bytes, body: Bytes): Bytes {
    if body == [] then [] else header + body
  }

  /** One more write, and what `end` adds. */
  lemma BodyMore(x: Response, datas: seq<Bytes>, data: Bytes)
    ensures var body, more := Body(x, datas), Framed(x, data);
              var start, given := if body != [] then [] else x.header, Given(x.header, body);
              && Body(x, datas + [data]) == body + more
              && (given + if more == [] then [] else start + more) == Given(x.header, body + more)
              && given + (start + (more + Closing(x))) == x.header + (body + more + Closing(x))
  {
    hide Framed;
    hide Closing;
    assert (datas + [data])[..|datas|] == datas;
    if Body(x, datas) == [] {
      assert Body(x, datas) + Framed(x, data) == Framed(x, data);
    }
  }

  /** The header decides how the body is framed, before anything is written. */
  lemma {:induction false} SameBody(x: Response, y: Response, datas: seq<Bytes>)
    requires datas == [] || (x.hasBody == y.hasBody && x.chunked == y.chunked)
    ensures Body(x, datas) == Body(y, datas)
    ensures datas == [] ==> Body(x, datas) == [] && Given(x.header, []) == Given(y.header, []) == []
  {
    if datas != [] {
      SameBody(x, y, datas[..|datas| - 1]);
    }
  }

  /** What a reader makes of the body. */
  lemma BodyReads(x: Response, datas: seq<Bytes>)
    ensures x.hasBody && x.chunked ==>
              DecodeChunked(Body(x, datas) + Closing(x)) == Some((Flatten(datas), x.trailer + CRLF))
    ensures x.hasBody && !x.chunked ==> Body(x, datas) + Closing(x) == Flatten(datas)
    ensures !x.hasBody ==> Body(x, datas) + Closing(x) == Closing(x)
  {
    hide Flatten;
    hide DecodeChunked;
    BodyAsChunks(x, datas);
    BodyDecodes(datas, x.trailer);
  }

  lemma {:induction false} BodyAsChunks(x: Response, datas: seq<Bytes>)
    ensures Body(x, datas) == if !x.hasBody then [] else if x.chunked then Chunks(Solid(datas)) else Flatten(datas)
  {
    hide Flatten;
    hide Chunk;
    if datas == [] {
      FlattenNone<byte>();
    } else {
      var init, last := datas[..|datas| - 1], datas[|datas| - 1];
      BodyAsChunks(x, init);
      assert datas == init + [last];
      FlattenPush(init, last);
      ChunksPush(Solid(init), last);
      assert Solid(init) + [] == Solid(init);
    }
  }

  lemma BodyDecodes(datas: seq<Bytes>, trailer: Bytes)
    ensures DecodeChunked(Chunks(Solid(datas)) + LastChunk(trailer)) == Some((Flatten(datas), trailer + CRLF))
  {
    hide *;
    SolidContent(datas);
    DecodeInvertsChunks(Solid(datas), trailer, []);
    assert Chunks(Solid(datas)) + LastChunk(trailer) + [] == Chunks(Solid(datas)) + LastChunk(trailer);
    assert trailer + CRLF + [] == trailer + CRLF;
  }

  lemma LastChunkLength(trailer: Bytes)
    ensures LastChunk(trailer) != []
  {
  }

  lemma EndLayout(p: Bytes, head: Bytes, body: Bytes, closing: Bytes)
    ensures p + (head + body) + ([] + closing) == p + (head + (body + closing))
    ensures p + (head + closing) == p + (head + ([] + closing))
    ensures p + (head + body) == p + (head + (body + []))
    ensures p == p + ([] + ([] + []))
  {
  }

  lemma ContentOfNone()
    ensures Content([]) == []
  {
  }

  lemma PrefixSteps(a: Bytes, b: Bytes, c: Bytes, d: Bytes, whole: Bytes)
    requires a + b + c + d <= whole
    ensures a + b <= whole
  {
    assert a + b <= a + b + c + d;
  }

  /** Every run: requests arrive, handlers write to and end any of their responses, and the socket may fail at any time. */
  method AnyRun(steps: nat) returns (c: Connection)
    ensures fresh(c) && c.Valid()
    ensures c.full <= |c.produced| == |c.responses|
    ensures c.wire == Flatten(c.produced[..c.full]) + c.part
    ensures c.part <= if c.full < |c.produced| then c.produced[c.full] else []
    ensures !c.failed && (forall r :: 0 <= r < |c.responses| ==> c.responses[r].finished && !c.responses[r].last) ==>
              c.wire == Flatten(c.produced)
  {
    hide Flatten;
    c := new Connection();
    for k := 0 to steps
      invariant fresh(c) && c.Valid()
    {
      var r: nat, data: Bytes, isText: bool := *, *, *;
      if * {
        if c.parsing {
          r := c.OnIncoming();
        }
      } else if * {
        c.OnEnd();
      } else if * {
        c.OnHalfOpenEnd();
      } else if r < |c.responses| && !c.responses[r].finished {
        c.Writes(r);
        if * {
          c.Write(r, data, isText);
        } else {
          c.End(r, data, isText);
        }
      }
    }
    c.WireInOrder();
    var n := |c.responses|;
    if !c.failed && (forall r :: 0 <= r < n ==> c.responses[r].finished && !c.responses[r].last) {
      if n > 0 {
        c.EndedAreSent(n - 1);
      }
      assert c.produced[..n] == c.produced;
      assert c.part == [] && c.wire == Flatten(c.produced) + [];
    }
  }
}
