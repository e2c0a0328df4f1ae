/** Message framing of the V8 debugger protocol: `Protocol` in lib/_debugger.js. */
module Debugger {
  import opened Common
  import opened Encodings

  /** A character of a string, as its UTF-8 bytes. */
  type Char = c: seq<byte> | IsChar(c) witness [0]

  type Text = seq<Char>

  /** `Buffer.byteLength(text, 'utf8')` */
  function ByteLength(text: Text): nat {
    |Flatten(text)|
  }

  const REPLACEMENT: Char := [0xEF, 0xBF, 0xBD]

  /** `buf.toString('utf8')` */
  function Chars(bytes: seq<byte>): Text {
    if bytes == [] then []
    else if StartsWithChar(bytes) then [bytes[..CharSize(bytes[0])]] + Chars(bytes[CharSize(bytes[0])..])
    else [REPLACEMENT] + Chars(bytes[1..])
  }

  lemma {:induction false} CharsOfBytes(text: Text)
    ensures Chars(Flatten(text)) == text
  {
    if text != [] {
      CharsOfBytes(text[1..]);
      var c, rest := text[0], Flatten(text[1..]);
      ConcatSlices(c, rest, |c|);
      assert c[..|c|] == c && c[|c|..] == [] && [] + rest == rest;
      assert Flatten(text) == c + rest;
    }
  }

  lemma ByteLengthConcat(a: Text, b: Text)
    ensures ByteLength(a + b) == ByteLength(a) + ByteLength(b)
    ensures Flatten(a + b) == Flatten(a) + Flatten(b)
  {
    FlattenConcat(a, b);
  }

  /** Every character has at least one byte. */
  lemma {:induction false} ByteLengthAtLeast(text: Text)
    ensures |text| <= ByteLength(text)
  {
    if text != [] {
      ByteLengthAtLeast(text[1..]);
    }
  }

  // ---------- headers ----------

  function Byte(b: byte): (c: Char)
    requires b < 0x80
  {
    var c: seq<byte> := [b];
    assert c[..1] == c;
    c
  }

  const CR: Char := Byte(13)
  const LF: Char := Byte(10)
  const COLON: Char := Byte(58)
  const SPACE: Char := Byte(32)
  const BLANK: Text := [CR, LF, CR, LF]

  predicate BlankAt(s: Text, i: nat) {
    i + 4 <= |s| && s[i..i + 4] == BLANK
  }

  lemma BlankShifts(s: Text)
    requires s != []
    ensures forall i :: 1 <= i ==> (BlankAt(s, i) <==> BlankAt(s[1..], i - 1))
  {
    forall i | 1 <= i
      ensures BlankAt(s, i) <==> BlankAt(s[1..], i - 1)
    {
      if i + 4 <= |s| {
        assert s[i..i + 4] == s[1..][i - 1..i + 3];
      }
    }
  }

  /** `s.indexOf('\\r\\n\\r\\n')` */
  function FindBlank(s: Text): (r: Option<nat>)
    ensures r.Some? ==> BlankAt(s, r.value) && forall i :: 0 <= i < r.value ==> !BlankAt(s, i)
    ensures r.None? ==> forall i: nat :: !BlankAt(s, i)
  {
    if |s| < 4 then None
    else if BlankAt(s, 0) then Some(0)
    else
      BlankShifts(s);
      match FindBlank(s[1..])
      case None => None
      case Some(k) => Some(k + 1)
  }

  /** `header.split('\\r\\n')` */
  function Lines(s: Text): (r: seq<Text>)
    ensures |r| >= 1
  {
    if s == [] then [[]]
    else if |s| >= 2 && s[0] == CR && s[1] == LF then [[]] + Lines(s[2..])
    else
      var r := Lines(s[1..]);
      [[s[0]] + r[0]] + r[1..]
  }

  /** Where the first `: ` of a line is, or its length. */
  function FindColon(line: Text): (k: nat)
    ensures k <= |line| && (k < |line| ==> k + 1 < |line|)
  {
    if |line| < 2 then |line| else if line[0] == COLON && line[1] == SPACE then 0 else 1 + FindColon(line[1..])
  }

  function SkipSpaces(s: Text): Text {
    if s != [] && s[0] == SPACE then SkipSpaces(s[1..]) else s
  }

  /** `line.split(/: +/)`: the key, and the value if there is one. */
  function KeyValue(line: Text): (Text, Option<Text>) {
    var k := FindColon(line);
    if k == |line| then (line, None)
    else
      var rest := SkipSpaces(line[k + 1..]);
      (line[..k], Some(rest[..FindColon(rest)]))
  }

  predicate IsDigit(c: Char) {
    |c| == 1 && 48 <= c[0] < 58
  }

  /** `+value` for a string of decimal digits; anything else counts as not a number. */
  function Number(s: Text): Option<nat> {
    if s == [] then Some(0)
    else
      var init := Number(s[..|s| - 1]);
      if init.Some? && IsDigit(s[|s| - 1]) then Some(10 * init.value + (s[|s| - 1][0] - 48)) else None
  }

  const CONTENT_LENGTH: Text :=
    [Byte(67), Byte(111), Byte(110), Byte(116), Byte(101), Byte(110), Byte(116), Byte(45),
     Byte(76), Byte(101), Byte(110), Byte(103), Byte(116), Byte(104)]

  /** `+headers['Content-Length']`: a later line overrides an earlier one. */
  function LengthOf(lines: seq<Text>): Option<nat> {
    if lines == [] then None
    else
      var (key, value) := KeyValue(lines[|lines| - 1]);
      if key == CONTENT_LENGTH then (if value.Some? then Number(value.value) else None)
      else LengthOf(lines[..|lines| - 1])
  }

  // ---------- messages ----------

  datatype Message = Message(header: Text, body: Text)

  ghost predicate NoBlank(header: Text) {
    forall i :: 0 <= i < |header| ==> !BlankAt(header + BLANK, i)
  }

  /** The header contains no blank line and announces the length of the body. */
  ghost predicate WellFormed(m: Message) {
    && NoBlank(m.header)
    && LengthOf(Lines(m.header)) == Some(ByteLength(m.body))
  }

  function Wire(m: Message): Text {
    m.header + BLANK + m.body
  }

  function Stream(ms: seq<Message>): Text {
    if ms == [] then [] else Wire(ms[0]) + Stream(ms[1..])
  }

  lemma PrefixOfSame<T>(a: seq<T>, b: seq<T>, c: seq<T>, d: seq<T>)
    requires a + b == c + d
    ensures |a| <= |c| ==> a == c[..|a|]
    ensures |a| >= |c| ==> c == a[..|c|] && a == c + a[|c|..] && a[|c|..] + b == d
  {
    var w := a + b;
    assert w[..|a|] == a && w[..|c|] == c && w[|c|..] == d && w[|a|..] == b;
    if |a| <= |c| {
      assert a == w[..|c|][..|a|];
    } else {
      assert c == w[..|a|][..|c|];
      assert w[|c|..] == a[|c|..] + b;
    }
  }

  lemma BlankInExtension(a: Text, b: Text, i: nat)
    requires i + 4 <= |a|
    ensures BlankAt(a + b, i) <==> BlankAt(a, i)
  {
    assert (a + b)[i..i + 4] == a[i..i + 4];
  }

  lemma FirstBlankIs(s: Text, k: nat)
    requires BlankAt(s, k) && forall i :: 0 <= i < k ==> !BlankAt(s, i)
    ensures FindBlank(s) == Some(k)
  {
    hide BlankAt;
    hide FindBlank;
    var r := FindBlank(s);
    assert r.Some? && !(r.value < k) && !(k < r.value);
  }

  /** The blank line that ends a header is its first one. */
  lemma BlankEndsHeader(header: Text, tail: Text)
    requires NoBlank(header)
    ensures FindBlank(header + BLANK + tail) == Some(|header|)
  {
    hide FindBlank;
    hide BlankAt;
    var h := header + BLANK;
    BlankAtEnd(header);
    BlankInExtension(h, tail, |header|);
    forall i | 0 <= i < |header|
      ensures !BlankAt(h + tail, i)
    {
      BlankInExtension(h, tail, i);
    }
    FirstBlankIs(h + tail, |header|);
  }

  lemma NoBlankBefore(header: Text, raw: Text, missing: Text)
    requires NoBlank(header) && raw + missing == header + BLANK && missing != []
    ensures FindBlank(raw) == None
  {
    hide FindBlank;
    hide BlankAt;
    var r := FindBlank(raw);
    if r.Some? {
      BlankFits(raw, r.value);
      BlankInExtension(raw, missing, r.value);
      assert false;
    }
  }

  /** What has arrived of a stream shows its first blank line once the header is complete, and not before. */
  lemma BlankInPrefix(m: Message, raw: Text, rest: Text, more: Text)
    requires WellFormed(m) && raw + rest == Wire(m) + more
    ensures |raw| < |m.header| + 4 ==> FindBlank(raw) == None
    ensures |raw| >= |m.header| + 4 ==> FindBlank(raw) == Some(|m.header|) && raw[..|m.header|] == m.header
  {
    hide FindBlank;
    hide NoBlank;
    hide LengthOf;
    hide Lines;
    var b := BLANK;
    var h := m.header + b;
    StreamHead(m.header, b, m.body, more);
    HeaderArrives(m.header, b, m.body + more, raw, rest);
    if |raw| < |h| {
      NoBlankBefore(m.header, raw, h[|raw|..]);
    } else {
      BlankEndsHeader(m.header, raw[|h|..]);
    }
  }

  lemma StreamHead<T>(header: seq<T>, blank: seq<T>, body: seq<T>, more: seq<T>)
    ensures header + blank + body + more == header + blank + (body + more)
  {
  }

  lemma HeaderArrives<T>(header: seq<T>, blank: seq<T>, more: seq<T>, raw: seq<T>, rest: seq<T>)
    requires raw + rest == header + blank + more
    ensures var h := header + blank;
            if |raw| < |h| then raw + h[|raw|..] == h else raw == h + raw[|h|..] && raw[..|header|] == header
  {
    var h := header + blank;
    PrefixOfSame(raw, rest, h, more);
    if |raw| >= |h| {
      assert raw[..|header|] == h[..|header|] == header;
    }
  }

  lemma BlankFits(s: Text, i: nat)
    requires BlankAt(s, i)
    ensures i + 4 <= |s|
  {
  }

  lemma BlankAtEnd(header: Text)
    ensures BlankAt(header + BLANK, |header|)
  {
    assert (header + BLANK)[|header|..|header| + 4] == BLANK;
  }

  lemma BlankBytes()
    ensures ByteLength(BLANK) == 4
  {
    assert BLANK == [CR] + [LF] + [CR] + [LF];
    FlattenOne(CR);
    FlattenPush([CR], LF);
    FlattenPush([CR] + [LF], CR);
    FlattenPush([CR] + [LF] + [CR], LF);
  }

  lemma WireBytes(m: Message)
    ensures ByteLength(Wire(m)) == ByteLength(m.header) + 4 + ByteLength(m.body)
    ensures Flatten(Wire(m))[ByteLength(m.header) + 4..] == Flatten(m.body)
  {
    hide ByteLength;
    hide Flatten;
    BlankBytes();
    ByteLengthConcat(m.header, BLANK);
    ByteLengthConcat(m.header + BLANK, m.body);
    BytesCount(m.header + BLANK);
    var a, b := Flatten(m.header + BLANK), Flatten(m.body);
    assert (a + b)[|a|..] == b;
  }

  lemma BytesCount(text: Text)
    ensures |Flatten(text)| == ByteLength(text)
  {
  }

  /** Counting bytes tells whether the first message has arrived in full. */
  lemma BytesTell(m: Message, raw: Text, rest: Text, more: Text)
    requires raw + rest == Wire(m) + more
    ensures ByteLength(raw) - (ByteLength(m.header) + 4) >= ByteLength(m.body) <==> |raw| >= |Wire(m)|
  {
    hide ByteLength;
    hide Wire;
    WireBytes(m);
    var w := Wire(m);
    PrefixOfSame(raw, rest, w, more);
    if |raw| < |w| {
      assert w == raw + w[|raw|..];
      ByteLengthConcat(raw, w[|raw|..]);
      ByteLengthAtLeast(w[|raw|..]);
    } else {
      ByteLengthConcat(w, raw[|w|..]);
    }
  }

  /** Cutting the bytes at the announced length separates the body from what follows. */
  lemma BytesCut(m: Message, tail: Text)
    ensures var bytes := Flatten(Wire(m) + tail);
            var start := ByteLength(m.header) + 4;
            var end := start + ByteLength(m.body);
            end <= |bytes| && Chars(bytes[start..end]) == m.body && Chars(bytes[end..]) == tail
  {
    hide ByteLength;
    hide Wire;
    hide Flatten;
    hide Chars;
    WireBytes(m);
    BytesCount(Wire(m));
    ByteLengthConcat(Wire(m), tail);
    var w, t := Flatten(Wire(m)), Flatten(tail);
    var start := ByteLength(m.header) + 4;
    assert (w + t)[|w|..] == t && (w + t)[start..|w|] == w[start..];
    CharsOfBytes(m.body);
    CharsOfBytes(tail);
  }

  function Bodies(ms: seq<Message>): seq<Text> {
    seq(|ms|, i requires 0 <= i < |ms| => ms[i].body)
  }

  lemma {:induction false} StreamPush(ms: seq<Message>, m: Message)
    ensures Stream(ms + [m]) == Stream(ms) + Wire(m)
  {
    hide Wire;
    if ms == [] {
      assert [m][1..] == [] && [] + [m] == [m];
      assert Stream([m]) == Wire(m) + Stream([]);
    } else {
      StreamPush(ms[1..], m);
      assert (ms + [m])[1..] == ms[1..] + [m];
      assert Wire(ms[0]) + (Stream(ms[1..]) + Wire(m)) == Wire(ms[0]) + Stream(ms[1..]) + Wire(m);
    }
  }

  lemma StreamFirst(ms: seq<Message>)
    requires ms != []
    ensures Stream(ms) == Wire(ms[0]) + Stream(ms[1..])
  {
  }

  /** `headers` after the lines of a header, as far as `Content-Length` goes. */
  function NumberAt(headers: map<Text, Option<Text>>): Option<nat> {
    if CONTENT_LENGTH in headers && headers[CONTENT_LENGTH].Some? then Number(headers[CONTENT_LENGTH].value) else None
  }

  method ReadHeaders(lines: seq<Text>) returns (headers: map<Text, Option<Text>>)
    ensures NumberAt(headers) == LengthOf(lines)
  {
    hide KeyValue;
    hide Number;
    headers := map[];
    for i := 0 to |lines|
      invariant NumberAt(headers) == LengthOf(lines[..i])
    {
      var kv := KeyValue(lines[i]);
      headers := headers[kv.0 := kv.1];
      assert lines[..i + 1][..i] == lines[..i];
    }
    assert lines[..|lines|] == lines;
  }

  // ---------- the parser ----------

  datatype State = Headers | Body

  class Protocol {
    var raw: Text
    var state: State
    /** `None` stands for NaN. */
    var contentLength: Option<nat>
    var bodyStart: nat
    var reqSeq: nat
    /** The bodies handed to `onResponse`, in order. */
    var responses: seq<Text>

    /** The messages being sent, what has arrived of their stream, and what has not. */
    ghost const sent: seq<Message>
    ghost var arrived: Text
    ghost var rest: Text

    /** `raw` is what has arrived since the messages delivered so far. */
    ghost predicate Framed(raw: Text)
      reads this`responses, this`arrived, this`rest
    {
      var k := |responses|;
      && (forall m <- sent :: WellFormed(m))
      && k <= |sent|
      && responses == Bodies(sent[..k])
      && arrived == Stream(sent[..k]) + raw
      && raw + rest == Stream(sent[k..])
    }

    /** Once its header is complete, its length and the place of its body are known. */
    ghost predicate Inv()
      reads this`raw, this`state, this`contentLength, this`bodyStart, this`responses, this`arrived, this`rest
    {
      && Framed(raw)
      && (state == Body ==>
            && |responses| < |sent|
            && var m := sent[|responses|];
               && |raw| >= |m.header| + 4
               && contentLength == Some(ByteLength(m.body))
               && bodyStart == ByteLength(m.header) + 4)
    }

    /** Between calls the response in progress is a message that has not arrived in full. */
    ghost predicate Valid()
      reads this`raw, this`state, this`contentLength, this`bodyStart, this`responses, this`arrived, this`rest
    {
      && Inv()
      && if |responses| == |sent| then raw == [] else
           && |raw| < |Wire(sent[|responses|])|
           && (state == Headers ==> |raw| < |sent[|responses|].header| + 4)
    }

    constructor (ghost sent: seq<Message>)
      requires forall m <- sent :: WellFormed(m)
      ensures Valid() && this.sent == sent && arrived == [] && rest == Stream(sent) && reqSeq == 1
    {
      this.sent := sent;
      responses := [];
      raw := [];
      state := Headers;
      contentLength := None;
      bodyStart := 0;
      reqSeq := 1;
      arrived, rest := [], Stream(sent);
      new;
      assert sent[..0] == [] && sent[0..] == sent;
      NewRes([]);
    }

    /** `_newRes(raw)`: the next response starts with what is left over; it may already be complete. */
    method NewRes(raw: Text)
      requires Framed(raw)
      modifies this
      ensures Valid() && arrived == old(arrived) && rest == old(rest)
      ensures reqSeq == 1 && old(responses) <= responses
      decreases |sent| - |responses|, 2
    {
      this.raw := raw;
      state := Headers;
      reqSeq := 1;
      assert rest[0..] == rest && arrived + [] == arrived;
      Execute([]);
    }

    /** `execute(d)`: takes in the next piece of the stream and delivers every message it completes. */
    method Execute(d: Text)
      requires Inv() && d <= rest
      modifies this
      ensures Valid() && arrived == old(arrived) + d && rest == old(rest)[|d|..]
      ensures old(responses) <= responses
      ensures reqSeq == if |responses| > |old(responses)| then 1 else old(reqSeq)
      decreases |sent| - |responses|, 1
    {
      hide Valid;
      hide Inv;
      hide FindBlank;
      hide HeaderIn;
      Append(d);
      if state == Headers {
        var endHeader := FindBlank(raw);
        HeaderSeen();
        if endHeader == None {
          return;
        }
        ParseHeader(endHeader.value);
        BodySeen();
        if contentLength.Some? && ByteLength(raw) - bodyStart < contentLength.value {
          return;
        }
      }
      OnBody();
    }

    /** The body of the response: if it has arrived in full, it is delivered, and what follows it starts the next one. */
    method OnBody()
      requires Inv() && state == Body
      modifies this
      ensures Valid() && arrived == old(arrived) && rest == old(rest) && old(responses) <= responses
      ensures reqSeq == if |responses| > |old(responses)| then 1 else old(reqSeq)
      decreases |sent| - |responses|, 0
    {
      hide Valid;
      hide Inv;
      hide Framed;
      hide Flatten;
      hide Chars;
      BodySeen();
      if contentLength.Some? && ByteLength(raw) - bodyStart >= contentLength.value {
        var buf := Flatten(raw);
        var end := bodyStart + contentLength.value;
        ghost var m := sent[|responses|];
        ghost var tail := raw[|Wire(m)|..];
        Complete(m, tail);
        OnResponse(Chars(buf[bodyStart..end]), tail);
        NewRes(Chars(buf[end..]));
      }
    }

    /** `res.raw += d` */
    method Append(d: Text)
      requires Inv() && d <= rest
      modifies this`raw, this`arrived, this`rest
      ensures Inv() && raw == old(raw) + d && arrived == old(arrived) + d && rest == old(rest)[|d|..]
    {
      hide WellFormed;
      hide Stream;
      hide ByteLength;
      assert rest == d + rest[|d|..];
      assert raw + (d + rest[|d|..]) == raw + d + rest[|d|..];
      raw := raw + d;
      arrived := arrived + d;
      rest := rest[|d|..];
      assert Stream(sent[..|responses|]) + old(raw) + d == Stream(sent[..|responses|]) + raw;
    }

    lemma First()
      requires Inv()
      ensures |responses| <= |sent|
      ensures |responses| == |sent| ==> raw == []
      ensures |responses| < |sent| ==>
                && WellFormed(sent[|responses|])
                && raw + rest == Wire(sent[|responses|]) + Stream(sent[|responses| + 1..])
    {
      hide WellFormed;
      hide Wire;
      hide ByteLength;
      var k := |responses|;
      if k < |sent| {
        assert sent[k] in sent;
        assert sent[k..][1..] == sent[k + 1..] && sent[k..][0] == sent[k];
        StreamFirst(sent[k..]);
      }
    }

    ghost predicate HeaderIn(m: Message)
      reads this`raw
    {
      WellFormed(m) && |raw| >= |m.header| + 4 && raw[..|m.header|] == m.header
    }

    /** A blank line shows exactly when the header of the first undelivered message is complete. */
    lemma HeaderSeen()
      requires Inv() && state == Headers
      ensures var end := FindBlank(raw);
              if end == None then Valid()
              else |responses| < |sent| && end == Some(|sent[|responses|].header|) && HeaderIn(sent[|responses|])
    {
      hide Inv;
      hide WellFormed;
      hide Stream;
      First();
      if |responses| < |sent| {
        BlankInPrefix(sent[|responses|], raw, rest, Stream(sent[|responses| + 1..]));
      }
    }

    /** Reads the headers of the response and moves on to its body. */
    method ParseHeader(endHeader: nat)
      requires Inv() && |responses| < |sent|
      requires endHeader == |sent[|responses|].header| && HeaderIn(sent[|responses|])
      modifies this`contentLength, this`bodyStart, this`state
      ensures Inv() && state == Body
    {
      hide Framed;
      hide BlankAt;
      hide Lines;
      hide LengthOf;
      hide ByteLength;
      var rawHeader := raw[..endHeader];
      var headers := ReadHeaders(Lines(rawHeader));
      contentLength := NumberAt(headers);
      bodyStart := ByteLength(rawHeader) + 4;
      state := Body;
    }

    /** Counting bytes tells whether the message has arrived in full; if not, the parser waits. */
    lemma BodySeen()
      requires Inv() && state == Body
      ensures |responses| < |sent| && contentLength.Some?
      ensures ByteLength(raw) - bodyStart >= contentLength.value <==> |raw| >= |Wire(sent[|responses|])|
      ensures |raw| < |Wire(sent[|responses|])| ==> Valid()
    {
      hide Framed;
      hide WellFormed;
      hide Stream;
      hide Wire;
      hide ByteLength;
      First();
      BytesTell(sent[|responses|], raw, rest, Stream(sent[|responses| + 1..]));
    }

    /** `onResponse(res)`: what is left over starts the next message. */
    method OnResponse(body: Text, ghost tail: Text)
      requires Framed(raw) && |responses| < |sent| && body == sent[|responses|].body
      requires raw == Wire(sent[|responses|]) + tail && tail + rest == Stream(sent[|responses| + 1..])
      modifies this`responses
      ensures responses == old(responses) + [body] && Framed(tail)
    {
      hide WellFormed;
      hide Stream;
      hide Wire;
      ghost var k, m := |responses|, sent[|responses|];
      assert sent[..k + 1] == sent[..k] + [m];
      StreamPush(sent[..k], m);
      assert Stream(sent[..k]) + (Wire(m) + tail) == Stream(sent[..k]) + Wire(m) + tail;
      responses := responses + [body];
      assert responses == Bodies(sent[..k + 1]);
    }

    lemma Complete(m: Message, tail: Text)
      requires Inv() && state == Body && m == sent[|responses|]
      requires |raw| >= |Wire(m)| && tail == raw[|Wire(m)|..]
      ensures contentLength.Some?
      ensures var buf, end := Flatten(raw), bodyStart + contentLength.value;
              end <= |buf| && Chars(buf[bodyStart..end]) == m.body && Chars(buf[end..]) == tail
      ensures Framed(raw) && raw == Wire(m) + tail && tail + rest == Stream(sent[|responses| + 1..])
    {
      hide Framed;
      hide WellFormed;
      hide Stream;
      hide Wire;
      hide ByteLength;
      hide Flatten;
      hide Chars;
      First();
      PrefixOfSame(raw, rest, Wire(m), Stream(sent[|responses| + 1..]));
      BytesCut(m, tail);
    }

    /** `serialize(req)`, where `json` gives the text of the request numbered `seq`. */
    method Serialize(json: nat -> Text) returns (wire: Text)
      modifies this`reqSeq
      ensures reqSeq == old(reqSeq) + 1
      ensures wire == Wire(Message(LengthHeader(json(old(reqSeq))), json(old(reqSeq))))
    {
      var body := json(reqSeq);
      reqSeq := reqSeq + 1;
      wire := LengthHeader(body) + BLANK + body;
    }
  }

  /**
   * For every list of well-formed messages and every way of cutting what has arrived of their stream,
   * the complete messages are delivered once each and in order, and the rest is kept for later.
   */
  method Feed(sent: seq<Message>, chunks: seq<Text>) returns (responses: seq<Text>, raw: Text)
    requires forall m <- sent :: WellFormed(m)
    requires Flatten(chunks) <= Stream(sent)
    ensures |responses| <= |sent| && responses == Bodies(sent[..|responses|])
    ensures Flatten(chunks) == Stream(sent[..|responses|]) + raw
    ensures |responses| < |sent| ==> |raw| < |Wire(sent[|responses|])|
    ensures |responses| == |sent| ==> raw == []
  {
    hide Flatten;
    hide Stream;
    hide WellFormed;
    hide Wire;
    var protocol := new Protocol(sent);
    ghost var stream := Stream(sent);
    assert chunks[..0] == [];
    FlattenNone<Char>();
    for k := 0 to |chunks|
      invariant fresh(protocol) && protocol.Valid() && protocol.sent == sent
      invariant protocol.arrived == Flatten(chunks[..k]) && protocol.arrived + protocol.rest == stream
    {
      Next(chunks, k, stream, protocol.rest);
      ghost var rest := protocol.rest;
      protocol.Execute(chunks[k]);
      assert rest == chunks[k] + protocol.rest;
      assert Flatten(chunks[..k]) + (chunks[k] + protocol.rest) == protocol.arrived + protocol.rest;
    }
    assert chunks[..|chunks|] == chunks;
    responses, raw := protocol.responses, protocol.raw;
  }

  /** The next chunk is a prefix of what is still to come. */
  lemma Next<T>(chunks: seq<seq<T>>, k: nat, stream: seq<T>, rest: seq<T>)
    requires k < |chunks| && Flatten(chunks) <= stream && Flatten(chunks[..k]) + rest == stream
    ensures chunks[k] <= rest
    ensures Flatten(chunks[..k + 1]) == Flatten(chunks[..k]) + chunks[k]
  {
    hide Flatten;
    FlattenAt(chunks, k);
    PrefixAfter(Flatten(chunks[..k]), chunks[k], Flatten(chunks[k + 1..]), stream, rest);
  }

  lemma PrefixAfter<T>(a: seq<T>, b: seq<T>, c: seq<T>, stream: seq<T>, rest: seq<T>)
    requires a + b + c <= stream && a + rest == stream
    ensures b <= rest
  {
    assert rest == stream[|a|..];
    assert b == (a + b + c)[|a|..|a| + |b|];
  }

  // ---------- serialized messages ----------

  function Digit(d: nat): Char
    requires d < 10
  {
    Byte(48 + d)
  }

  /** A number in decimal, as string concatenation writes it. */
  function Decimal(n: nat): Text {
    if n < 10 then [Digit(n)] else Decimal(n / 10) + [Digit(n % 10)]
  }

  function LengthHeader(body: Text): Text {
    CONTENT_LENGTH + [COLON, SPACE] + Decimal(ByteLength(body))
  }

  lemma {:induction false} DecimalRoundTrip(n: nat)
    ensures Decimal(n) != [] && Number(Decimal(n)) == Some(n)
    ensures forall i :: 0 <= i < |Decimal(n)| ==> IsDigit(Decimal(n)[i])
  {
    var s := Decimal(n);
    if n < 10 {
      assert s[..0] == [];
    } else {
      DecimalRoundTrip(n / 10);
      assert s[..|s| - 1] == Decimal(n / 10);
    }
  }

  lemma {:induction false} FindColonAfter(a: Text, b: Text)
    requires forall i :: 0 <= i < |a| ==> a[i] != COLON
    ensures FindColon(a + [COLON, SPACE] + b) == |a|
    ensures FindColon(a) == |a|
  {
    var s := a + [COLON, SPACE] + b;
    if a == [] {
      assert s[0] == COLON && s[1] == SPACE;
    } else {
      assert s[0] == a[0] && s[1..] == a[1..] + [COLON, SPACE] + b;
      FindColonAfter(a[1..], b);
    }
  }

  lemma {:induction false} OneLine(s: Text)
    requires forall i :: 0 <= i < |s| ==> s[i] != CR
    ensures Lines(s) == [s]
  {
    if s != [] {
      OneLine(s[1..]);
      assert [s[0]] + s[1..] == s;
    }
  }

  lemma NoReturnNoBlank(s: Text)
    requires forall i :: 0 <= i < |s| ==> s[i] != CR
    ensures NoBlank(s)
  {
    forall i | 0 <= i < |s|
      ensures !BlankAt(s + BLANK, i)
    {
      assert (s + BLANK)[i] == s[i] != CR;
    }
  }

  /** A line `key: value` gives its key and its value. */
  lemma KeyAndValue(key: Text, value: Text)
    requires forall i :: 0 <= i < |key| ==> key[i] != COLON
    requires FindColon(value) == |value| && value != [] && value[0] != SPACE
    ensures KeyValue(key + [COLON, SPACE] + value) == (key, Some(value))
  {
    hide FindColon;
    var line := key + [COLON, SPACE] + value;
    FindColonAfter(key, value);
    assert line[|key| + 1..] == [SPACE] + value;
    assert ([SPACE] + value)[1..] == value;
    assert SkipSpaces([SPACE] + value) == SkipSpaces(value) == value;
    assert line[..|key|] == key && value[..|value|] == value;
  }

  lemma Plain(c: Char)
    ensures IsDigit(c) ==> c != CR && c != COLON && c != SPACE
  {
    assert CR[0] == 13 && COLON[0] == 58 && SPACE[0] == 32;
  }

  lemma NameIsPlain(i: nat)
    requires i < |CONTENT_LENGTH|
    ensures CONTENT_LENGTH[i] != CR && CONTENT_LENGTH[i] != COLON
  {
    assert CR[0] == 13 && COLON[0] == 58;
    assert 45 == CONTENT_LENGTH[i][0] || 65 <= CONTENT_LENGTH[i][0];
  }

  lemma HeaderParts(digits: Text)
    requires forall i :: 0 <= i < |digits| ==> IsDigit(digits[i])
    requires digits != []
    ensures var header := CONTENT_LENGTH + [COLON, SPACE] + digits;
            && (forall i :: 0 <= i < |header| ==> header[i] != CR)
            && KeyValue(header) == (CONTENT_LENGTH, Some(digits))
  {
    hide KeyValue;
    hide IsDigit;
    var name := CONTENT_LENGTH;
    forall i | 0 <= i < |digits|
      ensures digits[i] != CR && digits[i] != COLON && digits[i] != SPACE
    {
      Plain(digits[i]);
    }
    forall i | 0 <= i < |name|
      ensures name[i] != CR && name[i] != COLON
    {
      NameIsPlain(i);
    }
    assert COLON[0] == 58 && SPACE[0] == 32 && CR[0] == 13;
    FindColonAfter(digits, []);
    KeyAndValue(name, digits);
  }

  /** What `serialize` produces is a well-formed message, so that the parser gives its text back. */
  lemma SerializedIsWellFormed(body: Text)
    ensures WellFormed(Message(LengthHeader(body), body))
  {
    hide Number;
    hide Decimal;
    hide ByteLength;
    hide NoBlank;
    hide KeyValue;
    hide Lines;
    var header := LengthHeader(body);
    DecimalRoundTrip(ByteLength(body));
    HeaderParts(Decimal(ByteLength(body)));
    NoReturnNoBlank(header);
    OneLine(header);
    assert LengthOf([header]) == Some(ByteLength(body));
  }

  // ---------- headers of several lines ----------

  datatype Field = Field(key: Text, value: Text)

  ghost predicate NoReturn(s: Text) {
    forall i :: 0 <= i < |s| ==> s[i] != CR
  }

  /** A key without a colon, and a value that is taken as a whole. */
  ghost predicate GoodField(f: Field) {
    && f.key != [] && NoReturn(f.key) && (forall i :: 0 <= i < |f.key| ==> f.key[i] != COLON)
    && f.value != [] && NoReturn(f.value) && f.value[0] != SPACE && FindColon(f.value) == |f.value|
  }

  function Line(f: Field): Text {
    f.key + [COLON, SPACE] + f.value
  }

  function FieldLines(fs: seq<Field>): (r: seq<Text>)
    ensures |r| == |fs| && forall i :: 0 <= i < |fs| ==> r[i] == Line(fs[i])
  {
    seq(|fs|, i requires 0 <= i < |fs| => Line(fs[i]))
  }

  /** The lines with line breaks between them. */
  function Header(fs: seq<Field>): Text
    requires fs != []
  {
    if |fs| == 1 then Line(fs[0]) else Line(fs[0]) + ([CR, LF] + Header(fs[1..]))
  }

  /** The value of the last field for the length. */
  function Announced(fs: seq<Field>): Option<Text> {
    if fs == [] then None
    else if fs[|fs| - 1].key == CONTENT_LENGTH then Some(fs[|fs| - 1].value)
    else Announced(fs[..|fs| - 1])
  }

  lemma LineIsPlain(f: Field)
    requires GoodField(f)
    ensures NoReturn(Line(f)) && Line(f) != [] && KeyValue(Line(f)) == (f.key, Some(f.value))
  {
    hide FindColon;
    hide KeyValue;
    assert CR[0] == 13 && COLON[0] == 58 && SPACE[0] == 32;
    KeyAndValue(f.key, f.value);
  }

  lemma {:induction false} LinesAfter(a: Text, rest: Text)
    requires NoReturn(a)
    ensures Lines(a + ([CR, LF] + rest)) == [a] + Lines(rest)
  {
    var s := a + ([CR, LF] + rest);
    if a == [] {
      assert s == [CR, LF] + rest && s[2..] == rest;
    } else {
      LinesAfter(a[1..], rest);
      assert s[1..] == a[1..] + ([CR, LF] + rest) && s[0] == a[0];
      assert [a[0]] + a[1..] == a;
    }
  }

  /** Splitting the header gives its lines. */
  lemma {:induction false} HeaderLines(fs: seq<Field>)
    requires fs != [] && forall i :: 0 <= i < |fs| ==> GoodField(fs[i])
    ensures Lines(Header(fs)) == FieldLines(fs)
  {
    hide Lines;
    hide Line;
    LineIsPlain(fs[0]);
    if |fs| == 1 {
      OneLine(Line(fs[0]));
    } else {
      HeaderLines(fs[1..]);
      LinesAfter(Line(fs[0]), Header(fs[1..]));
    }
  }

  /** No blank line among lines that are not empty. */
  lemma {:induction false} HeaderNoBlank(fs: seq<Field>)
    requires fs != [] && forall i :: 0 <= i < |fs| ==> GoodField(fs[i])
    ensures NoBlank(Header(fs)) && Header(fs) != [] && Header(fs)[0] != CR
  {
    hide Line;
    hide KeyValue;
    var line := Line(fs[0]);
    LineIsPlain(fs[0]);
    if |fs| == 1 {
      NoReturnNoBlank(line);
    } else {
      HeaderNoBlank(fs[1..]);
      BreakNoBlank(line, Header(fs[1..]));
    }
  }

  lemma BreakNoBlank(line: Text, rest: Text)
    requires NoReturn(line) && NoBlank(rest) && rest != [] && rest[0] != CR
    ensures NoBlank(line + ([CR, LF] + rest))
  {
    var s := line + ([CR, LF] + rest);
    var w, n := s + BLANK, |line|;
    assert CR[0] == 13 && LF[0] == 10;
    forall i | 0 <= i < |s|
      ensures !BlankAt(w, i)
    {
      if i < n {
        assert w[i] == line[i];
      } else if i == n {
        assert w[n + 2] == rest[0];
      } else if i == n + 1 {
        assert w[i] == LF;
      } else if i + 4 <= |w| {
        assert !BlankAt(rest + BLANK, i - n - 2);
        assert w[i..i + 4] == (rest + BLANK)[i - n - 2..i - n + 2];
      }
    }
  }

  lemma {:induction false} AnnouncedLength(fs: seq<Field>)
    requires forall i :: 0 <= i < |fs| ==> GoodField(fs[i])
    ensures LengthOf(FieldLines(fs)) == if Announced(fs).Some? then Number(Announced(fs).value) else None
  {
    hide Number;
    hide KeyValue;
    hide Line;
    hide FindColon;
    hide NoReturn;
    if fs != [] {
      var n := |fs| - 1;
      AnnouncedLength(fs[..n]);
      LineIsPlain(fs[n]);
      assert FieldLines(fs)[..n] == FieldLines(fs[..n]);
    }
  }

  /** Any fields, the last of them for the length being right: the parser makes one message of header and body. */
  lemma FieldsAreWellFormed(fs: seq<Field>, body: Text)
    requires fs != [] && forall i :: 0 <= i < |fs| ==> GoodField(fs[i])
    requires Announced(fs) == Some(Decimal(ByteLength(body)))
    ensures WellFormed(Message(Header(fs), body))
  {
    hide Header;
    hide Lines;
    hide NoBlank;
    hide LengthOf;
    hide Number;
    hide Decimal;
    HeaderLines(fs);
    HeaderNoBlank(fs);
    AnnouncedLength(fs);
    DecimalRoundTrip(ByteLength(body));
  }
}
