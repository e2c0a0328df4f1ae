/** Strings and their encodings in the `output` of lib/http.js: when joining strings keeps their bytes. */
module HttpEncodings {
  import opened Common
  import opened HttpChunked
  import Encodings
  import HttpPipeline
  import Ucs2

  /** 'ascii' and 'binary' write one byte for each code unit. */
  datatype Encoding = Utf8 | Binary

  /** A string of whole characters. */
  type Char = c: int | 0 <= c < 0x110000
  type Text = seq<Char>

  /** An element of `output` with its element of `outputEncodings`; Buffers are written without an encoding. */
  datatype Piece = String(text: Text, encoding: Option<Encoding>) | Buffer(bytes: Bytes)

  // ---------- the bytes of a string ----------

  function EncodeChar(e: Encoding, c: Char): Bytes {
    match e
    case Utf8 =>
      if c < 0x80 then [c]
      else if c < 0x800 then [0xC0 + c / 0x40, 0x80 + c % 0x40]
      else if c < 0x10000 then [0xE0 + c / 0x1000, 0x80 + c / 0x40 % 0x40, 0x80 + c % 0x40]
      else [0xF0 + c / 0x40000, 0x80 + c / 0x1000 % 0x40, 0x80 + c / 0x40 % 0x40, 0x80 + c % 0x40]
    case Binary =>
      LowBytes(Ucs2.Units(c))
  }

  function LowBytes(units: seq<CodeUnit>): Bytes {
    seq(|units|, i requires 0 <= i < |units| => units[i] % 0x100)
  }

  function Encode(e: Encoding, text: Text): Bytes {
    if text == [] then [] else EncodeChar(e, text[0]) + Encode(e, text[1..])
  }

  lemma {:induction false} EncodeConcat(e: Encoding, a: Text, b: Text)
    ensures Encode(e, a + b) == Encode(e, a) + Encode(e, b)
  {
    hide EncodeChar;
    if a == [] {
      assert a + b == b;
    } else {
      EncodeConcat(e, a[1..], b);
      assert (a + b)[1..] == a[1..] + b;
      Assoc(EncodeChar(e, a[0]), Encode(e, a[1..]), Encode(e, b));
    }
  }

  predicate Ascii(text: Text) {
    forall i :: 0 <= i < |text| ==> text[i] < 0x80
  }

  lemma CharLengths(c: Char)
    ensures c < 0x80 ==> EncodeChar(Utf8, c) == EncodeChar(Binary, c)
    ensures c >= 0x80 ==> |EncodeChar(Binary, c)| < |EncodeChar(Utf8, c)|
  {
  }

  /** One byte per unit is never longer than UTF-8, and the bytes are the same only for ASCII. */
  lemma {:induction false} SameOnlyForAscii(text: Text)
    ensures Ascii(text) ==> Encode(Binary, text) == Encode(Utf8, text)
    ensures !Ascii(text) ==> |Encode(Binary, text)| < |Encode(Utf8, text)|
  {
    hide EncodeChar;
    if text != [] {
      SameOnlyForAscii(text[1..]);
      CharLengths(text[0]);
      assert text == [text[0]] + text[1..];
      if Ascii(text[1..]) && text[0] < 0x80 {
        assert Ascii(text);
      }
    }
  }

  // ---------- _buffer ----------

  /** A string without an encoding is sent as UTF-8. */
  function Effective(encoding: Option<Encoding>): Encoding {
    if encoding.Some? then encoding.value else Utf8
  }

  /** What the socket is given. */
  function Emitted(p: Piece): Bytes {
    match p
    case String(text, encoding) => Encode(Effective(encoding), text)
    case Buffer(bytes) => bytes
  }

  /** A string joins a string that has the encoding it is given, or any string if it is given none. */
  predicate Joins(last: Piece, data: Piece) {
    data.String? && last.String? && (data.encoding.Some? ==> last.encoding == data.encoding)
  }

  function Buffered(output: seq<Piece>, data: Piece): (r: seq<Piece>)
    ensures r != []
  {
    if output != [] && Joins(output[|output| - 1], data) then
      var last := output[|output| - 1];
      output[..|output| - 1] + [String(last.text + data.text, last.encoding)]
    else output + [data]
  }

  /** The data would be sent in another encoding than its own, one in which its bytes differ. */
  predicate Garbled(last: Piece, data: Piece) {
    Joins(last, data) && data.encoding.None? && last.encoding == Some(Binary) && !Ascii(data.text)
  }

  /** The elements of `output` as `HttpPipeline` has them. */
  function Plain(output: seq<Piece>): (r: seq<HttpPipeline.Piece>)
    ensures |r| == |output|
  {
    seq(|output|, i requires 0 <= i < |output| => PlainPiece(output[i]))
  }

  function PlainPiece(p: Piece): HttpPipeline.Piece {
    HttpPipeline.Piece(p.String?, Emitted(p))
  }

  function Content(output: seq<Piece>): Bytes {
    HttpPipeline.Content(Plain(output))
  }

  lemma ContentPush(output: seq<Piece>, data: Piece)
    ensures Content(output + [data]) == Content(output) + Emitted(data)
  {
    hide HttpPipeline.Content;
    hide Emitted;
    assert Plain(output + [data]) == Plain(output) + [PlainPiece(data)];
    HttpPipeline.ContentConcat(Plain(output), [PlainPiece(data)]);
    HttpPipeline.ContentOne(PlainPiece(data));
  }

  lemma Cancel(a: Bytes, b: Bytes, c: Bytes)
    ensures a + b == a + c <==> b == c
  {
    assert (a + b)[|a|..] == b && (a + c)[|a|..] == c;
  }

  lemma JoinedBytes(last: Piece, data: Piece)
    requires Joins(last, data)
    ensures Emitted(String(last.text + data.text, last.encoding)) == Emitted(last) + Emitted(data) <==> !Garbled(last, data)
  {
    hide Encode;
    var e, own := Effective(last.encoding), Effective(data.encoding);
    EncodeConcat(e, last.text, data.text);
    SameOnlyForAscii(data.text);
    Cancel(Emitted(last), Encode(e, data.text), Encode(own, data.text));
    assert e == own || (e == Binary && own == Utf8);
  }

  /** `_buffer` adds exactly the bytes of the data, unless it joins them to a string that makes them others. */
  lemma BufferedKeeps(output: seq<Piece>, data: Piece)
    ensures Content(Buffered(output, data)) == Content(output) + Emitted(data)
            <==> output == [] || !Garbled(output[|output| - 1], data)
  {
    hide Content;
    hide Emitted;
    ContentPush(output, data);
    if output != [] && Joins(output[|output| - 1], data) {
      var init, last := output[..|output| - 1], output[|output| - 1];
      var joined := String(last.text + data.text, last.encoding);
      assert output == init + [last];
      ContentPush(init, last);
      ContentPush(init, joined);
      JoinedBytes(last, data);
      Assoc(Content(init), Emitted(last), Emitted(data));
      Cancel(Content(init), Emitted(joined), Emitted(last) + Emitted(data));
    }
  }

  // ---------- everything a waiting response is given ----------

  /** `output` after the pieces `datas`. */
  function Output(datas: seq<Piece>): seq<Piece> {
    if datas == [] then [] else Buffered(Output(datas[..|datas| - 1]), datas[|datas| - 1])
  }

  function AllEmitted(datas: seq<Piece>): Bytes {
    if datas == [] then [] else AllEmitted(datas[..|datas| - 1]) + Emitted(datas[|datas| - 1])
  }

  /** The encoding under which the next string without one is sent, if the last element is a string. */
  function Carried(datas: seq<Piece>): Option<Option<Encoding>> {
    if datas == [] then None
    else match datas[|datas| - 1]
         case Buffer(_) => None
         case String(_, Some(e)) => Some(Some(e))
         case String(_, None) =>
           var before := Carried(datas[..|datas| - 1]);
           if before.Some? then before else Some(None)
  }

  /** A string without an encoding, where 'binary' is carried on, must be ASCII. */
  predicate CleanAfter(datas: seq<Piece>, data: Piece) {
    data.String? && data.encoding.None? && Carried(datas) == Some(Some(Binary)) ==> Ascii(data.text)
  }

  predicate Clean(datas: seq<Piece>) {
    datas == [] || (Clean(datas[..|datas| - 1]) && CleanAfter(datas[..|datas| - 1], datas[|datas| - 1]))
  }

  lemma {:induction false} CarriedIsLast(datas: seq<Piece>)
    ensures (Output(datas) == []) == (datas == [])
    ensures datas != [] ==>
              var last := Output(datas)[|Output(datas)| - 1];
              Carried(datas) == if last.String? then Some(last.encoding) else None
  {
    if datas != [] {
      CarriedIsLast(datas[..|datas| - 1]);
    }
  }

  /** The socket will be given the bytes of each piece. */
  predicate Faithful(datas: seq<Piece>) {
    Content(Output(datas)) == AllEmitted(datas)
  }

  lemma FaithfulStep(datas: seq<Piece>, data: Piece)
    requires Faithful(datas)
    ensures Faithful(datas + [data]) <==> CleanAfter(datas, data)
  {
    hide Emitted;
    hide Content;
    hide CleanAfter;
    hide Garbled;
    assert (datas + [data])[..|datas|] == datas;
    CarriedIsLast(datas);
    BufferedKeeps(Output(datas), data);
    GarbledIsUnclean(datas, data);
  }

  lemma GarbledIsUnclean(datas: seq<Piece>, data: Piece)
    ensures CleanAfter(datas, data) <==> Output(datas) == [] || !Garbled(Output(datas)[|Output(datas)| - 1], data)
  {
    hide Ascii;
    hide Output;
    CarriedIsLast(datas);
  }

  /** Each piece adds its own bytes, at every step, exactly if the pieces are clean. */
  lemma {:induction false} BytesKept(datas: seq<Piece>)
    ensures (forall k :: 0 <= k <= |datas| ==> Faithful(datas[..k])) <==> Clean(datas)
  {
    hide Faithful;
    hide CleanAfter;
    if datas == [] {
      assert datas[..0] == [];
      FaithfulNone();
    } else {
      var n := |datas| - 1;
      var init, data := datas[..n], datas[n];
      BytesKept(init);
      assert init + [data] == datas && datas[..n + 1] == datas && init[..n] == init;
      assert forall k :: 0 <= k <= n ==> init[..k] == datas[..k];
      if Faithful(init) {
        FaithfulStep(init, data);
      }
    }
  }

  lemma FaithfulNone()
    ensures Faithful([])
  {
  }

  /** `write('é', 'binary')` and `write('é')` while the response waits: two bytes announced, one sent. */
  lemma OneByteShort()
    ensures var datas := [String([0xE9], Some(Binary)), String([0xE9], None)];
              !Clean(datas) && |Emitted(datas[1])| == 2 && Content(Output(datas)) == [0xE9, 0xE9]
  {
    var a, b := String([0xE9], Some(Binary)), String([0xE9], None);
    var datas := [a, b];
    assert datas[..1] == [a] && [a][..0] == [];
    assert Output([a]) == [a];
    assert Output(datas) == [String([0xE9] + [0xE9], Some(Binary))];
    EncodeConcat(Binary, [0xE9], [0xE9]);
    HttpPipeline.ContentOne(PlainPiece(String([0xE9] + [0xE9], Some(Binary))));
    assert Plain(Output(datas)) == [PlainPiece(String([0xE9] + [0xE9], Some(Binary)))];
    assert Encode(Binary, [0xE9]) == [0xE9];
  }

  /** `_send` puts the header in front of a string and sends both in the encoding of the string. */
  lemma HeaderKept(header: Text, text: Text, encoding: Option<Encoding>)
    ensures Emitted(String(header + text, encoding)) == Encode(Binary, header) + Emitted(String(text, encoding))
            <==> encoding == Some(Binary) || Ascii(header)
  {
    hide Encode;
    var e := Effective(encoding);
    EncodeConcat(e, header, text);
    SameOnlyForAscii(header);
    if e == Utf8 && !Ascii(header) {
      var a, b := Encode(Utf8, header) + Encode(e, text), Encode(Binary, header) + Encode(e, text);
      assert |a| > |b|;
    }
  }

  // ---------- the decoder of lib/string_decoder.js reads it back ----------

  /** The groups of six bits. */
  lemma SixBits(c: nat)
    ensures c == c / 0x40 * 0x40 + c % 0x40 && c / 0x1000 == c / 0x40 / 0x40 && c / 0x40000 == c / 0x1000 / 0x40
    ensures c / 0x40 == c / 0x1000 * 0x40 + c / 0x40 % 0x40
    ensures c / 0x1000 == c / 0x40000 * 0x40 + c / 0x1000 % 0x40
  {
  }

  lemma TwoBytes(c: Char)
    requires 0x80 <= c < 0x800
    ensures var e := EncodeChar(Utf8, c); Encodings.IsChar(e) && Encodings.Scalar(e) == c
  {
    SixBits(c);
  }

  lemma ThreeBytes(c: Char)
    requires 0x800 <= c < 0x10000 && Ucs2.IsScalar(c)
    ensures var e := EncodeChar(Utf8, c); Encodings.IsChar(e) && Encodings.Scalar(e) == c
  {
    hide Encodings.IsChar;
    hide Encodings.Scalar;
    SixBits(c);
    CharOfThree(c / 0x1000, c / 0x40 % 0x40, c % 0x40);
  }

  lemma CharOfThree(a: int, b: int, d: int)
    requires 0 <= a < 0x10 && 0 <= b < 0x40 && 0 <= d < 0x40
    requires var c := a * 0x1000 + b * 0x40 + d; 0x800 <= c && Ucs2.IsScalar(c)
    ensures var e := [0xE0 + a, 0x80 + b, 0x80 + d];
            Encodings.IsChar(e) && Encodings.Scalar(e) == a * 0x1000 + b * 0x40 + d
  {
    assert Encodings.CharSize(0xE0 + a) == 3;
  }

  lemma FourBytes(c: Char)
    requires 0x10000 <= c
    ensures var e := EncodeChar(Utf8, c); Encodings.IsChar(e) && Encodings.Scalar(e) == c
  {
    hide Encodings.IsChar;
    hide Encodings.Scalar;
    SixBits(c);
    CharOfFour(c / 0x40000, c / 0x1000 % 0x40, c / 0x40 % 0x40, c % 0x40);
  }

  lemma CharOfFour(a: int, b: int, d: int, f: int)
    requires 0 <= a < 8 && 0 <= b < 0x40 && 0 <= d < 0x40 && 0 <= f < 0x40
    requires 0x10000 <= a * 0x40000 + b * 0x1000 + d * 0x40 + f < 0x110000
    ensures var e := [0xF0 + a, 0x80 + b, 0x80 + d, 0x80 + f];
            Encodings.IsChar(e) && Encodings.Scalar(e) == a * 0x40000 + b * 0x1000 + d * 0x40 + f
  {
    assert Encodings.CharSize(0xF0 + a) == 4;
  }

  /** Decoding one encoded character gives it back. */
  lemma CharReadsBack(c: Char)
    requires Ucs2.IsScalar(c)
    ensures var e := EncodeChar(Utf8, c);
              1 <= |e| <= 4 && Encodings.IsChar(e) && Encodings.Scalar(e) == c
  {
    if 0x80 <= c < 0x800 {
      TwoBytes(c);
    } else if 0x800 <= c < 0x10000 {
      ThreeBytes(c);
    } else if 0x10000 <= c {
      FourBytes(c);
    }
  }

  /** A number from its digits to the base 64, and back. */
  lemma SixBitDigits(a: nat, b: nat, d: nat)
    requires b < 0x40 && d < 0x40
    ensures var n := a * 0x1000 + b * 0x40 + d;
            n / 0x1000 == a && n / 0x40 == a * 0x40 + b && n / 0x40 % 0x40 == b && n % 0x40 == d
  {
  }

  lemma TwoAreEncoded(c: Bytes)
    requires Encodings.IsChar(c) && |c| == 2
    ensures EncodeChar(Utf8, Encodings.Scalar(c)) == c
  {
    SixBitDigits(0, c[0] - 0xC0, c[1] - 0x80);
  }

  lemma ThreeAreEncoded(c: Bytes)
    requires Encodings.IsChar(c) && |c| == 3
    ensures EncodeChar(Utf8, Encodings.Scalar(c)) == c
  {
    var a: int, b: int, d: int := c[0] - 0xE0, c[1] - 0x80, c[2] - 0x80;
    SixBitDigits(a, b, d);
    assert Encodings.Scalar(c) == a * 0x1000 + b * 0x40 + d;
  }

  lemma FourAreEncoded(c: Bytes)
    requires Encodings.IsChar(c) && |c| == 4
    ensures EncodeChar(Utf8, Encodings.Scalar(c)) == c
  {
    FourScalar(c);
    hide Encodings.Scalar;
    hide Encodings.IsChar;
    FourDigits(c[0] - 0xF0, c[1] - 0x80, c[2] - 0x80, c[3] - 0x80);
  }

  lemma FourScalar(c: Bytes)
    requires Encodings.IsChar(c) && |c| == 4
    ensures var a: int, b: int, d: int, f: int := c[0] - 0xF0, c[1] - 0x80, c[2] - 0x80, c[3] - 0x80;
            && 0 <= a < 8 && 0 <= b < 0x40 && 0 <= d < 0x40 && 0 <= f < 0x40
            && Encodings.Scalar(c) == a * 0x40000 + b * 0x1000 + d * 0x40 + f
            && 0x10000 <= Encodings.Scalar(c) < 0x110000
  {
  }

  lemma FourDigits(a: nat, b: nat, d: nat, f: nat)
    requires b < 0x40 && d < 0x40 && f < 0x40
    ensures var u := a * 0x40000 + b * 0x1000 + d * 0x40 + f;
            u / 0x40000 == a && u / 0x1000 % 0x40 == b && u / 0x40 % 0x40 == d && u % 0x40 == f
  {
    SixBitDigits(a * 0x40 + b, d, f);
    SixBits(a * 0x40000 + b * 0x1000 + d * 0x40 + f);
  }

  /** The decoder takes nothing else for a character. */
  lemma CharIsEncoded(c: Bytes)
    requires Encodings.IsChar(c)
    ensures c != [] && Encodings.Scalar(c) < 0x110000 && Ucs2.IsScalar(Encodings.Scalar(c))
    ensures EncodeChar(Utf8, Encodings.Scalar(c)) == c
  {
    hide EncodeChar;
    hide Encodings.Scalar;
    if |c| == 2 {
      TwoAreEncoded(c);
    } else if |c| == 3 {
      ThreeAreEncoded(c);
    } else if |c| == 4 {
      FourAreEncoded(c);
    } else {
      OneIsEncoded(c);
    }
  }

  lemma OneIsEncoded(c: Bytes)
    requires Encodings.IsChar(c) && |c| == 1
    ensures EncodeChar(Utf8, Encodings.Scalar(c)) == c
  {
  }

  /** The well-formed byte strings are exactly the encoded texts. */
  lemma {:induction false} Utf8IsEncoded(s: Bytes) returns (text: Text)
    requires Encodings.IsUtf8(s)
    ensures (forall i :: 0 <= i < |text| ==> Ucs2.IsScalar(text[i])) && Encode(Utf8, text) == s
  {
    hide EncodeChar;
    hide Encodings.Scalar;
    hide Encodings.IsChar;
    if s == [] {
      return [];
    }
    var k := Encodings.CharSize(s[0]);
    CharIsEncoded(s[..k]);
    var rest := Utf8IsEncoded(s[k..]);
    text := [Encodings.Scalar(s[..k])] + rest;
    assert text[1..] == rest && s == s[..k] + s[k..];
  }

  /** UTF-8 text is read back as the units of its characters. */
  lemma {:induction false} TextReadsBack(text: Text)
    requires forall i :: 0 <= i < |text| ==> Ucs2.IsScalar(text[i])
    ensures Encodings.IsUtf8(Encode(Utf8, text))
    ensures Encodings.Utf8Text(Encode(Utf8, text)) == Ucs2.FromCodePoints(text)
  {
    hide EncodeChar;
    hide Encodings.Scalar;
    hide Encodings.IsChar;
    if text != [] {
      var e, rest := EncodeChar(Utf8, text[0]), Encode(Utf8, text[1..]);
      CharReadsBack(text[0]);
      TextReadsBack(text[1..]);
      CharFirst(e, rest);
      Encodings.Utf8Step(e + rest);
    }
  }

  lemma CharFirst(e: Bytes, rest: Bytes)
    requires 1 <= |e| <= 4 && Encodings.IsChar(e)
    ensures var s := e + rest;
              && Encodings.StartsWithChar(s) && Encodings.CharSize(s[0]) == |e|
              && s[..|e|] == e && s[|e|..] == rest
  {
    assert (e + rest)[..|e|] == e;
  }
}
