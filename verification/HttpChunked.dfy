/** Chunked bodies of lib/http.js: what `write` and `end` emit, and the preallocated hot path of `end`. */
module HttpChunked {
  import opened Common

  type Bytes = seq<byte>

  const CRLF: Bytes := [13, 10]
  const ZERO: Bytes := [48]

  // ---------- chunk sizes ----------

  function HexDigit(d: nat): (b: byte)
    requires d < 16
  {
    if d < 10 then 48 + d else 87 + d
  }

  predicate IsHexDigit(b: byte) {
    48 <= b < 58 || 97 <= b < 103 || 65 <= b < 71
  }

  function DigitValue(b: byte): (d: nat)
    requires IsHexDigit(b)
    ensures d < 16
  {
    if b < 58 then b - 48 else if b < 71 then b - 55 else b - 87
  }

  /** `n.toString(16)` */
  function Hex(n: nat): (s: Bytes)
    ensures s != []
  {
    if n < 16 then [HexDigit(n)] else Hex(n / 16) + [HexDigit(n % 16)]
  }

  predicate AllHex(s: Bytes) {
    forall i :: 0 <= i < |s| ==> IsHexDigit(s[i])
  }

  function HexValue(s: Bytes): nat
    requires AllHex(s)
  {
    if s == [] then 0 else 16 * HexValue(s[..|s| - 1]) + DigitValue(s[|s| - 1])
  }

  lemma {:induction false} HexRoundTrip(n: nat)
    ensures AllHex(Hex(n)) && HexValue(Hex(n)) == n
  {
    if n < 16 {
      assert Hex(n)[..0] == [];
    } else {
      HexRoundTrip(n / 16);
      var s := Hex(n / 16);
      assert Hex(n)[..|s|] == s && Hex(n)[|s|] == HexDigit(n % 16);
    }
  }

  // ---------- what is emitted ----------

  function Chunk(data: Bytes): Bytes {
    Hex(|data|) + CRLF + data + CRLF
  }

  function Chunks(datas: seq<Bytes>): Bytes {
    if datas == [] then [] else Chunk(datas[0]) + Chunks(datas[1..])
  }

  function LastChunk(trailer: Bytes): Bytes {
    ZERO + CRLF + trailer + CRLF
  }

  // ---------- section 3.6.1 of RFC 2616 ----------

  /** Where the first CRLF of `s` is, or the length of `s`. */
  function FindCrlf(s: Bytes): (k: nat)
    ensures k <= |s|
  {
    if |s| < 2 then |s| else if s[0] == 13 && s[1] == 10 then 0 else 1 + FindCrlf(s[1..])
  }

  /** Reads chunks up to the last one; yields the body and what follows the last-chunk line. */
  function DecodeChunked(s: Bytes): Option<(Bytes, Bytes)>
    decreases |s|
  {
    var k := FindCrlf(s);
    if k == 0 || k + 2 > |s| || !AllHex(s[..k]) then None
    else
      var size, rest := HexValue(s[..k]), s[k + 2..];
      if size == 0 then Some(([], rest))
      else if |rest| < size + 2 || rest[size..size + 2] != CRLF then None
      else
        match DecodeChunked(rest[size + 2..])
        case None => None
        case Some((body, after)) => Some((rest[..size] + body, after))
  }

  lemma {:induction false} CrlfAfterHex(h: Bytes, rest: Bytes)
    requires AllHex(h)
    ensures FindCrlf(h + CRLF + rest) == |h|
  {
    var s := h + CRLF + rest;
    if h != [] {
      CrlfAfterHex(h[1..], rest);
      assert s[1..] == h[1..] + CRLF + rest;
    }
  }

  lemma DecodeOneChunk(data: Bytes, rest: Bytes)
    requires data != []
    ensures DecodeChunked(Chunk(data) + rest)
         == match DecodeChunked(rest) case None => None case Some((body, after)) => Some((data + body, after))
  {
    var h := Hex(|data|);
    HexRoundTrip(|data|);
    var s := Chunk(data) + rest;
    assert s == h + CRLF + (data + CRLF + rest);
    CrlfAfterHex(h, data + CRLF + rest);
    assert s[..|h|] == h;
    var r := s[|h| + 2..];
    assert r == data + CRLF + rest;
    assert r[..|data|] == data && r[|data|..|data| + 2] == CRLF && r[|data| + 2..] == rest;
  }

  /** Decoding what any sequence of non-empty writes and an `end` emitted gives the concatenated body. */
  lemma {:induction false} DecodeInvertsChunks(datas: seq<Bytes>, trailer: Bytes, after: Bytes)
    requires forall i :: 0 <= i < |datas| ==> datas[i] != []
    ensures DecodeChunked(Chunks(datas) + LastChunk(trailer) + after) == Some((Flatten(datas), trailer + CRLF + after))
  {
    hide Hex;
    hide DecodeChunked;
    hide Chunk;
    hide LastChunk;
    if datas == [] {
      DecodeLast(trailer, after);
      assert [] + LastChunk(trailer) + after == LastChunk(trailer) + after;
    } else {
      DecodeInvertsChunks(datas[1..], trailer, after);
      var rest := Chunks(datas[1..]) + LastChunk(trailer) + after;
      DecodeOneChunk(datas[0], rest);
      assert Chunks(datas) + LastChunk(trailer) + after == Chunk(datas[0]) + rest;
    }
  }

  lemma DecodeLast(trailer: Bytes, after: Bytes)
    ensures DecodeChunked(LastChunk(trailer) + after) == Some(([], trailer + CRLF + after))
  {
    var s := LastChunk(trailer) + after;
    var rest := trailer + CRLF + after;
    assert s == ZERO + CRLF + rest;
    CrlfAfterHex(ZERO, rest);
    assert s[..1] == ZERO && s[3..] == rest;
    assert HexValue(ZERO) == 0 by {
      assert ZERO[..0] == [];
    }
  }

  // ---------- the hot path ----------

  /** `src.copy(buf, off)` */
  method CopyInto(buf: array<byte>, off: nat, src: Bytes)
    requires off + |src| <= buf.Length
    modifies buf
    ensures buf[..off] == old(buf[..off]) && buf[off..off + |src|] == src
  {
    for k := 0 to |src|
      invariant buf[..off] == old(buf[..off])
      invariant forall j :: 0 <= j < k ==> buf[off + j] == src[j]
    {
      buf[off + k] := src[k];
    }
  }

  /** One more piece at the write offset. */
  method Append(buf: array<byte>, off: nat, src: Bytes) returns (off': nat)
    requires off + |src| <= buf.Length
    modifies buf
    ensures off' == off + |src| && buf[..off'] == old(buf[..off]) + src
  {
    CopyInto(buf, off, src);
    off' := off + |src|;
    assert buf[..off'] == buf[..off] + buf[off..off'];
  }

  /** The single preallocated buffer holds, byte for byte, what `write` and the last chunk would have sent. */
  method HotBuffer(header: Bytes, data: Bytes, trailer: Bytes) returns (buf: array<byte>)
    ensures fresh(buf)
    ensures buf[..] == header + Chunk(data) + LastChunk(trailer)
  {
    hide Hex;
    var chunkSize := Hex(|data|);
    var len := |header| + |chunkSize| + 2 + |data| + 5 + |trailer| + 2;
    buf := new byte[len];
    var off := FillFront(buf, header, chunkSize, data);
    off := FillBack(buf, off, trailer);
    assert buf[..] == buf[..off];
    HotLayout(header, chunkSize, data, trailer);
  }

  method FillFront(buf: array<byte>, header: Bytes, chunkSize: Bytes, data: Bytes) returns (off: nat)
    requires |header| + |chunkSize| + 2 + |data| <= buf.Length
    modifies buf
    ensures off == |header| + |chunkSize| + 2 + |data| && buf[..off] == header + chunkSize + CRLF + data
  {
    off := Append(buf, 0, header);
    off := Append(buf, off, chunkSize);
    off := Append(buf, off, CRLF);
    off := Append(buf, off, data);
  }

  method FillBack(buf: array<byte>, start: nat, trailer: Bytes) returns (off: nat)
    requires start + 5 + |trailer| + 2 <= buf.Length
    modifies buf
    ensures off == start + 5 + |trailer| + 2
    ensures buf[..off] == old(buf[..start]) + (CRLF + ZERO + CRLF) + trailer + CRLF
  {
    off := Append(buf, start, CRLF + ZERO + CRLF);
    ghost var soFar := buf[..off];
    if |trailer| > 0 {
      off := Append(buf, off, trailer);
    }
    assert buf[..off] == soFar + trailer;
    off := Append(buf, off, CRLF);
  }

  lemma HotLayout(header: Bytes, size: Bytes, data: Bytes, trailer: Bytes)
    ensures header + size + CRLF + data + (CRLF + ZERO + CRLF) + trailer + CRLF
         == header + (size + CRLF + data + CRLF) + (ZERO + CRLF + trailer + CRLF)
  {
  }

  /** The hot path without chunked encoding. */
  method HotPlainBuffer(header: Bytes, data: Bytes) returns (buf: array<byte>)
    ensures fresh(buf)
    ensures buf[..] == header + data
  {
    buf := new byte[|header| + |data|];
    var off := Append(buf, 0, header);
    off := Append(buf, off, data);
    assert buf[..] == buf[..off];
  }
}
