/** lib/string_decoder.js: a streaming decoder that agrees with one-shot decoding under every chunking. */
module StringDecoder {
  import opened Common
  import opened Encodings
  import Ucs2

  /** Relative to the start of `s`, the cut of its first `k` bytes. */
  function RelativeCut(enc: Encoding, s: seq<byte>, k: nat): (b: nat)
    requires Decodable(enc, s) && k <= |s|
    ensures b <= k
  {
    if enc == Utf8 then LastBoundary(s, k) else k - k % 3
  }

  /** From a cut at `pos`, the next `k` bytes lead to the cut at `pos + RelativeCut`. */
  lemma NextCut(enc: Encoding, text: seq<byte>, pos: nat, k: nat)
    requires pos + k <= |text| && Whole(enc, text[..pos]) && Decodable(enc, text[pos..])
    ensures var b := RelativeCut(enc, text[pos..], k);
            && Cut(enc, text, pos + b, pos + k)
            && Whole(enc, text[pos..pos + b])
  {
    hide IsUtf8;
    hide Text;
    hide LastBoundary;
    var s := text[pos..];
    var b := RelativeCut(enc, s, k);
    assert s[..b] == text[pos..pos + b] && s[b..] == text[pos + b..];
    assert Whole(enc, s[..b]) && Decodable(enc, s[b..]) && (b < |s| ==> k < b + UnitSize(enc, s[b])) by {
      if enc == Utf8 {
        BoundarySplits(s, k);
      }
    }
    hide Whole;
    hide Decodable;
    assert text[..pos + b] == text[..pos] + s[..b];
    TextConcat(enc, text[..pos], s[..b]);
  }

  /** A unit that is complete ends at a cut; one that is not leaves the cut where it is. */
  lemma UnitCut(enc: Encoding, text: seq<byte>, cut: nat, pos: nat)
    requires cut < pos <= |text| && Whole(enc, text[..cut]) && Decodable(enc, text[cut..])
    ensures pos < cut + UnitSize(enc, text[cut]) ==> Cut(enc, text, cut, pos)
    ensures pos == cut + UnitSize(enc, text[cut]) ==> Whole(enc, text[cut..pos]) && Cut(enc, text, pos, pos)
  {
    hide IsUtf8;
    if pos == cut + UnitSize(enc, text[cut]) {
      var s, n := text[cut..], UnitSize(enc, text[cut]);
      assert s[..n] == text[cut..pos] && s[n..] == text[pos..];
      assert text[..pos] == text[..cut] + text[cut..pos];
      if enc == Utf8 {
        Utf8First(s);
        CharIsUtf8(s[..n]);
        Utf8Concat(text[..cut], s[..n]);
      }
    }
  }

  lemma EmptyText(enc: Encoding)
    ensures Text(enc, []) == [] && Whole(enc, [])
  {
  }

  class Decoder {
    const encoding: Encoding
    const charBuffer: array<byte>
    var charReceived: nat
    var charLength: nat

    /** The byte string that arrives in pieces, how much of it has arrived, and the cut. */
    ghost const text: seq<byte>
    ghost var pos: nat
    ghost var cut: nat
    /** All that `write` has returned. */
    ghost var emitted: seq<CodeUnit>

    /** What has been returned is the text up to the cut; what is held back is the rest. */
    ghost predicate Valid()
      reads this, charBuffer
    {
      && charBuffer.Length == 6
      && Cut(encoding, text, cut, pos)
      && charReceived == pos - cut
      && charLength == (if cut == pos then 0 else UnitSize(encoding, text[cut]))
      && charBuffer[..charReceived] == text[cut..pos]
      && emitted == Text(encoding, text[..cut])
    }

    constructor (encoding: Encoding, ghost text: seq<byte>)
      requires Decodable(encoding, text)
      ensures Valid() && pos == 0 && emitted == [] && this.encoding == encoding && this.text == text
      ensures fresh(charBuffer)
    {
      this.encoding := encoding;
      charBuffer := new byte[6];
      charReceived, charLength := 0, 0;
      this.text, pos, cut, emitted := text, 0, 0, [];
      assert text[..0] == [] && text[0..] == text;
      if encoding == Utf8 {
        EmptyIsUtf8();
      }
    }

    /** `write(buffer)` for the next piece of the text. */
    method Write(buffer: seq<byte>) returns (charStr: seq<CodeUnit>)
      requires Valid() && pos + |buffer| <= |text| && buffer == text[pos..pos + |buffer|]
      modifies this, charBuffer
      ensures Valid() && pos == old(pos) + |buffer| && emitted == old(emitted) + charStr
    {
      hide IsUtf8;
      hide Text;
      hide Whole;
      hide Decodable;
      hide RelativeCut;
      charStr := [];
      var rest := buffer;
      if charLength > 0 {
        var i;
        i, charStr := Continue(buffer);
        if charLength > 0 || i == |buffer| {
          return;
        }
        rest := buffer[i..];
        assert rest == text[pos..pos + |rest|];
      }
      var more := DecodeWhole(rest);
      charStr := charStr + more;
      if charStr != [] && Ucs2.IsLead(charStr[|charStr| - 1]) {
        LastIsNotLead();
        assert false;
      }
    }

    lemma LastIsNotLead()
      requires Valid()
      ensures emitted != [] ==> !Ucs2.IsLead(emitted[|emitted| - 1])
    {
      TextLastUnit(encoding, text[..cut]);
    }

    /**
     * The first part of `write`: bytes of the unit that an earlier buffer left incomplete. With all of
     * them there, the unit is decoded.
     */
    method Continue(buffer: seq<byte>) returns (i: nat, charStr: seq<CodeUnit>)
      requires Valid() && charLength > 0
      requires pos + |buffer| <= |text| && buffer == text[pos..pos + |buffer|]
      modifies this, charBuffer
      ensures Valid() && i <= |buffer| && pos == old(pos) + i && emitted == old(emitted) + charStr
      ensures charLength > 0 ==> i == |buffer|
    {
      hide IsUtf8;
      hide Text;
      hide Whole;
      hide Decodable;
      hide RelativeCut;
      i := if |buffer| >= charLength - charReceived then charLength - charReceived else |buffer|;
      Append(buffer[..i]);
      if charReceived < charLength {
        return i, [];
      }
      charStr := Text(encoding, charBuffer[..charLength]);
      TextLastUnit(encoding, text[cut..pos]);
      if charStr != [] && Ucs2.IsLead(charStr[|charStr| - 1]) {
        assert false;
      }
      assert text[..pos] == text[..cut] + text[cut..pos];
      TextConcat(encoding, text[..cut], text[cut..pos]);
      emitted := emitted + charStr;
      cut := pos;
      charReceived, charLength := 0, 0;
    }

    /** More bytes of the incomplete unit. */
    method Append(bytes: seq<byte>)
      requires Valid() && charLength > 0 && charReceived + |bytes| <= charLength
      requires pos + |bytes| <= |text| && bytes == text[pos..pos + |bytes|]
      modifies this`charReceived, this`pos, charBuffer
      ensures pos == old(pos) + |bytes| && charReceived == pos - cut && charBuffer[..charReceived] == text[cut..pos]
      ensures charReceived < charLength ==> Valid()
      ensures charReceived == charLength ==> Whole(encoding, text[cut..pos]) && Cut(encoding, text, pos, pos)
    {
      hide IsUtf8;
      hide Text;
      hide Whole;
      hide Decodable;
      hide RelativeCut;
      Copy(bytes, charReceived);
      charReceived := charReceived + |bytes|;
      pos := pos + |bytes|;
      assert text[cut..pos] == text[cut..old(pos)] + bytes;
      UnitCut(encoding, text, cut, pos);
    }

    /** `buffer.copy(charBuffer, at)` */
    method Copy(buffer: seq<byte>, at: nat)
      requires at + |buffer| <= charBuffer.Length
      modifies charBuffer
      ensures charBuffer[..at] == old(charBuffer[..at]) && charBuffer[at..at + |buffer|] == buffer
    {
      for k := 0 to |buffer|
        invariant charBuffer[..at] == old(charBuffer[..at])
        invariant forall j :: 0 <= j < k ==> charBuffer[at + j] == buffer[j]
      {
        charBuffer[at + k] := buffer[k];
      }
    }

    /** The second part of `write`: decode what is whole, keep the bytes of an incomplete last unit. */
    method DecodeWhole(buffer: seq<byte>) returns (charStr: seq<CodeUnit>)
      requires Valid() && charLength == 0
      requires pos + |buffer| <= |text| && buffer == text[pos..pos + |buffer|]
      modifies this, charBuffer
      ensures Valid() && pos == old(pos) + |buffer| && emitted == old(emitted) + charStr
    {
      hide IsUtf8;
      hide Text;
      hide Whole;
      hide Decodable;
      hide RelativeCut;
      var lenIncomplete := DetectIncompleteChar(buffer);
      var end := |buffer|;
      NextCut(encoding, text, pos, |buffer|);
      ghost var newCut := pos + RelativeCut(encoding, text[pos..], |buffer|);
      if charLength > 0 {
        Copy(buffer[|buffer| - lenIncomplete..], 0);
        charReceived := lenIncomplete;
        end := end - lenIncomplete;
      }
      assert buffer[..end] == text[pos..newCut];
      charStr := Text(encoding, buffer[..end]);
      assert text[..newCut] == text[..pos] + text[pos..newCut];
      TextConcat(encoding, text[..pos], text[pos..newCut]);
      emitted := emitted + charStr;
      pos, cut := pos + |buffer|, newCut;
    }

    /** How many bytes at the end of `buffer` belong to an incomplete unit; `charLength` becomes its size. */
    method DetectIncompleteChar(buffer: seq<byte>) returns (i: nat)
      requires Valid() && charLength == 0
      requires pos + |buffer| <= |text| && buffer == text[pos..pos + |buffer|]
      modifies this`charLength, this`charReceived
      ensures i == |buffer| - RelativeCut(encoding, text[pos..], |buffer|)
      ensures charLength == if i == 0 then 0 else UnitSize(encoding, buffer[|buffer| - i])
      ensures i == 0 ==> charReceived == 0
      ensures i <= 3
    {
      if encoding == Utf8 {
        i := DetectUtf8(buffer, text[pos..]);
      } else {
        i := |buffer| % 3;
        charReceived := i;
        charLength := if i > 0 then 3 else 0;
      }
    }

    method DetectUtf8(buffer: seq<byte>, ghost s: seq<byte>) returns (i: nat)
      requires charLength == 0 && IsUtf8(s) && buffer <= s
      modifies this`charLength
      ensures i == |buffer| - LastBoundary(s, |buffer|) <= 3
      ensures charLength == if i == 0 then 0 else CharSize(buffer[|buffer| - i])
    {
      var k := |buffer|;
      ghost var b := LastBoundary(s, k);
      assert k - b <= 3 by {
        if b < k {
          OnlyTheLastIsIncomplete(s, k, b);
        }
      }
      i := if k >= 3 then 3 else k;
      while i > 0
        invariant 0 <= i <= 3 && i <= k && k - b <= i && charLength == 0
      {
        var c := buffer[k - i];
        OnlyTheLastIsIncomplete(s, k, k - i);
        if i == 1 && c / 0x20 == 0x06 {
          charLength := 2;
          break;
        }
        if i <= 2 && c / 0x10 == 0x0E {
          charLength := 3;
          break;
        }
        if i <= 3 && c / 8 == 0x1E {
          charLength := 4;
          break;
        }
        i := i - 1;
      }
    }

    /** `end(buffer)`: the last piece, and the decoding of whatever is still held back. */
    method End(buffer: seq<byte>) returns (res: seq<CodeUnit>)
      requires Valid() && pos + |buffer| <= |text| && buffer == text[pos..pos + |buffer|]
      modifies this, charBuffer
      ensures Valid() && pos == old(pos) + |buffer|
      ensures old(emitted) + res == Text(encoding, text[..pos])
    {
      hide IsUtf8;
      hide Text;
      hide Whole;
      hide Decodable;
      hide RelativeCut;
      res := [];
      if |buffer| > 0 {
        res := Write(buffer);
      }
      assert text[..pos] == text[..cut] + text[cut..pos];
      TextConcat(encoding, text[..cut], text[cut..pos]);
      if charReceived > 0 {
        res := res + Text(encoding, charBuffer[..charReceived]);
      } else {
        assert text[cut..pos] == [];
        EmptyText(encoding);
      }
    }
  }

  /** At the end of a valid UTF-8 text nothing is held back. */
  lemma NothingHeldAtEnd(text: seq<byte>, cut: nat)
    requires Cut(Utf8, text, cut, |text|)
    ensures cut == |text|
  {
    if cut < |text| {
      Utf8First(text[cut..]);
    }
  }

  /**
   * Chunk independence: for every text and every way of cutting it into buffers, empty ones included,
   * the results of `write` and `end` make up the one-shot decoding; for UTF-8, those of `write` alone do.
   */
  method DecodeChunks(enc: Encoding, chunks: seq<seq<byte>>) returns (writes: seq<CodeUnit>, all: seq<CodeUnit>)
    requires Decodable(enc, Flatten(chunks))
    ensures all == Text(enc, Flatten(chunks))
    ensures enc == Utf8 ==> writes == all
  {
    hide IsUtf8;
    hide Utf8Text;
    hide Base64Text;
    hide Text;
    hide Flatten;
    ghost var text := Flatten(chunks);
    var decoder := new Decoder(enc, text);
    writes := [];
    assert chunks[0..] == chunks;
    for k := 0 to |chunks|
      invariant decoder.Valid() && fresh(decoder) && fresh(decoder.charBuffer) && decoder.text == text
      invariant decoder.encoding == enc
      invariant decoder.pos <= |text| && text[decoder.pos..] == Flatten(chunks[k..])
      invariant decoder.emitted == writes
    {
      ghost var p := decoder.pos;
      FlattenAt(chunks, k);
      assert text[p..p + |chunks[k]|] == text[p..][..|chunks[k]|];
      var s := decoder.Write(chunks[k]);
      assert text[decoder.pos..] == text[p..][|chunks[k]|..];
      writes := writes + s;
    }
    FlattenNone<byte>();
    assert chunks[|chunks|..] == [];
    assert decoder.pos == |text| && text[..|text|] == text;
    if enc == Utf8 {
      NothingHeldAtEnd(text, decoder.cut);
    }
    var last := decoder.End([]);
    all := writes + last;
  }
}
