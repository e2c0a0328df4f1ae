/** The two `Buffer.toString` encodings that StringDecoder has to cut into pieces: UTF-8 and base64. */
module Encodings {
  import opened Common
  import Ucs2

  datatype Encoding = Utf8 | Base64

  // ---------- UTF-8 (section 3 of RFC 3629) ----------

  /** The number of bytes a first byte announces; 0 for a byte that starts no character. */
  function CharSize(b: byte): (n: nat)
    ensures n <= 4
  {
    if b < 0x80 then 1
    else if b < 0xC0 then 0
    else if b < 0xE0 then 2
    else if b < 0xF0 then 3
    else if b < 0xF8 then 4
    else 0
  }

  predicate IsContinuation(b: byte) { 0x80 <= b < 0xC0 }

  function Scalar(c: seq<byte>): nat
    requires 1 <= |c| <= 4
  {
    var lead: int := c[0];
    if |c| == 1 then lead
    else if |c| == 2 then lead % 0x20 * 0x40 + Low(c[1])
    else if |c| == 3 then lead % 0x10 * 0x1000 + Low(c[1]) * 0x40 + Low(c[2])
    else lead % 8 * 0x40000 + Low(c[1]) * 0x1000 + Low(c[2]) * 0x40 + Low(c[3])
  }

  function Low(b: byte): nat { b % 0x40 }

  /** One encoded character: shortest form, no surrogate, at most 0x10FFFF. */
  predicate IsChar(c: seq<byte>) {
    && c != [] && CharSize(c[0]) == |c|
    && (forall i :: 1 <= i < |c| ==> IsContinuation(c[i]))
    && Scalar(c) < 0x110000 && !(0xD800 <= Scalar(c) <= 0xDFFF)
    && (|c| == 2 ==> Scalar(c) >= 0x80) && (|c| == 3 ==> Scalar(c) >= 0x800) && (|c| == 4 ==> Scalar(c) >= 0x10000)
  }

  predicate StartsWithChar(s: seq<byte>) {
    s != [] && CharSize(s[0]) <= |s| && IsChar(s[..CharSize(s[0])])
  }

  predicate IsUtf8(s: seq<byte>) {
    s == [] || (StartsWithChar(s) && IsUtf8(s[CharSize(s[0])..]))
  }

  /** `toString('utf8')`; each byte that starts no well-formed character gives U+FFFD. */
  function Utf8Text(s: seq<byte>): seq<CodeUnit> {
    if s == [] then []
    else if StartsWithChar(s) then
      Ucs2.Units(Scalar(s[..CharSize(s[0])])) + Utf8Text(s[CharSize(s[0])..])
    else [0xFFFD] + Utf8Text(s[1..])
  }

  lemma {:induction false} Utf8Concat(a: seq<byte>, b: seq<byte>)
    requires IsUtf8(a)
    ensures Utf8Text(a + b) == Utf8Text(a) + Utf8Text(b)
    ensures IsUtf8(b) ==> IsUtf8(a + b)
  {
    hide Utf8Text;
    hide IsUtf8;
    hide IsChar;
    Utf8First(a);
    if a == [] {
      assert a + b == b;
    } else {
      var n := CharSize(a[0]);
      Utf8Concat(a[n..], b);
      ConcatSlices(a, b, n);
      Utf8Step(a);
      Utf8Step(a + b);
      var u := Ucs2.Units(Scalar(a[..n]));
      assert u + (Utf8Text(a[n..]) + Utf8Text(b)) == u + Utf8Text(a[n..]) + Utf8Text(b);
    }
  }

  lemma Utf8First(s: seq<byte>)
    requires IsUtf8(s)
    ensures s == [] ==> Utf8Text(s) == []
    ensures s != [] ==> StartsWithChar(s) && 1 <= CharSize(s[0]) && IsUtf8(s[CharSize(s[0])..])
  {
  }

  lemma Utf8Step(s: seq<byte>)
    requires StartsWithChar(s)
    ensures var n := CharSize(s[0]);
            && Utf8Text(s) == Ucs2.Units(Scalar(s[..n])) + Utf8Text(s[n..])
            && (IsUtf8(s) <==> IsUtf8(s[n..]))
  {
  }

  /** The last code unit of a text is never a lead surrogate. */
  lemma {:induction false} Utf8LastUnit(s: seq<byte>)
    requires IsUtf8(s) && s != []
    ensures Utf8Text(s) != [] && !Ucs2.IsLead(Utf8Text(s)[|Utf8Text(s)| - 1])
  {
    var n := CharSize(s[0]);
    if s[n..] == [] {
      assert Utf8Text(s) == Ucs2.Units(Scalar(s[..n]));
    } else {
      Utf8LastUnit(s[n..]);
    }
  }

  /** Where the last complete character of the first `k` bytes ends. */
  function LastBoundary(s: seq<byte>, k: nat): (b: nat)
    requires IsUtf8(s) && k <= |s|
    ensures b <= k
  {
    if s == [] || k < CharSize(s[0]) then 0
    else CharSize(s[0]) + LastBoundary(s[CharSize(s[0])..], k - CharSize(s[0]))
  }

  lemma {:induction false} BoundarySplits(s: seq<byte>, k: nat)
    requires IsUtf8(s) && k <= |s|
    ensures var b := LastBoundary(s, k);
            IsUtf8(s[..b]) && IsUtf8(s[b..]) && (b < |s| ==> k < b + CharSize(s[b]))
  {
    hide IsUtf8;
    hide IsChar;
    hide Utf8Text;
    hide LastBoundary;
    Utf8First(s);
    BoundaryStep(s, k);
    var b := LastBoundary(s, k);
    if s == [] || k < CharSize(s[0]) {
      assert s[0..] == s && s[..0] == [];
      EmptyIsUtf8();
    } else {
      var n := CharSize(s[0]);
      BoundarySplits(s[n..], k - n);
      assert s[..b] == s[..n] + s[n..][..b - n] && s[b..] == s[n..][b - n..];
      CharIsUtf8(s[..n]);
      Utf8Concat(s[..n], s[n..][..b - n]);
    }
  }

  lemma BoundaryStep(s: seq<byte>, k: nat)
    requires IsUtf8(s) && k <= |s|
    ensures s == [] || k < CharSize(s[0]) ==> LastBoundary(s, k) == 0
    ensures s != [] && k >= CharSize(s[0]) ==>
              var n := CharSize(s[0]); IsUtf8(s[n..]) && LastBoundary(s, k) == n + LastBoundary(s[n..], k - n)
  {
  }

  lemma EmptyIsUtf8()
    ensures IsUtf8([])
  {
  }

  lemma CharIsUtf8(c: seq<byte>)
    requires IsChar(c)
    ensures IsUtf8(c)
  {
    assert c[..|c|] == c && c[|c|..] == [];
  }

  /** Only the incomplete character announces more bytes than there are up to `k`. */
  lemma {:induction false} OnlyTheLastIsIncomplete(s: seq<byte>, k: nat, x: nat)
    requires IsUtf8(s) && x < k <= |s|
    ensures CharSize(s[x]) > k - x <==> x == LastBoundary(s, k)
  {
    var n := CharSize(s[0]);
    assert s[..n][0] == s[0];
    if x < n {
      if x > 0 {
        assert IsContinuation(s[..n][x]);
        if k >= n {
          assert LastBoundary(s, k) >= n;
        }
      }
    } else {
      OnlyTheLastIsIncomplete(s[n..], k - n, x - n);
      assert s[n..][x - n] == s[x];
    }
  }

  // ---------- base64 ----------

  function Base64Digit(d: nat): (u: CodeUnit)
    requires d < 64
    ensures u < 0x80
  {
    if d < 26 then 65 + d else if d < 52 then 71 + d else if d < 62 then d - 4 else if d == 62 then 43 else 47
  }

  const PAD: CodeUnit := 61

  function Base64Group(a: byte, b: byte, c: byte): (g: seq<CodeUnit>)
    ensures |g| == 4 && forall i :: 0 <= i < 4 ==> g[i] < 0x80
  {
    [Base64Digit(a / 4), Base64Digit(a % 4 * 16 + b / 16), Base64Digit(b % 16 * 4 + c / 64), Base64Digit(c % 64)]
  }

  /** `toString('base64')` */
  function Base64Text(s: seq<byte>): seq<CodeUnit> {
    if s == [] then []
    else if |s| == 1 then Base64Group(s[0], 0, 0)[..2] + [PAD, PAD]
    else if |s| == 2 then Base64Group(s[0], s[1], 0)[..3] + [PAD]
    else Base64Group(s[0], s[1], s[2]) + Base64Text(s[3..])
  }

  lemma {:induction false} Base64Concat(a: seq<byte>, b: seq<byte>)
    requires |a| % 3 == 0
    ensures Base64Text(a + b) == Base64Text(a) + Base64Text(b)
  {
    hide Base64Text;
    hide Base64Group;
    if a == [] {
      assert a + b == b;
      Base64Nil();
    } else {
      Base64Concat(a[3..], b);
      ConcatSlices(a, b, 3);
      Base64Step(a);
      Base64Step(a + b);
      var g := Base64Group(a[0], a[1], a[2]);
      assert g + (Base64Text(a[3..]) + Base64Text(b)) == g + Base64Text(a[3..]) + Base64Text(b);
    }
  }

  lemma Base64Nil()
    ensures Base64Text([]) == []
  {
  }

  lemma Base64Step(s: seq<byte>)
    requires |s| >= 3
    ensures Base64Text(s) == Base64Group(s[0], s[1], s[2]) + Base64Text(s[3..])
  {
    hide Base64Group;
  }

  /** The value of a character of the alphabet in table 1 of RFC 4648. */
  function Base64Value(u: CodeUnit): nat {
    if 'A' as int <= u <= 'Z' as int then u - 'A' as int
    else if 'a' as int <= u <= 'z' as int then 26 + (u - 'a' as int)
    else if '0' as int <= u <= '9' as int then 52 + (u - '0' as int)
    else if u == '+' as int then 62 else if u == '/' as int then 63 else 64
  }

  /** The 24 bits of four characters of base64, as three bytes. */
  function Base64Bytes(g: seq<CodeUnit>): seq<int>
    requires |g| == 4
  {
    var n := Base64Value(g[0]) * 0x40000 + Base64Value(g[1]) * 0x1000 + Base64Value(g[2]) * 0x40 + Base64Value(g[3]);
    [n / 0x10000, n / 0x100 % 0x100, n % 0x100]
  }

  lemma Base64DigitReadsBack(d: nat)
    requires d < 64
    ensures Base64Value(Base64Digit(d)) == d
  {
  }

  /** A group is read back as its three bytes. */
  lemma Base64ReadsBack(a: byte, b: byte, c: byte)
    ensures Base64Bytes(Base64Group(a, b, c)) == [a, b, c]
  {
    hide Base64Digit;
    hide Base64Value;
    Base64DigitReadsBack(a / 4);
    Base64DigitReadsBack(a % 4 * 16 + b / 16);
    Base64DigitReadsBack(b % 16 * 4 + c / 64);
    Base64DigitReadsBack(c % 64);
    SixBitsJoin(a, b, c);
    BytesApart(a, b, c);
  }

  lemma BytesApart(a: byte, b: byte, c: byte)
    ensures var n := a * 0x10000 + b * 0x100 + c;
              n / 0x10000 == a && n / 0x100 % 0x100 == b && n % 0x100 == c
  {
    var n: int := a * 0x10000 + b * 0x100 + c;
    assert n / 0x100 == a * 0x100 + b;
  }

  lemma SixBitsJoin(a: byte, b: byte, c: byte)
    ensures a / 4 * 0x40000 + (a % 4 * 16 + b / 16) * 0x1000 + (b % 16 * 4 + c / 64) * 0x40 + c % 64
         == a * 0x10000 + b * 0x100 + c
  {
    assert a == a / 4 * 4 + a % 4 && b == b / 16 * 16 + b % 16 && c == c / 64 * 64 + c % 64;
  }

  /** One or two bytes at the end: their group without the bits that are not there, padded. */
  lemma Base64Padding(a: byte, b: byte)
    ensures Base64Text([a]) == Base64Group(a, 0, 0)[..2] + ['=' as int, '=' as int]
    ensures Base64Text([a, b]) == Base64Group(a, b, 0)[..3] + ['=' as int]
  {
  }

  lemma {:induction false} Base64IsAscii(s: seq<byte>)
    ensures forall i :: 0 <= i < |Base64Text(s)| ==> Base64Text(s)[i] < 0x80
  {
    if |s| > 2 {
      Base64IsAscii(s[3..]);
    }
  }

  // ---------- both ----------

  function Text(enc: Encoding, s: seq<byte>): seq<CodeUnit> {
    if enc == Utf8 then Utf8Text(s) else Base64Text(s)
  }

  /** Whole characters (UTF-8) or whole groups of three bytes (base64). */
  predicate Whole(enc: Encoding, s: seq<byte>) {
    if enc == Utf8 then IsUtf8(s) else |s| % 3 == 0
  }

  /** A text that may be decoded piecewise: valid UTF-8, or any bytes for base64. */
  predicate Decodable(enc: Encoding, s: seq<byte>) {
    enc == Utf8 ==> IsUtf8(s)
  }

  /** The size of the unit that starts with byte `b`. */
  function UnitSize(enc: Encoding, b: byte): (n: nat)
    ensures n <= 4
  {
    if enc == Utf8 then CharSize(b) else 3
  }

  /** `cut` is where the last whole unit of the first `pos` bytes of `s` ends. */
  ghost predicate Cut(enc: Encoding, s: seq<byte>, cut: nat, pos: nat) {
    && cut <= pos <= |s|
    && Whole(enc, s[..cut]) && Decodable(enc, s[cut..])
    && (cut < pos ==> pos < cut + UnitSize(enc, s[cut]))
  }

  lemma TextConcat(enc: Encoding, a: seq<byte>, b: seq<byte>)
    requires Whole(enc, a)
    ensures Text(enc, a + b) == Text(enc, a) + Text(enc, b)
    ensures Whole(enc, b) ==> Whole(enc, a + b)
  {
    hide Utf8Text;
    hide IsUtf8;
    hide Base64Text;
    if enc == Utf8 {
      Utf8Concat(a, b);
    } else {
      Base64Concat(a, b);
    }
  }

  lemma TextLastUnit(enc: Encoding, s: seq<byte>)
    requires Whole(enc, s)
    ensures s == [] ==> Text(enc, s) == []
    ensures Text(enc, s) != [] ==> !Ucs2.IsLead(Text(enc, s)[|Text(enc, s)| - 1])
  {
    hide IsUtf8;
    if enc == Utf8 {
      if s != [] {
        Utf8LastUnit(s);
      }
    } else {
      Base64IsAscii(s);
    }
  }
}
