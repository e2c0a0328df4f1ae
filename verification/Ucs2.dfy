/** UTF-16 strings and code point arrays: `ucs2decode` and `ucs2encode` of lib/punycode.js. */
module Ucs2 {
  import opened Common

  // The bit masks of the source, as ranges: (u & 0xF800) == 0xD800 and (u & 0xFC00) == 0xDC00.
  predicate IsSurrogate(u: CodeUnit) { 0xD800 <= u <= 0xDFFF }

  predicate IsTrail(u: CodeUnit) { 0xDC00 <= u <= 0xDFFF }

  predicate IsLead(u: CodeUnit) { 0xD800 <= u <= 0xDBFF }

  function Combine(value: CodeUnit, extra: CodeUnit): (c: nat)
    ensures 0x10000 <= c < 0x110000
  {
    value % 0x400 * 0x400 + extra % 0x400 + 0x10000
  }

  function CodePoints(s: seq<CodeUnit>): (r: seq<nat>)
    ensures forall i :: 0 <= i < |r| ==> r[i] < 0x110000
    ensures |r| <= |s|
  {
    if s == [] then []
    else if IsSurrogate(s[0]) && |s| > 1 then
      if IsTrail(s[1]) then [Combine(s[0], s[1])] + CodePoints(s[2..])
      else [s[0], s[1]] + CodePoints(s[2..])
    else [s[0]] + CodePoints(s[1..])
  }

  // The mask `& 0x3FF` makes this total, also above 0x10FFFF.
  function Units(c: nat): (r: seq<CodeUnit>)
    ensures 1 <= |r| <= 2
  {
    if c > 0xFFFF then
      [0xD800 + (c - 0x10000) / 0x400 % 0x400, 0xDC00 + (c - 0x10000) % 0x400]
    else [c]
  }

  function FromCodePoints(cs: seq<nat>): seq<CodeUnit>
  {
    if cs == [] then [] else Units(cs[0]) + FromCodePoints(cs[1..])
  }

  /** Every lead surrogate is followed by a trail and every trail preceded by a lead. */
  predicate WellFormed(s: seq<CodeUnit>) {
    if s == [] then true
    else if IsLead(s[0]) then |s| > 1 && IsTrail(s[1]) && WellFormed(s[2..])
    else !IsTrail(s[0]) && WellFormed(s[1..])
  }

  /** Scanning as the decoder does, no trail surrogate is taken for the lead of another trail. */
  predicate NoTrailPair(s: seq<CodeUnit>) {
    if s == [] then true
    else if IsSurrogate(s[0]) && |s| > 1 then
      !(IsTrail(s[0]) && IsTrail(s[1])) && NoTrailPair(s[2..])
    else NoTrailPair(s[1..])
  }

  lemma {:induction false} WellFormedHasNoTrailPair(s: seq<CodeUnit>)
    requires WellFormed(s)
    ensures NoTrailPair(s)
  {
    if s == [] {
    } else if IsLead(s[0]) {
      WellFormedHasNoTrailPair(s[2..]);
    } else {
      WellFormedHasNoTrailPair(s[1..]);
    }
  }

  lemma Halves(high: nat, low: nat)
    requires high < 0x400 && low < 0x400
    ensures (high * 0x400 + low) / 0x400 % 0x400 == high && (high * 0x400 + low) % 0x400 == low
  {
  }

  lemma UnitsOfPair(lead: CodeUnit, trail: CodeUnit)
    requires IsSurrogate(lead) && IsTrail(trail)
    ensures Units(Combine(lead, trail)) == [lead, trail] <==> IsLead(lead)
    ensures |Units(Combine(lead, trail))| == 2
  {
    var high, low := lead % 0x400, trail % 0x400;
    Halves(high, low);
    assert lead == 0xD800 + high || lead == 0xDC00 + high;
    assert trail == 0xDC00 + low;
  }

  lemma FromCodePointsTwo(a: nat, b: nat, cs: seq<nat>)
    ensures FromCodePoints([a, b] + cs) == Units(a) + Units(b) + FromCodePoints(cs)
  {
    assert ([a, b] + cs)[1..] == [b] + cs;
    assert ([b] + cs)[1..] == cs;
  }

  /** `ucs2encode` undoes `ucs2decode` exactly on the strings without a trail-trail pair. */
  lemma {:induction false} CodePointsRoundTrip(s: seq<CodeUnit>)
    ensures FromCodePoints(CodePoints(s)) == s <==> NoTrailPair(s)
  {
    if s == [] {
    } else if IsSurrogate(s[0]) && |s| > 1 {
      hide CodePoints;
      hide FromCodePoints;
      hide Units;
      hide Combine;
      CodePointsRoundTrip(s[2..]);
      var pair, tail := [s[0], s[1]], FromCodePoints(CodePoints(s[2..]));
      assert s == pair + s[2..];
      PairBack(s);
      PairCancel(if IsTrail(s[1]) then Units(Combine(s[0], s[1])) else pair, tail, pair, s[2..]);
      if IsTrail(s[1]) {
        UnitsOfPair(s[0], s[1]);
      }
    } else {
      CodePointsRoundTrip(s[1..]);
      assert s == [s[0]] + s[1..];
      PairCancel([s[0]], FromCodePoints(CodePoints(s[1..])), [s[0]], s[1..]);
    }
  }

  /** What comes back of a surrogate and the unit after it. */
  lemma PairBack(s: seq<CodeUnit>)
    requires |s| > 1 && IsSurrogate(s[0])
    ensures FromCodePoints(CodePoints(s))
         == (if IsTrail(s[1]) then Units(Combine(s[0], s[1])) else [s[0], s[1]]) + FromCodePoints(CodePoints(s[2..]))
    ensures IsTrail(s[1]) ==> |Units(Combine(s[0], s[1]))| == 2
  {
    if !IsTrail(s[1]) {
      FromCodePointsTwo(s[0], s[1], CodePoints(s[2..]));
    }
  }

  /** Two trail surrogates come back as a lead and a trail. */
  lemma TrailPairIsLost()
    ensures var s: seq<CodeUnit> := [0xDC00, 0xDC00];
            FromCodePoints(CodePoints(s)) == [0xD800, 0xDC00] && !NoTrailPair(s)
  {
    var s: seq<CodeUnit> := [0xDC00, 0xDC00];
    assert s[2..] == [];
    assert CodePoints(s) == [0x10000] + CodePoints([]);
    assert [0x10000][1..] == [];
    assert FromCodePoints([0x10000]) == Units(0x10000) + FromCodePoints([]);
  }

  /** A pair stands for the code point of RFC 2781; a trail in place of the lead comes back as a lead. */
  lemma PairStandsFor(lead: CodeUnit, trail: CodeUnit)
    requires 0xD800 <= lead < 0xE000 && 0xDC00 <= trail < 0xE000
    ensures var high := if lead < 0xDC00 then lead else lead - 0x400;
            && CodePoints([lead, trail]) == [0x10000 + (high - 0xD800) * 0x400 + (trail - 0xDC00)]
            && FromCodePoints(CodePoints([lead, trail])) == [high, trail]
  {
    var s := [lead, trail];
    var c := Combine(lead, trail);
    assert s[2..] == [];
    assert CodePoints(s) == [c] + CodePoints([]);
    assert [c][1..] == [];
    assert FromCodePoints([c]) == Units(c) + FromCodePoints([]);
    Halves(lead % 0x400, trail % 0x400);
  }

  ghost predicate IsScalar(c: nat) {
    c < 0xD800 || 0xE000 <= c < 0x110000
  }

  /** The other way round: `ucs2decode` undoes `ucs2encode`, which gives well-formed UTF-16. */
  lemma {:induction false} ScalarsRoundTrip(cs: seq<nat>)
    requires forall i :: 0 <= i < |cs| ==> IsScalar(cs[i])
    ensures WellFormed(FromCodePoints(cs)) && CodePoints(FromCodePoints(cs)) == cs
  {
    if cs != [] {
      var c, rest := cs[0], FromCodePoints(cs[1..]);
      ScalarsRoundTrip(cs[1..]);
      var s := Units(c) + rest;
      assert s[|Units(c)|..] == rest;
      if c >= 0x10000 {
        SplitPoint(c);
        assert s[0] == Units(c)[0] && s[1] == Units(c)[1];
      }
    }
  }

  lemma SplitPoint(c: nat)
    requires 0x10000 <= c < 0x110000
    ensures IsLead(Units(c)[0]) && |Units(c)| == 2 && IsTrail(Units(c)[1]) && Combine(Units(c)[0], Units(c)[1]) == c
  {
    var d := c - 0x10000;
    assert d / 0x400 < 0x400;
    Halves(d / 0x400, d % 0x400);
    assert (0xD800 + d / 0x400) % 0x400 == d / 0x400 && (0xDC00 + d % 0x400) % 0x400 == d % 0x400;
  }

  lemma PairCancel<T>(a: seq<T>, x: seq<T>, b: seq<T>, y: seq<T>)
    requires |a| == |b|
    ensures a + x == b + y <==> a == b && x == y
  {
    if a + x == b + y {
      assert a == (a + x)[..|a|] && b == (b + y)[..|b|];
      assert x == (a + x)[|a|..] && y == (b + y)[|b|..];
    }
  }

  method Ucs2Decode(s: seq<CodeUnit>) returns (output: seq<nat>)
    ensures output == CodePoints(s)
  {
    hide CodePoints;
    output := [];
    var counter := 0;
    assert s[0..] == s;
    while counter < |s|
      invariant counter <= |s|
      invariant CodePoints(s) == output + CodePoints(s[counter..])
    {
      var value := s[counter];
      var pushed: seq<nat>;
      CodePointsStep(s, counter);
      counter := counter + 1;
      if IsSurrogate(value) && counter < |s| {
        var extra := s[counter];
        counter := counter + 1;
        pushed := if IsTrail(extra) then [Combine(value, extra)] else [value, extra];
      } else {
        pushed := [value];
      }
      assert output + (pushed + CodePoints(s[counter..])) == output + pushed + CodePoints(s[counter..]);
      output := output + pushed;
    }
    CodePointsEnd(s);
  }

  lemma CodePointsStep(s: seq<CodeUnit>, i: nat)
    requires i < |s|
    ensures CodePoints(s[i..])
         == if IsSurrogate(s[i]) && i + 1 < |s| then
              (if IsTrail(s[i + 1]) then [Combine(s[i], s[i + 1])] else [s[i], s[i + 1]]) + CodePoints(s[i + 2..])
            else [s[i]] + CodePoints(s[i + 1..])
  {
    assert s[i..][1..] == s[i + 1..];
    if i + 1 < |s| {
      assert s[i..][2..] == s[i + 2..];
    }
  }

  lemma CodePointsEnd(s: seq<CodeUnit>)
    ensures CodePoints(s[|s|..]) == []
  {
  }

  /** `map` walks the array from its end, replacing each code point by its string; `join` follows. */
  method Ucs2Encode(cs: seq<nat>) returns (output: seq<CodeUnit>)
    ensures output == FromCodePoints(cs)
  {
    output := [];
    var length := |cs|;
    while length > 0
      invariant 0 <= length <= |cs|
      invariant output == FromCodePoints(cs[length..])
    {
      length := length - 1;
      assert cs[length..][1..] == cs[length + 1..];
      output := Units(cs[length]) + output;
    }
  }
}
