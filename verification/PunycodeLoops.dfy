/** `encode` and `decode` of lib/punycode.js as the loops they are, computing the functions of module Punycode. */
module PunycodeLoops {
  import opened Common
  import opened Punycode
  import Ucs2

  method EmitInt(delta: nat, bias: nat) returns (output: seq<CodeUnit>)
    ensures output == EncodeInt(delta, BASE, bias)
  {
    hide EncodeInt;
    hide Threshold;
    hide DigitToBasic;
    output := [];
    var q: nat, k: nat := delta, BASE;
    var t := Threshold(k, bias);
    while q >= t
      invariant t == Threshold(k, bias)
      invariant EncodeInt(delta, BASE, bias) == output + EncodeInt(q, k, bias)
      decreases q
    {
      EncodeIntStep(q, k, bias);
      var digit := t + (q - t) % (BASE - t);
      Assoc(output, [DigitToBasic(digit)], EncodeInt((q - t) / (BASE - t), k + BASE, bias));
      output := output + [DigitToBasic(digit)];
      q := (q - t) / (BASE - t);
      k := k + BASE;
      t := Threshold(k, bias);
    }
    EncodeIntStep(q, k, bias);
    output := output + [DigitToBasic(q)];
  }

  method ScanNext(s: seq<nat>, n: nat) returns (m: nat)
    ensures m == NextPoint(s, n)
  {
    m := MAX_INT;
    for j := 0 to |s|
      invariant m == NextPoint(s[..j], n)
    {
      assert s[..j + 1][..j] == s[..j];
      if s[j] >= n && s[j] < m {
        m := s[j];
      }
    }
    assert s[..|s|] == s;
  }

  method CollectBasic(s: seq<nat>) returns (output: seq<CodeUnit>)
    ensures output == Below(s, INITIAL_N)
  {
    output := [];
    for j := 0 to |s|
      invariant output == Below(s[..j], INITIAL_N)
    {
      BelowPush(s, INITIAL_N, j);
      if s[j] < 0x80 {
        output := output + [s[j]];
      }
    }
    assert s[..|s|] == s;
  }

  lemma PrependTwice(a: seq<CodeUnit>, b: seq<CodeUnit>, r: Result<seq<CodeUnit>, Error>)
    ensures Prepend(a, Prepend(b, r)) == Prepend(a + b, r)
  {
    if r.Ok? {
      assert a + (b + r.value) == a + b + r.value;
    }
  }

  /** The loop over all positions for one code point `n`; `failed` reports the overflow it throws on. */
  method InnerPass(s: seq<nat>, n: nat, delta0: nat, bias0: nat, h0: nat, b: nat)
    returns (output: seq<CodeUnit>, delta: nat, bias: nat, h: nat, failed: bool)
    requires AllBelowLimit(s) && n in s && h0 == |Below(s, n)|
    ensures failed ==> EncodeStart(s, n, delta0, bias0, h0, b) == Err(Overflow)
    ensures !failed ==> h == |Below(s, n + 1)| && h0 < h
    ensures !failed ==>
              EncodeStart(s, n, delta0, bias0, h0, b) == Prepend(output, EncodePass(s, n + 1, delta + 1, bias, h, b))
  {
    hide EncodeFrom;
    hide EncodePass;
    hide EncodeInt;
    hide AdaptLoop;
    hide Below;
    output, delta, bias, h, failed := [], delta0, bias0, h0, false;
    var hPlusOne := h0 + 1;
    ghost var want := EncodeStart(s, n, delta0, bias0, h0, b);
    var j := 0;
    assert s[..0] == [] && s[0..] == s;
    assert |Below([], n + 1)| == 0;
    assert want.Ok? ==> [] + want.value == want.value;
    while j < |s|
      invariant j <= |s|
      invariant h == |Below(s[..j], n + 1)| + |Below(s[j..], n)|
      invariant want == Prepend(output, EncodeFrom(s, n, j, delta, bias, h, hPlusOne, b))
    {
      BelowStep(s, n, j);
      FromStep(s, n, j, delta, bias, h, hPlusOne, b);
      if s[j] < n {
        delta := delta + 1;
        if delta > MAX_INT {
          failed := true;
          return;
        }
        assert want == Prepend(output, EncodeFrom(s, n, j + 1, delta, bias, h, hPlusOne, b));
      } else if s[j] == n {
        var digits := EmitInt(delta, bias);
        var newBias := ComputeAdapt(delta, hPlusOne, h == b);
        PrependTwice(output, digits, EncodeFrom(s, n, j + 1, 0, newBias, h + 1, hPlusOne, b));
        output, bias, delta, h := output + digits, newBias, 0, h + 1;
        assert want == Prepend(output, EncodeFrom(s, n, j + 1, delta, bias, h, hPlusOne, b));
      } else {
        assert want == Prepend(output, EncodeFrom(s, n, j + 1, delta, bias, h, hPlusOne, b));
      }
      j := j + 1;
    }
    BelowGrows(s, n);
    FromEnd(s, n, delta, bias, h, hPlusOne, b);
  }

  lemma FromStep(s: seq<nat>, n: nat, j: nat, delta: nat, bias: nat, h: nat, hPlusOne: nat, b: nat)
    requires AllBelowLimit(s) && j < |s| && n in s
    requires h == |Below(s[..j], n + 1)| + |Below(s[j..], n)| && hPlusOne == |Below(s, n)| + 1
    ensures h + (if s[j] == n then 1 else 0) == |Below(s[..j + 1], n + 1)| + |Below(s[j + 1..], n)|
    ensures EncodeFrom(s, n, j, delta, bias, h, hPlusOne, b)
         == if s[j] < n then
              if delta + 1 > MAX_INT then Err(Overflow) else EncodeFrom(s, n, j + 1, delta + 1, bias, h, hPlusOne, b)
            else if s[j] == n then
              Prepend(EncodeInt(delta, BASE, bias),
                      EncodeFrom(s, n, j + 1, 0, Adapt(delta, hPlusOne, h == b), h + 1, hPlusOne, b))
            else EncodeFrom(s, n, j + 1, delta, bias, h, hPlusOne, b)
  {
    BelowStep(s, n, j);
  }

  lemma FromEnd(s: seq<nat>, n: nat, delta: nat, bias: nat, h: nat, hPlusOne: nat, b: nat)
    requires AllBelowLimit(s) && n in s
    requires h == |Below(s[..|s|], n + 1)| + |Below(s[|s|..], n)| && hPlusOne == |Below(s, n)| + 1
    ensures h == |Below(s, n + 1)|
    ensures EncodeFrom(s, n, |s|, delta, bias, h, hPlusOne, b) == EncodePass(s, n + 1, delta + 1, bias, h, b)
  {
    assert s[..|s|] == s && s[|s|..] == [];
  }

  function EncodeStart(s: seq<nat>, n: nat, delta: nat, bias: nat, h: nat, b: nat): Result<seq<CodeUnit>, Error>
    requires AllBelowLimit(s) && n in s && h == |Below(s, n)|
  {
    assert s[..0] == [] && s[0..] == s;
    EncodeFrom(s, n, 0, delta, bias, h, h + 1, b)
  }

  /** One turn of the outer loop. */
  method OuterPass(s: seq<nat>, n0: nat, delta0: nat, bias0: nat, h0: nat, b: nat)
    returns (output: seq<CodeUnit>, n: nat, delta: nat, bias: nat, h: nat, failed: bool)
    requires AllBelowLimit(s) && h0 == |Below(s, n0)| < |s|
    ensures failed ==> EncodePass(s, n0, delta0, bias0, h0, b) == Err(Overflow)
    ensures !failed ==> h0 < h == |Below(s, n)|
    ensures !failed ==> EncodePass(s, n0, delta0, bias0, h0, b) == Prepend(output, EncodePass(s, n, delta, bias, h, b))
  {
    hide EncodeFrom;
    hide EncodePass;
    var m := ScanNext(s, n0);
    PassStep(s, n0, delta0, bias0, h0, b);
    if TooFar(m, n0, delta0, h0 + 1) {
      output, n, delta, bias, h, failed := [], n0, delta0, bias0, h0, true;
      return;
    }
    output, delta, bias, h, failed := InnerPass(s, m, delta0 + Span(m, n0, h0 + 1), bias0, h0, b);
    n, delta := m + 1, delta + 1;
  }

  method EncodeString(input: seq<CodeUnit>) returns (r: Result<seq<CodeUnit>, Error>)
    ensures r == Encode(input)
  {
    hide EncodePass;
    var s := Ucs2.Ucs2Decode(input);
    var output := CollectBasic(s);
    var n: nat, delta: nat, bias := INITIAL_N, 0, INITIAL_BIAS;
    var h: nat := |output|;
    var b := h;
    if b > 0 {
      output := output + [DELIMITER];
    }
    while h < |s|
      invariant h == |Below(s, n)|
      invariant Encode(input) == Prepend(output, EncodePass(s, n, delta, bias, h, b))
      decreases |s| - h
    {
      var more, n', delta', bias', h', failed := OuterPass(s, n, delta, bias, h, b);
      if failed {
        return Err(Overflow);
      }
      PrependTwice(output, more, EncodePass(s, n', delta', bias', h', b));
      output, n, delta, bias, h := output + more, n', delta', bias', h';
    }
    PassEnd(s, n, delta, bias, h, b);
    r := Ok(output);
    assert output + [] == output;
  }

  lemma PassStep(s: seq<nat>, n: nat, delta: nat, bias: nat, h: nat, b: nat)
    requires AllBelowLimit(s) && h == |Below(s, n)| < |s|
    ensures var m := NextPoint(s, n);
            && n <= m && m in s && Below(s, m) == Below(s, n)
            && EncodePass(s, n, delta, bias, h, b)
            == if TooFar(m, n, delta, h + 1) then Err(Overflow)
               else EncodeStart(s, m, delta + Span(m, n, h + 1), bias, h, b)
  {
    hide EncodeFrom;
    hide TooFar;
    hide Span;
    NextPointFound(s, n);
  }

  lemma PassEnd(s: seq<nat>, n: nat, delta: nat, bias: nat, h: nat, b: nat)
    requires AllBelowLimit(s) && h == |Below(s, n)| >= |s|
    ensures EncodePass(s, n, delta, bias, h, b) == Ok([])
  {
  }

  method ReadInt(input: seq<CodeUnit>, start: nat, i0: nat, bias: nat) returns (r: Result<(nat, nat), Error>)
    requires start <= |input| && IsDigits(input[start..])
    ensures r.Ok? ==> start < r.value.1 <= |input|
    ensures DecodeInt(input[start..], i0, 1, BASE, bias)
         == if r.Ok? then Ok((r.value.0, input[r.value.1..])) else Err(r.error)
  {
    var i: nat, w: nat, k: nat, index := i0, 1, BASE, start;
    ghost var want := DecodeInt(input[start..], i0, 1, BASE, bias);
    while true
      invariant start <= index <= |input| && w >= 1
      invariant IsDigits(input[index..])
      invariant want == DecodeInt(input[index..], i, w, k, bias)
      decreases |input| - index
    {
      if index >= |input| {
        return Err(InvalidInput);
      }
      assert input[index..][1..] == input[index + 1..];
      assert input[index..][0] == input[index];
      var digit := BasicToDigit(input[index]);
      index := index + 1;
      if digit >= BASE || digit > (MAX_INT - i) / w {
        return Err(Overflow);
      }
      DigitFits(digit, i, w);
      i := i + digit * w;
      var t := Threshold(k, bias);
      if digit < t {
        return Ok((i, index));
      }
      if w > MAX_INT / (BASE - t) {
        return Err(Overflow);
      }
      MulGrows(BASE - t, w);
      w := w * (BASE - t);
      k := k + BASE;
    }
  }

  method FindLastDelimiter(input: seq<CodeUnit>) returns (basic: nat)
    ensures basic == LastDelimiter(input)
  {
    var k := |input|;
    while k > 0
      invariant 0 <= k <= |input|
      invariant LastDelimiter(input) == LastDelimiter(input[..k])
    {
      k := k - 1;
      assert input[..k + 1][..k] == input[..k];
      if input[k] == DELIMITER {
        return k;
      }
    }
    basic := 0;
  }

  method DecodeString(input: seq<CodeUnit>) returns (r: Result<seq<CodeUnit>, Error>)
    requires IsDigits(Tail(input))
    ensures r == Decode(input)
  {
    var basic := FindLastDelimiter(input);
    var output: seq<nat> := [];
    for j := 0 to basic
      invariant output == input[..j]
      invariant forall l :: 0 <= l < j ==> input[l] < 0x80
    {
      if input[j] >= 0x80 {
        assert input[..basic][j] >= 0x80;
        return Err(NotBasic);
      }
      output := output + [input[j]];
    }
    assert output == input[..basic];
    assert input[(if basic > 0 then basic + 1 else 0)..] == Tail(input);
    var points := DecodeFrom(input, if basic > 0 then basic + 1 else 0, output);
    if points.Err? {
      return Err(points.error);
    }
    var text := Ucs2.Ucs2Encode(points.value);
    r := Ok(text);
  }

  /** The main decoding loop, from `start` on. */
  method DecodeFrom(input: seq<CodeUnit>, start: nat, basic: seq<nat>) returns (r: Result<seq<nat>, Error>)
    requires start <= |input| && IsDigits(input[start..])
    ensures r == DecodeLoop(input[start..], INITIAL_N, 0, INITIAL_BIAS, basic)
  {
    hide DecodeLoop;
    hide DecodeInt;
    hide AdaptLoop;
    hide FloorDiv;
    hide Place;
    var output, index := basic, start;
    var n: nat, i: nat, bias := INITIAL_N, 0, INITIAL_BIAS;
    ghost var want := DecodeLoop(input[start..], n, i, bias, basic);
    while index < |input|
      invariant index <= |input| && IsDigits(input[index..])
      invariant want == DecodeLoop(input[index..], n, i, bias, output)
    {
      var oldi := i;
      var step := ReadInt(input, index, i, bias);
      DecodeLoopOnce(input[index..], n, i, bias, output);
      if step.Err? {
        return Err(step.error);
      }
      i, index := step.value.0, step.value.1;
      var out := |output| + 1;
      bias := ComputeAdapt(i - oldi, out, oldi == 0);
      if FloorDiv(i, out) > MAX_INT - n {
        return Err(Overflow);
      }
      n := n + FloorDiv(i, out);
      i := Place(i, out);
      output := output[..i] + [n] + output[i..];
      i := i + 1;
    }
    DecodeLoopEnd(n, i, bias, output);
    assert input[index..] == [];
    r := Ok(output);
  }

  lemma DecodeLoopEnd(n: nat, i: nat, bias: nat, output: seq<nat>)
    ensures DecodeLoop([], n, i, bias, output) == Ok(output)
  {
  }
}
