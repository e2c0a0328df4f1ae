/** The Punycode codec of lib/punycode.js (RFC 3492): specification functions and the loops that compute them. */
module Punycode {
  import opened Common
  import Ucs2

  const MAX_INT: int := 0x7FFF_FFFF
  const BASE: int := 36
  const T_MIN: int := 1
  const T_MAX: int := 26
  const SKEW: int := 38
  const DAMP: int := 700
  const INITIAL_BIAS: nat := 72
  const INITIAL_N: nat := 128
  const DELIMITER: CodeUnit := 0x2D

  datatype Error = Overflow | NotBasic | InvalidInput

  // ---------- digits, thresholds, bias ----------

  /** Unlike RFC 3492, some characters that are no digits give a negative value here. */
  function BasicToDigit(c: CodeUnit): int {
    if c - 48 < 10 then c - 22
    else if c - 65 < 26 then c - 65
    else if c - 97 < 26 then c - 97
    else BASE
  }

  function DigitToBasic(digit: int): (c: CodeUnit)
    requires 0 <= digit < BASE
    ensures BasicToDigit(c) == digit && c < 0x80 && c != DELIMITER
  {
    digit + 22 + if digit < 26 then 75 else 0
  }

  function Threshold(k: int, bias: int): (t: int)
    ensures T_MIN <= t <= T_MAX
  {
    if k <= bias then T_MIN else if k >= bias + T_MAX then T_MAX else k - bias
  }

  /** `floor(x / d)` */
  function FloorDiv(x: nat, d: nat): (q: nat)
    requires d > 0
  {
    x / d
  }

  function AdaptLoop(delta: nat, k: nat): nat {
    if delta > (BASE - T_MIN) * T_MAX / 2 then AdaptLoop(delta / (BASE - T_MIN), k + BASE)
    else k + FloorDiv((BASE - T_MIN + 1) * delta, delta + SKEW)
  }

  function Adapt(delta: nat, numPoints: nat, firstTime: bool): nat
    requires numPoints > 0
  {
    var d := if firstTime then delta / DAMP else delta / 2;
    AdaptLoop(d + FloorDiv(d, numPoints), 0)
  }

  method ComputeAdapt(delta: nat, numPoints: nat, firstTime: bool) returns (bias: nat)
    requires numPoints > 0
    ensures bias == Adapt(delta, numPoints, firstTime)
  {
    var k := 0;
    var d: nat := if firstTime then delta / DAMP else delta / 2;
    d := d + FloorDiv(d, numPoints);
    ghost var d0 := d;
    while d > (BASE - T_MIN) * T_MAX / 2
      invariant k >= 0
      invariant AdaptLoop(d0, 0) == AdaptLoop(d, k)
    {
      d := d / (BASE - T_MIN);
      k := k + BASE;
    }
    bias := k + FloorDiv((BASE - T_MIN + 1) * d, d + SKEW);
  }

  // ---------- generalized variable-length integers ----------

  predicate IsDigits(s: seq<CodeUnit>) {
    forall i :: 0 <= i < |s| ==> BasicToDigit(s[i]) >= 0
  }

  /** Characters the encoder may write after the delimiter: basic, and not the delimiter itself. */
  predicate IsBasicDigits(s: seq<CodeUnit>) {
    forall i :: 0 <= i < |s| ==> 0 <= BasicToDigit(s[i]) < BASE && s[i] < 0x80 && s[i] != DELIMITER
  }

  lemma MulGrows(x: nat, y: nat)
    requires x >= 1
    ensures x * y >= y
  {
  }

  lemma DivMod(x: nat, d: nat)
    requires d > 0
    ensures x == d * (x / d) + x % d
    ensures 0 <= x % d < d && 0 <= x / d <= x
  {
    assert x / d >= 0;
    MulGrows(d, x / d);
  }

  /** A digit and a quotient carry `q` between them. */
  lemma SplitDigit(q: nat, t: int)
    requires T_MIN <= t <= T_MAX && t <= q
    ensures t <= t + (q - t) % (BASE - t) < BASE
    ensures 0 <= (q - t) / (BASE - t) < q
    ensures q == t + (q - t) % (BASE - t) + (BASE - t) * ((q - t) / (BASE - t))
  {
    DivMod(q - t, BASE - t);
  }

  function EncodeInt(q: nat, k: nat, bias: nat): (r: seq<CodeUnit>)
    ensures |r| >= 1 && IsBasicDigits(r)
    decreases q
  {
    var t := Threshold(k, bias);
    if q < t then [DigitToBasic(q)]
    else
      SplitDigit(q, t);
      [DigitToBasic(t + (q - t) % (BASE - t))] + EncodeInt((q - t) / (BASE - t), k + BASE, bias)
  }

  /** Reads one integer off the front of `tail`, adding it to `i`; yields the new `i` and what is left. */
  function DecodeInt(tail: seq<CodeUnit>, i: nat, w: nat, k: nat, bias: nat): (r: Result<(nat, seq<CodeUnit>), Error>)
    requires IsDigits(tail) && w >= 1
    ensures r.Ok? ==> |r.value.1| < |tail| && IsDigits(r.value.1) && i <= r.value.0 <= MAX_INT
    decreases |tail|
  {
    if tail == [] then Err(InvalidInput)
    else
      var digit := BasicToDigit(tail[0]);
      if digit >= BASE || digit > (MAX_INT - i) / w then Err(Overflow)
      else
        DigitFits(digit, i, w);
        var t := Threshold(k, bias);
        if digit < t then Ok((i + digit * w, tail[1..]))
        else if w > MAX_INT / (BASE - t) then Err(Overflow)
        else
          assert w * (BASE - t) >= 1;
          DecodeInt(tail[1..], i + digit * w, w * (BASE - t), k + BASE, bias)
  }

  /** The overflow test by division is the test of the sum itself. */
  lemma DigitFits(digit: nat, i: nat, w: nat)
    requires w >= 1
    ensures digit > (MAX_INT - i) / w <==> i + digit * w > MAX_INT
    ensures digit * w >= 0
  {
    var q, r := (MAX_INT - i) / w, (MAX_INT - i) % w;
    assert MAX_INT - i == q * w + r;
    if digit > q {
      assert digit * w >= (q + 1) * w;
    } else {
      assert digit * w <= q * w;
    }
  }

  /** The first digit the encoder writes, and what it goes on with. */
  lemma EncodeIntStep(q: nat, k: nat, bias: nat)
    ensures var t := Threshold(k, bias);
            if q < t then EncodeInt(q, k, bias) == [DigitToBasic(q)]
            else
              var digit, q' := t + (q - t) % (BASE - t), (q - t) / (BASE - t);
              && t <= digit < BASE && 0 <= q' < q && q == digit + (BASE - t) * q'
              && EncodeInt(q, k, bias) == [DigitToBasic(digit)] + EncodeInt(q', k + BASE, bias)
  {
    if q >= Threshold(k, bias) {
      SplitDigit(q, Threshold(k, bias));
    }
  }

  lemma DigitsCons(digit: nat, rest: seq<CodeUnit>)
    requires digit < BASE && IsDigits(rest)
    ensures IsDigits([DigitToBasic(digit)] + rest)
  {
  }

  /** What the decoder does with one digit. */
  lemma DecodeIntStep(digit: nat, rest: seq<CodeUnit>, i: nat, w: nat, k: nat, bias: nat)
    requires digit < BASE && IsDigits(rest) && w >= 1
    ensures IsDigits([DigitToBasic(digit)] + rest) && digit * w >= 0
    ensures var t := Threshold(k, bias);
            var r := DecodeInt([DigitToBasic(digit)] + rest, i, w, k, bias);
            && (i + digit * w > MAX_INT ==> r == Err(Overflow))
            && (i + digit * w <= MAX_INT && digit < t ==> r == Ok((i + digit * w, rest)))
            && (i + digit * w <= MAX_INT && digit >= t && w > MAX_INT / (BASE - t) ==> r == Err(Overflow))
            && (i + digit * w <= MAX_INT && digit >= t && w <= MAX_INT / (BASE - t) ==>
                  w * (BASE - t) >= 1 && r == DecodeInt(rest, i + digit * w, w * (BASE - t), k + BASE, bias))
  {
    DigitsCons(digit, rest);
    DigitFits(digit, i, w);
    MulGrows(BASE - Threshold(k, bias), w);
    assert ([DigitToBasic(digit)] + rest)[1..] == rest;
  }

  lemma MoreDigits(q: nat, k: nat, bias: nat, rest: seq<CodeUnit>)
    requires IsDigits(rest)
    ensures IsDigits(EncodeInt(q, k, bias) + rest)
  {
    hide EncodeInt;
  }

  // ---------- decoder ----------

  /** Where `i` comes to rest after wrapping around an output of length `out`. */
  function Place(i: nat, out: nat): (at: nat)
    requires out > 0
    ensures at < out
  {
    i % out
  }

  function DecodeLoop(tail: seq<CodeUnit>, n: nat, i: nat, bias: nat, output: seq<nat>): Result<seq<nat>, Error>
    requires IsDigits(tail)
    decreases |tail|
  {
    if tail == [] then Ok(output)
    else
      match DecodeInt(tail, i, 1, BASE, bias)
      case Err(e) => Err(e)
      case Ok((i', rest)) =>
        var out := |output| + 1;
        if FloorDiv(i', out) > MAX_INT - n then Err(Overflow)
        else
          var n', at := n + FloorDiv(i', out), Place(i', out);
          DecodeLoop(rest, n', at + 1, Adapt(i' - i, out, i == 0), output[..at] + [n'] + output[at..])
  }

  /** One turn of the main loop. */
  lemma DecodeLoopOnce(tail: seq<CodeUnit>, n: nat, i: nat, bias: nat, output: seq<nat>)
    requires IsDigits(tail) && tail != []
    ensures var step, out := DecodeInt(tail, i, 1, BASE, bias), |output| + 1;
            if step.Err? then DecodeLoop(tail, n, i, bias, output) == Err(step.error)
            else
              var i', rest := step.value.0, step.value.1;
              && IsDigits(rest) && i <= i'
              && (FloorDiv(i', out) > MAX_INT - n ==> DecodeLoop(tail, n, i, bias, output) == Err(Overflow))
              && (FloorDiv(i', out) <= MAX_INT - n ==>
                    DecodeLoop(tail, n, i, bias, output) ==
                    DecodeLoop(rest, n + FloorDiv(i', out), Place(i', out) + 1, Adapt(i' - i, out, i == 0),
                               output[..Place(i', out)] + [n + FloorDiv(i', out)] + output[Place(i', out)..]))
  {
    hide FloorDiv;
    hide Place;
    hide DecodeInt;
    hide AdaptLoop;
  }

  /** `input.lastIndexOf('-')`, or 0 when there is none. */
  function LastDelimiter(input: seq<CodeUnit>): (r: nat)
    ensures r <= |input| && (r > 0 ==> r < |input|)
    ensures r > 0 ==> input[r] == DELIMITER
    ensures forall j :: r < j < |input| ==> input[j] != DELIMITER
  {
    if input == [] then 0
    else if input[|input| - 1] == DELIMITER then |input| - 1
    else LastDelimiter(input[..|input| - 1])
  }

  function Tail(input: seq<CodeUnit>): seq<CodeUnit> {
    var basic := LastDelimiter(input);
    if basic > 0 then input[basic + 1..] else input
  }

  /**
   * decode(input). `IsDigits` excludes the characters to which `basicToDigit` gives a negative
   * value (the source then works with a negative insertion point).
   */
  function Decode(input: seq<CodeUnit>): Result<seq<CodeUnit>, Error>
    requires IsDigits(Tail(input))
  {
    var basic := input[..LastDelimiter(input)];
    if exists j :: 0 <= j < |basic| && basic[j] >= 0x80 then Err(NotBasic)
    else
      match DecodeLoop(Tail(input), INITIAL_N, 0, INITIAL_BIAS, basic)
      case Err(e) => Err(e)
      case Ok(cs) => Ok(Ucs2.FromCodePoints(cs))
  }

  // ---------- encoder ----------

  /** The members of `s` below `m`, in order. */
  function Below(s: seq<nat>, m: nat): (r: seq<nat>)
    ensures |r| <= |s|
  {
    if s == [] then []
    else (if s[0] < m then [s[0]] else []) + Below(s[1..], m)
  }

  /** The scan of the outer loop for the next code point to handle. */
  function NextPoint(s: seq<nat>, n: nat): nat {
    if s == [] then MAX_INT
    else
      var m := NextPoint(s[..|s| - 1], n);
      var c := s[|s| - 1];
      if c >= n && c < m then c else m
  }

  function Prepend(out: seq<CodeUnit>, r: Result<seq<CodeUnit>, Error>): Result<seq<CodeUnit>, Error> {
    if r.Ok? then Ok(out + r.value) else r
  }

  ghost predicate AllBelowLimit(s: seq<nat>) {
    forall i :: 0 <= i < |s| ==> s[i] < 0x110000
  }

  /** What the decoder must wait for `n` to grow to `m`. */
  function Span(m: nat, n: nat, hPlusOne: nat): nat
    requires n <= m
  {
    MulNonNegative(m - n, hPlusOne);
    (m - n) * hPlusOne
  }

  predicate TooFar(m: nat, n: nat, delta: nat, hPlusOne: nat)
    requires n <= m && hPlusOne > 0
    ensures TooFar(m, n, delta, hPlusOne) <==> delta + Span(m, n, hPlusOne) > MAX_INT
  {
    DigitFits(m - n, delta, hPlusOne);
    m - n > (MAX_INT - delta) / hPlusOne
  }

  lemma MulNonNegative(a: nat, b: nat)
    ensures a * b >= 0
  {
  }

  /** One outer pass of the encoder: all code points below `n` are handled, `h` of them; `b` are basic. */
  function EncodePass(s: seq<nat>, n: nat, delta: nat, bias: nat, h: nat, b: nat): (r: Result<seq<CodeUnit>, Error>)
    requires AllBelowLimit(s)
    requires h == |Below(s, n)|
    ensures r.Ok? ==> IsBasicDigits(r.value)
    decreases |s| - |Below(s, n)|, 1, 0
  {
    if h >= |s| then Ok([])
    else
      var m := NextPoint(s, n);
      NextPointFound(s, n);
      if TooFar(m, n, delta, h + 1) then Err(Overflow)
      else
        assert s[..0] == [] && s[0..] == s;
        EncodeFrom(s, m, 0, delta + Span(m, n, h + 1), bias, h, h + 1, b)
  }

  /**
   * The inner loop of a pass from position `j`. `hPlusOne` is computed once per pass, so it lags
   * behind `h + 1` when the code point `n` occurs more than once.
   */
  function EncodeFrom(s: seq<nat>, n: nat, j: nat, delta: nat, bias: nat, h: nat, hPlusOne: nat, b: nat)
    : (r: Result<seq<CodeUnit>, Error>)
    requires AllBelowLimit(s)
    requires j <= |s| && n in s
    requires h == |Below(s[..j], n + 1)| + |Below(s[j..], n)|
    requires hPlusOne == |Below(s, n)| + 1
    ensures r.Ok? ==> IsBasicDigits(r.value)
    decreases |s| - |Below(s, n)|, 0, |s| - j
  {
    if j == |s| then
      assert s[..j] == s && s[j..] == [];
      BelowGrows(s, n);
      EncodePass(s, n + 1, delta + 1, bias, h, b)
    else
      BelowStep(s, n, j);
      if s[j] < n then
        if delta + 1 > MAX_INT then Err(Overflow)
        else EncodeFrom(s, n, j + 1, delta + 1, bias, h, hPlusOne, b)
      else if s[j] == n then
        Prepend(EncodeInt(delta, BASE, bias),
                EncodeFrom(s, n, j + 1, 0, Adapt(delta, hPlusOne, h == b), h + 1, hPlusOne, b))
      else EncodeFrom(s, n, j + 1, delta, bias, h, hPlusOne, b)
  }

  function EncodePoints(s: seq<nat>): Result<seq<CodeUnit>, Error>
    requires AllBelowLimit(s)
  {
    BelowBound(s, INITIAL_N);
    var basic: seq<CodeUnit> := Below(s, INITIAL_N);
    Prepend(if basic == [] then [] else basic + [DELIMITER],
            EncodePass(s, INITIAL_N, 0, INITIAL_BIAS, |basic|, |basic|))
  }

  function Encode(input: seq<CodeUnit>): Result<seq<CodeUnit>, Error> {
    EncodePoints(Ucs2.CodePoints(input))
  }

  // ---------- facts about Below ----------

  lemma {:induction false} BelowBound(s: seq<nat>, m: nat)
    ensures forall i :: 0 <= i < |Below(s, m)| ==> Below(s, m)[i] < m
  {
    if s != [] {
      BelowBound(s[1..], m);
    }
  }

  lemma {:induction false} BelowConcat(a: seq<nat>, b: seq<nat>, m: nat)
    ensures Below(a + b, m) == Below(a, m) + Below(b, m)
  {
    if a == [] {
      assert a + b == b;
    } else {
      var head, rest := if a[0] < m then [a[0]] else [], a[1..];
      calc {
        Below(a + b, m);
        { assert (a + b)[1..] == rest + b; }
        head + Below(rest + b, m);
        { BelowConcat(rest, b, m); }
        head + (Below(rest, m) + Below(b, m));
        (head + Below(rest, m)) + Below(b, m);
      }
    }
  }

  lemma BelowStep(s: seq<nat>, n: nat, j: nat)
    requires j < |s|
    ensures Below(s[..j + 1], n + 1) == Below(s[..j], n + 1) + if s[j] <= n then [s[j]] else []
    ensures Below(s[j..], n) == (if s[j] < n then [s[j]] else []) + Below(s[j + 1..], n)
  {
    BelowPush(s, n + 1, j);
    assert s[j..][1..] == s[j + 1..];
  }

  lemma BelowPush(s: seq<nat>, m: nat, j: nat)
    requires j < |s|
    ensures Below(s[..j + 1], m) == Below(s[..j], m) + if s[j] < m then [s[j]] else []
  {
    assert s[..j + 1] == s[..j] + [s[j]];
    BelowConcat(s[..j], [s[j]], m);
    assert Below([s[j]], m) == if s[j] < m then [s[j]] else [];
  }

  lemma BelowPrefix(s: seq<nat>, m: nat, j: nat)
    requires j <= |s|
    ensures |Below(s[..j], m)| <= |Below(s, m)|
  {
    assert s == s[..j] + s[j..];
    BelowConcat(s[..j], s[j..], m);
  }

  lemma {:induction false} BelowGrows(s: seq<nat>, n: nat)
    ensures |Below(s, n)| <= |Below(s, n + 1)|
    ensures |Below(s, n)| < |Below(s, n + 1)| <==> n in s
  {
    if s != [] {
      BelowGrows(s[1..], n);
    }
  }

  /** Skipping from `n` to the next code point present changes nothing about what is handled. */
  lemma {:induction false} BelowSkip(s: seq<nat>, n: nat, m: nat)
    requires n <= m
    requires forall i :: 0 <= i < |s| && s[i] >= n ==> m <= s[i]
    ensures Below(s, m) == Below(s, n)
  {
    if s != [] {
      BelowSkip(s[1..], n, m);
    }
  }

  lemma {:induction false} BelowAll(s: seq<nat>, m: nat)
    requires |Below(s, m)| == |s|
    ensures Below(s, m) == s
  {
    if s != [] {
      BelowAll(s[1..], m);
    }
  }

  lemma {:induction false} BelowNone(s: seq<nat>, m: nat)
    requires |Below(s, m)| < |s|
    ensures exists i :: 0 <= i < |s| && s[i] >= m
  {
    if s[0] < m {
      BelowNone(s[1..], m);
      var i :| 0 <= i < |s[1..]| && s[1..][i] >= m;
      assert s[i + 1] >= m;
    }
  }

  /** The scan finds the least member of `s` that is at least `n`. */
  lemma {:induction false} NextPointIsLeast(s: seq<nat>, n: nat)
    ensures var m := NextPoint(s, n); m <= MAX_INT && (m == MAX_INT || (m in s && n <= m))
    ensures forall i :: 0 <= i < |s| && n <= s[i] < MAX_INT ==> NextPoint(s, n) <= s[i]
  {
    if s != [] {
      NextPointIsLeast(s[..|s| - 1], n);
    }
  }

  lemma NextPointFound(s: seq<nat>, n: nat)
    requires AllBelowLimit(s) && |Below(s, n)| < |s|
    ensures var m := NextPoint(s, n); n <= m && m in s && Below(s, m) == Below(s, n)
  {
    BelowNone(s, n);
    NextPointIsLeast(s, n);
    BelowSkip(s, n, NextPoint(s, n));
  }
}
