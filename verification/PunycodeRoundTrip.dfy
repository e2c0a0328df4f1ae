/** decode(encode(s)) == s: the encoder's and the decoder's state machines move in lockstep. */
module PunycodeRoundTrip {
  import opened Common
  import opened Punycode
  import Ucs2

  // ---------- the bias stays small, so the decoder's weight cannot overflow on encoder output ----------

  /** Up to this bias, integers within 31 bits can be read back; `adapt` stays well below. */
  const BIAS_LIMIT: nat := 251

  /** 455, or a number that `steps` divisions by 35 bring down to at most 455. */
  function AdaptReach(steps: nat): nat {
    if steps == 0 then 455 else 35 * AdaptReach(steps - 1) + 34
  }

  lemma {:induction false} AdaptLoopBound(delta: nat, k: nat, steps: nat)
    requires delta <= AdaptReach(steps)
    ensures AdaptLoop(delta, k) <= k + 36 * steps + 33
  {
    if delta <= 455 {
      DivMod(36 * delta, delta + 38);
      if FloorDiv(36 * delta, delta + 38) >= 34 {
        MulOrder(34, FloorDiv(36 * delta, delta + 38), delta + 38);
      }
    } else {
      AdaptLoopBound(delta / 35, k + 36, steps - 1);
    }
  }

  lemma MulOrder(a: nat, b: nat, c: nat)
    requires a <= b
    ensures a * c <= b * c && c * a <= c * b
  {
  }

  lemma AdaptBound(delta: nat, numPoints: nat, firstTime: bool)
    requires delta <= MAX_INT && numPoints > 0
    ensures Adapt(delta, numPoints, firstTime) < 216 < BIAS_LIMIT
  {
    var d := if firstTime then delta / DAMP else delta / 2;
    DivMod(d, numPoints);
    assert AdaptReach(1) == 15959 && AdaptReach(2) == 558599 && AdaptReach(3) == 19550999;
    assert AdaptReach(4) == 684284999 && AdaptReach(5) >= MAX_INT;
    AdaptLoopBound(d + FloorDiv(d, numPoints), 0, 5);
  }

  /** The decoder's weight for digit `k` while every earlier threshold was 1: a power of 35. */
  function UnitWeight(k: nat): nat {
    if k <= 36 then 1 else if k == 72 then 35 else if k == 108 then 1225 else if k == 144 then 42875
    else if k == 180 then 1500625 else if k == 216 then 52521875 else 1838265625
  }

  ghost predicate WeightOk(k: nat, w: nat, bias: nat) {
    k >= 36 && k % 36 == 0 && w >= 1 && (k < bias + T_MAX ==> w == UnitWeight(k))
  }

  lemma WeightStep(q: nat, k: nat, w: nat, bias: nat)
    requires bias < BIAS_LIMIT && WeightOk(k, w, bias)
    requires q * w <= MAX_INT && q >= Threshold(k, bias)
    ensures var t := Threshold(k, bias); w <= MAX_INT / (36 - t) && WeightOk(k + 36, w * (36 - t), bias)
  {
    var t := Threshold(k, bias);
    if k < bias + T_MAX {
      assert k == 36 || k == 72 || k == 108 || k == 144 || k == 180 || k == 216 || k == 252;
      if k == 252 {
        MulOrder(2, q, w);
        assert false;
      }
      MulOrder(36 - t, 35, w);
    } else {
      MulOrder(26, q, w);
    }
    assert w * (36 - t) <= MAX_INT;
    DivideBack(w, 36 - t);
    MulGrows(36 - t, w);
  }

  lemma DivideBack(w: nat, d: nat)
    requires d > 0 && w * d <= MAX_INT
    ensures w <= MAX_INT / d
  {
    DivMod(MAX_INT, d);
    if MAX_INT / d + 1 <= w {
      MulOrder(MAX_INT / d + 1, w, d);
    }
  }

  // ---------- one integer ----------

  lemma DigitSum(q: nat, t: int, w: nat, digit: nat, rest: nat)
    requires q == digit + (36 - t) * rest
    ensures q * w == digit * w + rest * (w * (36 - t))
  {
    assert ((36 - t) * rest) * w == rest * (w * (36 - t));
  }

  lemma Append<T>(x: T, a: seq<T>, rest: seq<T>)
    ensures [x] + a + rest == [x] + (a + rest)
  {
  }

  /** Section 3.3 of RFC 3492: the digits of `q` delimit themselves and give `q` back. */
  lemma {:induction false} IntRoundTrip(q: nat, i: nat, w: nat, k: nat, bias: nat, rest: seq<CodeUnit>)
    requires IsDigits(rest) && bias < BIAS_LIMIT && WeightOk(k, w, bias) && q * w <= MAX_INT
    ensures IsDigits(EncodeInt(q, k, bias) + rest)
    ensures DecodeInt(EncodeInt(q, k, bias) + rest, i, w, k, bias)
         == if i + q * w <= MAX_INT then Ok((i + q * w, rest)) else Err(Overflow)
    decreases q
  {
    hide EncodeInt;
    hide DecodeInt;
    hide IsDigits;
    hide Threshold;
    hide DigitToBasic;
    var t := Threshold(k, bias);
    EncodeIntStep(q, k, bias);
    if q < t {
      DecodeIntStep(q, rest, i, w, k, bias);
    } else {
      var digit, q' := t + (q - t) % (36 - t), (q - t) / (36 - t);
      var more := EncodeInt(q', k + 36, bias);
      DigitSum(q, t, w, digit, q');
      WeightStep(q, k, w, bias);
      MulNonNegative(digit, w);
      MulNonNegative(q', w * (36 - t));
      IntRoundTrip(q', i + digit * w, w * (36 - t), k + 36, bias, rest);
      Append(DigitToBasic(digit), more, rest);
      DecodeIntStep(digit, more + rest, i, w, k, bias);
    }
  }

  /** 1 + 35 + ... : the integer whose digits are all 1 while the threshold is 1. */
  function Ones(k: nat): nat
    decreases 252 - k
  {
    if k >= 252 then 1 else 1 + 35 * Ones(k + 36)
  }

  /** Beyond that bias there is an integer within 31 bits whose own digits make the decoder report overflow. */
  lemma {:induction false} OnesOverflow(k: nat, i: nat, bias: nat, rest: seq<CodeUnit>)
    requires bias >= BIAS_LIMIT && IsDigits(rest) && k % 36 == 0 && 36 <= k <= 252
    ensures IsDigits(EncodeInt(Ones(k), k, bias) + rest)
    ensures DecodeInt(EncodeInt(Ones(k), k, bias) + rest, i, UnitWeight(k), k, bias) == Err(Overflow)
    decreases 252 - k
  {
    hide EncodeInt;
    hide DecodeInt;
    hide IsDigits;
    hide DigitToBasic;
    var q, w := Ones(k), UnitWeight(k);
    assert Threshold(k, bias) == 1;
    EncodeIntStep(q, k, bias);
    var q' := (q - 1) / 35;
    assert (q - 1) % 35 == 0 && q' == if k == 252 then 0 else Ones(k + 36);
    var more := EncodeInt(q', k + 36, bias);
    MoreDigits(q', k + 36, bias, rest);
    Append(DigitToBasic(1), more, rest);
    DecodeIntStep(1, more + rest, i, w, k, bias);
    if k < 252 {
      assert k == 36 || k == 72 || k == 108 || k == 144 || k == 180 || k == 216;
      OnesOverflow(k + 36, i + w, bias, rest);
    }
  }

  /** The digits of `q` read back as `q`, and what follows them is left. */
  ghost predicate ReadsBack(q: nat, bias: nat, rest: seq<CodeUnit>)
    requires IsDigits(rest)
  {
    MoreDigits(q, BASE, bias, rest);
    DecodeInt(EncodeInt(q, BASE, bias) + rest, 0, 1, BASE, bias) == Ok((q, rest))
  }

  /** The integers within 31 bits all read back, whatever follows them, exactly for the biases below the limit. */
  lemma IntsReadBack(bias: nat)
    ensures bias < BIAS_LIMIT <==>
              forall q: nat, rest: seq<CodeUnit> :: q <= MAX_INT && IsDigits(rest) ==> ReadsBack(q, bias, rest)
  {
    if bias < BIAS_LIMIT {
      forall q: nat, rest: seq<CodeUnit> | q <= MAX_INT && IsDigits(rest)
        ensures ReadsBack(q, bias, rest)
      {
        IntRoundTrip(q, 0, 1, BASE, bias, rest);
      }
    } else {
      OnesOverflow(36, 0, bias, []);
      OnesFits();
      assert !ReadsBack(Ones(36), bias, []);
    }
  }

  lemma OnesFits()
    ensures Ones(36) <= MAX_INT
  {
    assert Ones(252) == 1 && Ones(216) == 36 && Ones(180) == 1261 && Ones(144) == 44136;
    assert Ones(108) == 1544761 && Ones(72) == 54066636;
  }

  // ---------- lockstep ----------

  /** What the encoder has handled at position `j` of the pass for `n`: exactly the decoder's output. */
  function Handled(s: seq<nat>, n: nat, j: nat): seq<nat>
    requires j <= |s|
  {
    Below(s[..j], n + 1) + Below(s[j..], n)
  }

  /** Where the code point at `j` belongs among the handled ones. */
  function Slot(s: seq<nat>, n: nat, j: nat): nat
    requires j <= |s|
  {
    |Below(s[..j], n + 1)|
  }

  /**
   * The encoder at position `j` of the pass for `n`, holding `delta`, and the decoder in state
   * (`dn`, `di`) agree: adding `delta` to `di` moves the decoder to code point `n` at the slot of `j`.
   */
  ghost predicate InStep(s: seq<nat>, n: nat, j: nat, delta: nat, h: nat, hPlusOne: nat, b: nat, dn: nat, di: nat) {
    && AllBelowLimit(s)
    && j <= |s| && n in s
    && h == |Handled(s, n, j)| && hPlusOne == |Below(s, n)| + 1
    && b <= h && INITIAL_N <= dn <= n
    && di + delta == (n - dn) * (h + 1) + Slot(s, n, j)
    && (di == 0 <==> h == b)
    // Within a pass, after its first code point, `delta` counts smaller code points only.
    && (h + 1 != hPlusOne ==> hPlusOne <= h && b < h && delta <= |Below(s[..j], n)|)
  }

  /** No sum `di + delta` can exceed the limit (section 6.4 of RFC 3492). */
  ghost predicate Fits(s: seq<nat>, limit: nat) {
    && INITIAL_N <= limit
    && (forall i :: 0 <= i < |s| ==> s[i] <= limit)
    && (limit - INITIAL_N + 1) * (|s| + 1) <= MAX_INT
  }

  /** The decoder, fed what the encoder emits from here on, ends with `s` unless it reports overflow. */
  ghost predicate Recovers(s: seq<nat>, e: Result<seq<CodeUnit>, Error>, dn: nat, di: nat, bias: nat,
                           output: seq<nat>, limit: nat)
    requires e.Ok? ==> IsBasicDigits(e.value)
  {
    && (e.Ok? ==>
          var r := DecodeLoop(e.value, dn, di, bias, output);
          r == Ok(s) || r == Err(Overflow))
    && (e.Err? ==> e.error == Overflow)
    && (Fits(s, limit) ==> e.Ok? && DecodeLoop(e.value, dn, di, bias, output) == Ok(s))
  }

  lemma SpanBound(x: nat, h: nat, y: nat, limit: nat, len: nat)
    requires x <= limit && h + 1 <= len + 1 && y <= len + 1
    ensures x * (h + 1) + y <= (limit + 1) * (len + 1)
  {
    MulOrder(h + 1, len + 1, x);
    MulOrder(x, limit, len + 1);
  }

  /** Dividing the decoder's `i` by the new length separates code point and slot. */
  lemma SplitPosition(x: nat, out: nat, slot: nat)
    requires slot < out
    ensures x * out + slot >= 0 && FloorDiv(x * out + slot, out) == x && Place(x * out + slot, out) == slot
  {
    MulNonNegative(x, out);
    var i := x * out + slot;
    DivMod(i, out);
    if i / out > x {
      MulOrder(x + 1, i / out, out);
    } else if i / out < x {
      MulOrder(i / out + 1, x, out);
    }
  }

  /**
   * The second and later occurrences of a code point reach `adapt` with the count of the first one;
   * the decoder uses the current count. The results agree, because `delta` is below both.
   */
  lemma StaleCount(delta: nat, stale: nat, count: nat)
    requires delta < stale <= count
    ensures Adapt(delta, stale, false) == Adapt(delta, count, false)
  {
    DivSmall(delta / 2, stale);
    DivSmall(delta / 2, count);
  }

  lemma DivSmall(x: nat, d: nat)
    requires x < d
    ensures x / d == 0
  {
  }

  lemma HandledInsert(s: seq<nat>, n: nat, j: nat)
    requires j < |s| && s[j] == n
    ensures var slot, out := Slot(s, n, j), Handled(s, n, j);
            slot <= |out| && Handled(s, n, j + 1) == out[..slot] + [n] + out[slot..] && Slot(s, n, j + 1) == slot + 1
  {
    BelowStep(s, n, j);
    var slot, out := Slot(s, n, j), Handled(s, n, j);
    assert out[..slot] == Below(s[..j], n + 1) && out[slot..] == Below(s[j..], n);
  }

  lemma HandledSame(s: seq<nat>, n: nat, j: nat)
    requires j < |s| && s[j] != n
    ensures Handled(s, n, j + 1) == Handled(s, n, j)
    ensures Slot(s, n, j + 1) == Slot(s, n, j) + if s[j] < n then 1 else 0
    ensures Slot(s, n, j) <= |s|
  {
    BelowStep(s, n, j);
  }

  /** One integer: the decoder inserts `n` at its slot and adapts to the encoder's new bias. */
  lemma DecoderStep(s: seq<nat>, n: nat, j: nat, delta: nat, bias: nat, h: nat, hPlusOne: nat, b: nat, dn: nat, di: nat,
                    rest: seq<CodeUnit>)
    requires InStep(s, n, j, delta, h, hPlusOne, b, dn, di) && j < |s| && s[j] == n
    requires delta <= MAX_INT && bias < BIAS_LIMIT && IsDigits(rest)
    ensures IsDigits(EncodeInt(delta, BASE, bias) + rest)
    ensures DecodeLoop(EncodeInt(delta, BASE, bias) + rest, dn, di, bias, Handled(s, n, j))
         == if di + delta <= MAX_INT
            then DecodeLoop(rest, n, Slot(s, n, j) + 1, Adapt(delta, hPlusOne, h == b), Handled(s, n, j + 1))
            else Err(Overflow)
  {
    hide EncodeInt;
    hide DecodeInt;
    hide DecodeLoop;
    hide AdaptLoop;
    hide FloorDiv;
    hide Place;
    hide Below;
    var tail, out := EncodeInt(delta, BASE, bias) + rest, Handled(s, n, j);
    DecodeLoopOnce(tail, dn, di, bias, out);
    IntRoundTrip(delta, di, 1, BASE, bias, rest);
    assert DecodeInt(tail, di, 1, BASE, bias)
        == if di + delta <= MAX_INT then Ok((di + delta, rest)) else Err(Overflow);
    if di + delta <= MAX_INT {
      SplitPosition(n - dn, h + 1, Slot(s, n, j));
      assert Adapt(delta, h + 1, di == 0) == Adapt(delta, hPlusOne, h == b) by {
        if h + 1 != hPlusOne {
          BelowPrefix(s, n, j);
          StaleCount(delta, hPlusOne, h + 1);
        }
      }
      HandledInsert(s, n, j);
    }
  }

  // ---------- the encoder's moves keep the two in step ----------

  lemma StepOver(s: seq<nat>, n: nat, j: nat, delta: nat, h: nat, hPlusOne: nat, b: nat, dn: nat, di: nat)
    requires InStep(s, n, j, delta, h, hPlusOne, b, dn, di) && j < |s| && s[j] != n
    ensures InStep(s, n, j + 1, if s[j] < n then delta + 1 else delta, h, hPlusOne, b, dn, di)
    ensures Slot(s, n, j) <= |s| && h <= |s|
  {
    HandledSame(s, n, j);
    BelowPush(s, n, j);
    HandledCount(s, n, j);
  }

  lemma HandledCount(s: seq<nat>, n: nat, j: nat)
    requires j <= |s|
    ensures Slot(s, n, j) <= |Handled(s, n, j)| <= |s|
  {
  }

  lemma StepEmit(s: seq<nat>, n: nat, j: nat, delta: nat, h: nat, hPlusOne: nat, b: nat, dn: nat, di: nat)
    requires InStep(s, n, j, delta, h, hPlusOne, b, dn, di) && j < |s| && s[j] == n
    ensures InStep(s, n, j + 1, 0, h + 1, hPlusOne, b, n, Slot(s, n, j) + 1)
  {
    HandledInsert(s, n, j);
  }

  lemma StepEnd(s: seq<nat>, n: nat, delta: nat, h: nat, hPlusOne: nat, b: nat, dn: nat, di: nat)
    requires InStep(s, n, |s|, delta, h, hPlusOne, b, dn, di)
    ensures Handled(s, n, |s|) == Below(s, n + 1)
    ensures di + (delta + 1) == (n + 1 - dn) * (h + 1)
    ensures |Below(s, n)| < |Below(s, n + 1)|
  {
    BelowGrows(s, n);
    assert s[..|s|] == s && s[|s|..] == [];
  }

  // ---------- the whole run ----------

  /** The pass for `n` from position `j` on, with the decoder in step. */
  lemma {:induction false} SyncFrom(s: seq<nat>, n: nat, j: nat, delta: nat, bias: nat, h: nat, hPlusOne: nat, b: nat,
                                    dn: nat, di: nat, limit: nat)
    requires InStep(s, n, j, delta, h, hPlusOne, b, dn, di)
    requires delta <= MAX_INT && bias < BIAS_LIMIT
    ensures Recovers(s, EncodeFrom(s, n, j, delta, bias, h, hPlusOne, b), dn, di, bias, Handled(s, n, j), limit)
    decreases |s| - |Below(s, n)|, 0, |s| - j, 1
  {
    if j == |s| {
      StepEnd(s, n, delta, h, hPlusOne, b, dn, di);
      SyncPass(s, n + 1, delta + 1, bias, h, b, dn, di, limit);
    } else if s[j] == n {
      SyncEmit(s, n, j, delta, bias, h, hPlusOne, b, dn, di, limit);
    } else {
      SyncOver(s, n, j, delta, bias, h, hPlusOne, b, dn, di, limit);
    }
  }

  lemma {:induction false} SyncOver(s: seq<nat>, n: nat, j: nat, delta: nat, bias: nat, h: nat, hPlusOne: nat, b: nat,
                                    dn: nat, di: nat, limit: nat)
    requires InStep(s, n, j, delta, h, hPlusOne, b, dn, di) && j < |s| && s[j] != n
    requires delta <= MAX_INT && bias < BIAS_LIMIT
    ensures Recovers(s, EncodeFrom(s, n, j, delta, bias, h, hPlusOne, b), dn, di, bias, Handled(s, n, j), limit)
    decreases |s| - |Below(s, n)|, 0, |s| - j, 0
  {
    StepOver(s, n, j, delta, h, hPlusOne, b, dn, di);
    HandledSame(s, n, j);
    var delta' := if s[j] < n then delta + 1 else delta;
    if Fits(s, limit) {
      SpanBound(n - dn, h, Slot(s, n, j) + 1, limit - INITIAL_N, |s|);
    }
    if delta' <= MAX_INT {
      SyncFrom(s, n, j + 1, delta', bias, h, hPlusOne, b, dn, di, limit);
    }
  }

  lemma {:induction false} SyncEmit(s: seq<nat>, n: nat, j: nat, delta: nat, bias: nat, h: nat, hPlusOne: nat, b: nat,
                                    dn: nat, di: nat, limit: nat)
    requires InStep(s, n, j, delta, h, hPlusOne, b, dn, di) && j < |s| && s[j] == n
    requires delta <= MAX_INT && bias < BIAS_LIMIT
    ensures Recovers(s, EncodeFrom(s, n, j, delta, bias, h, hPlusOne, b), dn, di, bias, Handled(s, n, j), limit)
    decreases |s| - |Below(s, n)|, 0, |s| - j, 0
  {
    hide DecodeLoop;
    hide DecodeInt;
    hide EncodeInt;
    hide EncodePass;
    hide AdaptLoop;
    hide Below;
    var bias' := Adapt(delta, hPlusOne, h == b);
    AdaptBound(delta, hPlusOne, h == b);
    StepEmit(s, n, j, delta, h, hPlusOne, b, dn, di);
    SyncFrom(s, n, j + 1, 0, bias', h + 1, hPlusOne, b, n, Slot(s, n, j) + 1, limit);
    var e := EncodeFrom(s, n, j + 1, 0, bias', h + 1, hPlusOne, b);
    assert EncodeFrom(s, n, j, delta, bias, h, hPlusOne, b) == Prepend(EncodeInt(delta, BASE, bias), e) by {
      BelowStep(s, n, j);
    }
    assert Fits(s, limit) ==> di + delta <= MAX_INT by {
      if Fits(s, limit) {
        HandledCount(s, n, j);
        SpanBound(n - dn, h, Slot(s, n, j), limit - INITIAL_N, |s|);
      }
    }
    if e.Ok? {
      DecoderStep(s, n, j, delta, bias, h, hPlusOne, b, dn, di, e.value);
    }
  }

  lemma SpanSum(m: nat, n: nat, dn: nat, hPlusOne: nat)
    requires dn <= n <= m
    ensures (n - dn) * hPlusOne + Span(m, n, hPlusOne) == (m - dn) * hPlusOne
  {
  }

  lemma {:induction false} HandledStart(s: seq<nat>, n: nat)
    ensures Handled(s, n, 0) == Below(s, n) && Slot(s, n, 0) == 0
  {
    assert s[0..] == s;
    assert Below(s[..0], n + 1) == [];
    hide Below;
  }

  /** All code points below `n` are handled and the decoder stands before slot 0 of `n`. */
  lemma {:induction false} SyncPass(s: seq<nat>, n: nat, delta: nat, bias: nat, h: nat, b: nat, dn: nat, di: nat,
                                    limit: nat)
    requires AllBelowLimit(s)
    requires h == |Below(s, n)| && b <= h && INITIAL_N <= dn <= n
    requires di + delta == (n - dn) * (h + 1)
    requires di == 0 <==> h == b
    requires bias < BIAS_LIMIT
    ensures Recovers(s, EncodePass(s, n, delta, bias, h, b), dn, di, bias, Below(s, n), limit)
    decreases |s| - |Below(s, n)|, 1, 0
  {
    hide EncodeFrom;
    hide DecodeInt;
    hide Below;
    hide Span;
    hide AdaptLoop;
    if h >= |s| {
      BelowAll(s, n);
    } else {
      NextPointFound(s, n);
      var m := NextPoint(s, n);
      var delta' := delta + Span(m, n, h + 1);
      SpanSum(m, n, dn, h + 1);
      if Fits(s, limit) {
        SpanBound(m - dn, h, 0, limit - INITIAL_N, |s|);
      }
      if delta' <= MAX_INT {
        assert s[..0] == [] && s[0..] == s;
        HandledStart(s, m);
        SyncFrom(s, m, 0, delta', bias, h, h + 1, b, dn, di, limit);
      }
    }
  }

  lemma EncodedShape(s: seq<nat>)
    requires AllBelowLimit(s) && EncodePoints(s).Ok?
    ensures var basic := Below(s, INITIAL_N);
            var r := EncodePoints(s).value;
            && (forall i :: 0 <= i < |basic| ==> basic[i] < 0x80)
            && LastDelimiter(r) == |basic| && r[..|basic|] == basic
            && EncodePass(s, INITIAL_N, 0, INITIAL_BIAS, |basic|, |basic|) == Ok(Tail(r)) && IsBasicDigits(Tail(r))
  {
    BelowBound(s, INITIAL_N);
    var basic, r := Below(s, INITIAL_N), EncodePoints(s).value;
    var tail := EncodePass(s, INITIAL_N, 0, INITIAL_BIAS, |basic|, |basic|).value;
    if basic == [] {
      assert r == tail;
    } else {
      assert r == basic + [DELIMITER] + tail;
      assert r[|basic|] == DELIMITER;
      assert forall j :: |basic| < j < |r| ==> r[j] == tail[j - |basic| - 1];
      assert LastDelimiter(r) == |basic|;
      assert r[|basic| + 1..] == tail;
    }
  }

  /** Everything the encoder writes is a basic code point, and no delimiter follows the last separator. */
  lemma EncodedIsBasic(input: seq<CodeUnit>)
    requires Encode(input).Ok?
    ensures var r := Encode(input).value;
            && (forall i :: 0 <= i < |r| ==> r[i] < 0x80)
            && IsBasicDigits(Tail(r))
  {
    var s := Ucs2.CodePoints(input);
    var r := Encode(input).value;
    EncodedShape(s);
    var k := LastDelimiter(r);
    forall i | 0 <= i < |r|
      ensures r[i] < 0x80
    {
      if i < k {
        assert r[i] == r[..k][i];
      } else if k > 0 && i > k {
        assert r[i] == Tail(r)[i - k - 1];
      }
    }
  }

  /** The code points the encoder was given come back, or overflow is reported. */
  lemma PointsRoundTrip(input: seq<CodeUnit>, limit: nat)
    ensures Encode(input).Err? ==> Encode(input).error == Overflow
    ensures Encode(input).Ok? ==>
              var p := Encode(input).value;
              && IsDigits(Tail(p))
              && (Decode(p) == Err(Overflow) || Decode(p) == Ok(Ucs2.FromCodePoints(Ucs2.CodePoints(input))))
    ensures Fits(Ucs2.CodePoints(input), limit) ==>
              && Encode(input).Ok?
              && IsDigits(Tail(Encode(input).value))
              && Decode(Encode(input).value) == Ok(Ucs2.FromCodePoints(Ucs2.CodePoints(input)))
  {
    var s := Ucs2.CodePoints(input);
    var b := |Below(s, INITIAL_N)|;
    SyncPass(s, INITIAL_N, 0, INITIAL_BIAS, b, b, INITIAL_N, 0, limit);
    if Encode(input).Ok? {
      EncodedShape(s);
    }
  }

  /**
   * decode(encode(s)) == s for every string on which neither side overflows, exactly when `ucs2decode`
   * takes no trail surrogate for a lead; well-formed UTF-16 is a special case.
   */
  lemma RoundTrip(input: seq<CodeUnit>)
    requires Encode(input).Ok?
    ensures IsDigits(Tail(Encode(input).value))
    ensures var r := Decode(Encode(input).value);
            && (r.Err? ==> r.error == Overflow)
            && (r.Ok? ==> (r.value == input <==> Ucs2.NoTrailPair(input)))
            && (r.Ok? && Ucs2.WellFormed(input) ==> r.value == input)
  {
    PointsRoundTrip(input, 0);
    Ucs2.CodePointsRoundTrip(input);
    if Ucs2.WellFormed(input) {
      Ucs2.WellFormedHasNoTrailPair(input);
    }
  }

  /**
   * Section 6.4 of RFC 3492: when no code point exceeds `limit` and (limit - 0x80 + 1)(L + 1) fits in
   * 31 bits, neither side overflows and the string comes back.
   */
  lemma RoundTripWithinLimit(input: seq<CodeUnit>, limit: nat)
    requires Fits(Ucs2.CodePoints(input), limit) && Ucs2.WellFormed(input)
    ensures Encode(input).Ok? && IsDigits(Tail(Encode(input).value))
    ensures Decode(Encode(input).value) == Ok(input)
  {
    PointsRoundTrip(input, limit);
    RoundTrip(input);
  }

  /** No bound on the code points is needed up to 1926 characters. */
  lemma RoundTripShort(input: seq<CodeUnit>)
    requires Ucs2.WellFormed(input) && |Ucs2.CodePoints(input)| <= 1926
    ensures Encode(input).Ok? && IsDigits(Tail(Encode(input).value))
    ensures Decode(Encode(input).value) == Ok(input)
  {
    MulOrder(|Ucs2.CodePoints(input)| + 1, 1927, 0x10FFFF - INITIAL_N + 1);
    RoundTripWithinLimit(input, 0x10FFFF);
  }
}
