/** What the codec of lib/punycode.js computes, in the terms and with the constants of RFC 3492. */
module PunycodeStandard {
  import opened Common
  import opened Punycode
  import opened PunycodeRoundTrip
  import Ucs2

  // ---------- digits and thresholds (section 5 of RFC 3492) ----------

  /** The letters 'a' to 'z' stand for 0 to 25 and the digits '0' to '9' for 26 to 35. */
  lemma DigitLetters(digit: nat)
    requires digit < 36
    ensures DigitToBasic(digit) == if digit <= 25 then 'a' as int + digit else '0' as int + (digit - 26)
  {
  }

  lemma UpperCaseToo(digit: nat)
    requires digit <= 25
    ensures BasicToDigit('A' as int + digit) == digit && BasicToDigit('a' as int + digit) == digit
  {
  }

  /** What the decoder makes of any character; only what comes after 'z' is rejected as no digit. */
  lemma OtherCharacters(c: CodeUnit)
    ensures BasicToDigit(c) == 36 <==> c > 'z' as int
    ensures BasicToDigit(c) < 0 <==>
              c < 22 || '9' as int < c < 'A' as int || 'Z' as int < c < 'a' as int
    ensures BasicToDigit(c) > 25 && c <= 'z' as int ==>
              '0' as int <= c <= '9' as int && BasicToDigit(c) == c - '0' as int + 26
  {
  }

  lemma ThresholdIs(k: int, bias: int)
    ensures Threshold(k, bias) == if k - bias < 1 then 1 else if k - bias > 26 then 26 else k - bias
  {
  }

  // ---------- bias adaptation (section 3.4 of RFC 3492) ----------

  /** `d` divided by 35 `k` times. */
  function Shrunk(d: nat, k: nat): nat {
    if k == 0 then d else Shrunk(d, k - 1) / 35
  }

  ghost predicate Adapted(d: nat, k: nat, bias: nat) {
    && Shrunk(d, k) <= 455 && (k > 0 ==> Shrunk(d, k - 1) > 455)
    && bias == 36 * k + 36 * Shrunk(d, k) / (Shrunk(d, k) + 38)
  }

  lemma {:induction false} ShrunkStep(d: nat, k: nat)
    ensures Shrunk(d, k + 1) == Shrunk(d / 35, k)
  {
    if k > 0 {
      ShrunkStep(d, k - 1);
    }
  }

  lemma {:induction false} AdaptLoopIs(d: nat, base: nat) returns (k: nat)
    ensures AdaptLoop(d, base) >= base && Adapted(d, k, AdaptLoop(d, base) - base)
    decreases d
  {
    if d > 455 {
      k := AdaptLoopIs(d / 35, base + 36);
      ShrunkStep(d, k);
      if k > 0 {
        ShrunkStep(d, k - 1);
      }
      k := k + 1;
    } else {
      k := 0;
    }
  }

  /** Damped by 700 the first time and halved later, widened for the next delta, and divided until it is at most 455. */
  lemma AdaptIs(delta: nat, points: nat, first: bool) returns (k: nat)
    requires points > 0
    ensures var damped := if first then delta / 700 else delta / 2;
              damped / points >= 0 && Adapted(damped + damped / points, k, Adapt(delta, points, first))
  {
    var damped := if first then delta / 700 else delta / 2;
    DivMod(damped, points);
    k := AdaptLoopIs(damped + damped / points, 0);
  }

  /** There is one such `k`, and so one bias. */
  lemma AdaptedOnce(d: nat, k: nat, bias: nat, k': nat, bias': nat)
    requires Adapted(d, k, bias) && Adapted(d, k', bias')
    ensures k == k' && bias == bias'
  {
    hide Shrunk;
    DivisionsOnce(d, k, k');
  }

  lemma DivisionsOnce(d: nat, k: nat, k': nat)
    requires Shrunk(d, k) <= 455 && (k > 0 ==> Shrunk(d, k - 1) > 455)
    requires Shrunk(d, k') <= 455 && (k' > 0 ==> Shrunk(d, k' - 1) > 455)
    ensures k == k'
  {
    hide Shrunk;
    if k < k' {
      ShrunkFalls(d, k, k' - 1);
    } else if k' < k {
      ShrunkFalls(d, k', k - 1);
    }
  }

  lemma {:induction false} ShrunkFalls(d: nat, a: nat, b: nat)
    requires a <= b
    ensures Shrunk(d, b) <= Shrunk(d, a)
  {
    if a < b {
      ShrunkFalls(d, a, b - 1);
    }
  }

  // ---------- generalized variable-length integers (section 3.3 of RFC 3492) ----------

  /** Every digit but the last is at least its threshold, and the last is below it. */
  ghost predicate IsInteger(ds: seq<nat>, k: nat, bias: nat) {
    && ds != [] && ds[0] < 36
    && (ds[0] < Threshold(k, bias) <==> |ds| == 1)
    && (|ds| > 1 ==> IsInteger(ds[1..], k + 36, bias))
  }

  /** The weight of a digit is the product of 36 - t over the digits before it. */
  function Value(ds: seq<nat>, k: nat, bias: nat): int {
    if ds == [] then 0 else ds[0] + (36 - Threshold(k, bias)) * Value(ds[1..], k + 36, bias)
  }

  function Letters(ds: seq<nat>): (r: seq<CodeUnit>)
    requires forall i :: 0 <= i < |ds| ==> ds[i] < 36
    ensures |r| == |ds| && forall i :: 0 <= i < |ds| ==> r[i] == DigitToBasic(ds[i])
  {
    seq(|ds|, i requires 0 <= i < |ds| => DigitToBasic(ds[i]))
  }

  predicate AreDigits(ds: seq<nat>) {
    forall i :: 0 <= i < |ds| ==> ds[i] < 36
  }

  /** What the encoder emits for `q` is such an integer of value `q`. */
  lemma {:induction false} EncodesInteger(q: nat, k: nat, bias: nat) returns (ds: seq<nat>)
    ensures AreDigits(ds) && EncodeInt(q, k, bias) == Letters(ds) && IsInteger(ds, k, bias) && Value(ds, k, bias) == q
    decreases q
  {
    hide Threshold;
    hide DigitToBasic;
    hide EncodeInt;
    EncodeIntStep(q, k, bias);
    var t := Threshold(k, bias);
    if q < t {
      ds := [q];
    } else {
      var digit, q' := t + (q - t) % (36 - t), (q - t) / (36 - t);
      var rest := EncodesInteger(q', k + 36, bias);
      ds := [digit] + rest;
      assert ds[1..] == rest;
    }
  }

  /** No other digits are an integer of that value. */
  lemma {:induction false} IntegerOnce(a: seq<nat>, b: seq<nat>, k: nat, bias: nat)
    requires IsInteger(a, k, bias) && IsInteger(b, k, bias) && Value(a, k, bias) == Value(b, k, bias)
    ensures a == b
  {
    hide Threshold;
    hide Value;
    var t := Threshold(k, bias);
    ValueRange(a, k, bias);
    ValueRange(b, k, bias);
    if |a| > 1 && |b| > 1 {
      ValueFirst(a, k, bias);
      ValueFirst(b, k, bias);
      ValueRange(a[1..], k + 36, bias);
      ValueRange(b[1..], k + 36, bias);
      DigitOnce(a[0], Value(a[1..], k + 36, bias), b[0], Value(b[1..], k + 36, bias), 36 - t);
      IntegerOnce(a[1..], b[1..], k + 36, bias);
      assert a == [a[0]] + a[1..] && b == [b[0]] + b[1..];
    }
  }

  lemma ValueFirst(ds: seq<nat>, k: nat, bias: nat)
    requires ds != []
    ensures Value(ds, k, bias) == ds[0] + (36 - Threshold(k, bias)) * Value(ds[1..], k + 36, bias)
    ensures |ds| == 1 ==> Value(ds, k, bias) == ds[0]
  {
    hide Threshold;
    if |ds| == 1 {
      assert ds[1..] == [];
    }
  }

  lemma {:induction false} ValueRange(ds: seq<nat>, k: nat, bias: nat)
    requires IsInteger(ds, k, bias)
    ensures Value(ds, k, bias) >= 0
    ensures if |ds| == 1 then Value(ds, k, bias) == ds[0] < Threshold(k, bias) else Value(ds, k, bias) >= Threshold(k, bias)
  {
    hide Threshold;
    hide Value;
    ValueFirst(ds, k, bias);
    if |ds| > 1 {
      ValueRange(ds[1..], k + 36, bias);
      MulNonNegative(36 - Threshold(k, bias), Value(ds[1..], k + 36, bias));
    }
  }

  lemma DigitOnce(a: nat, x: nat, b: nat, y: nat, w: nat)
    requires 36 - w <= a < 36 && 36 - w <= b < 36 && a + w * x == b + w * y
    ensures a == b && x == y
  {
    if x < y {
      Spread(w, x, y);
    } else if y < x {
      Spread(w, y, x);
    }
  }

  lemma Spread(w: nat, x: nat, y: nat)
    requires x < y
    ensures w * y >= w * x + w
  {
    MulOrder(x + 1, y, w);
    assert w * (x + 1) == w * x + w;
  }

  // ---------- insertions (section 3.2 of RFC 3492) ----------

  /** A state of the decoder: the code point and the place that are up next, and the code points so far. */
  datatype State = State(n: nat, i: nat, out: seq<nat>)

  /** `delta` places on, wrapping around the places to the next code point, one is inserted. */
  function Inserted(x: State, delta: nat): (y: State)
    ensures |y.out| == |x.out| + 1
  {
    var places := |x.out| + 1;
    DivMod(x.i + delta, places);
    var n, at := x.n + (x.i + delta) / places, (x.i + delta) % places;
    State(n, at + 1, x.out[..at] + [n] + x.out[at..])
  }

  function Played(x: State, deltas: seq<nat>): State
    decreases |deltas|
  {
    if deltas == [] then x else Played(Inserted(x, deltas[0]), deltas[1..])
  }

  /** Sums and code points stay within 31 bits. */
  predicate Within(x: State, deltas: seq<nat>)
    decreases |deltas|
  {
    deltas != [] ==>
      var y := Inserted(x, deltas[0]);
      x.i + deltas[0] <= 0x7FFF_FFFF && y.n <= 0x7FFF_FFFF && Within(y, deltas[1..])
  }

  /** The deltas as integers, the bias adapting after each; `h` code points are there before the first one. */
  function Integers(deltas: seq<nat>, bias: nat, h: nat, first: bool): (r: seq<CodeUnit>)
    ensures IsDigits(r)
  {
    if deltas == [] then []
    else EncodeInt(deltas[0], 36, bias) + Integers(deltas[1..], Adapt(deltas[0], h + 1, first), h + 1, false)
  }

  /** The decoder plays the deltas it reads, or reports overflow. */
  lemma {:induction false} DecodesIntegers(x: State, deltas: seq<nat>, bias: nat)
    requires bias <= 250 && forall k :: 0 <= k < |deltas| ==> deltas[k] <= 0x7FFF_FFFF
    ensures DecodeLoop(Integers(deltas, bias, |x.out|, x.i == 0), x.n, x.i, bias, x.out)
         == if Within(x, deltas) then Ok(Played(x, deltas).out) else Err(Overflow)
    decreases |deltas|
  {
    hide EncodeInt;
    hide DecodeInt;
    hide Adapt;
    hide DecodeLoop;
    if deltas == [] {
      DecodeNothing(x, bias);
    } else {
      var d, y := deltas[0], Inserted(x, deltas[0]);
      var bias' := Adapt(d, |x.out| + 1, x.i == 0);
      AdaptBound(d, |x.out| + 1, x.i == 0);
      var rest := Integers(deltas[1..], bias', |y.out|, false);
      IntRoundTrip(d, x.i, 1, 36, bias, rest);
      DecodeLoopOnce(EncodeInt(d, 36, bias) + rest, x.n, x.i, bias, x.out);
      DecodesIntegers(y, deltas[1..], bias');
    }
  }

  lemma DecodeNothing(x: State, bias: nat)
    ensures DecodeLoop([], x.n, x.i, bias, x.out) == Ok(x.out)
  {
  }

  /** From any position in step with the decoder, what is emitted are deltas that play to the whole input. */
  lemma {:induction false} EmitsFrom(s: seq<nat>, n: nat, j: nat, delta: nat, bias: nat, h: nat, hPlusOne: nat, b: nat,
                                     dn: nat, di: nat)
    returns (deltas: seq<nat>)
    requires InStep(s, n, j, delta, h, hPlusOne, b, dn, di) && delta <= MAX_INT
    requires EncodeFrom(s, n, j, delta, bias, h, hPlusOne, b).Ok?
    ensures EncodeFrom(s, n, j, delta, bias, h, hPlusOne, b).value == Integers(deltas, bias, h, h == b)
    ensures Played(State(dn, di, Handled(s, n, j)), deltas).out == s
    decreases |s| - |Below(s, n)|, 0, |s| - j, 1
  {
    hide EncodeInt;
    hide Adapt;
    hide Below;
    if j == |s| {
      StepEnd(s, n, delta, h, hPlusOne, b, dn, di);
      deltas := EmitsPass(s, n + 1, delta + 1, bias, h, b, dn, di);
    } else if s[j] == n {
      deltas := EmitsHere(s, n, j, delta, bias, h, hPlusOne, b, dn, di);
    } else {
      StepOver(s, n, j, delta, h, hPlusOne, b, dn, di);
      HandledSame(s, n, j);
      deltas := EmitsFrom(s, n, j + 1, if s[j] < n then delta + 1 else delta, bias, h, hPlusOne, b, dn, di);
    }
  }

  lemma {:induction false} EmitsHere(s: seq<nat>, n: nat, j: nat, delta: nat, bias: nat, h: nat, hPlusOne: nat, b: nat,
                                     dn: nat, di: nat)
    returns (deltas: seq<nat>)
    requires InStep(s, n, j, delta, h, hPlusOne, b, dn, di) && delta <= MAX_INT && j < |s| && s[j] == n
    requires EncodeFrom(s, n, j, delta, bias, h, hPlusOne, b).Ok?
    ensures EncodeFrom(s, n, j, delta, bias, h, hPlusOne, b).value == Integers(deltas, bias, h, h == b)
    ensures Played(State(dn, di, Handled(s, n, j)), deltas).out == s
    decreases |s| - |Below(s, n)|, 0, |s| - j, 0
  {
    hide EncodeInt;
    hide Adapt;
    hide Below;
    var bias' := Adapt(delta, hPlusOne, h == b);
    SameBias(s, n, j, delta, h, hPlusOne, b, dn, di);
    BelowStep(s, n, j);
    StepEmit(s, n, j, delta, h, hPlusOne, b, dn, di);
    var rest := EmitsFrom(s, n, j + 1, 0, bias', h + 1, hPlusOne, b, n, Slot(s, n, j) + 1);
    deltas := [delta] + rest;
    assert deltas[1..] == rest;
    InsertsHere(s, n, j, delta, h, hPlusOne, b, dn, di);
  }

  lemma SameBias(s: seq<nat>, n: nat, j: nat, delta: nat, h: nat, hPlusOne: nat, b: nat, dn: nat, di: nat)
    requires InStep(s, n, j, delta, h, hPlusOne, b, dn, di)
    ensures Adapt(delta, h + 1, h == b) == Adapt(delta, hPlusOne, h == b)
  {
    if h + 1 != hPlusOne {
      BelowPrefix(s, n, j);
      StaleCount(delta, hPlusOne, h + 1);
    }
  }

  lemma InsertsHere(s: seq<nat>, n: nat, j: nat, delta: nat, h: nat, hPlusOne: nat, b: nat, dn: nat, di: nat)
    requires InStep(s, n, j, delta, h, hPlusOne, b, dn, di) && j < |s| && s[j] == n
    ensures Inserted(State(dn, di, Handled(s, n, j)), delta) == State(n, Slot(s, n, j) + 1, Handled(s, n, j + 1))
  {
    hide Below;
    SplitPosition(n - dn, h + 1, Slot(s, n, j));
    HandledInsert(s, n, j);
  }

  lemma {:induction false} EmitsPass(s: seq<nat>, n: nat, delta: nat, bias: nat, h: nat, b: nat, dn: nat, di: nat)
    returns (deltas: seq<nat>)
    requires AllBelowLimit(s)
    requires h == |Below(s, n)| && b <= h && INITIAL_N <= dn <= n
    requires di + delta == (n - dn) * (h + 1)
    requires di == 0 <==> h == b
    requires EncodePass(s, n, delta, bias, h, b).Ok?
    ensures EncodePass(s, n, delta, bias, h, b).value == Integers(deltas, bias, h, h == b)
    ensures Played(State(dn, di, Below(s, n)), deltas).out == s
    decreases |s| - |Below(s, n)|, 1, 0
  {
    hide EncodeFrom;
    hide Below;
    hide Span;
    hide Adapt;
    if h >= |s| {
      BelowAll(s, n);
      deltas := [];
    } else {
      NextPointFound(s, n);
      var m := NextPoint(s, n);
      SpanSum(m, n, dn, h + 1);
      assert s[..0] == [] && s[0..] == s;
      HandledStart(s, m);
      deltas := EmitsFrom(s, m, 0, delta + Span(m, n, h + 1), bias, h, h + 1, b, dn, di);
    }
  }

  // ---------- only one list of deltas gives a text ----------

  /** What is there is up to the current code point, and below it from the current place on. */
  ghost predicate Tidy(x: State) {
    && x.i <= |x.out|
    && (forall k :: 0 <= k < |x.out| ==> x.out[k] <= x.n)
    && (forall k :: x.i <= k < |x.out| ==> x.out[k] < x.n)
  }

  lemma InsertedTidy(x: State, delta: nat)
    requires Tidy(x)
    ensures var y := Inserted(x, delta);
              Tidy(y) && 0 < y.i && y.out[y.i - 1] == y.n && y.out[..y.i - 1] + y.out[y.i..] == x.out
  {
    hide Tidy;
    var places := |x.out| + 1;
    DivMod(x.i + delta, places);
    var q, at := (x.i + delta) / places, (x.i + delta) % places;
    if q == 0 {
      assert at == x.i + delta;
    }
    TidyAt(x, x.n + q, at);
  }

  lemma TidyAt(x: State, n: nat, at: nat)
    requires Tidy(x) && n >= x.n && at <= |x.out| && (n == x.n ==> at >= x.i)
    ensures var out := x.out[..at] + [n] + x.out[at..];
            Tidy(State(n, at + 1, out)) && out[at] == n && out[..at] + out[at + 1..] == x.out
  {
    var out := x.out[..at] + [n] + x.out[at..];
    assert out[..at] == x.out[..at] && out[at + 1..] == x.out[at..];
  }

  /** The state after an insertion is told by the code points: the last occurrence of the greatest one. */
  lemma StateOnce(x: State, y: State)
    requires Tidy(x) && Tidy(y) && x.out == y.out
    requires 0 < x.i && x.out[x.i - 1] == x.n && 0 < y.i && y.out[y.i - 1] == y.n
    ensures x == y
  {
  }

  lemma DeltaOnce(x: State, a: nat, b: nat)
    requires Inserted(x, a) == Inserted(x, b)
    ensures a == b
  {
    DivMod(x.i + a, |x.out| + 1);
    DivMod(x.i + b, |x.out| + 1);
  }

  lemma {:induction false} PlayedLast(x: State, deltas: seq<nat>, d: nat)
    ensures Played(x, deltas + [d]) == Inserted(Played(x, deltas), d)
    decreases |deltas|
  {
    if deltas == [] {
      assert [d][1..] == [];
    } else {
      PlayedLast(Inserted(x, deltas[0]), deltas[1..], d);
      assert (deltas + [d])[1..] == deltas[1..] + [d];
    }
  }

  lemma {:induction false} PlayedTidy(x: State, deltas: seq<nat>)
    requires Tidy(x)
    ensures Tidy(Played(x, deltas)) && |Played(x, deltas).out| == |x.out| + |deltas|
    decreases |deltas|
  {
    if deltas != [] {
      InsertedTidy(x, deltas[0]);
      PlayedTidy(Inserted(x, deltas[0]), deltas[1..]);
    }
  }

  lemma {:induction false} PlayedOnce(x: State, a: seq<nat>, b: seq<nat>)
    requires Tidy(x) && Played(x, a).out == Played(x, b).out
    ensures a == b
    decreases |a|
  {
    hide Tidy;
    hide Played;
    hide Inserted;
    PlayedTidy(x, a);
    PlayedTidy(x, b);
    if a != [] {
      var a0, b0, d, e := a[..|a| - 1], b[..|b| - 1], a[|a| - 1], b[|b| - 1];
      assert a == a0 + [d] && b == b0 + [e];
      PlayedLast(x, a0, d);
      PlayedLast(x, b0, e);
      PlayedTidy(x, a0);
      PlayedTidy(x, b0);
      InsertedTidy(Played(x, a0), d);
      InsertedTidy(Played(x, b0), e);
      StateOnce(Played(x, a), Played(x, b));
      PlayedOnce(x, a0, b0);
      DeltaOnce(Played(x, a0), d, e);
    }
  }

  // ---------- the codec ----------

  /** The basic code points, and a delimiter if there are any. */
  function Lead(basic: seq<CodeUnit>): seq<CodeUnit> {
    if basic == [] then [] else basic + ['-' as int]
  }

  function Start(basic: seq<CodeUnit>): State {
    State(0x80, 0, basic)
  }

  /** The code points below 0x80, in order. */
  function Basic(s: seq<nat>): (r: seq<CodeUnit>)
    ensures forall k :: 0 <= k < |r| ==> r[k] < 0x80
  {
    if s == [] then [] else (if s[0] < 0x80 then [s[0]] else []) + Basic(s[1..])
  }

  lemma {:induction false} BasicIsBelow(s: seq<nat>)
    ensures Below(s, INITIAL_N) == Basic(s)
  {
    if s != [] {
      BasicIsBelow(s[1..]);
    }
  }

  /**
   * The encoder emits the basic code points, and then the one list of deltas that, played from code point 0x80 and
   * place 0, inserts all others; the bias is 72 at first.
   */
  lemma EncodesDeltas(s: seq<nat>, deltas: seq<nat>)
    requires AllBelowLimit(s) && EncodePoints(s).Ok? && Played(Start(Basic(s)), deltas).out == s
    ensures EncodePoints(s).value == Lead(Basic(s)) + Integers(deltas, 72, |Basic(s)|, true)
  {
    hide Integers;
    hide EncodePass;
    BasicIsBelow(s);
    BelowBound(s, INITIAL_N);
    var h := |Basic(s)|;
    var found := EmitsPass(s, 0x80, 0, 72, h, h, 0x80, 0);
    PlayedOnce(Start(Basic(s)), found, deltas);
  }

  /** Such deltas exist. */
  lemma DeltasExist(s: seq<nat>) returns (deltas: seq<nat>)
    requires AllBelowLimit(s) && EncodePoints(s).Ok?
    ensures Played(Start(Basic(s)), deltas).out == s
    ensures EncodePoints(s).value == Lead(Basic(s)) + Integers(deltas, 72, |Basic(s)|, true)
  {
    hide Integers;
    hide EncodePass;
    BasicIsBelow(s);
    BelowBound(s, INITIAL_N);
    var h := |Basic(s)|;
    deltas := EmitsPass(s, 0x80, 0, 72, h, h, 0x80, 0);
  }

  /** The decoder takes off the basic code points and plays the deltas it reads after the last delimiter. */
  lemma DecodesDeltas(basic: seq<CodeUnit>, deltas: seq<nat>)
    requires forall k :: 0 <= k < |basic| ==> basic[k] < 0x80
    requires forall k :: 0 <= k < |deltas| ==> deltas[k] <= 0x7FFF_FFFF
    ensures var input := Lead(basic) + Integers(deltas, 72, |basic|, true);
            && IsDigits(Tail(input))
            && Decode(input) == if Within(Start(basic), deltas)
                                then Ok(Ucs2.FromCodePoints(Played(Start(basic), deltas).out)) else Err(Overflow)
  {
    hide Played;
    hide DecodeLoop;
    var tail := Integers(deltas, 72, |basic|, true);
    IntegersBasic(deltas, 72, |basic|, true);
    DecodesIntegers(Start(basic), deltas, 72);
    LeadOff(basic, tail);
    hide Integers;
  }

  lemma {:induction false} IntegersBasic(deltas: seq<nat>, bias: nat, h: nat, first: bool)
    ensures IsBasicDigits(Integers(deltas, bias, h, first))
  {
    hide EncodeInt;
    hide Adapt;
    if deltas != [] {
      IntegersBasic(deltas[1..], Adapt(deltas[0], h + 1, first), h + 1, false);
    }
  }

  lemma LeadOff(basic: seq<CodeUnit>, tail: seq<CodeUnit>)
    requires IsBasicDigits(tail)
    ensures var input := Lead(basic) + tail;
            LastDelimiter(input) == |basic| && input[..|basic|] == basic && Tail(input) == tail
  {
    var input := Lead(basic) + tail;
    if basic == [] {
      assert input == tail;
    } else {
      assert input == basic + [DELIMITER] + tail;
      assert input[|basic|] == DELIMITER;
      assert forall j :: |basic| < j < |input| ==> input[j] == tail[j - |basic| - 1];
    }
  }

  // ---------- samples ----------

  /** The digits `ds` are an integer of value `d`, under a bias of `bias`. */
  ghost predicate Spells(ds: seq<nat>, bias: nat, d: nat) {
    AreDigits(ds) && IsInteger(ds, 36, bias) && Value(ds, 36, bias) == d
  }

  /** The encoder emits the digits that spell a delta. */
  lemma Emits(d: nat, rest: seq<nat>, bias: nat, h: nat, first: bool, ds: seq<nat>)
    requires Spells(ds, bias, d)
    ensures Integers([d] + rest, bias, h, first) == Letters(ds) + Integers(rest, Adapt(d, h + 1, first), h + 1, false)
  {
    hide EncodeInt;
    hide Adapt;
    var found := EncodesInteger(d, 36, bias);
    IntegerOnce(found, ds, 36, bias);
    assert ([d] + rest)[1..] == rest;
  }

  lemma EmitsLast(d: nat, bias: nat, h: nat, first: bool, ds: seq<nat>)
    requires Spells(ds, bias, d)
    ensures Integers([d], bias, h, first) == Letters(ds)
  {
    hide Spells;
    hide Letters;
    hide Adapt;
    hide EncodeInt;
    Emits(d, [], bias, h, first, ds);
    assert [d] + [] == [d] && Letters(ds) + [] == Letters(ds);
  }

  /** `s`, as code units. */
  function Plain(s: string): (r: seq<CodeUnit>)
    requires forall i :: 0 <= i < |s| ==> s[i] < 128 as char
    ensures |r| == |s| && forall i :: 0 <= i < |s| ==> r[i] == s[i] as int
  {
    seq(|s|, i requires 0 <= i < |s| => s[i] as int)
  }

  lemma {:induction false} NoSurrogates(s: seq<CodeUnit>)
    requires forall i :: 0 <= i < |s| ==> s[i] < 0xD800
    ensures Ucs2.CodePoints(s) == s && Ucs2.WellFormed(s)
  {
    if s != [] {
      NoSurrogates(s[1..]);
    }
  }

  ghost predicate Codes(text: seq<CodeUnit>, e: seq<CodeUnit>) {
    Encode(text) == Ok(e) && IsDigits(Tail(e)) && Decode(e) == Ok(text)
  }

  /** Any text without surrogates and deltas that play to it: both directions. */
  lemma BothWays(input: seq<CodeUnit>, deltas: seq<nat>)
    requires |input| <= 1926 && forall i :: 0 <= i < |input| ==> input[i] < 0xD800
    requires Played(Start(Basic(input)), deltas).out == input
    ensures Codes(input, Lead(Basic(input)) + Integers(deltas, 72, |Basic(input)|, true))
  {
    hide Played;
    hide Integers;
    hide EncodePoints;
    NoSurrogates(input);
    RoundTripShort(input);
    EncodesDeltas(input, deltas);
  }

  /** `skip` whole rounds on and at place `at`. */
  lemma InsertsAt(x: State, delta: nat, rest: seq<nat>, skip: nat, at: nat, out: seq<nat>)
    requires at <= |x.out| && x.i + delta == skip * (|x.out| + 1) + at
    requires out == x.out[..at] + [x.n + skip] + x.out[at..]
    ensures Played(x, [delta] + rest) == Played(State(x.n + skip, at + 1, out), rest)
  {
    InsertedAt(x, delta, skip, at);
    hide Inserted;
    assert ([delta] + rest)[1..] == rest;
  }

  lemma InsertedAt(x: State, delta: nat, skip: nat, at: nat)
    requires at <= |x.out| && x.i + delta == skip * (|x.out| + 1) + at
    ensures Inserted(x, delta) == State(x.n + skip, at + 1, x.out[..at] + [x.n + skip] + x.out[at..])
  {
    SplitPosition(skip, |x.out| + 1, at);
  }

  lemma PlayedNone(x: State)
    ensures Played(x, []) == x
  {
  }

  /** encode("ü") == "tda" */
  lemma UmlautSample()
    ensures Codes([0xFC], Plain("tda"))
  {
    hide *;
    UmlautPlays();
    BothWays([0xFC], [124]);
    UmlautDigits();
  }

  lemma UmlautPlays()
    ensures Basic([0xFC]) == [] && Played(Start([]), [124]).out == [0xFC]
  {
    hide Played;
    hide Inserted;
    InsertsAt(Start([]), 124, [], 124, 0, [0xFC]);
    PlayedNone(State(0xFC, 1, [0xFC]));
    assert [124] + [] == [124];
  }

  lemma UmlautDigits()
    ensures Lead([]) + Integers([124], 72, 0, true) == Plain("tda")
  {
    hide Spells;
    hide Integers;
    UmlautSpelled();
    EmitsLast(124, 72, 0, true, [19, 3, 0]);
    assert Letters([19, 3, 0]) == Plain("tda");
  }

  lemma UmlautSpelled()
    ensures Spells([19, 3, 0], 72, 124)
  {
  }

  /** encode("Bücher") == "Bcher-kva" */
  lemma BooksSample()
    ensures Codes([0x42, 0xFC, 0x63, 0x68, 0x65, 0x72], Plain("Bcher-kva"))
  {
    hide *;
    BooksPlay();
    BothWays([0x42, 0xFC, 0x63, 0x68, 0x65, 0x72], [745]);
    BooksDigits();
  }

  lemma BooksPlay()
    ensures var text, basic := [0x42, 0xFC, 0x63, 0x68, 0x65, 0x72], [0x42, 0x63, 0x68, 0x65, 0x72];
              Basic(text) == basic && Played(Start(basic), [745]).out == text
  {
    hide Played;
    hide Inserted;
    var basic: seq<CodeUnit> := [0x42, 0x63, 0x68, 0x65, 0x72];
    InsertsAt(Start(basic), 745, [], 124, 1, [0x42, 0xFC, 0x63, 0x68, 0x65, 0x72]);
    PlayedNone(State(0xFC, 2, [0x42, 0xFC, 0x63, 0x68, 0x65, 0x72]));
    assert [745] + [] == [745];
  }

  lemma BooksDigits()
    ensures Lead([0x42, 0x63, 0x68, 0x65, 0x72]) + Integers([745], 72, 5, true) == Plain("Bcher-kva")
  {
    hide Spells;
    hide Integers;
    BooksSpelled();
    EmitsLast(745, 72, 5, true, [10, 21, 0]);
    assert Letters([10, 21, 0]) == Plain("kva");
    assert Lead([0x42, 0x63, 0x68, 0x65, 0x72]) == Plain("Bcher-");
    assert Plain("Bcher-") + Plain("kva") == Plain("Bcher-kva");
  }

  lemma BooksSpelled()
    ensures Spells([10, 21, 0], 72, 745)
  {
  }

  /** Three insertions under three biases: "wgv71a119e" */
  lemma JapaneseSample()
    ensures Codes([0x65E5, 0x672C, 0x8A9E], Plain("wgv71a119e"))
  {
    hide *;
    JapaneseBasic();
    JapanesePlays();
    BothWays([0x65E5, 0x672C, 0x8A9E], [25957, 654, 27222]);
    JapaneseDigits();
  }

  lemma JapaneseBasic()
    ensures Basic([0x65E5, 0x672C, 0x8A9E]) == []
  {
  }

  lemma JapanesePlays()
    ensures Played(Start([]), [25957, 654, 27222]).out == [0x65E5, 0x672C, 0x8A9E]
  {
    hide *;
    assert Start([]) == State(0x80, 0, []) by {
      StartIs([]);
    }
    assert [25957] + [654, 27222] == [25957, 654, 27222] && [654] + [27222] == [654, 27222] && [27222] + [] == [27222];
    InsertsAt(Start([]), 25957, [654, 27222], 25957, 0, [0x65E5]);
    InsertsAt(State(0x65E5, 1, [0x65E5]), 654, [27222], 327, 1, [0x65E5, 0x672C]);
    InsertsAt(State(0x672C, 2, [0x65E5, 0x672C]), 27222, [], 9074, 2, [0x65E5, 0x672C, 0x8A9E]);
    PlayedNone(State(0x8A9E, 3, [0x65E5, 0x672C, 0x8A9E]));
  }

  lemma StartIs(basic: seq<CodeUnit>)
    ensures Start(basic) == State(0x80, 0, basic)
  {
  }

  lemma JapaneseDigits()
    ensures Lead([]) + Integers([25957, 654, 27222], 72, 0, true) == Plain("wgv71a119e")
  {
    hide Spells;
    hide Integers;
    hide Adapt;
    JapaneseSpelled();
    JapaneseBiases();
    assert [25957] + [654, 27222] == [25957, 654, 27222] && [654] + [27222] == [654, 27222];
    Emits(25957, [654, 27222], 72, 0, true, [22, 6, 21]);
    Emits(654, [27222], 23, 1, false, [33, 27, 0]);
    EmitsLast(27222, 45, 2, false, [27, 27, 35, 4]);
    assert Letters([22, 6, 21]) == Plain("wgv") && Letters([33, 27, 0]) == Plain("71a");
    assert Letters([27, 27, 35, 4]) == Plain("119e");
    assert Plain("wgv") + (Plain("71a") + Plain("119e")) == Plain("wgv71a119e");
  }

  lemma JapaneseSpelled()
    ensures Spells([22, 6, 21], 72, 25957) && Spells([33, 27, 0], 23, 654) && Spells([27, 27, 35, 4], 45, 27222)
  {
  }

  lemma JapaneseBiases()
    ensures Adapt(25957, 1, true) == 23 && Adapt(654, 2, false) == 45
  {
    assert AdaptLoop(490, 0) == AdaptLoop(14, 36);
  }
}
