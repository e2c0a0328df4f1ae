/** The counts that `encode` and `decode` of lib/punycode.js pass to `adapt`: when they are equal. */
module PunycodeCounts {
  import opened Common
  import opened Punycode
  import opened PunycodeRoundTrip
  import Ucs2

  /** At one step the counts are equal exactly if the code point has not occurred before. */
  lemma CountsAtStep(s: seq<nat>, n: nat, j: nat, delta: nat, h: nat, hPlusOne: nat, b: nat, dn: nat, di: nat)
    requires InStep(s, n, j, delta, h, hPlusOne, b, dn, di) && j < |s| && s[j] == n
    ensures hPlusOne == |Handled(s, n, j)| + 1 <==> n !in s[..j]
  {
    CountsSplit(s, n, j);
    BelowGrows(s[..j], n);
  }

  lemma CountsSplit(s: seq<nat>, n: nat, j: nat)
    requires j <= |s|
    ensures |Below(s, n)| == |Below(s[..j], n)| + |Below(s[j..], n)|
  {
    assert s == s[..j] + s[j..];
    BelowConcat(s[..j], s[j..], n);
  }

  /**
   * Along the rest of the encoder's pass for `n` from `j` on, and all later passes, every call of `adapt` gets the
   * count that the decoder uses, one more than the code points handled so far.
   */
  ghost predicate AgreeFrom(s: seq<nat>, n: nat, j: nat, delta: nat, bias: nat, h: nat, hPlusOne: nat, b: nat)
    requires AllBelowLimit(s)
    requires j <= |s| && n in s
    requires h == |Handled(s, n, j)|
    requires hPlusOne == |Below(s, n)| + 1
    decreases |s| - |Below(s, n)|, 0, |s| - j
  {
    if j == |s| then
      assert s[..j] == s && s[j..] == [];
      BelowGrows(s, n);
      AgreePass(s, n + 1, delta + 1, bias, h, b)
    else
      BelowStep(s, n, j);
      if s[j] < n then delta + 1 > MAX_INT || AgreeFrom(s, n, j + 1, delta + 1, bias, h, hPlusOne, b)
      else if s[j] == n then
        hPlusOne == h + 1 && AgreeFrom(s, n, j + 1, 0, Adapt(delta, hPlusOne, h == b), h + 1, hPlusOne, b)
      else AgreeFrom(s, n, j + 1, delta, bias, h, hPlusOne, b)
  }

  ghost predicate AgreePass(s: seq<nat>, n: nat, delta: nat, bias: nat, h: nat, b: nat)
    requires AllBelowLimit(s)
    requires h == |Below(s, n)|
    decreases |s| - |Below(s, n)|, 1, 0
  {
    h < |s| ==>
      (NextPointFound(s, n);
       var m := NextPoint(s, n);
       TooFar(m, n, delta, h + 1) ||
         (HandledStart(s, m);
          AgreeFrom(s, m, 0, delta + Span(m, n, h + 1), bias, h, h + 1, b)))
  }

  /** No code point that is still to be handled at position `j` of the pass for `n` has occurred before. */
  ghost predicate NoRepeat(s: seq<nat>, n: nat, j: nat) {
    forall i, k :: 0 <= i < k < |s| && s[i] == s[k] ==> s[k] < n || (s[k] == n && k < j)
  }

  lemma {:induction false} AgreeFromExactly(s: seq<nat>, n: nat, j: nat, delta: nat, bias: nat, h: nat,
                                            hPlusOne: nat, b: nat)
    requires AllBelowLimit(s) && j <= |s| && n in s
    requires h == |Handled(s, n, j)| && hPlusOne == |Below(s, n)| + 1
    requires EncodeFrom(s, n, j, delta, bias, h, hPlusOne, b).Ok?
    ensures AgreeFrom(s, n, j, delta, bias, h, hPlusOne, b) <==> NoRepeat(s, n, j)
    decreases |s| - |Below(s, n)|, 0, |s| - j
  {
    hide NoRepeat;
    hide EncodePass;
    hide AgreePass;
    hide Below;
    NoRepeatStep(s, n, j);
    if j == |s| {
      assert s[..j] == s && s[j..] == [];
      BelowGrows(s, n);
      AgreePassExactly(s, n + 1, delta + 1, bias, h, b);
    } else {
      BelowStep(s, n, j);
      if s[j] < n {
        AgreeFromExactly(s, n, j + 1, delta + 1, bias, h, hPlusOne, b);
      } else if s[j] == n {
        AgreeFromExactly(s, n, j + 1, 0, Adapt(delta, hPlusOne, h == b), h + 1, hPlusOne, b);
        CountsSplit(s, n, j);
        BelowGrows(s[..j], n);
      } else {
        AgreeFromExactly(s, n, j + 1, delta, bias, h, hPlusOne, b);
      }
    }
  }

  lemma NoRepeatStep(s: seq<nat>, n: nat, j: nat)
    requires j <= |s|
    ensures j == |s| ==> (NoRepeat(s, n, j) <==> NoRepeat(s, n + 1, 0))
    ensures j < |s| && s[j] != n ==> (NoRepeat(s, n, j) <==> NoRepeat(s, n, j + 1))
    ensures j < |s| && s[j] == n ==> (NoRepeat(s, n, j) <==> NoRepeat(s, n, j + 1) && n !in s[..j])
  {
    if j < |s| && s[j] == n && n in s[..j] {
      var i :| 0 <= i < j && s[..j][i] == n;
      assert s[i] == s[j];
    }
  }

  lemma {:induction false} AgreePassExactly(s: seq<nat>, n: nat, delta: nat, bias: nat, h: nat, b: nat)
    requires AllBelowLimit(s) && h == |Below(s, n)|
    requires EncodePass(s, n, delta, bias, h, b).Ok?
    ensures AgreePass(s, n, delta, bias, h, b) <==> NoRepeat(s, n, 0)
    decreases |s| - |Below(s, n)|, 1, 0
  {
    if h < |s| {
      var m := NextPoint(s, n);
      NextPointFound(s, n);
      NextPointIsLeast(s, n);
      HandledStart(s, m);
      AgreeFromExactly(s, m, 0, delta + Span(m, n, h + 1), bias, h, h + 1, b);
    } else {
      AllBelow(s, n);
    }
  }

  lemma AllBelow(s: seq<nat>, n: nat)
    requires |Below(s, n)| >= |s|
    ensures forall i :: 0 <= i < |s| ==> s[i] < n
  {
    BelowAll(s, n);
    BelowBound(s, n);
  }

  /** Over a whole run the two sides pass equal counts exactly if no code point from 0x80 on repeats. */
  lemma CountsAgree(input: seq<CodeUnit>)
    requires Encode(input).Ok?
    ensures var s := Ucs2.CodePoints(input);
            var b := |Below(s, INITIAL_N)|;
            AgreePass(s, INITIAL_N, 0, INITIAL_BIAS, b, b) <==>
            forall i, k :: 0 <= i < k < |s| && s[i] == s[k] ==> s[k] < INITIAL_N
  {
    var s := Ucs2.CodePoints(input);
    var b := |Below(s, INITIAL_N)|;
    AgreePassExactly(s, INITIAL_N, 0, INITIAL_BIAS, b, b);
  }

  /** In the run on two equal characters, the second call of `adapt` gets 1 on the one side and 2 on the other. */
  lemma CountsDiffer()
    ensures var s: seq<nat> := [0xFC, 0xFC];
            && EncodePoints(s).Ok?
            && !AgreePass(s, INITIAL_N, 0, INITIAL_BIAS, 0, 0)
            && Handled(s, 0xFC, 1) == [0xFC] && Below(s, 0xFC) == []
  {
    hide EncodePass;
    hide AgreePass;
    hide Below;
    hide DecodeLoop;
    var s: seq<nat> := [0xFC, 0xFC];
    Twice();
    SyncPass(s, INITIAL_N, 0, INITIAL_BIAS, 0, 0, INITIAL_N, 0, 0xFC);
    assert Fits(s, 0xFC);
    AgreePassExactly(s, INITIAL_N, 0, INITIAL_BIAS, 0, 0);
    assert s[0] == s[1];
  }

  lemma Twice()
    ensures var s: seq<nat> := [0xFC, 0xFC];
            Below(s, INITIAL_N) == [] && Below(s, 0xFC) == [] && Handled(s, 0xFC, 1) == [0xFC]
  {
    var s: seq<nat> := [0xFC, 0xFC];
    assert s[1..] == [0xFC] && s[..1] == [0xFC] && s[1..][1..] == [];
    assert Below([0xFC], INITIAL_N) == [] && Below([0xFC], 0xFC) == [] && Below([0xFC], 0xFD) == [0xFC];
  }
}
