/** POSIX path algebra: lib/path.js. */
module Path {
  import opened Common

  // ---------- the string functions of the language ----------

  /** `s.split('/')` */
  function Split(s: string): (r: seq<string>)
    ensures |r| >= 1
  {
    if s == "" then [""]
    else
      var r := Split(s[1..]);
      if s[0] == '/' then [""] + r else [[s[0]] + r[0]] + r[1..]
  }

  /** `parts.filter(function(p) { return !!p; })` */
  function Filter(parts: seq<string>): seq<string> {
    if parts == [] then []
    else (if parts[0] != "" then [parts[0]] else []) + Filter(parts[1..])
  }

  /** `parts.join('/')` */
  function Join(parts: seq<string>): string {
    if parts == [] then "" else if |parts| == 1 then parts[0] else parts[0] + "/" + Join(parts[1..])
  }

  function Parts(s: string): seq<string> {
    Filter(Split(s))
  }

  // ---------- normalizeArray ----------

  /** The backward scan: the parts kept, and how many '..' are left over. */
  function Backward(parts: seq<string>, up: nat): (seq<string>, nat) {
    if parts == [] then ([], up)
    else
      var init, last := parts[..|parts| - 1], parts[|parts| - 1];
      if last == "." then Backward(init, up)
      else if last == ".." then Backward(init, up + 1)
      else if up > 0 then Backward(init, up - 1)
      else (Backward(init, 0).0 + [last], Backward(init, 0).1)
  }

  function Dots(n: nat): (r: seq<string>)
    ensures |r| == n && forall i :: 0 <= i < n ==> r[i] == ".."
  {
    seq(n, i => "..")
  }

  /** The obvious reading of a path: a stack of directories. */
  function Enter(stack: seq<string>, part: string, allowAboveRoot: bool): seq<string> {
    if part == "." then stack
    else if part == ".." then
      if stack != [] && stack[|stack| - 1] != ".." then stack[..|stack| - 1]
      else if allowAboveRoot then stack + [".."]
      else stack
    else stack + [part]
  }

  function Forward(stack: seq<string>, parts: seq<string>, allowAboveRoot: bool): seq<string>
    decreases |parts|
  {
    if parts == [] then stack else Forward(Enter(stack, parts[0], allowAboveRoot), parts[1..], allowAboveRoot)
  }

  method NormalizeArray(input: seq<string>, allowAboveRoot: bool) returns (parts: seq<string>)
    ensures parts == Forward([], input, allowAboveRoot)
  {
    hide Forward;
    hide Backward;
    hide Dots;
    var up: nat;
    parts, up := ScanBackward(input);
    BackwardIsForward(input, allowAboveRoot);
    if allowAboveRoot {
      parts := Unshift(parts, up);
    } else {
      assert [] + parts == parts;
    }
  }

  /** The loop that restores the leading '..'s. */
  method Unshift(base: seq<string>, count: nat) returns (parts: seq<string>)
    ensures parts == Dots(count) + base
  {
    hide Dots;
    DotsSteps(0);
    var up: nat := count;
    parts := base;
    assert [] + base == base;
    while up > 0
      invariant 0 <= up <= count && parts == Dots(count - up) + base
    {
      DotsSteps(count - up);
      Assoc([".."], Dots(count - up), base);
      parts := [".."] + parts;
      up := up - 1;
    }
  }

  lemma DotsSteps(n: nat)
    ensures Dots(0) == [] && Dots(n + 1) == [".."] + Dots(n) == Dots(n) + [".."]
  {
  }

  /** The loop from the last part to the first, which splices parts out as it goes. */
  method ScanBackward(input: seq<string>) returns (parts: seq<string>, up: nat)
    ensures (parts, up) == Backward(input, 0)
  {
    parts, up := input, 0;
    var i := |parts| - 1;
    assert input[..|input|] == input && Backward(input, 0).0 + [] == Backward(input, 0).0;
    ghost var kept: seq<string> := [];
    while i >= 0
      invariant -1 <= i < |input|
      invariant parts == input[..i + 1] + kept
      invariant Backward(input, 0) == (Backward(input[..i + 1], up).0 + kept, Backward(input[..i + 1], up).1)
    {
      var last := parts[i];
      BackwardStep(input, i, up);
      if last == "." {
        parts := parts[..i] + parts[i + 1..];
      } else if last == ".." {
        parts := parts[..i] + parts[i + 1..];
        up := up + 1;
      } else if up > 0 {
        parts := parts[..i] + parts[i + 1..];
        up := up - 1;
      } else {
        ghost var r := Backward(input[..i], 0).0;
        assert r + [last] + kept == r + ([last] + kept);
        kept := [last] + kept;
      }
      i := i - 1;
    }
  }

  lemma BackwardStep(parts: seq<string>, i: nat, up: nat)
    requires i < |parts|
    ensures var init, last := parts[..i], parts[i];
            Backward(parts[..i + 1], up)
            == if last == "." then Backward(init, up)
               else if last == ".." then Backward(init, up + 1)
               else if up > 0 then Backward(init, up - 1)
               else (Backward(init, 0).0 + [last], Backward(init, 0).1)
  {
    assert parts[..i + 1][..i] == parts[..i];
  }

  /** Leading '..'s counted apart from the named directories. */
  function Walk(parts: seq<string>): (seq<string>, nat) {
    if parts == [] then ([], 0)
    else
      var (names, d) := Walk(parts[..|parts| - 1]);
      var last := parts[|parts| - 1];
      if last == "." then (names, d)
      else if last == ".." then (if names == [] then (names, d + 1) else (names[..|names| - 1], d))
      else (names + [last], d)
  }

  /** `up` pending '..'s take away that many names, and count as left over where names run out. */
  lemma {:induction false} BackwardIsWalk(parts: seq<string>, up: nat)
    ensures var (names, d) := Walk(parts);
            Backward(parts, up) == (if up <= |names| then (names[..|names| - up], d) else ([], d + up - |names|))
  {
    if parts != [] {
      var init, last := parts[..|parts| - 1], parts[|parts| - 1];
      var (names, d) := Walk(init);
      if last == "." {
        BackwardIsWalk(init, up);
      } else if last == ".." {
        BackwardIsWalk(init, up + 1);
        if up < |names| {
          assert names[..|names| - 1][..|names| - 1 - up] == names[..|names| - 1 - up];
        }
      } else if up > 0 {
        BackwardIsWalk(init, up - 1);
        if up <= |names| + 1 {
          assert (names + [last])[..|names| + 1 - up] == names[..|names| + 1 - up];
        }
      } else {
        BackwardIsWalk(init, 0);
        assert names[..|names|] == names && (names + [last])[..|names| + 1] == names + [last];
      }
    }
  }

  lemma {:induction false} ForwardPush(stack: seq<string>, parts: seq<string>, last: string, allow: bool)
    ensures Forward(stack, parts + [last], allow) == Enter(Forward(stack, parts, allow), last, allow)
    decreases |parts|
  {
    if parts == [] {
      assert [last][1..] == [];
      assert [] + [last] == [last];
    } else {
      ForwardPush(Enter(stack, parts[0], allow), parts[1..], last, allow);
      assert (parts + [last])[1..] == parts[1..] + [last];
    }
  }

  ghost predicate NoDots(names: seq<string>) {
    forall i :: 0 <= i < |names| ==> names[i] != ".." && names[i] != "."
  }

  function Stack(names: seq<string>, d: nat, allow: bool): seq<string> {
    (if allow then Dots(d) else []) + names
  }

  lemma EnterStack(names: seq<string>, d: nat, last: string, allow: bool)
    requires NoDots(names)
    ensures Enter(Stack(names, d, allow), last, allow)
         == if last == "." then Stack(names, d, allow)
            else if last != ".." then Stack(names + [last], d, allow)
            else if names == [] then Stack(names, d + 1, allow)
            else Stack(names[..|names| - 1], d, allow)
  {
    var stack := Stack(names, d, allow);
    if last == ".." {
      if names == [] {
        assert allow ==> Dots(d) + [".."] == Dots(d + 1);
      } else {
        assert stack[|stack| - 1] == names[|names| - 1];
        assert stack[..|stack| - 1] == Stack(names[..|names| - 1], d, allow);
      }
    }
  }

  lemma {:induction false} WalkIsForward(parts: seq<string>, allow: bool)
    ensures var (names, d) := Walk(parts);
            NoDots(names) && Forward([], parts, allow) == Stack(names, d, allow)
  {
    if parts == [] {
      assert Dots(0) == [];
    } else {
      hide Forward;
      hide Stack;
      hide Enter;
      var init, last := parts[..|parts| - 1], parts[|parts| - 1];
      WalkIsForward(init, allow);
      ForwardPush([], init, last, allow);
      assert parts == init + [last];
      EnterStack(Walk(init).0, Walk(init).1, last, allow);
    }
  }

  /** The backward scan with its counter equals the stack, for every part list and both settings. */
  lemma BackwardIsForward(parts: seq<string>, allow: bool)
    ensures (if allow then Dots(Backward(parts, 0).1) else []) + Backward(parts, 0).0 == Forward([], parts, allow)
  {
    BackwardIsWalk(parts, 0);
    WalkIsForward(parts, allow);
    assert Walk(parts).0[..|Walk(parts).0|] == Walk(parts).0;
  }
}
