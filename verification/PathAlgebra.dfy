/** `resolve`, `normalize` and `relative` of lib/path.js (POSIX), and the laws between them. */
module PathAlgebra {
  import opened Path

  // ---------- splitting and joining ----------

  ghost predicate NoSlash(s: string) {
    forall i :: 0 <= i < |s| ==> s[i] != '/'
  }

  /** Components as they come out of a path: not empty, without a slash. */
  ghost predicate Clean(parts: seq<string>) {
    forall i :: 0 <= i < |parts| ==> parts[i] != "" && NoSlash(parts[i])
  }

  lemma {:induction false} SplitAtSlash(x: string, y: string)
    ensures Split(x + "/" + y) == Split(x) + Split(y)
  {
    hide Split;
    var z := x + "/" + y;
    SplitFirst(z);
    SplitFirst(x);
    if x == "" {
      assert z[1..] == y;
    } else {
      SplitAtSlash(x[1..], y);
      assert z[1..] == x[1..] + "/" + y;
      PrependToSplit(x[0], Split(x[1..]), Split(y));
    }
  }

  lemma PrependToSplit(c: char, r: seq<string>, rest: seq<string>)
    requires r != []
    ensures [""] + (r + rest) == [""] + r + rest
    ensures [[c] + (r + rest)[0]] + (r + rest)[1..] == [[c] + r[0]] + r[1..] + rest
  {
    assert (r + rest)[0] == r[0] && (r + rest)[1..] == r[1..] + rest;
  }

  lemma SplitFirst(s: string)
    ensures s == "" ==> Split(s) == [""]
    ensures s != "" ==> var r := Split(s[1..]);
                        Split(s) == if s[0] == '/' then [""] + r else [[s[0]] + r[0]] + r[1..]
  {
  }

  lemma {:induction false} SplitWord(w: string)
    requires NoSlash(w)
    ensures Split(w) == [w]
  {
    if w != "" {
      SplitWord(w[1..]);
      assert [w[0]] + w[1..] == w;
    }
  }

  lemma {:induction false} FilterConcat(a: seq<string>, b: seq<string>)
    ensures Filter(a + b) == Filter(a) + Filter(b)
  {
    hide Filter;
    FilterFirst(a);
    if a == [] {
      assert a + b == b;
    } else {
      FilterConcat(a[1..], b);
      FilterFirst(a + b);
      assert (a + b)[1..] == a[1..] + b;
      var head := if a[0] != "" then [a[0]] else [];
      assert head + (Filter(a[1..]) + Filter(b)) == head + Filter(a[1..]) + Filter(b);
    }
  }

  lemma FilterFirst(parts: seq<string>)
    ensures parts == [] ==> Filter(parts) == []
    ensures parts != [] ==> Filter(parts) == (if parts[0] != "" then [parts[0]] else []) + Filter(parts[1..])
  {
  }

  lemma PartsAtSlash(x: string, y: string)
    ensures Parts(x + "/" + y) == Parts(x) + Parts(y)
  {
    SplitAtSlash(x, y);
    FilterConcat(Split(x), Split(y));
  }

  lemma {:induction false} SplitIsSlashFree(s: string)
    ensures forall i :: 0 <= i < |Split(s)| ==> NoSlash(Split(s)[i])
  {
    if s != "" {
      SplitIsSlashFree(s[1..]);
    }
  }

  lemma {:induction false} FilterIsClean(parts: seq<string>)
    requires forall i :: 0 <= i < |parts| ==> NoSlash(parts[i])
    ensures Clean(Filter(parts))
  {
    if parts != [] {
      FilterIsClean(parts[1..]);
    }
  }

  lemma PartsAreClean(s: string)
    ensures Clean(Parts(s))
  {
    SplitIsSlashFree(s);
    FilterIsClean(Split(s));
  }

  /** Splitting undoes joining. */
  lemma {:induction false} PartsOfJoin(parts: seq<string>)
    requires Clean(parts)
    ensures Parts(Join(parts)) == parts
    ensures parts != [] ==> Join(parts) != "" && Join(parts)[0] != '/' && Join(parts)[|Join(parts)| - 1] != '/'
    decreases |parts|
  {
    if parts == [] {
      assert Filter([""]) == Filter([""][1..]);
    } else if |parts| == 1 {
      SplitWord(parts[0]);
      assert Filter([parts[0]]) == [parts[0]] + Filter([parts[0]][1..]);
      assert parts == [parts[0]];
    } else {
      PartsOfJoin(parts[1..]);
      PartsAtSlash(parts[0], Join(parts[1..]));
      PartsOfJoin([parts[0]]);
      assert parts == [parts[0]] + parts[1..];
    }
  }

  // ---------- resolve ----------

  /** The loop of `resolve`, from the last path to the first, until one is absolute. */
  function Gather(paths: seq<string>, acc: string): (string, bool) {
    if paths == [] then (acc, false)
    else
      var init, last := paths[..|paths| - 1], paths[|paths| - 1];
      if last == "" then Gather(init, acc)
      else if last[0] == '/' then (last + "/" + acc, true)
      else Gather(init, last + "/" + acc)
  }

  function Render(absolute: bool, parts: seq<string>): string {
    var s := (if absolute then "/" else "") + Join(parts);
    if s == "" then "." else s
  }

  /** `path.resolve(paths...)` with the current directory in front. */
  function Resolve(cwd: string, paths: seq<string>): string {
    var (p, absolute) := Gather([cwd] + paths, "");
    Render(absolute, Forward([], Parts(p), !absolute))
  }

  method ComputeResolve(cwd: string, arguments: seq<string>) returns (resolved: string)
    ensures resolved == Resolve(cwd, arguments)
  {
    var resolvedPath, resolvedAbsolute := "", false;
    var i := |arguments| - 1;
    ghost var all := [cwd] + arguments;
    assert all[..|all|] == all;
    while i >= -1 && !resolvedAbsolute
      invariant -2 <= i < |arguments|
      invariant Gather(all, "") == if resolvedAbsolute then (resolvedPath, true) else Gather(all[..i + 2], resolvedPath)
      decreases i + 2, !resolvedAbsolute
    {
      var path := if i >= 0 then arguments[i] else cwd;
      assert path == all[i + 1] && all[..i + 2][..i + 1] == all[..i + 1];
      i := i - 1;
      if path == "" {
        continue;
      }
      resolvedPath := path + "/" + resolvedPath;
      resolvedAbsolute := path[0] == '/';
    }
    var parts := NormalizeArray(Filter(Split(resolvedPath)), !resolvedAbsolute);
    resolved := Render(resolvedAbsolute, parts);
  }

  lemma {:induction false} GatherAppend(paths: seq<string>, acc: string)
    ensures Gather(paths, acc) == (Gather(paths, "").0 + acc, Gather(paths, "").1)
  {
    if paths == [] {
      assert "" + acc == acc;
    } else {
      var init, last := paths[..|paths| - 1], paths[|paths| - 1];
      if last == "" {
        GatherAppend(init, acc);
      } else if last[0] == '/' {
        assert last + "/" + acc == last + "/" + "" + acc;
      } else {
        GatherAppend(init, last + "/" + acc);
        GatherAppend(init, last + "/" + "");
        assert Gather(init, "").0 + (last + "/" + acc) == Gather(init, "").0 + (last + "/" + "") + acc;
      }
    }
  }

  ghost predicate IsAbsolute(s: string) {
    s != "" && s[0] == '/'
  }

  /** With an absolute current directory the gathered path is absolute and ends in a slash. */
  lemma {:induction false} GatherAbsolute(cwd: string, paths: seq<string>)
    requires IsAbsolute(cwd)
    ensures var g := Gather([cwd] + paths, ""); g.1 && g.0 != "" && g.0[|g.0| - 1] == '/'
  {
    var all := [cwd] + paths;
    if paths == [] {
      assert all == [cwd];
    } else {
      var init, last := paths[..|paths| - 1], paths[|paths| - 1];
      assert all[..|all| - 1] == [cwd] + init && all[|all| - 1] == last;
      GatherAbsolute(cwd, init);
      if last != "" && last[0] != '/' {
        GatherAppend([cwd] + init, last + "/" + "");
      }
    }
  }

  /** The directories of the resolved path. */
  function Names(cwd: string, paths: seq<string>): seq<string> {
    Forward([], Parts(Gather([cwd] + paths, "").0), false)
  }

  lemma {:induction false} ForwardKeepsClean(stack: seq<string>, parts: seq<string>, allow: bool)
    requires Clean(stack) && Clean(parts)
    ensures Clean(Forward(stack, parts, allow))
    decreases |parts|
  {
    if parts != [] {
      ForwardKeepsClean(Enter(stack, parts[0], allow), parts[1..], allow);
    }
  }

  lemma NamesAreNormal(cwd: string, paths: seq<string>)
    ensures Clean(Names(cwd, paths)) && NoDots(Names(cwd, paths))
  {
    var parts := Parts(Gather([cwd] + paths, "").0);
    PartsAreClean(Gather([cwd] + paths, "").0);
    ForwardKeepsClean([], parts, false);
    WalkIsForward(parts, false);
  }

  lemma ResolveIsAbsolute(cwd: string, paths: seq<string>)
    requires IsAbsolute(cwd)
    ensures Resolve(cwd, paths) == "/" + Join(Names(cwd, paths))
  {
    GatherAbsolute(cwd, paths);
  }

  // ---------- relative ----------

  function CommonPrefix(a: seq<string>, b: seq<string>): (k: nat)
    ensures k <= |a| && k <= |b| && a[..k] == b[..k]
    ensures k < |a| && k < |b| ==> a[k] != b[k]
  {
    if a == [] || b == [] || a[0] != b[0] then 0
    else
      var k := CommonPrefix(a[1..], b[1..]);
      assert a[..k + 1] == [a[0]] + a[1..][..k] && b[..k + 1] == [b[0]] + b[1..][..k];
      k + 1
  }

  function RelativeParts(from: seq<string>, to: seq<string>): seq<string> {
    var k := CommonPrefix(from, to);
    Dots(|from| - k) + to[k..]
  }

  function Relative(cwd: string, from: string, to: string): string {
    Join(RelativeParts(Names(cwd, [from]), Names(cwd, [to])))
  }

  /** The inner function `trim`; its `slice` is wrong for a list with empty parts in front, which it never gets. */
  method Trim(arr: seq<string>) returns (r: seq<string>)
    requires arr == [""] || (arr != [] && arr[0] != "" && arr[|arr| - 1] != "")
    ensures r == if arr == [""] then [] else arr
  {
    var start := 0;
    while start < |arr| && arr[start] == ""
      invariant start <= |arr| && (arr == [""] || start == 0)
    {
      start := start + 1;
    }
    var end := |arr| - 1;
    while end >= 0 && arr[end] == ""
      invariant -1 <= end < |arr| && (arr == [""] || end == |arr| - 1)
    {
      end := end - 1;
    }
    if start > end {
      return [];
    }
    r := arr[start..end - start + 1];
  }

  method ComputeRelative(cwd: string, from: string, to: string) returns (relative: string)
    requires IsAbsolute(cwd)
    ensures relative == Relative(cwd, from, to)
  {
    hide Resolve;
    hide Split;
    var fromPath := ComputeResolve(cwd, [from]);
    var toPath := ComputeResolve(cwd, [to]);
    SplitResolved(cwd, from);
    SplitResolved(cwd, to);
    var fromParts := Trim(Split(fromPath[1..]));
    var toParts := Trim(Split(toPath[1..]));
    relative := JoinRelative(fromParts, toParts);
  }

  /** The rest of `relative`: up from the one, down to the other. */
  method JoinRelative(fromParts: seq<string>, toParts: seq<string>) returns (relative: string)
    ensures relative == Join(RelativeParts(fromParts, toParts))
  {
    hide Join;
    hide CommonPrefix;
    var length := if |fromParts| < |toParts| then |fromParts| else |toParts|;
    var samePartsLength := length;
    for i := 0 to length
      invariant samePartsLength == length && fromParts[..i] == toParts[..i]
    {
      if fromParts[i] != toParts[i] {
        samePartsLength := i;
        break;
      }
    }
    CommonPrefixUnique(fromParts, toParts, samePartsLength);
    var outputParts := [];
    for i := samePartsLength to |fromParts|
      invariant outputParts == Dots(i - samePartsLength)
    {
      outputParts := outputParts + [".."];
    }
    relative := Join(outputParts + toParts[samePartsLength..]);
  }

  lemma {:induction false} CommonPrefixUnique(a: seq<string>, b: seq<string>, k: nat)
    requires k <= |a| && k <= |b| && a[..k] == b[..k] && (k < |a| && k < |b| ==> a[k] != b[k])
    ensures k == CommonPrefix(a, b)
    decreases k
  {
    if k > 0 {
      assert a[0] == a[..k][0] && b[0] == b[..k][0];
      assert a[1..][..k - 1] == a[..k][1..] && b[1..][..k - 1] == b[..k][1..];
      CommonPrefixUnique(a[1..], b[1..], k - 1);
    }
  }

  lemma {:induction false} SplitOfJoin(parts: seq<string>)
    requires Clean(parts)
    ensures Split(Join(parts)) == if parts == [] then [""] else parts
  {
    if |parts| == 1 {
      SplitWord(parts[0]);
      assert parts == [parts[0]];
    } else if |parts| > 1 {
      SplitOfJoin(parts[1..]);
      SplitAtSlash(parts[0], Join(parts[1..]));
      SplitWord(parts[0]);
      assert parts == [parts[0]] + parts[1..];
    }
  }

  lemma SplitResolved(cwd: string, path: string)
    requires IsAbsolute(cwd)
    ensures var r := Resolve(cwd, [path]);
            && r != ""
            && Split(r[1..]) == (if Names(cwd, [path]) == [] then [""] else Names(cwd, [path]))
            && Clean(Names(cwd, [path]))
  {
    ResolveIsAbsolute(cwd, [path]);
    NamesAreNormal(cwd, [path]);
    SplitOfJoin(Names(cwd, [path]));
    assert ("/" + Join(Names(cwd, [path])))[1..] == Join(Names(cwd, [path]));
  }

  // ---------- the laws ----------

  lemma {:induction false} ForwardConcat(stack: seq<string>, a: seq<string>, b: seq<string>, allow: bool)
    ensures Forward(stack, a + b, allow) == Forward(Forward(stack, a, allow), b, allow)
    decreases |a|
  {
    hide Enter;
    if a == [] {
      assert a + b == b;
    } else {
      ForwardConcat(Enter(stack, a[0], allow), a[1..], b, allow);
      assert (a + b)[1..] == a[1..] + b;
    }
  }

  lemma {:induction false} ForwardUp(stack: seq<string>, n: nat)
    requires NoDots(stack) && n <= |stack|
    ensures Forward(stack, Dots(n), false) == stack[..|stack| - n]
    decreases n
  {
    if n == 0 {
      assert stack[..|stack|] == stack;
    } else {
      assert Dots(n)[1..] == Dots(n - 1) && Dots(n)[0] == "..";
      var popped := stack[..|stack| - 1];
      ForwardUp(popped, n - 1);
      assert popped[..|popped| - (n - 1)] == stack[..|stack| - n];
    }
  }

  lemma {:induction false} ForwardDown(stack: seq<string>, names: seq<string>, allow: bool)
    requires NoDots(names)
    ensures Forward(stack, names, allow) == stack + names
    decreases |names|
  {
    if names != [] {
      ForwardDown(stack + [names[0]], names[1..], allow);
      assert stack + [names[0]] + names[1..] == stack + names;
    }
  }

  /** Walking the relative parts from `from` arrives at `to`. */
  lemma RelativeLeadsThere(from: seq<string>, to: seq<string>)
    requires NoDots(from) && NoDots(to)
    ensures Forward(from, RelativeParts(from, to), false) == to
  {
    hide Forward;
    hide CommonPrefix;
    var k := CommonPrefix(from, to);
    ForwardConcat(from, Dots(|from| - k), to[k..], false);
    ForwardUp(from, |from| - k);
    ForwardDown(from[..k], to[k..], false);
    assert to[..k] + to[k..] == to;
  }

  /** Appending a relative path to what `resolve` gathers continues the walk. */
  lemma ResolveFurther(cwd: string, from: string, parts: seq<string>)
    requires IsAbsolute(cwd) && Clean(parts)
    ensures Names(cwd, [from, Join(parts)]) == Forward(Names(cwd, [from]), parts, false)
  {
    hide Join;
    var rel, base := Join(parts), [cwd] + [from];
    PartsOfJoin(parts);
    assert [cwd] + [from, rel] == base + [rel];
    assert (base + [rel])[..2] == base;
    GatherAbsolute(cwd, [from]);
    var g := Gather(base, "").0;
    if parts == [] {
      EmptyJoin();
      assert Gather(base + [rel], "") == Gather(base, "");
    } else {
      GatherAppend(base, rel + "/" + "");
      assert Gather(base + [rel], "").0 == g + (rel + "/" + "");
      PartsThenWord(g, rel);
      ForwardConcat([], Parts(g), parts, false);
    }
  }

  lemma EmptyJoin()
    ensures Join([]) == ""
  {
  }

  lemma PartsThenWord(g: string, rel: string)
    requires g != "" && g[|g| - 1] == '/'
    ensures Parts(g + (rel + "/" + "")) == Parts(g) + Parts(rel)
  {
    var h := g[..|g| - 1];
    assert g == h + "/" + "";
    PartsAtSlash(h, "");
    PartsAtSlash(h, rel + "/" + "");
    PartsAtSlash(rel, "");
    assert g + (rel + "/" + "") == h + "/" + (rel + "/" + "");
    assert Parts("") == [] by {
      assert Filter([""]) == Filter([""][1..]);
    }
  }

  /** resolve(from, relative(from, to)) == resolve(to), for all strings. */
  lemma RelativeInvertsResolve(cwd: string, from: string, to: string)
    requires IsAbsolute(cwd)
    ensures Resolve(cwd, [from, Relative(cwd, from, to)]) == Resolve(cwd, [to])
  {
    var f, t := Names(cwd, [from]), Names(cwd, [to]);
    NamesAreNormal(cwd, [from]);
    NamesAreNormal(cwd, [to]);
    var parts := RelativeParts(f, t);
    assert Clean(parts);
    ResolveFurther(cwd, from, parts);
    RelativeLeadsThere(f, t);
    ResolveIsAbsolute(cwd, [from, Join(parts)]);
    ResolveIsAbsolute(cwd, [to]);
  }

  // ---------- resolve is a sequence of changes of directory ----------

  /** `cd path` from the directory `dir`. */
  function ChangeDir(dir: seq<string>, path: string): seq<string> {
    Forward(if path != "" && path[0] == '/' then [] else dir, Parts(path), false)
  }

  function ChangeDirs(dir: seq<string>, paths: seq<string>): seq<string> {
    if paths == [] then dir
    else ChangeDir(ChangeDirs(dir, paths[..|paths| - 1]), paths[|paths| - 1])
  }

  lemma NoParts()
    ensures Parts("") == []
  {
    assert Filter([""]) == Filter([""][1..]);
  }

  /** A slash at the end. */
  lemma PartsSlash(p: string)
    ensures Parts(p + "/" + "") == Parts(p)
  {
    PartsAtSlash(p, "");
    NoParts();
  }

  /** Each path is walked from where the ones before it lead; an absolute one starts again at the root. */
  lemma {:induction false} ResolveIsChangeDirs(cwd: string, paths: seq<string>)
    requires IsAbsolute(cwd)
    ensures Names(cwd, paths) == ChangeDirs(ChangeDir([], cwd), paths)
  {
    hide Parts;
    hide Forward;
    var all := [cwd] + paths;
    if paths == [] {
      assert all == [cwd];
      PartsSlash(cwd);
    } else {
      var init, last := paths[..|paths| - 1], paths[|paths| - 1];
      assert all[..|all| - 1] == [cwd] + init && all[|all| - 1] == last;
      ResolveIsChangeDirs(cwd, init);
      var g := Gather([cwd] + init, "").0;
      if last == "" {
        NoParts();
        ForwardNone(Names(cwd, init));
      } else if last[0] == '/' {
        PartsSlash(last);
      } else {
        GatherAppend([cwd] + init, last + "/" + "");
        GatherAbsolute(cwd, init);
        PartsThenWord(g, last);
        ForwardConcat([], Parts(g), Parts(last), false);
      }
    }
  }

  lemma ForwardNone(stack: seq<string>)
    ensures Forward(stack, [], false) == stack
  {
  }

  // ---------- relative is as short as can be ----------

  /** How many steps `from` and `to` are apart. */
  function Apart(from: seq<string>, to: seq<string>): int {
    |from| + |to| - 2 * CommonPrefix(from, to)
  }

  lemma ApartStep(stack: seq<string>, part: string, to: seq<string>)
    ensures Apart(stack, to) <= Apart(Enter(stack, part, false), to) + 1
  {
    hide CommonPrefix;
    var k, next := CommonPrefix(stack, to), Enter(stack, part, false);
    if |next| < |stack| {
      if k == |stack| {
        CommonPrefixUnique(next, to, k - 1);
      } else {
        CommonPrefixUnique(next, to, k);
      }
    } else if |next| > |stack| {
      assert next == stack + [part];
      if k == |stack| && k < |to| && to[k] == part {
        assert to[..k + 1] == to[..k] + [part];
        CommonPrefixUnique(next, to, k + 1);
      } else {
        assert next[..k] == stack[..k];
        CommonPrefixUnique(next, to, k);
      }
    }
  }

  lemma {:induction false} ApartWalk(stack: seq<string>, parts: seq<string>, to: seq<string>)
    requires Forward(stack, parts, false) == to
    ensures Apart(stack, to) <= |parts|
    decreases |parts|
  {
    if parts == [] {
      CommonPrefixUnique(to, to, |to|);
    } else {
      ApartStep(stack, parts[0], to);
      ApartWalk(Enter(stack, parts[0], false), parts[1..], to);
    }
  }

  /** No list of parts that leads from `from` to `to` is shorter. */
  lemma RelativeIsShortest(from: seq<string>, to: seq<string>, parts: seq<string>)
    requires Forward(from, parts, false) == to
    ensures |RelativeParts(from, to)| <= |parts|
  {
    ApartWalk(from, parts, to);
  }

  // ---------- normalize ----------

  function Normalize(path: string): string {
    var isAbsolute := path != "" && path[0] == '/';
    var trailingSlash := path != "" && path[|path| - 1] == '/';
    var joined := Join(Forward([], Parts(path), !isAbsolute));
    var p := if joined == "" && !isAbsolute then "." else joined;
    (if isAbsolute then "/" else "") + p + (if p != "" && trailingSlash then "/" else "")
  }

  method ComputeNormalize(path: string) returns (r: string)
    ensures r == Normalize(path)
  {
    var isAbsolute, trailingSlash := path != "" && path[0] == '/', path != "" && path[|path| - 1] == '/';
    var parts := NormalizeArray(Filter(Split(path)), !isAbsolute);
    var p := Join(parts);
    if p == "" && !isAbsolute {
      p := ".";
    }
    if p != "" && trailingSlash {
      p := p + "/";
    }
    r := (if isAbsolute then "/" else "") + p;
  }

  /** A stack that has been evaluated evaluates to itself. */
  lemma ForwardTwice(parts: seq<string>, allow: bool)
    ensures Forward([], Forward([], parts, allow), allow) == Forward([], parts, allow)
  {
    hide Forward;
    WalkIsForward(parts, allow);
    var (names, d) := Walk(parts);
    if allow {
      ForwardConcat([], Dots(d), names, true);
      ForwardClimb(d);
      ForwardDown(Dots(d), names, true);
    } else {
      assert Stack(names, d, allow) == names;
      ForwardDown([], names, false);
      assert [] + names == names;
    }
  }

  lemma {:induction false} ForwardClimb(d: nat)
    ensures Forward([], Dots(d), true) == Dots(d)
  {
    if d > 0 {
      ForwardClimb(d - 1);
      ForwardPush([], Dots(d - 1), "..", true);
      assert Dots(d - 1) + [".."] == Dots(d);
    }
  }

  /** Slashes around a path do not change its parts. */
  lemma PartsDecorated(front: bool, p: string, back: bool)
    ensures Parts((if front then "/" else "") + p + (if back then "/" else "")) == Parts(p)
  {
    var q := p + if back then "/" else "";
    assert Parts("") == [] by {
      PartsOfJoin([]);
      EmptyJoin();
    }
    assert Parts(q) == Parts(p) by {
      PartsAtSlash(p, "");
      assert p + "/" + "" == p + "/" && p + "" == p;
    }
    assert Parts((if front then "/" else "") + q) == Parts(q) by {
      PartsAtSlash("", q);
      assert "" + "/" + q == "/" + q && "" + q == q;
    }
    assert (if front then "/" else "") + p + (if back then "/" else "") == (if front then "/" else "") + q;
  }

  lemma PartsOfNormalized(path: string)
    ensures var absolute := path != "" && path[0] == '/';
            var parts := Forward([], Parts(path), !absolute);
            var n := Normalize(path);
            && n != "" && (n[0] == '/' <==> absolute)
            && (parts == [] && absolute ==> n == "/")
            && ((parts == [] && absolute) || (n[|n| - 1] == '/' <==> (path != "" && path[|path| - 1] == '/')))
            && Parts(n) == (if parts == [] && !absolute then ["."] else parts)
  {
    hide Forward;
    hide Parts;
    var absolute := path != "" && path[0] == '/';
    var parts := Forward([], Parts(path), !absolute);
    PartsAreClean(path);
    ForwardKeepsClean([], Parts(path), !absolute);
    PartsOfJoin(parts);
    PartsOfJoin(["."]);
    EmptyJoin();
    assert Join(["."]) == ".";
    hide Join;
    var p := if Join(parts) == "" && !absolute then "." else Join(parts);
    PartsDecorated(absolute, p, p != "" && path != "" && path[|path| - 1] == '/');
  }

  lemma NormalizeIsIdempotent(path: string)
    ensures Normalize(Normalize(path)) == Normalize(path)
  {
    hide Forward;
    var absolute := path != "" && path[0] == '/';
    var parts := Forward([], Parts(path), !absolute);
    PartsOfNormalized(path);
    ForwardTwice(Parts(path), !absolute);
    if parts == [] && !absolute {
      assert Forward([], ["."], true) == [] by {
        ForwardPush([], [], ".", true);
        assert [] + ["."] == ["."];
        ForwardDown([], [], true);
      }
    }
  }
}
