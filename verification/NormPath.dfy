/** Path normalisation: purely textual, and what it keeps. */
module NormPaths {
  const SLASH: char := '/'

  // ---- splitting and joining ------------------------------------------------------------------

  /** The next slash at or after `at`, or the end. */
  function Find(p: string, at: nat): (k: nat)
    requires at <= |p|
    ensures at <= k <= |p| && (k < |p| ==> p[k] == SLASH) && forall j :: at <= j < k ==> p[j] != SLASH
    decreases |p| - at
  {
    if at < |p| && p[at] != SLASH then Find(p, at + 1) else at
  }

  /** The components from `at` on, empty ones included. */
  function Split(p: string, at: nat): seq<string>
    requires at <= |p|
    decreases |p| - at
  {
    var k := Find(p, at);
    if k == |p| then [p[at..]] else [p[at..k]] + Split(p, k + 1)
  }

  function Join(cs: seq<string>): string {
    if cs == [] then "" else if |cs| == 1 then cs[0] else cs[0] + [SLASH] + Join(cs[1..])
  }

  predicate Plain(c: string) { c != "" && forall k :: 0 <= k < |c| ==> c[k] != SLASH }

  lemma {:induction false} FindIs(p: string, at: nat, k: nat)
    requires at <= k <= |p| && (k < |p| ==> p[k] == SLASH) && forall j :: at <= j < k ==> p[j] != SLASH
    ensures Find(p, at) == k
    decreases k - at
  {
    if at < k { FindIs(p, at + 1, k); }
  }

  /** The first component of a joined tail, and where the next one starts. */
  lemma JoinHead(p: string, at: nat, cs: seq<string>, end: nat)
    requires at <= |p| && p[at..] == Join(cs) && cs != [] && Plain(cs[0]) && end == at + |cs[0]|
    ensures end <= |p| && p[at..end] == cs[0] && (forall j :: at <= j < end ==> p[j] != SLASH)
    ensures |cs| == 1 ==> end == |p|
    ensures |cs| > 1 ==> end < |p| && p[end] == SLASH && p[end + 1..] == Join(cs[1..])
  {
    var c := cs[0];
    var tail := if |cs| == 1 then "" else [SLASH] + Join(cs[1..]);
    assert p[at..] == c + tail;
    assert p[at..end] == (c + tail)[..|c|] == c;
    forall j | at <= j < end ensures p[j] != SLASH { assert p[j] == p[at..end][j - at]; }
    if |cs| > 1 {
      assert p[end] == p[at..][|c|];
      assert p[end + 1..] == p[at..][|c| + 1..] == tail[1..];
    }
  }

  /** Splitting undoes joining. */
  lemma {:induction false} SplitJoin(p: string, at: nat, cs: seq<string>)
    requires at <= |p| && p[at..] == Join(cs) && cs != [] && forall k :: 0 <= k < |cs| ==> Plain(cs[k])
    ensures Split(p, at) == cs
    decreases |cs|
  {
    hide Plain, Join;
    var end := at + |cs[0]|;
    JoinHead(p, at, cs, end);
    FindIs(p, at, end);
    if |cs| == 1 {
      assert p[at..] == p[at..end];
    } else {
      SplitJoin(p, end + 1, cs[1..]);
    }
  }

  // ---- the normaliser as a function ----------------------------------------------------------------

  /** Leading slashes kept: exactly two are two, otherwise at most one. */
  function Slashes(p: string): nat {
    if p == "" || p[0] != SLASH then 0
    else if |p| >= 2 && p[1] == SLASH && !(|p| >= 3 && p[2] == SLASH) then 2
    else 1
  }

  /** Take one component onto the stack. */
  function Step(absolute: bool, cs: seq<string>, c: string): seq<string> {
    if c == "" || c == "." then cs
    else if c != ".." || (!absolute && cs == []) || (cs != [] && cs[|cs| - 1] == "..") then cs + [c]
    else if cs != [] then cs[..|cs| - 1]
    else cs
  }

  function Fold(absolute: bool, cs: seq<string>, todo: seq<string>): seq<string>
    decreases |todo|
  {
    if todo == [] then cs else Fold(absolute, Step(absolute, cs, todo[0]), todo[1..])
  }

  function Roots(n: nat): string { seq(n, _ => SLASH) }

  function Render(slashes: nat, cs: seq<string>): string {
    var out := Roots(slashes) + Join(cs);
    if out == "" then "." else out
  }

  function Norm(p: string): string {
    if p == "" then "." else Render(Slashes(p), Fold(Slashes(p) > 0, [], Split(p, 0)))
  }

  // ---- normal forms ------------------------------------------------------------------------------------

  /** No empty or "." component, and ".." only as a leading block of a relative path. */
  predicate NormalStack(absolute: bool, cs: seq<string>) {
    && (forall k :: 0 <= k < |cs| ==> Plain(cs[k]) && cs[k] != "." && (cs[k] == ".." ==> !absolute))
    && (forall j, k :: 0 <= j < k < |cs| && cs[k] == ".." ==> cs[j] == "..")
  }

  ghost predicate Normal(p: string) {
    exists slashes: nat, cs: seq<string> {:trigger Render(slashes, cs)} ::
      slashes <= 2 && NormalStack(slashes > 0, cs) && p == Render(slashes, cs)
  }

  lemma StepKeeps(absolute: bool, cs: seq<string>, c: string)
    requires NormalStack(absolute, cs) && (c == "" || Plain(c))
    ensures NormalStack(absolute, Step(absolute, cs, c))
  {
    if c == ".." && cs != [] && cs[|cs| - 1] == ".." {
      assert cs[|cs| - 1] == ".." ==> forall j :: 0 <= j < |cs| ==> cs[j] == "..";
    }
  }

  lemma {:induction false} FoldKeeps(absolute: bool, cs: seq<string>, todo: seq<string>)
    requires NormalStack(absolute, cs) && forall k :: 0 <= k < |todo| ==> todo[k] == "" || Plain(todo[k])
    ensures NormalStack(absolute, Fold(absolute, cs, todo))
    decreases |todo|
  {
    if todo != [] {
      StepKeeps(absolute, cs, todo[0]);
      FoldKeeps(absolute, Step(absolute, cs, todo[0]), todo[1..]);
    }
  }

  lemma {:induction false} SplitPlain(p: string, at: nat)
    requires at <= |p|
    ensures forall k :: 0 <= k < |Split(p, at)| ==> Split(p, at)[k] == "" || Plain(Split(p, at)[k])
    decreases |p| - at
  {
    var k := Find(p, at);
    var c := p[at..k];
    assert forall j :: 0 <= j < |c| ==> c[j] == p[at + j];
    if k == |p| {
      assert p[at..] == c;
    } else {
      SplitPlain(p, k + 1);
    }
  }

  /** The result is always in normal form. */
  lemma NormIsNormal(p: string)
    ensures Normal(Norm(p))
  {
    if p == "" {
      assert Norm(p) == Render(0, []);
    } else {
      SplitPlain(p, 0);
      FoldKeeps(Slashes(p) > 0, [], Split(p, 0));
    }
  }

  // ---- idempotence -----------------------------------------------------------------------------------------

  /** Components of a normal form are taken as they are. */
  lemma {:induction false} FoldNormal(absolute: bool, cs: seq<string>, todo: seq<string>)
    requires NormalStack(absolute, cs + todo)
    ensures Fold(absolute, cs, todo) == cs + todo
    decreases |todo|
  {
    if todo == [] {
      assert cs + todo == cs;
    } else {
      var c := todo[0];
      assert (cs + todo)[|cs|] == c;
      assert Plain(c) && c != ".";
      if c == ".." && cs != [] {
        assert (cs + todo)[|cs| - 1] == cs[|cs| - 1];
      }
      assert cs + todo == (cs + [c]) + todo[1..];
      FoldNormal(absolute, cs + [c], todo[1..]);
    }
  }

  lemma {:induction false} JoinStarts(cs: seq<string>)
    requires cs != [] && Plain(cs[0])
    ensures Join(cs) != "" && Join(cs)[0] == cs[0][0] != SLASH
  {}

  lemma RenderSlashes(slashes: nat, cs: seq<string>)
    requires slashes <= 2 && NormalStack(slashes > 0, cs)
    ensures Slashes(Render(slashes, cs)) == slashes
  {
    if cs != [] { JoinStarts(cs); }
    var out := Render(slashes, cs);
    if slashes == 0 {
      assert out == if cs == [] then "." else Join(cs);
    } else if slashes == 1 {
      assert out == [SLASH] + Join(cs);
    } else {
      assert out == [SLASH, SLASH] + Join(cs);
    }
  }

  /** Splitting a normal form gives an empty component per root slash, then its components. */
  lemma RenderFolds(slashes: nat, cs: seq<string>)
    requires slashes <= 2 && NormalStack(slashes > 0, cs)
    ensures Render(slashes, cs) != "" && Fold(slashes > 0, [], Split(Render(slashes, cs), 0)) == cs
  {
    var out := Render(slashes, cs);
    if slashes == 0 && cs == [] {
      assert out == ".";
      FindIs(out, 0, 1);
      assert Split(out, 0) == ["."];
      FoldOne(false, [], ".", []);
    } else {
      assert out == Roots(slashes) + Join(cs);
      FoldFrom(slashes, cs, out, 0);
    }
  }

  lemma FoldOne(absolute: bool, cs: seq<string>, c: string, rest: seq<string>)
    ensures Fold(absolute, cs, [c] + rest) == Fold(absolute, Step(absolute, cs, c), rest)
  {
    assert ([c] + rest)[1..] == rest;
  }

  lemma {:induction false} FoldFrom(slashes: nat, cs: seq<string>, out: string, at: nat)
    requires slashes <= 2 && NormalStack(slashes > 0, cs) && at <= slashes <= |out| && out == Roots(slashes) + Join(cs)
    requires slashes > 0 || cs != []
    ensures Fold(slashes > 0, [], Split(out, at)) == cs
    decreases slashes - at
  {
    if at < slashes {
      assert out[at] == SLASH;
      FindIs(out, at, at);
      assert out[at..at] == "";
      FoldFrom(slashes, cs, out, at + 1);
      FoldOne(slashes > 0, [], "", Split(out, at + 1));
    } else {
      assert out[at..] == Join(cs);
      if cs == [] {
        FindIs(out, at, at);
        assert Split(out, at) == [""];
        FoldOne(slashes > 0, [], "", []);
      } else {
        SplitJoin(out, at, cs);
        assert [] + cs == cs;
        FoldNormal(slashes > 0, [], cs);
      }
    }
  }

  /** A normal form is left alone. */
  lemma NormalStays(p: string)
    requires Normal(p)
    ensures Norm(p) == p
  {
    var slashes: nat, cs: seq<string> :| slashes <= 2 && NormalStack(slashes > 0, cs) && p == Render(slashes, cs);
    RenderSlashes(slashes, cs);
    RenderFolds(slashes, cs);
  }

  lemma Idempotent(p: string)
    ensures Norm(Norm(p)) == Norm(p)
  {
    NormIsNormal(p);
    NormalStays(Norm(p));
  }

  // ---- leading slashes ----------------------------------------------------------------------------------------

  function Leading(p: string): nat { if p == "" || p[0] != SLASH then 0 else 1 + Leading(p[1..]) }

  /** Exactly two leading slashes are kept; any other run of them becomes one. */
  lemma LeadingSlashes(p: string)
    ensures Leading(Norm(p)) == if Leading(p) == 2 then 2 else if Leading(p) > 0 then 1 else 0
  {
    if p != "" {
      var cs := Fold(Slashes(p) > 0, [], Split(p, 0));
      SplitPlain(p, 0);
      FoldKeeps(Slashes(p) > 0, [], Split(p, 0));
      if cs != [] { JoinStarts(cs); }
      assert Join(cs) != "" ==> Join(cs)[0] != SLASH;
      LeadingIs(Slashes(p), Join(cs));
      SlashesCount(p);
    }
  }

  lemma {:induction false} LeadingIs(n: nat, rest: string)
    requires rest == "" || rest[0] != SLASH
    ensures Leading(Roots(n) + rest) == n
  {
    if n == 0 {
      assert Roots(n) + rest == rest;
    } else {
      assert (Roots(n) + rest)[1..] == Roots(n - 1) + rest;
      LeadingIs(n - 1, rest);
    }
  }

  lemma SlashesCount(p: string)
    ensures Slashes(p) == if Leading(p) == 2 then 2 else if Leading(p) > 0 then 1 else 0
  {
    if p != "" && p[0] == SLASH {
      var q := p[1..];
      assert Leading(p) == 1 + Leading(q);
      if q != "" && q[0] == SLASH {
        assert q[0] == p[1] && Leading(q) == 1 + Leading(q[1..]);
        if q[1..] != "" { assert q[1..][0] == p[2]; }
      } else {
        assert q != "" ==> q[0] == p[1];
      }
    }
  }

  // ---- what a path means --------------------------------------------------------------------------------------

  /** Follow components from a directory, given as the names on the way to it from the root;
      the root is its own parent. */
  function Walk(dir: seq<string>, todo: seq<string>): seq<string>
    decreases |todo|
  {
    if todo == [] then dir else Enter(Walk(dir, todo[..|todo| - 1]), todo[|todo| - 1])
  }

  function Enter(dir: seq<string>, c: string): seq<string> {
    if c == "" || c == "." then dir
    else if c == ".." then if dir == [] then [] else dir[..|dir| - 1]
    else dir + [c]
  }

  /** Where a path leads from `dir`. */
  function Place(p: string, dir: seq<string>): seq<string> {
    Walk(if p != "" && p[0] == SLASH then [] else dir, Split(p, 0))
  }

  lemma StepWalks(absolute: bool, dir: seq<string>, cs: seq<string>, c: string)
    requires absolute ==> dir == []
    requires NormalStack(absolute, cs)
    ensures Walk(dir, Step(absolute, cs, c)) == Enter(Walk(dir, cs), c)
  {
    var next := Step(absolute, cs, c);
    if next == cs + [c] {
      assert (cs + [c])[..|cs|] == cs;
    } else if c == ".." && cs != [] {
      var front, last := cs[..|cs| - 1], cs[|cs| - 1];
      assert Plain(last) && last != "." && last != "..";
      assert Walk(dir, cs) == Walk(dir, front) + [last];
    }
  }

  lemma WalkLast(dir: seq<string>, front: seq<string>, last: string)
    ensures Walk(dir, front + [last]) == Enter(Walk(dir, front), last)
    ensures Walk(dir, []) == dir
  {
    hide Enter;
    assert (front + [last])[..|front|] == front;
  }

  lemma {:induction false} WalkFront(dir: seq<string>, c: string, rest: seq<string>)
    ensures Walk(dir, [c] + rest) == Walk(Enter(dir, c), rest)
    decreases |rest|
  {
    hide Walk, Enter;
    if rest == [] {
      assert [c] + rest == [] + [c];
      WalkLast(dir, [], c);
      WalkLast(Enter(dir, c), [], c);
    } else {
      var front, last := rest[..|rest| - 1], rest[|rest| - 1];
      assert rest == front + [last] && [c] + rest == ([c] + front) + [last];
      WalkFront(dir, c, front);
      WalkLast(dir, [c] + front, last);
      WalkLast(Enter(dir, c), front, last);
    }
  }

  lemma {:induction false} FoldWalks(absolute: bool, dir: seq<string>, cs: seq<string>, todo: seq<string>)
    requires absolute ==> dir == []
    requires NormalStack(absolute, cs) && forall k :: 0 <= k < |todo| ==> todo[k] == "" || Plain(todo[k])
    ensures Walk(dir, Fold(absolute, cs, todo)) == Walk(Walk(dir, cs), todo)
    decreases |todo|
  {
    if todo != [] {
      var c, rest := todo[0], todo[1..];
      assert todo == [c] + rest;
      StepKeeps(absolute, cs, c);
      StepWalks(absolute, dir, cs, c);
      FoldWalks(absolute, dir, Step(absolute, cs, c), rest);
      WalkFront(Walk(dir, cs), c, rest);
    }
  }

  /** Normalising keeps the meaning of a path: from every directory it leads to the same
      place (in a tree without symbolic links). */
  lemma SamePlace(p: string, dir: seq<string>)
    ensures Place(Norm(p), dir) == Place(p, dir)
  {
    if p == "" {
      FindIs(".", 0, 1);
      FindIs("", 0, 0);
      assert Split(".", 0) == ["."] && Split("", 0) == [""];
      WalkFront(dir, ".", []);
      WalkFront(dir, "", []);
      assert ["."] + [] == ["."] && [""] + [] == [""];
    } else {
      var slashes := Slashes(p);
      var cs := Fold(slashes > 0, [], Split(p, 0));
      var from := if slashes > 0 then [] else dir;
      SplitPlain(p, 0);
      FoldKeeps(slashes > 0, [], Split(p, 0));
      FoldWalks(slashes > 0, from, [], Split(p, 0));
      RenderSlashes(slashes, cs);
      RenderWalks(slashes, cs, from);
    }
  }

  lemma RenderWalks(slashes: nat, cs: seq<string>, dir: seq<string>)
    requires slashes <= 2 && NormalStack(slashes > 0, cs) && (slashes > 0 ==> dir == [])
    ensures Walk(dir, Split(Render(slashes, cs), 0)) == Walk(dir, cs)
  {
    var out := Render(slashes, cs);
    RenderFolds(slashes, cs);
    SplitPlain(out, 0);
    FoldWalks(slashes > 0, dir, [], Split(out, 0));
  }

  // ---- one normal form per meaning ------------------------------------------------------------------------------

  /** A directory none of whose names can be a component. */
  function Marked(n: nat): seq<string> { seq(n, _ => [SLASH]) }

  function Ups(cs: seq<string>): (k: nat)
    ensures k <= |cs| && (forall j :: 0 <= j < k ==> cs[j] == "..") && (k < |cs| ==> cs[k] != "..")
  {
    if cs == [] || cs[0] != ".." then 0
    else
      var r := Ups(cs[1..]);
      assert forall j :: 0 < j < r + 1 ==> cs[j] == cs[1..][j - 1];
      assert r + 1 < |cs| ==> cs[r + 1] == cs[1..][r];
      r + 1
  }

  /** A normal stack goes up, then down. */
  lemma {:induction false} WalkNormal(absolute: bool, n: nat, cs: seq<string>, k: nat)
    requires NormalStack(absolute, cs) && k <= |cs| && k <= n
    requires (forall j :: 0 <= j < k ==> cs[j] == "..") && forall j :: k <= j < |cs| ==> cs[j] != ".."
    ensures Walk(Marked(n), cs) == Marked(n - k) + cs[k..]
    decreases |cs|
  {
    if cs == [] {
      assert Marked(n) + [] == Marked(n);
    } else {
      var front, last := cs[..|cs| - 1], cs[|cs| - 1];
      if k == |cs| {
        WalkNormal(absolute, n, front, k - 1);
        assert front[k - 1..] == [] && cs[k..] == [];
        assert Marked(n - k + 1)[..n - k] == Marked(n - k);
        assert Marked(n - k + 1) + [] == Marked(n - k + 1) && Marked(n - k) + [] == Marked(n - k);
      } else {
        assert Plain(last) && last != "." && last != "..";
        WalkNormal(absolute, n, front, k);
        assert cs[k..] == front[k..] + [last];
      }
    }
  }

  function Marks(s: seq<string>): nat { if s == [] || s[0] != [SLASH] then 0 else 1 + Marks(s[1..]) }

  lemma {:induction false} MarksAre(a: nat, x: seq<string>)
    requires forall c <- x :: c != [SLASH]
    ensures Marks(Marked(a) + x) == a && (Marked(a) + x)[a..] == x
  {
    if a == 0 {
      assert Marked(a) + x == x && (x != [] ==> x[0] in x);
    } else {
      assert (Marked(a) + x)[1..] == Marked(a - 1) + x;
      MarksAre(a - 1, x);
    }
  }

  lemma UpThenDown(absolute: bool, cs: seq<string>)
    requires NormalStack(absolute, cs)
    ensures var k := Ups(cs);
            && (forall j :: k <= j < |cs| ==> cs[j] != "..") && (forall c <- cs[k..] :: c != [SLASH])
            && cs[..k] == seq(k, _ => "..") && (absolute ==> k == 0)
  {
    var k := Ups(cs);
    forall c <- cs[k..] ensures c != [SLASH] {
      var j :| 0 <= j < |cs[k..]| && cs[k..][j] == c;
      assert Plain(cs[k + j]);
    }
  }

  lemma StacksAgree(absolute: bool, cs: seq<string>, ds: seq<string>, n: nat)
    requires NormalStack(absolute, cs) && NormalStack(absolute, ds) && n == if absolute then 0 else |cs| + |ds|
    requires Walk(Marked(n), cs) == Walk(Marked(n), ds)
    ensures cs == ds
  {
    hide Walk, Plain, NormalStack, Marked, Ups, Marks;
    var j, k := Ups(cs), Ups(ds);
    UpThenDown(absolute, cs);
    UpThenDown(absolute, ds);
    WalkNormal(absolute, n, cs, j);
    WalkNormal(absolute, n, ds, k);
    MarksAre(n - j, cs[j..]);
    MarksAre(n - k, ds[k..]);
    SameParts(cs, ds, j);
  }

  lemma SameParts(a: seq<string>, b: seq<string>, k: nat)
    requires k <= |a| && k <= |b| && a[..k] == b[..k] && a[k..] == b[k..]
    ensures a == b
  {
    assert a == a[..k] + a[k..] && b == b[..k] + b[k..];
  }

  /** The components of the normal form, and where they lead. */
  lemma NormParts(p: string) returns (cs: seq<string>)
    ensures NormalStack(Slashes(p) > 0, cs) && Norm(p) == Render(Slashes(p), cs)
    ensures forall dir :: (Slashes(p) > 0 ==> dir == []) ==> Place(p, dir) == Walk(dir, cs)
  {
    if p == "" {
      cs := [];
      assert Render(0, []) == ".";
      FindIs("", 0, 0);
      assert Split("", 0) == [""];
      forall dir ensures Place(p, dir) == Walk(dir, cs) { WalkFront(dir, "", []); assert [""] + [] == [""]; }
    } else {
      cs := Fold(Slashes(p) > 0, [], Split(p, 0));
      SplitPlain(p, 0);
      FoldKeeps(Slashes(p) > 0, [], Split(p, 0));
      forall dir | Slashes(p) > 0 ==> dir == [] ensures Place(p, dir) == Walk(dir, cs) {
        FoldWalks(Slashes(p) > 0, dir, [], Split(p, 0));
      }
    }
  }

  /** Two paths have the same normal form exactly when they are rooted alike and lead to the
      same place from every directory. */
  lemma SameNorm(p: string, q: string)
    ensures Norm(p) == Norm(q) <==> Slashes(p) == Slashes(q) && forall dir :: Place(p, dir) == Place(q, dir)
  {
    hide Norm, Place, Slashes, Leading, Walk, Render, NormalStack;
    if Norm(p) == Norm(q) {
      LeadingSlashes(p);
      LeadingSlashes(q);
      SlashesCount(p);
      SlashesCount(q);
      forall dir ensures Place(p, dir) == Place(q, dir) {
        SamePlace(p, dir);
        SamePlace(q, dir);
      }
    }
    if Slashes(p) == Slashes(q) && forall dir :: Place(p, dir) == Place(q, dir) {
      var cs := NormParts(p);
      var ds := NormParts(q);
      var n := if Slashes(p) > 0 then 0 else |cs| + |ds|;
      assert Slashes(p) > 0 ==> Marked(n) == [];
      assert Place(p, Marked(n)) == Place(q, Marked(n));
      StacksAgree(Slashes(p) > 0, cs, ds, n);
    }
  }

  // ---- the normaliser as it runs ----------------------------------------------------------------------------------

  /** normPath: scan component by component, pushing and popping, then join. */
  method NormPath(path: string) returns (out: string)
    ensures out == Norm(path)
  {
    if path == "" { return "."; }
    var initial := 0;
    if path[0] == SLASH {
      initial := 1;
      if |path| >= 2 && path[1] == SLASH && !(|path| >= 3 && path[2] == SLASH) { initial := 2; }
    }
    var comps := Components(path, initial > 0);
    out := JoinAll(initial, comps);
    if out == "" { return "."; }
  }

  method JoinAll(initial: nat, comps: seq<string>) returns (out: string)
    ensures out == Roots(initial) + Join(comps)
  {
    out := Roots(initial);
    ghost var goal := Roots(initial) + Join(comps);
    assert comps[0..] == comps;
    for k := 0 to |comps|
      invariant out + (if 0 < k < |comps| then [SLASH] else "") + Join(comps[k..]) == goal
    {
      JoinStep(comps, k);
      if k > 0 { out := out + [SLASH]; }
      out := out + comps[k];
    }
  }

  lemma JoinStep(comps: seq<string>, k: nat)
    requires k < |comps|
    ensures Join(comps[k..]) == comps[k] + (if k + 1 < |comps| then [SLASH] else "") + Join(comps[k + 1..])
  {
    assert comps[k..][0] == comps[k] && comps[k..][1..] == comps[k + 1..];
  }

  method Components(path: string, absolute: bool) returns (comps: seq<string>)
    ensures comps == Fold(absolute, [], Split(path, 0))
  {
    hide Fold, Split;
    comps := [];
    var at := 0;
    ghost var goal := Fold(absolute, [], Split(path, 0));
    while true
      invariant 0 <= at <= |path| && Fold(absolute, comps, Split(path, at)) == goal
      decreases |path| - at
    {
      var slash := Find(path, at);
      var comp := path[at..slash];
      SplitFolds(path, at, absolute, comps);
      if comp != "" && comp != "." {
        if comp != ".." || (!absolute && comps == []) || (comps != [] && comps[|comps| - 1] == "..") {
          comps := comps + [comp];
        } else if comps != [] {
          comps := comps[..|comps| - 1];
        }
      }
      if slash == |path| { return; }
      at := slash + 1;
    }
  }

  lemma SplitFolds(p: string, at: nat, absolute: bool, cs: seq<string>)
    requires at <= |p|
    ensures var k := Find(p, at);
            var next := Step(absolute, cs, p[at..k]);
            Fold(absolute, cs, Split(p, at)) == if k == |p| then next else Fold(absolute, next, Split(p, k + 1))
  {
    hide Step, Fold;
    var k := Find(p, at);
    assert p[at..|p|] == p[at..];
    var rest := if k == |p| then [] else Split(p, k + 1);
    assert Split(p, at) == [p[at..k]] + rest;
    FoldOne(absolute, cs, p[at..k], rest);
    FoldDone(absolute, Step(absolute, cs, p[at..k]));
  }

  lemma FoldDone(absolute: bool, cs: seq<string>)
    ensures Fold(absolute, cs, []) == cs
  {}
}
