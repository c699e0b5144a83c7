/** Lexical path normalisation (posixpath.normpath) as a walk over components,
    for any alphabet with a slash and a dot: text and code points alike. */
module Paths {
  import opened Text

  // ------------------------------------------------------------------ the walk

  /** One round of normpath's loop: the stack of components kept so far. */
  function Step<T(==)>(stack: seq<seq<T>>, comp: seq<T>, rooted: bool, dot: T): seq<seq<T>> {
    if comp == [] || comp == [dot] then stack
    else if comp != [dot, dot] || (!rooted && stack == []) || (stack != [] && stack[|stack| - 1] == [dot, dot]) then
      stack + [comp]
    else if stack != [] then stack[..|stack| - 1]
    else stack
  }

  function Walk<T(==)>(stack: seq<seq<T>>, comps: seq<seq<T>>, rooted: bool, dot: T): seq<seq<T>>
    decreases comps
  {
    if comps == [] then stack else Walk(Step(stack, comps[0], rooted, dot), comps[1..], rooted, dot)
  }

  /** POSIX keeps one or two leading slashes; three or more count as one. */
  function LeadingSlashes<T(==)>(path: seq<T>, slash: T): nat {
    if [slash, slash] <= path && !([slash, slash, slash] <= path) then 2
    else if [slash] <= path then 1
    else 0
  }

  function Slashes<T>(n: nat, slash: T): seq<T> { seq(n, _ => slash) }

  function Normpath<T(==)>(path: seq<T>, slash: T, dot: T): seq<T> {
    if path == [] then [dot]
    else
      var n := LeadingSlashes(path, slash);
      var text := Slashes(n, slash) + Join(Walk([], Split(path, slash), n > 0, dot), [slash]);
      if text == [] then [dot] else text
  }

  // ----------------------------------------------------------- proper components

  predicate IsProper<T(==)>(comp: seq<T>, slash: T, dot: T) {
    comp != [] && comp != [dot] && comp != [dot, dot] && slash !in comp
  }

  ghost predicate AllProper<T>(comps: seq<seq<T>>, slash: T, dot: T) {
    forall i :: 0 <= i < |comps| ==> IsProper(comps[i], slash, dot)
  }

  ghost predicate SlashFree<T>(comps: seq<seq<T>>, slash: T) {
    forall i :: 0 <= i < |comps| ==> slash !in comps[i]
  }

  lemma {:induction false} WalkProper<T>(stack: seq<seq<T>>, comps: seq<seq<T>>, rooted: bool, slash: T, dot: T)
    requires AllProper(comps, slash, dot)
    ensures Walk(stack, comps, rooted, dot) == stack + comps
    decreases comps
  {
    if comps == [] {
      assert stack + comps == stack;
    } else {
      assert IsProper(comps[0], slash, dot);
      WalkProper(stack + [comps[0]], comps[1..], rooted, slash, dot);
      assert stack + [comps[0]] + comps[1..] == stack + comps;
    }
  }

  lemma {:induction false} WalkConcat<T>(stack: seq<seq<T>>, xs: seq<seq<T>>, ys: seq<seq<T>>, rooted: bool, dot: T)
    ensures Walk(stack, xs + ys, rooted, dot) == Walk(Walk(stack, xs, rooted, dot), ys, rooted, dot)
    decreases xs
  {
    if xs == [] {
      assert xs + ys == ys;
    } else {
      assert (xs + ys)[0] == xs[0] && (xs + ys)[1..] == xs[1..] + ys;
      WalkConcat(Step(stack, xs[0], rooted, dot), xs[1..], ys, rooted, dot);
    }
  }

  /** From an absolute start the walk only ever holds proper components. */
  lemma {:induction false} RootedWalkIsProper<T>(stack: seq<seq<T>>, comps: seq<seq<T>>, slash: T, dot: T)
    requires AllProper(stack, slash, dot) && SlashFree(comps, slash)
    ensures AllProper(Walk(stack, comps, true, dot), slash, dot)
    decreases comps
  {
    if comps != [] {
      assert slash !in comps[0];
      RootedStepIsProper(stack, comps[0], slash, dot);
      assert SlashFree(comps[1..], slash);
      RootedWalkIsProper(Step(stack, comps[0], true, dot), comps[1..], slash, dot);
    }
  }

  lemma RootedStepIsProper<T>(stack: seq<seq<T>>, comp: seq<T>, slash: T, dot: T)
    requires AllProper(stack, slash, dot) && slash !in comp
    ensures AllProper(Step(stack, comp, true, dot), slash, dot)
  {
    if stack != [] {
      assert IsProper(stack[|stack| - 1], slash, dot);
    }
  }

  // ------------------------------------------------- normalised absolute paths

  lemma SplitSlashes<T>(comps: seq<seq<T>>, n: nat, slash: T)
    requires comps != [] && SlashFree(comps, slash) && 1 <= n <= 2
    ensures Split(Slashes(n, slash) + Join(comps, [slash]), slash) == (if n == 1 then [[]] else [[], []]) + comps
  {
    hide Split, Join, SlashFree;
    var text := Join(comps, [slash]);
    SplitOfJoin2(comps, slash);
    SplitLeadingSlash(text, slash);
    SplitLeadingSlash([slash] + text, slash);
    assert Slashes(1, slash) == [slash] && Slashes(2, slash) == [slash] + [slash];
    assert [slash] + [slash] + text == [slash] + ([slash] + text);
    assert [[]] + ([[]] + comps) == [[], []] + comps;
  }

  lemma SplitLeadingSlash<T>(text: seq<T>, slash: T)
    ensures Split([slash] + text, slash) == [[]] + Split(text, slash)
  {
    assert ([slash] + text)[1..] == text;
  }

  lemma SkipEmpty<T>(comps: seq<seq<T>>, n: nat, rooted: bool, dot: T)
    requires 1 <= n <= 2
    ensures Walk([], (if n == 1 then [[]] else [[], []]) + comps, rooted, dot) == Walk([], comps, rooted, dot)
  {
    var pre: seq<seq<T>> := if n == 1 then [[]] else [[], []];
    WalkConcat([], pre, comps, rooted, dot);
    assert pre[1..] == if n == 1 then [] else [[]];
    assert n == 2 ==> pre[1..][1..] == [];
  }

  lemma CountLeading<T>(comps: seq<seq<T>>, n: nat, slash: T, dot: T)
    requires comps != [] && AllProper(comps, slash, dot) && n <= 2
    ensures LeadingSlashes(Slashes(n, slash) + Join(comps, [slash]), slash) == n
    ensures Join(comps, [slash]) != [] && Join(comps, [slash])[0] != slash
  {
    var text := Join(comps, [slash]);
    assert IsProper(comps[0], slash, dot);
    assert text[0] == comps[0][0] && comps[0][0] in comps[0];
    var p := Slashes(n, slash) + text;
    assert p[n] == text[0];
  }

  /** Proper components behind at most two slashes are a fixed point of normpath. */
  lemma ProperIsNormal<T>(comps: seq<seq<T>>, n: nat, slash: T, dot: T)
    requires comps != [] && AllProper(comps, slash, dot) && n <= 2
    ensures var p := Slashes(n, slash) + Join(comps, [slash]); Normpath(p, slash, dot) == p
  {
    var p := Slashes(n, slash) + Join(comps, [slash]);
    CountLeading(comps, n, slash, dot);
    assert SlashFree(comps, slash) by {
      assert forall i :: 0 <= i < |comps| ==> IsProper(comps[i], slash, dot);
    }
    WalkProper([], comps, n > 0, slash, dot);
    assert [] + comps == comps;
    hide Walk, Step, Join, Split, AllProper, SlashFree, LeadingSlashes;
    if n == 0 {
      assert p == Join(comps, [slash]);
      SplitOfJoin2(comps, slash);
    } else {
      SplitSlashes(comps, n, slash);
      SkipEmpty(comps, n, true, dot);
    }
  }

  lemma SplitOfJoin2<T>(comps: seq<seq<T>>, slash: T)
    requires comps != [] && SlashFree(comps, slash)
    ensures Split(Join(comps, [slash]), slash) == comps
  {
    SplitOfJoin(comps, slash);
  }

  ghost predicate IsNormalForm<T(!new)>(p: seq<T>, slash: T, dot: T) {
    exists comps: seq<seq<T>>, n: nat ::
      1 <= n <= 2 && AllProper(comps, slash, dot) && p == Slashes(n, slash) + Join(comps, [slash])
  }

  /** An absolute path is its own normalisation exactly when it is one or two
      slashes followed by proper components. */
  lemma NormalAbsolute<T(!new)>(p: seq<T>, slash: T, dot: T)
    ensures [slash] <= p && Normpath(p, slash, dot) == p <==> IsNormalForm(p, slash, dot)
  {
    hide Walk, Split, Join, AllProper, SlashFree;
    if [slash] <= p && Normpath(p, slash, dot) == p {
      assert SlashFree(Split(p, slash), slash) by { SplitIsSlashFree(p, slash); }
      NoComponents(slash, dot);
      RootedWalkIsProper([], Split(p, slash), slash, dot);
    }
    if IsNormalForm(p, slash, dot) {
      var comps: seq<seq<T>>, n: nat :|
        1 <= n <= 2 && AllProper(comps, slash, dot) && p == Slashes(n, slash) + Join(comps, [slash]);
      assert p[0] == slash;
      if comps == [] {
        OnlySlashes(n, slash, dot);
      } else {
        ProperIsNormal(comps, n, slash, dot);
      }
    }
  }

  lemma NoComponents<T>(slash: T, dot: T)
    ensures AllProper([], slash, dot) && Join([], [slash]) == []
  {
  }

  lemma SplitIsSlashFree<T>(p: seq<T>, slash: T)
    ensures SlashFree(Split(p, slash), slash)
  {
  }

  lemma OnlySlashes<T>(n: nat, slash: T, dot: T)
    requires 1 <= n <= 2
    ensures Normpath(Slashes(n, slash) + Join([], [slash]), slash, dot) == Slashes(n, slash) + Join([], [slash])
  {
    var p := Slashes(n, slash);
    assert p + Join([], [slash]) == p;
    assert p == if n == 1 then [slash] else [slash, slash];
    assert Split([], slash) == [[]];
    assert [slash][1..] == [] && [slash, slash][1..] == [slash];
    assert Split([slash], slash) == [[]] + [[]] == [[], []];
    assert Split([slash, slash], slash) == [[]] + [[], []] == [[], [], []];
    var e0: seq<seq<T>> := [];
    var e1: seq<seq<T>>, e2: seq<seq<T>>, e3: seq<seq<T>> := [[]], [[], []], [[], [], []];
    assert e1[1..] == e0 && e2[1..] == e1 && e3[1..] == e2;
    assert Walk(e0, e0, true, dot) == e0;
    assert Walk(e0, e1, true, dot) == Walk(e0, e2, true, dot) == Walk(e0, e3, true, dot) == e0;
  }
}
