/** The kernel resolves modules.alias with an anchored glob in which '*' matches
    any string. This module proves how the field-wise matcher relates to it. */
module AliasGlob {
  import opened Text
  import opened ModulesAlias

  /** Anchored glob with '*' as its only metacharacter. */
  predicate Glob(p: string, s: string)
    decreases |p| + |s|
  {
    if p == [] then s == []
    else if p[0] == '*' then Glob(p[1..], s) || (s != [] && Glob(p, s[1..]))
    else s != [] && s[0] == p[0] && Glob(p[1..], s[1..])
  }

  lemma {:induction false} GlobLiteral(lit: string, p: string, s: string)
    requires '*' !in lit
    ensures Glob(lit + p, s) <==> lit <= s && Glob(p, s[|lit|..])
  {
    if lit == [] {
      assert lit + p == p && s[0..] == s;
    } else {
      assert (lit + p)[0] == lit[0] && (lit + p)[1..] == lit[1..] + p;
      if s != [] && s[0] == lit[0] {
        GlobLiteral(lit[1..], p, s[1..]);
        assert lit == [lit[0]] + lit[1..] && s == [s[0]] + s[1..];
        assert lit[1..] <= s[1..] <==> lit <= s;
        if lit <= s {
          assert s[1..][|lit[1..]|..] == s[|lit|..];
        }
      }
    }
  }

  lemma {:induction false} GlobStar(p: string, s: string) returns (k: nat)
    requires Glob("*" + p, s)
    ensures k <= |s| && Glob(p, s[k..])
    decreases |s|
  {
    assert ("*" + p)[1..] == p;
    if Glob(p, s) {
      k := 0;
      assert s[0..] == s;
    } else {
      var k' := GlobStar(p, s[1..]);
      k := k' + 1;
      assert s[1..][k'..] == s[k..];
    }
  }

  lemma {:induction false} GlobStarFrom(p: string, s: string, k: nat)
    requires k <= |s| && Glob(p, s[k..])
    ensures Glob("*" + p, s)
    decreases k
  {
    assert ("*" + p)[1..] == p;
    if k == 0 {
      assert s[0..] == s;
    } else {
      assert s[1..][k - 1..] == s[k..];
      GlobStarFrom(p, s[1..], k - 1);
    }
  }

  // ------------------------------------------------- tags cannot be relocated

  /** A tag is a proper suffix of a later tag only for p inside dp and ip. */
  lemma TagSuffix(i: nat, j: nat, k: nat)
    requires i <= j < FIELD_COUNT && k <= |Tag(j)| && Tag(i) == Tag(j)[k..]
    ensures (i == j && k == 0) || (i == 1 && (j == 5 || j == 8) && Width(i) == 4 && Width(j) == 2)
  {
  }

  lemma RenderSplit(i: nat, vs: seq<string>, k: nat)
    requires AreConcrete(i, vs) && vs != [] && |Tag(i)| + |vs[0]| <= k <= |Render(i, vs)|
    ensures |Render(i, vs)| == |Tag(i)| + |vs[0]| + |Render(i + 1, vs[1..])|
    ensures Render(i, vs)[k..] == Render(i + 1, vs[1..])[k - |Tag(i)| - |vs[0]|..]
  {
    hide Tag;
    assert Render(i, vs) == (Tag(i) + vs[0]) + Render(i + 1, vs[1..]);
  }

  lemma RenderStart(i: nat, vs: seq<string>)
    requires AreValues(i, vs) || AreConcrete(i, vs)
    ensures Render(i, vs) == [] <==> vs == []
    ensures vs != [] ==> IsLowerLetter(Render(i, vs)[0])
  {
  }

  /** A tag followed by a full-width value occurs in a rendering of fields j, j+1,
      ... (j not before i) only as field i at the very start. */
  lemma {:induction false} TagIsPinned(i: nat, v: string, j: nat, ms: seq<string>, k: nat)
    requires i <= j && i < FIELD_COUNT && IsConcrete(i, v) && AreConcrete(j, ms) && k <= |Render(j, ms)|
    ensures Tag(i) + v <= Render(j, ms)[k..] ==> i == j && k == 0
    decreases |ms|
  {
    hide *;
    assert |Tag(i)| >= 1;
    if ms == [] {
      RenderStartConcrete(j, ms);
    } else if |Tag(j)| + |ms[0]| <= k {
      TailConcrete(j, ms);
      RenderSplit(j, ms, k);
      TagIsPinned(i, v, j + 1, ms[1..], k - |Tag(j)| - |ms[0]|);
    } else if |Tag(j)| <= k {
      ValueIsNotTag(i, v, j, ms, k);
    } else {
      TagInTag(i, v, j, ms, k);
    }
  }

  lemma RenderStartConcrete(j: nat, ms: seq<string>)
    requires AreConcrete(j, ms)
    ensures ms == [] ==> Render(j, ms) == []
    ensures ms != [] ==> |Render(j, ms)| > 0
  {
  }

  lemma TailConcrete(i: nat, vs: seq<string>)
    requires AreConcrete(i, vs) && vs != []
    ensures i < FIELD_COUNT && IsConcrete(i, vs[0]) && AreConcrete(i + 1, vs[1..])
  {
  }

  lemma ValueIsNotTag(i: nat, v: string, j: nat, ms: seq<string>, k: nat)
    requires i < FIELD_COUNT && AreConcrete(j, ms) && ms != []
    requires |Tag(j)| <= k < |Tag(j)| + |ms[0]| && k <= |Render(j, ms)|
    ensures !(Tag(i) + v <= Render(j, ms)[k..])
  {
    assert Render(j, ms)[k] == ms[0][k - |Tag(j)|];
    assert IsUpperHex(Render(j, ms)[k]);
    assert (Tag(i) + v)[0] == Tag(i)[0];
  }

  lemma TagInTag(i: nat, v: string, j: nat, ms: seq<string>, k: nat)
    requires i <= j && IsConcrete(i, v) && AreConcrete(j, ms) && ms != [] && k < |Tag(j)|
    ensures k <= |Render(j, ms)| && (Tag(i) + v <= Render(j, ms)[k..] ==> i == j && k == 0)
  {
    hide *;
    var t, tag := Tag(j)[k..], Tag(i);
    var m, rest := ms[0], Render(j + 1, ms[1..]);
    TailConcrete(j, ms);
    RenderFrom(j, ms, k);
    ConcreteFacts(i, v);
    ConcreteFacts(j, m);
    if tag + v <= Render(j, ms)[k..] {
      LetterSuffix(Tag(j), k);
      SameLetters(tag, v, t, m + rest);
      TagSuffix(i, j, k);
      if i != j {
        RenderStart(j + 1, ms[1..]);
        ShortRun(v, m, rest);
      }
    }
  }

  lemma LetterSuffix(s: string, k: nat)
    requires AllLowerLetters(s) && k <= |s|
    ensures AllLowerLetters(s[k..])
  {
  }

  lemma ConcreteFacts(i: nat, v: string)
    requires IsConcrete(i, v)
    ensures |v| == Width(i) >= 2 && AllUpperHex(v) && IsUpperHex(v[0])
  {
  }

  lemma RenderFrom(i: nat, vs: seq<string>, k: nat)
    requires AreConcrete(i, vs) && vs != [] && k <= |Tag(i)|
    ensures k <= |Render(i, vs)| && Render(i, vs)[k..] == Tag(i)[k..] + (vs[0] + Render(i + 1, vs[1..]))
  {
    hide Tag;
    assert Render(i, vs) == Tag(i) + (vs[0] + Render(i + 1, vs[1..]));
  }

  /** Letter runs ending in a hex digit can only agree when they are equal. */
  lemma SameLetters(a: string, v: string, b: string, w: string)
    requires AllLowerLetters(a) && AllLowerLetters(b)
    requires v != [] && IsUpperHex(v[0]) && w != [] && IsUpperHex(w[0])
    requires a + v <= b + w
    ensures a == b && v <= w
  {
    var x, y := a + v, b + w;
    assert x[|a|] == v[0] && y[|b|] == w[0];
    assert x[|a|] == y[|a|];
    assert forall n :: 0 <= n < |a| ==> y[n] == a[n];
    assert forall n :: 0 <= n < |b| ==> y[n] == b[n];
    assert |a| >= |b|;
    assert |b| < |x| ==> x[|b|] == y[|b|];
    assert y[..|a|] == a;
    assert y[|a|..|x|] == v;
  }

  /** Four hex digits do not fit where two are followed by a letter or nothing. */
  lemma ShortRun(v: string, w: string, rest: string)
    requires AllUpperHex(v) && |v| == 4 && |w| == 2 && (rest == [] || IsLowerLetter(rest[0]))
    ensures !(v <= w + rest)
  {
    if rest != [] {
      assert (w + rest)[2] == rest[0];
    }
  }

  // ------------------------------------------------- the glob pins every field

  lemma FieldsMatchCons(ps: seq<string>, ms: seq<string>)
    requires ps != [] && ms != []
    ensures FieldsMatch(ps, ms) <==> (ps[0] == "*" || ms[0] == ps[0]) && FieldsMatch(ps[1..], ms[1..])
  {
    var p1, m1 := ps[1..], ms[1..];
    assert forall k :: 0 <= k < |p1| ==> FieldMatches(p1[k], m1, k) == FieldMatches(ps[k + 1], ms, k + 1);
    if FieldsMatch(p1, m1) && FieldMatches(ps[0], ms, 0) {
      forall k | 0 <= k < |ps|
        ensures FieldMatches(ps[k], ms, k)
      {
        if k > 0 {
          assert FieldMatches(p1[k - 1], m1, k - 1);
        }
      }
    }
  }

  lemma FieldsMatchNil(ps: seq<string>, ms: seq<string>)
    requires ps == []
    ensures FieldsMatch(ps, ms)
  {
  }

  lemma HexZone(i: nat, ms: seq<string>, k: nat)
    requires AreConcrete(i, ms) && ms != [] && |Tag(i)| <= k < |Tag(i)| + |ms[0]|
    ensures k < |Render(i, ms)| && !IsLowerLetter(Render(i, ms)[k])
  {
    assert Render(i, ms)[k] == ms[0][k - |Tag(i)|];
  }

  lemma RenderValues(i: nat, ps: seq<string>)
    requires AreValues(i, ps) && ps != []
    ensures i < FIELD_COUNT && IsFieldValue(i, ps[0]) && AreValues(i + 1, ps[1..])
    ensures Render(i, ps) == Tag(i) + (ps[0] + Render(i + 1, ps[1..]))
    ensures '*' !in Tag(i) && |Tag(i)| >= 1
    ensures IsConcrete(i, ps[0]) ==> '*' !in Tag(i) + ps[0] && ps[0] != "*"
  {
  }

  /** Past a starred field, the rest of the pattern matches at or behind the
      start of the next field. */
  lemma StarStep(i: nat, ps: seq<string>, ms: seq<string>, k: nat) returns (k': nat)
    requires AreValues(i, ps) && ps != [] && ps[0] == "*" && AreConcrete(i, ms) && k <= |Render(i, ms)|
    requires Glob(Render(i, ps), Render(i, ms)[k..])
    ensures ms != [] && i < FIELD_COUNT
    ensures |ps| > 1 ==> k' <= |Render(i + 1, ms[1..])|
    ensures |ps| > 1 ==> Glob(Render(i + 1, ps[1..]), Render(i + 1, ms[1..])[k'..])
  {
    hide *;
    k' := 0;
    var tag, p', r := Tag(i), Render(i + 1, ps[1..]), Render(i, ms);
    RenderValues(i, ps);
    GlobLiteral(tag, "*" + p', r[k..]);
    RenderStartConcrete(i, ms);
    var q := GlobStar(p', r[k..][|tag|..]);
    assert r[k..][|tag|..][q..] == r[k + |tag| + q..];
    if |ps| > 1 {
      RenderStart(i + 1, ps[1..]);
      if k + |tag| + q < |tag| + |ms[0]| {
        HexZone(i, ms, k + |tag| + q);
      }
      RenderSplit(i, ms, k + |tag| + q);
      k' := k + q - |ms[0]|;
    }
  }

  /** A concrete field only matches the modalias field of the same tag. */
  lemma ConcreteStep(i: nat, ps: seq<string>, ms: seq<string>, k: nat)
    requires AreValues(i, ps) && ps != [] && IsConcrete(i, ps[0]) && AreConcrete(i, ms) && k <= |Render(i, ms)|
    requires Glob(Render(i, ps), Render(i, ms)[k..])
    ensures k == 0 && ms != [] && ms[0] == ps[0] && i < FIELD_COUNT
    ensures Glob(Render(i + 1, ps[1..]), Render(i + 1, ms[1..]))
  {
    hide *;
    var tag, p', r := Tag(i), Render(i + 1, ps[1..]), Render(i, ms);
    RenderValues(i, ps);
    assert tag + (ps[0] + p') == (tag + ps[0]) + p';
    GlobLiteral(tag + ps[0], p', r[k..]);
    TagIsPinned(i, ps[0], i, ms, k);
    assert r[0..] == r;
    RenderStartConcrete(i, ms);
    assert ms != [];
    TailConcrete(i, ms);
    ConcreteFacts(i, ps[0]);
    ConcreteFacts(i, ms[0]);
    RenderFrom(i, ms, 0);
    SamePrefix(tag, ps[0], ms[0], Render(i + 1, ms[1..]), r);
  }

  lemma SamePrefix(tag: string, v: string, w: string, rest: string, r: string)
    requires tag + v <= r && r == tag[0..] + (w + rest) && |v| == |w|
    ensures v == w && r[|tag + v|..] == rest
  {
    assert v == r[|tag|..|tag| + |v|];
    assert w == r[|tag|..|tag| + |w|];
  }

  /** The shape of an accepted pair of lengths: the same fields, or a pattern
      whose final star swallows the fields it does not name. */
  predicate LengthsFit(ps: seq<string>, ms: seq<string>) {
    |ps| == |ms| || (0 < |ps| < |ms| && ps[|ps| - 1] == "*")
  }

  /** No star can slide a tag: wherever the glob starts at or behind field i, it
      accepts only when the fields agree one by one. */
  lemma {:induction false} GlobPins(i: nat, ps: seq<string>, ms: seq<string>, k: nat)
    requires AreValues(i, ps) && AreConcrete(i, ms) && k <= |Render(i, ms)|
    requires Glob(Render(i, ps), Render(i, ms)[k..])
    ensures FieldsMatch(ps, ms) && |ps| <= |ms|
    ensures ps != [] || k == 0 ==> LengthsFit(ps, ms)
    decreases |ps|
  {
    hide *;
    if ps == [] {
      PinsNil(i, ps, ms, k);
    } else {
      RenderValues(i, ps);
      FieldKinds(i, ps[0]);
      var k' := 0;
      if ps[0] == "*" {
        k' := StarStep(i, ps, ms, k);
      } else {
        ConcreteStep(i, ps, ms, k);
        FromStart(Render(i + 1, ms[1..]));
      }
      TailConcrete(i, ms);
      if |ps| > 1 || ps[0] != "*" {
        GlobPins(i + 1, ps[1..], ms[1..], k');
      } else {
        FieldsMatchNil(ps[1..], ms[1..]);
      }
      FieldsMatchCons(ps, ms);
      LengthsFitCons(ps, ms);
    }
  }

  lemma FieldKinds(i: nat, v: string)
    requires IsFieldValue(i, v)
    ensures v == "*" || IsConcrete(i, v)
  {
  }

  lemma FromStart(s: string)
    ensures 0 <= |s| && s[0..] == s
  {
  }

  lemma PinsNil(i: nat, ps: seq<string>, ms: seq<string>, k: nat)
    requires ps == [] && i <= FIELD_COUNT && AreConcrete(i, ms) && k <= |Render(i, ms)|
    requires Glob(Render(i, ps), Render(i, ms)[k..])
    ensures FieldsMatch(ps, ms) && (k == 0 ==> LengthsFit(ps, ms))
  {
    if ms != [] {
      assert |Render(i, ms)| > 0;
    }
  }

  lemma LengthsFitCons(ps: seq<string>, ms: seq<string>)
    requires ps != [] && ms != []
    ensures |ps| == 1 && ps[0] == "*" ==> LengthsFit(ps, ms)
    ensures (|ps| > 1 || ps[0] != "*") && LengthsFit(ps[1..], ms[1..]) ==> LengthsFit(ps, ms)
  {
  }

  /** Conversely, agreeing fields of fitting lengths are accepted by the glob. */
  lemma {:induction false} AgreementGlobs(i: nat, ps: seq<string>, ms: seq<string>)
    requires AreValues(i, ps) && AreConcrete(i, ms) && FieldsMatch(ps, ms) && LengthsFit(ps, ms)
    ensures Glob(Render(i, ps), Render(i, ms))
    decreases |ps|
  {
    hide *;
    if ps == [] {
      BothEmpty(i, ps, ms);
    } else {
      RenderValues(i, ps);
      FieldKinds(i, ps[0]);
      LengthsFitTail(ps, ms);
      TailConcrete(i, ms);
      FieldsMatchCons(ps, ms);
      RenderFrom(i, ms, 0);
      var tag, p', m' := Tag(i), Render(i + 1, ps[1..]), Render(i + 1, ms[1..]);
      FromStart(tag);
      assert Render(i, ms)[0..] == Render(i, ms);
      var s := ms[0] + m';
      assert (tag + s)[|tag|..] == s;
      if |ps| == 1 && ps[0] == "*" {
        NothingLeft(i + 1, ps[1..], s);
        GlobStarFrom(p', s, |s|);
      } else {
        AgreementGlobs(i + 1, ps[1..], ms[1..]);
        assert s[|ms[0]|..] == m';
        if ps[0] == "*" {
          GlobStarFrom(p', s, |ms[0]|);
        } else {
          GlobLiteral(ps[0], p', s);
        }
      }
      GlobLiteral(tag, ps[0] + p', tag + s);
    }
  }

  lemma BothEmpty(i: nat, ps: seq<string>, ms: seq<string>)
    requires i <= FIELD_COUNT && ps == [] && AreConcrete(i, ms) && LengthsFit(ps, ms)
    ensures Glob(Render(i, ps), Render(i, ms))
  {
  }

  lemma NothingLeft(i: nat, ps: seq<string>, s: string)
    requires i <= FIELD_COUNT && ps == []
    ensures Glob(Render(i, ps), s[|s|..])
  {
  }

  lemma LengthsFitTail(ps: seq<string>, ms: seq<string>)
    requires ps != [] && LengthsFit(ps, ms)
    ensures ms != []
    ensures |ps| > 1 || ps[0] != "*" ==> LengthsFit(ps[1..], ms[1..])
  {
  }

  // ------------------------------------------------------------ at string level

  function Pattern(ps: seq<string>): string
    requires |ps| <= FIELD_COUNT
  {
    "usb:" + Render(0, ps)
  }

  lemma {:induction false} RenderedGroups(i: nat, ms: seq<string>)
    requires 3 <= i && AreConcrete(i, ms)
    ensures OptionalGroups(i, Render(i, ms))
    decreases FIELD_COUNT - i
  {
    if ms == [] {
      hide HexGroup, Tag;
      if i < FIELD_COUNT {
        RenderedGroups(i + 1, ms);
      }
    } else {
      hide Tag;
      TailConcrete(i, ms);
      RenderedGroups(i + 1, ms[1..]);
      RenderedGroup(i, ms);
    }
  }

  lemma RenderedGroup(i: nat, ms: seq<string>)
    requires AreConcrete(i, ms) && ms != []
    ensures HexGroup(Tag(i), Width(i), Render(i, ms)) == Some(Render(i + 1, ms[1..]))
  {
    hide Tag;
    var tag, v, rest := Tag(i), ms[0], Render(i + 1, ms[1..]);
    var r := Render(i, ms);
    assert r == tag + v + rest;
    assert r[|tag|..|tag| + |v|] == v && r[|tag| + |v|..] == rest;
  }

  lemma RenderedIsModalias(ms: seq<string>)
    requires AreConcrete(0, ms) && |ms| >= 3
    ensures IsModalias(Pattern(ms))
  {
    hide HexGroup, OptionalGroups, Render, AreConcrete, IsConcrete;
    var s := Pattern(ms);
    assert s[4..] == Render(0, ms);
    TailConcrete(0, ms);
    TailConcrete(1, ms[1..]);
    TailConcrete(2, ms[1..][1..]);
    RenderedGroup(0, ms);
    RenderedGroup(1, ms[1..]);
    RenderedGroup(2, ms[1..][1..]);
    RenderedGroups(3, ms[1..][1..][1..]);
  }

  lemma {:induction false} RenderEnd(i: nat, ms: seq<string>)
    requires AreConcrete(i, ms) && ms != []
    ensures var r := Render(i, ms); r != [] && IsUpperHex(r[|r| - 1])
    decreases |ms|
  {
    hide Tag;
    var r, rest := Render(i, ms), Render(i + 1, ms[1..]);
    assert r == (Tag(i) + ms[0]) + rest;
    if |ms| > 1 {
      RenderEnd(i + 1, ms[1..]);
      assert r[|r| - 1] == rest[|rest| - 1];
    } else {
      assert r[|r| - 1] == ms[0][|ms[0]| - 1];
    }
  }

  lemma SanitizeRendered(ms: seq<string>)
    requires AreConcrete(0, ms) && |ms| >= 3
    ensures SanitizeModalias(Pattern(ms)) == Some(Upper(Pattern(ms)))
  {
    hide IsModalias, Upper, Render, AreConcrete, Strip;
    RenderedIsModalias(ms);
    RenderEnd(0, ms);
    var s := Pattern(ms);
    assert s[|s| - 1] == Render(0, ms)[|Render(0, ms)| - 1];
    StripIdentity(s, IsSpace);
  }

  lemma {:induction false} ConcreteAreValues(i: nat, ms: seq<string>)
    requires AreConcrete(i, ms)
    ensures AreValues(i, ms)
    decreases |ms|
  {
    if ms != [] {
      ConcreteAreValues(i + 1, ms[1..]);
    }
  }

  lemma DecodeRendered(ps: seq<string>)
    requires AreValues(0, ps) && ps != []
    ensures DecodePattern(Pattern(ps)) == Some(ps)
  {
    hide ParseBody, Render, AreValues;
    var s := Pattern(ps);
    RenderStart(0, ps);
    assert s[4..] == Render(0, ps);
    assert Lower(s)[..4] == "usb:";
    ParseBodyExact(s[4..], ps);
  }

  /** For every modalias, in whatever spelling: it is claimed exactly when it and the
      pattern decode and their fields agree. */
  lemma ClaimsFields(pattern: string, modalias: string)
    ensures var ps, ms := DecodePattern(pattern), DecodeModalias(modalias);
            Claims(pattern, modalias) <==> ps.Some? && ms.Some? && FieldsMatch(ps.value, ms.value)
  {
  }

  /** A printed modalias decodes to the fields it was printed of. */
  lemma DecodePrinted(ms: seq<string>)
    requires AreConcrete(0, ms) && |ms| >= 3
    ensures DecodeModalias(Pattern(ms)) == Some(ms)
  {
    hide SanitizeModalias, ParseBody, Render, Upper, SameUpToCase, AreValues, AreConcrete;
    SanitizeRendered(ms);
    ConcreteAreValues(0, ms);
    UpperBody(Render(0, ms));
    ParseBodyExact(Drop(Upper(Pattern(ms)), 4), ms);
  }

  lemma ClaimsPrinted(pattern: string, ps: seq<string>, ms: seq<string>)
    requires DecodePattern(pattern) == Some(ps)
    requires AreConcrete(0, ms) && |ms| >= 3
    ensures Claims(pattern, Pattern(ms)) <==> FieldsMatch(ps, ms)
  {
    hide DecodePattern, DecodeModalias, Claims, FieldsMatch, AreConcrete, Render;
    DecodePrinted(ms);
    ClaimsFields(pattern, Pattern(ms));
  }

  lemma UpperBody(r: string)
    ensures SameUpToCase(Drop(Upper("usb:" + r), 4), r)
  {
    var s := "usb:" + r;
    var u := Upper(s);
    assert Drop(u, 4) == u[4..];
    forall k | 0 <= k < |r|
      ensures UpperChar(u[4..][k]) == UpperChar(r[k])
    {
      assert u[4..][k] == UpperChar(s[k + 4]) && s[k + 4] == r[k];
    }
  }

  /** The glob on printed patterns and modaliases, field by field. */
  lemma GlobFieldwise(ps: seq<string>, ms: seq<string>)
    requires AreValues(0, ps) && AreConcrete(0, ms) && ps != []
    ensures Glob(Pattern(ps), Pattern(ms)) <==> FieldsMatch(ps, ms) && LengthsFit(ps, ms)
  {
    hide FieldsMatch, LengthsFit, Glob, Render, AreValues, AreConcrete;
    GlobLiteral("usb:", Render(0, ps), Pattern(ms));
    var r := Render(0, ms);
    assert Pattern(ms)[4..] == r && r[0..] == r;
    if Glob(Render(0, ps), r) {
      GlobPins(0, ps, ms, 0);
    }
    if FieldsMatch(ps, ms) && LengthsFit(ps, ms) {
      AgreementGlobs(0, ps, ms);
    }
  }

  /** The matcher against the kernel's glob, for every pattern in the kernel's spelling
      and every printed modalias: the glob accepts exactly when the matcher accepts and
      the lengths fit. So they differ exactly when the pattern names a field the
      modalias lacks, or stops at a concrete field the modalias goes beyond. */
  lemma GlobAgreement(ps: seq<string>, ms: seq<string>)
    requires AreValues(0, ps) && ps != [] && AreConcrete(0, ms) && |ms| >= 3
    ensures Glob(Pattern(ps), Pattern(ms)) <==> Claims(Pattern(ps), Pattern(ms)) && LengthsFit(ps, ms)
  {
    hide DecodePattern, Claims, FieldsMatch, LengthsFit, Glob, Render, AreValues, AreConcrete;
    DecodeRendered(ps);
    ClaimsPrinted(Pattern(ps), ps, ms);
    GlobFieldwise(ps, ms);
  }

  /** On full patterns and full modaliases the two always agree. */
  lemma GlobAgreementFull(ps: seq<string>, ms: seq<string>)
    requires AreValues(0, ps) && |ps| == FIELD_COUNT && AreConcrete(0, ms) && |ms| == FIELD_COUNT
    ensures Glob(Pattern(ps), Pattern(ms)) <==> Claims(Pattern(ps), Pattern(ms))
  {
    GlobAgreement(ps, ms);
  }

  // -------------------------------------------------- generality of patterns

  ghost predicate ClaimsIncluded(p: string, q: string) {
    forall ms :: AreConcrete(0, ms) && |ms| == FIELD_COUNT && Claims(p, Pattern(ms)) ==> Claims(q, Pattern(ms))
  }

  function OtherValue(i: nat, v: string): (r: string)
    ensures IsConcrete(i, r) && r != v
  {
    var zeros, ones := seq(Width(i), _ => '0'), seq(Width(i), _ => '1');
    assert zeros[0] != ones[0];
    if v == zeros then ones else zeros
  }

  /** Agrees with every concrete field of ps and with no other field of qs. */
  function Witness(ps: seq<string>, qs: seq<string>): (ms: seq<string>)
    ensures |ms| == FIELD_COUNT
  {
    seq(FIELD_COUNT, i requires 0 <= i =>
      if i < |ps| && ps[i] != "*" then ps[i] else OtherValue(i, if i < |qs| then qs[i] else ""))
  }

  lemma {:induction false} PointwiseConcrete(i: nat, ms: seq<string>)
    requires i + |ms| <= FIELD_COUNT
    requires forall k :: 0 <= k < |ms| ==> IsConcrete(i + k, ms[k])
    ensures AreConcrete(i, ms)
    decreases |ms|
  {
    if ms != [] {
      assert IsConcrete(i + 0, ms[0]);
      forall k | 0 <= k < |ms[1..]|
        ensures IsConcrete(i + 1 + k, ms[1..][k])
      {
        assert IsConcrete(i + (k + 1), ms[k + 1]);
      }
      PointwiseConcrete(i + 1, ms[1..]);
    }
  }

  lemma WitnessAt(ps: seq<string>, qs: seq<string>, i: nat)
    requires i < FIELD_COUNT
    ensures var m := Witness(ps, qs)[i];
            if i < |ps| && ps[i] != "*" then m == ps[i]
            else IsConcrete(i, m) && (i < |qs| ==> m != qs[i])
  {
    hide IsConcrete;
  }

  lemma WitnessIsConcrete(ps: seq<string>, qs: seq<string>)
    requires AreValues(0, ps)
    ensures AreConcrete(0, Witness(ps, qs)) && FieldsMatch(ps, Witness(ps, qs))
  {
    var ms := Witness(ps, qs);
    hide AreValues, IsConcrete, AreConcrete, Witness;
    forall i | 0 <= i < FIELD_COUNT
      ensures IsConcrete(0 + i, ms[i]) && (i < |ps| ==> FieldMatches(ps[i], ms, i))
    {
      WitnessAt(ps, qs, i);
      if i < |ps| {
        ValueAt(0, ps, i);
      }
    }
    PointwiseConcrete(0, ms);
  }

  lemma WitnessSeparates(ps: seq<string>, qs: seq<string>)
    requires AreValues(0, ps) && AreValues(0, qs)
    ensures AreConcrete(0, Witness(ps, qs)) && FieldsMatch(ps, Witness(ps, qs))
    ensures FieldsMatch(qs, Witness(ps, qs)) ==> FieldsMatch(qs, ps)
  {
    var ms := Witness(ps, qs);
    WitnessIsConcrete(ps, qs);
    hide AreValues, IsConcrete, AreConcrete, Witness;
    if FieldsMatch(qs, ms) {
      forall i | 0 <= i < |qs|
        ensures FieldMatches(qs[i], ps, i)
      {
        assert FieldMatches(qs[i], ms, i);
        WitnessAt(ps, qs, i);
      }
    }
  }

  lemma FieldsMatchTransitive(ps: seq<string>, qs: seq<string>, ms: seq<string>)
    requires FieldsMatch(qs, ps) && FieldsMatch(ps, ms)
    ensures FieldsMatch(qs, ms)
  {
    hide FieldMatches;
    forall i | 0 <= i < |qs|
      ensures FieldMatches(qs[i], ms, i)
    {
      assert FieldMatches(qs[i], ps, i);
      assert i < |ps| ==> FieldMatches(ps[i], ms, i);
      FieldMatchesTransitive(qs[i], ps, ms, i);
    }
  }

  lemma FieldMatchesTransitive(q: string, ps: seq<string>, ms: seq<string>, i: nat)
    requires FieldMatches(q, ps, i) && (i < |ps| ==> FieldMatches(ps[i], ms, i))
    ensures FieldMatches(q, ms, i)
  {
  }

  /** Every full modalias claimed by p is claimed by q exactly when each field of
      q is a star, absent, or the same concrete field of p: that is, when q's
      fields match p's fields as they would match a modalias. */
  lemma GeneralityIsInclusion(p: string, q: string, ps: seq<string>, qs: seq<string>)
    requires DecodePattern(p) == Some(ps) && DecodePattern(q) == Some(qs)
    ensures ClaimsIncluded(p, q) <==> FieldsMatch(qs, ps)
  {
    hide DecodePattern, Claims, FieldsMatch, Render, AreConcrete, Witness;
    DecodedValues(p, ps);
    DecodedValues(q, qs);
    if ClaimsIncluded(p, q) {
      var ms := Witness(ps, qs);
      WitnessSeparates(ps, qs);
      ClaimsPrinted(p, ps, ms);
      ClaimsPrinted(q, qs, ms);
    }
    if FieldsMatch(qs, ps) {
      forall ms | AreConcrete(0, ms) && |ms| == FIELD_COUNT && Claims(p, Pattern(ms))
        ensures Claims(q, Pattern(ms))
      {
        ClaimsPrinted(p, ps, ms);
        ClaimsPrinted(q, qs, ms);
        FieldsMatchTransitive(ps, qs, ms);
      }
    }
  }

  lemma DecodedValues(p: string, ps: seq<string>)
    requires DecodePattern(p) == Some(ps)
    ensures AreValues(0, ps)
  {
  }
}
