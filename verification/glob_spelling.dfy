/** Matcher and glob on pattern strings outside the kernel's own spelling of a field
    list: patterns the matcher cannot decode, and other letter cases. */
module GlobSpelling {
  import opened Text
  import opened ModulesAlias
  import opened AliasGlob
  import opened AliasPrinters

  // --------------------------------------------- patterns that do not decode

  /** A pattern that does not decode claims nothing. */
  lemma UndecodedNeverClaims(pattern: string, modalias: string)
    requires DecodePattern(pattern) == None
    ensures !Claims(pattern, modalias)
  {
  }

  /** Another star never costs the glob a match. */
  lemma {:induction false} OneMoreStar(a: string, b: string, s: string)
    requires Glob(a + b, s)
    ensures Glob(a + ("*" + b), s)
    decreases |a| + |s|
  {
    if a == [] {
      assert a + b == b && a + ("*" + b) == "*" + b;
      assert s[0..] == s;
      GlobStarFrom(b, s, 0);
    } else {
      var p, q := a + b, a + ("*" + b);
      assert p[0] == a[0] == q[0] && p[1..] == a[1..] + b && q[1..] == a[1..] + ("*" + b);
      if a[0] == '*' {
        if Glob(p[1..], s) {
          OneMoreStar(a[1..], b, s);
        } else {
          OneMoreStar(a, b, s[1..]);
        }
      } else {
        OneMoreStar(a[1..], b, s[1..]);
      }
    }
  }

  lemma StarIsNoTag(i: nat, rest: string)
    requires i <= FIELD_COUNT
    ensures ParseFields(i, "*" + rest) == None
  {
    var s := "*" + rest;
    if i < FIELD_COUNT {
      var token := Take(s, |Tag(i)|);
      assert token[0] == '*' && Lower(token)[0] == '*';
      hide Tag;
      assert IsLowerLetter(Tag(i)[0]);
    }
  }

  lemma {:induction false} StarBehindFields(i: nat, vs: seq<string>, rest: string)
    requires AreValues(i, vs)
    ensures ParseFields(i, Render(i, vs) + ("*" + rest)) == None
    decreases |vs|
  {
    hide Tag, ParseFields, ParseValue, IsFieldValue, SameUpToCase, Render;
    if vs == [] {
      NothingRendered(i, vs);
      assert Render(i, vs) + ("*" + rest) == "*" + rest;
      StarIsNoTag(i, rest);
    } else {
      var tag, more := Tag(i), Render(i + 1, vs[1..]) + ("*" + rest);
      RenderValues(i, vs);
      StarBehindFields(i + 1, vs[1..], rest);
      SameText(tag);
      SameText(vs[0]);
      ParseFieldsStep(i, tag, vs[0] + more);
      ParseValueOf(i, vs[0], vs[0], more);
      assert Render(i, vs) + ("*" + rest) == tag + (vs[0] + more);
    }
  }

  lemma NothingRendered(i: nat, vs: seq<string>)
    requires vs == [] && i <= FIELD_COUNT
    ensures Render(i, vs) == ""
  {
  }

  /** A star behind a field's value, as drivers that pin a revision have it ("d0200*"),
      makes a pattern the matcher never claims anything with, although the glob takes
      everything it takes without that star. */
  lemma StarBehindFieldIsLost(vs: seq<string>, ws: seq<string>, modalias: string)
    requires AreValues(0, vs) && vs != [] && |vs| + |ws| <= FIELD_COUNT
    ensures var starred, plain := "usb:" + (Render(0, vs) + ("*" + Render(|vs|, ws))), "usb:" + (Render(0, vs) + Render(|vs|, ws));
            && DecodePattern(starred) == None && !Claims(starred, modalias)
            && (Glob(plain, modalias) ==> Glob(starred, modalias))
  {
    hide Glob, Render, ParseFields, AreValues;
    var a, b := Render(0, vs), Render(|vs|, ws);
    var starred := "usb:" + (a + ("*" + b));
    StarBehindFields(0, vs, b);
    RenderStart(0, vs);
    assert Drop(starred, 4) == a + ("*" + b);
    assert a + ("*" + b) != "*" by {
      assert (a + ("*" + b))[0] == a[0];
    }
    UndecodedNeverClaims(starred, modalias);
    if Glob("usb:" + (a + b), modalias) {
      assert ("usb:" + a) + b == "usb:" + (a + b);
      OneMoreStar("usb:" + a, b, modalias);
      assert ("usb:" + a) + ("*" + b) == starred;
    }
  }

  /** A row as drivers that pin a revision have it. */
  function PinnedPattern(): string { "usb:" + ("v0BDAp8811d0200" + ("*" + "dc*dsc*dp*icFFiscFFip00in*")) }

  function PinnedIds(): seq<string> { ["0BDA", "8811", "0200"] }

  function PinnedRest(): seq<string> { ["*", "*", "*", "FF", "FF", "00", "*"] }

  lemma PinnedIdsRender()
    ensures AreConcrete(0, PinnedIds()) && AreValues(0, PinnedIds()) && Render(0, PinnedIds()) == "v0BDAp8811d0200"
  {
    NoFields(3);
    FirstTags();
    PinnedIdsAreConcrete();
    PinnedText();
    var a, b, c := "0BDA", "8811", "0200";
    hide Render, AreConcrete, IsConcrete, Tag;
    ConcreteCons(2, c, []);
    ConcreteCons(1, b, [c]);
    ConcreteCons(0, a, [b, c]);
    assert [c] + [] == [c] && [b] + [c] == [b, c] && [a] + [b, c] == PinnedIds();
    ConcreteAreValues(0, PinnedIds());
  }

  lemma PinnedText()
    ensures "d" + "0200" + "" == "d0200" && "p" + "8811" + "d0200" == "p8811d0200"
    ensures "v" + "0BDA" + "p8811d0200" == "v0BDAp8811d0200"
  {
  }

  lemma PinnedIdsAreConcrete()
    ensures IsConcrete(0, "0BDA") && IsConcrete(1, "8811") && IsConcrete(2, "0200")
  {
  }

  lemma PinnedRestRender()
    ensures AreValues(3, PinnedRest()) && Render(3, PinnedRest()) == "dc*dsc*dp*icFFiscFFip00in*"
  {
    InterfaceTail();
    LastTags();
    InterfaceText();
    hide Render, AreValues, IsFieldValue, PlannerInterface, Tag;
    var l6 := ["FF", "FF", "00", "*"];
    StarValue(5);
    RenderCons(5, "*", l6);
    StarValue(4);
    RenderCons(4, "*", ["*"] + l6);
    StarValue(3);
    RenderCons(3, "*", ["*"] + (["*"] + l6));
    assert ["*"] + (["*"] + (["*"] + l6)) == PinnedRest();
  }

  lemma InterfaceText()
    ensures PlannerInterface() == "icFFiscFFip00in*"
  {
  }

  lemma LastTags()
    ensures Tag(3) == "dc" && Tag(4) == "dsc" && Tag(5) == "dp"
  {
  }

  lemma {:induction false} RenderConcat(i: nat, vs: seq<string>, ws: seq<string>)
    requires AreValues(i, vs) && AreValues(i + |vs|, ws)
    ensures AreValues(i, vs + ws) && Render(i, vs + ws) == Render(i, vs) + Render(i + |vs|, ws)
    decreases |vs|
  {
    hide Tag, IsFieldValue, Render, AreValues;
    if vs == [] {
      NothingRendered(i, vs);
      assert vs + ws == ws && "" + Render(i, ws) == Render(i, ws);
    } else {
      var rest := vs[1..];
      RenderValues(i, vs);
      RenderConcat(i + 1, rest, ws);
      RenderCons(i, vs[0], rest + ws);
      RenderCons(i, vs[0], rest);
      assert [vs[0]] + rest == vs && [vs[0]] + (rest + ws) == vs + ws;
    }
  }

  /** An instance of the star behind a field: the glob accepts every full modalias with
      these ids, this revision and FF/FF/00 interface; the matcher claims none. */
  lemma RevisionPinIsLost(ms: seq<string>)
    requires AreConcrete(0, ms) && |ms| == FIELD_COUNT && FieldsMatch(PinnedIds() + PinnedRest(), ms)
    ensures Glob(PinnedPattern(), Pattern(ms)) && !Claims(PinnedPattern(), Pattern(ms))
  {
    hide Glob, Claims, AreConcrete, AreValues, Render, FieldsMatch, DecodePattern;
    var vs, ws := PinnedIds(), PinnedRest();
    PinnedIdsRender();
    PinnedRestRender();
    RenderConcat(0, vs, ws);
    GlobFieldwise(vs + ws, ms);
    StarBehindFieldIsLost(vs, ws, Pattern(ms));
  }

  // ---------------------------------------------------- spelling and the glob

  /** The characters of a text that neither a star nor a zero digit stands for. */
  function Marks(s: string): string {
    if s == [] then [] else (if s[0] == '*' || s[0] == '0' then [] else [s[0]]) + Marks(s[1..])
  }

  lemma {:induction false} MarksConcat(a: string, b: string)
    ensures Marks(a + b) == Marks(a) + Marks(b)
  {
    if a == [] {
      assert a + b == b;
    } else {
      assert (a + b)[0] == a[0] && (a + b)[1..] == a[1..] + b;
      MarksConcat(a[1..], b);
    }
  }

  /** What the glob accepts has all marks of the pattern, in order; with no more than
      them it has the same marks. */
  lemma {:induction false} GlobKeepsMarks(p: string, s: string)
    requires Glob(p, s) && '*' !in s
    ensures |Marks(p)| <= |Marks(s)|
    ensures |Marks(p)| == |Marks(s)| ==> Marks(p) == Marks(s)
    decreases |p| + |s|
  {
    if p != [] {
      if p[0] == '*' {
        if Glob(p[1..], s) {
          GlobKeepsMarks(p[1..], s);
        } else {
          GlobKeepsMarks(p, s[1..]);
        }
      } else {
        GlobKeepsMarks(p[1..], s[1..]);
      }
    }
  }

  lemma {:induction false} MarksOfSpelling(p: string, q: string)
    requires SameUpToCase(p, q)
    ensures |Marks(p)| == |Marks(q)| && (Marks(p) == Marks(q) ==> p == q)
  {
    if p != [] {
      var x, y := Marks(p[1..]), Marks(q[1..]);
      MarksOfSpelling(p[1..], q[1..]);
      assert p == [p[0]] + p[1..] && q == [q[0]] + q[1..];
      assert p[0] == '*' <==> q[0] == '*';
      assert p[0] == '0' <==> q[0] == '0';
      if p[0] == '*' || p[0] == '0' {
        assert Marks(p) == x && Marks(q) == y && p[0] == q[0];
      } else {
        assert Marks(p)[1..] == x && Marks(q)[1..] == y;
        assert Marks(p)[0] == p[0] && Marks(q)[0] == q[0];
      }
    }
  }

  /** The fields of a modalias that has the pattern's concrete fields and zeros
      elsewhere. */
  function Zeroed(i: nat, ps: seq<string>): (ms: seq<string>)
    ensures |ms| == |ps|
    decreases |ps|
  {
    if ps == [] then [] else [if ps[0] == "*" then Zeros(Width(i)) else ps[0]] + Zeroed(i + 1, ps[1..])
  }

  function Zeros(n: nat): string { if n == 0 then "" else "0" + Zeros(n - 1) }

  lemma {:induction false} ZerosFacts(n: nat)
    ensures |Zeros(n)| == n && AllUpperHex(Zeros(n)) && Marks(Zeros(n)) == ""
  {
    if n > 0 {
      ZerosFacts(n - 1);
    }
  }

  lemma {:induction false} ZeroedFacts(i: nat, ps: seq<string>)
    requires AreValues(i, ps)
    ensures AreConcrete(i, Zeroed(i, ps)) && FieldsMatch(ps, Zeroed(i, ps))
    ensures Marks(Render(i, Zeroed(i, ps))) == Marks(Render(i, ps))
    decreases |ps|
  {
    hide Tag, Zeros, FieldsMatch;
    if ps == [] {
      FieldsMatchNil(ps, []);
    } else {
      var ms := Zeroed(i, ps);
      var m, more := ms[0], Zeroed(i + 1, ps[1..]);
      assert ms == [m] + more && ms[1..] == more;
      ZeroedFacts(i + 1, ps[1..]);
      ZerosFacts(Width(i));
      FieldsMatchCons(ps, ms);
      ZeroedHead(i, ps[0], m);
      RenderOf(i, ps[0], ps[1..]);
      RenderOf(i, m, more);
      assert [ps[0]] + ps[1..] == ps;
      MarksOfField(Tag(i), ps[0], Render(i + 1, ps[1..]));
      MarksOfField(Tag(i), m, Render(i + 1, more));
    }
  }

  lemma ZeroedHead(i: nat, p: string, m: string)
    requires IsFieldValue(i, p) && m == if p == "*" then Zeros(Width(i)) else p
    ensures IsConcrete(i, m) && Marks(m) == Marks(p) && (p == "*" || m == p)
  {
    ZerosFacts(Width(i));
    hide Zeros;
    assert "*"[1..] == "";
    assert Marks("*") == "";
  }

  lemma MarksOfField(tag: string, v: string, rest: string)
    ensures Marks(tag + (v + rest)) == Marks(tag) + (Marks(v) + Marks(rest))
  {
    MarksConcat(v, rest);
    MarksConcat(tag, v + rest);
  }

  lemma {:induction false} RenderHasNoStar(i: nat, ms: seq<string>)
    requires AreConcrete(i, ms)
    ensures '*' !in Render(i, ms)
    decreases |ms|
  {
    hide Tag;
    if ms != [] {
      RenderHasNoStar(i + 1, ms[1..]);
      assert forall k :: 0 <= k < |Tag(i)| ==> IsLowerLetter(Tag(i)[k]);
      assert forall k :: 0 <= k < |ms[0]| ==> IsUpperHex(ms[0][k]);
    }
  }

  /** The glob accepts exactly the modaliases that agree with the fields of the pattern
      and have a fitting length. */
  ghost predicate GlobIsFieldwise(pattern: string, ps: seq<string>)
    requires |ps| <= FIELD_COUNT
  {
    forall ms :: AreConcrete(0, ms) ==> (Glob(pattern, Pattern(ms)) <==> FieldsMatch(ps, ms) && LengthsFit(ps, ms))
  }

  lemma DecodedSpelling(pattern: string, ps: seq<string>)
    requires DecodePattern(pattern) == Some(ps) && ps != []
    ensures AreValues(0, ps) && SameUpToCase(pattern, Pattern(ps))
  {
    hide ParseBody, Render, AreValues, SameUpToCase;
    var head, body := pattern[..4], pattern[4..];
    ParseBodyExact(body, ps);
    assert SameUpToCase(head, "usb:") by {
      assert Lower(pattern)[..4] == "usb:";
      LowerIsSpelling(pattern);
    }
    assert pattern == head + body;
    SameUpToCaseConcat(head, body, "usb:", Render(0, ps));
  }

  lemma LowerIsSpelling(s: string)
    requires |s| >= 4 && Lower(s)[..4] == "usb:"
    ensures SameUpToCase(s[..4], "usb:")
  {
    assert forall k :: 0 <= k < 4 ==> LowerChar(s[k]) == Lower(s)[..4][k];
  }

  /** Which spellings of a pattern the glob, which minds case, treats field by field as
      the matcher does: exactly the kernel's own, with lower-case tags and upper-case
      digits. */
  lemma SpellingDecides(pattern: string, ps: seq<string>)
    requires DecodePattern(pattern) == Some(ps) && ps != []
    ensures GlobIsFieldwise(pattern, ps) <==> pattern == Pattern(ps)
  {
    hide DecodePattern, Glob, Render, AreValues, AreConcrete, FieldsMatch, LengthsFit, Marks, Zeroed, SameUpToCase;
    DecodedSpelling(pattern, ps);
    if pattern == Pattern(ps) {
      forall ms | AreConcrete(0, ms)
        ensures Glob(pattern, Pattern(ms)) <==> FieldsMatch(ps, ms) && LengthsFit(ps, ms)
      {
        GlobFieldwise(ps, ms);
      }
    } else {
      OtherSpellingLosesOne(pattern, ps);
    }
  }

  /** For a pattern in another spelling the modalias with zeros for its stars is such
      a modalias. */
  lemma OtherSpellingLosesOne(pattern: string, ps: seq<string>)
    requires AreValues(0, ps) && SameUpToCase(pattern, Pattern(ps)) && pattern != Pattern(ps)
    ensures AreConcrete(0, Zeroed(0, ps)) && FieldsMatch(ps, Zeroed(0, ps)) && LengthsFit(ps, Zeroed(0, ps))
    ensures !Glob(pattern, Pattern(Zeroed(0, ps)))
  {
    hide Glob, Render, AreValues, AreConcrete, FieldsMatch, Marks, Zeroed, SameUpToCase;
    var ms := Zeroed(0, ps);
    ZeroedFacts(0, ps);
    MarksConcat("usb:", Render(0, ms));
    MarksConcat("usb:", Render(0, ps));
    MarksOfSpelling(pattern, Pattern(ps));
    RenderHasNoStar(0, ms);
    if Glob(pattern, Pattern(ms)) {
      GlobKeepsMarks(pattern, Pattern(ms));
    }
  }

  /** So a pattern of three fields or more in another spelling claims a modalias the
      glob rejects, although their lengths fit. */
  lemma OtherSpellingIsClaimed(pattern: string, ps: seq<string>) returns (ms: seq<string>)
    requires DecodePattern(pattern) == Some(ps) && |ps| >= 3 && pattern != Pattern(ps)
    ensures AreConcrete(0, ms) && LengthsFit(ps, ms)
    ensures Claims(pattern, Pattern(ms)) && !Glob(pattern, Pattern(ms))
  {
    hide DecodePattern, Claims, Glob, Render, AreValues, AreConcrete, FieldsMatch, SameUpToCase;
    DecodedSpelling(pattern, ps);
    OtherSpellingLosesOne(pattern, ps);
    ms := Zeroed(0, ps);
    ClaimsPrinted(pattern, ps, ms);
  }

  /** A literal case: with a capital tag every modalias is claimed and none accepted. */
  lemma CapitalTagIsClaimed(ms: seq<string>)
    requires AreConcrete(0, ms) && |ms| >= 3
    ensures Claims("usb:V*", Pattern(ms)) && !Glob("usb:V*", Pattern(ms))
  {
    CapitalTagDecodes();
    assert FieldsMatch(["*"], ms);
    FirstTagIsV(ms);
    var lit := "usb:V";
    assert lit + "*" == "usb:V*" && lit[4] == 'V' && '*' !in lit;
    hide Claims, Glob, DecodePattern, FieldsMatch, AreConcrete, Render, Pattern;
    ClaimsPrinted("usb:V*", ["*"], ms);
    GlobLiteral(lit, "*", Pattern(ms));
  }

  lemma FirstTagIsV(ms: seq<string>)
    requires AreConcrete(0, ms) && ms != []
    ensures |Pattern(ms)| > 4 && Pattern(ms)[4] == 'v'
  {
    assert Tag(0) == "v";
    hide Tag, IsConcrete;
    assert Render(0, ms) == "v" + (ms[0] + Render(1, ms[1..]));
  }

  lemma CapitalTagDecodes()
    ensures DecodePattern("usb:V*") == Some(["*"])
  {
    var s := "usb:V*";
    assert Drop(s, 4) == "V*";
    assert Lower(s)[..4] == "usb:";
    assert ["*"][1..] == [];
    assert Render(0, ["*"]) == "v*";
    assert SameUpToCase("V*", "v*");
    hide ParseBody, Render, Lower;
    ParseBodyExact("V*", ["*"]);
  }

  /** "usb:v*p*d*DC12" and "usb:v0000p0000dDC12". */
  function ShadowPattern(): string { "usb:v" + ("*" + ("p" + ("*" + ("d" + ("*" + "DC12"))))) }

  function ShadowModalias(): string { "usb:v" + ("0000" + ("p" + ("0000" + ("d" + "DC12")))) }

  /** Nor does acceptance imply a claim in another spelling: capital tag letters are
      hex digits, and the glob may find them inside a value. */
  lemma CapitalTagIsAccepted()
    ensures Glob(ShadowPattern(), ShadowModalias()) && !Claims(ShadowPattern(), ShadowModalias())
  {
    ShadowGlobs();
    ShadowModaliasText();
    ShadowDecodes();
    var ps, ms := ["*", "*", "*", "12"], ["0000", "0000", "DC12"];
    assert !FieldMatches(ps[3], ms, 3);
    hide DecodePattern, Claims, Glob, Render, AreConcrete, ShadowPattern, ShadowModalias, Pattern;
    ClaimsPrinted(ShadowPattern(), ps, ms);
  }

  lemma ShadowGlobs()
    ensures Glob(ShadowPattern(), ShadowModalias())
  {
    var p2 := "d" + ("*" + "DC12");
    var s2 := "d" + "DC12";
    GlobSelf("DC12");
    hide Glob;
    assert "" + "DC12" == "DC12";
    GlobBehind("d", "DC12", "", "DC12");
    GlobBehind("p", p2, "0000", s2);
    GlobBehind("usb:v", "p" + ("*" + p2), "0000", "p" + ("0000" + s2));
  }

  lemma GlobSelf(s: string)
    requires '*' !in s
    ensures Glob(s, s)
  {
    GlobLiteral(s, "", s);
    assert s + "" == s && s[|s|..] == "";
  }

  lemma GlobBehind(lit: string, p: string, skipped: string, s: string)
    requires '*' !in lit && Glob(p, s)
    ensures Glob(lit + ("*" + p), lit + (skipped + s))
  {
    hide Glob;
    var t := skipped + s;
    assert t[|skipped|..] == s && (lit + t)[|lit|..] == t;
    GlobStarFrom(p, t, |skipped|);
    GlobLiteral(lit, "*" + p, lit + t);
  }

  lemma ShadowModaliasText()
    ensures AreConcrete(0, ["0000", "0000", "DC12"]) && Pattern(["0000", "0000", "DC12"]) == ShadowModalias()
  {
    var v0, v2 := "0000", "DC12";
    assert [v0, v0, v2][1..] == [v0, v2] && [v0, v2][1..] == [v2] && [v2][1..] == [];
    assert IsConcrete(0, v0) && IsConcrete(1, v0) && IsConcrete(2, v2);
    ShadowTags();
    hide IsConcrete, Tag;
    assert Render(3, []) == "";
    assert Render(2, [v2]) == "d" + v2;
    assert Render(1, [v0, v2]) == "p" + (v0 + ("d" + v2));
    assert Render(0, [v0, v0, v2]) == "v" + (v0 + ("p" + (v0 + ("d" + v2))));
  }

  lemma ShadowTags()
    ensures Tag(0) == "v" && Tag(1) == "p" && Tag(2) == "d" && "usb:" + "v" == "usb:v"
  {
  }

  function ShadowBody(last: string): string { "v" + ("*" + ("p" + ("*" + ("d" + ("*" + last))))) }

  lemma ShadowDecodes()
    ensures DecodePattern(ShadowPattern()) == Some(["*", "*", "*", "12"])
  {
    StarsRender();
    ShadowSpelling();
    ShadowPrefix();
    hide Render, ParseBody, AreValues, SameUpToCase, ShadowBody, ShadowPattern, Lower;
    ParseBodyExact(ShadowBody("DC12"), ["*", "*", "*", "12"]);
  }

  lemma ShadowSpelling()
    ensures SameUpToCase(ShadowBody("DC12"), ShadowBody("dc12"))
  {
    assert SameUpToCase("DC12", "dc12");
    assert forall a, b, c: string :: SameUpToCase(a, b) ==> SameUpToCase(c + a, c + b);
    hide SameUpToCase;
  }

  lemma ShadowPrefix()
    ensures "usb:" <= Lower(ShadowPattern()) && |ShadowPattern()| > 4 && Drop(ShadowPattern(), 4) == ShadowBody("DC12")
  {
    assert "usb:v" == "usb:" + "v";
    var body := ShadowBody("DC12");
    assert ShadowPattern() == "usb:" + body;
    hide ShadowPattern, ShadowBody;
    assert Lower("usb:" + body)[..4] == "usb:";
  }

  lemma StarsRender()
    ensures AreValues(0, ["*", "*", "*", "12"])
    ensures Render(0, ["*", "*", "*", "12"]) == ShadowBody("dc12")
  {
    assert ["*", "*", "*", "12"][1..] == ["*", "*", "12"] && ["*", "*", "12"][1..] == ["*", "12"];
    assert ["*", "12"][1..] == ["12"] && ["12"][1..] == [];
    assert IsFieldValue(3, "12");
    hide IsFieldValue;
    StarsAreValues();
    assert Render(3, ["12"]) == "dc12";
    assert Render(2, ["*", "12"]) == "d" + ("*" + "dc12");
    assert Render(1, ["*", "*", "12"]) == "p" + ("*" + ("d" + ("*" + "dc12")));
  }

  lemma StarsAreValues()
    ensures forall i: nat :: IsFieldValue(i, "*")
  {
  }

  /** The bare star claims every printed modalias, and the glob accepts them all exactly
      when the prefix is spelled in lower case. */
  lemma BareStar(pattern: string, ms: seq<string>)
    requires DecodePattern(pattern) == Some([]) && AreConcrete(0, ms) && |ms| >= 3
    ensures Claims(pattern, Pattern(ms)) && (Glob(pattern, Pattern(ms)) <==> pattern == "usb:*")
  {
    FieldsMatchNil([], ms);
    BareStarIsLiteral(pattern);
    hide Claims, Glob, DecodePattern, FieldsMatch, AreConcrete, Render;
    ClaimsPrinted(pattern, [], ms);
    var r := Render(0, ms);
    assert Pattern(ms)[..4] == "usb:" && Pattern(ms)[4..] == r;
    StarGlobsAll(r);
    hide Pattern;
    GlobLiteral(pattern[..4], "*", Pattern(ms));
  }

  lemma StarGlobsAll(s: string)
    ensures Glob("*", s)
  {
    NothingGlobs();
    hide Glob;
    assert s[|s|..] == "" && "*" + "" == "*";
    GlobStarFrom("", s, |s|);
  }

  lemma NothingGlobs()
    ensures Glob("", "")
  {
  }

  lemma BareStarIsLiteral(pattern: string)
    requires DecodePattern(pattern) == Some([])
    ensures |pattern| == 5 && pattern == pattern[..4] + "*" && '*' !in pattern[..4]
    ensures pattern == "usb:*" <==> pattern[..4] == "usb:"
  {
    var head := pattern[..4];
    assert Lower(pattern)[..4] == "usb:";
    LowerIsSpelling(pattern);
    assert forall k :: 0 <= k < 4 ==> UpperChar(head[k]) == UpperChar("usb:"[k]);
    assert pattern[4..] != "";
    hide ParseBody, Lower;
    ParseBodyExact(pattern[4..], []);
    assert pattern[4..] == "*";
  }
}
