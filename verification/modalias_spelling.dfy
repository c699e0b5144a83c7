/** Exactly which strings decode as a modalias, and to what: the fields of a device in
    their order, vid, pid and revision at least, with digits in either case and stars
    for interface fields only. */
module ModaliasSpelling {
  import opened Text
  import opened ModulesAlias
  import opened AliasGlob
  import opened AliasPrinters

  function UpperEach(hs: seq<string>): (r: seq<string>)
    ensures |r| == |hs|
  {
    if hs == [] then [] else [Upper(hs[0])] + UpperEach(hs[1..])
  }

  /** No star before the first interface field, counting from field i. */
  predicate StarsBehind(i: nat, ms: seq<string>) { forall k :: 0 <= k < |ms| && i + k < 6 ==> ms[k] != "*" }

  predicate IsModaliasFields(ms: seq<string>) { |ms| >= 3 && AreValues(0, ms) && StarsBehind(0, ms) }

  /** s prints hs, whose upper-case form is ms. */
  predicate Spells(i: nat, s: string, hs: seq<string>, ms: seq<string>) {
    i + |hs| <= FIELD_COUNT && UpperEach(hs) == ms && s == Render(i, hs)
  }

  // ---------------------------------------------------- what decodes is spelled

  lemma StarsBehindCons(i: nat, m: string, ms: seq<string>)
    ensures StarsBehind(i, [m] + ms) <==> (i < 6 ==> m != "*") && StarsBehind(i + 1, ms)
  {
    var all := [m] + ms;
    assert all[0] == m && forall k :: 0 <= k < |ms| ==> all[k + 1] == ms[k];
    if StarsBehind(i, all) {
      forall k | 0 <= k < |ms| && i + 1 + k < 6
        ensures ms[k] != "*"
      {
        assert all[k + 1] != "*";
      }
    }
  }

  lemma SpellsCons(i: nat, h: string, rest: string, hs: seq<string>, ms: seq<string>)
    requires i < FIELD_COUNT && Spells(i + 1, rest, hs, ms)
    ensures Spells(i, Tag(i) + (h + rest), [h] + hs, [Upper(h)] + ms)
  {
    hide Tag, Upper;
    assert ([h] + hs)[1..] == hs;
    RenderOf(i, h, hs);
  }

  lemma {:induction false} GroupStart(i: nat, s: string) returns (k: nat)
    requires 3 <= i <= FIELD_COUNT && OptionalGroups(i, s) && s != []
    ensures i <= k < FIELD_COUNT && Tag(k) <= s
    decreases FIELD_COUNT - i
  {
    hide Tag;
    if OptionalGroups(i + 1, s) {
      k := GroupStart(i + 1, s);
    } else {
      k := i;
    }
  }

  /** Among the optional fields no tag begins another, in whatever case. */
  lemma TagsDiffer(i: nat, k: nat, s: string)
    requires 3 <= i < k < FIELD_COUNT && Tag(k) <= s
    ensures Lower(Take(s, |Tag(i)|)) != Tag(i)
  {
    var t, u := Tag(i), Tag(k);
    assert s[0] == u[0] && s[1] == u[1];
    TagStarts(i, k);
    hide Tag;
    var token := Take(s, |t|);
    if |token| == |t| {
      assert token[0] == s[0] && token[1] == s[1];
      assert Lower(token)[0] == u[0] && Lower(token)[1] == u[1];
    }
  }

  lemma TagStarts(i: nat, k: nat)
    requires 3 <= i < k < FIELD_COUNT
    ensures |Tag(i)| >= 2 && |Tag(k)| >= 2
    ensures LowerChar(Tag(k)[0]) == Tag(k)[0] && LowerChar(Tag(k)[1]) == Tag(k)[1]
    ensures Tag(k)[0] != Tag(i)[0] || Tag(k)[1] != Tag(i)[1]
  {
  }

  lemma {:induction false} GroupsAreSpelled(i: nat, s: string, ms: seq<string>) returns (hs: seq<string>)
    requires 3 <= i <= FIELD_COUNT && OptionalGroups(i, s) && ParseFields(i, s) == Some(ms)
    ensures Spells(i, s, hs, ms) && StarsBehind(i, ms)
    decreases FIELD_COUNT - i
  {
    hide Tag, ParseFields, HexGroup, Spells, StarsBehind, Upper, Lower;
    if s == [] {
      NothingSpelled(i);
      hs := [];
    } else {
      TagOfParsed(i, s);
      if OptionalGroups(i + 1, s) {
        var k := GroupStart(i + 1, s);
        TagsDiffer(i, k, s);
        assert false;
      } else if HexGroup(Tag(i), 2, s).Some? && OptionalGroups(i + 1, HexGroup(Tag(i), 2, s).value) {
        var rest := HexGroup(Tag(i), 2, s).value;
        var h := HexHead(i, s);
        var more := GroupsAreSpelled(i + 1, rest, ms[1..]);
        SpelledStep(i, h, rest, more, ms);
        hs := [h] + more;
      } else {
        var rest := s[|Tag(i)| + 1..];
        StarHead(i, s);
        var more := GroupsAreSpelled(i + 1, rest, ms[1..]);
        SpellsCons(i, "*", rest, more, ms[1..]);
        StarsBehindCons(i, "*", ms[1..]);
        hs := ["*"] + more;
      }
    }
  }

  lemma NothingSpelled(i: nat)
    requires i <= FIELD_COUNT
    ensures ParseFields(i, "") == Some([]) && Spells(i, "", [], []) && StarsBehind(i, [])
  {
  }

  lemma TagOfParsed(i: nat, s: string)
    requires 3 <= i <= FIELD_COUNT && s != [] && ParseFields(i, s).Some?
    ensures i < FIELD_COUNT && Lower(Take(s, |Tag(i)|)) == Tag(i)
  {
    hide Tag;
  }

  lemma HexHead(i: nat, s: string) returns (h: string)
    requires 3 <= i < FIELD_COUNT && HexGroup(Tag(i), 2, s).Some?
    ensures s == Tag(i) + (h + HexGroup(Tag(i), 2, s).value) && Upper(h) != "*"
    ensures ParseFields(i, s) == Prepend(Upper(h), ParseFields(i + 1, HexGroup(Tag(i), 2, s).value))
    ensures forall ms :: ParseFields(i, s) == Some(ms) ==>
              ms != [] && ms == [Upper(h)] + ms[1..] && ParseFields(i + 1, HexGroup(Tag(i), 2, s).value) == Some(ms[1..])
  {
    hide HexGroup, ParseFields, Tag, Upper, AllHex, IsConcrete;
    var rest := HexGroup(Tag(i), 2, s).value;
    h := GroupHead(i, s, rest);
    PrependedParts(Upper(h), ParseFields(i + 1, rest));
  }

  lemma GroupHead(i: nat, s: string, rest: string) returns (h: string)
    requires i < FIELD_COUNT && HexGroup(Tag(i), Width(i), s) == Some(rest)
    ensures s == Tag(i) + (h + rest) && Upper(h) != "*"
    ensures ParseFields(i, s) == Prepend(Upper(h), ParseFields(i + 1, rest))
  {
    h := s[|Tag(i)|..|Tag(i)| + Width(i)];
    HexGroupParts(Tag(i), Width(i), s);
    LongIsNoStar(h);
    hide Tag, ParseFields, HexGroup, Upper, AllHex, IsConcrete;
    HexValueOf(i, h, rest);
  }

  lemma LongIsNoStar(h: string)
    ensures |h| >= 2 ==> Upper(h) != "*"
  {
    assert |Upper(h)| == |h|;
  }

  lemma PrependedParts(v: string, rest: Option<seq<string>>)
    ensures forall ms :: Prepend(v, rest) == Some(ms) ==> ms != [] && ms == [v] + ms[1..] && rest == Some(ms[1..])
  {
  }

  lemma StarHead(i: nat, s: string)
    requires 3 <= i < FIELD_COUNT && StartsWith(s, Tag(i) + "*")
    ensures Upper("*") == "*"
    ensures var rest := s[|Tag(i)| + 1..];
            && s == Tag(i) + ("*" + rest)
            && forall ms :: ParseFields(i, s) == Some(ms) ==>
                 ms != [] && ms == ["*"] + ms[1..] && ParseFields(i + 1, rest) == Some(ms[1..])
  {
    assert UpperChar('*') == '*';
    var tag, rest := Tag(i), s[|Tag(i)| + 1..];
    hide Tag, ParseFields, ParseValue, SameUpToCase;
    assert s == tag + ("*" + rest);
    SameText(tag);
    SameText("*");
    StarValue(i);
    ParseFieldsStep(i, tag, "*" + rest);
    ParseValueOf(i, "*", "*", rest);
    PrependedParts("*", ParseFields(i + 1, rest));
  }

  // ---------------------------------------------------- what is spelled decodes

  lemma {:induction false} SpelledIsCaseVariant(i: nat, hs: seq<string>)
    requires i + |hs| <= FIELD_COUNT
    ensures SameUpToCase(Render(i, hs), Render(i, UpperEach(hs)))
    decreases |hs|
  {
    hide Tag, SameUpToCase, Upper;
    if hs == [] {
      SameText("");
    } else {
      SpelledIsCaseVariant(i + 1, hs[1..]);
      SpellingOfUpper(hs[0]);
      SameText(Tag(i));
      var us := UpperEach(hs);
      assert us[1..] == UpperEach(hs[1..]);
      var a, b := Render(i + 1, hs[1..]), Render(i + 1, us[1..]);
      SameUpToCaseConcat(hs[0], a, us[0], b);
      SameUpToCaseConcat(Tag(i), hs[0] + a, Tag(i), us[0] + b);
      assert Render(i, hs) == Tag(i) + (hs[0] + a) && Render(i, us) == Tag(i) + (us[0] + b);
    }
  }

  /** A value whose upper-case form is concrete is hex of the same width. */
  lemma UpperConcrete(i: nat, h: string)
    requires IsConcrete(i, Upper(h))
    ensures |h| == Width(i) && AllHex(h)
  {
    forall k | 0 <= k < |h|
      ensures IsHex(h[k])
    {
      assert Upper(h)[k] == UpperChar(h[k]) && IsUpperHex(Upper(h)[k]);
    }
  }

  lemma UpperStar(h: string)
    requires Upper(h) == "*"
    ensures h == "*"
  {
    assert |h| == 1 && UpperChar(h[0]) == Upper(h)[0];
  }

  lemma HexGroupOf(tag: string, width: nat, h: string, rest: string)
    requires |h| == width && AllHex(h)
    ensures HexGroup(tag, width, tag + (h + rest)) == Some(rest)
  {
    var s := tag + (h + rest);
    assert s[|tag|..|tag| + width] == h && s[|tag| + width..] == rest;
  }

  lemma {:induction false} SpelledGroups(i: nat, hs: seq<string>)
    requires 3 <= i && i + |hs| <= FIELD_COUNT
    requires AreValues(i, UpperEach(hs)) && StarsBehind(i, UpperEach(hs))
    ensures OptionalGroups(i, Render(i, hs))
    decreases FIELD_COUNT - i
  {
    hide Tag, HexGroup, Upper, StarsBehind;
    if hs == [] {
      if i < FIELD_COUNT {
        NothingSpelled(i + 1);
        SpelledGroups(i + 1, []);
      }
    } else {
      var us := UpperEach(hs);
      assert us == [us[0]] + us[1..] && us[1..] == UpperEach(hs[1..]);
      StarsBehindCons(i, us[0], us[1..]);
      SpelledGroups(i + 1, hs[1..]);
      var rest := Render(i + 1, hs[1..]);
      RenderOf(i, hs[0], hs[1..]);
      assert hs == [hs[0]] + hs[1..];
      assert Render(i, hs) == Tag(i) + (hs[0] + rest);
      FieldKinds(i, us[0]);
      if us[0] == "*" {
        UpperStar(hs[0]);
        StarGroup(Tag(i), rest);
      } else {
        UpperConcrete(i, hs[0]);
        HexGroupOf(Tag(i), Width(i), hs[0], rest);
      }
    }
  }

  lemma StarGroup(tag: string, rest: string)
    ensures var s := tag + ("*" + rest); StartsWith(s, tag + "*") && |s| > |tag| && s[|tag| + 1..] == rest
  {
    var s := tag + ("*" + rest);
    assert s == (tag + "*") + rest;
  }

  lemma ThreeGroups(hs: seq<string>)
    requires |hs| <= FIELD_COUNT && IsModaliasFields(UpperEach(hs))
    ensures IsModalias("usb:" + Render(0, hs))
  {
    hide *;
    SpelledParts(hs);
    var h1 := hs[1..];
    var h2 := h1[1..];
    var h3 := h2[1..];
    FirstTags();
    OneGroup(0, hs);
    OneGroup(1, h1);
    OneGroup(2, h2);
    SpelledGroups(3, h3);
    GroupsMakeModalias(Render(0, hs), Render(1, h1), Render(2, h2), Render(3, h3));
  }

  lemma SpelledParts(hs: seq<string>)
    requires IsModaliasFields(UpperEach(hs))
    ensures |hs| >= 3 && AreValues(0, UpperEach(hs)) && StarsBehind(0, UpperEach(hs))
    ensures Width(0) == 4 && Width(1) == 4 && Width(2) == 4
  {
    hide UpperEach;
  }

  lemma GroupsMakeModalias(r0: string, r1: string, r2: string, r3: string)
    requires HexGroup("v", 4, r0) == Some(r1) && HexGroup("p", 4, r1) == Some(r2) && HexGroup("d", 4, r2) == Some(r3)
    requires OptionalGroups(3, r3)
    ensures IsModalias("usb:" + r0)
  {
    hide HexGroup, OptionalGroups;
    assert ("usb:" + r0)[4..] == r0;
  }

  lemma OneGroup(i: nat, hs: seq<string>)
    requires hs != [] && i < 6 && i + |hs| <= FIELD_COUNT
    requires AreValues(i, UpperEach(hs)) && StarsBehind(i, UpperEach(hs))
    ensures HexGroup(Tag(i), Width(i), Render(i, hs)) == Some(Render(i + 1, hs[1..]))
    ensures |UpperEach(hs[1..])| == |hs| - 1
    ensures AreValues(i + 1, UpperEach(hs[1..])) && StarsBehind(i + 1, UpperEach(hs[1..]))
  {
    hide Tag, HexGroup, Upper, StarsBehind, IsConcrete;
    var us := UpperEach(hs);
    assert us == [us[0]] + us[1..] && us[1..] == UpperEach(hs[1..]);
    StarsBehindCons(i, us[0], us[1..]);
    FieldKinds(i, us[0]);
    UpperConcrete(i, hs[0]);
    RenderOf(i, hs[0], hs[1..]);
    assert hs == [hs[0]] + hs[1..];
    HexGroupOf(Tag(i), Width(i), hs[0], Render(i + 1, hs[1..]));
  }

  // ---------------------------------------------------------------- both ways

  /** A string decodes to ms exactly when, white space at its ends aside, it prints ms
      in lower-case tags and digits of either case, and ms is at least vid, pid and
      revision, with stars for interface fields only. */
  lemma DecodesExactly(modalias: string, ms: seq<string>)
    ensures DecodeModalias(modalias) == Some(ms) <==>
              IsModaliasFields(ms) && exists hs :: |hs| <= FIELD_COUNT && UpperEach(hs) == ms
                                                   && Strip(modalias, IsSpace) == "usb:" + Render(0, hs)
  {
    if DecodeModalias(modalias) == Some(ms) {
      var hs := DecodedIsSpelled(modalias, ms);
    }
    if hs :| IsModaliasFields(ms) && |hs| <= FIELD_COUNT && UpperEach(hs) == ms
             && Strip(modalias, IsSpace) == "usb:" + Render(0, hs) {
      SpelledDecodes(modalias, hs);
    }
  }

  lemma SpelledDecodes(modalias: string, hs: seq<string>)
    requires |hs| <= FIELD_COUNT && IsModaliasFields(UpperEach(hs)) && Strip(modalias, IsSpace) == "usb:" + Render(0, hs)
    ensures DecodeModalias(modalias) == Some(UpperEach(hs))
  {
    hide *;
    SpelledParts(hs);
    ThreeGroups(hs);
    BodyDecodes(hs);
    DecodeSteps(modalias, "usb:" + Render(0, hs));
  }

  lemma DecodeSteps(modalias: string, v: string)
    requires Strip(modalias, IsSpace) == v && IsModalias(v)
    ensures DecodeModalias(modalias) == ParseBody(Drop(Upper(v), 4))
  {
    hide Strip, IsModalias, ParseBody, Upper;
  }

  lemma BodyDecodes(hs: seq<string>)
    requires |hs| <= FIELD_COUNT && AreValues(0, UpperEach(hs))
    ensures ParseBody(Drop(Upper("usb:" + Render(0, hs)), 4)) == Some(UpperEach(hs))
  {
    hide *;
    var r, us := Render(0, hs), UpperEach(hs);
    var body := Drop(Upper("usb:" + r), 4);
    SpelledIsCaseVariant(0, hs);
    UpperBody(r);
    SameUpToCaseTrans(body, r, Render(0, us));
    ParseBodyExact(body, us);
  }

  lemma SameUpToCaseTrans(a: string, b: string, c: string)
    requires SameUpToCase(a, b) && SameUpToCase(b, c)
    ensures SameUpToCase(a, c)
  {
  }

  lemma DecodedIsSpelled(modalias: string, ms: seq<string>) returns (hs: seq<string>)
    requires DecodeModalias(modalias) == Some(ms)
    ensures IsModaliasFields(ms)
    ensures |hs| <= FIELD_COUNT && UpperEach(hs) == ms && Strip(modalias, IsSpace) == "usb:" + Render(0, hs)
  {
    hide Strip, Upper, Render, IsModalias, ParseFields, SameUpToCase, AreValues, StarsBehind, IsConcrete;
    var v := Strip(modalias, IsSpace);
    DecodedModalias(modalias, ms);
    var a, b, c, rest := ModaliasGroups(v);
    UpperTail(v);
    ParseCaseBlind(0, Drop(Upper(v), 4), v[4..]);
    hs := BodyIsSpelled(v, ms);
    assert v == "usb:" + v[4..];
  }

  lemma BodyIsSpelled(v: string, ms: seq<string>) returns (hs: seq<string>)
    requires IsModalias(v) && ParseFields(0, v[4..]) == Some(ms)
    ensures Spells(0, v[4..], hs, ms) && StarsBehind(0, ms)
  {
    FirstTags();
    var g0, g1, g2 := ThreeRests(v);
    hide *;
    var a := FirstGroup(0, "v", v[4..], g0);
    var b := FirstGroup(1, "p", g0, g1);
    var c := FirstGroup(2, "d", g1, g2);
    var m1 := ms[1..];
    var m2 := m1[1..];
    var more := GroupsAreSpelled(3, g2, m2[1..]);
    SpelledStep(2, c, g2, more, m2);
    SpelledStep(1, b, g1, [c] + more, m1);
    SpelledStep(0, a, g0, [b] + ([c] + more), ms);
    hs := [a] + ([b] + ([c] + more));
  }

  lemma ThreeRests(v: string) returns (g0: string, g1: string, g2: string)
    requires IsModalias(v)
    ensures |v| >= 4 && HexGroup("v", 4, v[4..]) == Some(g0) && HexGroup("p", 4, g0) == Some(g1)
    ensures HexGroup("d", 4, g1) == Some(g2) && OptionalGroups(3, g2)
  {
    hide HexGroup, OptionalGroups;
    g0 := HexGroup("v", 4, v[4..]).value;
    g1 := HexGroup("p", 4, g0).value;
    g2 := HexGroup("d", 4, g1).value;
  }

  lemma SpelledStep(i: nat, h: string, rest: string, hs: seq<string>, ms: seq<string>)
    requires i < FIELD_COUNT && ms != [] && ms[0] == Upper(h) != "*"
    requires Spells(i + 1, rest, hs, ms[1..]) && StarsBehind(i + 1, ms[1..])
    ensures Spells(i, Tag(i) + (h + rest), [h] + hs, ms) && StarsBehind(i, ms)
  {
    hide *;
    assert ms == [ms[0]] + ms[1..];
    SpellsCons(i, h, rest, hs, ms[1..]);
    StarsBehindCons(i, ms[0], ms[1..]);
  }

  lemma FirstGroup(i: nat, tag: string, s: string, rest: string) returns (h: string)
    requires i < 3 && tag == Tag(i) && HexGroup(tag, 4, s) == Some(rest)
    ensures s == tag + (h + rest) && Upper(h) != "*"
    ensures forall ms :: ParseFields(i, s) == Some(ms) ==>
              ms != [] && ms[0] == Upper(h) && ParseFields(i + 1, rest) == Some(ms[1..])
  {
    hide HexGroup, ParseFields, Tag, Upper, AllHex, IsConcrete;
    h := GroupHead(i, s, rest);
    PrependedParts(Upper(h), ParseFields(i + 1, rest));
  }
}
