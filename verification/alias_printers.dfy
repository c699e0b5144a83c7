/** The two printers the matcher has to undo: the alias line written by
    repair/planner.py and the device modalias built by usb/enumeration.py. */
module AliasPrinters {
  import opened Text
  import opened ModulesAlias
  import opened AliasGlob

  predicate IsHex4(s: string) { |s| == 4 && AllHex(s) }

  // ----------------------------------------------------- the planner's alias row

  predicate IsModuleStart(c: char) { IsDigit(c) || IsLowerLetter(c) }

  predicate IsModuleChar(c: char) { IsModuleStart(c) || c == '_' || c == '-' }

  /** Kernel module name grammar: [a-z0-9][a-z0-9_-]{0,63}. */
  predicate IsModuleName(s: string) {
    1 <= |s| <= 64 && IsModuleStart(s[0]) && forall i :: 1 <= i < |s| ==> IsModuleChar(s[i])
  }

  function PlannerPattern(vid: string, pid: string): string {
    "usb:" + ("v" + Upper(vid) + ("p" + Upper(pid) + PlannerStars()))
  }

  function PlannerStars(): string { "d*" + ("dc*" + ("dsc*" + ("dp*" + PlannerInterface()))) }

  function PlannerInterface(): string { "icFF" + ("iscFF" + ("ip00" + "in*")) }

  function AliasText(vid: string, pid: string, name: string): string {
    "alias " + PlannerPattern(vid, pid) + " " + name + "\n"
  }

  function PlannerFields(vid: string, pid: string): seq<string> {
    [Upper(vid), Upper(pid), "*", "*", "*", "*", "FF", "FF", "00", "*"]
  }

  lemma UpperHex4(s: string)
    requires IsHex4(s)
    ensures |Upper(s)| == 4 && AllUpperHex(Upper(s))
  {
  }

  /** A word, one space, a word. */
  lemma RowOfWords(pattern: string, name: string)
    requires pattern != [] && All(pattern, NotSpace) && name != [] && All(name, NotSpace)
    ensures MatchRow("alias " + pattern + " " + name) == Some((pattern, name))
  {
    OneSpace();
    hide MatchRow, All, NotSpace, IsSpace;
    RowReads(" ", pattern, " ", name, "");
    assert "alias " + pattern + " " + name == RowText(" ", pattern, " ", name, "");
  }

  lemma OneSpace()
    ensures IsRowSpaces(" ") && IsRowSpaces("")
  {
  }

  lemma ModuleNameIsWord(name: string)
    requires IsModuleName(name)
    ensures All(name, NotSpace)
  {
  }

  lemma PlannerPatternIsWord(vid: string, pid: string)
    requires IsHex4(vid) && IsHex4(pid)
    ensures All(PlannerPattern(vid, pid), NotSpace) && "usb:" <= PlannerPattern(vid, pid)
  {
    UpperHex4(vid);
    UpperHex4(pid);
    HexIsWord(Upper(vid));
    HexIsWord(Upper(pid));
    PlannerWords();
    hide Upper, IsSpace, PlannerStars;
    var p1 := "p" + Upper(pid) + PlannerStars();
    WordConcat("p", Upper(pid));
    WordConcat("p" + Upper(pid), PlannerStars());
    WordConcat("v", Upper(vid));
    WordConcat("v" + Upper(vid), p1);
    WordConcat("usb:", "v" + Upper(vid) + p1);
    assert PlannerPattern(vid, pid)[..4] == "usb:";
  }

  lemma WordConcat(a: string, b: string)
    ensures All(a, NotSpace) && All(b, NotSpace) ==> All(a + b, NotSpace)
  {
  }

  lemma PlannerWords()
    ensures All("usb:", NotSpace) && All("v", NotSpace) && All("p", NotSpace) && All(PlannerStars(), NotSpace)
  {
    TagWords();
    InterfaceWords();
    hide All, PlannerInterface;
    WordConcat("dp*", PlannerInterface());
    WordConcat("dsc*", "dp*" + PlannerInterface());
    WordConcat("dc*", "dsc*" + ("dp*" + PlannerInterface()));
    WordConcat("d*", "dc*" + ("dsc*" + ("dp*" + PlannerInterface())));
  }

  lemma TagWords()
    ensures All("usb:", NotSpace) && All("v", NotSpace) && All("p", NotSpace)
    ensures All("d*", NotSpace) && All("dc*", NotSpace) && All("dsc*", NotSpace) && All("dp*", NotSpace)
  {
  }

  lemma InterfaceWords()
    ensures All(PlannerInterface(), NotSpace)
  {
    assert All("icFF", NotSpace) && All("iscFF", NotSpace) && All("ip00", NotSpace) && All("in*", NotSpace);
    hide All;
    WordConcat("ip00", "in*");
    WordConcat("iscFF", "ip00" + "in*");
    WordConcat("icFF", "iscFF" + ("ip00" + "in*"));
  }

  lemma HexIsWord(s: string)
    requires AllUpperHex(s)
    ensures All(s, NotSpace)
  {
  }

  /** The written line reads back as exactly one row, for exactly that module. */
  lemma PlannerLineIsOneRow(vid: string, pid: string, name: string)
    requires IsHex4(vid) && IsHex4(pid) && IsModuleName(name)
    ensures ParseRows([AliasText(vid, pid, name)])
         == [AliasLine(PlannerPattern(vid, pid), name, AliasText(vid, pid, name))]
  {
    hide MatchRow, PlannerPattern, IsModuleName, All, Strip, NotSpace, IsSpace;
    var pattern, raw := PlannerPattern(vid, pid), AliasText(vid, pid, name);
    PlannerPatternIsWord(vid, pid);
    ModuleNameIsWord(name);
    ModuleNameNonEmpty(name);
    RowOfWords(pattern, name);
    StripNewline("alias " + pattern + " " + name);
    assert ParseRow(raw) == [AliasLine(pattern, name, raw)];
    assert ParseRows([raw][1..]) == [];
  }

  lemma ModuleNameNonEmpty(name: string)
    requires IsModuleName(name)
    ensures name != []
  {
  }

  lemma StripNewline(s: string)
    requires s != [] && s[0] == 'a' && NotSpace(s[|s| - 1])
    ensures Strip(s + "\n", IsRowMargin) == s
  {
    assert !IsRowMargin(s[0]) && !IsRowMargin(s[|s| - 1]) && All("\n", IsRowMargin);
    hide RStrip, LStrip, IsSpace, IsRowMargin, All;
    assert (s + "\n")[0] == s[0];
    RStripSuffix(s, "\n", IsRowMargin);
  }

  lemma RenderCons(i: nat, v: string, vs: seq<string>)
    requires i < FIELD_COUNT && IsFieldValue(i, v) && AreValues(i + 1, vs)
    ensures AreValues(i, [v] + vs) && Render(i, [v] + vs) == Tag(i) + v + Render(i + 1, vs)
  {
    hide Tag, IsFieldValue;
    assert ([v] + vs)[1..] == vs;
  }

  lemma StarValue(i: nat)
    ensures IsFieldValue(i, "*")
  {
  }

  lemma UpperIsValue(i: nat, s: string)
    requires IsHex4(s) && i < 3
    ensures IsFieldValue(i, Upper(s))
  {
    UpperHex4(s);
    hide Upper;
  }

  lemma IdTags()
    ensures Tag(0) == "v" && Tag(1) == "p"
  {
  }

  lemma PlannerRender(vid: string, pid: string)
    requires IsHex4(vid) && IsHex4(pid)
    ensures AreValues(0, PlannerFields(vid, pid)) && Pattern(PlannerFields(vid, pid)) == PlannerPattern(vid, pid)
  {
    hide Upper, IsHex4, Tag, Render, AreValues, IsFieldValue, PlannerStars, PlannerFields;
    StarTail();
    UpperIsValue(0, vid);
    UpperIsValue(1, pid);
    IdTags();
    var tail := ["*", "*", "*", "*", "FF", "FF", "00", "*"];
    RenderCons(1, Upper(pid), tail);
    RenderCons(0, Upper(vid), [Upper(pid)] + tail);
    PlannerFieldsAre(vid, pid);
  }

  lemma PlannerFieldsAre(vid: string, pid: string)
    ensures PlannerFields(vid, pid) == [Upper(vid)] + ([Upper(pid)] + ["*", "*", "*", "*", "FF", "FF", "00", "*"])
  {
    hide Upper;
  }

  lemma StarTail()
    ensures AreValues(2, ["*", "*", "*", "*", "FF", "FF", "00", "*"])
    ensures Render(2, ["*", "*", "*", "*", "FF", "FF", "00", "*"]) == PlannerStars()
  {
    InterfaceTail();
    hide Render, AreValues, IsFieldValue, PlannerInterface;
    var l6 := ["FF", "FF", "00", "*"];
    StarValue(5);
    RenderCons(5, "*", l6);
    StarValue(4);
    RenderCons(4, "*", ["*"] + l6);
    StarValue(3);
    RenderCons(3, "*", ["*"] + (["*"] + l6));
    StarValue(2);
    RenderCons(2, "*", ["*"] + (["*"] + (["*"] + l6)));
    assert "d" + "*" == "d*" && "dc" + "*" == "dc*" && "dsc" + "*" == "dsc*" && "dp" + "*" == "dp*";
    assert ["*"] + (["*"] + (["*"] + (["*"] + l6))) == ["*", "*", "*", "*", "FF", "FF", "00", "*"];
  }

  lemma InterfaceTail()
    ensures AreValues(6, ["FF", "FF", "00", "*"])
    ensures Render(6, ["FF", "FF", "00", "*"]) == PlannerInterface()
  {
    assert ["FF", "FF", "00", "*"][1..] == ["FF", "00", "*"];
    assert ["FF", "00", "*"][1..] == ["00", "*"];
    assert ["00", "*"][1..] == ["*"];
    assert "ic" + "FF" == "icFF" && "isc" + "FF" == "iscFF" && "ip" + "00" == "ip00" && "in" + "*" + "" == "in*";
  }

  /** What the planner's row claims, among all modaliases in whatever spelling: exactly
      those that decode to this vid and pid and interface fields FF/FF/00. A modalias
      without the interface fields, such as the six-field device modalias, or with
      stars for them, is never claimed. */
  lemma PlannerRowClaims(vid: string, pid: string, modalias: string)
    requires IsHex4(vid) && IsHex4(pid)
    ensures Claims(PlannerPattern(vid, pid), modalias) <==>
              DecodeModalias(modalias).Some? && IsInterfaceOf(vid, pid, DecodeModalias(modalias).value)
  {
    var fs := PlannerFields(vid, pid);
    assert fs != [];
    hide Claims, AreValues, Render, DecodePattern, DecodeModalias, Upper, PlannerPattern, PlannerFields, FieldsMatch;
    PlannerRender(vid, pid);
    DecodeRendered(fs);
    ClaimsFields(PlannerPattern(vid, pid), modalias);
    if DecodeModalias(modalias).Some? {
      PlannerFieldsMatch(vid, pid, DecodeModalias(modalias).value);
    }
  }

  /** The fields of a vendor-specific FF/FF/00 interface of the device. */
  predicate IsInterfaceOf(vid: string, pid: string, ms: seq<string>) {
    |ms| >= 9 && ms[0] == Upper(vid) && ms[1] == Upper(pid) && ms[6] == "FF" && ms[7] == "FF" && ms[8] == "00"
  }

  lemma PlannerFieldsMatch(vid: string, pid: string, ms: seq<string>)
    requires IsHex4(vid) && IsHex4(pid)
    ensures FieldsMatch(PlannerFields(vid, pid), ms) <==> IsInterfaceOf(vid, pid, ms)
  {
    UpperHex4(vid);
    UpperHex4(pid);
    hide Upper;
    var fs := PlannerFields(vid, pid);
    if FieldsMatch(fs, ms) {
      assert FieldMatches(fs[0], ms, 0) && FieldMatches(fs[1], ms, 1);
      assert FieldMatches(fs[6], ms, 6) && FieldMatches(fs[7], ms, 7) && FieldMatches(fs[8], ms, 8);
    }
  }

  // ------------------------------------------------- the enumerator's modalias

  function HexDigit(n: nat): char
    requires n < 16
  {
    if n < 10 then '0' + n as char else 'A' + (n - 10) as char
  }

  function HexText(n: nat): (s: string)
    ensures |s| >= 1 && AllUpperHex(s)
    ensures n < 16 <==> |s| == 1
    ensures n < 256 ==> |s| <= 2
    ensures n >= 256 ==> |s| >= 3
  {
    if n < 16 then [HexDigit(n)] else HexText(n / 16) + [HexDigit(n % 16)]
  }

  /** The format specification 02X. */
  function Hex02(n: int): string {
    if n < 0 then "-" + HexText(-n)
    else if n < 16 then "0" + HexText(n)
    else HexText(n)
  }

  function BuildDeviceModalias(vid: string, pid: string, bcd: string, dc: int, dsc: int, dp: int): string {
    "usb:" + ("v" + Upper(vid) + ("p" + Upper(pid) + ("d" + Upper(bcd) + ClassGroups(dc, dsc, dp))))
  }

  function ClassGroups(dc: int, dsc: int, dp: int): string {
    "dc" + Hex02(dc) + ("dsc" + Hex02(dsc) + ("dp" + Hex02(dp)))
  }

  function HexValue(s: string): nat
    requires AllUpperHex(s)
  {
    if s == [] then 0
    else HexValue(s[..|s| - 1]) * 16 + (var c := s[|s| - 1]; if IsDigit(c) then (c - '0') as nat else (c - 'A') as nat + 10)
  }

  lemma {:induction false} HexRoundTrip(n: nat)
    ensures HexValue(HexText(n)) == n
  {
    var s := HexText(n);
    if n < 16 {
      assert s[..0] == [];
    } else {
      HexRoundTrip(n / 16);
      assert s[..|s| - 1] == HexText(n / 16);
    }
  }

  predicate IsByte(n: int) { 0 <= n < 256 }

  lemma Hex02Shape(n: int)
    ensures IsByte(n) ==> |Hex02(n)| == 2 && AllUpperHex(Hex02(n)) && HexValue(Hex02(n)) == n
    ensures !IsByte(n) ==> |Hex02(n)| >= 2 && (!IsHex(Hex02(n)[0]) || (|Hex02(n)| >= 3 && AllUpperHex(Hex02(n))))
    ensures Hex02(n)[0] != '*'
  {
    if n >= 0 {
      HexRoundTrip(n);
      if n < 16 {
        assert Hex02(n)[..1] == "0" && Hex02(n)[1..] == HexText(n);
        assert "0"[..0] == [];
        assert HexValue("0") == 0;
        assert HexText(n)[..0] == [];
      }
    } else {
      assert Hex02(n)[0] == '-';
    }
  }

  lemma ParseCaseBlind(i: nat, a: string, b: string)
    requires i <= FIELD_COUNT && SameUpToCase(a, b)
    ensures ParseFields(i, a) == ParseFields(i, b)
  {
    hide ParseFields, AreValues;
    if ParseFields(i, a).Some? {
      ParseIsRender(i, a);
      ParseOfRender(i, ParseFields(i, a).value, b);
    }
    if ParseFields(i, b).Some? {
      ParseIsRender(i, b);
      ParseOfRender(i, ParseFields(i, b).value, a);
    }
  }

  lemma SameText(s: string)
    ensures SameUpToCase(s, s)
  {
  }

  lemma GoodGroup(i: nat, v: string, rest: string)
    requires i < FIELD_COUNT && IsConcrete(i, v)
    ensures ParseFields(i, Tag(i) + v + rest) == Prepend(v, ParseFields(i + 1, rest))
  {
    hide Tag, SameUpToCase, ParseFields, ParseValue, IsConcrete;
    SameText(Tag(i));
    SameText(v);
    ConcreteIsValue(i, v);
    assert Tag(i) + v + rest == Tag(i) + (v + rest);
    ParseFieldsStep(i, Tag(i), v + rest);
    ParseValueOf(i, v, v, rest);
  }

  lemma ConcreteIsValue(i: nat, v: string)
    requires IsConcrete(i, v)
    ensures IsFieldValue(i, v)
  {
  }

  /** A class number that does not print as two digits derails the parser: its
      third digit stands where the next tag should. */
  lemma BadGroup(i: nat, n: int, rest: string)
    requires 3 <= i <= 5 && !IsByte(n)
    requires i == 5 || (rest != [] && rest[0] == 'd')
    ensures ParseFields(i, Tag(i) + Hex02(n) + rest) == None
  {
    hide Tag, SameUpToCase, ParseFields, Hex02;
    var h := Hex02(n);
    Hex02Shape(n);
    SameText(Tag(i));
    assert Tag(i) + h + rest == Tag(i) + (h + rest);
    ParseFieldsStep(i, Tag(i), h + rest);
    if IsHex(h[0]) {
      ThirdDigit(i, h, rest);
    } else {
      assert (h + rest)[0] == h[0];
      assert !AllHex((h + rest)[..2]) by {
        assert (h + rest)[..2][0] == h[0];
      }
    }
  }

  lemma ThirdDigit(i: nat, h: string, rest: string)
    requires 3 <= i <= 5 && |h| >= 3 && AllUpperHex(h)
    requires i == 5 || (rest != [] && rest[0] == 'd')
    ensures ParseValue(i, h + rest) == None
  {
    hide ParseFields, Lower;
    var s := h + rest;
    assert s[0] == h[0] && IsUpperHex(h[0]) && IsUpperHex(h[2]);
    assert s[2..][0] == h[2];
    if i < 5 {
      assert s[2..][1] == if |h| > 3 then h[3] else rest[0];
      assert |h| > 3 ==> IsUpperHex(h[3]);
    }
    NotATag(i + 1, s[2..]);
  }

  lemma NotATag(i: nat, s: string)
    requires 4 <= i <= 6 && s != [] && IsUpperHex(s[0])
    requires i < 6 ==> |s| >= 2 && (IsUpperHex(s[1]) || s[1] == 'd')
    ensures ParseFields(i, s) == None
  {
    var token := Take(s, |Tag(i)|);
    if i < 6 {
      assert Lower(token)[1] == LowerChar(s[1]) != Tag(i)[1];
    } else {
      assert Lower(token)[0] == LowerChar(s[0]) != Tag(i)[0];
    }
  }

  lemma ClassGroupsDecode(dc: int, dsc: int, dp: int)
    ensures ParseFields(3, ClassGroups(dc, dsc, dp)) ==
              if IsByte(dc) && IsByte(dsc) && IsByte(dp) then Some([Hex02(dc), Hex02(dsc), Hex02(dp)]) else None
  {
    hide ParseFields, Hex02;
    Hex02Shape(dc);
    Hex02Shape(dsc);
    Hex02Shape(dp);
    var g5, h := "dp" + Hex02(dp), Hex02(dp);
    var g4 := "dsc" + Hex02(dsc) + g5;
    assert g5 == Tag(5) + h + "";
    assert ParseFields(6, "") == Some([]) by { EndOfBody(6); }
    if !IsByte(dc) {
      BadGroup(3, dc, g4);
    } else {
      GoodGroup(3, Hex02(dc), g4);
      if !IsByte(dsc) {
        BadGroup(4, dsc, g5);
      } else {
        GoodGroup(4, Hex02(dsc), g5);
        if !IsByte(dp) {
          BadGroup(5, dp, "");
        } else {
          GoodGroup(5, h, "");
          assert [Hex02(dc)] + ([Hex02(dsc)] + ([h] + [])) == [Hex02(dc), Hex02(dsc), h];
        }
      }
    }
  }

  lemma EndOfBody(i: nat)
    requires i <= FIELD_COUNT
    ensures ParseFields(i, "") == Some([])
  {
  }

  function DeviceFields(vid: string, pid: string, bcd: string, dc: int, dsc: int, dp: int): seq<string> {
    [Upper(vid), Upper(pid), Upper(bcd), Hex02(dc), Hex02(dsc), Hex02(dp)]
  }

  lemma DeviceBodyDecodes(vid: string, pid: string, bcd: string, dc: int, dsc: int, dp: int)
    requires IsHex4(vid) && IsHex4(pid) && IsHex4(bcd)
    ensures ParseFields(0, Drop(BuildDeviceModalias(vid, pid, bcd, dc, dsc, dp), 4)) ==
              if IsByte(dc) && IsByte(dsc) && IsByte(dp) then Some(DeviceFields(vid, pid, bcd, dc, dsc, dp)) else None
  {
    hide ParseFields, Upper, Hex02, ClassGroups;
    UpperHex4(vid);
    UpperHex4(pid);
    UpperHex4(bcd);
    ClassGroupsDecode(dc, dsc, dp);
    var g3 := ClassGroups(dc, dsc, dp);
    var g2 := "d" + Upper(bcd) + g3;
    var g1 := "p" + Upper(pid) + g2;
    var g0 := "v" + Upper(vid) + g1;
    GoodGroup(2, Upper(bcd), g3);
    GoodGroup(1, Upper(pid), g2);
    GoodGroup(0, Upper(vid), g1);
    assert Drop("usb:" + g0, 4) == g0;
    assert [Upper(vid)] + ([Upper(pid)] + ([Upper(bcd)] + [Hex02(dc), Hex02(dsc), Hex02(dp)]))
        == DeviceFields(vid, pid, bcd, dc, dsc, dp);
  }

  lemma DeviceModaliasIsPattern(vid: string, pid: string, bcd: string, dc: int, dsc: int, dp: int)
    requires IsHex4(vid) && IsHex4(pid) && IsHex4(bcd) && IsByte(dc) && IsByte(dsc) && IsByte(dp)
    ensures AreConcrete(0, DeviceFields(vid, pid, bcd, dc, dsc, dp))
    ensures Pattern(DeviceFields(vid, pid, bcd, dc, dsc, dp)) == BuildDeviceModalias(vid, pid, bcd, dc, dsc, dp)
  {
    UpperHex4(vid);
    UpperHex4(pid);
    UpperHex4(bcd);
    Hex02Shape(dc);
    Hex02Shape(dsc);
    Hex02Shape(dp);
    var fs := DeviceFields(vid, pid, bcd, dc, dsc, dp);
    hide Upper, Hex02, Render, AreConcrete;
    var f5, f4, f3 := [fs[5]], [fs[4]] + [fs[5]], [fs[3]] + ([fs[4]] + [fs[5]]);
    var f2, f1 := [fs[2]] + f3, [fs[1]] + ([fs[2]] + f3);
    NoFields(6);
    ConcreteCons(5, fs[5], []);
    assert [fs[5]] + [] == f5 && "dp" + fs[5] + "" == "dp" + fs[5];
    ConcreteCons(4, fs[4], f5);
    ConcreteCons(3, fs[3], f4);
    ConcreteCons(2, fs[2], f3);
    ConcreteCons(1, fs[1], f2);
    ConcreteCons(0, fs[0], f1);
    assert [fs[0]] + f1 == fs;
  }

  lemma NoFields(i: nat)
    requires i <= FIELD_COUNT
    ensures AreConcrete(i, []) && Render(i, []) == ""
  {
  }

  lemma ConcreteCons(i: nat, v: string, vs: seq<string>)
    requires i < FIELD_COUNT && IsConcrete(i, v) && AreConcrete(i + 1, vs)
    ensures AreConcrete(i, [v] + vs) && Render(i, [v] + vs) == Tag(i) + v + Render(i + 1, vs)
  {
    hide Tag, IsConcrete;
    assert ([v] + vs)[1..] == vs;
  }

  lemma Hex02End(n: int)
    ensures var s := Hex02(n); |s| >= 2 && IsUpperHex(s[|s| - 1])
  {
  }

  lemma DeviceModaliasShape(vid: string, pid: string, bcd: string, dc: int, dsc: int, dp: int)
    ensures var s := BuildDeviceModalias(vid, pid, bcd, dc, dsc, dp);
            |s| > 5 && s[0] == 'u' && s[4] == 'v' && NotSpace(s[|s| - 1])
  {
    Hex02End(dp);
    hide Hex02, Upper;
    var s := BuildDeviceModalias(vid, pid, bcd, dc, dsc, dp);
    var h := Hex02(dp);
    var tail := "dp" + h;
    assert tail[|tail| - 1] == h[|h| - 1];
    var g4 := "dsc" + Hex02(dsc) + tail;
    var g3 := "dc" + Hex02(dc) + g4;
    assert g3[|g3| - 1] == tail[|tail| - 1];
    var g2 := "d" + Upper(bcd) + g3;
    var g1 := "p" + Upper(pid) + g2;
    var g0 := "v" + Upper(vid) + g1;
    assert g1[|g1| - 1] == g2[|g2| - 1] == g3[|g3| - 1];
    assert s == "usb:" + g0;
    assert s[|s| - 1] == g0[|g0| - 1] == g1[|g1| - 1];
    assert s[4] == g0[0] == 'v';
  }

  lemma SanitizedBody(s: string)
    requires |s| > 5 && s[0] == 'u' && s[4] == 'v' && NotSpace(s[|s| - 1]) && SanitizeModalias(s).Some?
    ensures var u := SanitizeModalias(s).value;
            ParseBody(Drop(u, 4)) == ParseFields(0, Drop(s, 4))
  {
    hide IsModalias, Strip, ParseFields, Upper;
    StripIdentity(s, IsSpace);
    UpperDrop(s);
    ParseCaseBlind(0, Drop(Upper(s), 4), Drop(s, 4));
  }

  lemma UpperDrop(s: string)
    requires |s| > 5 && s[4] == 'v'
    ensures SameUpToCase(Drop(Upper(s), 4), Drop(s, 4)) && Drop(Upper(s), 4) != "*"
  {
    var u := Upper(s);
    forall k | 0 <= k < |s| - 4
      ensures UpperChar(u[4..][k]) == UpperChar(s[4..][k])
    {
      assert u[4..][k] == UpperChar(s[k + 4]);
    }
  }

  /** The enumerator's modalias decodes exactly when all three class numbers fit a
      byte, and then to the ids, the revision and the class bytes it was built of. */
  lemma DeviceModaliasDecodes(vid: string, pid: string, bcd: string, dc: int, dsc: int, dp: int)
    requires IsHex4(vid) && IsHex4(pid) && IsHex4(bcd)
    ensures DecodeModalias(BuildDeviceModalias(vid, pid, bcd, dc, dsc, dp)) ==
              if IsByte(dc) && IsByte(dsc) && IsByte(dp) then Some(DeviceFields(vid, pid, bcd, dc, dsc, dp)) else None
    ensures SameUpToCase(vid, Upper(vid)) && SameUpToCase(pid, Upper(pid)) && SameUpToCase(bcd, Upper(bcd))
  {
    SpellingOfUpper(vid);
    SpellingOfUpper(pid);
    SpellingOfUpper(bcd);
    hide ParseFields, ParseBody, SanitizeModalias, Hex02, Upper, SameUpToCase, AreConcrete, BuildDeviceModalias;
    var s := BuildDeviceModalias(vid, pid, bcd, dc, dsc, dp);
    DeviceBodyDecodes(vid, pid, bcd, dc, dsc, dp);
    DeviceModaliasShape(vid, pid, bcd, dc, dsc, dp);
    if IsByte(dc) && IsByte(dsc) && IsByte(dp) {
      DeviceModaliasIsPattern(vid, pid, bcd, dc, dsc, dp);
      SanitizeRendered(DeviceFields(vid, pid, bcd, dc, dsc, dp));
    }
    if SanitizeModalias(s).Some? {
      SanitizedBody(s);
    }
  }

  /** The planner's row never claims a modalias the enumerator builds, of its own device
      or another, whether or not its class numbers fit a byte. */
  lemma DeviceModaliasIsNeverClaimed(vid: string, pid: string, v: string, p: string, bcd: string, dc: int, dsc: int, dp: int)
    requires IsHex4(vid) && IsHex4(pid) && IsHex4(v) && IsHex4(p) && IsHex4(bcd)
    ensures !Claims(PlannerPattern(vid, pid), BuildDeviceModalias(v, p, bcd, dc, dsc, dp))
  {
    hide Claims, PlannerPattern, BuildDeviceModalias, DecodeModalias, IsHex4, Upper, Hex02;
    PlannerRowClaims(vid, pid, BuildDeviceModalias(v, p, bcd, dc, dsc, dp));
    DeviceModaliasDecodes(v, p, bcd, dc, dsc, dp);
  }

  lemma SpellingOfUpper(s: string)
    ensures SameUpToCase(s, Upper(s))
  {
  }

  // ------------------------------------------------- what the matcher accepts

  lemma HexGroupParts(tag: string, width: nat, s: string)
    requires HexGroup(tag, width, s).Some?
    ensures var h, rest := s[|tag|..|tag| + width], HexGroup(tag, width, s).value;
            s == tag + (h + rest) && |h| == width && AllHex(h)
  {
  }

  lemma HexValueOf(i: nat, h: string, rest: string)
    requires i < FIELD_COUNT && |h| == Width(i) && AllHex(h)
    ensures IsConcrete(i, Upper(h)) && ParseFields(i, Tag(i) + (h + rest)) == Prepend(Upper(h), ParseFields(i + 1, rest))
  {
    SameText(Tag(i));
    hide Tag, SameUpToCase, ParseFields, ParseValue, Upper, AllHex, AllUpperHex;
    ConcreteIsValue(i, Upper(h));
    ParseFieldsStep(i, Tag(i), h + rest);
    ParseValueOf(i, Upper(h), h, rest);
  }

  /** A modalias that passes both the grammar and the parser is a spelling of at
      least vid, pid and revision, all three concrete. */
  lemma DecodedModalias(modalias: string, fs: seq<string>)
    requires DecodeModalias(modalias) == Some(fs)
    ensures "usb:" <= Strip(modalias, IsSpace)
    ensures |fs| >= 3 && IsConcrete(0, fs[0]) && IsConcrete(1, fs[1]) && IsConcrete(2, fs[2])
    ensures AreValues(0, fs) && SameUpToCase(Strip(modalias, IsSpace), Pattern(fs))
  {
    hide Strip, Upper, Render, SameUpToCase, IsConcrete, AreValues, IsModalias, ParseFields;
    var v := Strip(modalias, IsSpace);
    var a, b, c, rest := ModaliasGroups(v);
    UpperTail(v);
    ParseCaseBlind(0, Drop(Upper(v), 4), v[4..]);
    ParseBodyExact(v[4..], fs);
    PrefixSpelled(v, fs);
  }

  lemma ModaliasGroups(v: string) returns (a: string, b: string, c: string, rest: string)
    requires IsModalias(v)
    ensures "usb:" <= v && |v| > 5
    ensures IsConcrete(0, Upper(a)) && IsConcrete(1, Upper(b)) && IsConcrete(2, Upper(c))
    ensures ParseFields(0, v[4..]) == Prepend(Upper(a), Prepend(Upper(b), Prepend(Upper(c), ParseFields(3, rest))))
  {
    hide HexGroup, OptionalGroups, IsConcrete, ParseFields, Upper, Tag;
    var g0 := HexGroup("v", 4, v[4..]).value;
    var g1 := HexGroup("p", 4, g0).value;
    rest := HexGroup("d", 4, g1).value;
    HexGroupParts("v", 4, v[4..]);
    HexGroupParts("p", 4, g0);
    HexGroupParts("d", 4, g1);
    a, b, c := v[4..][1..5], g0[1..5], g1[1..5];
    FirstTags();
    HexValueOf(0, a, g0);
    HexValueOf(1, b, g1);
    HexValueOf(2, c, rest);
  }

  lemma PrefixSpelled(v: string, fs: seq<string>)
    requires "usb:" <= v && |fs| <= FIELD_COUNT && SameUpToCase(v[4..], Render(0, fs))
    ensures SameUpToCase(v, Pattern(fs))
  {
    hide Render;
    SameText("usb:");
    assert v == "usb:" + v[4..];
    SameUpToCaseConcat("usb:", v[4..], "usb:", Render(0, fs));
  }

  lemma FirstTags()
    ensures Tag(0) == "v" && Tag(1) == "p" && Tag(2) == "d"
  {
  }

  lemma UpperTail(v: string)
    requires "usb:" <= v && |v| > 5
    ensures Drop(Upper(v), 4) != "*" && v[4..] != "*" && SameUpToCase(Drop(Upper(v), 4), v[4..])
  {
    var u := Upper(v);
    forall k | 0 <= k < |v| - 4
      ensures UpperChar(u[4..][k]) == UpperChar(v[4..][k])
    {
      assert u[4..][k] == UpperChar(v[k + 4]);
    }
  }
}
