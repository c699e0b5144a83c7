/** Printing devices in pnputil's documented format and parsing them again. */
module PnputilRoundTrip {
  import opened Text
  import opened Pnputil

  // -------------------------------------------------------------------- printing

  function FieldLine(key: string, value: string): string { key + ":\t\t\t " + value }

  function OptionalLine(key: string, value: Option<string>): seq<string> {
    if value.None? then [] else [FieldLine(key, value.value)]
  }

  function IdsText(ids: seq<string>): Option<string> { if ids == [] then None else Some(Join(ids, " ")) }

  function ProblemText(p: Option<nat>): Option<string> { if p.None? then None else Some(Decimal(p.value)) }

  /** One block: the fields that are present, then a blank line. */
  function DeviceLines(d: WindowsDevice): seq<string> {
    [FieldLine("Instance ID", d.instanceId)]
    + (OptionalLine("Device Description", d.description)
    + (OptionalLine("Status", d.status)
    + (OptionalLine("Problem Code", ProblemText(d.problem))
    + (OptionalLine("Hardware IDs", IdsText(d.hardwareIds))
    + (OptionalLine("Compatible IDs", IdsText(d.compatibleIds))
    + [""])))))
  }

  function AllLines(ds: seq<WindowsDevice>): seq<string> {
    if ds == [] then [] else DeviceLines(ds[0]) + AllLines(ds[1..])
  }

  /** The lines as text, each one ended by a newline. */
  function TextOf(lines: seq<string>): string {
    if lines == [] then "" else lines[0] + "\n" + TextOf(lines[1..])
  }

  function Print(ds: seq<WindowsDevice>): string { TextOf(AllLines(ds)) }

  // ------------------------------------------------------------ what is printable

  /** Fits on a line and has no white space at either end. */
  predicate IsValue(s: string) {
    All(s, NotLineBreak) && (s == "" || (!IsSpace(s[0]) && !IsSpace(s[|s| - 1])))
  }

  predicate IsToken(s: string) { s != "" && All(s, NotSpace) }

  predicate AreTokens(ids: seq<string>) { forall i :: 0 <= i < |ids| ==> IsToken(ids[i]) }

  predicate IsPrintableDevice(d: WindowsDevice) {
    && d.instanceId != "" && IsValue(d.instanceId)
    && (d.description.Some? ==> IsValue(d.description.value))
    && (d.status.Some? ==> IsValue(d.status.value))
    && AreTokens(d.hardwareIds) && AreTokens(d.compatibleIds)
  }

  function UpperAll(ids: seq<string>): seq<string> {
    if ids == [] then [] else [Upper(ids[0])] + UpperAll(ids[1..])
  }

  /** What the parser makes of a device: its ids in upper case. */
  function Normalized(d: WindowsDevice): WindowsDevice {
    d.(hardwareIds := UpperAll(d.hardwareIds), compatibleIds := UpperAll(d.compatibleIds))
  }

  function NormalizedAll(ds: seq<WindowsDevice>): seq<WindowsDevice> {
    if ds == [] then [] else [Normalized(ds[0])] + NormalizedAll(ds[1..])
  }

  // ---------------------------------------------------------------- single lines

  predicate IsFieldKey(key: string) {
    key != "" && All(key, IsKeyChar) && IsKeyStart(key[0]) && !IsSpace(key[|key| - 1])
  }

  lemma StripSpaced(value: string)
    requires IsValue(value)
    ensures Strip(" " + value, IsSpace) == value
  {
    hide NotLineBreak;
    if value == "" {
      assert " " + value == "" + " ";
      assert LStrip(" ", IsSpace) == "" by { assert " "[1..] == ""; }
    } else {
      SpanUnique(" ", value, IsSpace);
      assert (" " + value)[1..] == value;
      RStripSuffix(value, "", IsSpace);
      assert value + "" == value;
    }
  }

  lemma StripKey(key: string)
    requires IsFieldKey(key)
    ensures Strip(key, IsSpace) == key
  {
    StripIdentity(key, IsSpace);
  }

  /** The key is read up to the colon. */
  lemma KeyReads(key: string, rest: string)
    requires IsFieldKey(key)
    ensures var line := key + (":" + rest);
            && Span(line, IsKeyChar) == |key| && line[..|key|] == key && line[0] == key[0]
            && line[|key|] == ':' && line[|key| + 1..] == rest
  {
    assert !IsKeyChar(':');
    hide IsKeyChar, IsKeyStart, IsSpace;
    SpanUnique(key, ":" + rest, IsKeyChar);
  }

  /** The tabs behind the colon end at the space in front of the value. */
  lemma TabsRead(value: string)
    ensures var rest := "\t\t\t" + (" " + value); Span(rest, IsTab) == 3 && rest[3..] == " " + value
  {
    TabsStop();
    hide IsTab;
    assert (" " + value)[0] == ' ';
    SpanUnique("\t\t\t", " " + value, IsTab);
  }

  lemma ValueHasNoNewline(value: string)
    requires IsValue(value)
    ensures '\n' !in " " + value
  {
    assert !NotLineBreak('\n');
    hide IsSpace, IsLineBreak;
  }

  lemma KeyIsNotBlank(key: string, rest: string)
    requires IsFieldKey(key)
    ensures !IsBlankLine(key + rest)
  {
    assert !IsSpace(key[0]);
    hide IsKeyStart, IsKeyChar, IsSpace;
    assert (key + rest)[0] == key[0];
  }

  lemma FieldReads(key: string, value: string)
    requires IsFieldKey(key) && IsValue(value)
    ensures MatchField(FieldLine(key, value)) == Some((key, value)) && !IsBlankLine(FieldLine(key, value))
  {
    var rest := "\t\t\t" + (" " + value);
    assert FieldLine(key, value) == key + (":" + rest);
    StripKey(key);
    StripSpaced(value);
    KeyReads(key, rest);
    TabsRead(value);
    ValueHasNoNewline(value);
    KeyIsNotBlank(key, ":" + rest);
    hide Strip, Span, IsSpace, IsValue, IsBlankLine, FieldLine, IsTab;
  }

  /** A line, spelled out as a field: a key, a colon, tabs, and the rest. */
  predicate IsSpelledField(line: string, key: string, tabs: string, rest: string) {
    && line == key + (":" + (tabs + rest))
    && key != "" && All(key, IsKeyChar) && IsKeyStart(key[0])
    && tabs != "" && All(tabs, IsTab) && (rest == "" || !IsTab(rest[0])) && '\n' !in rest
  }

  /** Exactly the spelled-out lines are fields, and what is read is the key and the rest
      without white space at their ends. */
  lemma FieldExact(line: string, k: string, v: string)
    ensures MatchField(line) == Some((k, v)) <==>
              exists key, tabs, rest :: IsSpelledField(line, key, tabs, rest)
                                        && k == Strip(key, IsSpace) && v == Strip(rest, IsSpace)
  {
    hide Strip, IsSpace, IsSpelledField;
    if MatchField(line).Some? {
      var key, tabs, rest := FieldIsSpelled(line);
    }
    if key, tabs, rest :| IsSpelledField(line, key, tabs, rest)
                          && k == Strip(key, IsSpace) && v == Strip(rest, IsSpace) {
      SpelledFieldReads(line, key, tabs, rest);
    }
  }

  lemma SpelledFieldReads(line: string, key: string, tabs: string, rest: string)
    requires IsSpelledField(line, key, tabs, rest)
    ensures MatchField(line) == Some((Strip(key, IsSpace), Strip(rest, IsSpace)))
  {
    assert !IsKeyChar(':');
    hide Strip, IsSpace, IsKeyStart, IsKeyChar, IsTab;
    var t := tabs + rest;
    SpanUnique(key, ":" + t, IsKeyChar);
    SpanUnique(tabs, rest, IsTab);
    hide Span;
    assert line[..|key|] == key && line[|key|] == ':' && line[|key| + 1..] == t && line[0] == key[0];
    assert t[|tabs|..] == rest;
  }

  lemma FieldIsSpelled(line: string) returns (key: string, tabs: string, rest: string)
    requires MatchField(line).Some?
    ensures IsSpelledField(line, key, tabs, rest)
    ensures MatchField(line) == Some((Strip(key, IsSpace), Strip(rest, IsSpace)))
  {
    hide Strip, IsSpace, IsKeyStart, IsKeyChar, IsTab;
    var n := Span(line, IsKeyChar);
    key := line[..n];
    var t := line[n + 1..];
    var m := Span(t, IsTab);
    tabs, rest := t[..m], t[m..];
    hide Span;
    assert t == tabs + rest && line == key + (":" + t);
  }

  lemma TabsStop()
    ensures All("\t\t\t", IsTab) && !IsTab(' ')
  {
  }

  lemma KeysAreFields()
    ensures IsFieldKey("Instance ID") && IsFieldKey("Device Description") && IsFieldKey("Status")
    ensures IsFieldKey("Problem Code") && IsFieldKey("Hardware IDs") && IsFieldKey("Compatible IDs")
  {
    assert IsFieldKey("Device Description") && IsFieldKey("Status") && IsFieldKey("Problem Code");
    IdKeysAreFields();
    hide IsFieldKey;
  }

  lemma IdKeysAreFields()
    ensures IsFieldKey("Instance ID") && IsFieldKey("Hardware IDs") && IsFieldKey("Compatible IDs")
  {
  }

  // ------------------------------------------------------------------ field values

  lemma {:induction false} DigitsOnly(s: string)
    requires AllDigits(s)
    ensures DigitsIn(s) == s
  {
    if s != "" {
      DigitsOnly(s[1..]);
      assert s == [s[0]] + s[1..];
    }
  }

  lemma ProblemRoundTrip(n: nat)
    ensures ParseProblem(Decimal(n)) == Some(n) && IsValue(Decimal(n))
  {
    DigitsOnly(Decimal(n));
    DecimalRoundTrip(n);
    DigitsAreValue(Decimal(n));
  }

  lemma DigitsAreValue(s: string)
    requires AllDigits(s)
    ensures IsValue(s)
  {
  }

  lemma TokenFacts(s: string)
    requires IsToken(s)
    ensures Strip(s, IsSpace) == s && ' ' !in s && All(s, NotLineBreak) && !IsSpace(s[0]) && !IsSpace(s[|s| - 1])
  {
    StripIdentity(s, IsSpace);
    assert forall i :: 0 <= i < |s| ==> NotSpace(s[i]);
  }

  lemma {:induction false} NormalizeTokens(ids: seq<string>)
    requires AreTokens(ids)
    ensures NormalizeIds(ids) == UpperAll(ids)
  {
    hide IsToken, Strip, Upper;
    if ids != [] {
      assert IsToken(ids[0]);
      TokenFacts(ids[0]);
      TokenNonEmpty(ids[0]);
      assert AreTokens(ids[1..]);
      NormalizeTokens(ids[1..]);
    }
  }

  lemma TokenNonEmpty(s: string)
    requires IsToken(s)
    ensures s != ""
  {
  }

  lemma {:induction false} JoinIsValue(ids: seq<string>)
    requires ids != [] && AreTokens(ids)
    ensures Join(ids, " ") != "" && IsValue(Join(ids, " "))
  {
    hide IsToken, NotLineBreak, IsSpace;
    assert IsToken(ids[0]);
    TokenFacts(ids[0]);
    TokenNonEmpty(ids[0]);
    if |ids| > 1 {
      assert AreTokens(ids[1..]);
      JoinIsValue(ids[1..]);
      var rest := Join(ids[1..], " ");
      SpaceIsNoBreak();
      var j := Join(ids, " ");
      assert j == ids[0] + " " + rest;
      assert j[0] == ids[0][0] && j[|j| - 1] == rest[|rest| - 1];
    }
  }

  lemma SpaceIsNoBreak()
    ensures All(" ", NotLineBreak)
  {
  }

  lemma IdsRoundTrip(ids: seq<string>)
    requires ids != [] && AreTokens(ids)
    ensures ParseIds(Join(ids, " ")) == UpperAll(ids)
  {
    hide Split, Join, NormalizeIds, UpperAll, IsToken;
    forall i | 0 <= i < |ids|
      ensures ' ' !in ids[i]
    {
      assert IsToken(ids[i]);
      TokenFacts(ids[i]);
    }
    SplitOfJoin(ids, ' ');
    NormalizeTokens(ids);
  }

  // -------------------------------------------------------------------- one block

  predicate IsOptionalValue(v: Option<string>) { v.Some? ==> IsValue(v.value) }

  lemma OptionalReads(d: WindowsDevice, key: string, value: Option<string>, rest: seq<string>)
    requires IsFieldKey(key) && key != "Instance ID" && IsOptionalValue(value)
    ensures ParseFrom(Some(d), OptionalLine(key, value) + rest)
         == ParseFrom(Some(if value.None? then d else Assign(d, key, value.value)), rest)
  {
    hide IsFieldKey, IsValue, FieldLine, MatchField, Assign, IsBlankLine;
    if value.None? {
      assert OptionalLine(key, value) + rest == rest;
    } else {
      FieldReads(key, value.value);
      ParseFromCons(Some(d), FieldLine(key, value.value), rest);
      NothingBefore(ParseFrom(Some(Assign(d, key, value.value)), rest));
    }
  }

  lemma NothingBefore(ds: seq<WindowsDevice>)
    ensures [] + ds == ds
  {
  }

  lemma AssignIds(d: WindowsDevice, ids: seq<string>)
    requires AreTokens(ids)
    ensures IsOptionalValue(IdsText(ids))
    ensures d.hardwareIds == [] ==>
              (if IdsText(ids).None? then d else Assign(d, "Hardware IDs", IdsText(ids).value)) == d.(hardwareIds := UpperAll(ids))
    ensures d.compatibleIds == [] ==>
              (if IdsText(ids).None? then d else Assign(d, "Compatible IDs", IdsText(ids).value)) == d.(compatibleIds := UpperAll(ids))
  {
    hide ParseIds, IsValue, AreTokens, Join, ParseProblem;
    if ids != [] {
      IdsRoundTrip(ids);
      JoinIsValue(ids);
    }
  }

  lemma AssignProblem(d: WindowsDevice, p: Option<nat>)
    requires d.problem == None
    ensures IsOptionalValue(ProblemText(p))
    ensures (if ProblemText(p).None? then d else Assign(d, "Problem Code", ProblemText(p).value)) == d.(problem := p)
  {
    hide ParseProblem, IsValue, ParseIds, Decimal;
    if p.Some? {
      ProblemRoundTrip(p.value);
    }
  }

  lemma AssignTexts(d: WindowsDevice, v: Option<string>)
    ensures d.description == None ==> (if v.None? then d else Assign(d, "Device Description", v.value)) == d.(description := v)
    ensures d.status == None ==> (if v.None? then d else Assign(d, "Status", v.value)) == d.(status := v)
  {
    hide ParseProblem, ParseIds;
  }

  lemma BlankLineIsBlank()
    ensures IsBlankLine("")
  {
  }

  /** The lines of one printed device parse to that device, whatever follows. */
  lemma DeviceReads(d: WindowsDevice, rest: seq<string>)
    requires IsPrintableDevice(d)
    ensures ParseFrom(None, DeviceLines(d) + rest) == [Normalized(d)] + ParseFrom(None, rest)
  {
    KeysAreFields();
    BlankLineIsBlank();
    hide *;
    PrintableParts(d);
    var d0 := Opened(d.instanceId);
    var d1 := d0.(description := d.description);
    var d2 := d1.(status := d.status);
    var d3 := d2.(problem := d.problem);
    var d4 := d3.(hardwareIds := UpperAll(d.hardwareIds));
    var d5 := d4.(compatibleIds := UpperAll(d.compatibleIds));
    OpenedIsEmpty(d.instanceId);
    var r5 := [""] + rest;
    var l5 := OptionalLine("Compatible IDs", IdsText(d.compatibleIds));
    var l4 := OptionalLine("Hardware IDs", IdsText(d.hardwareIds));
    var l3 := OptionalLine("Problem Code", ProblemText(d.problem));
    var l2 := OptionalLine("Status", d.status);
    var l1 := OptionalLine("Device Description", d.description);
    LinesOf(d, rest);
    InstanceReads(d.instanceId, l1 + (l2 + (l3 + (l4 + (l5 + r5)))));
    KeysDiffer();
    AssignTexts(d0, d.description);
    OptionalReads(d0, "Device Description", d.description, l2 + (l3 + (l4 + (l5 + r5))));
    AssignTexts(d1, d.status);
    OptionalReads(d1, "Status", d.status, l3 + (l4 + (l5 + r5)));
    AssignProblem(d2, d.problem);
    OptionalReads(d2, "Problem Code", ProblemText(d.problem), l4 + (l5 + r5));
    AssignIds(d3, d.hardwareIds);
    OptionalReads(d3, "Hardware IDs", IdsText(d.hardwareIds), l5 + r5);
    AssignIds(d4, d.compatibleIds);
    OptionalReads(d4, "Compatible IDs", IdsText(d.compatibleIds), r5);
    ParseFromCons(Some(d5), "", rest);
    BlankStep(Some(d5), "");
    NormalizedIs(d, d5);
  }

  lemma PrintableParts(d: WindowsDevice)
    requires IsPrintableDevice(d)
    ensures d.instanceId != "" && IsValue(d.instanceId) && IsOptionalValue(d.description) && IsOptionalValue(d.status)
    ensures AreTokens(d.hardwareIds) && AreTokens(d.compatibleIds)
  {
  }

  lemma OpenedIsEmpty(id: string)
    ensures Opened(id) == WindowsDevice(id, None, [], [], None, None)
  {
  }

  lemma KeysDiffer()
    ensures "Device Description" != "Instance ID" && "Status" != "Instance ID" && "Problem Code" != "Instance ID"
    ensures "Hardware IDs" != "Instance ID" && "Compatible IDs" != "Instance ID"
  {
    assert |"Device Description"| == 18 && |"Status"| == 6 && |"Problem Code"| == 12 && |"Instance ID"| == 11;
    assert |"Hardware IDs"| == 12 && |"Compatible IDs"| == 14;
  }

  lemma LinesOf(d: WindowsDevice, rest: seq<string>)
    ensures DeviceLines(d) + rest ==
              [FieldLine("Instance ID", d.instanceId)]
              + (OptionalLine("Device Description", d.description)
              + (OptionalLine("Status", d.status)
              + (OptionalLine("Problem Code", ProblemText(d.problem))
              + (OptionalLine("Hardware IDs", IdsText(d.hardwareIds))
              + (OptionalLine("Compatible IDs", IdsText(d.compatibleIds))
              + ([""] + rest))))))
  {
    hide FieldLine, OptionalLine, ProblemText, IdsText;
    var l0, l1 := [FieldLine("Instance ID", d.instanceId)], OptionalLine("Device Description", d.description);
    var l2, l3 := OptionalLine("Status", d.status), OptionalLine("Problem Code", ProblemText(d.problem));
    var l4, l5 := OptionalLine("Hardware IDs", IdsText(d.hardwareIds)), OptionalLine("Compatible IDs", IdsText(d.compatibleIds));
    AppendInside(l5, [""], rest);
    AppendInside(l4, l5 + [""], rest);
    AppendInside(l3, l4 + (l5 + [""]), rest);
    AppendInside(l2, l3 + (l4 + (l5 + [""])), rest);
    AppendInside(l1, l2 + (l3 + (l4 + (l5 + [""]))), rest);
    AppendInside(l0, l1 + (l2 + (l3 + (l4 + (l5 + [""])))), rest);
  }

  lemma AppendInside(a: seq<string>, b: seq<string>, c: seq<string>)
    ensures (a + b) + c == a + (b + c)
  {
  }

  lemma InstanceReads(id: string, rest: seq<string>)
    requires IsFieldKey("Instance ID") && IsValue(id)
    ensures ParseFrom(None, [FieldLine("Instance ID", id)] + rest) == ParseFrom(Some(Opened(id)), rest)
  {
    hide FieldLine, MatchField, IsBlankLine, IsFieldKey, IsValue;
    FieldReads("Instance ID", id);
    ParseFromCons(None, FieldLine("Instance ID", id), rest);
    NothingBefore(ParseFrom(Some(Opened(id)), rest));
  }

  lemma NormalizedIs(d: WindowsDevice, d5: WindowsDevice)
    requires d.instanceId != ""
    requires d5 == WindowsDevice(d.instanceId, d.description, UpperAll(d.hardwareIds), UpperAll(d.compatibleIds), d.problem, d.status)
    ensures Flushed(Some(d5)) == [Normalized(d)]
  {
  }

  // --------------------------------------------------------------------- all blocks

  lemma {:induction false} DevicesRead(ds: seq<WindowsDevice>)
    requires forall i :: 0 <= i < |ds| ==> IsPrintableDevice(ds[i])
    ensures ParseLines(AllLines(ds)) == NormalizedAll(ds)
  {
    hide IsPrintableDevice, DeviceLines, Normalized, Step;
    if ds != [] {
      DeviceReads(ds[0], AllLines(ds[1..]));
      DevicesRead(ds[1..]);
    }
  }

  predicate AreLines(lines: seq<string>) { forall i :: 0 <= i < |lines| ==> All(lines[i], NotLineBreak) }

  lemma {:induction false} SplitTextOf(lines: seq<string>)
    requires AreLines(lines)
    ensures SplitLines(TextOf(lines)) == lines
  {
    hide SplitLines, All;
    if lines == [] {
      NoText();
    } else {
      assert AreLines(lines[1..]);
      SplitTextOf(lines[1..]);
      SplitLinesStep(lines[0], TextOf(lines[1..]));
      assert [lines[0]] + lines[1..] == lines;
    }
  }

  lemma NoText()
    ensures SplitLines("") == []
  {
  }

  lemma FieldIsLine(key: string, value: string)
    requires IsFieldKey(key) && IsValue(value)
    ensures All(FieldLine(key, value), NotLineBreak)
  {
    assert All(key, NotLineBreak);
    hide IsLineBreak, IsKeyChar;
  }

  lemma OptionalIsLine(key: string, value: Option<string>)
    requires IsFieldKey(key) && IsOptionalValue(value)
    ensures AreLines(OptionalLine(key, value))
  {
    hide FieldLine, IsValue, IsFieldKey, All;
    if value.Some? {
      FieldIsLine(key, value.value);
    }
  }

  lemma LinesConcat(a: seq<string>, b: seq<string>)
    requires AreLines(a) && AreLines(b)
    ensures AreLines(a + b)
  {
  }

  lemma DeviceIsLines(d: WindowsDevice)
    requires IsPrintableDevice(d)
    ensures AreLines(DeviceLines(d))
  {
    KeysAreFields();
    PrintableParts(d);
    AssignIds(Opened("x"), d.hardwareIds);
    AssignIds(Opened("x"), d.compatibleIds);
    AssignProblem(Opened("x"), d.problem);
    hide FieldLine, IsValue, IsFieldKey, OptionalLine, IdsText, ProblemText, IsOptionalValue;
    var l0, l1 := [FieldLine("Instance ID", d.instanceId)], OptionalLine("Device Description", d.description);
    var l2, l3 := OptionalLine("Status", d.status), OptionalLine("Problem Code", ProblemText(d.problem));
    var l4, l5 := OptionalLine("Hardware IDs", IdsText(d.hardwareIds)), OptionalLine("Compatible IDs", IdsText(d.compatibleIds));
    FieldIsLine("Instance ID", d.instanceId);
    OptionalIsLine("Device Description", d.description);
    OptionalIsLine("Status", d.status);
    OptionalIsLine("Problem Code", ProblemText(d.problem));
    OptionalIsLine("Hardware IDs", IdsText(d.hardwareIds));
    OptionalIsLine("Compatible IDs", IdsText(d.compatibleIds));
    LinesConcat(l5, [""]);
    LinesConcat(l4, l5 + [""]);
    LinesConcat(l3, l4 + (l5 + [""]));
    LinesConcat(l2, l3 + (l4 + (l5 + [""])));
    LinesConcat(l1, l2 + (l3 + (l4 + (l5 + [""]))));
    LinesConcat(l0, l1 + (l2 + (l3 + (l4 + (l5 + [""])))));
  }

  lemma {:induction false} DevicesAreLines(ds: seq<WindowsDevice>)
    requires forall i :: 0 <= i < |ds| ==> IsPrintableDevice(ds[i])
    ensures AreLines(AllLines(ds))
  {
    hide IsPrintableDevice, DeviceLines, All;
    if ds != [] {
      DeviceIsLines(ds[0]);
      DevicesAreLines(ds[1..]);
      LinesConcat(DeviceLines(ds[0]), AllLines(ds[1..]));
    }
  }

  /** Any list of devices printed in the documented format parses back to the same
      list, with the ids in upper case. */
  lemma PrintParses(ds: seq<WindowsDevice>)
    requires forall i :: 0 <= i < |ds| ==> IsPrintableDevice(ds[i])
    ensures Parse(Print(ds)) == NormalizedAll(ds)
  {
    hide IsPrintableDevice, SplitLines, ParseLines, AllLines, AreLines;
    DevicesAreLines(ds);
    SplitTextOf(AllLines(ds));
    DevicesRead(ds);
  }
}
