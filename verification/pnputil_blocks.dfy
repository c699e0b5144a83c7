/** What a block of pnputil output becomes, field by field, and how its values are read. */
module PnputilBlocks {
  import opened Text
  import opened Pnputil

  // ---------------------------------------------------------------- whole blocks

  /** The value of the last line with that key. */
  function LastValue(lines: seq<string>, key: string): Option<string> {
    if lines == [] then None
    else
      var m := MatchField(lines[|lines| - 1]);
      if m.Some? && m.value.0 == key then Some(m.value.1) else LastValue(lines[..|lines| - 1], key)
  }

  function IdsOf(value: Option<string>, otherwise: seq<string>): seq<string> {
    if value.None? then otherwise else ParseIds(value.value)
  }

  function TextOr(value: Option<string>, otherwise: Option<string>): Option<string> {
    if value.None? then otherwise else value
  }

  function ProblemOf(value: Option<string>, otherwise: Option<nat>): Option<nat> {
    if value.None? then otherwise else ParseProblem(value.value)
  }

  /** A device after some lines of its block: every field has the last value given. */
  function Filled(d: WindowsDevice, lines: seq<string>): WindowsDevice {
    WindowsDevice(d.instanceId,
                  TextOr(LastValue(lines, "Device Description"), d.description),
                  IdsOf(LastValue(lines, "Hardware IDs"), d.hardwareIds),
                  IdsOf(LastValue(lines, "Compatible IDs"), d.compatibleIds),
                  ProblemOf(LastValue(lines, "Problem Code"), d.problem),
                  TextOr(LastValue(lines, "Status"), d.status))
  }

  lemma {:induction false} LastValueCons(line: string, lines: seq<string>, key: string)
    ensures LastValue([line] + lines, key) ==
              if LastValue(lines, key).Some? then LastValue(lines, key)
              else if MatchField(line).Some? && MatchField(line).value.0 == key then Some(MatchField(line).value.1)
              else None
  {
    hide MatchField;
    var all := [line] + lines;
    if lines == [] {
      assert all[0] == line && all[..0] == [];
    } else {
      var init := lines[..|lines| - 1];
      LastValueCons(line, init, key);
      assert all[|all| - 1] == lines[|lines| - 1] && all[..|all| - 1] == [line] + init;
    }
  }

  lemma KeysAreDifferent()
    ensures "Device Description" != "Hardware IDs" && "Device Description" != "Compatible IDs"
    ensures "Device Description" != "Problem Code" && "Device Description" != "Status"
    ensures "Hardware IDs" != "Compatible IDs" && "Hardware IDs" != "Problem Code" && "Hardware IDs" != "Status"
    ensures "Compatible IDs" != "Problem Code" && "Compatible IDs" != "Status" && "Problem Code" != "Status"
  {
    assert "Hardware IDs"[0] != "Problem Code"[0] && "Device Description"[0] != "Status"[0];
  }

  lemma FilledCons(d: WindowsDevice, line: string, lines: seq<string>)
    ensures var m := MatchField(line);
            Filled(if m.None? then d else Assign(d, m.value.0, m.value.1), lines) == Filled(d, [line] + lines)
  {
    KeysAreDifferent();
    LastValueCons(line, lines, "Device Description");
    LastValueCons(line, lines, "Hardware IDs");
    LastValueCons(line, lines, "Compatible IDs");
    LastValueCons(line, lines, "Problem Code");
    LastValueCons(line, lines, "Status");
    hide MatchField, LastValue, ParseIds, ParseProblem;
  }

  /** Lines inside a block: neither blank nor the start of another one. */
  predicate AreInner(lines: seq<string>) {
    forall i :: 0 <= i < |lines| ==> !IsBlankLine(lines[i]) && !IsInstanceLine(lines[i])
  }

  lemma {:induction false} InnerLines(d: WindowsDevice, lines: seq<string>)
    requires AreInner(lines)
    ensures ParseFrom(Some(d), lines) == Flushed(Some(Filled(d, lines)))
    decreases |lines|
  {
    hide IsBlankLine, MatchField, Assign, Filled;
    if lines == [] {
      NothingFilled(d);
    } else {
      var line, rest := lines[0], lines[1..];
      assert !IsBlankLine(line) && !IsInstanceLine(line);
      assert AreInner(rest);
      var m := MatchField(line);
      var e := if m.None? then d else Assign(d, m.value.0, m.value.1);
      assert Step(Some(d), line) == ([], Some(e));
      InnerLines(e, rest);
      FilledCons(d, line, rest);
      assert lines == [line] + rest;
    }
  }

  lemma NothingFilled(d: WindowsDevice)
    ensures Filled(d, []) == d
  {
  }

  /** A block is one device, if its id is not empty: with the id of its first line, and for
      every known key the last value given; lines of any other kind change nothing. */
  lemma BlockExact(first: string, lines: seq<string>)
    requires IsInstanceLine(first) && AreInner(lines)
    ensures var id := MatchField(first).value.1;
            ParseLines([first] + lines) ==
              if id == "" then []
              else [WindowsDevice(id, LastValue(lines, "Device Description"),
                                  IdsOf(LastValue(lines, "Hardware IDs"), []),
                                  IdsOf(LastValue(lines, "Compatible IDs"), []),
                                  ProblemOf(LastValue(lines, "Problem Code"), None),
                                  LastValue(lines, "Status"))]
  {
    hide IsBlankLine, MatchField, Assign, LastValue, ParseIds, ParseProblem;
    ParseFromCons(None, first, lines);
    InnerLines(Opened(MatchField(first).value.1), lines);
  }

  // ------------------------------------------------------------------ the values

  /** A problem code is the number all digits of the value make together. */
  lemma {:induction false} ProblemExact(a: string, b: string, c: char)
    ensures DigitsIn(a + b) == DigitsIn(a) + DigitsIn(b) && DigitsIn([c]) == if IsDigit(c) then [c] else ""
    ensures ParseProblem(a) == if DigitsIn(a) == "" then None else Some(DecimalValue(DigitsIn(a)))
  {
    assert [c][1..] == "";
    if a == "" {
      assert a + b == b;
    } else {
      assert (a + b)[0] == a[0] && (a + b)[1..] == a[1..] + b;
      ProblemExact(a[1..], b, c);
    }
  }

  lemma SplitStep(c: char, t: string)
    ensures Split([c] + t, ' ') == if c == ' ' then [""] + Split(t, ' ') else [[c] + Split(t, ' ')[0]] + Split(t, ' ')[1..]
    ensures |Split(t, ' ')| >= 1 && Split("", ' ') == [""]
  {
    assert ([c] + t)[1..] == t;
  }

  lemma {:induction false} SplitConcat(x: string, y: string)
    ensures Split(x + " " + y, ' ') == Split(x, ' ') + Split(y, ' ')
  {
    hide Split;
    if x == "" {
      SplitStep(' ', y);
      assert x + " " + y == [' '] + y;
    } else {
      var c, t := x[0], x[1..];
      SplitConcat(t, y);
      SplitStep(c, t);
      SplitStep(c, t + " " + y);
      assert x == [c] + t && x + " " + y == [c] + (t + " " + y);
      HeadOfConcat([c], Split(t, ' '), Split(y, ' '));
    }
  }

  lemma HeadOfConcat(c: string, r: seq<string>, q: seq<string>)
    requires r != []
    ensures [c + (r + q)[0]] + (r + q)[1..] == ([c + r[0]] + r[1..]) + q
    ensures [""] + (r + q) == ([""] + r) + q
  {
  }

  lemma {:induction false} NormalizeConcat(a: seq<string>, b: seq<string>)
    ensures NormalizeIds(a + b) == NormalizeIds(a) + NormalizeIds(b)
  {
    hide Strip, Upper;
    if a == [] {
      assert a + b == b;
    } else {
      assert (a + b)[0] == a[0] && (a + b)[1..] == a[1..] + b;
      NormalizeConcat(a[1..], b);
    }
  }

  /** Ids are set apart by spaces; each one is stripped and put in upper case, and what is
      only white space is none. */
  lemma IdsExact(x: string, y: string)
    ensures ParseIds(x + " " + y) == ParseIds(x) + ParseIds(y)
    ensures ' ' !in x ==> ParseIds(x) == if Strip(x, IsSpace) == "" then [] else [Upper(Strip(x, IsSpace))]
  {
    SplitConcat(x, y);
    hide Strip, Upper;
    NormalizeConcat(Split(x, ' '), Split(y, ' '));
    if ' ' !in x {
      SplitWhole(x, ' ');
      assert [x][1..] == [];
    }
  }
}
