/** windows/enum_ps.py: the line-driven parser of `pnputil /enum-devices` output. */
module Pnputil {
  import opened Text

  datatype WindowsDevice = WindowsDevice(
    instanceId: string, description: Option<string>, hardwareIds: seq<string>,
    compatibleIds: seq<string>, problem: Option<nat>, status: Option<string>)

  // ------------------------------------------------------------------- one line

  predicate IsKeyStart(c: char) { 'A' <= c <= 'Z' || IsLowerLetter(c) }

  predicate IsKeyChar(c: char) { IsKeyStart(c) || IsDigit(c) || c == ' ' }

  predicate IsTab(c: char) { c == '\t' }

  /** ^([A-Za-z][A-Za-z0-9 ]*?):\t+(.*)$ : the key cannot contain a colon, so it ends
      at the first one. */
  function MatchField(line: string): Option<(string, string)> {
    var n := Span(line, IsKeyChar);
    if n == 0 || !IsKeyStart(line[0]) || n >= |line| || line[n] != ':' then None
    else
      var rest := line[n + 1..];
      var tabs := Span(rest, IsTab);
      var value := rest[tabs..];
      if tabs == 0 || '\n' in value then None
      else Some((Strip(line[..n], IsSpace), Strip(value, IsSpace)))
  }

  /** [v.strip().upper() for v in value.split(" ") if v.strip()]. */
  function NormalizeIds(tokens: seq<string>): seq<string> {
    if tokens == [] then []
    else
      var v := Strip(tokens[0], IsSpace);
      (if v == "" then [] else [Upper(v)]) + NormalizeIds(tokens[1..])
  }

  function ParseIds(value: string): seq<string> { NormalizeIds(Split(value, ' ')) }

  /** All runs of digits in the value, concatenated. */
  function DigitsIn(value: string): (r: string)
    ensures AllDigits(r)
  {
    if value == "" then ""
    else (if IsDigit(value[0]) then [value[0]] else "") + DigitsIn(value[1..])
  }

  function ParseProblem(value: string): Option<nat> {
    var digits := DigitsIn(value);
    if digits == "" then None else Some(DecimalValue(digits))
  }

  // ----------------------------------------------------------- the state machine

  /** The open block, if any: the dictionary under construction. */
  type Current = Option<WindowsDevice>

  function Opened(id: string): WindowsDevice { WindowsDevice(id, None, [], [], None, None) }

  /** flush: the block becomes a device when it has a non-empty instance id. */
  function Flushed(current: Current): seq<WindowsDevice> {
    if current.Some? && current.value.instanceId != "" then [current.value] else []
  }

  predicate IsBlankLine(line: string) { All(line, IsSpace) }

  function Assign(d: WindowsDevice, key: string, value: string): WindowsDevice {
    if key == "Device Description" then d.(description := Some(value))
    else if key == "Hardware IDs" then d.(hardwareIds := ParseIds(value))
    else if key == "Compatible IDs" then d.(compatibleIds := ParseIds(value))
    else if key == "Problem Code" then d.(problem := ParseProblem(value))
    else if key == "Status" then d.(status := Some(value))
    else d
  }

  /** Devices completed by one line, and the block open after it. */
  function Step(current: Current, line: string): (seq<WindowsDevice>, Current) {
    if IsBlankLine(line) then (Flushed(current), None)
    else
      var m := MatchField(line);
      if m.None? then ([], current)
      else if m.value.0 == "Instance ID" then (Flushed(current), Some(Opened(m.value.1)))
      else if current.None? then ([], None)
      else ([], Some(Assign(current.value, m.value.0, m.value.1)))
  }

  /** The devices of the remaining lines, given the open block. */
  function ParseFrom(current: Current, lines: seq<string>): seq<WindowsDevice>
    decreases lines
  {
    if lines == [] then Flushed(current)
    else
      var s := Step(current, lines[0]);
      s.0 + ParseFrom(s.1, lines[1..])
  }

  function ParseLines(lines: seq<string>): seq<WindowsDevice> { ParseFrom(None, lines) }

  function Parse(text: string): seq<WindowsDevice> { ParseLines(SplitLines(text)) }

  /** The parser's two variables, devices and current, and its inner flush. */
  class Parser {
    var devices: seq<WindowsDevice>
    var current: Current

    constructor ()
      ensures devices == [] && current == None
    {
      devices := [];
      current := None;
    }

    method Flush()
      modifies this
      ensures devices == old(devices) + Flushed(old(current)) && current == None
    {
      if current.Some? && current.value.instanceId != "" {
        devices := devices + [current.value];
      }
      current := None;
    }

    method ReadLine(line: string)
      modifies this
      ensures devices == old(devices) + Step(old(current), line).0 && current == Step(old(current), line).1
    {
      hide MatchField, Assign, IsBlankLine;
      if IsBlankLine(line) {
        Flush();
        return;
      }
      var m := MatchField(line);
      if m.None? {
        return;
      }
      var key, value := m.value.0, m.value.1;
      if key == "Instance ID" {
        Flush();
        current := Some(Opened(value));
      } else if current.Some? {
        current := Some(Assign(current.value, key, value));
      }
    }
  }

  /** parse_pnputil_output. */
  method ParseOutput(text: string) returns (devices: seq<WindowsDevice>)
    ensures devices == Parse(text)
  {
    hide SplitLines, Step;
    var lines := SplitLines(text);
    var p := new Parser();
    ghost var rest := lines;
    for i := 0 to |lines|
      invariant fresh(p) && rest == lines[i..]
      invariant Parse(text) == p.devices + ParseFrom(p.current, rest)
    {
      assert rest[0] == lines[i];
      var before := p.devices;
      ghost var s := Step(p.current, lines[i]);
      assert before + (s.0 + ParseFrom(s.1, rest[1..])) == (before + s.0) + ParseFrom(s.1, rest[1..]);
      p.ReadLine(lines[i]);
      rest := rest[1..];
    }
    p.Flush();
    devices := p.devices;
  }

  // ---------------------------------------------------------------- homomorphism

  lemma BlankStep(current: Current, line: string)
    requires IsBlankLine(line)
    ensures Step(current, line) == (Flushed(current), None)
  {
  }

  lemma ParseFromCons(current: Current, line: string, rest: seq<string>)
    ensures ParseFrom(current, [line] + rest) == Step(current, line).0 + ParseFrom(Step(current, line).1, rest)
  {
    hide Step;
    assert ([line] + rest)[1..] == rest;
  }

  lemma {:induction false} ParseFromSplit(current: Current, xs: seq<string>, line: string, ys: seq<string>)
    requires IsBlankLine(line)
    ensures ParseFrom(current, xs + ([line] + ys)) == ParseFrom(current, xs) + ParseFrom(None, ys)
    decreases xs
  {
    hide IsBlankLine, Step, Flushed;
    if xs == [] {
      BlankStep(current, line);
      assert xs + ([line] + ys) == [line] + ys;
      ParseFromCons(current, line, ys);
    } else {
      var s := Step(current, xs[0]);
      assert xs + ([line] + ys) == [xs[0]] + (xs[1..] + ([line] + ys));
      ParseFromCons(current, xs[0], xs[1..] + ([line] + ys));
      ParseFromSplit(s.1, xs[1..], line, ys);
    }
  }

  predicate IsInstanceLine(line: string) {
    !IsBlankLine(line) && MatchField(line).Some? && MatchField(line).value.0 == "Instance ID"
  }

  lemma {:induction false} ParseFromInstance(current: Current, xs: seq<string>, ys: seq<string>)
    requires ys != [] && IsInstanceLine(ys[0])
    ensures ParseFrom(current, xs + ys) == ParseFrom(current, xs) + ParseFrom(None, ys)
    decreases xs
  {
    hide IsBlankLine, MatchField, Assign;
    if xs == [] {
      assert xs + ys == ys;
    } else {
      var s := Step(current, xs[0]);
      assert (xs + ys)[0] == xs[0] && (xs + ys)[1..] == xs[1..] + ys;
      ParseFromInstance(s.1, xs[1..], ys);
    }
  }

  /** A blank line separates: both sides parse on their own. */
  lemma BlankSeparates(xs: seq<string>, blank: string, ys: seq<string>)
    requires IsBlankLine(blank)
    ensures ParseLines(xs + ([blank] + ys)) == ParseLines(xs) + ParseLines(ys)
  {
    ParseFromSplit(None, xs, blank, ys);
  }

  /** So does an Instance ID line, even without a blank line before it. */
  lemma InstanceSeparates(xs: seq<string>, ys: seq<string>)
    requires ys != [] && IsInstanceLine(ys[0])
    ensures ParseLines(xs + ys) == ParseLines(xs) + ParseLines(ys)
  {
    ParseFromInstance(None, xs, ys);
  }

  /** Instance ID lines whose value is not empty. */
  function InstanceCount(lines: seq<string>): nat {
    if lines == [] then 0
    else
      (if IsInstanceLine(lines[0]) && MatchField(lines[0]).value.1 != "" then 1 else 0) + InstanceCount(lines[1..])
  }

  lemma {:induction false} DeviceCountFrom(current: Current, lines: seq<string>)
    ensures |ParseFrom(current, lines)| == |Flushed(current)| + InstanceCount(lines)
    decreases lines
  {
    hide IsBlankLine, MatchField, ParseIds, ParseProblem;
    if lines != [] {
      DeviceCountFrom(Step(current, lines[0]).1, lines[1..]);
    }
  }

  /** As many devices as Instance ID lines with a value. */
  lemma DeviceCount(lines: seq<string>)
    ensures |ParseLines(lines)| == InstanceCount(lines)
  {
    DeviceCountFrom(None, lines);
  }
}
