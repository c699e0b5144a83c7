/** diagnostics/classifier.py: the five-state classifier, with the firmware package
    lookup of firmware/resolver.py it relies on. */
module Diagnosing {
  import opened Text
  import opened Dicts
  import opened FirmwarePath
  import opened FirmwarePresence
  import opened Knowledge
  import opened Identification
  import opened Planner

  // ---------------------------------------------------- firmware failures in dmesg

  function FailureMark(): string { "Direct firmware load for " }

  function FailureTail(): string { " failed with error " }

  /** The number at the start of t: an optional minus and at least one digit. */
  function SignedNumber(t: string): Option<int> {
    if t != "" && t[0] == '-' then
      (var n := UnsignedNumber(t[1..]); if n.None? then None else Some(-(n.value as int)))
    else
      (var n := UnsignedNumber(t); if n.None? then None else Some(n.value))
  }

  function UnsignedNumber(t: string): Option<nat> {
    var digits := Span(t, IsDigit);
    if digits == 0 then None else Some(DecimalOf(t[..digits]))
  }

  /** The error number when " failed with error -?[0-9]+" stands at position j. */
  function TailAt(s: string, j: nat): Option<int>
    requires j <= |s|
  {
    if FailureTail() <= s[j..] then SignedNumber(s[j..][|FailureTail()|..]) else None
  }

  function DecimalOf(s: string): nat
    requires All(s, IsDigit)
  {
    DecimalValue(s)
  }

  /** The shortest name of at least one character, none a newline, before a tail. */
  function FindTail(s: string, j: nat): (r: Option<(nat, int)>)
    requires 1 <= j
    ensures r.Some? ==> j <= r.value.0 <= |s|
    decreases |s| + 1 - j
  {
    if j > |s| || s[j - 1] == '\n' then None
    else
      var e := TailAt(s, j);
      if e.Some? then Some((j, e.value)) else FindTail(s, j + 1)
  }

  /** The failure message that starts at position i, if any. */
  function MatchAt(line: string, i: nat): Option<(string, int)>
    requires i <= |line|
  {
    if !(FailureMark() <= line[i..]) then None
    else
      var s := line[i..][|FailureMark()|..];
      var m := FindTail(s, 1);
      if m.None? then None else Some((s[..m.value.0], m.value.1))
  }

  /** The failure named by the leftmost match in a line, from position i on. */
  function FailureFrom(line: string, i: nat): Option<(string, int)>
    decreases |line| - i
  {
    if i >= |line| then None
    else
      var m := MatchAt(line, i);
      if m.Some? then m else FailureFrom(line, i + 1)
  }

  function LineFailures(line: string): seq<(string, int)> {
    var f := FailureFrom(line, 0);
    if f.None? then [] else [f.value]
  }

  function Failures(lines: seq<string>): seq<(string, int)> {
    if lines == [] then [] else Failures(lines[..|lines| - 1]) + LineFailures(lines[|lines| - 1])
  }

  method DmesgFailures(lines: seq<string>) returns (out: seq<(string, int)>)
    ensures out == Failures(lines)
  {
    hide FailureFrom;
    out := [];
    for i := 0 to |lines|
      invariant out == Failures(lines[..i])
    {
      assert lines[..i + 1][..i] == lines[..i];
      var f := FailureFrom(lines[i], 0);
      if f.Some? {
        out := out + [f.value];
      }
    }
    assert lines[..|lines|] == lines;
  }

  // ------------------------------------------------------------- blocked modules

  predicate BlocksLine(line: string, m: string) {
    var stripped := Strip(Split(line, '#')[0], IsSpace);
    stripped == "blacklist " + m || stripped == "install " + m + " /bin/false"
  }

  predicate Blocks(content: string, m: string) { exists line :: line in SplitLines(content) && BlocksLine(line, m) }

  function FirstBlocking(d: Dict<string>, m: string): (r: Option<PyStr>)
    ensures r.Some? ==> r.value in Keys(d)
  {
    match d
    case Nil => None
    case Cons(path, content, t) => if Blocks(content, m) then Some(path) else FirstBlocking(t, m)
  }

  /** The first file, in path order, with a line that blocks the module. */
  function Blacklisted(m: Option<string>, d: Dict<string>): (r: Option<PyStr>)
    ensures r.Some? ==> Truthy(m)
  {
    if !Truthy(m) then None else FirstBlocking(Sort(d), m.value)
  }

  // ----------------------------------------------------------- missing firmware

  /** The part of a path behind its last slash. */
  function Basename(path: string): string { var parts := Split(path, '/'); parts[|parts| - 1] }

  /** {basename: file} built in order: the last file of a basename wins. */
  function DeclaredFor(firmware: seq<string>, base: string): (r: Option<string>)
    ensures r.Some? ==> r.value in firmware && Basename(r.value) == base
    ensures r.None? ==> forall f :: f in firmware ==> Basename(f) != base
  {
    if firmware == [] then None
    else
      var last := firmware[|firmware| - 1];
      if Basename(last) == base then Some(last) else DeclaredFor(firmware[..|firmware| - 1], base)
  }

  function FirmwareFromLog(firmware: seq<string>, failures: seq<(string, int)>): (r: Option<string>)
    ensures r.Some? ==> r.value in firmware
    ensures r.Some? <==> exists f :: f in failures && DeclaredFor(firmware, Basename(f.0)).Some?
  {
    if failures == [] then None
    else
      var d := DeclaredFor(firmware, Basename(failures[0].0));
      if d.Some? then d else FirmwareFromLog(firmware, failures[1..])
  }

  function FirmwareRoot(): string { "/lib/firmware" }

  /** The installed field of check_firmware_presence. */
  function Installed(host: Host, rel: string): Verdict {
    if !FwNameValid(rel) then None
    else
      ValidNameIsAccepted(rel);
      Presence(host, RStripSlash(FirmwareRoot()), RequireFirmwarePath(rel).value)
  }

  /** The declared file that is missing: named by dmesg, or else the entry's first
      file when the host says it is absent. */
  function MissingFirmware(entry: Option<KbEntry>, failures: seq<(string, int)>, host: Option<Host>): (r: Option<string>)
    ensures r.Some? ==> entry.Some? && r.value in entry.value.firmware
  {
    if entry.None? then None
    else
      var firmware := entry.value.firmware;
      var logged := FirmwareFromLog(firmware, failures);
      if logged.Some? then logged
      else if host.Some? && firmware != [] && Installed(host.value, firmware[0]) == Some(false) then Some(firmware[0])
      else None
  }

  method FindMissingFirmware(entry: Option<KbEntry>, failures: seq<(string, int)>, host: Option<Host>)
    returns (fw: Option<string>)
    ensures fw == MissingFirmware(entry, failures, host)
  {
    hide Installed, DeclaredFor;
    fw := None;
    if entry.Some? {
      var firmware := entry.value.firmware;
      for i := 0 to |failures|
        invariant fw == None
        invariant FirmwareFromLog(firmware, failures) == FirmwareFromLog(firmware, failures[i..])
      {
        assert failures[i..][0] == failures[i] && failures[i..][1..] == failures[i + 1..];
        var d := DeclaredFor(firmware, Basename(failures[i].0));
        if d.Some? {
          fw := d;
          break;
        }
      }
      if fw.None? && host.Some? && firmware != [] {
        var installed := Installed(host.value, firmware[0]);
        if installed == Some(false) {
          fw := Some(firmware[0]);
        }
      }
    }
  }

  // -------------------------------------------------------- packages that own it

  datatype Manager = Apt | Dnf | Pacman

  datatype Mapping = Mapping(chipset: string, packages: seq<string>, evidence: seq<Evidence>)

  predicate IsPackageChar(c: char) { IsAlphanumeric(c) || c == '.' || c == '_' || c == '+' || c == '-' }

  predicate IsPackageName(s: string) { s != "" && IsAlphanumeric(s[0]) && All(s, IsPackageChar) }

  function CleanPackages(names: seq<string>): (r: seq<string>)
    ensures forall n :: n in r ==> n in names && IsPackageName(n)
  {
    if names == [] then []
    else (if IsPackageName(names[0]) then [names[0]] else []) + CleanPackages(names[1..])
  }

  predicate Owns(e: KbEntry, rel: string) {
    exists fw :: fw in e.firmware && (fw == rel || Basename(fw) == Basename(rel))
  }

  function MapFirmware(kb: Kb, rel: string): (r: Option<Mapping>)
    ensures r.Some? <==> exists e :: e in kb && Owns(e, rel)
    ensures r.Some? ==> r.value.evidence != [] && forall n :: n in r.value.packages ==> IsPackageName(n)
  {
    if kb == [] then None
    else if Owns(kb[0], rel) then
      Some(Mapping(kb[0].chipset, CleanPackages(kb[0].packages),
                   kb[0].evidence + [OwnsFirmware(rel, kb[0].chipset)]))
    else MapFirmware(kb[1..], rel)
  }

  // ------------------------------------------------------------------- diagnosis

  datatype State = A_WORKING | B_ID_UNBOUND | C_FIRMWARE_MISSING | D_MODULE_BLOCKED | E_NO_INTREE_DRIVER | UNKNOWN_DEVICE

  datatype Action =
    | NoAction
    | ManualChipId
    | UnblockModule(module_: string, path: PyStr)
    | InstallFirmware(file: string, packages: seq<string>, command: Option<(Manager, string)>)
    | ManualPackageLookup(file: string)
    | InspectFirmwareLog
    | BindNewId
    | DiagnoseOnly
    | OutOfTreePointer

  datatype Diagnosis = Diagnosis(
    state: State, confidence: Confidence, action: Action, actionEvidence: seq<Evidence>,
    evidence: seq<Evidence>, candidates: seq<Candidate>)

  /** Everything classify looks at. */
  datatype Case = Case(
    inp: DiagnosisInput, bound: Option<string>, dmesg: seq<string>, modprobe: Dict<string>,
    host: Option<Host>, managers: seq<Manager>, kb: Kb)

  function Entry(c: Case): Option<KbEntry> { FindByName(c.kb, c.inp.chipset.name) }

  function Primary(c: Case): Option<string> {
    if Truthy(c.bound) then c.bound
    else if c.inp.candidates != [] then Some(c.inp.candidates[0].module_)
    else None
  }

  /** recommend_firmware_action for a file known to be missing. */
  function RecommendFirmware(file: string, m: Option<Mapping>, managers: seq<Manager>): (Action, seq<Evidence>) {
    var packages := if m.Some? then m.value.packages else [];
    var cited := if m.Some? then m.value.evidence else [];
    if packages != [] then
      (InstallFirmware(file, packages, if managers != [] then Some((managers[0], packages[0])) else None), cited)
    else (ManualPackageLookup(file), cited)
  }

  predicate HasCapabilityDetail(e: Option<KbEntry>) {
    e.Some? && (e.value.newIdModules != [] || Truthy(e.value.preferredModule) || e.value.newIdFeasible == Some(false))
  }

  /** What the classifier derives from a case before it decides. */
  datatype Findings = Findings(
    entry: Option<KbEntry>, failures: seq<(string, int)>, primary: Option<string>,
    blockedBy: Option<PyStr>, missing: Option<string>)

  function Observe(c: Case): (f: Findings)
    ensures f.blockedBy.Some? ==> Truthy(f.primary)
  {
    var failures := Failures(c.dmesg);
    Findings(Entry(c), failures, Primary(c), Blacklisted(Primary(c), c.modprobe),
             MissingFirmware(Entry(c), failures, c.host))
  }

  /** The cascade of decisions. */
  function Decide(c: Case, f: Findings): Diagnosis
    requires f.blockedBy.Some? ==> Truthy(f.primary)
  {
    var ev := c.inp.chipset.evidence;
    var cs := c.inp.candidates;
    if c.inp.chipset.name == UNKNOWN_CHIPSET && cs == [] then
      Diagnosis(UNKNOWN_DEVICE, UNKNOWN_CONFIDENCE, ManualChipId, ev, ev, [])
    else if f.blockedBy.Some? && f.blockedBy.value != [] then
      Diagnosis(D_MODULE_BLOCKED, CONFIRMED, UnblockModule(f.primary.value, f.blockedBy.value), ev, ev, cs)
    else if f.missing.Some? then
      var action := RecommendFirmware(f.missing.value, MapFirmware(c.kb, f.missing.value), c.managers);
      Diagnosis(C_FIRMWARE_MISSING, CONFIRMED, action.0, action.1, ev + action.1, cs)
    else if !Truthy(c.bound) then
      var bind := if f.entry.Some? && AcceptsNewIds(f.entry.value) then BindNewId else DiagnoseOnly;
      if HasAlias(cs) || HasCapabilityDetail(f.entry) then
        Diagnosis(B_ID_UNBOUND, HIGH_CONFIDENCE, bind, ev, ev, cs)
      else
        Diagnosis(E_NO_INTREE_DRIVER, c.inp.chipset.confidence, OutOfTreePointer, ev, ev, cs)
    else if f.failures != [] then
      Diagnosis(C_FIRMWARE_MISSING, PROBABLE, InspectFirmwareLog, ev, ev, cs)
    else
      Diagnosis(A_WORKING, CONFIRMED, NoAction, ev, ev, cs)
  }

  function Diagnose(c: Case): Diagnosis { Decide(c, Observe(c)) }

  /** classify, in the source's order of work. */
  method Classify(c: Case) returns (d: Diagnosis)
    ensures d == Diagnose(c)
  {
    hide Failures, Blacklisted, MissingFirmware, MapFirmware, FindByName;
    var ev := c.inp.chipset.evidence;
    var candidates := c.inp.candidates;
    var entry := Entry(c);
    var failures := DmesgFailures(c.dmesg);
    var primary := Primary(c);
    if c.inp.chipset.name == UNKNOWN_CHIPSET && candidates == [] {
      return Diagnosis(UNKNOWN_DEVICE, UNKNOWN_CONFIDENCE, ManualChipId, ev, ev, []);
    }
    var blockedBy := Blacklisted(primary, c.modprobe);
    if blockedBy.Some? && blockedBy.value != [] {
      return Diagnosis(D_MODULE_BLOCKED, CONFIRMED, UnblockModule(primary.value, blockedBy.value), ev, ev, candidates);
    }
    var fwFile := FindMissingFirmware(entry, failures, c.host);
    if fwFile.Some? {
      var action := RecommendFirmware(fwFile.value, MapFirmware(c.kb, fwFile.value), c.managers);
      return Diagnosis(C_FIRMWARE_MISSING, CONFIRMED, action.0, action.1, ev + action.1, candidates);
    }
    if !Truthy(c.bound) {
      var feasible := entry.Some? && AcceptsNewIds(entry.value);
      var bind := if feasible then BindNewId else DiagnoseOnly;
      if HasAlias(candidates) {
        return Diagnosis(B_ID_UNBOUND, HIGH_CONFIDENCE, bind, ev, ev, candidates);
      }
      if HasCapabilityDetail(entry) {
        return Diagnosis(B_ID_UNBOUND, HIGH_CONFIDENCE, bind, ev, ev, candidates);
      }
      return Diagnosis(E_NO_INTREE_DRIVER, c.inp.chipset.confidence, OutOfTreePointer, ev, ev, candidates);
    }
    if failures != [] {
      return Diagnosis(C_FIRMWARE_MISSING, PROBABLE, InspectFirmwareLog, ev, ev, candidates);
    }
    return Diagnosis(A_WORKING, CONFIRMED, NoAction, ev, ev, candidates);
  }
}
