/** The modprobe.d files on disk over any run of applying and rolling back plans.
    Applying means what the plan's printed command does (tee -a to the conf file);
    rolling back executes the steps planned from the plan's own transaction. */
module ConfFiles {
  import opened Text
  import opened Dicts
  import opened JsonValues
  import opened Transactions
  import opened Journal
  import opened ModulesAlias
  import opened AliasPrinters
  import opened Paths
  import opened Knowledge
  import opened Planner
  import opened Rollback

  /** A plan is applied to a device, or one made for it is rolled back; each plan is
      made with the driver bound and the module loaded at the time. */
  datatype Event =
    | Apply(dev: Device, bound: Option<string>, loaded: Option<string>)
    | RollBack(dev: Device, bound: Option<string>, loaded: Option<string>)

  type Files = map<PyStr, string>

  /** What stays fixed during a run: the knowledge base and the hash. */
  datatype Setting = Setting(kb: Kb, sha: string -> string)

  function PlanFor(s: Setting, e: Event): Plan { PlanStateB(e.dev, s.kb, e.bound, e.loaded, s.sha) }

  predicate IsPlanned(s: Setting, e: Event) { ValidDevice(e.dev) && PlanFor(s, e).Feasible? }

  predicate CanRun(s: Setting, events: seq<Event>) {
    forall i :: 0 <= i < |events| ==> IsPlanned(s, events[i])
  }

  function FileOf(d: Device): PyStr { Codes(ConfPath(d)) }

  /** The text appended by one application of the plan. */
  function Appendix(s: Setting, e: Event): string
    requires IsPlanned(s, e)
  {
    "# ddr state-B bind " + e.dev.vid + " " + e.dev.pid + "\n" + Strip(PlanFor(s, e).alias, IsSpace) + "\n"
  }

  function Content(files: Files, path: PyStr): Option<string> {
    if path in files then Some(files[path]) else None
  }

  function Extended(content: Option<string>, more: string): string {
    (if content.None? then "" else content.value) + more
  }

  /** One guarded step: nothing happens unless the file is there. */
  function ExecuteStep(files: Files, step: Step): Files {
    if step.RemoveFile? && step.path in files then files - {step.path} else files
  }

  function ExecuteAll(files: Files, steps: seq<Step>): Files {
    if steps == [] then files else ExecuteAll(ExecuteStep(files, steps[0]), steps[1..])
  }

  function Perform(s: Setting, files: Files, e: Event): Files
    requires IsPlanned(s, e)
  {
    if e.Apply? then files[FileOf(e.dev) := Extended(Content(files, FileOf(e.dev)), Appendix(s, e))]
    else
      var p := PlanRollback(PlanFor(s, e).transaction.parts.rollback);
      if p.Steps? then ExecuteAll(files, p.steps) else files
  }

  function Run(s: Setting, files: Files, events: seq<Event>): Files
    requires CanRun(s, events)
  {
    if events == [] then files
    else Perform(s, Run(s, files, events[..|events| - 1]), events[|events| - 1])
  }

  // --------------------------------------------------- the planned rollback plan

  lemma CodesConcat(a: string, b: string)
    ensures Codes(a + b) == Codes(a) + Codes(b)
  {
  }

  lemma CodesLack(s: string, c: char)
    requires c !in s
    ensures c as int !in Codes(s)
  {
    assert forall i :: 0 <= i < |s| ==> s[i] in s && Codes(s)[i] == s[i] as int;
  }

  function ConfName(d: Device): string { "ddr-" + d.vid + "-" + d.pid + ".conf" }

  lemma HexLacksSlash(s: string)
    requires AllHex(s)
    ensures '/' !in s
  {
  }

  lemma ConfNameIsProper(d: Device)
    requires ValidDevice(d)
    ensures IsProper(Codes(ConfName(d)), SLASH, DOT)
  {
    HexLacksSlash(d.vid);
    HexLacksSlash(d.pid);
    assert '/' !in "ddr-" && '/' !in "-" && '/' !in ".conf";
    assert '/' !in ConfName(d);
    CodesLack(ConfName(d), '/');
    assert |Codes(ConfName(d))| >= 4;
  }

  lemma DirectoriesAreProper()
    ensures IsProper(Codes("etc"), SLASH, DOT) && IsProper(Codes("modprobe.d"), SLASH, DOT)
  {
    CodesLack("etc", '/');
    CodesLack("modprobe.d", '/');
    assert |Codes("etc")| == 3 && |Codes("modprobe.d")| == 10;
  }

  lemma ConfPathComponents(d: Device)
    ensures FileOf(d) == Slashes(1, SLASH) + Join([Codes("etc"), Codes("modprobe.d"), Codes(ConfName(d))], [SLASH])
  {
    assert Slashes(1, SLASH) == [SLASH] == Codes("/");
    var name := ConfName(d);
    ConfPathParts(d);
    hide Codes, ConfName, ConfPath;
    CodesConcat("/", "etc" + ("/" + ("modprobe.d" + ("/" + name))));
    CodesConcat("etc", "/" + ("modprobe.d" + ("/" + name)));
    CodesConcat("/", "modprobe.d" + ("/" + name));
    CodesConcat("modprobe.d", "/" + name);
    CodesConcat("/", name);
    JoinThree(Codes("etc"), Codes("modprobe.d"), Codes(name));
  }

  lemma ConfPathParts(d: Device)
    ensures ConfPath(d) == "/" + ("etc" + ("/" + ("modprobe.d" + ("/" + ConfName(d)))))
  {
    var ids := d.vid + "-" + d.pid + ".conf";
    assert ConfName(d) == "ddr-" + ids;
    assert "/etc/modprobe.d/ddr-" == "/" + ("etc" + ("/" + ("modprobe.d" + ("/" + "ddr-"))));
    assert ConfPath(d) == "/etc/modprobe.d/ddr-" + ids;
  }

  lemma JoinThree(a: PyStr, b: PyStr, c: PyStr)
    ensures Join([a, b, c], [SLASH]) == a + ([SLASH] + (b + ([SLASH] + c)))
  {
    assert [a, b, c][1..] == [b, c] && [b, c][1..] == [c];
    assert Join([b, c], [SLASH]) == b + [SLASH] + c;
  }

  lemma ConfPathIsNormal(d: Device)
    requires ValidDevice(d)
    ensures IsNormalAbsolutePath(JStr(FileOf(d)))
  {
    var comps := [Codes("etc"), Codes("modprobe.d"), Codes(ConfName(d))];
    ConfPathComponents(d);
    ConfNameIsProper(d);
    DirectoriesAreProper();
    hide Codes, Normpath, Join;
    assert AllProper(comps, SLASH, DOT);
    ProperIsNormal(comps, 1, SLASH, DOT);
    assert FileOf(d)[0] == SLASH;
  }

  lemma RollbackActionLookups(path: string)
    ensures var ms := RollbackAction(path).members;
            && Get(ms, "op") == JStr(Codes("remove_file")) && Get(ms, "path") == JStr(Codes(path))
            && Get(ms, "restore_if_existed").JObj?
            && Get(Get(ms, "restore_if_existed").members, "sha256") == JNull
            && !IsFalsy(Get(ms, "restore_if_existed"))
  {
    LiteralsDiffer();
    hide Codes;
    var inner := Cons(Codes("sha256"), JNull, Nil);
    var m3 := Cons(Codes("restore_if_existed"), JObj(inner), Nil);
    var m2 := Cons(Codes("path"), JStr(Codes(path)), m3);
    var ms := RollbackAction(path).members;
    assert ms == Cons(Codes("op"), JStr(Codes("remove_file")), m2);
    assert Lookup(m3, Codes("restore_if_existed")) == Some(JObj(inner));
    assert Lookup(m2, Codes("restore_if_existed")) == Some(JObj(inner));
    assert Lookup(m2, Codes("path")) == Some(JStr(Codes(path)));
    assert Lookup(inner, Codes("sha256")) == Some(JNull);
  }

  /** Rolling back a planned transaction never raises: it removes exactly the
      plan's own conf file. */
  lemma PlannedRollbackSteps(s: Setting, e: Event)
    requires IsPlanned(s, e)
    ensures PlanRollback(PlanFor(s, e).transaction.parts.rollback) == Steps([RemoveFile(FileOf(e.dev), JNull)])
  {
    hide IsNormalAbsolutePath, Codes, ValidDevice, PairFree, Printable, DistinctKeys, Get, RollbackAction;
    PlannedTransaction(e.dev, s.kb, e.bound, e.loaded, s.sha);
    RollbackActionLookups(ConfPath(e.dev));
    ConfPathIsNormal(e.dev);
    OpsDiffer();
    RollbackIsObject(ConfPath(e.dev));
  }

  lemma RollbackIsObject(path: string)
    ensures RollbackAction(path).JObj?
  {
  }

  // --------------------------------------------------------- one event, one file

  predicate SameIds(a: Device, b: Device) { a.vid == b.vid && a.pid == b.pid }

  lemma FileInjective(a: Device, b: Device)
    requires ValidDevice(a) && ValidDevice(b)
    ensures FileOf(a) == FileOf(b) <==> SameIds(a, b)
  {
    hide ConfPath, Codes, ValidDevice;
    ConfPathInjective(a, b);
    CodesInjective(ConfPath(a), ConfPath(b));
  }

  /** What an event does to the file of device d, seen from that file alone. */
  function ContentAfter(s: Setting, d: Device, content: Option<string>, e: Event): Option<string>
    requires IsPlanned(s, e)
  {
    if !SameIds(e.dev, d) then content
    else if e.Apply? then Some(Extended(content, Appendix(s, e)))
    else None
  }

  lemma PerformOnFile(s: Setting, files: Files, e: Event, d: Device)
    requires IsPlanned(s, e) && ValidDevice(d)
    ensures Content(Perform(s, files, e), FileOf(d)) == ContentAfter(s, d, Content(files, FileOf(d)), e)
  {
    hide Perform, FileOf, Appendix, SameIds, PlanFor, ValidDevice;
    FileInjective(e.dev, d);
    PerformShape(s, files, e);
  }

  lemma PerformShape(s: Setting, files: Files, e: Event)
    requires IsPlanned(s, e)
    ensures Perform(s, files, e) ==
              if e.Apply? then files[FileOf(e.dev) := Extended(Content(files, FileOf(e.dev)), Appendix(s, e))]
              else if FileOf(e.dev) in files then files - {FileOf(e.dev)} else files
  {
    hide FileOf, Appendix, PlanRollback, PlanStateB, ValidDevice;
    if e.RollBack? {
      PlannedRollbackSteps(s, e);
      var steps := [RemoveFile(FileOf(e.dev), JNull)];
      assert steps[1..] == [];
      assert ExecuteAll(files, steps) == ExecuteStep(files, steps[0]);
    }
  }

  // --------------------------------------------------------------- whole runs

  /** The applications to d since it was last rolled back, in order. */
  function Live(events: seq<Event>, d: Device): seq<Event> {
    if events == [] then []
    else
      var e := events[|events| - 1];
      var before := Live(events[..|events| - 1], d);
      if !SameIds(e.dev, d) then before else if e.Apply? then before + [e] else []
  }

  /** The last event that concerns d applies its plan. */
  predicate LastIsApply(events: seq<Event>, d: Device) {
    events != [] &&
    var e := events[|events| - 1];
    if SameIds(e.dev, d) then e.Apply? else LastIsApply(events[..|events| - 1], d)
  }

  /** The texts of some applications, one behind the other. */
  function Appendices(s: Setting, applies: seq<Event>): string
    requires CanRun(s, applies)
  {
    if applies == [] then ""
    else
      var last := |applies| - 1;
      Appendices(s, applies[..last]) + Appendix(s, applies[last])
  }

  lemma {:induction false} LiveFacts(s: Setting, events: seq<Event>, d: Device)
    requires CanRun(s, events)
    ensures CanRun(s, Live(events, d)) && (Live(events, d) != [] <==> LastIsApply(events, d))
  {
    hide IsPlanned;
    if events != [] {
      LiveFacts(s, events[..|events| - 1], d);
    }
  }

  lemma CanRunPrefix(s: Setting, events: seq<Event>)
    requires CanRun(s, events) && events != []
    ensures CanRun(s, events[..|events| - 1]) && IsPlanned(s, events[|events| - 1])
  {
  }

  lemma AppendicesStep(s: Setting, applies: seq<Event>, e: Event)
    requires CanRun(s, applies) && IsPlanned(s, e)
    ensures CanRun(s, applies + [e]) && Appendices(s, applies + [e]) == Appendices(s, applies) + Appendix(s, e)
  {
    hide IsPlanned, Appendix;
    assert (applies + [e])[..|applies|] == applies;
  }

  /** Over any run from absent conf files, whichever modules the plans picked: the file
      of d holds the texts of the applications to d since its last rollback, in order,
      whatever happens to other devices in between; and it exists exactly when d's
      last event applied. */
  lemma {:induction false} RunExact(s: Setting, files: Files, events: seq<Event>, d: Device)
    requires CanRun(s, events) && ValidDevice(d) && FileOf(d) !in files
    ensures CanRun(s, Live(events, d))
    ensures Content(Run(s, files, events), FileOf(d)) ==
              if Live(events, d) == [] then None else Some(Appendices(s, Live(events, d)))
    ensures FileOf(d) in Run(s, files, events) <==> LastIsApply(events, d)
  {
    hide IsPlanned, Perform, FileOf, Appendix, CanRun, ValidDevice;
    LiveFacts(s, events, d);
    if events != [] {
      CanRunPrefix(s, events);
      var before, e := events[..|events| - 1], events[|events| - 1];
      RunExact(s, files, before, d);
      AppendicesStep(s, Live(before, d), e);
      PerformOnFile(s, Run(s, files, before), e, d);
    }
  }

  // ------------------------------------------------------- what the files say

  /** The alias line as it stands in the file. */
  function AliasOnDisk(e: Event, m: string): string { "alias " + PlannerPattern(e.dev.vid, e.dev.pid) + " " + m }

  function Comment(d: Device): string { "# ddr state-B bind " + d.vid + " " + d.pid }

  lemma AliasStripped(vid: string, pid: string, m: string)
    requires IsHex4(vid) && IsHex4(pid) && IsModuleName(m)
    ensures var t := "alias " + PlannerPattern(vid, pid) + " " + m;
            && Strip(AliasText(vid, pid, m), IsSpace) == t && Strip(t, IsRowMargin) == t && All(t, NotLineBreak)
            && MatchRow(t) == Some((PlannerPattern(vid, pid), m)) && "usb:" <= PlannerPattern(vid, pid)
  {
    var pattern := PlannerPattern(vid, pid);
    PlannerPatternIsWord(vid, pid);
    ModuleNameIsWord(m);
    ModuleNameNonEmpty(m);
    PatternNonEmpty(pattern);
    hide *;
    RowOfWords(pattern, m);
    WordsAreOneLine(pattern, m);
    WordsHaveNoMargin(pattern, m);
    LineStripped("alias " + pattern + " " + m);
    AliasTextIs(vid, pid, m);
  }

  lemma PatternNonEmpty(p: string)
    ensures "usb:" <= p ==> p != []
  {
  }

  lemma AliasTextIs(vid: string, pid: string, m: string)
    ensures AliasText(vid, pid, m) == "alias " + PlannerPattern(vid, pid) + " " + m + "\n"
  {
    hide PlannerPattern;
  }

  lemma LineStripped(t: string)
    requires t != "" && !IsSpace(t[0]) && !IsSpace(t[|t| - 1]) && !IsRowMargin(t[0]) && !IsRowMargin(t[|t| - 1])
    ensures Strip(t + "\n", IsSpace) == t && Strip(t, IsRowMargin) == t
  {
    assert IsSpace('\n');
    hide IsSpace, IsRowMargin, Strip;
    StripsTo("", t, "\n", IsSpace);
    StripsTo("", t, "", IsRowMargin);
    assert "" + (t + "\n") == t + "\n" && "" + (t + "") == t;
  }

  lemma WordsAreOneLine(a: string, b: string)
    requires All(a, NotSpace) && All(b, NotSpace)
    ensures All("alias " + a + " " + b, NotLineBreak)
  {
    assert forall c :: NotSpace(c) ==> NotLineBreak(c);
    assert All("alias ", NotLineBreak) && All(" ", NotLineBreak) && All(a, NotLineBreak) && All(b, NotLineBreak);
    hide NotLineBreak, NotSpace;
  }

  lemma WordsHaveNoMargin(a: string, b: string)
    requires b != "" && All(b, NotSpace)
    ensures var t := "alias " + a + " " + b;
            && !IsSpace(t[0]) && !IsSpace(t[|t| - 1]) && !IsRowMargin(t[0]) && !IsRowMargin(t[|t| - 1])
            && All("\n", IsSpace)
  {
    var t := "alias " + a + " " + b;
    assert NotSpace(b[|b| - 1]);
    assert t[0] == 'a' && t[|t| - 1] == b[|b| - 1];
    assert forall c :: !IsSpace(c) ==> !IsRowMargin(c);
    hide IsRowMargin;
  }

  lemma CommentIsNoRow(d: Device)
    requires ValidDevice(d)
    ensures All(Comment(d), NotLineBreak) && ParseRow(Comment(d)) == []
  {
    HexIsOneLine(d.vid);
    HexIsOneLine(d.pid);
    assert All("# ddr state-B bind ", NotLineBreak) && All(" ", NotLineBreak);
    hide NotLineBreak;
    var t := Comment(d);
    var p := d.pid;
    assert t[0] == '#' && t[|t| - 1] == p[|p| - 1];
    HexIsNoMargin(p[|p| - 1]);
    StripsTo("", t, "", IsRowMargin);
    assert "" + (t + "") == t;
    assert !("alias" <= t);
  }

  lemma HexIsOneLine(s: string)
    requires AllHex(s)
    ensures All(s, NotLineBreak)
  {
  }

  lemma HexIsNoMargin(c: char)
    ensures IsHex(c) ==> !IsRowMargin(c)
    ensures !IsRowMargin('#')
  {
  }

  lemma TwoLines(a: string, b: string)
    requires All(a, NotLineBreak) && All(b, NotLineBreak)
    ensures SplitLines(a + "\n" + (b + "\n")) == [a, b]
  {
    hide SplitLines, All, NotLineBreak;
    SplitLinesStep(a, b + "\n");
    SplitLinesStep(b, "");
    assert b + "\n" + "" == b + "\n";
    NoMoreLines();
  }

  /** The two lines one application appends. */
  lemma AppendixLines(s: Setting, e: Event)
    requires IsPlanned(s, e)
    ensures Appendix(s, e) != "" && Appendix(s, e)[|Appendix(s, e)| - 1] == '\n'
    ensures SplitLines(Appendix(s, e)) == [Comment(e.dev), AliasOnDisk(e, PlanFor(s, e).module_)]
    ensures ParseRows(SplitLines(Appendix(s, e))) ==
              [AliasLine(PlannerPattern(e.dev.vid, e.dev.pid), PlanFor(s, e).module_, AliasOnDisk(e, PlanFor(s, e).module_))]
  {
    PlannedNames(s, e);
    hide *;
    var m := PlanFor(s, e).module_;
    var a := AliasOnDisk(e, m);
    AliasStripped(e.dev.vid, e.dev.pid, m);
    OnDiskIs(e, m);
    CommentIsNoRow(e.dev);
    PlanAlias(s, e);
    CommentText(s, e, a);
    TwoLines(Comment(e.dev), a);
    EndsInNewline(Comment(e.dev), a);
    RowsOfTwo(Comment(e.dev), a, PlannerPattern(e.dev.vid, e.dev.pid), m);
  }

  lemma PlannedNames(s: Setting, e: Event)
    requires IsPlanned(s, e)
    ensures PlanFor(s, e).Feasible? && IsModuleName(PlanFor(s, e).module_)
    ensures ValidDevice(e.dev) && IsHex4(e.dev.vid) && IsHex4(e.dev.pid)
  {
    PlanAlias(s, e);
    hide PlanStateB, IsModuleName, IsHex4;
  }

  lemma OnDiskIs(e: Event, m: string)
    ensures AliasOnDisk(e, m) == "alias " + PlannerPattern(e.dev.vid, e.dev.pid) + " " + m
  {
    hide PlannerPattern;
  }

  lemma EndsInNewline(a: string, b: string)
    ensures var t := a + "\n" + (b + "\n"); t != "" && t[|t| - 1] == '\n'
  {
  }

  lemma CommentText(s: Setting, e: Event, a: string)
    requires IsPlanned(s, e) && Strip(PlanFor(s, e).alias, IsSpace) == a
    ensures Appendix(s, e) == Comment(e.dev) + "\n" + (a + "\n")
  {
    hide PlanStateB, ValidDevice, Strip;
  }

  lemma PlanAlias(s: Setting, e: Event)
    requires IsPlanned(s, e)
    ensures PlanFor(s, e).alias == AliasText(e.dev.vid, e.dev.pid, PlanFor(s, e).module_) && IsModuleName(PlanFor(s, e).module_)
  {
    hide PlannedParts, CreateTransaction, AliasText, ConfPath, IsModuleName, FindById, PickModule, ValidDevice;
  }

  lemma NoMoreLines()
    ensures SplitLines("") == []
  {
  }

  lemma RowsOfTwo(comment: string, a: string, pattern: string, m: string)
    requires ParseRow(comment) == [] && Strip(a, IsRowMargin) == a && MatchRow(a) == Some((pattern, m)) && "usb:" <= pattern
    ensures ParseRows([comment, a]) == [AliasLine(pattern, m, a)]
  {
    ParseRowCases(a, AliasLine(pattern, m, a));
    hide ParseRow, MatchRow, Strip;
    assert [comment, a][1..] == [a] && [a][1..] == [];
    assert ParseRows([a]) == ParseRow(a) + [];
  }

  /** The rows of some applications. */
  function RowsOf(s: Setting, applies: seq<Event>): seq<AliasLine>
    requires CanRun(s, applies)
  {
    seq(|applies|, i requires 0 <= i < |applies| =>
      AliasLine(PlannerPattern(applies[i].dev.vid, applies[i].dev.pid), PlanFor(s, applies[i]).module_,
                AliasOnDisk(applies[i], PlanFor(s, applies[i]).module_)))
  }

  /** Read as an alias file, the texts of some applications are exactly their planned
      rows, in order. */
  lemma {:induction false} AppendicesAreRows(s: Setting, applies: seq<Event>)
    requires CanRun(s, applies)
    ensures ParseRows(SplitLines(Appendices(s, applies))) == RowsOf(s, applies)
    ensures Appendices(s, applies) == "" || Appendices(s, applies)[|Appendices(s, applies)| - 1] == '\n'
    decreases |applies|
  {
    hide IsPlanned, SplitLines, ParseRows, PlannerPattern, Appendix, AliasOnDisk, PlanFor;
    if applies == [] {
      NoMoreLines();
      NoRows();
    } else {
      var n := |applies| - 1;
      AppendicesAreRows(s, applies[..n]);
      AppendixLines(s, applies[n]);
      SplitLinesConcat(Appendices(s, applies[..n]), Appendix(s, applies[n]));
      ParseRowsConcat(SplitLines(Appendices(s, applies[..n])), SplitLines(Appendix(s, applies[n])));
    }
  }

  lemma NoRows()
    ensures ParseRows([]) == []
  {
  }

  /** So after any run the conf file of d, read as an alias file, holds exactly the rows
      of the applications to d since its last rollback. */
  lemma FileHoldsPlannedRows(s: Setting, files: Files, events: seq<Event>, d: Device)
    requires CanRun(s, events) && ValidDevice(d) && FileOf(d) !in files && LastIsApply(events, d)
    ensures CanRun(s, Live(events, d)) && FileOf(d) in Run(s, files, events)
    ensures ParseRows(SplitLines(Run(s, files, events)[FileOf(d)])) == RowsOf(s, Live(events, d))
  {
    hide IsPlanned, Perform, FileOf, Appendix, CanRun, ValidDevice, SplitLines, ParseRows, RowsOf, Appendices, Run;
    RunExact(s, files, events, d);
    LiveFacts(s, events, d);
    AppendicesAreRows(s, Live(events, d));
  }

  /** Files that belong to none of the devices of a run are left alone. */
  lemma {:induction false} RunLeavesOthersAlone(s: Setting, files: Files, events: seq<Event>, path: PyStr)
    requires CanRun(s, events)
    requires forall i :: 0 <= i < |events| ==> path != FileOf(events[i].dev)
    ensures Content(Run(s, files, events), path) == Content(files, path)
  {
    hide IsPlanned, Perform, FileOf, Appendix, CanRun;
    if events != [] {
      CanRunPrefix(s, events);
      var before, e := events[..|events| - 1], events[|events| - 1];
      RunLeavesOthersAlone(s, files, before, path);
      PerformShape(s, Run(s, files, before), e);
      assert path != FileOf(events[|events| - 1].dev);
    }
  }

  /** Rolling back a device again changes nothing, whichever of its plans is used. */
  lemma RollbackIsIdempotent(s: Setting, files: Files, e: Event, again: Event)
    requires e.RollBack? && again.RollBack? && IsPlanned(s, e) && IsPlanned(s, again) && SameIds(e.dev, again.dev)
    ensures var once := Perform(s, files, e); Perform(s, once, again) == once
  {
    PlannedFiles(s, e, again);
    hide IsPlanned, Perform, FileOf, Appendix, SameIds;
    PerformShape(s, files, e);
    PerformShape(s, Perform(s, files, e), again);
  }

  lemma PlannedFiles(s: Setting, a: Event, b: Event)
    requires IsPlanned(s, a) && IsPlanned(s, b)
    ensures FileOf(a.dev) == FileOf(b.dev) <==> SameIds(a.dev, b.dev)
  {
    hide PlanFor, ValidDevice, FileOf;
    FileInjective(a.dev, b.dev);
  }

  /** A rollback undoes the application before it exactly when the conf file was
      absent: the plan's transaction always claims it was, and a file that did
      exist is removed with the alias. */
  lemma RollbackUndoesApply(s: Setting, files: Files, apply: Event, undo: Event)
    requires apply.Apply? && undo.RollBack? && IsPlanned(s, apply) && IsPlanned(s, undo) && SameIds(apply.dev, undo.dev)
    ensures Perform(s, Perform(s, files, apply), undo) == files <==> FileOf(apply.dev) !in files
  {
    PlannedFiles(s, apply, undo);
    hide IsPlanned, Perform, FileOf, Appendix, SameIds, Extended, Content;
    PerformShape(s, files, apply);
    PerformShape(s, Perform(s, files, apply), undo);
    RemoveUndoesUpdate(files, FileOf(apply.dev), Extended(Content(files, FileOf(apply.dev)), Appendix(s, apply)));
  }

  lemma RemoveUndoesUpdate(files: Files, path: PyStr, text: string)
    ensures files[path := text] - {path} == files <==> path !in files
  {
    var end := files[path := text] - {path};
    assert path !in end;
    if path !in files {
      assert end.Keys == files.Keys;
      assert forall p :: p in files ==> end[p] == files[p];
    }
  }
}
