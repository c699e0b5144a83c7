/** Laws of the diagnosis: the classifier against a table of conditions, what more
    evidence can change, and how identification, classifier and planner agree. */
module DiagnosisLaws {
  import opened Text
  import opened Dicts
  import opened AliasPrinters
  import opened Knowledge
  import opened Identification
  import opened Planner
  import opened Diagnosing

  // ---------------------------------------------------------- the priority table

  function Rank(s: State): nat {
    match s
    case UNKNOWN_DEVICE => 5
    case D_MODULE_BLOCKED => 4
    case C_FIRMWARE_MISSING => 3
    case B_ID_UNBOUND => 2
    case E_NO_INTREE_DRIVER => 1
    case A_WORKING => 0
  }

  ghost predicate BlockedAt(c: Case, path: PyStr) {
    && Truthy(Primary(c))
    && var content := Lookup(c.modprobe, path);
    && content.Some?
    && Blocks(content.value, Primary(c).value)
  }

  /** Some file blocks the primary module, and no file with an empty path does: the
      classifier takes an empty path for "not blocked". */
  ghost predicate IsBlocked(c: Case) { (exists path :: BlockedAt(c, path)) && !BlockedAt(c, []) }

  ghost predicate LogNamesDeclaredFile(c: Case) {
    Entry(c).Some? &&
    exists f :: f in Failures(c.dmesg) && DeclaredFor(Entry(c).value.firmware, Basename(f.0)).Some?
  }

  predicate HostMissesFirstFile(c: Case) {
    Entry(c).Some? && c.host.Some? && Entry(c).value.firmware != []
    && Installed(c.host.value, Entry(c).value.firmware[0]) == Some(false)
  }

  /** One row a state: the condition under which the state applies, leaving
      priorities aside. */
  ghost predicate Applies(c: Case, s: State) {
    match s
    case UNKNOWN_DEVICE => c.inp.chipset.name == UNKNOWN_CHIPSET && c.inp.candidates == []
    case D_MODULE_BLOCKED => IsBlocked(c)
    case C_FIRMWARE_MISSING =>
      LogNamesDeclaredFile(c) || HostMissesFirstFile(c) || (Truthy(c.bound) && Failures(c.dmesg) != [])
    case B_ID_UNBOUND => !Truthy(c.bound) && (HasAlias(c.inp.candidates) || HasCapabilityDetail(Entry(c)))
    case E_NO_INTREE_DRIVER => !Truthy(c.bound)
    case A_WORKING => true
  }

  // ------------------------------------------------------- which file is cited

  /** On a sorted dictionary the first blocking file is the least one. */
  lemma {:induction false} FirstBlockingIsLeast(d: Dict<string>, m: string)
    requires Sorted(d)
    ensures var r := FirstBlocking(d, m);
            && (r.Some? ==> Blocks(Lookup(d, r.value).value, m))
            && (forall q :: q in Keys(d) && Blocks(Lookup(d, q).value, m) ==>
                  r.Some? && (r.value == q || Less(r.value, q)))
  {
    hide Blocks;
    if d.Cons? {
      FirstBlockingIsLeast(d.tail, m);
      SortedDistinct(d);
      forall q | q in Keys(d) && Blocks(Lookup(d, q).value, m)
        ensures FirstBlocking(d, m).Some? && (FirstBlocking(d, m).value == q || Less(FirstBlocking(d, m).value, q))
      {
        if q != d.key {
          SortedAbove(d, q);
          assert Lookup(d, q) == Lookup(d.tail, q);
        }
      }
      assert forall q :: q in Keys(d.tail) ==> Lookup(d, q) == Lookup(d.tail, q);
    }
  }

  /** The cited file blocks the primary module, and no blocking file comes before it. */
  lemma BlacklistedIsLeast(c: Case)
    requires Distinct(c.modprobe)
    ensures var r := Blacklisted(Primary(c), c.modprobe);
            && (r.Some? <==> exists path :: BlockedAt(c, path))
            && (r.Some? ==> BlockedAt(c, r.value))
            && (forall q :: BlockedAt(c, q) ==> r.Some? && (r.value == q || Less(r.value, q)))
  {
    hide Blocks;
    SortProperties(c.modprobe);
    if Truthy(Primary(c)) {
      FirstBlockingIsLeast(Sort(c.modprobe), Primary(c).value);
      var r := Blacklisted(Primary(c), c.modprobe);
      assert forall q :: Lookup(Sort(c.modprobe), q) == Lookup(c.modprobe, q);
      if r.Some? {
        assert Lookup(Sort(c.modprobe), r.value) == Lookup(c.modprobe, r.value);
        assert BlockedAt(c, r.value);
      }
      forall q | BlockedAt(c, q)
        ensures r.Some? && (r.value == q || Less(r.value, q))
      {
        assert Lookup(Sort(c.modprobe), q) == Lookup(c.modprobe, q);
        assert q in Keys(Sort(c.modprobe));
      }
    }
  }

  lemma BlockedBranch(c: Case)
    requires Distinct(c.modprobe)
    ensures var r := Observe(c).blockedBy; r.Some? && r.value != [] <==> IsBlocked(c)
  {
    hide Blacklisted, BlockedAt, Failures, MissingFirmware, FindByName;
    BlacklistedIsLeast(c);
    var r := Blacklisted(Primary(c), c.modprobe);
    assert r.Some? ==> r.value == [] || !Less(r.value, []);
  }

  lemma MissingBranch(c: Case)
    ensures Observe(c).missing.Some? <==> LogNamesDeclaredFile(c) || HostMissesFirstFile(c)
  {
    hide Failures, Installed, DeclaredFor, Basename, Blacklisted;
  }

  lemma OtherFindings(c: Case)
    ensures Observe(c).entry == Entry(c) && Observe(c).failures == Failures(c.dmesg) && Observe(c).primary == Primary(c)
    ensures Observe(c).blockedBy == Blacklisted(Primary(c), c.modprobe)
    ensures Observe(c).missing == MissingFirmware(Entry(c), Failures(c.dmesg), c.host)
  {
    hide Entry, Failures, Primary, Blacklisted, MissingFirmware;
  }

  /** The state of a decision, row by row. */
  lemma DecideState(c: Case, f: Findings)
    requires f.blockedBy.Some? ==> Truthy(f.primary)
    ensures Decide(c, f).state ==
              if c.inp.chipset.name == UNKNOWN_CHIPSET && c.inp.candidates == [] then UNKNOWN_DEVICE
              else if f.blockedBy.Some? && f.blockedBy.value != [] then D_MODULE_BLOCKED
              else if f.missing.Some? || (Truthy(c.bound) && f.failures != []) then C_FIRMWARE_MISSING
              else if Truthy(c.bound) then A_WORKING
              else if HasAlias(c.inp.candidates) || HasCapabilityDetail(f.entry) then B_ID_UNBOUND
              else E_NO_INTREE_DRIVER
  {
    hide RecommendFirmware, MapFirmware, HasAlias, HasCapabilityDetail, AcceptsNewIds;
  }

  /** The state is the highest-ranked row of the table that applies. */
  lemma ClassifyRefinesTable(c: Case, s: State)
    requires Distinct(c.modprobe)
    ensures Applies(c, Diagnose(c).state)
    ensures Applies(c, s) ==> Rank(s) <= Rank(Diagnose(c).state)
  {
    hide Observe, Decide, IsBlocked, LogNamesDeclaredFile, HostMissesFirstFile, Failures, Entry, HasAlias,
         HasCapabilityDetail, Truthy, Primary;
    BlockedBranch(c);
    MissingBranch(c);
    OtherFindings(c);
    DecideState(c, Observe(c));
  }

  /** State D cites the least path that blocks the primary module. */
  lemma BlockedCitesLeastPath(c: Case)
    requires Distinct(c.modprobe) && Diagnose(c).state == D_MODULE_BLOCKED
    ensures var a := Diagnose(c).action;
            && a.UnblockModule? && Some(a.module_) == Primary(c) && BlockedAt(c, a.path)
            && forall q :: BlockedAt(c, q) ==> q == a.path || Less(a.path, q)
  {
    BlacklistedIsLeast(c);
    OtherFindings(c);
    hide Observe, Blacklisted, BlockedAt, RecommendFirmware, MapFirmware, HasAlias, HasCapabilityDetail;
  }

  lemma SameBlacklist(m: Option<string>, a: Dict<string>, b: Dict<string>)
    requires Distinct(a) && Distinct(b) && SameLookups(a, b)
    ensures Blacklisted(m, a) == Blacklisted(m, b)
  {
    SortProperties(a);
    SortProperties(b);
    assert forall k :: Lookup(a, k) == Lookup(b, k);
    SortedUnique(Sort(a), Sort(b));
    hide FirstBlocking;
  }

  lemma DecideIgnoresModprobe(c1: Case, c2: Case, f: Findings)
    requires c2 == c1.(modprobe := c2.modprobe) && (f.blockedBy.Some? ==> Truthy(f.primary))
    ensures Decide(c1, f) == Decide(c2, f)
  {
    hide RecommendFirmware, MapFirmware, HasAlias, HasCapabilityDetail;
  }

  /** Nothing in the diagnosis depends on the insertion order of modprobe_d. */
  lemma InsertionOrderIsIrrelevant(c1: Case, c2: Case)
    requires Distinct(c1.modprobe) && Distinct(c2.modprobe) && SameLookups(c1.modprobe, c2.modprobe)
    requires c2 == c1.(modprobe := c2.modprobe)
    ensures Diagnose(c1) == Diagnose(c2)
  {
    SameBlacklist(Primary(c1), c1.modprobe, c2.modprobe);
    OtherFindings(c1);
    OtherFindings(c2);
    hide Observe, Decide, Blacklisted, MissingFirmware, Failures;
    DecideIgnoresModprobe(c1, c2, Observe(c1));
  }

  // ------------------------------------------------------------- more evidence

  /** Every line of xs is a line of ys. */
  ghost predicate LinesWithin(xs: seq<string>, ys: seq<string>) { forall l :: l in xs ==> l in ys }

  /** Every file of a is in b, with at least its lines. */
  ghost predicate FilesWithin(a: Dict<string>, b: Dict<string>) {
    forall path :: path in Keys(a) ==>
      path in Keys(b) && LinesWithin(SplitLines(Lookup(a, path).value), SplitLines(Lookup(b, path).value))
  }

  /** The same case with more dmesg lines, modprobe.d lines or modprobe.d files. */
  ghost predicate MoreEvidence(c1: Case, c2: Case) {
    && c2 == c1.(dmesg := c2.dmesg, modprobe := c2.modprobe)
    && LinesWithin(c1.dmesg, c2.dmesg)
    && FilesWithin(c1.modprobe, c2.modprobe)
  }

  lemma {:induction false} FailureOfLine(lines: seq<string>, f: (string, int))
    ensures f in Failures(lines) <==> exists l :: l in lines && f in LineFailures(l)
  {
    hide LineFailures;
    if lines != [] {
      var init, last := lines[..|lines| - 1], lines[|lines| - 1];
      FailureOfLine(init, f);
      assert lines == init + [last];
      assert last in lines;
      assert forall l :: l in lines <==> l in init || l == last;
    }
  }

  lemma FailuresWithin(xs: seq<string>, ys: seq<string>)
    requires LinesWithin(xs, ys)
    ensures forall f :: f in Failures(xs) ==> f in Failures(ys)
    ensures Failures(xs) != [] ==> Failures(ys) != []
  {
    hide Failures, LineFailures;
    forall f | f in Failures(xs)
      ensures f in Failures(ys)
    {
      FailureOfLine(xs, f);
      FailureOfLine(ys, f);
    }
    if Failures(xs) != [] {
      assert Failures(xs)[0] in Failures(xs);
    }
  }

  lemma BlockedAtWithin(c1: Case, c2: Case, path: PyStr)
    requires MoreEvidence(c1, c2) && BlockedAt(c1, path)
    ensures BlockedAt(c2, path)
  {
    hide SplitLines, BlocksLine;
    var a, b := Lookup(c1.modprobe, path).value, Lookup(c2.modprobe, path).value;
    assert LinesWithin(SplitLines(a), SplitLines(b));
  }

  /** More dmesg lines, modprobe.d lines or modprobe.d files never lower the rank of
      the state, with one exception: a module diagnosed as blocked no longer is once a
      file with an empty path blocks it. */
  lemma MoreEvidenceNeverLowersRank(c1: Case, c2: Case)
    requires Distinct(c1.modprobe) && Distinct(c2.modprobe) && MoreEvidence(c1, c2)
    ensures Rank(Diagnose(c1).state) <= Rank(Diagnose(c2).state) <==>
              !(Diagnose(c1).state == D_MODULE_BLOCKED && BlockedAt(c2, []))
  {
    var s := Diagnose(c1).state;
    hide Diagnose, BlockedAt, LogNamesDeclaredFile, HostMissesFirstFile;
    ClassifyRefinesTable(c1, s);
    if s == D_MODULE_BLOCKED && BlockedAt(c2, []) {
      ClassifyRefinesTable(c1, UNKNOWN_DEVICE);
      ClassifyRefinesTable(c2, UNKNOWN_DEVICE);
      assert !Applies(c2, UNKNOWN_DEVICE) && !IsBlocked(c2);
    } else {
      RowsPersist(c1, c2, s);
      ClassifyRefinesTable(c2, s);
    }
  }

  lemma RowsPersist(c1: Case, c2: Case, s: State)
    requires MoreEvidence(c1, c2) && Applies(c1, s)
    requires s == D_MODULE_BLOCKED ==> !BlockedAt(c2, [])
    ensures Applies(c2, s)
  {
    hide Failures, BlockedAt, DeclaredFor, Installed, Blocks, SplitLines;
    FailuresWithin(c1.dmesg, c2.dmesg);
    if s.D_MODULE_BLOCKED? {
      var path :| BlockedAt(c1, path);
      BlockedAtWithin(c1, c2, path);
    }
  }

  /** The exception happens: with the driver of a blocked module bound and nothing else
      to report, one more file, with an empty path, turns state D into state A. */
  lemma EmptyPathHidesBlock(c1: Case, c2: Case, m: string, path: PyStr)
    requires IsModuleName(m) && c1.bound == Some(m) && c1.dmesg == [] && c1.host == None
    requires c1.inp.chipset.name != UNKNOWN_CHIPSET && path != []
    requires c1.modprobe == Cons(path, "blacklist " + m, Nil)
    requires c2 == c1.(modprobe := Cons([], "blacklist " + m, c1.modprobe))
    ensures MoreEvidence(c1, c2)
    ensures Diagnose(c1).state == D_MODULE_BLOCKED && Diagnose(c2).state == A_WORKING
  {
    hide Diagnose, LogNamesDeclaredFile, HostMissesFirstFile, BlockedAt, MoreEvidence, Distinct;
    OneMoreFile(c1, c2, m, path);
    ClassifyRefinesTable(c1, D_MODULE_BLOCKED);
    ClassifyRefinesTable(c1, UNKNOWN_DEVICE);
    NothingMissing(c2);
    ClassifyRefinesTable(c2, A_WORKING);
  }

  lemma OneMoreFile(c1: Case, c2: Case, m: string, path: PyStr)
    requires IsModuleName(m) && c1.bound == Some(m) && path != []
    requires c1.modprobe == Cons(path, "blacklist " + m, Nil)
    requires c2 == c1.(modprobe := Cons([], "blacklist " + m, c1.modprobe))
    ensures Distinct(c1.modprobe) && Distinct(c2.modprobe) && MoreEvidence(c1, c2)
    ensures BlockedAt(c1, path) && !BlockedAt(c1, []) && BlockedAt(c2, [])
  {
    DirectiveFileBlocks(m);
    hide Blocks, IsModuleName, SplitLines;
    assert Keys(c1.modprobe) == {path};
    assert Primary(c1) == Some(m) && Primary(c2) == Some(m);
  }

  lemma DirectiveFileBlocks(m: string)
    requires IsModuleName(m)
    ensures Blocks("blacklist " + m, m)
  {
    var line := "blacklist " + m;
    DirectiveIsOneLine(m);
    CommentedLineBlocks(m, "", "", "");
    assert "" + line + "" + "" == line;
    hide *;
    OneLine(line);
    LineBlocks(line, m);
  }

  lemma DirectiveIsOneLine(m: string)
    requires IsModuleName(m)
    ensures All("blacklist " + m, NotLineBreak)
  {
    assert All("blacklist ", NotLineBreak) && All(m, NotLineBreak);
    hide IsModuleName, NotLineBreak;
  }

  lemma OneLine(line: string)
    requires line != "" && All(line, NotLineBreak)
    ensures SplitLines(line) == [line]
  {
    hide NotLineBreak, All;
    SpanUnique(line, "", NotLineBreak);
    assert line + "" == line;
  }

  lemma LineBlocks(line: string, m: string)
    requires SplitLines(line) == [line] && BlocksLine(line, m)
    ensures Blocks(line, m)
  {
    hide SplitLines, BlocksLine;
  }

  lemma NothingMissing(c: Case)
    requires c.dmesg == [] && c.host == None
    ensures !LogNamesDeclaredFile(c) && !HostMissesFirstFile(c) && Failures(c.dmesg) == []
  {
  }

  /** The state depends on the set of dmesg lines only: reordering or repeating
      them changes nothing. */
  lemma DmesgOrderIsIrrelevant(c1: Case, c2: Case)
    requires Distinct(c1.modprobe) && c2 == c1.(dmesg := c2.dmesg)
    requires LinesWithin(c1.dmesg, c2.dmesg) && LinesWithin(c2.dmesg, c1.dmesg)
    ensures Diagnose(c1).state == Diagnose(c2).state
  {
    FailuresWithin(c1.dmesg, c2.dmesg);
    FailuresWithin(c2.dmesg, c1.dmesg);
    hide Failures, DeclaredFor, Installed, Blocks, Diagnose, SplitLines;
    var s1, s2 := Diagnose(c1).state, Diagnose(c2).state;
    SameRows(c1, c2, s1);
    SameRows(c1, c2, s2);
    ClassifyRefinesTable(c1, s1);
    ClassifyRefinesTable(c1, s2);
    ClassifyRefinesTable(c2, s1);
    ClassifyRefinesTable(c2, s2);
    hide Applies;
  }

  lemma SameRows(c1: Case, c2: Case, s: State)
    requires c2 == c1.(dmesg := c2.dmesg)
    requires forall f :: f in Failures(c1.dmesg) <==> f in Failures(c2.dmesg)
    requires Failures(c1.dmesg) == [] <==> Failures(c2.dmesg) == []
    ensures Applies(c1, s) <==> Applies(c2, s)
  {
    hide Failures, DeclaredFor, Installed, Blocks, Basename;
    assert forall path :: BlockedAt(c1, path) <==> BlockedAt(c2, path);
  }

  // ------------------------------------- identification, classifier and planner

  /** A case whose identification is resolve_device's, over one knowledge base. */
  ghost predicate IsResolved(c: Case, dev: Device, lines: seq<string>) {
    ValidDevice(dev) && ProperNames(c.kb) && c.inp == Resolve(dev, lines, c.kb)
  }

  lemma LowerIds(d: Device)
    requires ValidDevice(d)
    ensures Lower(d.vid) + ":" + Lower(d.pid) == VidPid(d)
  {
  }

  /** The planner's entry, found by id, is the classifier's, found by name. */
  lemma SameEntry(c: Case, dev: Device, lines: seq<string>)
    requires IsResolved(c, dev, lines)
    ensures Entry(c) == FindById(c.kb, Lower(dev.vid) + ":" + Lower(dev.pid))
    ensures HasAlias(c.inp.candidates) || (c.inp.chipset.name != UNKNOWN_CHIPSET || c.inp.candidates == [])
    ensures c.inp.chipset.name == UNKNOWN_CHIPSET ==> Entry(c) == None
  {
    hide Resolve, FindById, FindByName, ValidDevice, Lower, ProperNames, HasAlias;
    LowerIds(dev);
    ResolveFacts(dev, lines, c.kb);
    ResolvedNameFindsEntry(dev, lines, c.kb);
    if c.inp.chipset.name == UNKNOWN_CHIPSET {
      UnknownIsNoName(c.kb);
    }
  }

  /** A module the planner can put into a command. */
  predicate IsUsable(m: Option<string>) { Truthy(m) && IsModuleName(m.value) }

  /** The planner's outcome, by the entry it finds. */
  lemma PlanOutcome(d: Device, kb: Kb, bound: Option<string>, loaded: Option<string>, sha: string -> string)
    ensures var plan := PlanStateB(d, kb, bound, loaded, sha);
            var entry := FindById(kb, Lower(d.vid) + ":" + Lower(d.pid));
            && (plan == NotInKb <==> entry == None)
            && (plan.Feasible? <==> entry.Some? && AcceptsNewIds(entry.value) && IsUsable(PickModule(entry.value, bound, loaded)))
            && (plan.Feasible? || plan.Raises? <==> entry.Some? && AcceptsNewIds(entry.value))
  {
    hide FindById, Lower, IsModuleName, PickModule, AliasText, PlannedParts, CreateTransaction;
  }

  /** In state B the classifier proposes bind_new_id exactly when the planner gets
      as far as building a plan; it then succeeds exactly when the module it picks
      is grammar-valid, and raises otherwise. */
  lemma ClassifierAndPlannerAgree(c: Case, dev: Device, lines: seq<string>, loaded: Option<string>, sha: string -> string)
    requires IsResolved(c, dev, lines) && Diagnose(c).state == B_ID_UNBOUND
    ensures var plan := PlanStateB(dev, c.kb, c.bound, loaded, sha);
            && (Diagnose(c).action == BindNewId <==> plan.Feasible? || plan.Raises?)
            && (plan.Feasible? <==> Entry(c).Some? && AcceptsNewIds(Entry(c).value)
                                    && IsUsable(PickModule(Entry(c).value, c.bound, loaded)))
  {
    hide *;
    SameEntry(c, dev, lines);
    ActionInB(c);
    PlanOutcome(dev, c.kb, c.bound, loaded, sha);
  }

  lemma ActionInB(c: Case)
    requires Diagnose(c).state == B_ID_UNBOUND
    ensures Diagnose(c).action == (if Entry(c).Some? && AcceptsNewIds(Entry(c).value) then BindNewId else DiagnoseOnly)
  {
    OtherFindings(c);
    hide Observe, Entry, MapFirmware, RecommendFirmware, HasAlias, HasCapabilityDetail, AcceptsNewIds;
  }

  lemma UnboundInE(c: Case)
    requires Diagnose(c).state == E_NO_INTREE_DRIVER
    ensures !Truthy(c.bound) && !HasCapabilityDetail(Entry(c))
  {
    OtherFindings(c);
    hide Observe, Entry, MapFirmware, RecommendFirmware, HasAlias, HasCapabilityDetail;
  }

  lemma NamelessInUnknown(c: Case)
    requires Diagnose(c).state == UNKNOWN_DEVICE
    ensures c.inp.chipset.name == UNKNOWN_CHIPSET
  {
    hide Observe, MapFirmware, RecommendFirmware, HasAlias, HasCapabilityDetail;
  }

  /** A device the classifier cannot identify has no plan, unless its own entry bears
      the reserved name. */
  lemma NoPlanForUnknown(c: Case, dev: Device, lines: seq<string>, loaded: Option<string>, sha: string -> string)
    requires ValidDevice(dev) && c.inp == Resolve(dev, lines, c.kb) && Diagnose(c).state == UNKNOWN_DEVICE
    ensures var byId := FindById(c.kb, VidPid(dev));
            PlanStateB(dev, c.kb, c.bound, loaded, sha) == NotInKb <==>
              !(byId.Some? && byId.value.chipset == UNKNOWN_CHIPSET)
    ensures (forall e :: e in c.kb ==> e.chipset != UNKNOWN_CHIPSET) ==>
              PlanStateB(dev, c.kb, c.bound, loaded, sha) == NotInKb
  {
    hide Diagnose, Resolve, PlanStateB, VidPid, Lower, ValidDevice;
    LowerIds(dev);
    ResolveFacts(dev, lines, c.kb);
    NamelessInUnknown(c);
    PlanOutcome(dev, c.kb, c.bound, loaded, sha);
  }

  /** In state E a plan is feasible only by way of a loaded module handed in by the
      caller; without one it never is. */
  lemma PlanWithoutDriver(c: Case, dev: Device, lines: seq<string>, loaded: Option<string>, sha: string -> string)
    requires IsResolved(c, dev, lines) && Diagnose(c).state == E_NO_INTREE_DRIVER
    ensures PlanStateB(dev, c.kb, c.bound, loaded, sha).Feasible? <==>
              Entry(c).Some? && AcceptsNewIds(Entry(c).value) && IsUsable(loaded)
  {
    hide Diagnose, IsResolved, PlanStateB, Entry, FindById, Lower, IsModuleName, AcceptsNewIds;
    SameEntry(c, dev, lines);
    UnboundInE(c);
    PlanOutcome(dev, c.kb, c.bound, loaded, sha);
  }

  /** On any knowledge base: in state B classifier and planner agree exactly when the
      entry found by the chipset's name and the entry found by the device's id answer
      alike whether new ids are accepted. */
  lemma AgreementIsExact(c: Case, dev: Device, loaded: Option<string>, sha: string -> string)
    requires ValidDevice(dev) && Diagnose(c).state == B_ID_UNBOUND
    ensures var plan := PlanStateB(dev, c.kb, c.bound, loaded, sha);
            var byName, byId := FindByName(c.kb, c.inp.chipset.name), FindById(c.kb, VidPid(dev));
            (Diagnose(c).action == BindNewId <==> plan.Feasible? || plan.Raises?) <==>
              ((byName.Some? && AcceptsNewIds(byName.value)) <==> (byId.Some? && AcceptsNewIds(byId.value)))
  {
    LowerIds(dev);
    ActionInB(c);
    PlanOutcome(dev, c.kb, c.bound, loaded, sha);
    hide Diagnose, FindByName, FindById, PlanStateB, AcceptsNewIds, Lower, VidPid;
  }

  /** An instance: when an entry that refuses new ids shadows the name of the one that
      lists the device, the two disagree. */
  lemma SharedNameDisagrees(c: Case, dev: Device, e1: KbEntry, e2: KbEntry, sha: string -> string)
    requires ValidDevice(dev) && c.kb == [e1, e2] && e1.chipset == e2.chipset != UNKNOWN_CHIPSET
    requires VidPid(dev) !in LowerAll(e1.usbIds) && VidPid(dev) in LowerAll(e2.usbIds)
    requires e1.newIdFeasible == Some(false) && AcceptsNewIds(e2) && IsUsable(PickModule(e2, None, None))
    requires c.inp == Resolve(dev, [], c.kb) && c.bound == None && c.modprobe == Nil && c.dmesg == [] && c.host == None
    ensures Diagnose(c).state == B_ID_UNBOUND && Diagnose(c).action == DiagnoseOnly
    ensures PlanStateB(dev, c.kb, None, None, sha).Feasible?
  {
    hide IsUsable, ValidDevice, VidPid, Lower, LowerAll, Resolve, PlanStateB, FindById, Entry, PickModule, Observe, Decide;
    ShadowedEntry(c, dev, e1, e2);
    LowerIds(dev);
    PlanOutcome(dev, c.kb, None, None, sha);
    NothingObserved(c);
    DecideState(c, Observe(c));
    ActionInB(c);
  }

  lemma ShadowedEntry(c: Case, dev: Device, e1: KbEntry, e2: KbEntry)
    requires c.kb == [e1, e2] && e1.chipset == e2.chipset != UNKNOWN_CHIPSET && c.inp == Resolve(dev, [], c.kb)
    requires VidPid(dev) !in LowerAll(e1.usbIds) && VidPid(dev) in LowerAll(e2.usbIds)
    ensures FindById(c.kb, VidPid(dev)) == Some(e2) && Entry(c) == Some(e1) && c.inp.chipset.name == e2.chipset
  {
    hide RowsFor, VidPid, LowerAll, KbCandidates, AliasCandidates, Modules;
    assert c.kb[1..] == [e2];
    assert FindById([e2], VidPid(dev)) == Some(e2);
  }

  lemma NothingObserved(c: Case)
    requires c.modprobe == Nil && c.dmesg == [] && c.host == None
    ensures Observe(c) == Findings(Entry(c), [], Primary(c), None, None)
  {
    hide DeclaredFor, Basename, Entry, Primary;
  }

  // --------------------------------------------------------------------- evidence

  lemma OwnFileIsOwned(e: KbEntry, file: string)
    requires file in e.firmware
    ensures Owns(e, file)
  {
    hide Basename;
  }

  /** In the confirmed state C the package lookup always finds an owner: the chosen
      file is one that the diagnosed chipset's own entry declares. */
  lemma ConfirmedFirmwareHasOwner(c: Case)
    requires Observe(c).missing.Some?
    ensures MapFirmware(c.kb, Observe(c).missing.value).Some?
  {
    OtherFindings(c);
    hide Observe, MapFirmware, Owns, Failures, FirmwareFromLog, Installed;
    var file := Observe(c).missing.value;
    OwnFileIsOwned(Entry(c).value, file);
    assert Entry(c).value in c.kb;
  }

  lemma DecisionEvidence(c: Case, f: Findings)
    requires f.blockedBy.Some? ==> Truthy(f.primary)
    requires c.inp.chipset.evidence != [] && (f.missing.Some? ==> MapFirmware(c.kb, f.missing.value).Some?)
    ensures Decide(c, f).evidence != [] && Decide(c, f).actionEvidence != []
  {
    hide MapFirmware, HasAlias, HasCapabilityDetail;
  }

  /** Every diagnosis of a resolved device carries evidence, and so does its action. */
  lemma DiagnosisIsBackedByEvidence(c: Case, dev: Device, lines: seq<string>)
    requires c.inp == Resolve(dev, lines, c.kb)
    ensures Diagnose(c).evidence != [] && Diagnose(c).actionEvidence != []
  {
    hide Resolve, Observe, Decide, MapFirmware, FindById, FindByName;
    ResolveFacts(dev, lines, c.kb);
    if Observe(c).missing.Some? {
      ConfirmedFirmwareHasOwner(c);
    }
    DecisionEvidence(c, Observe(c));
  }

  // ------------------------------------------------------------ modprobe.d lines

  /** A line blocks one module at most. */
  lemma LineBlocksOneModule(line: string, a: string, b: string)
    requires IsModuleName(a) && IsModuleName(b) && BlocksLine(line, a) && BlocksLine(line, b)
    ensures a == b
  {
    var s := Strip(Split(line, '#')[0], IsSpace);
    hide Strip, Split;
    var x, y, tail := "blacklist ", "install ", " /bin/false";
    assert (x + a)[0] == 'b' && (x + b)[0] == 'b' && (y + a + tail)[0] == 'i' && (y + b + tail)[0] == 'i';
    if s == x + a {
      assert s[|x|..] == a && (x + b)[|x|..] == b;
    } else {
      assert s[|y|..|s| - |tail|] == a && (y + b + tail)[|y|..|y + b|] == b;
    }
  }

  lemma CommentIsCut(text: string, comment: string)
    requires '#' !in text && (comment == "" || comment[0] == '#')
    ensures Split(text + comment, '#')[0] == text
  {
    if comment == "" {
      SplitWhole(text, '#');
      assert text + comment == text;
    } else {
      SplitPrefix(text, comment[1..], '#');
      assert text + ['#'] + comment[1..] == text + comment;
    }
  }

  lemma DirectiveBlocks(d: string, left: string, right: string, comment: string)
    requires d != "" && !IsSpace(d[0]) && !IsSpace(d[|d| - 1]) && '#' !in d
    requires All(left, IsSpace) && All(right, IsSpace) && (comment == "" || comment[0] == '#')
    ensures Strip(Split(left + d + right + comment, '#')[0], IsSpace) == d
  {
    assert !IsSpace('#');
    assert '#' !in left && '#' !in right;
    hide *;
    CommentIsCut(left + d + right, comment);
    assert left + d + right == left + (d + right);
    StripsTo(left, d, right, IsSpace);
  }

  predicate IsDirective(d: string, m: string) { d == "blacklist " + m || d == "install " + m + " /bin/false" }

  predicate IsDirectiveLine(line: string, d: string, left: string, right: string, comment: string) {
    && line == left + d + right + comment && All(left, IsSpace) && All(right, IsSpace)
    && d != "" && '#' !in d && !IsSpace(d[|d| - 1]) && (comment == "" || comment[0] == '#')
  }

  lemma DirectiveStarts(d: string, m: string)
    requires IsDirective(d, m)
    ensures d != "" && !IsSpace(d[0])
  {
    assert d[0] == 'b' || d[0] == 'i';
  }

  /** A line blocks m exactly when it holds one of the two directives for it, between
      white space and in front of a comment. */
  lemma BlocksLineExact(line: string, m: string)
    ensures BlocksLine(line, m) <==>
              exists d, left, right, comment :: IsDirective(d, m) && IsDirectiveLine(line, d, left, right, comment)
  {
    hide BlocksLine, IsDirective, IsDirectiveLine;
    if BlocksLine(line, m) {
      var d, left, right, comment := BlockingIsSpelled(line, m);
    }
    if d, left, right, comment :| IsDirective(d, m) && IsDirectiveLine(line, d, left, right, comment) {
      SpelledBlocks(line, m, d, left, right, comment);
    }
  }

  lemma SpelledBlocks(line: string, m: string, d: string, left: string, right: string, comment: string)
    requires IsDirective(d, m) && IsDirectiveLine(line, d, left, right, comment)
    ensures BlocksLine(line, m)
  {
    DirectiveStarts(d, m);
    hide Split, Strip, IsSpace, All;
    DirectiveBlocks(d, left, right, comment);
  }

  lemma BlockingIsSpelled(line: string, m: string) returns (d: string, left: string, right: string, comment: string)
    requires BlocksLine(line, m)
    ensures IsDirective(d, m) && IsDirectiveLine(line, d, left, right, comment)
  {
    var text;
    text, comment := UncommentedLine(line);
    d := Strip(text, IsSpace);
    StripExact(text, d, IsSpace);
    assert IsDirective(d, m);
    DirectiveStarts(d, m);
    hide Split, Strip, IsSpace, All, IsDirective, BlocksLine;
    left, right :| text == left + (d + right) && All(left, IsSpace) && All(right, IsSpace);
    PiecesOfLine(left, d, right, comment, '#');
  }

  lemma PiecesOfLine(left: string, d: string, right: string, comment: string, c: char)
    ensures (left + (d + right)) + comment == left + d + right + comment
    ensures c !in left + (d + right) ==> c !in d
  {
    assert c in d ==> c in d + right;
    assert c in d + right ==> c in left + (d + right);
  }

  lemma {:induction false} UncommentedLine(line: string) returns (text: string, comment: string)
    ensures text == Split(line, '#')[0] && line == text + comment && '#' !in text && (comment == "" || comment[0] == '#')
  {
    text := Split(line, '#')[0];
    if line == "" {
      comment := "";
    } else if line[0] == '#' {
      comment := line;
      assert text == "";
    } else {
      var t;
      t, comment := UncommentedLine(line[1..]);
      assert line == [line[0]] + line[1..] && text == [line[0]] + t;
    }
  }

  /** Indentation and a trailing comment do not keep a line from blocking. */
  lemma CommentedLineBlocks(m: string, left: string, right: string, comment: string)
    requires IsModuleName(m) && All(left, IsSpace) && All(right, IsSpace) && (comment == "" || comment[0] == '#')
    ensures BlocksLine(left + ("blacklist " + m) + right + comment, m)
    ensures BlocksLine(left + ("install " + m + " /bin/false") + right + comment, m)
  {
    var x, y := "blacklist " + m, "install " + m + " /bin/false";
    assert x[0] == 'b' && y[0] == 'i' && y[|y| - 1] == 'e' && '#' !in x && '#' !in y;
    assert x[|x| - 1] == m[|m| - 1] && !IsSpace(m[|m| - 1]);
    hide Strip, Split, IsModuleName, All;
    DirectiveBlocks(x, left, right, comment);
    DirectiveBlocks(y, left, right, comment);
  }
}
