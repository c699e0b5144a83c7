/** The whole diagnosis as a table: for every case its state, action, confidence and
    evidence, in terms of the case alone. */
module ClassifierTable {
  import opened Text
  import opened Dicts
  import opened FirmwarePath
  import opened FirmwarePresence
  import opened Knowledge
  import opened Identification
  import opened Planner
  import opened Diagnosing
  import opened DiagnosisLaws

  // -------------------------------------------------------------- log and files

  /** Failures come line by line, in the order of the log. */
  lemma {:induction false} FailuresInOrder(xs: seq<string>, ys: seq<string>, line: string)
    ensures Failures(xs + ys) == Failures(xs) + Failures(ys) && Failures([line]) == LineFailures(line)
    decreases |ys|
  {
    hide LineFailures;
    assert [line][..0] == [];
    if ys == [] {
      assert xs + ys == xs;
    } else {
      var init, last := ys[..|ys| - 1], ys[|ys| - 1];
      FailuresInOrder(xs, init, line);
      assert (xs + ys)[..|xs + ys| - 1] == xs + init && (xs + ys)[|xs + ys| - 1] == last;
    }
  }

  /** The basename is what stands behind the last slash, or everything. */
  lemma BasenameExact(path: string, base: string)
    ensures Basename(path) == base <==>
              '/' !in base && (path == base || exists dir :: path == dir + ("/" + base))
  {
    if Basename(path) == base {
      BasenameEnds(path);
    }
    if '/' !in base {
      if path == base {
        SplitWhole(base, '/');
      }
      if dir :| path == dir + ("/" + base) {
        LastPart(dir, base);
      }
    }
  }

  lemma {:induction false} BasenameEnds(path: string)
    ensures '/' !in Basename(path)
    ensures path == Basename(path) || exists dir :: path == dir + ("/" + Basename(path))
  {
    if path != "" {
      var c, t := path[0], path[1..];
      assert path == [c] + t;
      BasenameEnds(t);
      var r := Split(t, '/');
      if c == '/' {
        assert Basename(path) == Basename(t);
        if t == Basename(t) {
          assert path == "" + ("/" + Basename(path));
        } else {
          var dir :| t == dir + ("/" + Basename(t));
          assert path == ([c] + dir) + ("/" + Basename(path));
        }
      } else if |r| == 1 {
        SplitOne(t);
        assert Basename(path) == [c] + r[0] == path;
      } else {
        assert Basename(path) == Basename(t);
        NotOne(t);
        var dir :| t == dir + ("/" + Basename(t));
        assert path == ([c] + dir) + ("/" + Basename(path));
      }
    }
  }

  lemma SplitOne(t: string)
    requires |Split(t, '/')| == 1
    ensures Split(t, '/')[0] == t
  {
    JoinOfSplit(t, '/');
  }

  lemma NotOne(t: string)
    requires |Split(t, '/')| > 1
    ensures t != Basename(t)
  {
    if '/' !in t {
      SplitWhole(t, '/');
    }
  }

  lemma {:induction false} LastPart(dir: string, base: string)
    requires '/' !in base
    ensures Basename(dir + ("/" + base)) == base
  {
    if dir == "" {
      assert dir + ("/" + base) == "/" + base && ("/" + base)[1..] == base;
      SplitWhole(base, '/');
    } else {
      var path := dir + ("/" + base);
      assert path[1..] == dir[1..] + ("/" + base);
      LastPart(dir[1..], base);
      TwoParts(dir[1..], base);
    }
  }

  lemma TwoParts(dir: string, base: string)
    requires '/' !in base
    ensures |Split(dir + ("/" + base), '/')| >= 2
  {
    var t := dir + ("/" + base);
    assert t[|dir|] == '/';
    if |Split(t, '/')| == 1 {
      SplitOne(t);
    }
  }

  /** The last declared file of that basename. */
  ghost predicate IsDeclared(firmware: seq<string>, base: string, f: string) {
    exists i :: 0 <= i < |firmware| && firmware[i] == f && Basename(f) == base
                && forall j :: i < j < |firmware| ==> Basename(firmware[j]) != base
  }

  ghost predicate NoneDeclared(firmware: seq<string>, base: string) {
    forall j :: 0 <= j < |firmware| ==> Basename(firmware[j]) != base
  }

  lemma {:induction false} DeclaredExact(firmware: seq<string>, base: string, f: string)
    ensures DeclaredFor(firmware, base) == Some(f) <==> IsDeclared(firmware, base, f)
    ensures DeclaredFor(firmware, base) == None <==> NoneDeclared(firmware, base)
  {
    if firmware != [] {
      var init, last := firmware[..|firmware| - 1], firmware[|firmware| - 1];
      DeclaredExact(init, base, f);
      DeclaredStep(init, last, base, f);
      assert firmware == init + [last];
    }
    hide Basename, IsDeclared, NoneDeclared;
  }

  lemma DeclaredStep(init: seq<string>, last: string, base: string, f: string)
    ensures Basename(last) == base ==> (IsDeclared(init + [last], base, f) <==> f == last)
    ensures Basename(last) != base ==> (IsDeclared(init + [last], base, f) <==> IsDeclared(init, base, f))
    ensures NoneDeclared(init + [last], base) <==> NoneDeclared(init, base) && Basename(last) != base
  {
    hide Basename;
    var all, n := init + [last], |init|;
    assert all[n] == last && forall j :: 0 <= j < n ==> all[j] == init[j];
    if Basename(last) == base {
      assert f == last ==> IsDeclared(all, base, f);
    } else {
      if i :| 0 <= i < |all| && all[i] == f && Basename(f) == base && forall j :: i < j < |all| ==> Basename(all[j]) != base {
        assert i < n && init[i] == f;
      }
      if i :| 0 <= i < n && init[i] == f && Basename(f) == base && forall j :: i < j < n ==> Basename(init[j]) != base {
        assert all[i] == f;
      }
    }
  }

  /** The file named by the first failure in the log that names a declared one. */
  ghost predicate IsLogged(firmware: seq<string>, failures: seq<(string, int)>, f: string) {
    exists i :: 0 <= i < |failures| && IsDeclared(firmware, Basename(failures[i].0), f)
                && forall j :: 0 <= j < i ==> NoneDeclared(firmware, Basename(failures[j].0))
  }

  ghost predicate NoneLogged(firmware: seq<string>, failures: seq<(string, int)>) {
    forall j :: 0 <= j < |failures| ==> NoneDeclared(firmware, Basename(failures[j].0))
  }

  lemma {:induction false} LoggedExact(firmware: seq<string>, failures: seq<(string, int)>, f: string)
    ensures FirmwareFromLog(firmware, failures) == Some(f) <==> IsLogged(firmware, failures, f)
    ensures FirmwareFromLog(firmware, failures) == None <==> NoneLogged(firmware, failures)
  {
    hide Basename, IsDeclared, NoneDeclared, DeclaredFor;
    if failures != [] {
      var t := failures[1..];
      DeclaredExact(firmware, Basename(failures[0].0), f);
      LoggedExact(firmware, t, f);
      assert forall j :: 0 <= j < |t| ==> t[j] == failures[j + 1];
      assert forall j :: 1 <= j < |failures| ==> failures[j] == t[j - 1];
      LoggedTail(firmware, failures, f);
      if DeclaredFor(firmware, Basename(failures[0].0)).Some? {
        DeclaredExact(firmware, Basename(failures[0].0), DeclaredFor(firmware, Basename(failures[0].0)).value);
      }
    }
  }

  lemma LoggedTail(firmware: seq<string>, failures: seq<(string, int)>, f: string)
    requires failures != []
    ensures var base := Basename(failures[0].0);
            && (!NoneDeclared(firmware, base) ==> (IsLogged(firmware, failures, f) <==> IsDeclared(firmware, base, f)))
            && (NoneDeclared(firmware, base) ==> (IsLogged(firmware, failures, f) <==> IsLogged(firmware, failures[1..], f)))
  {
    var t, base := failures[1..], Basename(failures[0].0);
    assert NoneDeclared(firmware, base) ==> !IsDeclared(firmware, base, f);
    hide Basename, IsDeclared, NoneDeclared;
    if i :| 0 <= i < |failures| && IsDeclared(firmware, Basename(failures[i].0), f)
            && forall j :: 0 <= j < i ==> NoneDeclared(firmware, Basename(failures[j].0)) {
      if i > 0 {
        assert t[i - 1] == failures[i] && forall j :: 0 <= j < i - 1 ==> t[j] == failures[j + 1];
      }
    }
    if NoneDeclared(firmware, base) && IsLogged(firmware, t, f) {
      var i :| 0 <= i < |t| && IsDeclared(firmware, Basename(t[i].0), f)
               && forall j :: 0 <= j < i ==> NoneDeclared(firmware, Basename(t[j].0));
      assert failures[i + 1] == t[i] && forall j :: 1 <= j < i + 1 ==> failures[j] == t[j - 1];
    }
  }

  /** None of the file's three forms is there, and the host could say so. */
  ghost predicate IsAbsentFile(host: Host, f: string) {
    && FwNameValid(f) && RequireFirmwarePath(f).Some?
    && IsAnswer(host, "/lib/firmware", RequireFirmwarePath(f).value, Some(false), None)
  }

  lemma InstalledExact(host: Host, f: string)
    ensures Installed(host, f) == Some(false) <==> IsAbsentFile(host, f)
  {
    if FwNameValid(f) {
      ValidNameIsAccepted(f);
      BareRootExact("/lib/firmware", "");
      assert "/lib/firmware" + "" == "/lib/firmware";
      var rel := RequireFirmwarePath(f).value;
      PresenceExact(host, "/lib/firmware", rel);
      hide Presence, FirstForm, RStripSlash, RequireFirmwarePath, FwNameValid, Files, Holds;
    }
  }

  // ---------------------------------------------------------- who owns the file

  ghost predicate OwnsFile(e: KbEntry, file: string) {
    exists k :: 0 <= k < |e.firmware| && (e.firmware[k] == file || Basename(e.firmware[k]) == Basename(file))
  }

  ghost predicate IsFirstOwner(kb: Kb, file: string, e: KbEntry) {
    exists i :: 0 <= i < |kb| && kb[i] == e && OwnsFile(kb[i], file) && forall j :: 0 <= j < i ==> !OwnsFile(kb[j], file)
  }

  lemma OwnsExact(e: KbEntry, file: string)
    ensures Owns(e, file) <==> OwnsFile(e, file)
  {
    hide Basename;
    if fw :| fw in e.firmware && (fw == file || Basename(fw) == Basename(file)) {
      var k :| 0 <= k < |e.firmware| && e.firmware[k] == fw;
    }
    if k :| 0 <= k < |e.firmware| && (e.firmware[k] == file || Basename(e.firmware[k]) == Basename(file)) {
      assert e.firmware[k] in e.firmware;
    }
  }

  lemma {:induction false} CleanPackagesExact(a: seq<string>, b: seq<string>, n: string)
    ensures CleanPackages(a + b) == CleanPackages(a) + CleanPackages(b)
    ensures CleanPackages([n]) == if IsPackageName(n) then [n] else []
  {
    hide IsPackageName;
    assert [n][1..] == [];
    if a == [] {
      assert a + b == b;
    } else {
      assert (a + b)[1..] == a[1..] + b;
      CleanPackagesExact(a[1..], b, n);
    }
  }

  function MappingOf(e: KbEntry, file: string): Mapping {
    Mapping(e.chipset, CleanPackages(e.packages), e.evidence + [OwnsFirmware(file, e.chipset)])
  }

  lemma {:induction false} OwnerExact(kb: Kb, file: string) returns (e: KbEntry)
    requires MapFirmware(kb, file).Some?
    ensures IsFirstOwner(kb, file, e) && MapFirmware(kb, file) == Some(MappingOf(e, file))
  {
    hide OwnsFile, CleanPackages;
    OwnsExact(kb[0], file);
    if Owns(kb[0], file) {
      e := kb[0];
    } else {
      hide Owns;
      var t := kb[1..];
      e := OwnerExact(t, file);
      var i :| 0 <= i < |t| && t[i] == e && OwnsFile(t[i], file) && forall j :: 0 <= j < i ==> !OwnsFile(t[j], file);
      assert kb[i + 1] == e && forall j :: 1 <= j < i + 1 ==> kb[j] == t[j - 1];
    }
  }

  // -------------------------------------------------------------------- the table

  predicate IsUnbound(c: Case) { c.bound == None || c.bound == Some("") }

  /** The module the case is about: the bound driver, or else the first candidate. */
  predicate IsPrimary(c: Case, m: string) {
    if IsUnbound(c) then c.inp.candidates != [] && c.inp.candidates[0].module_ == m else c.bound == Some(m)
  }

  ghost predicate BlocksAt(c: Case, m: string, path: PyStr) {
    m != "" && Lookup(c.modprobe, path).Some? && Blocks(Lookup(c.modprobe, path).value, m)
  }

  /** The least path with a block, which must not be empty. */
  ghost predicate IsBlockedBy(c: Case, m: string, path: PyStr) {
    path != [] && IsPrimary(c, m) && BlocksAt(c, m, path) && forall q :: BlocksAt(c, m, q) ==> q == path || Less(path, q)
  }

  ghost predicate IsMissingFile(c: Case, e: KbEntry, f: string) {
    || IsLogged(e.firmware, Failures(c.dmesg), f)
    || (NoneLogged(e.firmware, Failures(c.dmesg)) && c.host.Some? && e.firmware != [] && e.firmware[0] == f
        && IsAbsentFile(c.host.value, f))
  }

  ghost predicate IsMissingIn(c: Case, f: string) {
    exists e :: IsFirstNamed(c.kb, c.inp.chipset.name, e) && IsMissingFile(c, e, f)
  }

  /** The recommendation for a missing file, from the first entry that owns it. */
  function FirmwareAction(e: KbEntry, f: string, managers: seq<Manager>): Action {
    var packages := CleanPackages(e.packages);
    if packages == [] then ManualPackageLookup(f)
    else InstallFirmware(f, packages, if managers == [] then None else Some((managers[0], packages[0])))
  }

  /** Some entry of that name says that new ids are accepted; the first one counts. */
  ghost predicate NamedAccepts(c: Case) {
    exists e :: IsFirstNamed(c.kb, c.inp.chipset.name, e) && e.newIdFeasible == Some(true)
  }

  ghost predicate NamedHasDetail(c: Case) {
    exists e :: IsFirstNamed(c.kb, c.inp.chipset.name, e)
                && (e.newIdModules != [] || (e.preferredModule.Some? && e.preferredModule != Some(""))
                    || e.newIdFeasible == Some(false))
  }

  ghost predicate IsConfirmedC(c: Case, d: Diagnosis, f: string, e: KbEntry) {
    && IsMissingIn(c, f) && IsFirstOwner(c.kb, f, e)
    && var own := e.evidence + [OwnsFirmware(f, e.chipset)];
       d == Diagnosis(C_FIRMWARE_MISSING, CONFIRMED, FirmwareAction(e, f, c.managers), own,
                      c.inp.chipset.evidence + own, c.inp.candidates)
  }

  ghost predicate IsTabled(c: Case, d: Diagnosis) {
    var ev, cs := c.inp.chipset.evidence, c.inp.candidates;
    if c.inp.chipset.name == "UNKNOWN" && cs == [] then
      d == Diagnosis(UNKNOWN_DEVICE, UNKNOWN_CONFIDENCE, ManualChipId, ev, ev, [])
    else if exists m, path :: IsBlockedBy(c, m, path) then
      exists m, path :: IsBlockedBy(c, m, path) && d == Diagnosis(D_MODULE_BLOCKED, CONFIRMED, UnblockModule(m, path), ev, ev, cs)
    else if exists f :: IsMissingIn(c, f) then
      exists f, e :: IsConfirmedC(c, d, f, e)
    else if IsUnbound(c) then
      if HasAlias(cs) || NamedHasDetail(c) then
        d == Diagnosis(B_ID_UNBOUND, HIGH_CONFIDENCE, if NamedAccepts(c) then BindNewId else DiagnoseOnly, ev, ev, cs)
      else d == Diagnosis(E_NO_INTREE_DRIVER, c.inp.chipset.confidence, OutOfTreePointer, ev, ev, cs)
    else if Failures(c.dmesg) != [] then
      d == Diagnosis(C_FIRMWARE_MISSING, PROBABLE, InspectFirmwareLog, ev, ev, cs)
    else d == Diagnosis(A_WORKING, CONFIRMED, NoAction, ev, ev, cs)
  }

  lemma UnboundExact(c: Case, m: string)
    ensures Truthy(c.bound) <==> !IsUnbound(c)
    ensures Primary(c) == Some(m) <==> IsPrimary(c, m)
  {
  }

  lemma EntryExact(c: Case, e: KbEntry)
    ensures Entry(c) == Some(e) <==> IsFirstNamed(c.kb, c.inp.chipset.name, e)
  {
    FindByNameExact(c.kb, c.inp.chipset.name, e);
    hide FindByName, IsFirstNamed;
  }

  lemma BlockedExact(c: Case, m: string, path: PyStr)
    requires Distinct(c.modprobe)
    ensures Observe(c).blockedBy == Some(path) && path != [] && Observe(c).primary == Some(m) <==> IsBlockedBy(c, m, path)
  {
    BlacklistedIsLeast(c);
    OtherFindings(c);
    UnboundExact(c, m);
    hide Observe, Blacklisted, Blocks, Lookup, Less;
    if Primary(c) == Some(m) {
      assert forall q :: BlockedAt(c, q) <==> BlocksAt(c, m, q);
      LeastIsOne(c, m, path);
    }
  }

  lemma LeastIsOne(c: Case, m: string, path: PyStr)
    requires Primary(c) == Some(m) && Distinct(c.modprobe)
    ensures IsBlockedBy(c, m, path) && Blacklisted(Primary(c), c.modprobe).Some? ==> Blacklisted(Primary(c), c.modprobe).value == path
  {
    BlacklistedIsLeast(c);
    hide Blacklisted, Blocks, Lookup;
    if IsBlockedBy(c, m, path) {
      assert BlockedAt(c, path);
      var r := Blacklisted(Primary(c), c.modprobe);
      if r.Some? && r.value != path {
        assert BlocksAt(c, m, r.value);
        LessAsymmetric(path, r.value);
      }
    }
  }

  lemma MissingExact(c: Case, f: string)
    ensures Observe(c).missing == Some(f) <==> IsMissingIn(c, f)
  {
    OtherFindings(c);
    hide Observe;
    if Entry(c).Some? {
      var e := Entry(c).value;
      EntryExact(c, e);
      LoggedExact(e.firmware, Failures(c.dmesg), f);
      if c.host.Some? && e.firmware != [] {
        InstalledExact(c.host.value, e.firmware[0]);
      }
      NoOtherEntry(c, e);
      LoggedSomething(e.firmware, Failures(c.dmesg));
      hide Entry, IsFirstNamed, IsLogged, NoneLogged, FirmwareFromLog, IsAbsentFile, Installed, Failures;
    } else {
      NoEntry(c);
      hide Entry, IsFirstNamed, IsMissingFile;
    }
  }

  lemma LoggedSomething(firmware: seq<string>, failures: seq<(string, int)>)
    ensures forall f :: IsLogged(firmware, failures, f) ==> !NoneLogged(firmware, failures)
  {
    forall f | IsLogged(firmware, failures, f)
      ensures !NoneLogged(firmware, failures)
    {
      LoggedExact(firmware, failures, f);
    }
  }

  lemma NoOtherEntry(c: Case, e: KbEntry)
    requires Entry(c) == Some(e)
    ensures forall x :: IsFirstNamed(c.kb, c.inp.chipset.name, x) <==> x == e
  {
    forall x
      ensures IsFirstNamed(c.kb, c.inp.chipset.name, x) <==> x == e
    {
      EntryExact(c, x);
    }
  }

  lemma NoEntry(c: Case)
    requires Entry(c) == None
    ensures forall x :: !IsFirstNamed(c.kb, c.inp.chipset.name, x)
  {
    forall x
      ensures !IsFirstNamed(c.kb, c.inp.chipset.name, x)
    {
      EntryExact(c, x);
    }
  }

  lemma CapabilityExact(c: Case)
    ensures HasCapabilityDetail(Entry(c)) <==> NamedHasDetail(c)
    ensures (Entry(c).Some? && AcceptsNewIds(Entry(c).value)) <==> NamedAccepts(c)
  {
    if Entry(c).Some? {
      NoOtherEntry(c, Entry(c).value);
    } else {
      NoEntry(c);
    }
    hide Entry, IsFirstNamed;
  }

  /** What the classifier answers is what the table says, in every field. */
  lemma DiagnosisExact(c: Case)
    requires Distinct(c.modprobe)
    ensures IsTabled(c, Diagnose(c))
  {
    OtherFindings(c);
    UnboundExact(c, "");
    CapabilityExact(c);
    BlockedRow(c);
    MissingRow(c);
    hide Observe, IsBlockedBy, IsMissingIn, Entry, Failures, HasAlias, NamedHasDetail, NamedAccepts, IsConfirmedC,
         HasCapabilityDetail, MapFirmware, RecommendFirmware, IsUnbound;
    DecideRows(c, Observe(c));
  }

  lemma BlockedRow(c: Case)
    requires Distinct(c.modprobe)
    ensures Observe(c).blockedBy.Some? && Observe(c).blockedBy.value != [] <==> exists m, path :: IsBlockedBy(c, m, path)
    ensures Observe(c).blockedBy.Some? && Observe(c).blockedBy.value != [] ==>
              Observe(c).primary.Some? && IsBlockedBy(c, Observe(c).primary.value, Observe(c).blockedBy.value)
  {
    hide Observe, IsBlockedBy;
    var f := Observe(c);
    if f.blockedBy.Some? && f.blockedBy.value != [] {
      BlockedExact(c, f.primary.value, f.blockedBy.value);
    }
    if m, path :| IsBlockedBy(c, m, path) {
      BlockedExact(c, m, path);
    }
  }

  lemma MissingRow(c: Case)
    ensures Observe(c).missing.Some? <==> exists f :: IsMissingIn(c, f)
    ensures Observe(c).missing.Some? ==> IsMissingIn(c, Observe(c).missing.value)
    ensures Observe(c).missing.Some? ==>
              var f := Observe(c).missing.value;
              MapFirmware(c.kb, f).Some? && exists e :: IsFirstOwner(c.kb, f, e) && MapFirmware(c.kb, f) == Some(MappingOf(e, f))
  {
    if Observe(c).missing.Some? {
      ConfirmedFirmwareHasOwner(c);
      hide Observe, IsMissingIn, MapFirmware, IsFirstOwner;
      var f := Observe(c).missing.value;
      MissingExact(c, f);
      var e := OwnerExact(c.kb, f);
    }
    hide Observe, IsMissingIn;
    if f :| IsMissingIn(c, f) {
      MissingExact(c, f);
    }
  }

  lemma RecommendExact(e: KbEntry, f: string, managers: seq<Manager>)
    ensures RecommendFirmware(f, Some(MappingOf(e, f)), managers)
         == (FirmwareAction(e, f, managers), e.evidence + [OwnsFirmware(f, e.chipset)])
  {
    hide CleanPackages;
  }

  lemma DecideRows(c: Case, f: Findings)
    requires f.blockedBy.Some? ==> Truthy(f.primary)
    requires f.entry == Entry(c) && f.failures == Failures(c.dmesg)
    requires Truthy(c.bound) <==> !IsUnbound(c)
    requires HasCapabilityDetail(f.entry) <==> NamedHasDetail(c)
    requires (f.entry.Some? && AcceptsNewIds(f.entry.value)) <==> NamedAccepts(c)
    requires f.blockedBy.Some? && f.blockedBy.value != [] <==> exists m, path :: IsBlockedBy(c, m, path)
    requires f.blockedBy.Some? && f.blockedBy.value != [] ==> IsBlockedBy(c, f.primary.value, f.blockedBy.value)
    requires f.missing.Some? <==> exists file :: IsMissingIn(c, file)
    requires f.missing.Some? ==> IsMissingIn(c, f.missing.value)
    requires f.missing.Some? ==>
               exists e :: IsFirstOwner(c.kb, f.missing.value, e) && MapFirmware(c.kb, f.missing.value) == Some(MappingOf(e, f.missing.value))
    ensures IsTabled(c, Decide(c, f))
  {
    hide IsBlockedBy, IsMissingIn, Entry, Failures, HasAlias, NamedHasDetail, NamedAccepts, HasCapabilityDetail, MapFirmware,
         RecommendFirmware, IsUnbound, IsFirstOwner, AcceptsNewIds, FirmwareAction, MappingOf;
    if f.missing.Some? {
      var file := f.missing.value;
      var e :| IsFirstOwner(c.kb, file, e) && MapFirmware(c.kb, file) == Some(MappingOf(e, file));
      RecommendExact(e, file, c.managers);
      var own := e.evidence + [OwnsFirmware(file, e.chipset)];
      var d := Diagnosis(C_FIRMWARE_MISSING, CONFIRMED, FirmwareAction(e, file, c.managers), own,
                         c.inp.chipset.evidence + own, c.inp.candidates);
      assert IsConfirmedC(c, d, file, e);
    }
    hide IsConfirmedC;
  }
}
