/** firmware/resolver.py: is a firmware file present under a root? And the two
    ways the package decides that a real path is inside that root. */
module FirmwarePresence {
  import opened Text
  import opened Paths
  import opened FirmwarePath

  // ------------------------------------------------------------ the name grammar

  predicate Contains(s: string, sub: string) { exists k :: 0 <= k <= |s| && OccursAt(s, sub, k) }

  predicate OccursAt(s: string, sub: string, k: nat) { k + |sub| <= |s| && s[k..k + |sub|] == sub }

  predicate IsNameChar(c: char) { IsAlphanumeric(c) || c == '.' || c == '_' || c == '/' || c == '-' }

  predicate FwNameValid(name: string) {
    && 1 <= |name| <= 4096
    && IsAlphanumeric(name[0]) && All(name, IsNameChar)
    && !Contains(name, "..") && !Contains(name, "//") && name[|name| - 1] != '/'
  }

  lemma {:induction false} ComponentOccurs(s: string, i: nat) returns (k: nat)
    requires i < |Components(s)|
    ensures OccursAt(s, Components(s)[i], k)
  {
    if s == "" {
      k := 0;
    } else {
      var r := Split(s[1..], '/');
      if s[0] == '/' {
        if i == 0 {
          k := 0;
        } else {
          var k' := ComponentOccurs(s[1..], i - 1);
          k := k' + 1;
          assert s[1..][k'..k' + |r[i - 1]|] == s[k..k + |r[i - 1]|];
        }
      } else if i == 0 {
        k := 0;
        FirstComponent(s[1..]);
        assert s[..1 + |r[0]|] == [s[0]] + s[1..][..|r[0]|];
      } else {
        var k' := ComponentOccurs(s[1..], i);
        k := k' + 1;
        assert s[1..][k'..k' + |r[i]|] == s[k..k + |r[i]|];
      }
    }
  }

  lemma {:induction false} FirstComponent(s: string)
    ensures Components(s)[0] <= s
  {
    if s != "" && s[0] != '/' {
      FirstComponent(s[1..]);
      assert s == [s[0]] + s[1..];
    }
  }

  // ------------------------------------------------ the grammar by components

  lemma PairAt(s: string, x: char, k: nat)
    ensures OccursAt(s, [x, x], k) <==> k + 2 <= |s| && s[k] == x && s[k + 1] == x
  {
    if k + 2 <= |s| {
      var t := s[k..k + 2];
      assert t[0] == s[k] && t[1] == s[k + 1];
      assert s[k] == x && s[k + 1] == x ==> t == [x, x];
    }
  }

  lemma PairOccurs(c: char, t: string, x: char)
    ensures Contains([c] + t, [x, x]) <==> Contains(t, [x, x]) || (c == x && t != "" && t[0] == x)
  {
    var s, xx := [c] + t, [x, x];
    if k :| 0 <= k <= |s| && OccursAt(s, xx, k) {
      PairAt(s, x, k);
      if k > 0 {
        PairAt(t, x, k - 1);
        hide OccursAt;
        assert OccursAt(t, xx, k - 1);
      }
    }
    if k :| 0 <= k <= |t| && OccursAt(t, xx, k) {
      PairAt(t, x, k);
      PairAt(s, x, k + 1);
      hide OccursAt;
      assert OccursAt(s, xx, k + 1);
    }
    if c == x && t != "" && t[0] == x {
      PairAt(s, x, 0);
      hide OccursAt;
      assert OccursAt(s, xx, 0);
    }
  }

  lemma NothingOccurs(x: char)
    ensures !Contains("", [x, x])
  {
  }

  lemma SplitCons(c: char, t: string)
    ensures Components([c] + t) == if c == '/' then [""] + Components(t)
                                   else [[c] + Components(t)[0]] + Components(t)[1..]
  {
    assert ([c] + t)[1..] == t;
  }

  lemma {:induction false} DotsInComponents(s: string)
    ensures Contains(s, "..") <==> exists i :: 0 <= i < |Components(s)| && Contains(Components(s)[i], "..")
  {
    hide Contains;
    assert ".." == ['.', '.'];
    if s == "" {
      NothingOccurs('.');
      assert Components(s) == [""];
    } else {
      var c, t := s[0], s[1..];
      assert s == [c] + t;
      var r := Components(t);
      DotsInComponents(t);
      SplitCons(c, t);
      PairOccurs(c, t, '.');
      FirstComponent(t);
      FirstComponentStart(t);
      if c == '/' {
        NothingOccurs('.');
        assert forall i :: 0 <= i < |r| ==> ([""] + r)[i + 1] == r[i];
        SameElsewhere("", r, ([""] + r));
      } else {
        PairOccurs(c, r[0], '.');
        assert forall i :: 1 <= i < |r| ==> Components(s)[i] == r[i];
        assert Components(s)[0] == [c] + r[0];
      }
    }
  }

  lemma SameElsewhere(h: string, r: Comps, all: Comps)
    requires all == [h] + r && !Contains(h, "..")
    ensures (exists i :: 0 <= i < |all| && Contains(all[i], "..")) <==> exists i :: 0 <= i < |r| && Contains(r[i], "..")
  {
    hide Contains;
    if i :| 0 <= i < |all| && Contains(all[i], "..") {
      assert Contains(r[i - 1], "..");
    }
    if i :| 0 <= i < |r| && Contains(r[i], "..") {
      assert Contains(all[i + 1], "..");
    }
  }

  lemma FirstComponentStart(t: string)
    ensures Components(t)[0] != "" <==> t != "" && t[0] != '/'
    ensures Components(t)[0] != "" ==> Components(t)[0][0] == t[0]
    ensures t != "" && t[0] == '.' ==> Components(t)[0] != ""
  {
  }

  lemma {:induction false} NoEmptyBehind(t: string)
    ensures (forall i :: 1 <= i < |Components(t)| ==> Components(t)[i] != "") <==>
              !Contains(t, "//") && (t == "" || t[|t| - 1] != '/')
  {
    hide Contains;
    assert "//" == ['/', '/'];
    if t == "" {
      NothingOccurs('/');
      assert Components(t) == [""];
    } else {
      var c, u := t[0], t[1..];
      assert t == [c] + u;
      var r := Components(u);
      NoEmptyBehind(u);
      SplitCons(c, u);
      PairOccurs(c, u, '/');
      FirstComponentStart(u);
      if c == '/' {
        assert forall i :: 0 <= i < |r| ==> Components(t)[i + 1] == r[i];
        assert forall i :: 1 <= i < |Components(t)| ==> Components(t)[i] == r[i - 1];
      } else {
        assert forall i :: 1 <= i < |r| ==> Components(t)[i] == r[i];
      }
    }
  }

  lemma {:induction false} CharactersOfComponents(s: string)
    ensures All(s, IsNameChar) <==> forall i :: 0 <= i < |Components(s)| ==> All(Components(s)[i], IsNameChar)
  {
    hide IsNameChar;
    if s == "" {
      assert Components(s) == [""];
    } else {
      var c, t := s[0], s[1..];
      var r := Components(t);
      assert s == [c] + t;
      assert IsNameChar('/') by { SlashIsNameChar(); }
      CharactersOfComponents(t);
      SplitCons(c, t);
      assert All(s, IsNameChar) <==> IsNameChar(c) && All(t, IsNameChar) by {
        AllOfCons(c, t);
      }
      AllOfCons(c, r[0]);
      if c == '/' {
        assert forall i :: 0 <= i < |r| ==> Components(s)[i + 1] == r[i];
        assert forall i :: 1 <= i < |Components(s)| ==> Components(s)[i] == r[i - 1];
        assert Components(s)[0] == "";
      } else {
        assert forall i :: 1 <= i < |r| ==> Components(s)[i] == r[i];
        assert Components(s)[0] == [c] + r[0];
      }
    }
  }

  lemma SlashIsNameChar()
    ensures IsNameChar('/')
  {
  }

  lemma AllOfCons(c: char, t: string)
    ensures All([c] + t, IsNameChar) <==> IsNameChar(c) && All(t, IsNameChar)
  {
    hide IsNameChar;
    var s := [c] + t;
    assert s[0] == c && forall i :: 0 <= i < |t| ==> s[i + 1] == t[i];
  }

  predicate IsPartChar(c: char) { IsAlphanumeric(c) || c == '.' || c == '_' || c == '-' }

  /** A firmware name: at most 4096 characters, components of letters, digits, dots,
      underscores and hyphens between single slashes, none of them empty and none with
      two dots in a row, the first one starting with a letter or a digit. */
  lemma FwNameExact(name: string)
    ensures FwNameValid(name) <==>
              && name != "" && |name| <= 4096 && IsAlphanumeric(name[0])
              && forall i :: 0 <= i < |Components(name)| ==>
                   var comp := Components(name)[i];
                   comp != "" && All(comp, IsPartChar) && !Contains(comp, "..")
  {
    CharactersOfComponents(name);
    DotsInComponents(name);
    NoEmptyBehind(name);
    FirstComponentStart(name);
    hide Contains, Split;
    if name != "" {
      assert IsAlphanumeric(name[0]) ==> name[0] != '/';
      forall i | 0 <= i < |Components(name)|
        ensures All(Components(name)[i], IsPartChar) <==> All(Components(name)[i], IsNameChar)
      {
        assert '/' !in Components(name)[i];
      }
      hide IsNameChar, IsPartChar, IsAlphanumeric, All;
    }
  }

  /** Dots may hide behind nothing but other characters: no component is "..". */
  lemma ValidNameHasNoDotDot(name: string)
    requires FwNameValid(name)
    ensures forall i :: 0 <= i < |Components(name)| ==> Components(name)[i] != ".."
  {
    hide All;
    forall i | 0 <= i < |Components(name)|
      ensures Components(name)[i] != ".."
    {
      var k := ComponentOccurs(name, i);
      assert Components(name)[i] == ".." ==> OccursAt(name, "..", k);
    }
  }

  lemma {:induction false} NoDotDotStaysInside(comps: Comps, depth: nat)
    requires forall i :: 0 <= i < |comps| ==> comps[i] != ".."
    ensures StaysInside(comps, depth)
  {
    if comps != [] {
      NoDotDotStaysInside(comps[1..], depth + Delta(comps[0]));
    }
  }

  lemma {:induction false} NoDotDotKeepsFirst(stack: Comps, comps: Comps)
    requires stack != [] && forall i :: 0 <= i < |comps| ==> comps[i] != ".."
    ensures var s := Walk(stack, comps, false, '.'); s != [] && s[0] == stack[0]
    decreases comps
  {
    if comps != [] {
      NoDotDotKeepsFirst(Step(stack, comps[0], false, '.'), comps[1..]);
    }
  }

  lemma NameCharacters(name: string)
    requires FwNameValid(name)
    ensures name[0] != '/' && name[0] != '.' && '\\' !in name && '\0' !in name
  {
    assert forall i :: 0 <= i < |name| ==> IsNameChar(name[i]);
  }

  /** A name the log grammar accepts is always a path the validator accepts, so
      asking for its presence never raises. */
  lemma ValidNameIsAccepted(name: string)
    requires FwNameValid(name)
    ensures RequireFirmwarePath(name).Some?
  {
    var comps := Components(name);
    ValidNameHasNoDotDot(name);
    NameCharacters(name);
    hide FwNameValid, Split, Walk, Step, StaysInside;
    NoDotDotStaysInside(comps, 0);
    var c := comps[0];
    FirstIsKept(comps);
    NoDotDotKeepsFirst([c], comps[1..]);
    assert !(".." <= c);
    ComponentCharacters(name, '\0');
    WalkCharacters([], comps, '\0');
    RequireExact(name);
  }

  lemma FirstIsKept(comps: Comps)
    requires comps != [] && comps[0] != "" && comps[0][0] != '.'
    ensures Walk([], comps, false, '.') == Walk([comps[0]], comps[1..], false, '.')
  {
    assert [] + [comps[0]] == [comps[0]];
  }

  // -------------------------------------------------------------- host answers

  /** One host's answer about one path: the access fails, nothing is there, or
      something is there and its symlink-free path is known. */
  datatype Answer = Fails | Absent | Present(target: string)

  type Host = string -> Answer

  /** None: could not be determined. */
  type Verdict = Option<bool>

  function RStripSlash(s: string): string { RStrip(s, c => c == '/') }

  function ExistsUnderRoot(host: Host, full: string, root: string): Verdict {
    match host(full)
    case Fails => None
    case Absent => Some(false)
    case Present(target) => Some(RStripSlash(root) + "/" <= target)
  }

  /** Kleene's three-valued disjunction. */
  function KleeneOr(a: Verdict, b: Verdict): Verdict {
    if a == Some(true) || b == Some(true) then Some(true)
    else if a == None || b == None then None
    else Some(false)
  }

  datatype Status = Status(normalized: Option<string>, installed: Verdict, form: Option<string>)

  function FormVerdict(host: Host, base: string, canon: string, suffix: string): Verdict {
    ExistsUnderRoot(host, base + "/" + (canon + suffix), base)
  }

  function Presence(host: Host, base: string, canon: string): Verdict {
    KleeneOr(FormVerdict(host, base, canon, ""),
             KleeneOr(FormVerdict(host, base, canon, ".zst"), FormVerdict(host, base, canon, ".xz")))
  }

  /** The form of the first file that is present, in the order raw, .zst, .xz. */
  function FirstForm(host: Host, base: string, canon: string): Option<string> {
    if FormVerdict(host, base, canon, "") == Some(true) then Some("raw")
    else if FormVerdict(host, base, canon, ".zst") == Some(true) then Some(".zst")
    else if FormVerdict(host, base, canon, ".xz") == Some(true) then Some(".xz")
    else None
  }

  predicate IsSlashes(s: string) { forall i :: 0 <= i < |s| ==> s[i] == '/' }

  predicate IsBareRoot(base: string) { base == "" || base[|base| - 1] != '/' }

  /** Stripping leaves what stands before the trailing slashes. */
  lemma BareRootExact(base: string, slashes: string)
    requires IsBareRoot(base) && IsSlashes(slashes)
    ensures RStripSlash(base + slashes) == base && RStripSlash(base) == base
  {
    var p := c => c == '/';
    RStripSuffix(base, slashes, p);
    RStripSuffix(base, "", p);
    assert base + "" == base;
  }

  /** And every root has such a form. */
  lemma BareRootExists(root: string)
    ensures exists base, slashes :: root == base + slashes && IsBareRoot(base) && IsSlashes(slashes)
  {
    var p := c => c == '/';
    RStripParts(root, p);
    var base := RStrip(root, p);
    hide RStrip;
    assert root == base + root[|base|..];
    assert IsSlashes(root[|base|..]);
  }

  /** The three files asked for: as named, and compressed in two ways. */
  function Files(base: string, rel: string): seq<string> {
    [base + "/" + rel, base + "/" + rel + ".zst", base + "/" + rel + ".xz"]
  }

  const FORM_NAMES: seq<string> := ["raw", ".zst", ".xz"]

  /** The file is there and its real path is inside the root. */
  predicate Holds(host: Host, file: string, base: string) {
    host(file).Present? && base + "/" <= host(file).target
  }

  /** Verdict and form, in terms of the host's three answers alone. */
  ghost predicate IsAnswer(host: Host, base: string, rel: string, installed: Verdict, form: Option<string>) {
    var files := Files(base, rel);
    && (installed == Some(true) <==> exists i :: 0 <= i < 3 && Holds(host, files[i], base))
    && (installed == None <==> (forall i :: 0 <= i < 3 ==> !Holds(host, files[i], base))
                               && exists i :: 0 <= i < 3 && host(files[i]) == Fails)
    && (form == None <==> installed != Some(true))
    && forall i :: 0 <= i < 3 && Holds(host, files[i], base) && (forall j :: 0 <= j < i ==> !Holds(host, files[j], base)) ==>
         form == Some(FORM_NAMES[i])
  }

  lemma FormVerdictIs(host: Host, base: string, rel: string, suffix: string, file: string)
    requires IsBareRoot(base) && file == base + "/" + rel + suffix
    ensures FormVerdict(host, base, rel, suffix) ==
              if host(file) == Fails then None else Some(Holds(host, file, base))
  {
    BareRootExact(base, "");
    assert base + "" == base;
    assert base + "/" + (rel + suffix) == file;
    hide RStripSlash;
  }

  lemma PresenceExact(host: Host, base: string, rel: string)
    requires IsBareRoot(base)
    ensures IsAnswer(host, base, rel, Presence(host, base, rel), FirstForm(host, base, rel))
  {
    var files := Files(base, rel);
    assert base + "/" + rel + "" == base + "/" + rel;
    FormVerdictIs(host, base, rel, "", files[0]);
    FormVerdictIs(host, base, rel, ".zst", files[1]);
    FormVerdictIs(host, base, rel, ".xz", files[2]);
    hide FormVerdict, Files, Holds;
    assert FORM_NAMES[0] == "raw" && FORM_NAMES[1] == ".zst" && FORM_NAMES[2] == ".xz";
    assert |files| == 3;
    assert (exists i :: 0 <= i < 3 && Holds(host, files[i], base)) <==>
             Holds(host, files[0], base) || Holds(host, files[1], base) || Holds(host, files[2], base);
    assert (exists i :: 0 <= i < 3 && host(files[i]) == Fails) <==>
             host(files[0]) == Fails || host(files[1]) == Fails || host(files[2]) == Fails;
  }

  /** check_firmware_presence: never raises, and answers the Kleene disjunction over
      the three on-disk forms, naming the first one present. */
  method CheckFirmwarePresence(host: Host, rel: string, root: string) returns (st: Status)
    ensures !FwNameValid(rel) ==> st == Status(None, None, None)
    ensures FwNameValid(rel) ==>
              && RequireFirmwarePath(rel).Some?
              && var canon := RequireFirmwarePath(rel).value;
              && var base := RStripSlash(root);
              st == Status(Some(canon), Presence(host, base, canon), FirstForm(host, base, canon))
    ensures FwNameValid(rel) ==>
              forall base, slashes :: root == base + slashes && IsBareRoot(base) && IsSlashes(slashes) ==>
                IsAnswer(host, base, RequireFirmwarePath(rel).value, st.installed, st.form)
  {
    if !FwNameValid(rel) {
      return Status(None, None, None);
    }
    ValidNameIsAccepted(rel);
    forall base, slashes | root == base + slashes && IsBareRoot(base) && IsSlashes(slashes)
      ensures base == RStripSlash(root) && IsBareRoot(base)
    {
      BareRootExact(base, slashes);
    }
    PresenceExact(host, RStripSlash(root), RequireFirmwarePath(rel).value);
    hide FwNameValid, RequireFirmwarePath, FormVerdict, ExistsUnderRoot, RStripSlash;
    var canon := RequireFirmwarePath(rel).value;
    var base := RStripSlash(root);
    var installed, form := CheckForms(host, base, canon);
    return Status(Some(canon), installed, form);
  }

  method CheckForms(host: Host, base: string, canon: string) returns (installed: Verdict, form: Option<string>)
    ensures installed == Presence(host, base, canon) && form == FirstForm(host, base, canon)
  {
    hide FormVerdict;
    var indeterminate := false;
    var forms := ["", ".zst", ".xz"];
    for i := 0 to |forms|
      invariant forall k :: 0 <= k < i ==> FormVerdict(host, base, canon, forms[k]) != Some(true)
      invariant indeterminate <==> exists k :: 0 <= k < i && FormVerdict(host, base, canon, forms[k]) == None
    {
      var state := FormVerdict(host, base, canon, forms[i]);
      if state == Some(true) {
        assert i > 0 ==> FormVerdict(host, base, canon, forms[0]) != Some(true);
        assert i > 1 ==> FormVerdict(host, base, canon, forms[1]) != Some(true);
        assert i == 0 || i == 1 || i == 2;
        return Some(true), Some(if forms[i] == "" then "raw" else forms[i]);
      }
      if state == None {
        indeterminate := true;
      }
    }
    assert FormVerdict(host, base, canon, forms[0]) != Some(true);
    assert FormVerdict(host, base, canon, forms[1]) != Some(true);
    assert FormVerdict(host, base, canon, forms[2]) != Some(true);
    return if indeterminate then None else Some(false), None;
  }

  /** host2 answers like host1, and also where host1 failed. */
  ghost predicate MoreInformed(host1: Host, host2: Host) {
    forall path :: host1(path) == Fails || host1(path) == host2(path)
  }

  /** More information never flips a verdict: only "unknown" can change. */
  lemma PresenceIsMonotone(host1: Host, host2: Host, base: string, canon: string)
    requires MoreInformed(host1, host2) && Presence(host1, base, canon) != None
    ensures Presence(host2, base, canon) == Presence(host1, base, canon)
  {
    FormIsMonotone(host1, host2, base, canon, "");
    FormIsMonotone(host1, host2, base, canon, ".zst");
    FormIsMonotone(host1, host2, base, canon, ".xz");
    hide FormVerdict;
  }

  lemma FormIsMonotone(host1: Host, host2: Host, base: string, canon: string, suffix: string)
    requires MoreInformed(host1, host2)
    ensures FormVerdict(host1, base, canon, suffix) == None
            || FormVerdict(host2, base, canon, suffix) == FormVerdict(host1, base, canon, suffix)
  {
    hide RStripSlash;
    assert host1(base + "/" + (canon + suffix)) == Fails
        || host1(base + "/" + (canon + suffix)) == host2(base + "/" + (canon + suffix));
  }

  // ------------------------------------------------------ two containment tests

  /** os.path.commonpath drops empty and "." components before comparing. */
  function Meaningful(comps: Comps): Comps {
    if comps == [] then []
    else (if comps[0] == "" || comps[0] == "." then [] else [comps[0]]) + Meaningful(comps[1..])
  }

  function CommonPrefix(a: Comps, b: Comps): Comps {
    if a == [] || b == [] || a[0] != b[0] then [] else [a[0]] + CommonPrefix(a[1..], b[1..])
  }

  predicate IsAbsolute(path: string) { "/" <= path }

  /** os.path.commonpath of two paths; None for the ValueError on mixing absolute
      and relative ones. */
  function CommonPath(a: string, b: string): Option<string> {
    if IsAbsolute(a) != IsAbsolute(b) then None
    else Some((if IsAbsolute(a) then "/" else "")
              + Join(CommonPrefix(Meaningful(Components(a)), Meaningful(Components(b))), "/"))
  }

  /** The test of _exists_under_root, for a base without trailing slash. */
  predicate InsideByPrefix(target: string, base: string) { base + "/" <= target }

  /** The test of firmware_exists. */
  predicate InsideByComponents(target: string, base: string) { CommonPath(target, base) == Some(base) }

  function Absolute(comps: Comps): string { "/" + Join(comps, "/") }

  lemma {:induction false} MeaningfulProper(comps: Comps)
    requires AllProper(comps, '/', '.')
    ensures Meaningful(comps) == comps
  {
    if comps != [] {
      assert IsProper(comps[0], '/', '.');
      MeaningfulProper(comps[1..]);
      assert [comps[0]] + comps[1..] == comps;
    }
  }

  lemma MeaningfulAbsolute(comps: Comps)
    requires AllProper(comps, '/', '.')
    ensures Meaningful(Components(Absolute(comps))) == comps
  {
    var pre: Comps := [""];
    MeaningfulProper(comps);
    if comps == [] {
      assert Absolute(comps) == "/" && "/"[1..] == "";
      assert Components("/") == [""] + [""];
      assert ([""] + [""])[1..] == [""] && [""][1..] == [];
    } else {
      assert SlashFree(comps, '/') by {
        assert forall i :: 0 <= i < |comps| ==> IsProper(comps[i], '/', '.');
      }
      SplitOfJoin2(comps, '/');
      SplitLeadingSlash(Join(comps, "/"), '/');
      assert (pre + comps)[1..] == comps;
    }
  }

  lemma {:induction false} CommonPrefixIsPrefix(a: Comps, b: Comps)
    ensures CommonPrefix(a, b) <= b && (CommonPrefix(a, b) == b <==> b <= a)
  {
    if a != [] && b != [] && a[0] == b[0] {
      CommonPrefixIsPrefix(a[1..], b[1..]);
      assert a == [a[0]] + a[1..] && b == [b[0]] + b[1..];
    }
  }

  lemma JoinInjective(a: Comps, b: Comps)
    requires AllProper(a, '/', '.') && AllProper(b, '/', '.')
    ensures Join(a, "/") == Join(b, "/") <==> a == b
  {
    NothingKept();
    if a != [] {
      ProperJoin(a);
    }
    if b != [] {
      ProperJoin(b);
    }
  }

  lemma PrefixIsProper(a: Comps, b: Comps)
    requires a <= b && AllProper(b, '/', '.')
    ensures AllProper(a, '/', '.')
  {
    forall i | 0 <= i < |a|
      ensures IsProper(a[i], '/', '.')
    {
      assert a[i] == b[i] && IsProper(b[i], '/', '.');
    }
  }

  lemma JoinExtends(a: Comps, b: Comps)
    requires a != [] && b != []
    ensures Join(a + b, "/") == Join(a, "/") + "/" + Join(b, "/")
  {
    if |a| == 1 {
      assert (a + b)[1..] == b;
    } else {
      JoinExtends(a[1..], b);
      assert (a + b)[1..] == a[1..] + b;
    }
  }

  lemma InsideByPrefixExact(rs: Comps, bs: Comps)
    requires AllProper(rs, '/', '.') && AllProper(bs, '/', '.') && bs != []
    ensures InsideByPrefix(Absolute(rs), Absolute(bs)) <==> bs < rs
  {
    hide Join, Split, AllProper;
    var jb, jr := Join(bs, "/"), Join(rs, "/");
    if bs < rs {
      var rest := rs[|bs|..];
      assert rs == bs + rest;
      JoinExtends(bs, rest);
      assert Absolute(rs) == (Absolute(bs) + "/") + Join(rest, "/");
    }
    if Absolute(bs) + "/" <= Absolute(rs) {
      var tail := Absolute(rs)[|Absolute(bs)| + 1..];
      assert Absolute(rs) == "/" + (jb + "/" + tail);
      assert ("/" + jr)[1..] == jr && ("/" + (jb + "/" + tail))[1..] == jb + "/" + tail;
      SplitBehindJoin(bs, tail);
      ProperJoin(bs);
      NonEmptyJoin(rs, jb + "/" + tail);
      ProperJoin(rs);
      assert rs == bs + Components(tail);
    }
  }

  lemma NonEmptyJoin(rs: Comps, text: string)
    requires Join(rs, "/") == text && text != ""
    ensures rs != []
  {
  }

  lemma {:induction false} SplitBehindJoin(bs: Comps, tail: string)
    requires bs != [] && AllProper(bs, '/', '.')
    ensures Components(Join(bs, "/") + "/" + tail) == bs + Components(tail)
  {
    hide Split, AllProper;
    ProperHead(bs);
    if |bs| == 1 {
      SplitPrefix(bs[0], tail, '/');
      assert [bs[0]] == bs;
    } else {
      SplitBehindJoin(bs[1..], tail);
      SplitPrefix(bs[0], Join(bs[1..], "/") + "/" + tail, '/');
      assert Join(bs, "/") + "/" + tail == bs[0] + "/" + (Join(bs[1..], "/") + "/" + tail);
      assert [bs[0]] + (bs[1..] + Components(tail)) == bs + Components(tail);
    }
  }

  lemma ProperHead(bs: Comps)
    requires bs != [] && AllProper(bs, '/', '.')
    ensures '/' !in bs[0] && AllProper(bs[1..], '/', '.')
  {
    assert IsProper(bs[0], '/', '.');
  }

  /** A normalised absolute path: one leading slash, or two, which POSIX keeps. */
  function Slashed(n: nat, comps: Comps): string { if n == 2 then "/" + Absolute(comps) else Absolute(comps) }

  lemma MeaningfulSlashed(n: nat, comps: Comps)
    requires 1 <= n <= 2 && AllProper(comps, '/', '.')
    ensures Meaningful(Components(Slashed(n, comps))) == comps && IsAbsolute(Slashed(n, comps))
  {
    hide Join, Split, AllProper;
    MeaningfulAbsolute(comps);
    if n == 2 {
      SplitLeadingSlash(Absolute(comps), '/');
      var pre: Comps := [""];
      var cs := Components(Absolute(comps));
      assert Components(Slashed(2, comps)) == pre + cs;
      assert (pre + cs)[1..] == cs && (pre + cs)[0] == "";
    }
  }

  /** The joined components never begin with a slash. */
  lemma JoinStart(comps: Comps)
    requires AllProper(comps, '/', '.')
    ensures comps == [] ==> Join(comps, "/") == ""
    ensures comps != [] ==> Join(comps, "/") != "" && Join(comps, "/")[0] != '/'
  {
    if comps != [] {
      ProperJoin(comps);
    }
  }

  lemma ComponentTestExact(n: nat, rs: Comps, m: nat, bs: Comps)
    requires 1 <= n <= 2 && 1 <= m <= 2 && AllProper(rs, '/', '.') && AllProper(bs, '/', '.') && bs != []
    ensures InsideByComponents(Slashed(n, rs), Slashed(m, bs)) <==> m == 1 && bs <= rs
  {
    hide Join, Split, AllProper, Meaningful, CommonPrefix;
    MeaningfulSlashed(n, rs);
    MeaningfulSlashed(m, bs);
    CommonPrefixIsPrefix(rs, bs);
    var common := CommonPrefix(rs, bs);
    PrefixIsProper(common, bs);
    JoinInjective(common, bs);
    JoinStart(common);
    JoinStart(bs);
    var jc, jb := Join(common, "/"), Join(bs, "/");
    assert ("/" + jc)[1..] == jc && ("/" + jb)[1..] == jb && ("/" + ("/" + jb))[1..] == "/" + jb;
    assert ("/" + jb)[0] == '/';
  }

  lemma PrefixTestExact(n: nat, rs: Comps, m: nat, bs: Comps)
    requires 1 <= n <= 2 && 1 <= m <= 2 && AllProper(rs, '/', '.') && AllProper(bs, '/', '.') && bs != []
    ensures InsideByPrefix(Slashed(n, rs), Slashed(m, bs)) <==> n == m && bs < rs
  {
    hide Join, Split, AllProper;
    InsideByPrefixExact(rs, bs);
    JoinStart(rs);
    JoinStart(bs);
    var r, b := Absolute(rs), Absolute(bs) + "/";
    assert |r| > 1 ==> r[1] == Join(rs, "/")[0];
    assert b[1] == Join(bs, "/")[0];
    assert ("/" + r)[1] == '/' && ("/" + b)[1] == '/' && |b| >= 2;
    assert ("/" + r)[1..] == r && ("/" + b)[1..] == b;
    assert "/" + Absolute(bs) + "/" == "/" + b;
    assert "/" + b <= "/" + r <==> b <= r by {
      if b <= r {
        assert ("/" + r)[..|b| + 1] == "/" + b;
      }
    }
  }

  /** The two tests on all normalised paths, with one leading slash or two, and every
      base but the root directory. Without a doubled slash they disagree on the base
      itself only; with one in the target or the base, exactly where one test takes the
      target for inside. */
  lemma ContainmentTestsAgree(n: nat, rs: Comps, m: nat, bs: Comps)
    requires 1 <= n <= 2 && 1 <= m <= 2 && AllProper(rs, '/', '.') && AllProper(bs, '/', '.') && bs != []
    ensures (InsideByPrefix(Slashed(n, rs), Slashed(m, bs)) <==> InsideByComponents(Slashed(n, rs), Slashed(m, bs)))
            <==> if m == 1 then !(bs <= rs && (n == 2 || bs == rs)) else !(n == 2 && bs < rs)
  {
    hide InsideByPrefix, InsideByComponents, AllProper, Slashed;
    PrefixTestExact(n, rs, m, bs);
    ComponentTestExact(n, rs, m, bs);
  }

  /** With the root directory as base, the component test raises on every absolute
      path, while the prefix test accepts every one. */
  lemma RootBaseSplitsTheTests(target: string)
    requires IsAbsolute(target)
    ensures CommonPath(target, RStripSlash("/")) == None && InsideByPrefix(target, RStripSlash("/"))
  {
    assert RStripSlash("/") == "" by {
      assert "/"[..0] == "";
    }
    assert "" + "/" == "/";
  }

  /** An instance: under the base, a target with a doubled leading slash is inside for
      one test only. */
  lemma DoubleSlashSplitsTheTests(rs: Comps, bs: Comps)
    requires AllProper(rs, '/', '.') && AllProper(bs, '/', '.') && bs != [] && bs <= rs
    ensures InsideByComponents("/" + Absolute(rs), Absolute(bs)) && !InsideByPrefix("/" + Absolute(rs), Absolute(bs))
  {
    hide InsideByPrefix, InsideByComponents, AllProper, Absolute;
    PrefixTestExact(2, rs, 1, bs);
    ComponentTestExact(2, rs, 1, bs);
  }
}
