/** linux/log_access.py: the order on kernel release strings and the
    reboot-pending signal built on it. Digits are ASCII digits. */
module KernelRelease {
  import opened Text
  import opened Dicts

  predicate IsNumeral(s: string) { s != "" && AllDigits(s) }

  function ChunkValue(chunk: string): int { if IsNumeral(chunk) then DecimalValue(chunk) else -1 }

  function ChunkValues(chunks: seq<string>): seq<int> {
    if chunks == [] then [] else ChunkValues(chunks[..|chunks| - 1]) + [ChunkValue(chunks[|chunks| - 1])]
  }

  function Head(rel: string): seq<string> { Split(Split(rel, '-')[0], '.') }

  /** The dotted version in front of the first hyphen. */
  function Version(rel: string): (v: seq<int>)
    ensures |v| == |Head(rel)| >= 1
  {
    ChunkCount(Head(rel));
    ChunkValues(Head(rel))
  }

  /** The number between the first two hyphens, -1 when there is none. */
  function Abi(rel: string): int {
    var tail := Split(rel, '-');
    if |tail| > 1 && IsNumeral(tail[1]) then DecimalValue(tail[1]) else -1
  }

  function Key(rel: string): seq<int> { Version(rel) + [Abi(rel)] }

  /** Python compares the keys as tuples: lexicographically, a proper prefix first. */
  predicate VersionGt(candidate: string, baseline: string) { Less(Key(baseline), Key(candidate)) }

  lemma {:induction false} ChunkCount(chunks: seq<string>)
    ensures |ChunkValues(chunks)| == |chunks|
    ensures forall i :: 0 <= i < |chunks| ==> ChunkValues(chunks)[i] == ChunkValue(chunks[i])
  {
    hide ChunkValue;
    if chunks != [] {
      ChunkCount(chunks[..|chunks| - 1]);
    }
  }

  /** The helper key, with its loop over the dotted chunks. */
  method ComputeKey(rel: string) returns (k: seq<int>)
    ensures k == Key(rel)
  {
    hide Split, ChunkValue;
    var chunks := Head(rel);
    var parts: seq<int> := [];
    for i := 0 to |chunks|
      invariant parts == ChunkValues(chunks[..i])
    {
      assert chunks[..i + 1][..i] == chunks[..i];
      parts := parts + [ChunkValue(chunks[i])];
    }
    assert chunks[..|chunks|] == chunks;
    var tail := Split(rel, '-');
    var abinum: int := -1;
    if |tail| > 1 && IsNumeral(tail[1]) {
      abinum := DecimalValue(tail[1]);
    }
    return parts + [abinum];
  }

  // ------------------------------------------------------------- a strict weak order

  /** Irreflexive and transitive, and two releases exceed each other neither way
      exactly when their keys are equal, so being incomparable is an equivalence. */
  lemma StrictWeakOrder(a: string, b: string, c: string)
    ensures !VersionGt(a, a)
    ensures VersionGt(a, b) && VersionGt(b, c) ==> VersionGt(a, c)
    ensures !VersionGt(a, b) && !VersionGt(b, a) <==> Key(a) == Key(b)
  {
    hide Key, Less;
    LessIrreflexive(Key(a));
    LessTotal(Key(a), Key(b));
    LessIrreflexive(Key(b));
    if Less(Key(b), Key(a)) && Less(Key(c), Key(b)) {
      LessTransitive(Key(c), Key(b), Key(a));
    }
  }

  predicate StartsNumeric(rel: string) { IsNumeral(Head(rel)[0]) }

  lemma FirstOfKey(rel: string)
    ensures Key(rel) != [] && Key(rel)[0] == ChunkValue(Head(rel)[0])
    ensures if StartsNumeric(rel) then Key(rel)[0] >= 0 else Key(rel)[0] == -1
  {
    hide Split;
    ChunkCount(Head(rel));
    assert Key(rel)[0] == Version(rel)[0];
  }

  /** A candidate without a leading number never exceeds a baseline with one. */
  lemma NonNumericNeverExceeds(candidate: string, baseline: string)
    requires !StartsNumeric(candidate) && StartsNumeric(baseline)
    ensures !VersionGt(candidate, baseline) && VersionGt(baseline, candidate)
  {
    hide Key, StartsNumeric;
    FirstOfKey(candidate);
    FirstOfKey(baseline);
  }

  /** Whenever one of the two lacks a leading number: the baseline never has one, and
      then a numbered candidate always exceeds it, while an unnumbered one exceeds it
      exactly when what follows in its key is greater. */
  lemma UnnumberedCompare(candidate: string, baseline: string)
    requires !(StartsNumeric(candidate) && StartsNumeric(baseline))
    ensures VersionGt(candidate, baseline) <==>
              && !StartsNumeric(baseline)
              && (StartsNumeric(candidate) || Less(Key(baseline)[1..], Key(candidate)[1..]))
  {
    hide Key, StartsNumeric;
    FirstOfKey(candidate);
    FirstOfKey(baseline);
  }

  lemma CustomKey(rel: string, tail: string)
    requires rel == "custom" + "-" + tail && '-' !in tail
    ensures Split(rel, '-') == ["custom", tail] && Head(rel) == ["custom"] && !IsNumeral("custom")
    ensures !StartsNumeric(rel) && Key(rel) == [-1, if IsNumeral(tail) then DecimalValue(tail) else -1]
  {
    hide DecimalValue;
    assert '-' !in "custom" && '.' !in "custom";
    SplitPrefix("custom", tail, '-');
    SplitWhole(tail, '-');
    SplitWhole("custom", '.');
    assert !IsDigit("custom"[0]);
    ChunkCount(["custom"]);
    assert ChunkValues(["custom"]) == [-1];
  }

  lemma SevenAndBuild()
    ensures IsNumeral("7") && DecimalValue("7") == 7 && !IsNumeral("build")
    ensures Less([-1, -1], [-1, 7])
  {
    assert "7"[..0] == "";
    assert !IsDigit("build"[0]);
    assert [-1, 7][1..] == [7] && [-1, -1][1..] == [-1];
  }

  /** So it may exceed another one of its kind, although the two are not comparable. */
  lemma NonNumericMayExceedItsKind()
    ensures !StartsNumeric("custom-7") && !StartsNumeric("custom-build") && VersionGt("custom-7", "custom-build")
  {
    hide Split, Head, Key, StartsNumeric, IsNumeral, DecimalValue, Less;
    assert "custom-7" == "custom" + "-" + "7" && "custom-build" == "custom" + "-" + "build";
    CustomKey("custom-7", "7");
    CustomKey("custom-build", "build");
    SevenAndBuild();
  }

  // ------------------------------------------------- what the flat key compares

  lemma {:induction false} LessOfExtended(a: seq<int>, x: int, b: seq<int>, y: int)
    requires |a| == |b|
    ensures Less(a + [x], b + [y]) <==> Less(a, b) || (a == b && x < y)
  {
    if a == [] {
      assert a + [x] == [x] && b + [y] == [y];
      assert [x][1..] == [];
    } else {
      assert (a + [x])[1..] == a[1..] + [x] && (b + [y])[1..] == b[1..] + [y];
      LessOfExtended(a[1..], x, b[1..], y);
      assert a == [a[0]] + a[1..] && b == [b[0]] + b[1..];
    }
  }

  /** Versions of equal length: the version decides, then the abi number. */
  lemma EqualLengthCompare(a: string, b: string)
    requires |Version(a)| == |Version(b)|
    ensures VersionGt(a, b) <==> Less(Version(b), Version(a)) || (Version(a) == Version(b) && Abi(a) > Abi(b))
  {
    hide Version, Abi, Less;
    LessOfExtended(Version(b), Abi(b), Version(a), Abi(a));
  }

  lemma {:induction false} LessBehindPrefix(p: seq<int>, x: seq<int>, y: seq<int>)
    ensures Less(p + x, p + y) <==> Less(x, y)
  {
    if p == [] {
      assert p + x == x && p + y == y;
    } else {
      assert (p + x)[1..] == p[1..] + x && (p + y)[1..] == p[1..] + y;
      LessBehindPrefix(p[1..], x, y);
    }
  }

  /** A shorter version that the longer one continues: the abi number of the first
      is compared with the next version number of the second. */
  lemma ShorterVersionCompare(a: string, b: string)
    requires Version(a) < Version(b)
    ensures VersionGt(a, b) <==> Abi(a) > Version(b)[|Version(a)|]
  {
    hide Version, Abi;
    var va, vb := Version(a), Version(b);
    var rest := vb[|va|..] + [Abi(b)];
    assert Key(b) == va + rest;
    LessBehindPrefix(va, rest, [Abi(a)]);
    assert [Abi(a)][1..] == [];
    assert rest[0] == vb[|va|];
  }

  /** The mirrored case. */
  lemma LongerVersionCompare(a: string, b: string)
    requires Version(b) < Version(a)
    ensures VersionGt(a, b) <==> Abi(b) <= Version(a)[|Version(b)|]
  {
    hide Version, Abi;
    var va, vb := Version(a), Version(b);
    var rest := va[|vb|..] + [Abi(a)];
    assert Key(a) == vb + rest;
    LessBehindPrefix(vb, [Abi(b)], rest);
    assert [Abi(b)][1..] == [];
    assert rest[0] == va[|vb|];
    assert rest[1..] != [];
  }

  /** When neither version continues the other, the flat keys compare as the versions do. */
  lemma {:induction false} LessBeforeEnds(p: seq<int>, x: int, q: seq<int>, y: int)
    requires !(p <= q) && !(q <= p)
    ensures Less(p + [x], q + [y]) <==> Less(p, q)
  {
    assert p != [] && q != [];
    assert (p + [x])[1..] == p[1..] + [x] && (q + [y])[1..] == q[1..] + [y];
    if p[0] == q[0] {
      assert p == [p[0]] + p[1..] && q == [q[0]] + q[1..];
      LessBeforeEnds(p[1..], x, q[1..], y);
    }
  }

  lemma {:induction false} PrefixIsLess(p: seq<int>, q: seq<int>)
    requires p < q
    ensures Less(p, q) && !Less(q, p)
  {
    if p != [] {
      assert p[1..] < q[1..];
      PrefixIsLess(p[1..], q[1..]);
    }
  }

  /** The order one expects: the version decides, then the abi number. */
  predicate VersionThenAbiGt(a: string, b: string) {
    Less(Version(b), Version(a)) || (Version(a) == Version(b) && Abi(a) > Abi(b))
  }

  /** The flat key gives that order exactly when no abi number stands in for a greater
      version number: where one version continues the other, the abi number behind the
      shorter one must not exceed the number the longer one continues with. */
  lemma FlatKeyIsVersionOrder(a: string, b: string)
    ensures (VersionGt(a, b) <==> VersionThenAbiGt(a, b)) <==>
              && (Version(a) < Version(b) ==> Abi(a) <= Version(b)[|Version(a)|])
              && (Version(b) < Version(a) ==> Abi(b) <= Version(a)[|Version(b)|])
  {
    hide Version, Abi, Less;
    if Version(a) < Version(b) {
      ShorterVersionCompare(a, b);
      PrefixIsLess(Version(a), Version(b));
    } else if Version(b) < Version(a) {
      LongerVersionCompare(a, b);
      PrefixIsLess(Version(b), Version(a));
    } else if Version(a) == Version(b) {
      EqualLengthCompare(a, b);
    } else {
      LessBeforeEnds(Version(b), Abi(b), Version(a), Abi(a));
    }
  }

  // --------------------------------------------------------------- reboot pending

  datatype Signal = NewerKernel(releases: set<string>) | MarkerPresent | NewestRunning | CannotList

  function Pending(s: Signal): Option<bool> {
    match s
    case NewerKernel(_) => Some(true)
    case MarkerPresent => Some(true)
    case NewestRunning => Some(false)
    case CannotList => None
  }

  /** None as an answer stands for a host failure; it reads as "no marker" and as an
      empty directory. */
  function RebootPending(marker: Option<bool>, listing: Option<set<string>>, running: string): Signal {
    var installed := if listing.None? then {} else listing.value;
    var newer := set r | r in installed && r != running && VersionGt(r, running);
    if newer != {} then NewerKernel(newer)
    else if marker == Some(true) then MarkerPresent
    else if installed != {} then NewestRunning
    else CannotList
  }

  ghost predicate IsNewest(r: string, installed: set<string>) {
    r in installed && forall q :: q in installed ==> !VersionGt(q, r)
  }

  /** Every non-empty set of releases has a newest one. */
  lemma {:induction false} NewestExists(installed: set<string>) returns (m: string)
    requires installed != {}
    ensures IsNewest(m, installed)
    decreases |installed|
  {
    hide VersionGt;
    var x :| x in installed;
    var rest := installed - {x};
    StrictWeakOrder(x, x, x);
    if rest == {} {
      m := x;
      assert installed == {x};
    } else {
      var n := NewestExists(rest);
      if VersionGt(x, n) {
        m := x;
        forall q | q in installed
          ensures !VersionGt(q, x)
        {
          StrictWeakOrder(q, x, n);
          assert q != x ==> q in rest;
        }
      } else {
        m := n;
      }
    }
  }

  /** The newer-kernel signal is silent exactly when no installed release exceeds
      the running one; so running a newest release always clears it, and then only
      the marker can report a pending reboot. */
  lemma NewerSignalExact(marker: Option<bool>, listing: Option<set<string>>, running: string)
    ensures var installed := if listing.None? then {} else listing.value;
            var s := RebootPending(marker, listing, running);
            && (s.NewerKernel? <==> exists r :: r in installed && VersionGt(r, running))
            && (s.NewerKernel? ==> forall r :: r in s.releases <==> r in installed && VersionGt(r, running))
            && (s.MarkerPresent? <==> !s.NewerKernel? && marker == Some(true))
            && (IsNewest(running, installed) ==> (Pending(s) == Some(true) <==> marker == Some(true)) && Pending(s) != None)
            && (Pending(s) == None <==> installed == {} && marker != Some(true))
  {
    hide VersionGt;
    var installed := if listing.None? then {} else listing.value;
    var newer := set r | r in installed && r != running && VersionGt(r, running);
    StrictWeakOrder(running, running, running);
    if r :| r in installed && VersionGt(r, running) {
      assert r in newer;
    } else {
      assert newer == {};
    }
  }

  /** Under a running release without a leading number every numbered release on disk
      gives the signal, however old it is. */
  lemma UnnumberedRunningIsOutdated(marker: Option<bool>, installed: set<string>, running: string, r: string)
    requires r in installed && StartsNumeric(r) && !StartsNumeric(running)
    ensures RebootPending(marker, Some(installed), running).NewerKernel?
    ensures r in RebootPending(marker, Some(installed), running).releases
  {
    hide VersionGt, StartsNumeric;
    UnnumberedCompare(r, running);
    NewerSignalExact(marker, Some(installed), running);
  }

  // ------------------------------------------------------ reading a release string

  function Decimals(ns: seq<nat>): seq<string> {
    if ns == [] then [] else [Decimal(ns[0])] + Decimals(ns[1..])
  }

  /** A release as distributions write it: 6.17.0-1018-oracle. */
  function Release(version: seq<nat>, abi: nat, flavour: string): string {
    Join(Decimals(version), ".") + "-" + (Decimal(abi) + ("-" + flavour))
  }

  lemma DecimalIsNumeral(n: nat)
    ensures IsNumeral(Decimal(n)) && ChunkValue(Decimal(n)) == n && '-' !in Decimal(n) && '.' !in Decimal(n)
  {
    DecimalRoundTrip(n);
    assert forall i :: 0 <= i < |Decimal(n)| ==> IsDigit(Decimal(n)[i]);
    hide Decimal;
  }

  lemma {:induction false} DecimalsChunks(ns: seq<nat>)
    ensures |Decimals(ns)| == |ns|
    ensures forall i :: 0 <= i < |ns| ==> ChunkValue(Decimals(ns)[i]) == ns[i] && '.' !in Decimals(ns)[i] && '-' !in Decimals(ns)[i]
  {
    hide ChunkValue, Decimal;
    if ns != [] {
      DecimalIsNumeral(ns[0]);
      DecimalsChunks(ns[1..]);
    }
  }

  lemma {:induction false} JoinLacksHyphen(parts: seq<string>)
    requires forall i :: 0 <= i < |parts| ==> '-' !in parts[i]
    ensures '-' !in Join(parts, ".")
  {
    if |parts| > 1 {
      JoinLacksHyphen(parts[1..]);
    }
  }

  /** Such a release is read as its version numbers followed by its abi number. */
  lemma ReleaseKey(version: seq<nat>, abi: nat, flavour: string)
    requires version != []
    ensures Version(Release(version, abi, flavour)) == version && Abi(Release(version, abi, flavour)) == abi
  {
    hide Split, Join, Decimal, Decimals, ChunkValue, ChunkValues, IsNumeral, DecimalValue;
    var parts, rel := Decimals(version), Release(version, abi, flavour);
    DecimalsChunks(version);
    JoinLacksHyphen(parts);
    var head := Join(parts, ".");
    SplitPrefix(head, Decimal(abi) + ("-" + flavour), '-');
    DecimalIsNumeral(abi);
    assert Decimal(abi) + ("-" + flavour) == Decimal(abi) + "-" + flavour;
    SplitPrefix(Decimal(abi), flavour, '-');
    SplitOfJoin(parts, '.');
    assert Split(rel, '-')[0] == head && Split(rel, '-')[1] == Decimal(abi);
    ChunkCount(parts);
    NumeralValue(Decimal(abi));
  }

  lemma NumeralValue(s: string)
    requires IsNumeral(s)
    ensures ChunkValue(s) == DecimalValue(s)
  {
  }

  /** How a release is read, whatever it holds: every dotted part in front of the first
      hyphen is its number, or -1 when it is not all digits; so is the part between the
      first two hyphens, or -1 when there is none. */
  lemma ReleaseExact(parts: seq<string>, abi: string, more: string)
    requires parts != [] && forall i :: 0 <= i < |parts| ==> '.' !in parts[i] && '-' !in parts[i]
    requires '-' !in abi && (more == "" || more[0] == '-')
    ensures var plain, full := Join(parts, "."), Join(parts, ".") + "-" + (abi + more);
            && |Version(plain)| == |Version(full)| == |parts|
            && (forall i :: 0 <= i < |parts| ==>
                  Version(plain)[i] == Version(full)[i] == if parts[i] != "" && AllDigits(parts[i]) then DecimalValue(parts[i]) else -1)
            && Abi(plain) == -1
            && Abi(full) == if abi != "" && AllDigits(abi) then DecimalValue(abi) else -1
  {
    hide Split, Join, ChunkValues, AllDigits, DecimalValue;
    var head := Join(parts, ".");
    JoinLacksHyphen(parts);
    SplitOfJoin(parts, '.');
    SplitWhole(head, '-');
    SplitPrefix(head, abi + more, '-');
    AbiPart(abi, more);
    ChunkCount(parts);
    assert ([head] + Split(abi + more, '-'))[1] == Split(abi + more, '-')[0];
  }

  lemma AbiPart(abi: string, more: string)
    requires '-' !in abi && (more == "" || more[0] == '-')
    ensures Split(abi + more, '-')[0] == abi
  {
    if more == "" {
      assert abi + more == abi;
      SplitWhole(abi, '-');
    } else {
      assert abi + more == abi + "-" + more[1..];
      SplitPrefix(abi, more[1..], '-');
    }
  }
}
