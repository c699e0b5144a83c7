/** identification/resolver.py: from a device to a chipset and driver candidates. */
module Identification {
  import opened Text
  import opened ModulesAlias
  import opened Knowledge

  datatype Source = FromAlias | FromKb

  datatype Candidate = Candidate(module_: string, source: Source, confidence: Confidence, evidence: Evidence)

  datatype ChipsetId = ChipsetId(name: string, confidence: Confidence, evidence: seq<Evidence>)

  datatype DiagnosisInput = DiagnosisInput(dev: Device, chipset: ChipsetId, candidates: seq<Candidate>)

  function RowsFor(dev: Device, lines: seq<string>): seq<AliasLine> {
    MatchWithLines(if dev.modalias.None? then "" else dev.modalias.value, lines)
  }

  function AliasCandidates(rows: seq<AliasLine>): (r: seq<Candidate>)
    ensures |r| == |rows|
    ensures forall i :: 0 <= i < |r| ==> r[i].source == FromAlias && r[i].module_ == rows[i].module_
  {
    seq(|rows|, i requires 0 <= i < |rows| =>
      Candidate(rows[i].module_, FromAlias, HIGH_CONFIDENCE, AliasRowClaims(rows[i].module_, rows[i].raw)))
  }

  function Modules(cs: seq<Candidate>): set<string> { set c | c in cs :: c.module_ }

  function KbCandidate(e: KbEntry, m: string): Candidate {
    Candidate(m, FromKb, if e.confidence.Some? then e.confidence.value else PROBABLE, EntryListsModule(e.chipset, m))
  }

  /** The modules of the KB entry that no alias row already claims. */
  function KbCandidates(e: KbEntry, modules: seq<string>, claimed: set<string>): (r: seq<Candidate>)
    ensures forall c :: c in r ==> c.source == FromKb && c.module_ in modules && c.module_ !in claimed
  {
    if modules == [] then []
    else (if modules[0] in claimed then [] else [KbCandidate(e, modules[0])]) + KbCandidates(e, modules[1..], claimed)
  }

  function Resolve(dev: Device, lines: seq<string>, kb: Kb): DiagnosisInput {
    var entry := FindById(kb, VidPid(dev));
    var rows := RowsFor(dev, lines);
    var claims := AliasCandidates(rows);
    if entry.Some? then
      DiagnosisInput(dev,
        ChipsetId(entry.value.chipset,
                  if rows != [] then CONFIRMED
                  else if entry.value.confidence.Some? then entry.value.confidence.value else HIGH_CONFIDENCE,
                  [EntryListsId(VidPid(dev), entry.value.chipset)] + (if rows != [] then [AliasConfirms] else [])),
        claims + KbCandidates(entry.value, entry.value.modules, Modules(claims)))
    else if claims != [] then
      DiagnosisInput(dev, ChipsetId(UNKNOWN_CHIPSET, PROBABLE, [ClaimedButUnnamed(VidPid(dev))]), claims)
    else
      DiagnosisInput(dev, ChipsetId(UNKNOWN_CHIPSET, UNKNOWN_CONFIDENCE, [NothingKnown(VidPid(dev))]), [])
  }

  /** resolve_device's loop: the KB modules not yet claimed join the candidates. */
  method AddKbCandidates(e: KbEntry, claims: seq<Candidate>, claimed: set<string>) returns (candidates: seq<Candidate>)
    ensures candidates == claims + KbCandidates(e, e.modules, claimed)
  {
    candidates := claims;
    ghost var rest := e.modules;
    ghost var goal := claims + KbCandidates(e, e.modules, claimed);
    for i := 0 to |e.modules|
      invariant rest == e.modules[i..]
      invariant goal == candidates + KbCandidates(e, rest, claimed)
    {
      hide KbCandidates, KbCandidate;
      KbStep(e, rest, claimed, candidates);
      assert rest[0] == e.modules[i];
      rest := rest[1..];
      if e.modules[i] in claimed {
        continue;
      }
      candidates := candidates + [KbCandidate(e, e.modules[i])];
    }
  }

  lemma KbStep(e: KbEntry, modules: seq<string>, claimed: set<string>, done: seq<Candidate>)
    requires modules != []
    ensures done + KbCandidates(e, modules, claimed)
         == (if modules[0] in claimed then done else done + [KbCandidate(e, modules[0])]) + KbCandidates(e, modules[1..], claimed)
  {
    hide KbCandidate;
  }

  method ResolveDevice(dev: Device, lines: seq<string>, kb: Kb) returns (r: DiagnosisInput)
    ensures r == Resolve(dev, lines, kb)
  {
    hide RowsFor, KbCandidates, AliasCandidates, Modules;
    var entry := FindById(kb, VidPid(dev));
    var rows := RowsFor(dev, lines);
    var candidates := AliasCandidates(rows);
    if entry.Some? {
      var e := entry.value;
      candidates := AddKbCandidates(e, candidates, Modules(candidates));
      var confidence := if rows != [] then CONFIRMED
                        else if e.confidence.Some? then e.confidence.value else HIGH_CONFIDENCE;
      return DiagnosisInput(dev,
        ChipsetId(e.chipset, confidence,
                  [EntryListsId(VidPid(dev), e.chipset)] + (if rows != [] then [AliasConfirms] else [])),
        candidates);
    }
    if candidates != [] {
      return DiagnosisInput(dev, ChipsetId(UNKNOWN_CHIPSET, PROBABLE, [ClaimedButUnnamed(VidPid(dev))]), candidates);
    }
    return DiagnosisInput(dev, ChipsetId(UNKNOWN_CHIPSET, UNKNOWN_CONFIDENCE, [NothingKnown(VidPid(dev))]), []);
  }

  predicate HasAlias(cs: seq<Candidate>) { exists i :: 0 <= i < |cs| && cs[i].source == FromAlias }

  /** What identification promises its consumers, whatever the knowledge base. */
  lemma ResolveFacts(dev: Device, lines: seq<string>, kb: Kb)
    ensures var r := Resolve(dev, lines, kb);
            && r.dev == dev && r.chipset.evidence != []
            && (HasAlias(r.candidates) <==> RowsFor(dev, lines) != [])
            && (FindById(kb, VidPid(dev)) == None ==>
                  r.chipset.name == UNKNOWN_CHIPSET && (r.candidates != [] ==> HasAlias(r.candidates)))
            && (FindById(kb, VidPid(dev)).Some? ==> r.chipset.name == FindById(kb, VidPid(dev)).value.chipset)
  {
    hide RowsFor;
    var entry := FindById(kb, VidPid(dev));
    var r := Resolve(dev, lines, kb);
    var claims := AliasCandidates(RowsFor(dev, lines));
    if entry.Some? {
      var more := KbCandidates(entry.value, entry.value.modules, Modules(claims));
      assert r.candidates == claims + more;
      assert forall i :: 0 <= i < |more| ==> more[i] in more;
      assert forall i :: 0 <= i < |claims| ==> r.candidates[i] == claims[i];
      assert forall i :: |claims| <= i < |r.candidates| ==> r.candidates[i] == more[i - |claims|];
      if claims != [] {
        assert r.candidates[0].source == FromAlias;
      }
    } else if claims != [] {
      assert r.candidates[0].source == FromAlias;
    }
  }

  /** With names as a key, the chosen chipset's entry by name is the device's entry by
      id, and an unknown chipset means there is none. */
  lemma ResolvedNameFindsEntry(dev: Device, lines: seq<string>, kb: Kb)
    requires ProperNames(kb)
    ensures var r := Resolve(dev, lines, kb);
            && FindByName(kb, r.chipset.name) == FindById(kb, VidPid(dev))
            && (r.chipset.name == UNKNOWN_CHIPSET <==> FindById(kb, VidPid(dev)) == None)
  {
    ResolveFacts(dev, lines, kb);
    UnknownIsNoName(kb);
    var entry := FindById(kb, VidPid(dev));
    if entry.Some? {
      NameFindsEntry(kb, entry.value);
    }
    hide Resolve, FindById, ProperNames;
  }

  function ModulesOfRows(rows: seq<AliasLine>): set<string> { set r | r in rows :: r.module_ }

  lemma {:induction false} KbCandidatesCover(e: KbEntry, modules: seq<string>, claimed: set<string>, m: string)
    ensures m in Modules(KbCandidates(e, modules, claimed)) <==> m in modules && m !in claimed
  {
    if modules != [] {
      KbCandidatesCover(e, modules[1..], claimed, m);
      var one := if modules[0] in claimed then [] else [KbCandidate(e, modules[0])];
      var more := KbCandidates(e, modules[1..], claimed);
      ModulesConcat(one, more);
      assert Modules([KbCandidate(e, modules[0])]) == {modules[0]} by {
        assert KbCandidate(e, modules[0]) in [KbCandidate(e, modules[0])];
      }
      assert modules == [modules[0]] + modules[1..];
    }
  }

  lemma ModulesConcat(a: seq<Candidate>, b: seq<Candidate>)
    ensures Modules(a + b) == Modules(a) + Modules(b)
  {
    assert forall c :: c in a + b <==> c in a || c in b;
  }

  lemma AliasModules(rows: seq<AliasLine>)
    ensures Modules(AliasCandidates(rows)) == ModulesOfRows(rows)
  {
    var cs := AliasCandidates(rows);
    forall m | m in ModulesOfRows(rows)
      ensures m in Modules(cs)
    {
      var i :| 0 <= i < |rows| && rows[i].module_ == m;
      assert cs[i] in cs;
    }
  }

  /** Nothing is lost and nothing invented: the candidate modules are those of the
      claiming rows and those the KB entry lists; the alias claims come first, in
      file order, and no KB candidate repeats one of their modules. */
  lemma CandidatesAreComplete(dev: Device, lines: seq<string>, kb: Kb, m: string)
    ensures var r := Resolve(dev, lines, kb);
            var rows := RowsFor(dev, lines);
            var entry := FindById(kb, VidPid(dev));
            && (m in Modules(r.candidates) <==> m in ModulesOfRows(rows) || (entry.Some? && m in entry.value.modules))
            && AliasCandidates(rows) <= r.candidates
            && forall i :: |rows| <= i < |r.candidates| ==>
                 r.candidates[i].source == FromKb && r.candidates[i].module_ !in ModulesOfRows(rows)
  {
    hide RowsFor, FindById;
    var rows, entry := RowsFor(dev, lines), FindById(kb, VidPid(dev));
    var claims := AliasCandidates(rows);
    AliasModules(rows);
    if entry.Some? {
      var more := KbCandidates(entry.value, entry.value.modules, Modules(claims));
      KbCandidatesCover(entry.value, entry.value.modules, Modules(claims), m);
      hide AliasCandidates, KbCandidates;
      ModulesConcat(claims, more);
      assert forall i :: 0 <= i < |more| ==> more[i] in more;
    }
  }

  lemma KbCons(e: KbEntry, m: string, ms: seq<string>, claimed: set<string>)
    ensures KbCandidates(e, [m] + ms, claimed) == KbCandidates(e, [m], claimed) + KbCandidates(e, ms, claimed)
    ensures KbCandidates(e, [m], claimed) ==
              if m in claimed then []
              else [Candidate(m, FromKb, if e.confidence == None then PROBABLE else e.confidence.value, EntryListsModule(e.chipset, m))]
  {
    assert ([m] + ms)[1..] == ms && [m][1..] == [];
  }

  lemma KbNone(e: KbEntry, claimed: set<string>)
    ensures KbCandidates(e, [], claimed) == []
  {
  }

  /** Modules of the entry become candidates in its order, unless a row claims them. */
  lemma {:induction false} KbCandidatesInOrder(e: KbEntry, a: seq<string>, b: seq<string>, claimed: set<string>, m: string)
    ensures KbCandidates(e, a + b, claimed) == KbCandidates(e, a, claimed) + KbCandidates(e, b, claimed)
    ensures KbCandidates(e, [m], claimed) ==
              if m in claimed then []
              else [Candidate(m, FromKb, if e.confidence == None then PROBABLE else e.confidence.value, EntryListsModule(e.chipset, m))]
  {
    hide *;
    KbCons(e, m, [], claimed);
    if a == [] {
      KbNone(e, claimed);
      assert a + b == b;
    } else {
      var rest := a[1..];
      KbCandidatesInOrder(e, rest, b, claimed, m);
      KbCons(e, a[0], rest, claimed);
      KbCons(e, a[0], rest + b, claimed);
      assert a == [a[0]] + rest;
      assert a + b == [a[0]] + (rest + b);
    }
  }

  /** The rows that count are those that claim the device's modalias; without one there
      are none. */
  lemma RowsForExact(dev: Device, lines: seq<string>, row: AliasLine)
    ensures row in RowsFor(dev, lines) <==>
              dev.modalias.Some? && row in ParseRows(lines) && Claims(row.pattern, dev.modalias.value)
    ensures dev.modalias.Some? ==> RowsFor(dev, lines) == MatchWithLines(dev.modalias.value, lines)
  {
    NothingClaimed();
    if dev.modalias.Some? {
      MatchIsPerLine(dev.modalias.value, lines, [], row);
    }
    hide MatchWithLines, ParseRows, Claims;
  }

  lemma NothingClaimed()
    ensures forall lines :: MatchWithLines("", lines) == []
  {
    assert SanitizeModalias("") == None;
    hide SanitizeModalias;
  }

  /** Everything identification answers: from the first entry that lists the id, or by
      what claims the device. */
  lemma ResolveExact(dev: Device, lines: seq<string>, kb: Kb, e: KbEntry)
    ensures var r := Resolve(dev, lines, kb);
            var rows := RowsFor(dev, lines);
            && |AliasCandidates(rows)| == |rows|
            && (forall i :: 0 <= i < |rows| ==>
                  AliasCandidates(rows)[i] ==
                    Candidate(rows[i].module_, FromAlias, HIGH_CONFIDENCE, AliasRowClaims(rows[i].module_, rows[i].raw)))
            && (IsFirstListing(kb, VidPid(dev), e) ==>
                  && r.chipset == ChipsetId(e.chipset,
                                            if rows != [] then CONFIRMED else if e.confidence == None then HIGH_CONFIDENCE else e.confidence.value,
                                            [EntryListsId(VidPid(dev), e.chipset)] + if rows != [] then [AliasConfirms] else [])
                  && r.candidates == AliasCandidates(rows) + KbCandidates(e, e.modules, ModulesOfRows(rows)))
            && ((forall i :: 0 <= i < |kb| ==> !Lists(kb[i], VidPid(dev))) ==>
                  && r.candidates == AliasCandidates(rows)
                  && r.chipset == if rows != [] then ChipsetId("UNKNOWN", PROBABLE, [ClaimedButUnnamed(VidPid(dev))])
                                  else ChipsetId("UNKNOWN", UNKNOWN_CONFIDENCE, [NothingKnown(VidPid(dev))]))
  {
    var rows := RowsFor(dev, lines);
    FindByIdExact(kb, VidPid(dev), e);
    AliasModules(rows);
    hide RowsFor, FindById, IsFirstListing, Lists, KbCandidates, VidPid, Modules, ModulesOfRows;
    assert AliasCandidates([]) == [];
  }
}
