/** repair/planner.py: the dry-run plan for a device no driver is bound to. */
module Planner {
  import opened Text
  import opened Dicts
  import opened JsonValues
  import opened Transactions
  import opened Journal
  import opened ModulesAlias
  import opened AliasPrinters
  import opened Knowledge

  datatype Plan =
    | NotInKb
    | Refused(chipset: string)
    | Feasible(module_: string, confPath: string, alias: string, transaction: Record)
    | Raises

  predicate Truthy(o: Option<string>) { o.Some? && o.value != "" }

  /** bound or loaded or preferred or the first new_id module. */
  function PickModule(e: KbEntry, bound: Option<string>, loaded: Option<string>): Option<string> {
    if Truthy(bound) then bound
    else if Truthy(loaded) then loaded
    else if Truthy(e.preferredModule) then e.preferredModule
    else if e.newIdModules != [] then Some(e.newIdModules[0])
    else None
  }

  predicate AcceptsNewIds(e: KbEntry) { e.newIdFeasible == Some(true) }

  function ConfPath(d: Device): string { "/etc/modprobe.d/ddr-" + d.vid + "-" + d.pid + ".conf" }

  function FileKind(): Json { JStr(Codes("modprobe_d_file")) }

  function BeforeState(path: string): Json {
    JObj(Cons(Codes("kind"), FileKind(), Cons(Codes("path"), JStr(Codes(path)),
      Cons(Codes("existed"), JBool(false), Cons(Codes("sha256"), JNull, Nil)))))
  }

  function Change(alias: string): Json {
    JObj(Cons(Codes("op"), JStr(Codes("create_modprobe_alias")), Cons(Codes("content"), JStr(Codes(alias)), Nil)))
  }

  function AfterState(path: string, contentSha: string): Json {
    JObj(Cons(Codes("kind"), FileKind(), Cons(Codes("path"), JStr(Codes(path)),
      Cons(Codes("existed"), JBool(true), Cons(Codes("content_sha256"), JStr(Codes(contentSha)), Nil)))))
  }

  function RollbackAction(path: string): Json {
    JObj(Cons(Codes("op"), JStr(Codes("remove_file")), Cons(Codes("path"), JStr(Codes(path)),
      Cons(Codes("restore_if_existed"), JObj(Cons(Codes("sha256"), JNull, Nil)), Nil))))
  }

  function PlannedParts(path: string, alias: string, contentSha: string): Parts {
    Parts(BeforeState(path), Change(alias), AfterState(path, contentSha), RollbackAction(path))
  }

  lemma ConsFine(k: string, v: Json, t: Dict<Json>)
    requires WellFormed(v) && PairFree(v) && WellFormed(JObj(t)) && PairFree(JObj(t)) && Codes(k) !in Keys(t)
    ensures WellFormed(JObj(Cons(Codes(k), v, t))) && PairFree(JObj(Cons(Codes(k), v, t)))
  {
    CodesAreText(k);
    hide IsPyStr, PairFreeStr, Codes;
    ConsWellFormed(Codes(k), v, t);
  }

  lemma TextFine(s: string)
    ensures WellFormed(JStr(Codes(s))) && PairFree(JStr(Codes(s)))
  {
    CodesAreText(s);
  }

  lemma AtomsFine()
    ensures WellFormed(JNull) && PairFree(JNull) && WellFormed(JObj(Nil)) && PairFree(JObj(Nil))
    ensures forall b :: WellFormed(JBool(b)) && PairFree(JBool(b))
  {
  }

  lemma LiteralsDiffer()
    ensures Codes("kind") != Codes("path") && Codes("kind") != Codes("existed") && Codes("kind") != Codes("sha256")
    ensures Codes("kind") != Codes("content_sha256") && Codes("path") != Codes("content_sha256")
    ensures Codes("path") != Codes("existed") && Codes("path") != Codes("sha256")
    ensures Codes("existed") != Codes("sha256") && Codes("existed") != Codes("content_sha256")
    ensures Codes("op") != Codes("content") && Codes("op") != Codes("path") && Codes("op") != Codes("restore_if_existed")
    ensures Codes("path") != Codes("restore_if_existed")
  {
    assert |Codes("path")| == |Codes("kind")| == 4 && |Codes("existed")| == 7 && |Codes("sha256")| == 6;
    assert |Codes("content_sha256")| == 14 && |Codes("op")| == 2 && |Codes("content")| == 7;
    assert |Codes("restore_if_existed")| == 18;
    CodesInjective("kind", "path");
    assert "kind"[0] != "path"[0];
  }

  lemma StateFine(path: string, existed: bool, shaKey: string, sha: Json)
    requires shaKey == "sha256" || shaKey == "content_sha256"
    requires WellFormed(sha) && PairFree(sha)
    ensures var j := JObj(Cons(Codes("kind"), FileKind(), Cons(Codes("path"), JStr(Codes(path)),
                       Cons(Codes("existed"), JBool(existed), Cons(Codes(shaKey), sha, Nil)))));
            WellFormed(j) && PairFree(j)
  {
    LiteralsDiffer();
    TextFine("modprobe_d_file");
    TextFine(path);
    AtomsFine();
    hide Codes, WellFormed, PairFree;
    var m4 := Cons(Codes(shaKey), sha, Nil);
    var m3 := Cons(Codes("existed"), JBool(existed), m4);
    var m2 := Cons(Codes("path"), JStr(Codes(path)), m3);
    ConsFine(shaKey, sha, Nil);
    ConsFine("existed", JBool(existed), m4);
    ConsFine("path", JStr(Codes(path)), m3);
    ConsFine("kind", FileKind(), m2);
  }

  lemma RollbackFine(path: string)
    ensures WellFormed(RollbackAction(path)) && PairFree(RollbackAction(path))
  {
    LiteralsDiffer();
    TextFine("remove_file");
    TextFine(path);
    AtomsFine();
    hide Codes, WellFormed, PairFree;
    var inner := Cons(Codes("sha256"), JNull, Nil);
    ConsFine("sha256", JNull, Nil);
    var m3 := Cons(Codes("restore_if_existed"), JObj(inner), Nil);
    var m2 := Cons(Codes("path"), JStr(Codes(path)), m3);
    ConsFine("restore_if_existed", JObj(inner), Nil);
    ConsFine("path", JStr(Codes(path)), m3);
    ConsFine("op", JStr(Codes("remove_file")), m2);
  }

  lemma PartsFine(path: string, alias: string, contentSha: string)
    ensures var p := PlannedParts(path, alias, contentSha);
            PrintableParts(p) && DistinctParts(p) && PairFreeParts(p)
  {
    AtomsFine();
    TextFine(contentSha);
    hide Printable, DistinctKeys, PairFree, Codes;
    StateFine(path, false, "sha256", JNull);
    StateFine(path, true, "content_sha256", JStr(Codes(contentSha)));
    RollbackFine(path);
    ChangeFine(alias);
  }

  lemma ChangeFine(alias: string)
    ensures WellFormed(Change(alias)) && PairFree(Change(alias))
  {
    LiteralsDiffer();
    TextFine("create_modprobe_alias");
    TextFine(alias);
    AtomsFine();
    hide Codes, WellFormed, PairFree;
    ConsFine("content", JStr(Codes(alias)), Nil);
    ConsFine("op", JStr(Codes("create_modprobe_alias")), Cons(Codes("content"), JStr(Codes(alias)), Nil));
  }

  /** create_transaction; sha stands for hashing a text. */
  function CreateTransaction(p: Parts, sha: string -> string): Record
    requires PrintableParts(p)
  {
    Record(JStr(Codes(sha(Payload(p)))), p)
  }

  function PlanStateB(d: Device, kb: Kb, bound: Option<string>, loaded: Option<string>, sha: string -> string): Plan {
    var entry := FindById(kb, Lower(d.vid) + ":" + Lower(d.pid));
    if entry.None? then NotInKb
    else if !AcceptsNewIds(entry.value) then Refused(entry.value.chipset)
    else
      var m := PickModule(entry.value, bound, loaded);
      if !Truthy(m) || !IsModuleName(m.value) then Raises
      else
        var path := ConfPath(d);
        var alias := AliasText(d.vid, d.pid, m.value);
        var parts := PlannedParts(path, alias, sha(alias));
        PartsFine(path, alias, sha(alias));
        Feasible(m.value, path, alias, CreateTransaction(parts, sha))
  }

  /** Every planned transaction can be written to the journal and read back whole. */
  lemma PlannedTransaction(d: Device, kb: Kb, bound: Option<string>, loaded: Option<string>, sha: string -> string)
    requires PlanStateB(d, kb, bound, loaded, sha).Feasible?
    ensures var t := PlanStateB(d, kb, bound, loaded, sha).transaction;
            WellFormedRecord(t) && PairFreeRecord(t) && t.parts.rollback == RollbackAction(ConfPath(d))
  {
    var plan := PlanStateB(d, kb, bound, loaded, sha);
    hide Printable, DistinctKeys, PairFree, PlannedParts, Payload, Codes;
    PartsFine(plan.confPath, plan.alias, sha(plan.alias));
    TextFine(sha(Payload(plan.transaction.parts)));
    PlannedRollback(plan.confPath, plan.alias, sha(plan.alias));
  }

  lemma PlannedRollback(path: string, alias: string, contentSha: string)
    ensures PlannedParts(path, alias, contentSha).rollback == RollbackAction(path)
  {
  }

  /** Different devices never share a conf file. */
  lemma ConfPathInjective(a: Device, b: Device)
    requires ValidDevice(a) && ValidDevice(b)
    ensures ConfPath(a) == ConfPath(b) <==> a.vid == b.vid && a.pid == b.pid
  {
    hide IsLowerHex4;
    IdLengths(a);
    IdLengths(b);
    var p, q := ConfPath(a), ConfPath(b);
    var pre := "/etc/modprobe.d/ddr-";
    assert p == pre + (a.vid + ("-" + (a.pid + ".conf"))) && q == pre + (b.vid + ("-" + (b.pid + ".conf")));
    if p == q {
      assert p[|pre|..] == q[|pre|..];
      assert p[|pre|..][..4] == a.vid && q[|pre|..][..4] == b.vid;
      assert p[|pre|..][5..][..4] == a.pid && q[|pre|..][5..][..4] == b.pid;
    }
  }

  lemma IdLengths(d: Device)
    requires ValidDevice(d)
    ensures |d.vid| == 4 && |d.pid| == 4
  {
  }

  /** The alias a feasible plan writes reads back as one row for the planned module,
      and that row claims exactly the FF/FF/00 interfaces of this device's ids. */
  lemma PlannedAliasClaimsDevice(d: Device, kb: Kb, bound: Option<string>, loaded: Option<string>, sha: string -> string,
                                 modalias: string)
    requires ValidDevice(d) && PlanStateB(d, kb, bound, loaded, sha).Feasible?
    ensures var plan := PlanStateB(d, kb, bound, loaded, sha);
            var rows := ParseRows([plan.alias]);
            && |rows| == 1 && rows[0].module_ == plan.module_
            && (Claims(rows[0].pattern, modalias) <==>
                  DecodeModalias(modalias).Some? && IsInterfaceOf(d.vid, d.pid, DecodeModalias(modalias).value))
  {
    var plan := PlanStateB(d, kb, bound, loaded, sha);
    hide ParseRows, Claims, PlannerPattern, AliasText, IsModuleName, PlannedParts, CreateTransaction, IsInterfaceOf, IsHex4,
         DecodeModalias;
    PlannerLineIsOneRow(d.vid, d.pid, plan.module_);
    PlannerRowClaims(d.vid, d.pid, modalias);
  }
}
