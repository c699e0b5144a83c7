/** What a plan is, spelled out: which entry and module it is made of, its texts, and the
    transaction with its id. */
module PlannerLaws {
  import opened Text
  import opened Dicts
  import opened JsonValues
  import opened Transactions
  import opened Journal
  import opened ModulesAlias
  import opened AliasPrinters
  import opened Knowledge
  import opened Planner

  // ------------------------------------------------------------ entry and module

  /** m is the first of the options that is there and not empty. */
  ghost predicate IsFirstTruthy(opts: seq<Option<string>>, m: string) {
    m != "" && exists i :: 0 <= i < |opts| && opts[i] == Some(m) && forall j :: 0 <= j < i ==> opts[j] == None || opts[j] == Some("")
  }

  /** Where the module comes from: the bound driver, the loaded module, the entry's
      preferred module, its first new_id module. */
  function Options(e: KbEntry, bound: Option<string>, loaded: Option<string>): seq<Option<string>> {
    [bound, loaded, e.preferredModule, if e.newIdModules == [] then None else Some(e.newIdModules[0])]
  }

  lemma PickExact(e: KbEntry, bound: Option<string>, loaded: Option<string>, m: string)
    ensures Truthy(PickModule(e, bound, loaded)) && PickModule(e, bound, loaded) == Some(m)
            <==> IsFirstTruthy(Options(e, bound, loaded), m)
  {
    var opts := Options(e, bound, loaded);
    assert opts[0] == bound && opts[1] == loaded && opts[2] == e.preferredModule;
    var last := if e.newIdModules == [] then None else Some(e.newIdModules[0]);
    assert opts[3] == last && |opts| == 4;
    var pick := PickModule(e, bound, loaded);
    if Truthy(pick) && pick == Some(m) {
      var i := if Truthy(bound) then 0 else if Truthy(loaded) then 1 else if Truthy(e.preferredModule) then 2 else 3;
      assert opts[i] == Some(m) && forall j :: 0 <= j < i ==> !Truthy(opts[j]);
      assert forall j :: 0 <= j < i ==> opts[j] == None || opts[j] == Some("");
    }
    if m != "" {
      if i :| 0 <= i < |opts| && opts[i] == Some(m) && forall j :: 0 <= j < i ==> opts[j] == None || opts[j] == Some("") {
        assert forall j :: 0 <= j < i ==> !Truthy(opts[j]);
      }
    }
  }

  /** The planner's answer: no entry, refusal, a plan for the first module on offer, or an
      exception when there is none or it is no module name. */
  lemma PlanExact(d: Device, kb: Kb, bound: Option<string>, loaded: Option<string>, sha: string -> string, e: KbEntry, m: string)
    ensures var plan, target := PlanStateB(d, kb, bound, loaded, sha), Lower(d.vid) + ":" + Lower(d.pid);
            && (plan == NotInKb <==> forall i :: 0 <= i < |kb| ==> !Lists(kb[i], target))
            && (IsFirstListing(kb, target, e) ==>
                  var opts := Options(e, bound, loaded);
                  if e.newIdFeasible != Some(true) then plan == Refused(e.chipset)
                  else
                    && (plan.Feasible? && plan.module_ == m <==> IsFirstTruthy(opts, m) && IsModuleName(m))
                    && (plan.Raises? <==> forall x :: IsFirstTruthy(opts, x) ==> !IsModuleName(x)))
  {
    var target := Lower(d.vid) + ":" + Lower(d.pid);
    FindByIdExact(kb, target, e);
    hide FindById, IsFirstListing, Lists, IsFirstTruthy, Options, PickModule, IsModuleName, Lower, PlannedParts,
         CreateTransaction, AliasText, ConfPath;
    if FindById(kb, target) == Some(e) {
      var pick := PickModule(e, bound, loaded);
      PickExact(e, bound, loaded, m);
      if Truthy(pick) {
        PickExact(e, bound, loaded, pick.value);
      }
      forall x
        ensures IsFirstTruthy(Options(e, bound, loaded), x) <==> Truthy(pick) && pick == Some(x)
      {
        PickExact(e, bound, loaded, x);
      }
    }
  }

  // ------------------------------------------------------------ texts of a plan

  /** The text whose hash is a transaction's id. */
  function HashedText(p: Parts): string
    requires PrintableParts(p)
  {
    Join([Canonical(p.before), Canonical(p.change), Canonical(p.after), Canonical(p.rollback)], "|")
  }

  lemma HashedTextIsPayload(p: Parts)
    requires PrintableParts(p)
    ensures HashedText(p) == Payload(p)
  {
    hide Canonical, Printable;
    var a, b, c, d := Canonical(p.before), Canonical(p.change), Canonical(p.after), Canonical(p.rollback);
    assert [a, b, c, d][1..] == [b, c, d] && [b, c, d][1..] == [c, d] && [c, d][1..] == [d];
    assert Join([c, d], "|") == c + "|" + d;
    assert Join([b, c, d], "|") == b + "|" + (c + "|" + d);
    assert Join([a, b, c, d], "|") == a + "|" + (b + "|" + (c + "|" + d));
    assert a + "|" + (b + "|" + (c + "|" + d)) == a + ("|" + (b + ("|" + (c + ("|" + d)))));
  }

  /** Every id hashes the canonical texts of all four parts, in their order. */
  lemma IdExact(p: Parts, sha: string -> string)
    requires PrintableParts(p)
    ensures CreateTransaction(p, sha) == Record(JStr(Codes(sha(HashedText(p)))), p)
  {
    HashedTextIsPayload(p);
    hide Payload, HashedText;
  }

  /** A dictionary with exactly these entries. */
  ghost predicate IsDict(j: Json, keys: seq<string>, values: seq<Json>)
    requires |keys| == |values|
  {
    && j.JObj? && Size(j.members) == |keys|
    && forall i :: 0 <= i < |keys| ==> Lookup(j.members, Codes(keys[i])) == Some(values[i])
  }

  /** Everything a feasible plan holds: the conf file, the alias, the four parts of the
      transaction, and its id. */
  lemma PlanContents(d: Device, kb: Kb, bound: Option<string>, loaded: Option<string>, sha: string -> string)
    requires PlanStateB(d, kb, bound, loaded, sha).Feasible?
    ensures var plan := PlanStateB(d, kb, bound, loaded, sha);
            var p := plan.transaction.parts;
            var file, path := JStr(Codes("modprobe_d_file")), JStr(Codes(plan.confPath));
            && plan.confPath == "/etc/modprobe.d/ddr-" + (d.vid + ("-" + (d.pid + ".conf")))
            && plan.alias == AliasText(d.vid, d.pid, plan.module_)
            && IsDict(p.before, ["kind", "path", "existed", "sha256"], [file, path, JBool(false), JNull])
            && IsDict(p.change, ["op", "content"], [JStr(Codes("create_modprobe_alias")), JStr(Codes(plan.alias))])
            && IsDict(p.after, ["kind", "path", "existed", "content_sha256"],
                      [file, path, JBool(true), JStr(Codes(sha(plan.alias)))])
            && IsDict(p.rollback, ["op", "path", "restore_if_existed"],
                      [JStr(Codes("remove_file")), path, JObj(Cons(Codes("sha256"), JNull, Nil))])
            && PrintableParts(p) && plan.transaction.id == JStr(Codes(sha(HashedText(p))))
  {
    var plan := PlanStateB(d, kb, bound, loaded, sha);
    var path, alias := plan.confPath, plan.alias;
    PartsFine(path, alias, sha(alias));
    BeforeIsDict(path);
    ChangeIsDict(alias);
    AfterIsDict(path, sha(alias));
    RollbackIsDict(path);
    PathText(d);
    IdExact(PlannedParts(path, alias, sha(alias)), sha);
    hide IsDict, Codes, Printable, HashedText, Payload, AliasText, BeforeState, Change, AfterState, RollbackAction,
         IsModuleName, FindById, CreateTransaction, ConfPath;
  }

  lemma PathText(d: Device)
    ensures ConfPath(d) == "/etc/modprobe.d/ddr-" + (d.vid + ("-" + (d.pid + ".conf")))
  {
  }

  lemma NoDict()
    ensures IsDict(JObj(Nil), [], [])
  {
  }

  lemma ConsDict(k: string, v: Json, t: Dict<Json>, keys: seq<string>, values: seq<Json>)
    requires |keys| == |values| && IsDict(JObj(t), keys, values)
    requires forall i :: 0 <= i < |keys| ==> Codes(keys[i]) != Codes(k)
    ensures IsDict(JObj(Cons(Codes(k), v, t)), [k] + keys, [v] + values)
  {
    hide Codes;
    var ks, vs, ms := [k] + keys, [v] + values, Cons(Codes(k), v, t);
    forall i | 0 <= i < |ks|
      ensures Lookup(ms, Codes(ks[i])) == Some(vs[i])
    {
      if i > 0 {
        assert ks[i] == keys[i - 1] && vs[i] == values[i - 1];
        assert Lookup(t, Codes(keys[i - 1])) == Some(values[i - 1]);
      }
    }
  }

  lemma StateIsDict(path: string, existed: bool, key: string, sha: Json)
    requires key == "sha256" || key == "content_sha256"
    ensures IsDict(JObj(Cons(Codes("kind"), FileKind(), Cons(Codes("path"), JStr(Codes(path)),
                     Cons(Codes("existed"), JBool(existed), Cons(Codes(key), sha, Nil))))),
                   ["kind", "path", "existed", key], [JStr(Codes("modprobe_d_file")), JStr(Codes(path)), JBool(existed), sha])
  {
    LiteralsDiffer();
    NoDict();
    hide Codes, IsDict;
    var p, e := JStr(Codes(path)), JBool(existed);
    ConsDict(key, sha, Nil, [], []);
    var m3 := Cons(Codes(key), sha, Nil);
    assert [key] + [] == [key] && [sha] + [] == [sha];
    ConsDict("existed", e, m3, [key], [sha]);
    var m2 := Cons(Codes("existed"), e, m3);
    assert ["existed"] + [key] == ["existed", key] && [e] + [sha] == [e, sha];
    ConsDict("path", p, m2, ["existed", key], [e, sha]);
    assert ["path"] + ["existed", key] == ["path", "existed", key] && [p] + [e, sha] == [p, e, sha];
    ConsDict("kind", FileKind(), Cons(Codes("path"), p, m2), ["path", "existed", key], [p, e, sha]);
    assert ["kind"] + ["path", "existed", key] == ["kind", "path", "existed", key];
    assert [FileKind()] + [p, e, sha] == [FileKind(), p, e, sha];
  }

  lemma BeforeIsDict(path: string)
    ensures IsDict(BeforeState(path), ["kind", "path", "existed", "sha256"],
                   [JStr(Codes("modprobe_d_file")), JStr(Codes(path)), JBool(false), JNull])
  {
    hide IsDict, Codes;
    StateIsDict(path, false, "sha256", JNull);
  }

  lemma AfterIsDict(path: string, contentSha: string)
    ensures IsDict(AfterState(path, contentSha), ["kind", "path", "existed", "content_sha256"],
                   [JStr(Codes("modprobe_d_file")), JStr(Codes(path)), JBool(true), JStr(Codes(contentSha))])
  {
    hide IsDict, Codes;
    StateIsDict(path, true, "content_sha256", JStr(Codes(contentSha)));
  }

  lemma ChangeIsDict(alias: string)
    ensures IsDict(Change(alias), ["op", "content"], [JStr(Codes("create_modprobe_alias")), JStr(Codes(alias))])
  {
    LiteralsDiffer();
    NoDict();
    hide Codes, IsDict;
    var op, content := JStr(Codes("create_modprobe_alias")), JStr(Codes(alias));
    ConsDict("content", content, Nil, [], []);
    assert ["content"] + [] == ["content"] && [content] + [] == [content];
    ConsDict("op", op, Cons(Codes("content"), content, Nil), ["content"], [content]);
    assert ["op"] + ["content"] == ["op", "content"] && [op] + [content] == [op, content];
  }

  lemma RollbackIsDict(path: string)
    ensures IsDict(RollbackAction(path), ["op", "path", "restore_if_existed"],
                   [JStr(Codes("remove_file")), JStr(Codes(path)), JObj(Cons(Codes("sha256"), JNull, Nil))])
  {
    LiteralsDiffer();
    NoDict();
    hide Codes, IsDict;
    var op, p, inner := JStr(Codes("remove_file")), JStr(Codes(path)), JObj(Cons(Codes("sha256"), JNull, Nil));
    var m2 := Cons(Codes("restore_if_existed"), inner, Nil);
    ConsDict("restore_if_existed", inner, Nil, [], []);
    assert ["restore_if_existed"] + [] == ["restore_if_existed"] && [inner] + [] == [inner];
    ConsDict("path", p, m2, ["restore_if_existed"], [inner]);
    assert ["path"] + ["restore_if_existed"] == ["path", "restore_if_existed"] && [p] + [inner] == [p, inner];
    ConsDict("op", op, Cons(Codes("path"), p, m2), ["path", "restore_if_existed"], [p, inner]);
    assert ["op"] + ["path", "restore_if_existed"] == ["op", "path", "restore_if_existed"];
    assert [op] + [p, inner] == [op, p, inner];
  }

  // --------------------------------------------------------- when two ids agree

  ghost predicate IsInjective(sha: string -> string) { forall x, y :: sha(x) == sha(y) ==> x == y }

  /** Two transactions share an id exactly when they agree part by part, up to key order
      and joined surrogates, as long as the hash tells their texts apart. */
  lemma SharedIdExact(p: Parts, q: Parts, sha: string -> string)
    requires PrintableParts(p) && PrintableParts(q) && IsInjective(sha)
    ensures CreateTransaction(p, sha).id == CreateTransaction(q, sha).id <==> SameTextParts(p, q)
  {
    hide Payload, SameTextParts, Printable;
    PayloadExact(p, q);
    CodesInjective(sha(Payload(p)), sha(Payload(q)));
    hide Codes;
  }

  /** So two plans share an id exactly when they are for the same ids and module. */
  lemma PlansShareIdExactly(a: Device, b: Device, kb: Kb, ab: Option<string>, al: Option<string>,
                            bb: Option<string>, bl: Option<string>, sha: string -> string)
    requires ValidDevice(a) && ValidDevice(b) && IsInjective(sha)
    requires PlanStateB(a, kb, ab, al, sha).Feasible? && PlanStateB(b, kb, bb, bl, sha).Feasible?
    ensures var p, q := PlanStateB(a, kb, ab, al, sha), PlanStateB(b, kb, bb, bl, sha);
            p.transaction.id == q.transaction.id <==> a.vid == b.vid && a.pid == b.pid && p.module_ == q.module_
  {
    var p, q := PlanStateB(a, kb, ab, al, sha), PlanStateB(b, kb, bb, bl, sha);
    PlanShape(a, kb, ab, al, sha);
    PlanShape(b, kb, bb, bl, sha);
    hide PlanStateB, ValidDevice, AliasText, IsModuleName, IsInjective, PlannedParts, CreateTransaction;
    PlannedIds(p.confPath, p.alias, q.confPath, q.alias, sha);
    ConfPathInjective(a, b);
    AliasOfModule(a, p.module_);
    AliasOfModule(b, q.module_);
  }

  lemma PlanShape(d: Device, kb: Kb, bound: Option<string>, loaded: Option<string>, sha: string -> string)
    requires PlanStateB(d, kb, bound, loaded, sha).Feasible?
    ensures var p := PlanStateB(d, kb, bound, loaded, sha);
            && p.confPath == ConfPath(d) && p.alias == AliasText(d.vid, d.pid, p.module_) && IsModuleName(p.module_)
            && PrintableParts(PlannedParts(p.confPath, p.alias, sha(p.alias)))
            && p.transaction == CreateTransaction(PlannedParts(p.confPath, p.alias, sha(p.alias)), sha)
  {
    var p := PlanStateB(d, kb, bound, loaded, sha);
    PartsFine(p.confPath, p.alias, sha(p.alias));
    hide PlannedParts, CreateTransaction, AliasText, ConfPath, IsModuleName, FindById, PickModule;
  }

  lemma AliasOfModule(d: Device, m: string)
    requires ValidDevice(d) && IsModuleName(m)
    ensures ParseRows([AliasText(d.vid, d.pid, m)]) ==
              [AliasLine(PlannerPattern(d.vid, d.pid), m, AliasText(d.vid, d.pid, m))]
  {
    hide AliasText, IsModuleName, PlannerPattern, ParseRows, IsHex4;
    PlannerLineIsOneRow(d.vid, d.pid, m);
  }

  lemma PlannedIds(path1: string, alias1: string, path2: string, alias2: string, sha: string -> string)
    requires IsInjective(sha)
    ensures var p, q := PlannedParts(path1, alias1, sha(alias1)), PlannedParts(path2, alias2, sha(alias2));
            && PrintableParts(p) && PrintableParts(q)
            && (CreateTransaction(p, sha).id == CreateTransaction(q, sha).id <==> path1 == path2 && alias1 == alias2)
  {
    var p, q := PlannedParts(path1, alias1, sha(alias1)), PlannedParts(path2, alias2, sha(alias2));
    PartsFine(path1, alias1, sha(alias1));
    PartsFine(path2, alias2, sha(alias2));
    ChangeContent(path1, alias1, sha(alias1), path2, alias2, sha(alias2));
    hide PlannedParts, Printable, DistinctKeys, PairFree, Same, CreateTransaction, IsInjective;
    SharedIdExact(p, q, sha);
    PayloadDetermines(p, q);
    PayloadExact(p, q);
    SamePartsReflexive(p);
  }

  lemma SamePartsReflexive(p: Parts)
    requires DistinctParts(p)
    ensures SameParts(p, p)
  {
    hide Same, DistinctKeys;
    SameIffSortedEqual(p.before, p.before);
    SameIffSortedEqual(p.change, p.change);
    SameIffSortedEqual(p.after, p.after);
    SameIffSortedEqual(p.rollback, p.rollback);
  }

  lemma SecondAgrees(k1: PyStr, v1: Json, k2: PyStr, v2: Json, t: Dict<Json>, b: Json)
    requires Same(JObj(Cons(k1, v1, Cons(k2, v2, t))), b)
    ensures b.JObj? && Lookup(b.members, k2).Some? && Same(v2, Lookup(b.members, k2).value)
  {
    var more := Cons(k2, v2, t);
    assert SameMembers(Cons(k1, v1, more), b.members);
    assert SameMembers(more, b.members);
  }

  lemma ChangeContent(path1: string, alias1: string, sha1: string, path2: string, alias2: string, sha2: string)
    ensures SameParts(PlannedParts(path1, alias1, sha1), PlannedParts(path2, alias2, sha2)) ==> path1 == path2 && alias1 == alias2
  {
    CodesInjective(path1, path2);
    CodesInjective(alias1, alias2);
    ChangeIsDict(alias2);
    RollbackIsDict(path2);
    if SameParts(PlannedParts(path1, alias1, sha1), PlannedParts(path2, alias2, sha2)) {
      hide Codes, Lookup;
      var ks, vs := ["op", "content"], [JStr(Codes("create_modprobe_alias")), JStr(Codes(alias2))];
      assert Lookup(Change(alias2).members, Codes(ks[1])) == Some(vs[1]);
      SecondAgrees(Codes("op"), vs[0], Codes("content"), JStr(Codes(alias1)), Nil, Change(alias2));
      var inner := JObj(Cons(Codes("sha256"), JNull, Nil));
      var ls, ws := ["op", "path", "restore_if_existed"], [JStr(Codes("remove_file")), JStr(Codes(path2)), inner];
      assert Lookup(RollbackAction(path2).members, Codes(ls[1])) == Some(ws[1]);
      SecondAgrees(Codes("op"), ws[0], Codes("path"), JStr(Codes(path1)), Cons(Codes("restore_if_existed"), inner, Nil),
                   RollbackAction(path2));
    }
  }
}
