/** repair/transaction.py, part three: the guarded rollback planner. */
module Rollback {
  import opened Text
  import opened Dicts
  import opened JsonValues
  import opened Transactions
  import opened Journal
  import opened JournalRoundTrip
  import opened Paths
  import opened AliasPrinters

  /** An inverse action; every one is guarded by if_present. */
  datatype Step =
    | NoopStep
    | RemoveFile(path: PyStr, restoreSha: Json)
    | RemoveNewId(driver: string, vidPid: string)

  /** ValueError is the planner's refusal; OtherError is what Python raises when a
      tampered record has something else than a dictionary where one is read. */
  datatype RollbackPlan = Steps(steps: seq<Step>) | ValueError | OtherError

  const SLASH: int := '/' as int
  const DOT: int := '.' as int

  /** A code point sequence as text, when it is text at all. */
  function AsText(p: PyStr): Option<string> {
    if forall i :: 0 <= i < |p| ==> IsScalar(p[i]) then
      Some(seq(|p|, i requires 0 <= i < |p| && IsScalar(p[i]) => p[i] as char))
    else None
  }

  predicate IsScalar(c: int) { 0 <= c < 0xD800 || 0xE000 <= c < 0x11_0000 }

  predicate IsVidPid(s: string) { |s| == 9 && AllHex(s[..4]) && s[4] == ':' && AllHex(s[5..]) }

  /** bool(value) is False; a float written with zero digits only is zero. */
  predicate IsFalsy(j: Json) {
    match j
    case JNull => true
    case JBool(b) => !b
    case JInt(n) => n == 0
    case JFloat(text) => IsZeroText(text)
    case JStr(s) => s == []
    case JArr(items) => items.End?
    case JObj(ms) => ms.Nil?
  }

  predicate IsZeroText(text: string) {
    text == "" || text[0] == 'e' || text[0] == 'E'
    || ((text[0] == '0' || text[0] == '.' || text[0] == '-') && IsZeroText(text[1..]))
  }

  function Get(ms: Dict<Json>, key: string): Json {
    var v := Lookup(ms, Codes(key));
    if v.None? then JNull else v.value
  }

  predicate IsNormalAbsolutePath(j: Json) {
    j.JStr? && [SLASH] <= j.s && Normpath(j.s, SLASH, DOT) == j.s
  }

  function PlanRollback(rollback: Json): RollbackPlan {
    if !rollback.JObj? then OtherError
    else
      var ms := rollback.members;
      var op := Get(ms, "op");
      if op == JStr(Codes("noop")) then Steps([NoopStep])
      else if op == JStr(Codes("remove_file")) then
        var path := Get(ms, "path");
        if !IsNormalAbsolutePath(path) then ValueError
        else
          var restore := Get(ms, "restore_if_existed");
          if IsFalsy(restore) then Steps([RemoveFile(path.s, JNull)])
          else if !restore.JObj? then OtherError
          else Steps([RemoveFile(path.s, Get(restore.members, "sha256"))])
      else if op == JStr(Codes("remove_new_id")) then
        var driver := Get(ms, "driver");
        var vidPid := Get(ms, "vid_pid");
        if !driver.JStr? || driver.s == [] || !vidPid.JStr? then ValueError
        else
          var name := AsText(driver.s);
          var pair := AsText(vidPid.s);
          if name.None? || !IsModuleName(name.value) || pair.None? || !IsVidPid(pair.value) then ValueError
          else Steps([RemoveNewId(name.value, pair.value)])
      else ValueError
  }

  // ------------------------------------------------- what a plan may ever contain

  ghost predicate IsSafeStep(s: Step) {
    match s
    case NoopStep => true
    case RemoveFile(path, _) => IsNormalForm(path, SLASH, DOT)
    case RemoveNewId(driver, vidPid) => IsModuleName(driver) && IsVidPid(vidPid)
  }

  /** Whatever a journal line may say, a planned step names a grammar-valid driver
      and id pair, or a path of proper components; there may be none, so the root
      directory itself is such a path. */
  lemma PlannedStepsAreSafe(rollback: Json)
    ensures PlanRollback(rollback).Steps? ==>
              |PlanRollback(rollback).steps| == 1 && IsSafeStep(PlanRollback(rollback).steps[0])
  {
    hide Normpath, IsNormalForm, Codes, IsModuleName, IsVidPid, AsText;
    if PlanRollback(rollback).Steps? && PlanRollback(rollback).steps[0].RemoveFile? {
      NormalAbsolute(PlanRollback(rollback).steps[0].path, SLASH, DOT);
    }
  }

  // ------------------------------------------------ a plan survives the journal

  function SortedStep(s: Step): Step {
    if s.RemoveFile? then RemoveFile(s.path, SortKeys(s.restoreSha)) else s
  }

  function SortedPlan(p: RollbackPlan): RollbackPlan {
    if p.Steps? then Steps(seq(|p.steps|, i requires 0 <= i < |p.steps| => SortedStep(p.steps[i]))) else p
  }

  lemma SortedGet(ms: Dict<Json>, key: string)
    requires Distinct(ms)
    ensures Get(Sort(SortValues(ms)), key) == SortKeys(Get(ms, key))
  {
    SortedObjectLookup(ms, Codes(key));
  }

  /** y is x with its objects sorted: the same scalar, or the same kind of container. */
  predicate Agree(x: Json, y: Json) {
    y == SortKeys(x) && (if x.JObj? then y.JObj? else if x.JArr? then y.JArr? else y == x)
  }

  lemma SortAgrees(ms: Dict<Json>, key: string)
    requires Distinct(ms)
    ensures Agree(Get(ms, key), Get(Sort(SortValues(ms)), key))
  {
    SortedGet(ms, key);
  }

  lemma SortedFalsy(j: Json)
    requires DistinctKeys(j)
    ensures IsFalsy(SortKeys(j)) <==> IsFalsy(j)
  {
    if j.JObj? {
      SortProperties(SortValues(j.members));
      assert Size(Sort(SortValues(j.members))) == Size(j.members);
      assert j.members.Nil? <==> Size(j.members) == 0;
    }
  }

  lemma AgreeingRollback(ms: Dict<Json>, ns: Dict<Json>)
    requires Agree(Get(ms, "op"), Get(ns, "op")) && Agree(Get(ms, "path"), Get(ns, "path"))
    requires Agree(Get(ms, "driver"), Get(ns, "driver")) && Agree(Get(ms, "vid_pid"), Get(ns, "vid_pid"))
    requires Agree(Get(ms, "restore_if_existed"), Get(ns, "restore_if_existed"))
    requires IsFalsy(Get(ns, "restore_if_existed")) <==> IsFalsy(Get(ms, "restore_if_existed"))
    requires var x, y := Get(ms, "restore_if_existed"), Get(ns, "restore_if_existed");
             x.JObj? && y.JObj? ==> Get(y.members, "sha256") == SortKeys(Get(x.members, "sha256"))
    ensures PlanRollback(JObj(ns)) == SortedPlan(PlanRollback(JObj(ms)))
  {
    NullIsSorted();
    hide Get, IsFalsy, Normpath, AsText, IsModuleName, IsVidPid, Codes, SortKeys;
    var p := PlanRollback(JObj(ms));
    if p.Steps? {
      assert SortedPlan(p).steps == [SortedStep(p.steps[0])];
    }
  }

  lemma NullIsSorted()
    ensures SortKeys(JNull) == JNull
  {
  }

  lemma SortedRollback(j: Json)
    requires DistinctKeys(j)
    ensures PlanRollback(SortKeys(j)) == SortedPlan(PlanRollback(j))
  {
    if j.JObj? {
      var ms := j.members;
      var restore := Get(ms, "restore_if_existed");
      SortAgrees(ms, "op");
      SortAgrees(ms, "path");
      SortAgrees(ms, "driver");
      SortAgrees(ms, "vid_pid");
      SortAgrees(ms, "restore_if_existed");
      GetIsDistinct(ms, "restore_if_existed");
      SortedFalsy(restore);
      if restore.JObj? {
        SortedGet(restore.members, "sha256");
      }
      hide Get, IsFalsy, Sort, SortValues, PlanRollback, Codes;
      AgreeingRollback(ms, Sort(SortValues(ms)));
    }
  }

  lemma GetIsDistinct(ms: Dict<Json>, key: string)
    requires DistinctMembers(ms)
    ensures DistinctKeys(Get(ms, key))
  {
    if Codes(key) in Keys(ms) {
      LookupDistinctKeys(ms, Codes(key));
    }
  }

  /** A record that went through the journal yields the same rollback plan. */
  lemma JournalKeepsRollback(r: Record)
    requires WellFormedRecord(r) && PairFree(r.parts.rollback)
    ensures PlanRollback(RestoredRecord(r).parts.rollback) == SortedPlan(PlanRollback(r.parts.rollback))
  {
    hide PlanRollback, SortKeys, Restored;
    RestoredPairFree(r.parts.rollback);
    SortedRollback(r.parts.rollback);
  }

  /** A remove_file action is planned exactly for one or two slashes followed by
      proper components, when what it restores is a dictionary or falsy; the path is
      what ValueError is about, the other condition raises something else. */
  lemma RemoveFileExact(ms: Dict<Json>)
    requires Get(ms, "op") == JStr(Codes("remove_file"))
    ensures var plan, path, restore := PlanRollback(JObj(ms)), Get(ms, "path"), Get(ms, "restore_if_existed");
            var normal := path.JStr? && IsNormalForm(path.s, SLASH, DOT);
            && (plan.ValueError? <==> !normal)
            && (plan.Steps? <==> normal && (IsFalsy(restore) || restore.JObj?))
  {
    OpsDiffer();
    hide Normpath, IsNormalForm, Codes, Get, IsFalsy;
    if Get(ms, "path").JStr? {
      NormalAbsolute(Get(ms, "path").s, SLASH, DOT);
    }
  }

  lemma TextExact(p: PyStr, t: string)
    ensures AsText(p) == Some(t) <==> p == Codes(t)
  {
    if p == Codes(t) {
      assert forall i :: 0 <= i < |p| ==> p[i] == t[i] as int;
      assert AsText(p).Some?;
      assert AsText(p).value == t;
    }
    if AsText(p) == Some(t) {
      assert forall i :: 0 <= i < |p| ==> t[i] as int == p[i];
    }
  }

  /** A float is falsy when the digits in front of its exponent are all zero. */
  lemma {:induction false} ZeroFloat(mantissa: string, exp: string)
    requires 'e' !in mantissa && 'E' !in mantissa && (exp == "" || exp[0] == 'e' || exp[0] == 'E')
    ensures IsFalsy(JFloat(mantissa + exp)) <==>
              forall i :: 0 <= i < |mantissa| ==> mantissa[i] == '0' || mantissa[i] == '.' || mantissa[i] == '-'
  {
    var text := mantissa + exp;
    if mantissa == "" {
      assert text == exp;
    } else {
      var m := mantissa[1..];
      assert text[1..] == m + exp && text[0] == mantissa[0];
      assert mantissa[0] in mantissa;
      ZeroFloat(m, exp);
      assert forall i :: 1 <= i < |mantissa| ==> mantissa[i] == m[i - 1];
    }
  }

  lemma OpsDiffer()
    ensures Codes("noop") != Codes("remove_file") && Codes("noop") != Codes("remove_new_id")
    ensures Codes("remove_file") != Codes("remove_new_id")
  {
    assert |Codes("noop")| == 4 && |Codes("remove_file")| == 11 && |Codes("remove_new_id")| == 13;
  }

  /** The one step an action is planned as, if any. */
  ghost predicate IsPlannedAs(ms: Dict<Json>, step: Step) {
    var op := Get(ms, "op");
    match step
    case NoopStep => op == JStr(Codes("noop"))
    case RemoveFile(path, sha) =>
      && op == JStr(Codes("remove_file")) && Get(ms, "path") == JStr(path) && IsNormalForm(path, SLASH, DOT)
      && var restore := Get(ms, "restore_if_existed");
         if IsFalsy(restore) then sha == JNull else restore.JObj? && sha == Get(restore.members, "sha256")
    case RemoveNewId(driver, vidPid) =>
      && op == JStr(Codes("remove_new_id")) && Get(ms, "driver") == JStr(Codes(driver))
      && Get(ms, "vid_pid") == JStr(Codes(vidPid)) && IsModuleName(driver) && IsVidPid(vidPid)
  }

  /** The rollback planner, whatever the action: one step exactly for the three known
      operations with proper arguments, a ValueError for every other dictionary, except
      that what is restored may be of a kind that raises something else. */
  lemma PlanRollbackExact(j: Json, steps: seq<Step>)
    ensures PlanRollback(j) == Steps(steps) <==> j.JObj? && |steps| == 1 && IsPlannedAs(j.members, steps[0])
    ensures PlanRollback(j) == OtherError <==>
              || !j.JObj?
              || (&& Get(j.members, "op") == JStr(Codes("remove_file"))
                  && Get(j.members, "path").JStr? && IsNormalForm(Get(j.members, "path").s, SLASH, DOT)
                  && !IsFalsy(Get(j.members, "restore_if_existed")) && !Get(j.members, "restore_if_existed").JObj?)
  {
    OpsDiffer();
    hide Normpath, IsNormalForm, Codes, Get, IsFalsy, AsText, IsModuleName, IsVidPid;
    if j.JObj? {
      var path, driver, pair := Get(j.members, "path"), Get(j.members, "driver"), Get(j.members, "vid_pid");
      if path.JStr? {
        NormalAbsolute(path.s, SLASH, DOT);
      }
      if driver.JStr? && pair.JStr? {
        DriverExact(driver.s, pair.s, steps);
      }
      if |steps| == 1 {
        assert steps == [steps[0]];
      }
    }
  }

  lemma DriverExact(driver: PyStr, pair: PyStr, steps: seq<Step>)
    ensures AsText(driver).Some? ==> driver == Codes(AsText(driver).value)
    ensures AsText(pair).Some? ==> pair == Codes(AsText(pair).value)
    ensures |steps| == 1 && steps[0].RemoveNewId? && driver == Codes(steps[0].driver) ==> AsText(driver) == Some(steps[0].driver)
    ensures |steps| == 1 && steps[0].RemoveNewId? && pair == Codes(steps[0].vidPid) ==> AsText(pair) == Some(steps[0].vidPid)
    ensures forall t :: driver == Codes(t) && IsModuleName(t) ==> driver != []
  {
    if AsText(driver).Some? {
      TextExact(driver, AsText(driver).value);
    }
    if AsText(pair).Some? {
      TextExact(pair, AsText(pair).value);
    }
    if |steps| == 1 && steps[0].RemoveNewId? {
      TextExact(driver, steps[0].driver);
      TextExact(pair, steps[0].vidPid);
    }
  }
}
