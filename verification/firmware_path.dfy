/** types.require_firmware_path: which relative paths it accepts and what it
    makes of them. */
module FirmwarePath {
  import opened Text
  import opened Paths

  type Comps = seq<string>

  function Components(value: string): Comps { Split(value, '/') }

  /** The stack normpath is left with for a relative path. */
  function Kept(value: string): Comps { Walk([], Components(value), false, '.') }

  predicate IsBadPart(part: string) { part == "" || part == "." || part == ".." }

  /** The validator, check by check; None stands for the ValueError. */
  function RequireFirmwarePath(value: string): Option<string> {
    if value == "" || value[0] == '/' || '\\' in value then None
    else
      var norm := Normpath(value, '/', '.');
      if ".." <= norm || norm == "." || '\0' in norm then None
      else if exists part :: part in Split(norm, '/') && IsBadPart(part) then None
      else Some(norm)
  }

  // ------------------------------------------------- a walk that never climbs out

  function Delta(comp: string): int {
    if comp == "" || comp == "." then 0 else if comp == ".." then -1 else 1
  }

  /** Starting depth levels down, no prefix of the walk climbs above the start. */
  predicate StaysInside(comps: Comps, depth: nat) {
    comps == [] || (depth + Delta(comps[0]) >= 0 && StaysInside(comps[1..], depth + Delta(comps[0])))
  }

  lemma StepInside(stack: Comps, comp: string)
    requires AllProper(stack, '/', '.') && '/' !in comp && |stack| + Delta(comp) >= 0
    ensures var s := Step(stack, comp, false, '.'); AllProper(s, '/', '.') && |s| == |stack| + Delta(comp)
  {
    if stack != [] {
      assert IsProper(stack[|stack| - 1], '/', '.');
    }
  }

  lemma {:induction false} WalkInside(stack: Comps, comps: Comps)
    requires AllProper(stack, '/', '.') && SlashFree(comps, '/') && StaysInside(comps, |stack|)
    ensures AllProper(Walk(stack, comps, false, '.'), '/', '.')
    decreases comps
  {
    hide Step, AllProper;
    if comps != [] {
      assert '/' !in comps[0] && SlashFree(comps[1..], '/');
      StepInside(stack, comps[0]);
      WalkInside(Step(stack, comps[0], false, '.'), comps[1..]);
    }
  }

  /** Once a walk has climbed out, its stack starts with ".." for good. */
  lemma {:induction false} ClimbedOutStays(stack: Comps, comps: Comps)
    requires stack != [] && stack[0] == ".."
    ensures var s := Walk(stack, comps, false, '.'); s != [] && s[0] == ".."
    decreases comps
  {
    if comps != [] {
      ClimbedOutStays(Step(stack, comps[0], false, '.'), comps[1..]);
    }
  }

  lemma {:induction false} WalkOutside(stack: Comps, comps: Comps)
    requires AllProper(stack, '/', '.') && SlashFree(comps, '/') && !StaysInside(comps, |stack|)
    ensures var s := Walk(stack, comps, false, '.'); s != [] && s[0] == ".."
    decreases comps
  {
    hide Step, AllProper;
    assert '/' !in comps[0] && SlashFree(comps[1..], '/');
    if |stack| + Delta(comps[0]) >= 0 {
      StepInside(stack, comps[0]);
      WalkOutside(Step(stack, comps[0], false, '.'), comps[1..]);
    } else {
      StepOut(stack, comps[0]);
      ClimbedOutStays(Step(stack, comps[0], false, '.'), comps[1..]);
    }
  }

  lemma StepOut(stack: Comps, comp: string)
    requires |stack| + Delta(comp) < 0
    ensures Step(stack, comp, false, '.') == [".."]
  {
    assert stack == [] && comp == "..";
    assert ".." == ['.', '.'];
  }

  // --------------------------------------------------------- what is accepted

  lemma RelativeNormpath(value: string)
    requires value != "" && value[0] != '/'
    ensures Normpath(value, '/', '.') == if Join(Kept(value), "/") == "" then "." else Join(Kept(value), "/")
  {
    hide Split, Walk, Join;
    assert LeadingSlashes(value, '/') == 0;
    assert Slashes(0, '/') == "";
    assert "" + Join(Kept(value), "/") == Join(Kept(value), "/");
  }

  lemma JoinStart(comps: Comps)
    requires comps != [] && comps[0] != "" && '/' !in comps[0]
    ensures Join(comps, "/") != ""
    ensures ".." <= Join(comps, "/") <==> ".." <= comps[0]
    ensures Join(comps, "/") == "." ==> comps[0] == "."
  {
    var j := Join(comps, "/");
    if |comps| > 1 {
      assert j == comps[0] + ("/" + Join(comps[1..], "/"));
      assert j[|comps[0]|] == '/';
      assert forall i :: 0 <= i < |comps[0]| ==> j[i] == comps[0][i];
      if ".." <= j {
        assert j[0] == '.' && j[1] == '.';
      }
      if ".." <= comps[0] {
        assert j[..2] == comps[0][..2] == "..";
      }
    }
  }

  lemma {:induction false} JoinMembers(comps: Comps, c: char)
    ensures c in Join(comps, "/") <==> (|comps| >= 2 && c == '/') || exists i :: 0 <= i < |comps| && c in comps[i]
  {
    if |comps| >= 2 {
      JoinMembers(comps[1..], c);
      var rest := comps[1..];
      assert Join(comps, "/") == comps[0] + "/" + Join(rest, "/");
      assert forall i :: 0 <= i < |rest| ==> rest[i] == comps[i + 1];
      assert (exists i :: 0 <= i < |comps| && c in comps[i]) <==>
               c in comps[0] || exists i :: 0 <= i < |rest| && c in rest[i] by {
        if c in comps[0] || exists i :: 0 <= i < |rest| && c in rest[i] {
          if c in comps[0] {
          } else {
            var i :| 0 <= i < |rest| && c in rest[i];
            assert c in comps[i + 1];
          }
        }
        if exists i :: 0 <= i < |comps| && c in comps[i] {
          var i :| 0 <= i < |comps| && c in comps[i];
          if i > 0 {
            assert c in rest[i - 1];
          }
        }
      }
    } else if |comps| == 1 {
      assert (exists i :: 0 <= i < |comps| && c in comps[i]) <==> c in comps[0];
    }
  }

  ghost predicate NulFree(comps: Comps) { forall i :: 0 <= i < |comps| ==> '\0' !in comps[i] }

  /** The accepted language, told by the component walk alone. */
  ghost predicate IsAcceptable(value: string) {
    && value != "" && value[0] != '/' && '\\' !in value
    && StaysInside(Components(value), 0)
    && var kept := Kept(value);
    && kept != [] && !(".." <= kept[0]) && NulFree(kept)
  }

  /** On a walk that stays inside, normpath keeps proper components only. */
  lemma KeptIsProper(value: string)
    requires StaysInside(Components(value), 0)
    ensures AllProper(Kept(value), '/', '.')
  {
    hide Walk;
    assert SlashFree(Components(value), '/');
    WalkInside([], Components(value));
  }

  lemma ProperJoin(kept: Comps)
    requires kept != [] && AllProper(kept, '/', '.')
    ensures Split(Join(kept, "/"), '/') == kept && Normpath(Join(kept, "/"), '/', '.') == Join(kept, "/")
    ensures Join(kept, "/") != "" && Join(kept, "/")[0] != '/' && Join(kept, "/") != "."
    ensures ".." <= Join(kept, "/") <==> ".." <= kept[0]
    ensures '\0' in Join(kept, "/") <==> !NulFree(kept)
    ensures forall part :: part in kept ==> !IsBadPart(part)
  {
    assert IsProper(kept[0], '/', '.');
    assert SlashFree(kept, '/') by {
      assert forall i :: 0 <= i < |kept| ==> IsProper(kept[i], '/', '.');
    }
    assert forall part :: part in kept ==> exists i :: 0 <= i < |kept| && kept[i] == part && IsProper(kept[i], '/', '.');
    hide Split, Normpath, Join, AllProper, SlashFree;
    SplitOfJoin2(kept, '/');
    ProperIsNormal(kept, 0, '/', '.');
    CountLeading(kept, 0, '/', '.');
    assert Slashes(0, '/') + Join(kept, "/") == Join(kept, "/");
    JoinStart(kept);
    JoinMembers(kept, '\0');
  }

  /** The validator accepts exactly the acceptable paths; its last check never
      fires, and the result is the join of the kept components. */
  lemma RequireExact(value: string)
    ensures RequireFirmwarePath(value) == if IsAcceptable(value) then Some(Join(Kept(value), "/")) else None
  {
    hide Walk, Split, Join, Normpath, AllProper, NulFree, StaysInside;
    if value != "" && value[0] != '/' && '\\' !in value {
      RelativeNormpath(value);
      if StaysInside(Components(value), 0) {
        KeptIsProper(value);
        if Kept(value) == [] {
          NothingKept();
        } else {
          ProperJoin(Kept(value));
        }
      } else {
        ClimbsOut(value);
      }
    }
  }

  /** The validator's part-by-part check never rejects: no path that passes the checks
      before it has an empty, "." or ".." part left. */
  lemma LastCheckNeverFires(value: string)
    requires value != "" && value[0] != '/'
    requires var norm := Normpath(value, '/', '.'); !(".." <= norm) && norm != "."
    ensures forall part :: part in Split(Normpath(value, '/', '.'), '/') ==> !IsBadPart(part)
  {
    hide Walk, Split, Join, Normpath, AllProper, StaysInside, IsBadPart;
    RelativeNormpath(value);
    if StaysInside(Components(value), 0) {
      KeptIsProper(value);
      NothingKept();
      ProperJoin(Kept(value));
    } else {
      ClimbsOut(value);
    }
  }

  lemma NothingKept()
    ensures Join<char>([], "/") == ""
  {
  }

  lemma ClimbsOut(value: string)
    requires !StaysInside(Components(value), 0)
    ensures Kept(value) != [] && ".." <= Join(Kept(value), "/") && Join(Kept(value), "/") != ""
  {
    hide Walk, Split;
    SplitIsSlashFree(value, '/');
    EmptyIsProper();
    WalkOutside([], Components(value));
    assert ".." <= ".." && '/' !in "..";
    JoinStart(Kept(value));
  }

  lemma EmptyIsProper()
    ensures AllProper<char>([], '/', '.')
  {
  }

  /** What comes out goes back in unchanged and has only proper components. */
  lemma RequireIsIdempotent(value: string)
    requires RequireFirmwarePath(value).Some?
    ensures var norm := RequireFirmwarePath(value).value;
            RequireFirmwarePath(norm) == Some(norm) && AllProper(Split(norm, '/'), '/', '.')
  {
    hide Walk, Split, Join, Normpath, AllProper, NulFree, StaysInside;
    RequireExact(value);
    KeptIsProper(value);
    ProperJoin(Kept(value));
    KeptCharacters(value, '\\');
    var norm := RequireFirmwarePath(value).value;
    ProperStaysInside(Kept(value), 0);
    WalkProper([], Components(norm), false, '/', '.');
    assert [] + Components(norm) == Components(norm);
    RequireExact(norm);
  }

  lemma {:induction false} ProperStaysInside(comps: Comps, depth: nat)
    requires AllProper(comps, '/', '.')
    ensures StaysInside(comps, depth)
  {
    if comps != [] {
      assert IsProper(comps[0], '/', '.');
      ProperStaysInside(comps[1..], depth + 1);
    }
  }

  /** Normalising invents no characters. */
  lemma KeptCharacters(value: string, c: char)
    requires c !in value && c != '/' && c != '.'
    ensures c !in Join(Kept(value), "/")
  {
    hide Join;
    ComponentCharacters(value, c);
    WalkCharacters([], Components(value), c);
    JoinMembers(Kept(value), c);
  }

  predicate Lacks(comps: Comps, c: char) { forall i :: 0 <= i < |comps| ==> c !in comps[i] }

  lemma {:induction false} ComponentCharacters(value: string, c: char)
    requires c !in value && c != '/'
    ensures Lacks(Components(value), c)
  {
    if value != "" {
      assert value[0] in value && value == [value[0]] + value[1..];
      ComponentCharacters(value[1..], c);
      var r := Split(value[1..], '/');
      assert c !in r[0];
      assert Lacks(r[1..], c);
      assert Lacks([[value[0]] + r[0]] + r[1..], c) && Lacks([[]] + r, c);
    }
  }

  lemma StepCharacters(stack: Comps, comp: string, c: char)
    requires Lacks(stack, c) && c !in comp
    ensures Lacks(Step(stack, comp, false, '.'), c)
  {
  }

  lemma {:induction false} WalkCharacters(stack: Comps, comps: Comps, c: char)
    requires Lacks(stack, c) && Lacks(comps, c)
    ensures Lacks(Walk(stack, comps, false, '.'), c)
    decreases comps
  {
    hide Step;
    if comps != [] {
      StepCharacters(stack, comps[0], c);
      assert Lacks(comps[1..], c);
      WalkCharacters(Step(stack, comps[0], false, '.'), comps[1..], c);
    }
  }

  // --------------------------------------------------- where the path leads

  /** Following components from a directory (a list of names from the root), as a
      file system without symbolic links does. */
  function Visit(dir: Comps, comps: Comps): Comps
    decreases comps
  {
    if comps == [] then dir else Visit(Enter(dir, comps[0]), comps[1..])
  }

  function Enter(dir: Comps, c: string): Comps {
    if c == "" || c == "." then dir
    else if c != ".." then dir + [c]
    else if dir == [] then dir
    else dir[..|dir| - 1]
  }

  lemma {:induction false} VisitInside(dir: Comps, stack: Comps, comps: Comps, k: nat)
    requires AllProper(stack, '/', '.') && SlashFree(comps, '/') && StaysInside(comps, |stack|) && k <= |comps|
    ensures Visit(dir + stack, comps) == dir + Walk(stack, comps, false, '.')
    ensures dir <= Visit(dir + stack, comps[..k])
    decreases comps
  {
    if comps != [] {
      var c := comps[0];
      assert '/' !in c && SlashFree(comps[1..], '/');
      StepInside(stack, c);
      var next := Step(stack, c, false, '.');
      VisitStep(dir, stack, c);
      VisitInside(dir, next, comps[1..], if k > 0 then k - 1 else 0);
      if k > 0 {
        assert comps[..k][1..] == comps[1..][..k - 1];
      }
    }
  }

  lemma VisitStep(dir: Comps, stack: Comps, c: string)
    requires AllProper(stack, '/', '.') && |stack| + Delta(c) >= 0
    ensures Enter(dir + stack, c) == dir + Step(stack, c, false, '.')
  {
    if c == ".." {
      assert IsProper(stack[|stack| - 1], '/', '.');
      assert (dir + stack)[..|dir + stack| - 1] == dir + stack[..|stack| - 1];
    } else if c != "" && c != "." {
      assert dir + stack + [c] == dir + (stack + [c]);
    }
  }

  /** An accepted path and its normal form lead to the same place below any root
      directory, and no prefix of the original ever leaves that root. */
  lemma AcceptedStaysUnderRoot(value: string, root: Comps, k: nat)
    requires RequireFirmwarePath(value).Some? && k <= |Components(value)|
    ensures var norm := RequireFirmwarePath(value).value;
            && Visit(root, Components(value)) == Visit(root, Components(norm)) == root + Components(norm)
            && root <= Visit(root, Components(value)[..k])
  {
    hide Walk, Split, Join, Normpath, AllProper, NulFree, StaysInside, Visit;
    RequireExact(value);
    RequireIsIdempotent(value);
    var norm := RequireFirmwarePath(value).value;
    RequireExact(norm);
    SplitIsSlashFree(value, '/');
    SplitIsSlashFree(norm, '/');
    EmptyIsProper();
    assert root + [] == root;
    VisitInside(root, [], Components(value), k);
    VisitInside(root, [], Components(norm), 0);
    KeptIsProper(value);
    ProperJoin(Kept(value));
    KeptIsProper(norm);
    WalkProper([], Components(norm), false, '/', '.');
    assert [] + Components(norm) == Components(norm);
  }
}
