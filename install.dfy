/** The request handling of `install` in `src/install.rs`: every requested name must be known
    to APT or the MPR, each name is then given to exactly one of them (asking the user when
    both have it), and the APT names are marked for installation before the MPR names are
    handed to `order_mpr_packages`.

    The APT cache is the `AptEngine` of the resolver (its keys are the names APT knows), the
    MPR's names are a set, the user's answer to the prompt for the `i`-th requested name is
    `answer(i)`, and whether the engine accepts `mark_install(false, true)` for a name is
    `markOk(name)`. */
module Install {
  import opened Wrappers
  import opened MprResolver

  /** The arguments and what the two catalogs know. */
  datatype Request = Request(pkglist: seq<string>, apt: set<string>, mpr: set<string>, answer: nat -> string)

  datatype Side = ToApt | ToMpr

  datatype InstallError =
    | Unfindable(names: seq<string>)   // the names reported before the exit with `exitcode::USAGE`
    | MarkRefused(name: string)        // the exit with `exitcode::UNAVAILABLE` at line 70

  // ---------------------------------------------------------------------------------------
  // Validation (lines 22-36)

  /** The requested names neither catalog knows, in request order (one report per request). */
  function Missing(req: Request, n: nat): seq<string>
    requires n <= |req.pkglist|
  {
    if n == 0 then []
    else
      var x := req.pkglist[n - 1];
      Missing(req, n - 1) + (if x !in req.apt && x !in req.mpr then [x] else [])
  }

  /** A name is reported exactly when it was requested and neither catalog knows it. */
  lemma {:induction false} MissingMembers(req: Request, n: nat, x: string)
    requires n <= |req.pkglist|
    ensures x in Missing(req, n) <==>
            exists i :: 0 <= i < n && req.pkglist[i] == x && x !in req.apt && x !in req.mpr
  {
    if n > 0 {
      MissingMembers(req, n - 1, x);
    }
  }

  /** Nothing is reported exactly when every request is known to APT or the MPR. */
  lemma {:induction false} NoneMissing(req: Request, n: nat)
    requires n <= |req.pkglist|
    ensures Missing(req, n) == [] <==> forall i :: 0 <= i < n ==> req.pkglist[i] in req.apt || req.pkglist[i] in req.mpr
  {
    if n > 0 {
      NoneMissing(req, n - 1);
    }
  }

  // ---------------------------------------------------------------------------------------
  // Partition (lines 38-60)

  /** Where the `i`-th request goes. */
  function Route(req: Request, i: nat): Option<Side>
    requires i < |req.pkglist|
  {
    var x := req.pkglist[i];
    if x in req.apt && x in req.mpr then (if req.answer(i) == "APT" then Some(ToApt) else Some(ToMpr))
    else if x in req.apt then Some(ToApt)
    else if x in req.mpr then Some(ToMpr)
    else None
  }

  /** The first `n` requests that go to `side`, in request order. */
  function Routed(req: Request, n: nat, side: Side): seq<string>
    requires n <= |req.pkglist|
  {
    if n == 0 then []
    else Routed(req, n - 1, side) + (if Route(req, n - 1) == Some(side) then [req.pkglist[n - 1]] else [])
  }

  /** The APT list holds the names APT has and the MPR lacks, and the names both have for
      which the user answered `"APT"`; the MPR list holds the other names the MPR has. */
  lemma {:induction false} RoutedMembers(req: Request, n: nat, x: string)
    requires n <= |req.pkglist|
    ensures x in Routed(req, n, ToApt) <==>
            exists i :: 0 <= i < n && req.pkglist[i] == x && x in req.apt && (x !in req.mpr || req.answer(i) == "APT")
    ensures x in Routed(req, n, ToMpr) <==>
            exists i :: 0 <= i < n && req.pkglist[i] == x && x in req.mpr && (x !in req.apt || req.answer(i) != "APT")
  {
    if n > 0 {
      RoutedMembers(req, n - 1, x);
    }
  }

  /** The positions of the requests a list holds: increasing, so the list keeps request order,
      and covering every request routed to that side. */
  lemma {:induction false} RoutedIndices(req: Request, n: nat, side: Side) returns (idx: seq<nat>)
    requires n <= |req.pkglist|
    ensures |idx| == |Routed(req, n, side)|
    ensures forall k :: 0 <= k < |idx| ==>
              idx[k] < n && req.pkglist[idx[k]] == Routed(req, n, side)[k] && Route(req, idx[k]) == Some(side)
    ensures forall k, l :: 0 <= k < l < |idx| ==> idx[k] < idx[l]
    ensures forall i :: 0 <= i < n && Route(req, i) == Some(side) ==> i in idx
  {
    if n == 0 {
      idx := [];
    } else {
      var prev := RoutedIndices(req, n - 1, side);
      if Route(req, n - 1) == Some(side) {
        idx := prev + [n - 1];
      } else {
        idx := prev;
      }
    }
  }

  /** When every request is known, each one lands in exactly one of the two lists. */
  lemma {:induction false} RoutedSizes(req: Request, n: nat)
    requires n <= |req.pkglist|
    requires Missing(req, n) == []
    ensures |Routed(req, n, ToApt)| + |Routed(req, n, ToMpr)| == n
  {
    if n > 0 {
      assert Missing(req, n - 1) == [];
      RoutedSizes(req, n - 1);
    }
  }

  /** The outcome of validation and partition: the two lists, or the unknown names. */
  function Plan(req: Request): Result<(seq<string>, seq<string>), InstallError> {
    var missing := Missing(req, |req.pkglist|);
    if |missing| > 0 then Err(Unfindable(missing))
    else Ok((Routed(req, |req.pkglist|, ToApt), Routed(req, |req.pkglist|, ToMpr)))
  }

  /** No answer is consulted when a name is unknown: the same reports whatever the user would
      answer. */
  lemma AbortBeforePrompt(req: Request, answer: nat -> string)
    requires Plan(req).Err?
    ensures Plan(req.(answer := answer)) == Plan(req)
  {
    var req' := req.(answer := answer);
    assert forall n :: 0 <= n <= |req.pkglist| ==> Missing(req', n) == Missing(req, n) by {
      forall n | 0 <= n <= |req.pkglist|
        ensures Missing(req', n) == Missing(req, n)
      {
        MissingSame(req, req', n);
      }
    }
  }

  lemma {:induction false} MissingSame(req: Request, req': Request, n: nat)
    requires req'.pkglist == req.pkglist && req'.apt == req.apt && req'.mpr == req.mpr
    requires n <= |req.pkglist|
    ensures Missing(req', n) == Missing(req, n)
  {
    if n > 0 {
      MissingSame(req, req', n - 1);
    }
  }

  /** The validation loop and the partition loop of `install`. */
  method PlanInstall(req: Request) returns (r: Result<(seq<string>, seq<string>), InstallError>)
    ensures r == Plan(req)
  {
    var missing: seq<string> := [];
    var unfindable := false;
    var i := 0;
    while i < |req.pkglist|
      invariant 0 <= i <= |req.pkglist|
      invariant missing == Missing(req, i) && (unfindable <==> |missing| > 0)
    {
      var pkg := req.pkglist[i];
      if pkg !in req.apt && pkg !in req.mpr {
        missing := missing + [pkg];
        unfindable := true;
      }
      i := i + 1;
    }
    if unfindable {
      return Err(Unfindable(missing));
    }
    var aptPkgs: seq<string> := [];
    var mprPkgs: seq<string> := [];
    i := 0;
    while i < |req.pkglist|
      invariant 0 <= i <= |req.pkglist|
      invariant aptPkgs == Routed(req, i, ToApt) && mprPkgs == Routed(req, i, ToMpr)
    {
      var pkg := req.pkglist[i];
      if pkg in req.apt && pkg in req.mpr {
        if req.answer(i) == "APT" {
          aptPkgs := aptPkgs + [pkg];
        } else {
          mprPkgs := mprPkgs + [pkg];
        }
      } else if pkg in req.apt {
        aptPkgs := aptPkgs + [pkg];
      } else if pkg in req.mpr {
        mprPkgs := mprPkgs + [pkg];
      }
      i := i + 1;
    }
    r := Ok((aptPkgs, mprPkgs));
  }

  // ---------------------------------------------------------------------------------------
  // Marking the APT names (lines 63-73)

  /** How many names are marked before the first one the engine refuses. */
  function Accepted(names: seq<string>, markOk: string -> bool): (k: nat)
    ensures k <= |names|
    ensures forall i :: 0 <= i < k ==> markOk(names[i])
    ensures k < |names| ==> !markOk(names[k])
  {
    if |names| == 0 || !markOk(names[0]) then 0
    else
      var k := Accepted(names[1..], markOk);
      assert forall i :: 1 <= i <= k ==> names[i] == names[1..][i - 1];
      k + 1
  }

  /** The marks after `mark_install(false, true)` on each of `names`: a manual install. */
  function MarkedManual(marks: map<string, Mark>, names: seq<string>): (r: map<string, Mark>)
    ensures r.Keys == marks.Keys + set i | 0 <= i < |names| :: names[i]
  {
    if |names| == 0 then marks
    else MarkedManual(marks, names[..|names| - 1])[names[|names| - 1] := Install(false)]
  }

  /** A marked name is a manual install, and every other name keeps its mark. */
  lemma {:induction false} MarkedManualSpec(marks: map<string, Mark>, names: seq<string>, x: string)
    requires x in marks
    ensures MarkedManual(marks, names)[x] == if x in names then Install(false) else marks[x]
  {
    if |names| > 0 {
      var init := names[..|names| - 1];
      MarkedManualSpec(marks, init, x);
      assert names == init + [names[|names| - 1]];
    }
  }

  /** The marking loop: the names before the first refused one are marked for a manual
      install; a refusal ends the command. */
  method MarkAll(apt: AptEngine, names: seq<string>, markOk: string -> bool) returns (r: Result<(), InstallError>)
    requires forall i :: 0 <= i < |names| ==> names[i] in apt.marks
    modifies apt
    ensures var k := Accepted(names, markOk);
            && apt.marks == MarkedManual(old(apt.marks), names[..k])
            && (r.Ok? <==> k == |names|)
            && (r.Err? ==> r.error == MarkRefused(names[k]))
  {
    ghost var marks0 := apt.marks;
    ghost var k := Accepted(names, markOk);
    var i := 0;
    while i < |names|
      invariant 0 <= i <= k
      invariant apt.marks == MarkedManual(marks0, names[..i])
      invariant apt.marks.Keys == marks0.Keys
    {
      assert names[..i + 1][..i] == names[..i];
      if !markOk(names[i]) {
        return Err(MarkRefused(names[i]));
      }
      apt.MarkInstall(names[i], true);
      i := i + 1;
    }
    r := Ok(());
  }

  /** `install` up to the ordering of the MPR names: validation, partition and marking. The
      MPR names returned are the list `order_mpr_packages` receives. */
  method RunInstall(apt: AptEngine, mpr: set<string>, pkglist: seq<string>, answer: nat -> string, markOk: string -> bool)
    returns (r: Result<seq<string>, InstallError>)
    modifies apt
    ensures var req := Request(pkglist, old(apt.marks).Keys, mpr, answer);
            match Plan(req)
            case Err(e) => r == Err(e) && apt.marks == old(apt.marks)
            case Ok((aptPkgs, mprPkgs)) =>
              var k := Accepted(aptPkgs, markOk);
              && apt.marks == MarkedManual(old(apt.marks), aptPkgs[..k])
              && r == (if k == |aptPkgs| then Ok(mprPkgs) else Err(MarkRefused(aptPkgs[k])))
  {
    var req := Request(pkglist, apt.marks.Keys, mpr, answer);
    var plan := PlanInstall(req);
    if plan.Err? {
      return Err(plan.error);
    }
    var (aptPkgs, mprPkgs) := plan.value;
    forall i | 0 <= i < |aptPkgs|
      ensures aptPkgs[i] in apt.marks
    {
      RoutedMembers(req, |pkglist|, aptPkgs[i]);
    }
    var marked := MarkAll(apt, aptPkgs, markOk);
    if marked.Err? {
      return Err(marked.error);
    }
    r := Ok(mprPkgs);
  }
}
