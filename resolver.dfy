/** The MPR dependency resolver of `src/install_util.rs`: `resolve_mpr_package` walks an MPR
    package's dependency groups, tries each group's `|`-separated alternatives left to right,
    prefers an APT package and marks it for installation, and otherwise recurses into the
    MPR package of that name; `order_mpr_packages` runs it on every requested package.

    The APT engine is reduced to its marking state (a class whose only field is the map of
    marks); the merged cache, the dependency-string parser, the version comparator and the
    engine's verdict on `mark_install` are opaque functions carried by a `Catalog`. */
module MprResolver {
  import opened Wrappers
  import opened Text

  /** A `(distro, arch)` selector of a makedeb variable such as `focal_depends_amd64`. */
  datatype Key = Key(distro: Option<string>, arch: Option<string>)

  /** An MPR package: each dependency relation maps the selectors it is defined for to its
      list of dependency groups; `get_depends(distro, arch)` is a lookup in `depends`. */
  datatype MprRecord = MprRecord(
    pkgname: string,
    version: string,
    depends: map<Key, seq<string>>,
    makedepends: map<Key, seq<string>>,
    checkdepends: map<Key, seq<string>>,
    conflicts: map<Key, seq<string>>)

  /** What `SplitPackage::new` makes of one alternative such as `foo>=1.2`. */
  datatype Dep = Dep(pkgname: string, operator: Option<string>, version: Option<string>)

  /** The marking state of a package in the APT engine. `Install(auto)` is a new install,
      `auto` telling whether it is marked as automatically installed. */
  datatype Mark = Keep | Install(auto: bool) | OtherChange

  /** Everything the resolver reads and does not change. */
  datatype Catalog = Catalog(
    mpr: map<string, MprRecord>,        // `cache.mpr_cache().packages()`
    aptPkg: string -> Option<string>,   // `cache.get_apt_pkg`: the APT entry's name, if any
    candidate: string -> Option<string>,// the version of an APT package's candidate
    parse: string -> Dep,               // `SplitPackage::new`
    satisfies: (string, string, string) -> bool, // `check_version_requirement(actual, op, wanted)`
    markable: string -> bool,           // the verdict of `mark_install(true, false)`
    distro: string,                     // `get_distro_arch_info`
    arch: string)

  /** How resolution ends in an error. Every one of these stops the program: a diagnostic
      and an exit code, or a panic on an `unwrap`. */
  datatype ResolveError =
    | RecursionLimit(limit: int)          // lines 132-138
    | Unsatisfied(group: string, pkg: string) // lines 246-253
    | MissingMprPackage(name: string)     // `unwrap` at line 143
    | MissingAptPackage(name: string)     // `unwrap` at line 197
    | MissingCandidate(name: string)      // `unwrap` at line 200
    | MissingOperator(alternative: string)// `dep.operator.unwrap()` at lines 203, 228
    | MarkFailed(name: string)            // `then_some(()).unwrap()` at line 215

  /** The result of resolving a package and the marks it leaves behind. */
  datatype Outcome = Outcome(result: Result<seq<string>, ResolveError>, marks: map<string, Mark>)

  /** The result of trying alternatives: `Ok(true)` once one satisfied the group, `Ok(false)`
      when they fell through; `found` is the list of MPR packages collected so far. */
  datatype AltOutcome = AltOutcome(result: Result<bool, ResolveError>, found: seq<string>, marks: map<string, Mark>)

  /** The default of `APT::pkgPackageManager::MaxLoopCount` (line 266). */
  const DefaultMaxLoopCount: int := 50

  /** The APT engine's marks, the only state the resolver changes. */
  class AptEngine {
    var marks: map<string, Mark>

    constructor (initial: map<string, Mark>)
      ensures marks == initial
    {
      marks := initial;
    }

    /** `mark_install(auto_inst, from_user)` once the engine has accepted it; the marks it
        places on other packages are not part of this model. */
    method MarkInstall(name: string, fromUser: bool)
      requires name in marks
      modifies this
      ensures marks == old(marks)[name := Install(!fromUser)]
    {
      marks := marks[name := Install(!fromUser)];
    }
  }

  // ---------------------------------------------------------------------------------------
  // Selecting the dependency lists (lines 146-180)

  /** The selectors in the order makedeb resolves distro and architecture variables. */
  function FallbackKeys(distro: string, arch: string): seq<Key> {
    [Key(Some(distro), Some(arch)), Key(Some(distro), None), Key(None, Some(arch)), Key(None, None)]
  }

  /** The value under the first of `keys` that is present. */
  function FirstPresent(rel: map<Key, seq<string>>, keys: seq<Key>): Option<seq<string>> {
    if |keys| == 0 then None
    else if keys[0] in rel then Some(rel[keys[0]])
    else FirstPresent(rel, keys[1..])
  }

  /** Some list is found iff one of the keys is present, and it is the one under the
      first present key. */
  lemma {:induction false} FirstPresentSpec(rel: map<Key, seq<string>>, keys: seq<Key>)
    ensures FirstPresent(rel, keys).Some? <==> exists i :: 0 <= i < |keys| && keys[i] in rel
    ensures FirstPresent(rel, keys).Some? ==>
              exists i :: && 0 <= i < |keys| && keys[i] in rel
                          && FirstPresent(rel, keys).value == rel[keys[i]]
                          && forall j :: 0 <= j < i ==> keys[j] !in rel
  {
    if |keys| > 0 {
      if keys[0] !in rel {
        FirstPresentSpec(rel, keys[1..]);
        var r := FirstPresent(rel, keys[1..]);
        assert forall i :: 1 <= i < |keys| ==> keys[i] == keys[1..][i - 1];
        if r.Some? {
          var i :| && 0 <= i < |keys[1..]| && keys[1..][i] in rel && r.value == rel[keys[1..][i]]
                   && forall j :: 0 <= j < i ==> keys[1..][j] !in rel;
          assert forall j :: 0 <= j < i + 1 ==> keys[j] !in rel by {
            forall j | 0 <= j < i + 1 ensures keys[j] !in rel {
              if j > 0 { assert keys[j] == keys[1..][j - 1]; }
            }
          }
          assert keys[i + 1] == keys[1..][i];
        }
      }
    }
  }

  /** The `if let … else if let …` chain of lines 159-166 and 172-179: the list under
      `(distro, arch)`, else `(distro, –)`, else `(–, arch)`, else `(–, –)`. */
  function Select(rel: map<Key, seq<string>>, distro: string, arch: string): Option<seq<string>> {
    if Key(Some(distro), Some(arch)) in rel then Some(rel[Key(Some(distro), Some(arch))])
    else if Key(Some(distro), None) in rel then Some(rel[Key(Some(distro), None)])
    else if Key(None, Some(arch)) in rel then Some(rel[Key(None, Some(arch))])
    else if Key(None, None) in rel then Some(rel[Key(None, None)])
    else None
  }

  /** The chain is the ordered lookup over the four selectors. */
  lemma SelectIsFallback(rel: map<Key, seq<string>>, distro: string, arch: string)
    ensures Select(rel, distro, arch) == FirstPresent(rel, FallbackKeys(distro, arch))
  {
    var keys := FallbackKeys(distro, arch);
    var k1 := keys[1..];
    var k2 := k1[1..];
    var k3 := k2[1..];
    assert k1[0] == Key(Some(distro), None);
    assert k2[0] == Key(None, Some(arch));
    assert k3 == [Key(None, None)] && k3[1..] == [];
    assert FirstPresent(rel, k3[1..]) == None;
    assert FirstPresent(rel, k2) == if k2[0] in rel then Some(rel[k2[0]]) else FirstPresent(rel, k3);
    assert FirstPresent(rel, k1) == if k1[0] in rel then Some(rel[k1[0]]) else FirstPresent(rel, k2);
  }

  /** What one relation contributes: its selected list, or nothing. */
  function Chosen(rel: map<Key, seq<string>>, distro: string, arch: string): seq<string> {
    Select(rel, distro, arch).GetOr([])
  }

  /** The dependency groups: the selected `depends`, `makedepends` and `checkdepends` lists,
      in that order. */
  function DepGroups(rec: MprRecord, distro: string, arch: string): seq<string> {
    Chosen(rec.depends, distro, arch) + Chosen(rec.makedepends, distro, arch)
      + Chosen(rec.checkdepends, distro, arch)
  }

  /** Lines 149-168: the loop over the three `get_*depends` functions appending to
      `dep_groups`. */
  method SelectDepGroups(rec: MprRecord, distro: string, arch: string) returns (depGroups: seq<string>)
    ensures depGroups == DepGroups(rec, distro, arch)
  {
    var relations := [rec.depends, rec.makedepends, rec.checkdepends];
    ghost var chosen := [Chosen(rec.depends, distro, arch), Chosen(rec.makedepends, distro, arch),
                         Chosen(rec.checkdepends, distro, arch)];
    depGroups := [];
    var i := 0;
    while i < |relations|
      invariant 0 <= i <= |relations|
      invariant depGroups == Concat(chosen[..i])
    {
      assert chosen[..i + 1][..i] == chosen[..i];
      var selected := Select(relations[i], distro, arch);
      if selected.Some? {
        depGroups := depGroups + selected.value;
      }
      i := i + 1;
    }
    assert chosen[..3] == chosen;
    assert chosen[..2] == [chosen[0], chosen[1]];
    assert chosen[..2][..1] == [chosen[0]];
    assert [chosen[0]][..0] == [];
    assert Concat(chosen[..2][..1]) == chosen[0];
    assert Concat(chosen[..2]) == chosen[0] + chosen[1];
    assert Concat(chosen) == chosen[0] + chosen[1] + chosen[2];
  }

  /** Lines 170-180: the conflicts, selected the same way and never used afterwards. */
  function Conflicts(rec: MprRecord, distro: string, arch: string): seq<string> {
    Chosen(rec.conflicts, distro, arch)
  }

  // ---------------------------------------------------------------------------------------
  // The resolver as a function of the marks before it

  /** The recursion budget left at `depth`. */
  function Measure(depth: int, limit: int): nat {
    if depth > limit then 0 else limit - depth + 1
  }

  /** Lines 196-208: whether the APT candidate satisfies the alternative's version bound. */
  function AptVersionOk(cat: Catalog, dep: Dep, alt: string, name: string): Result<bool, ResolveError> {
    if dep.version.None? then Ok(true)
    else if cat.candidate(name).None? then Err(MissingCandidate(name))
    else if dep.operator.None? then Err(MissingOperator(alt))
    else Ok(cat.satisfies(cat.candidate(name).value, dep.operator.value, dep.version.value))
  }

  /** Lines 223-233: the same check against the MPR package's version. */
  function MprVersionOk(cat: Catalog, dep: Dep, alt: string, version: string): Result<bool, ResolveError> {
    if dep.version.None? then Ok(true)
    else if dep.operator.None? then Err(MissingOperator(alt))
    else Ok(cat.satisfies(version, dep.operator.value, dep.version.value))
  }

  /** `resolve_mpr_package(pkg, depth, limit)` started with `marks`. */
  function Resolve(cat: Catalog, marks: map<string, Mark>, pkg: string, depth: int, limit: int): Outcome
    decreases Measure(depth, limit), 3, 0
  {
    if depth > limit then Outcome(Err(RecursionLimit(limit)), marks)
    else if pkg !in cat.mpr then Outcome(Err(MissingMprPackage(pkg)), marks)
    else Groups(cat, marks, pkg, DepGroups(cat.mpr[pkg], cat.distro, cat.arch), [], depth, limit)
  }

  /** The loop over the dependency groups (lines 183-254), from `acc` collected so far. */
  function Groups(cat: Catalog, marks: map<string, Mark>, pkg: string, groups: seq<string>,
                  acc: seq<string>, depth: int, limit: int): Outcome
    requires depth <= limit
    decreases Measure(depth, limit), 2, |groups|
  {
    if |groups| == 0 then Outcome(Ok(acc), marks)
    else
      var a := Alternatives(cat, marks, Split(groups[0], '|'), acc, depth, limit);
      match a.result
      case Err(e) => Outcome(Err(e), a.marks)
      case Ok(good) =>
        if good then Groups(cat, a.marks, pkg, groups[1..], a.found, depth, limit)
        else Outcome(Err(Unsatisfied(groups[0], pkg)), a.marks)
  }

  /** The loop over one group's alternatives (lines 187-244); it stops at the first that
      satisfies the group or fails. */
  function Alternatives(cat: Catalog, marks: map<string, Mark>, alts: seq<string>,
                        acc: seq<string>, depth: int, limit: int): AltOutcome
    requires depth <= limit
    decreases Measure(depth, limit), 1, |alts|
  {
    if |alts| == 0 then AltOutcome(Ok(false), acc, marks)
    else
      var t := TryAlternative(cat, marks, alts[0], acc, depth, limit);
      if t.result == Ok(false) then Alternatives(cat, t.marks, alts[1..], t.found, depth, limit)
      else t
  }

  /** One alternative (lines 188-243): an APT package of that name is tried and the MPR
      package only when there is none. */
  function TryAlternative(cat: Catalog, marks: map<string, Mark>, alt: string,
                          acc: seq<string>, depth: int, limit: int): AltOutcome
    requires depth <= limit
    decreases Measure(depth, limit), 0, 0
  {
    var dep := cat.parse(alt);
    match cat.aptPkg(dep.pkgname)
    case Some(name) =>
      if name !in marks then AltOutcome(Err(MissingAptPackage(name)), acc, marks)
      else (
        match AptVersionOk(cat, dep, alt, name)
        case Err(e) => AltOutcome(Err(e), acc, marks)
        case Ok(ok) =>
          if ok && marks[name].Install? then AltOutcome(Ok(true), acc, marks)
          else if ok && marks[name].Keep? then
            if cat.markable(name) then AltOutcome(Ok(true), acc, marks[name := Install(true)])
            else AltOutcome(Err(MarkFailed(name)), acc, marks)
          else AltOutcome(Ok(false), acc, marks))
    case None =>
      if dep.pkgname !in cat.mpr then AltOutcome(Ok(false), acc, marks)
      else
        var rec := cat.mpr[dep.pkgname];
        match MprVersionOk(cat, dep, alt, rec.version)
        case Err(e) => AltOutcome(Err(e), acc, marks)
        case Ok(ok) =>
          if !ok then AltOutcome(Ok(false), acc, marks)
          else
            var sub := Resolve(cat, marks, rec.pkgname, depth + 1, limit);
            match sub.result
            case Err(e) => AltOutcome(Err(e), acc, sub.marks)
            case Ok(found) => AltOutcome(Ok(false), acc + found, sub.marks)
  }

  // ---------------------------------------------------------------------------------------
  // The resolver as the source writes it

  /** `resolve_mpr_package`: the result and the new marks are those of `Resolve`. */
  method ResolveMprPackage(cat: Catalog, apt: AptEngine, pkg: string, depth: int, limit: int)
    returns (r: Result<seq<string>, ResolveError>)
    modifies apt
    ensures Resolve(cat, old(apt.marks), pkg, depth, limit) == Outcome(r, apt.marks)
    decreases Measure(depth, limit)
  {
    if depth > limit {
      return Err(RecursionLimit(limit));
    }
    var mprPkglist: seq<string> := [];
    if pkg !in cat.mpr {
      return Err(MissingMprPackage(pkg));
    }
    var mprPkg := cat.mpr[pkg];
    var depGroups := SelectDepGroups(mprPkg, cat.distro, cat.arch);
    var conflicts := Conflicts(mprPkg, cat.distro, cat.arch);

    ghost var marks0 := apt.marks;
    var gi := 0;
    while gi < |depGroups|
      invariant 0 <= gi <= |depGroups|
      invariant Groups(cat, marks0, pkg, depGroups, [], depth, limit)
             == Groups(cat, apt.marks, pkg, depGroups[gi..], mprPkglist, depth, limit)
    {
      var depGroup := depGroups[gi];
      var goodDepFound := false;
      var deps := Split(depGroup, '|');
      ghost var acc0, altMarks0 := mprPkglist, apt.marks;
      var ai := 0;
      while ai < |deps| && !goodDepFound
        invariant 0 <= ai <= |deps|
        invariant !goodDepFound ==>
          Alternatives(cat, altMarks0, deps, acc0, depth, limit)
          == Alternatives(cat, apt.marks, deps[ai..], mprPkglist, depth, limit)
        invariant goodDepFound ==>
          Alternatives(cat, altMarks0, deps, acc0, depth, limit) == AltOutcome(Ok(true), mprPkglist, apt.marks)
      {
        var dep := cat.parse(deps[ai]);
        var cacheAptPkg := cat.aptPkg(dep.pkgname);
        if cacheAptPkg.Some? {
          var name := cacheAptPkg.value;
          if name !in apt.marks {
            return Err(MissingAptPackage(name));
          }
          var versionSatisfied: bool;
          if dep.version.Some? {
            if cat.candidate(name).None? {
              return Err(MissingCandidate(name));
            }
            if dep.operator.None? {
              return Err(MissingOperator(deps[ai]));
            }
            versionSatisfied := cat.satisfies(cat.candidate(name).value, dep.operator.value, dep.version.value);
          } else {
            versionSatisfied := true;
          }
          if versionSatisfied {
            if apt.marks[name].Install? {
              goodDepFound := true;
            } else if apt.marks[name].Keep? {
              if !cat.markable(name) {
                return Err(MarkFailed(name));
              }
              apt.MarkInstall(name, false);
              goodDepFound := true;
            }
          }
        } else if dep.pkgname in cat.mpr {
          var found := cat.mpr[dep.pkgname];
          var versionSatisfied: bool;
          if dep.version.Some? {
            if dep.operator.None? {
              return Err(MissingOperator(deps[ai]));
            }
            versionSatisfied := cat.satisfies(found.version, dep.operator.value, dep.version.value);
          } else {
            versionSatisfied := true;
          }
          if versionSatisfied {
            var sub := ResolveMprPackage(cat, apt, found.pkgname, depth + 1, limit);
            if sub.Err? {
              return Err(sub.error);
            }
            mprPkglist := mprPkglist + sub.value;
          }
        }
        ai := ai + 1;
      }

      if !goodDepFound {
        return Err(Unsatisfied(depGroup, pkg));
      }
      gi := gi + 1;
    }
    return Ok(mprPkglist);
  }

  // ---------------------------------------------------------------------------------------
  // `order_mpr_packages` (lines 259-279)

  /** The recursion limit: the configured `APT::pkgPackageManager::MaxLoopCount`, else 50. */
  function Limit(configured: Option<int>): int {
    configured.GetOr(DefaultMaxLoopCount)
  }

  /** Each requested package followed by what resolving it at depth 1 returns. */
  function Order(cat: Catalog, marks: map<string, Mark>, pkgs: seq<string>, limit: int, acc: seq<string>): Outcome
    decreases |pkgs|
  {
    if |pkgs| == 0 then Outcome(Ok(acc), marks)
    else
      var o := Resolve(cat, marks, pkgs[0], 1, limit);
      match o.result
      case Err(e) => Outcome(Err(e), o.marks)
      case Ok(deps) => Order(cat, o.marks, pkgs[1..], limit, acc + [pkgs[0]] + deps)
  }

  method OrderMprPackages(cat: Catalog, apt: AptEngine, pkglist: seq<string>, configured: Option<int>)
    returns (r: Result<seq<string>, ResolveError>)
    modifies apt
    ensures Order(cat, old(apt.marks), pkglist, Limit(configured), []) == Outcome(r, apt.marks)
  {
    var mprPkglist: seq<string> := [];
    var recursionLimit := Limit(configured);
    ghost var marks0 := apt.marks;
    var i := 0;
    while i < |pkglist|
      invariant 0 <= i <= |pkglist|
      invariant Order(cat, marks0, pkglist, recursionLimit, [])
             == Order(cat, apt.marks, pkglist[i..], recursionLimit, mprPkglist)
    {
      assert pkglist[i..][1..] == pkglist[i + 1..];
      mprPkglist := mprPkglist + [pkglist[i]];
      var deps := ResolveMprPackage(cat, apt, pkglist[i], 1, recursionLimit);
      if deps.Err? {
        return Err(deps.error);
      }
      mprPkglist := mprPkglist + deps.value;
      i := i + 1;
    }
    return Ok(mprPkglist);
  }

  // ---------------------------------------------------------------------------------------
  // Properties

  /** The marks after resolution: the same packages, each with its mark unchanged except
      that a package marked keep may now be marked for an automatic install. */
  predicate KeepToInstall(m0: map<string, Mark>, m1: map<string, Mark>) {
    && m0.Keys == m1.Keys
    && forall n :: n in m0 ==> m1[n] == m0[n] || (m0[n] == Keep && m1[n] == Install(true))
  }

  lemma KeepToInstallTrans(m0: map<string, Mark>, m1: map<string, Mark>, m2: map<string, Mark>)
    requires KeepToInstall(m0, m1) && KeepToInstall(m1, m2)
    ensures KeepToInstall(m0, m2)
  {
  }

  /** Resolution only turns keep marks into install marks, and its list is always empty: it
      only ever appends what recursive calls return to an empty list. */
  lemma {:induction false} ResolveFacts(cat: Catalog, marks: map<string, Mark>, pkg: string, depth: int, limit: int)
    ensures KeepToInstall(marks, Resolve(cat, marks, pkg, depth, limit).marks)
    ensures Resolve(cat, marks, pkg, depth, limit).result.Ok? ==> Resolve(cat, marks, pkg, depth, limit).result.value == []
    decreases Measure(depth, limit), 3, 0
  {
    if depth <= limit && pkg in cat.mpr {
      GroupsFacts(cat, marks, pkg, DepGroups(cat.mpr[pkg], cat.distro, cat.arch), [], depth, limit);
    }
  }

  lemma {:induction false} GroupsFacts(cat: Catalog, marks: map<string, Mark>, pkg: string, groups: seq<string>,
                                       acc: seq<string>, depth: int, limit: int)
    requires depth <= limit
    ensures KeepToInstall(marks, Groups(cat, marks, pkg, groups, acc, depth, limit).marks)
    ensures Groups(cat, marks, pkg, groups, acc, depth, limit).result.Ok? ==>
              Groups(cat, marks, pkg, groups, acc, depth, limit).result.value == acc
    decreases Measure(depth, limit), 2, |groups|
  {
    if |groups| > 0 {
      var a := Alternatives(cat, marks, Split(groups[0], '|'), acc, depth, limit);
      AltFacts(cat, marks, Split(groups[0], '|'), acc, depth, limit);
      if a.result == Ok(true) {
        GroupsFacts(cat, a.marks, pkg, groups[1..], a.found, depth, limit);
        KeepToInstallTrans(marks, a.marks, Groups(cat, a.marks, pkg, groups[1..], a.found, depth, limit).marks);
      }
    }
  }

  lemma {:induction false} AltFacts(cat: Catalog, marks: map<string, Mark>, alts: seq<string>,
                                    acc: seq<string>, depth: int, limit: int)
    requires depth <= limit
    ensures KeepToInstall(marks, Alternatives(cat, marks, alts, acc, depth, limit).marks)
    ensures Alternatives(cat, marks, alts, acc, depth, limit).result.Ok? ==>
              Alternatives(cat, marks, alts, acc, depth, limit).found == acc
    decreases Measure(depth, limit), 1, |alts|
  {
    if |alts| > 0 {
      var t := TryAlternative(cat, marks, alts[0], acc, depth, limit);
      TryFacts(cat, marks, alts[0], acc, depth, limit);
      if t.result == Ok(false) {
        AltFacts(cat, t.marks, alts[1..], t.found, depth, limit);
        KeepToInstallTrans(marks, t.marks, Alternatives(cat, t.marks, alts[1..], t.found, depth, limit).marks);
      }
    }
  }

  lemma {:induction false} TryFacts(cat: Catalog, marks: map<string, Mark>, alt: string,
                                    acc: seq<string>, depth: int, limit: int)
    requires depth <= limit
    ensures KeepToInstall(marks, TryAlternative(cat, marks, alt, acc, depth, limit).marks)
    ensures TryAlternative(cat, marks, alt, acc, depth, limit).result.Ok? ==>
              TryAlternative(cat, marks, alt, acc, depth, limit).found == acc
    decreases Measure(depth, limit), 0, 0
  {
    var dep := cat.parse(alt);
    if cat.aptPkg(dep.pkgname).None? && dep.pkgname in cat.mpr {
      var rec := cat.mpr[dep.pkgname];
      if MprVersionOk(cat, dep, alt, rec.version) == Ok(true) {
        ResolveFacts(cat, marks, rec.pkgname, depth + 1, limit);
        assert acc + [] == acc;
      }
    }
  }

  /** `alt` names an APT package whose candidate meets the alternative's version bound. */
  predicate AptSatisfies(cat: Catalog, alt: string) {
    var dep := cat.parse(alt);
    cat.aptPkg(dep.pkgname).Some? && AptVersionOk(cat, dep, alt, cat.aptPkg(dep.pkgname).value) == Ok(true)
  }

  /** Some alternative of `group` is an APT package that satisfies it. */
  predicate GroupHasApt(cat: Catalog, group: string) {
    exists k :: 0 <= k < |Split(group, '|')| && AptSatisfies(cat, Split(group, '|')[k])
  }

  /** Alternatives satisfy their group only through an APT package: an MPR alternative is
      resolved recursively but never ends the group. */
  lemma {:induction false} AcceptedOnlyByApt(cat: Catalog, marks: map<string, Mark>, alts: seq<string>,
                                             acc: seq<string>, depth: int, limit: int)
    requires depth <= limit
    requires Alternatives(cat, marks, alts, acc, depth, limit).result == Ok(true)
    ensures exists k :: 0 <= k < |alts| && AptSatisfies(cat, alts[k])
    decreases |alts|
  {
    var t := TryAlternative(cat, marks, alts[0], acc, depth, limit);
    if t.result == Ok(false) {
      AcceptedOnlyByApt(cat, t.marks, alts[1..], t.found, depth, limit);
      var k :| 0 <= k < |alts[1..]| && AptSatisfies(cat, alts[1..][k]);
      assert alts[k + 1] == alts[1..][k];
    } else {
      assert AptSatisfies(cat, alts[0]);
    }
  }

  lemma {:induction false} GroupsNeedApt(cat: Catalog, marks: map<string, Mark>, pkg: string, groups: seq<string>,
                                         acc: seq<string>, depth: int, limit: int)
    requires depth <= limit
    requires Groups(cat, marks, pkg, groups, acc, depth, limit).result.Ok?
    ensures forall i :: 0 <= i < |groups| ==> GroupHasApt(cat, groups[i])
    decreases |groups|
  {
    if |groups| > 0 {
      var a := Alternatives(cat, marks, Split(groups[0], '|'), acc, depth, limit);
      AcceptedOnlyByApt(cat, marks, Split(groups[0], '|'), acc, depth, limit);
      GroupsNeedApt(cat, a.marks, pkg, groups[1..], a.found, depth, limit);
      forall i | 0 <= i < |groups| ensures GroupHasApt(cat, groups[i]) {
        if i > 0 {
          assert groups[i] == groups[1..][i - 1];
        }
      }
    }
  }

  /** A package resolves only if every one of its dependency groups has a satisfying APT
      alternative; a group that only the MPR can satisfy makes resolution fail. */
  lemma ResolveNeedsApt(cat: Catalog, marks: map<string, Mark>, pkg: string, depth: int, limit: int)
    requires Resolve(cat, marks, pkg, depth, limit).result.Ok?
    ensures depth <= limit && pkg in cat.mpr
    ensures forall g :: g in DepGroups(cat.mpr[pkg], cat.distro, cat.arch) ==> GroupHasApt(cat, g)
  {
    GroupsNeedApt(cat, marks, pkg, DepGroups(cat.mpr[pkg], cat.distro, cat.arch), [], depth, limit);
  }

  /** The alternatives after the one that ends the group, accepted or failed, are never
      consulted. */
  lemma {:induction false} AlternativesStop(cat: Catalog, marks: map<string, Mark>, alts: seq<string>,
                                            acc: seq<string>, depth: int, limit: int, k: nat)
    requires depth <= limit && k <= |alts|
    requires Alternatives(cat, marks, alts[..k], acc, depth, limit).result != Ok(false)
    ensures Alternatives(cat, marks, alts, acc, depth, limit) == Alternatives(cat, marks, alts[..k], acc, depth, limit)
    decreases k
  {
    assert k > 0;
    assert alts[..k][0] == alts[0];
    var t := TryAlternative(cat, marks, alts[0], acc, depth, limit);
    if t.result == Ok(false) {
      assert alts[..k][1..] == alts[1..][..k - 1];
      AlternativesStop(cat, t.marks, alts[1..], t.found, depth, limit, k - 1);
    }
  }

  /** An alternative that names an APT package is decided by APT alone: the MPR is not
      consulted and nothing is added to the list. */
  lemma AptShadowsMpr(cat: Catalog, mpr: map<string, MprRecord>, marks: map<string, Mark>, alt: string,
                      acc: seq<string>, depth: int, limit: int)
    requires depth <= limit && cat.aptPkg(cat.parse(alt).pkgname).Some?
    ensures TryAlternative(cat, marks, alt, acc, depth, limit) == TryAlternative(cat.(mpr := mpr), marks, alt, acc, depth, limit)
    ensures TryAlternative(cat, marks, alt, acc, depth, limit).found == acc
  {
  }

  /** The MPR catalog with every package's conflicts removed. */
  function DropConflicts(mpr: map<string, MprRecord>): (r: map<string, MprRecord>)
    ensures r.Keys == mpr.Keys
  {
    map n | n in mpr :: mpr[n].(conflicts := map[])
  }

  /** Conflicts are selected but play no part in resolution. */
  lemma {:induction false} ConflictsUnused(cat: Catalog, marks: map<string, Mark>, pkg: string, depth: int, limit: int)
    ensures Resolve(cat, marks, pkg, depth, limit) == Resolve(cat.(mpr := DropConflicts(cat.mpr)), marks, pkg, depth, limit)
    decreases Measure(depth, limit), 3, 0
  {
    if depth <= limit && pkg in cat.mpr {
      var groups := DepGroups(cat.mpr[pkg], cat.distro, cat.arch);
      assert DepGroups(DropConflicts(cat.mpr)[pkg], cat.distro, cat.arch) == groups;
      GroupsConflictsUnused(cat, marks, pkg, groups, [], depth, limit);
    }
  }

  lemma {:induction false} GroupsConflictsUnused(cat: Catalog, marks: map<string, Mark>, pkg: string, groups: seq<string>,
                                                 acc: seq<string>, depth: int, limit: int)
    requires depth <= limit
    ensures Groups(cat, marks, pkg, groups, acc, depth, limit)
         == Groups(cat.(mpr := DropConflicts(cat.mpr)), marks, pkg, groups, acc, depth, limit)
    decreases Measure(depth, limit), 2, |groups|
  {
    if |groups| > 0 {
      var a := Alternatives(cat, marks, Split(groups[0], '|'), acc, depth, limit);
      AltConflictsUnused(cat, marks, Split(groups[0], '|'), acc, depth, limit);
      if a.result == Ok(true) {
        GroupsConflictsUnused(cat, a.marks, pkg, groups[1..], a.found, depth, limit);
      }
    }
  }

  lemma {:induction false} AltConflictsUnused(cat: Catalog, marks: map<string, Mark>, alts: seq<string>,
                                              acc: seq<string>, depth: int, limit: int)
    requires depth <= limit
    ensures Alternatives(cat, marks, alts, acc, depth, limit)
         == Alternatives(cat.(mpr := DropConflicts(cat.mpr)), marks, alts, acc, depth, limit)
    decreases Measure(depth, limit), 1, |alts|
  {
    if |alts| > 0 {
      var t := TryAlternative(cat, marks, alts[0], acc, depth, limit);
      TryConflictsUnused(cat, marks, alts[0], acc, depth, limit);
      if t.result == Ok(false) {
        AltConflictsUnused(cat, t.marks, alts[1..], t.found, depth, limit);
      }
    }
  }

  lemma {:induction false} TryConflictsUnused(cat: Catalog, marks: map<string, Mark>, alt: string,
                                              acc: seq<string>, depth: int, limit: int)
    requires depth <= limit
    ensures TryAlternative(cat, marks, alt, acc, depth, limit)
         == TryAlternative(cat.(mpr := DropConflicts(cat.mpr)), marks, alt, acc, depth, limit)
    decreases Measure(depth, limit), 0, 0
  {
    var dep := cat.parse(alt);
    if cat.aptPkg(dep.pkgname).None? && dep.pkgname in cat.mpr {
      var rec := cat.mpr[dep.pkgname];
      assert DropConflicts(cat.mpr)[dep.pkgname].version == rec.version;
      assert DropConflicts(cat.mpr)[dep.pkgname].pkgname == rec.pkgname;
      ConflictsUnused(cat, marks, rec.pkgname, depth + 1, limit);
    }
  }

  /** `order_mpr_packages` returns its input names unchanged and in order, and changes no
      mark but keep to install. */
  lemma {:induction false} OrderReturnsInput(cat: Catalog, marks: map<string, Mark>, pkgs: seq<string>,
                                             limit: int, acc: seq<string>)
    ensures Order(cat, marks, pkgs, limit, acc).result.Ok? ==> Order(cat, marks, pkgs, limit, acc).result.value == acc + pkgs
    ensures KeepToInstall(marks, Order(cat, marks, pkgs, limit, acc).marks)
    decreases |pkgs|
  {
    if |pkgs| > 0 {
      var o := Resolve(cat, marks, pkgs[0], 1, limit);
      ResolveFacts(cat, marks, pkgs[0], 1, limit);
      if o.result.Ok? {
        OrderReturnsInput(cat, o.marks, pkgs[1..], limit, acc + [pkgs[0]] + o.result.value);
        assert acc + [pkgs[0]] + [] + pkgs[1..] == acc + pkgs;
        KeepToInstallTrans(marks, o.marks, Order(cat, o.marks, pkgs[1..], limit, acc + [pkgs[0]] + o.result.value).marks);
      }
    }
  }

  /** Roots are resolved at depth 1, so a limit below 1 rejects any request. */
  lemma OrderBelowLimit(cat: Catalog, marks: map<string, Mark>, pkgs: seq<string>, limit: int)
    requires limit < 1 && |pkgs| > 0
    ensures Order(cat, marks, pkgs, limit, []).result == Err(RecursionLimit(limit))
  {
  }
}
