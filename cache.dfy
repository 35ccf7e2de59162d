/** The merged package cache of `src/cache.rs`: APT entries (their `:arch` suffix stripped)
    followed by MPR entries, the sorted list of unique names, the map from a name to its
    entries, membership by source, the classification of APT's marked changes in
    `run_transaction`, and the five-minute rule that decides when the MPR archive is
    downloaded again.

    APT's package list arrives as a sequence of `AptPkg` values and the MPR's as a sequence
    of `MprPkg` values; the file system and the clock are the inputs of `NeedsRefresh`. */
module Cache {
  import opened Wrappers
  import opened Text

  // ---------------------------------------------------------------------------------------
  // Entities (lines 22-39, 239-258)

  datatype Source = Apt | Mpr

  /** One entry of the merged cache. `popularity` is the MPR's `f32`, kept as the token it
      prints as; `currentState` is APT's `u8` package state. */
  datatype CachePackage = CachePackage(
    pkgname: string,
    pkgbase: Option<string>,
    version: string,
    pkgdesc: Option<string>,
    arch: Option<string>,
    maintainer: Option<string>,
    numVotes: Option<nat>,
    popularity: Option<string>,
    ood: Option<nat>,
    currentState: Option<nat>,
    source: Source,
    isInstalled: Option<bool>)

  /** The candidate version APT offers for a package. */
  datatype AptCandidate = AptCandidate(version: string, summary: string, arch: string)

  /** A package of APT's cache, as far as the merge reads it. */
  datatype AptPkg = AptPkg(name: string, candidate: Option<AptCandidate>, currentState: nat, isInstalled: bool)

  /** An entry of the MPR's package archive. */
  datatype MprPkg = MprPkg(
    pkgname: string,
    pkgbase: string,
    version: string,
    pkgdesc: Option<string>,
    maintainer: Option<string>,
    numVotes: nat,
    popularity: string,
    ood: Option<nat>)

  // ---------------------------------------------------------------------------------------
  // Stripping the architecture suffix (lines 271-276)

  /** The regular expression `:.*$` matches at `i`: a colon with no newline after it, since
      `.` stops at a newline and `$` is the end of the text. */
  predicate ArchAt(s: string, i: int) {
    0 <= i < |s| && s[i] == ':' && '\n' !in s[i..]
  }

  /** The leftmost match of `:.*$` at or after `from`. */
  function FirstArch(s: string, from: nat): (r: Option<nat>)
    requires from <= |s|
    ensures r.Some? ==> from <= r.value < |s| && ArchAt(s, r.value)
    ensures forall j :: from <= j < |s| && (r.None? || j < r.value) ==> !ArchAt(s, j)
    decreases |s| - from
  {
    if from == |s| then None
    else if ArchAt(s, from) then Some(from)
    else FirstArch(s, from + 1)
  }

  /** `re.replace(name, "")`: the name without its leftmost match of `:.*$`. */
  function StripArch(s: string): (r: string)
    ensures (forall i :: 0 <= i < |s| ==> !ArchAt(s, i)) ==> r == s
    ensures forall i :: 0 <= i < |s| && ArchAt(s, i) && (forall j :: 0 <= j < i ==> !ArchAt(s, j)) ==> r == s[..i]
  {
    var m := FirstArch(s, 0);
    if m.Some? then
      assert forall i :: 0 <= i < |s| && ArchAt(s, i) && (forall j :: 0 <= j < i ==> !ArchAt(s, j)) ==> i == m.value;
      s[..m.value]
    else s
  }

  /** A name without newlines loses its first colon and everything after it. */
  lemma FirstColonStripped(s: string, i: nat)
    requires '\n' !in s
    requires i < |s| && s[i] == ':' && ':' !in s[..i]
    ensures StripArch(s) == s[..i]
  {
    assert '\n' !in s[i..];
    assert ArchAt(s, i);
    forall j | 0 <= j < i
      ensures !ArchAt(s, j)
    {
      assert s[j] == s[..i][j];
    }
  }

  /** A name without colons is kept as it is. */
  lemma NoColonKept(s: string)
    requires ':' !in s
    ensures StripArch(s) == s
  {
    assert forall i :: 0 <= i < |s| ==> !ArchAt(s, i);
  }

  /** Stripping a name without newlines leaves no colon, so stripping twice is stripping once. */
  lemma StripIdempotent(s: string)
    requires '\n' !in s
    ensures ':' !in StripArch(s)
    ensures StripArch(StripArch(s)) == StripArch(s)
  {
    if forall i :: 0 <= i < |s| ==> !ArchAt(s, i) {
      forall k | 0 <= k < |s|
        ensures s[k] != ':'
      {
        assert '\n' !in s[k..];
        assert !ArchAt(s, k);
      }
    } else {
      var i :| 0 <= i < |s| && ArchAt(s, i);
      var m := FirstArch(s, 0);
      forall k | 0 <= k < m.value
        ensures s[..m.value][k] != ':'
      {
        assert '\n' !in s[k..];
        assert !ArchAt(s, k);
      }
    }
    NoColonKept(StripArch(s));
  }

  // ---------------------------------------------------------------------------------------
  // Building the merged list (lines 267-317)

  /** The entry `Cache::new` pushes for an APT package with a candidate. */
  function AptEntry(p: AptPkg): CachePackage
    requires p.candidate.Some?
  {
    var c := p.candidate.value;
    CachePackage(StripArch(p.name), None, c.version, Some(c.summary), Some(c.arch), None, None, None, None,
                 Some(p.currentState), Apt, Some(p.isInstalled))
  }

  /** The entry `Cache::new` pushes for an MPR package. */
  function MprEntry(p: MprPkg): CachePackage {
    CachePackage(p.pkgname, Some(p.pkgbase), p.version, p.pkgdesc, None, p.maintainer, Some(p.numVotes),
                 Some(p.popularity), p.ood, None, Mpr, None)
  }

  /** `Cache::new`. `None` is the panic of `pkg.candidate().unwrap()` on an APT package
      without a candidate. */
  method NewCache(apt: seq<AptPkg>, mpr: seq<MprPkg>) returns (r: Option<seq<CachePackage>>)
    ensures r.None? <==> exists i :: 0 <= i < |apt| && apt[i].candidate.None?
    ensures r.Some? ==>
      && |r.value| == |apt| + |mpr|
      && (forall i :: 0 <= i < |apt| ==> apt[i].candidate.Some? && r.value[i] == AptEntry(apt[i]))
      && (forall j :: 0 <= j < |mpr| ==> r.value[|apt| + j] == MprEntry(mpr[j]))
      && (forall i :: 0 <= i < |r.value| ==> (r.value[i].source == Apt <==> i < |apt|))
      && (forall i :: 0 <= i < |r.value| ==> (r.value[i].pkgbase.None? <==> i < |apt|))
  {
    var packages: seq<CachePackage> := [];
    var i := 0;
    while i < |apt|
      invariant 0 <= i <= |apt| && |packages| == i
      invariant forall k :: 0 <= k < i ==> apt[k].candidate.Some? && packages[k] == AptEntry(apt[k])
    {
      if apt[i].candidate.None? {
        return None;
      }
      packages := packages + [AptEntry(apt[i])];
      i := i + 1;
    }
    var j := 0;
    while j < |mpr|
      invariant 0 <= j <= |mpr| && |packages| == |apt| + j
      invariant forall k :: 0 <= k < |apt| ==> apt[k].candidate.Some? && packages[k] == AptEntry(apt[k])
      invariant forall k :: 0 <= k < j ==> packages[|apt| + k] == MprEntry(mpr[k])
    {
      packages := packages + [MprEntry(mpr[j])];
      j := j + 1;
    }
    forall k | 0 <= k < |packages|
      ensures (packages[k].source == Apt <==> k < |apt|) && (packages[k].pkgbase.None? <==> k < |apt|)
    {
      if k >= |apt| {
        assert packages[|apt| + (k - |apt|)] == MprEntry(mpr[k - |apt|]);
      }
    }
    r := Some(packages);
  }

  // ---------------------------------------------------------------------------------------
  // Unique names (lines 321-331)

  /** The names of the entries, in order. */
  function Names(packages: seq<CachePackage>): (r: seq<string>)
    ensures |r| == |packages| && forall i :: 0 <= i < |r| ==> r[i] == packages[i].pkgname
  {
    if |packages| == 0 then [] else Names(packages[..|packages| - 1]) + [packages[|packages| - 1].pkgname]
  }

  /** Each name is at most the next one. */
  predicate Sorted(s: seq<string>) {
    forall k :: 0 < k < |s| ==> LessEq(s[k - 1], s[k])
  }

  /** Each name is below every later one: sorted and free of duplicates. */
  predicate StrictlySorted(s: seq<string>) {
    forall i, j :: 0 <= i < j < |s| ==> Less(s[i], s[j])
  }

  /** `x` put into a sorted list before the first name it is at most. */
  function Insert(s: seq<string>, x: string): (r: seq<string>)
    requires Sorted(s)
    ensures Sorted(r) && multiset(r) == multiset(s) + multiset{x}
    ensures |r| > 0 && (r[0] == x || (|s| > 0 && r[0] == s[0]))
  {
    if |s| == 0 then [x]
    else if LessEq(x, s[0]) then [x] + s
    else
      var rest := Insert(s[1..], x);
      LessTotal(x, s[0]);
      assert s == [s[0]] + s[1..];
      [s[0]] + rest
  }

  /** `sort_unstable` on the names: sorted, and holding the same names as often. */
  method SortNames(names: seq<string>) returns (sorted: seq<string>)
    ensures Sorted(sorted) && multiset(sorted) == multiset(names)
  {
    sorted := [];
    var i := 0;
    while i < |names|
      invariant 0 <= i <= |names|
      invariant Sorted(sorted) && multiset(sorted) == multiset(names[..i])
    {
      assert names[..i + 1] == names[..i] + [names[i]];
      sorted := Insert(sorted, names[i]);
      i := i + 1;
    }
    assert names[..i] == names;
  }

  /** `dedup` on a sorted list: each run of equal names kept once. */
  method DedupSorted(sorted: seq<string>) returns (out: seq<string>)
    requires Sorted(sorted)
    ensures StrictlySorted(out)
    ensures forall x :: x in out <==> x in sorted
  {
    out := [];
    var i := 0;
    while i < |sorted|
      invariant 0 <= i <= |sorted|
      invariant StrictlySorted(out)
      invariant forall x :: x in out <==> x in sorted[..i]
      invariant i > 0 <==> |out| > 0
      invariant i > 0 ==> out[|out| - 1] == sorted[i - 1]
    {
      var x := sorted[i];
      assert sorted[..i + 1] == sorted[..i] + [x];
      if |out| == 0 || out[|out| - 1] != x {
        if |out| > 0 {
          var last := out[|out| - 1];
          assert LessEq(sorted[i - 1], sorted[i]);
          assert Less(last, x);
          forall k | 0 <= k < |out| - 1
            ensures Less(out[k], x)
          {
            LessTransitive(out[k], last, x);
          }
        }
        out := out + [x];
      }
      i := i + 1;
    }
    assert sorted[..i] == sorted;
  }

  /** `get_unique_pkgnames`: every name of the cache once, in ascending order. */
  method UniquePkgnames(packages: seq<CachePackage>) returns (names: seq<string>)
    ensures StrictlySorted(names)
    ensures forall n :: n in names <==> exists i :: 0 <= i < |packages| && packages[i].pkgname == n
  {
    var all: seq<string> := [];
    var i := 0;
    while i < |packages|
      invariant 0 <= i <= |packages|
      invariant all == Names(packages[..i])
    {
      assert packages[..i + 1][..i] == packages[..i];
      all := all + [packages[i].pkgname];
      i := i + 1;
    }
    assert packages[..i] == packages;
    var sorted := SortNames(all);
    assert forall x :: x in sorted <==> x in multiset(sorted);
    names := DedupSorted(sorted);
    assert forall x :: x in all <==> x in multiset(all);
  }

  /** The first name of a strictly sorted list is below all others. */
  lemma StrictlySortedHead(s: seq<string>)
    requires StrictlySorted(s) && |s| > 0
    ensures s[0] !in s[1..]
    ensures forall x :: x in s && x != s[0] ==> Less(s[0], x)
  {
    LessIrreflexive(s[0]);
  }

  /** Two strictly sorted lists holding the same names are the same list, so the unique
      names do not depend on how `sort_unstable` orders equal names. */
  lemma {:induction false} StrictlySortedUnique(a: seq<string>, b: seq<string>)
    requires StrictlySorted(a) && StrictlySorted(b)
    requires forall x :: x in a <==> x in b
    ensures a == b
    decreases |a|
  {
    if |a| > 0 {
      assert a[0] in b;
    }
    if |b| > 0 {
      assert b[0] in a;
    }
    if |a| > 0 && |b| > 0 {
      StrictlySortedHead(a);
      StrictlySortedHead(b);
      if a[0] != b[0] {
        LessAsymmetric(a[0], b[0]);
        assert false;
      }
      assert a == [a[0]] + a[1..] && b == [b[0]] + b[1..];
      forall x
        ensures x in a[1..] <==> x in b[1..]
      {
        assert x in a <==> x in a[1..] || x == a[0];
        assert x in b <==> x in b[1..] || x == b[0];
      }
      StrictlySortedUnique(a[1..], b[1..]);
    }
  }

  // ---------------------------------------------------------------------------------------
  // Grouping by name (lines 334-347)

  /** Every entry named `n`, in cache order. */
  function WithName(packages: seq<CachePackage>, n: string): seq<CachePackage> {
    if |packages| == 0 then []
    else
      var last := packages[|packages| - 1];
      WithName(packages[..|packages| - 1], n) + (if last.pkgname == n then [last] else [])
  }

  /** The entries under `n` are exactly the cache's entries named `n`. */
  lemma {:induction false} WithNameMembers(packages: seq<CachePackage>, n: string, p: CachePackage)
    ensures p in WithName(packages, n) <==> p in packages && p.pkgname == n
  {
    if |packages| > 0 {
      var init := packages[..|packages| - 1];
      WithNameMembers(init, n, p);
      assert packages == init + [packages[|packages| - 1]];
    }
  }

  /** The entries under a name of two stretches of the cache follow one another. */
  lemma {:induction false} WithNameAppend(a: seq<CachePackage>, b: seq<CachePackage>, n: string)
    ensures WithName(a + b, n) == WithName(a, n) + WithName(b, n)
    decreases |b|
  {
    if |b| > 0 {
      assert (a + b)[..|a + b| - 1] == a + b[..|b| - 1];
      WithNameAppend(a, b[..|b| - 1], n);
    } else {
      assert a + b == a;
    }
  }

  /** The set of names of the entries. */
  function NameSet(packages: seq<CachePackage>): set<string> {
    set i | 0 <= i < |packages| :: packages[i].pkgname
  }

  /** What `package_map` returns: a key per name, holding that name's entries in order. */
  predicate IsPackageMap(m: map<string, seq<CachePackage>>, packages: seq<CachePackage>) {
    && m.Keys == NameSet(packages)
    && forall n :: n in m ==> m[n] == WithName(packages, n)
  }

  /** One more entry adds its name to the names. */
  lemma NameSetStep(packages: seq<CachePackage>, i: nat)
    requires i < |packages|
    ensures NameSet(packages[..i + 1]) == NameSet(packages[..i]) + {packages[i].pkgname}
  {
    assert forall k :: 0 <= k < i ==> packages[..i + 1][k] == packages[..i][k];
  }

  /** One more entry adds itself to the entries of its own name and to no other name's. */
  lemma WithNameStep(packages: seq<CachePackage>, i: nat, n: string)
    requires i < |packages|
    ensures WithName(packages[..i + 1], n) ==
            WithName(packages[..i], n) + (if packages[i].pkgname == n then [packages[i]] else [])
  {
    assert packages[..i + 1][..i] == packages[..i];
  }

  /** `package_map`. */
  method PackageMap(packages: seq<CachePackage>) returns (m: map<string, seq<CachePackage>>)
    ensures IsPackageMap(m, packages)
    ensures forall n :: n in m ==> |m[n]| > 0
  {
    m := map[];
    var i := 0;
    while i < |packages|
      invariant 0 <= i <= |packages|
      invariant m.Keys == NameSet(packages[..i])
      invariant forall n :: n in m ==> m[n] == WithName(packages[..i], n) && |m[n]| > 0
      invariant forall n :: n !in m ==> WithName(packages[..i], n) == []
    {
      var p := packages[i];
      ghost var before := m;
      NameSetStep(packages, i);
      if p.pkgname in m {
        m := m[p.pkgname := m[p.pkgname] + [p]];
      } else {
        m := m[p.pkgname := [p]];
      }
      forall n | n in m
        ensures m[n] == WithName(packages[..i + 1], n) && |m[n]| > 0
      {
        WithNameStep(packages, i, n);
      }
      forall n | n !in m
        ensures WithName(packages[..i + 1], n) == []
      {
        WithNameStep(packages, i, n);
      }
      assert m.Keys == before.Keys + {p.pkgname};
      i := i + 1;
    }
    assert packages[..i] == packages;
  }

  // ---------------------------------------------------------------------------------------
  // Membership by source (lines 351-391)

  /** Some entry of `ps` comes from `src` (the loop with an early `return true`). */
  function HasSource(ps: seq<CachePackage>, src: Source): (r: bool)
    ensures r <==> exists i :: 0 <= i < |ps| && ps[i].source == src
  {
    if |ps| == 0 then false
    else if ps[0].source == src then true
    else
      var r := HasSource(ps[1..], src);
      assert forall i :: 1 <= i < |ps| ==> ps[i] == ps[1..][i - 1];
      r
  }

  /** `available_apt`. */
  function AvailableApt(m: map<string, seq<CachePackage>>, name: string): bool {
    name in m && HasSource(m[name], Apt)
  }

  /** `available_mpr`. */
  function AvailableMpr(m: map<string, seq<CachePackage>>, name: string): bool {
    name in m && HasSource(m[name], Mpr)
  }

  /** Membership in the map `package_map` builds means an entry of that name and source. */
  lemma AvailableFromSource(m: map<string, seq<CachePackage>>, packages: seq<CachePackage>, name: string, src: Source)
    requires IsPackageMap(m, packages)
    ensures (name in m && HasSource(m[name], src)) <==>
            exists i :: 0 <= i < |packages| && packages[i].pkgname == name && packages[i].source == src
  {
    if exists i :: 0 <= i < |packages| && packages[i].pkgname == name && packages[i].source == src {
      var i :| 0 <= i < |packages| && packages[i].pkgname == name && packages[i].source == src;
      assert name in NameSet(packages);
      WithNameMembers(packages, name, packages[i]);
      var k :| 0 <= k < |m[name]| && m[name][k] == packages[i];
    }
    if name in m && HasSource(m[name], src) {
      var k :| 0 <= k < |m[name]| && m[name][k].source == src;
      WithNameMembers(packages, name, m[name][k]);
    }
  }

  /** `available_apt` holds exactly for names with an APT entry. */
  lemma AvailableAptSpec(m: map<string, seq<CachePackage>>, packages: seq<CachePackage>, name: string)
    requires IsPackageMap(m, packages)
    ensures AvailableApt(m, name) <==>
            exists i :: 0 <= i < |packages| && packages[i].pkgname == name && packages[i].source == Apt
  {
    AvailableFromSource(m, packages, name, Apt);
  }

  /** `available_mpr` holds exactly for names with an MPR entry. */
  lemma AvailableMprSpec(m: map<string, seq<CachePackage>>, packages: seq<CachePackage>, name: string)
    requires IsPackageMap(m, packages)
    ensures AvailableMpr(m, name) <==>
            exists i :: 0 <= i < |packages| && packages[i].pkgname == name && packages[i].source == Mpr
  {
    AvailableFromSource(m, packages, name, Mpr);
  }

  // ---------------------------------------------------------------------------------------
  // Classifying a transaction (lines 395-413, 453, 509-512)

  /** An APT package with the marks `run_transaction` asks about. */
  datatype PkgState = PkgState(name: string, install: bool, delete: bool, downgrade: bool, upgrade: bool)

  datatype Change = Install | Remove | Downgrade | Upgrade

  /** The list a package joins: the first of its marks in the order install, delete,
      downgrade, upgrade. */
  function ChangeOf(p: PkgState): Option<Change> {
    if p.install then Some(Install)
    else if p.delete then Some(Remove)
    else if p.downgrade then Some(Downgrade)
    else if p.upgrade then Some(Upgrade)
    else None
  }

  /** The names of the packages that join the list of `c`, in cache order. */
  function Listed(pkgs: seq<PkgState>, c: Change): seq<string> {
    if |pkgs| == 0 then []
    else
      var last := pkgs[|pkgs| - 1];
      Listed(pkgs[..|pkgs| - 1], c) + (if ChangeOf(last) == Some(c) then [last.name] else [])
  }

  /** The names of the packages with any mark. */
  function Changed(pkgs: seq<PkgState>): seq<string> {
    if |pkgs| == 0 then []
    else
      var last := pkgs[|pkgs| - 1];
      Changed(pkgs[..|pkgs| - 1]) + (if ChangeOf(last).Some? then [last.name] else [])
  }

  /** The four lists of `run_transaction`. */
  method ClassifyTransaction(pkgs: seq<PkgState>)
    returns (toInstall: seq<string>, toRemove: seq<string>, toUpgrade: seq<string>, toDowngrade: seq<string>)
    ensures toInstall == Listed(pkgs, Install) && toRemove == Listed(pkgs, Remove)
    ensures toDowngrade == Listed(pkgs, Downgrade) && toUpgrade == Listed(pkgs, Upgrade)
  {
    toInstall, toRemove, toUpgrade, toDowngrade := [], [], [], [];
    var i := 0;
    while i < |pkgs|
      invariant 0 <= i <= |pkgs|
      invariant toInstall == Listed(pkgs[..i], Install) && toRemove == Listed(pkgs[..i], Remove)
      invariant toDowngrade == Listed(pkgs[..i], Downgrade) && toUpgrade == Listed(pkgs[..i], Upgrade)
    {
      var p := pkgs[i];
      assert pkgs[..i + 1][..i] == pkgs[..i];
      if p.install {
        toInstall := toInstall + [p.name];
      } else if p.delete {
        toRemove := toRemove + [p.name];
      } else if p.downgrade {
        toDowngrade := toDowngrade + [p.name];
      } else if p.upgrade {
        toUpgrade := toUpgrade + [p.name];
      }
      i := i + 1;
    }
    assert pkgs[..i] == pkgs;
  }

  /** A name is in the list of `c` exactly when a package of that name has `c` as its first
      mark: a package marked for install is listed for install only, one marked for delete
      and not install for removal only, and so on. */
  lemma {:induction false} ListedMembers(pkgs: seq<PkgState>, c: Change, x: string)
    ensures x in Listed(pkgs, c) <==> exists i :: 0 <= i < |pkgs| && pkgs[i].name == x && ChangeOf(pkgs[i]) == Some(c)
  {
    if |pkgs| > 0 {
      var init := pkgs[..|pkgs| - 1];
      ListedMembers(init, c, x);
      assert forall i :: 0 <= i < |init| ==> init[i] == pkgs[i];
    }
  }

  /** Each package with a mark joins exactly one list: the four lists together are as long as
      the list of changed packages. */
  lemma {:induction false} ListsPartition(pkgs: seq<PkgState>)
    ensures |Listed(pkgs, Install)| + |Listed(pkgs, Remove)| + |Listed(pkgs, Downgrade)| + |Listed(pkgs, Upgrade)|
            == |Changed(pkgs)|
  {
    if |pkgs| > 0 {
      ListsPartition(pkgs[..|pkgs| - 1]);
    }
  }

  /** "Nothing found to do" is printed exactly when no package carries any of the four marks. */
  lemma NothingToDo(pkgs: seq<PkgState>)
    ensures (Listed(pkgs, Install) == [] && Listed(pkgs, Remove) == [] &&
             Listed(pkgs, Downgrade) == [] && Listed(pkgs, Upgrade) == [])
            <==> forall i :: 0 <= i < |pkgs| ==> !pkgs[i].install && !pkgs[i].delete && !pkgs[i].downgrade && !pkgs[i].upgrade
  {
    forall c: Change
      ensures Listed(pkgs, c) == [] <==> forall i :: 0 <= i < |pkgs| ==> ChangeOf(pkgs[i]) != Some(c)
    {
      if Listed(pkgs, c) != [] {
        ListedMembers(pkgs, c, Listed(pkgs, c)[0]);
      }
      if exists i :: 0 <= i < |pkgs| && ChangeOf(pkgs[i]) == Some(c) {
        var i :| 0 <= i < |pkgs| && ChangeOf(pkgs[i]) == Some(c);
        ListedMembers(pkgs, c, pkgs[i].name);
      }
    }
  }

  // ---------------------------------------------------------------------------------------
  // Freshness of the MPR archive (lines 84-128)

  /** What `fs::metadata` gives for the archive file: its modification time in seconds since
      the epoch, or an error with its OS error code (`None` when the error has none). For a
      missing file, `createOk` says whether `File::create` succeeds. */
  datatype Metadata = Found(modified: nat) | Missing(osError: Option<int>, createOk: bool)

  /** `Panic` is an overflow of `current_time - file_last_modified` (a file dated in the
      future) or `raw_os_error().unwrap()` on an error without a code; `OsFile` is the exit
      with `exitcode::OSFILE`. */
  datatype FreshnessError = Panic | OsFile

  /** The MPR rebuilds its archives every five minutes. */
  const FiveMinutes: nat := 60 * 5

  /** Whether `MprCache::new` downloads the archive again at time `now` (seconds since the
      epoch). */
  function NeedsRefresh(meta: Metadata, now: nat): (r: Result<bool, FreshnessError>)
    ensures r == Ok(true) <==>
              || (meta.Found? && meta.modified <= now && now - meta.modified > 300)
              || (meta.Missing? && meta.osError == Some(2) && meta.createOk)
    ensures r == Ok(false) <==> meta.Found? && meta.modified <= now && now - meta.modified <= 300
    ensures r == Err(OsFile) <==> meta.Missing? && meta.osError.Some? && (meta.osError.value != 2 || !meta.createOk)
  {
    match meta
    case Found(modified) =>
      if now < modified then Err(Panic) else Ok(now - modified > FiveMinutes)
    case Missing(code, createOk) =>
      if code.None? then Err(Panic)
      else if code.value != 2 then Err(OsFile)
      else if !createOk then Err(OsFile)
      else Ok(true)
  }

  /** An archive that is due for a refresh stays due as time passes. */
  lemma RefreshMonotone(meta: Metadata, now: nat, later: nat)
    requires now <= later && NeedsRefresh(meta, now) == Ok(true)
    ensures NeedsRefresh(meta, later) == Ok(true)
  {
  }
}
