/** The MPR install-order planner of the `mist-cli` draft: `order_mpr_packages`
    puts every changed MPR package into one batch and then moves packages to later
    batches, one at a time, until no package depends on a package in its own batch
    or a later one; `pkgnames_to_pkgbases` maps the names of the result to package
    bases. The APT engine that produces the list of changes is abstracted: each
    change arrives with its names, its dependency names and its provides list. */
module Planner {
  import opened Wrappers

  /** What reading and parsing `<name>/DEBIAN/control` gave. */
  datatype ControlRead =
    | Unreadable
    | Unparsable
      /** The file parsed as a tag section; `version` is its `Version` field, if any. */
    | Parsed(version: Option<string>)

  /** One package of the engine's change list (`new_cache.get_changes(false)`). */
  datatype Change = Change(
    name: string,
    /** Version of the engine's candidate for this package; None when it has no candidate. */
    candidateVersion: Option<string>,
    control: ControlRead,
    /** Names of the candidate's base dependencies, all groups flattened in order. */
    deps: seq<string>,
    /** Names of the candidate's provides list. */
    providesList: seq<string>)

  /** The condition of the `if let` chain that decides whether a change is an MPR
      package: false when the control file cannot be read or parsed, None (a panic)
      when the parsed file has no `Version` field or, after that, when the package has
      no candidate, and otherwise whether the two versions are equal. */
  function MprTest(c: Change): Option<bool> {
    match c.control
    case Unreadable => Some(false)
    case Unparsable => Some(false)
    case Parsed(v) =>
      if v.None? then None
      else if c.candidateVersion.None? then None
      else Some(v.value == c.candidateVersion.value)
  }

  /** The change is an MPR package: its control file names the candidate's version. */
  predicate IsMprChange(c: Change) {
    MprTest(c) == Some(true)
  }

  /** Evaluating the test on this change panics. */
  predicate Panics(c: Change) {
    MprTest(c).None?
  }

  /** The test panics exactly when the control file parsed but has no `Version`
      field, or has one and the package has no candidate; it holds exactly when the
      parsed `Version` equals the candidate's version. */
  lemma MprTestCases(c: Change)
    ensures Panics(c) <==> c.control.Parsed? && (c.control.version.None? || c.candidateVersion.None?)
    ensures IsMprChange(c) <==>
              c.control.Parsed? && c.control.version.Some? && c.candidateVersion == Some(c.control.version.value)
  {
  }

  /** The MPR changes, in the order the engine enumerated them; each has a candidate,
      so the later `candidate().unwrap()` calls on them do not panic. */
  function Tracked(changes: seq<Change>): (r: seq<Change>)
    ensures forall c :: c in r <==> c in changes && IsMprChange(c)
    ensures forall c :: c in r ==> c.candidateVersion.Some?
    ensures |r| <= |changes|
  {
    if |changes| == 0 then []
    else if IsMprChange(changes[|changes| - 1]) then Tracked(changes[..|changes| - 1]) + [changes[|changes| - 1]]
    else Tracked(changes[..|changes| - 1])
  }

  /** The names `q` satisfies: its provides list, then its own name. */
  function Provided(q: Change): seq<string> {
    q.providesList + [q.name]
  }

  /** One of `p`'s dependency names is satisfied by `q`. */
  predicate DependsOn(p: Change, q: Change) {
    exists n :: n in Provided(q) && n in p.deps
  }

  type Batches = seq<seq<Change>>

  /** The package at `b[i][j]` depends on a package in batch `i` or a later one. */
  predicate Blocked(b: Batches, i: nat, j: nat)
    requires i < |b| && j < |b[i]|
  {
    exists k, q :: i <= k < |b| && q in b[k] && DependsOn(b[i][j], q)
  }

  /** No package depends on a package of its own batch or a later one. */
  predicate Settled(b: Batches) {
    forall i, j :: 0 <= i < |b| && 0 <= j < |b[i]| ==> !Blocked(b, i, j)
  }

  /** `(i, j)` is the first blocked position in batch-then-position order. */
  predicate IsFirstBlocked(b: Batches, i: nat, j: nat) {
    && i < |b| && j < |b[i]| && Blocked(b, i, j)
    && (forall i', j' :: 0 <= i' < i && 0 <= j' < |b[i']| ==> !Blocked(b, i', j'))
    && (forall j' :: 0 <= j' < j ==> !Blocked(b, i, j'))
  }

  /** The first blocked position of batch `i` at or after position `j`. */
  function ScanBatch(b: Batches, i: nat, j: nat): (r: Option<(nat, nat)>)
    requires i < |b| && j <= |b[i]|
    ensures r.Some? ==> r.value.0 == i && j <= r.value.1 < |b[i]|
    decreases |b[i]| - j
  {
    if j == |b[i]| then None
    else if Blocked(b, i, j) then Some((i, j))
    else ScanBatch(b, i, j + 1)
  }

  /** The first blocked position in batches `i..`. */
  function ScanFrom(b: Batches, i: nat): (r: Option<(nat, nat)>)
    ensures r.Some? ==> i <= r.value.0 < |b| && r.value.1 < |b[r.value.0]|
    decreases |b| - i
  {
    if i >= |b| then None
    else match ScanBatch(b, i, 0)
      case Some(x) => Some(x)
      case None => ScanFrom(b, i + 1)
  }

  lemma {:induction false} ScanBatchSpec(b: Batches, i: nat, j: nat)
    requires i < |b| && j <= |b[i]|
    ensures ScanBatch(b, i, j).None? <==> forall j' :: j <= j' < |b[i]| ==> !Blocked(b, i, j')
    ensures ScanBatch(b, i, j).Some? ==>
              && Blocked(b, i, ScanBatch(b, i, j).value.1)
              && forall j' :: j <= j' < ScanBatch(b, i, j).value.1 ==> !Blocked(b, i, j')
    decreases |b[i]| - j
  {
    if j < |b[i]| && !Blocked(b, i, j) {
      ScanBatchSpec(b, i, j + 1);
    }
  }

  lemma {:induction false} ScanFromSpec(b: Batches, i: nat)
    ensures ScanFrom(b, i).None? <==>
              forall i', j' :: i <= i' < |b| && 0 <= j' < |b[i']| ==> !Blocked(b, i', j')
    ensures ScanFrom(b, i).Some? ==>
              && Blocked(b, ScanFrom(b, i).value.0, ScanFrom(b, i).value.1)
              && (forall i', j' :: i <= i' < ScanFrom(b, i).value.0 && 0 <= j' < |b[i']| ==> !Blocked(b, i', j'))
              && (forall j' :: 0 <= j' < ScanFrom(b, i).value.1 ==> !Blocked(b, ScanFrom(b, i).value.0, j'))
    decreases |b| - i
  {
    if i < |b| {
      ScanBatchSpec(b, i, 0);
      if ScanBatch(b, i, 0).None? {
        ScanFromSpec(b, i + 1);
      }
    }
  }

  /** The scan finds nothing exactly when the batches are settled, and otherwise
      finds the first blocked package. */
  lemma ScanSpec(b: Batches)
    ensures ScanFrom(b, 0).None? <==> Settled(b)
    ensures ScanFrom(b, 0).Some? ==> IsFirstBlocked(b, ScanFrom(b, 0).value.0, ScanFrom(b, 0).value.1)
  {
    ScanFromSpec(b, 0);
  }

  /** Removes `b[i][j]` and appends it to batch `i + 1`, creating that batch when `i` is last. */
  function Move(b: Batches, i: nat, j: nat): Batches
    requires i < |b| && j < |b[i]|
  {
    var p := b[i][j];
    var b1 := b[i := b[i][..j] + b[i][j + 1..]];
    if i + 1 < |b| then b1[i + 1 := b1[i + 1] + [p]] else b1 + [[p]]
  }

  /** What a single move changes: batch `i` loses exactly its `j`-th package, which is
      appended to batch `i + 1` (a new trailing batch when `i` was last); the batch count
      grows by at most one and every other batch is unchanged. */
  lemma MoveEffect(b: Batches, i: nat, j: nat)
    requires i < |b| && j < |b[i]|
    ensures |Move(b, i, j)| == if i + 1 < |b| then |b| else |b| + 1
    ensures Move(b, i, j)[i] == b[i][..j] + b[i][j + 1..]
    ensures Move(b, i, j)[i + 1] == (if i + 1 < |b| then b[i + 1] else []) + [b[i][j]]
    ensures forall k :: 0 <= k < |b| && k != i && k != i + 1 ==> Move(b, i, j)[k] == b[k]
  {
  }

  /** All packages of all batches, with multiplicity. */
  function Pool(b: Batches): multiset<Change> {
    if |b| == 0 then multiset{} else Pool(b[..|b| - 1]) + multiset(b[|b| - 1])
  }

  lemma {:induction false} PoolMember(b: Batches, k: nat, q: Change)
    requires k < |b| && q in b[k]
    ensures q in Pool(b)
  {
    if k < |b| - 1 {
      assert b[..|b| - 1][k] == b[k];
      PoolMember(b[..|b| - 1], k, q);
    }
  }

  lemma {:induction false} PoolHas(b: Batches, q: Change)
    requires q in Pool(b)
    ensures exists k :: 0 <= k < |b| && q in b[k]
  {
    if q !in multiset(b[|b| - 1]) {
      PoolHas(b[..|b| - 1], q);
      var k :| 0 <= k < |b| - 1 && q in b[..|b| - 1][k];
      assert b[k] == b[..|b| - 1][k];
    }
  }

  lemma {:induction false} PoolUpdate(b: Batches, k: nat, s: seq<Change>)
    requires k < |b|
    ensures Pool(b[k := s]) + multiset(b[k]) == Pool(b) + multiset(s)
  {
    var last := |b| - 1;
    var c := b[k := s];
    if k < last {
      assert c[..last] == b[..last][k := s];
      assert b[..last][k] == b[k];
      assert c[last] == b[last];
      PoolUpdate(b[..last], k, s);
      var ih := Pool(b[..last][k := s]) + multiset(b[k]);
      assert Pool(c) == Pool(c[..last]) + multiset(c[last]);
      assert Pool(b) == Pool(b[..last]) + multiset(b[last]);
      forall x ensures (Pool(c) + multiset(b[k]))[x] == (Pool(b) + multiset(s))[x] {
        assert ih[x] == (Pool(b[..last]) + multiset(s))[x];
      }
    } else {
      assert c[..last] == b[..last];
    }
  }

  lemma MultisetCancel<T>(x: multiset<T>, y: multiset<T>, z: multiset<T>)
    requires x + z == y + z
    ensures x == y
  {
    forall e ensures x[e] == y[e] {
      assert (x + z)[e] == (y + z)[e];
    }
  }

  /** A move keeps the multiset of packages across all batches. */
  lemma MovePool(b: Batches, i: nat, j: nat)
    requires i < |b| && j < |b[i]|
    ensures Pool(Move(b, i, j)) == Pool(b)
  {
    var p := b[i][j];
    var rest := b[i][..j] + b[i][j + 1..];
    assert b[i] == b[i][..j] + [p] + b[i][j + 1..];
    var mRest, mP := multiset(rest), multiset{p};
    assert multiset(b[i]) == mRest + mP;
    var b1 := b[i := rest];
    PoolUpdate(b, i, rest);
    var pool1 := Pool(b1);
    assert (pool1 + mP) + mRest == Pool(b) + mRest;
    MultisetCancel(pool1 + mP, Pool(b), mRest);
    if i + 1 < |b| {
      var s1 := b1[i + 1];
      PoolUpdate(b1, i + 1, s1 + [p]);
      var mS1 := multiset(s1);
      assert multiset(s1 + [p]) == mS1 + mP;
      assert Pool(b1[i + 1 := s1 + [p]]) + mS1 == (pool1 + mP) + mS1;
      MultisetCancel(Pool(b1[i + 1 := s1 + [p]]), pool1 + mP, mS1);
      assert Move(b, i, j) == b1[i + 1 := s1 + [p]];
    } else {
      var m := b1 + [[p]];
      assert m[..|b1|] == b1;
      assert Pool(m) == pool1 + multiset([p]);
      assert Move(b, i, j) == m;
    }
  }

  /** The sum of `rank(q) - k` over the packages `q` of a batch at index `k`. */
  function BatchPot(s: seq<Change>, k: nat, rank: Change -> nat): int {
    if |s| == 0 then 0 else BatchPot(s[..|s| - 1], k, rank) + rank(s[|s| - 1]) - k
  }

  /** The sum of `rank(q) - k` over every package `q` in every batch `k`. */
  function Pot(b: Batches, rank: Change -> nat): int {
    if |b| == 0 then 0 else Pot(b[..|b| - 1], rank) + BatchPot(b[|b| - 1], |b| - 1, rank)
  }

  lemma {:induction false} BatchPotConcat(s: seq<Change>, t: seq<Change>, k: nat, rank: Change -> nat)
    ensures BatchPot(s + t, k, rank) == BatchPot(s, k, rank) + BatchPot(t, k, rank)
    decreases |t|
  {
    if |t| == 0 {
      assert s + t == s;
    } else {
      assert (s + t)[..|s + t| - 1] == s + t[..|t| - 1];
      BatchPotConcat(s, t[..|t| - 1], k, rank);
    }
  }

  lemma {:induction false} BatchPotNonneg(s: seq<Change>, k: nat, rank: Change -> nat)
    requires forall q :: q in s ==> k <= rank(q)
    ensures BatchPot(s, k, rank) >= 0
  {
    if |s| > 0 {
      BatchPotNonneg(s[..|s| - 1], k, rank);
    }
  }

  lemma {:induction false} PotUpdate(b: Batches, k: nat, s: seq<Change>, rank: Change -> nat)
    requires k < |b|
    ensures Pot(b[k := s], rank) == Pot(b, rank) - BatchPot(b[k], k, rank) + BatchPot(s, k, rank)
  {
    var last := |b| - 1;
    if k < last {
      assert b[k := s][..last] == b[..last][k := s];
      assert b[..last][k] == b[k];
      PotUpdate(b[..last], k, s, rank);
    } else {
      assert b[k := s][..last] == b[..last];
    }
  }

  /** Every package sits in a batch no later than its rank. */
  predicate RankBound(b: Batches, rank: Change -> nat) {
    forall k, q :: 0 <= k < |b| && q in b[k] ==> k <= rank(q)
  }

  /** `rank` strictly decreases along every dependency between packages of `pool`:
      a witness that the dependency relation among them, self-edges included, is acyclic. */
  predicate Ranked(pool: multiset<Change>, rank: Change -> nat) {
    forall p, q :: p in pool && q in pool && DependsOn(p, q) ==> rank(q) < rank(p)
  }

  lemma {:induction false} PotNonneg(b: Batches, rank: Change -> nat)
    requires RankBound(b, rank)
    ensures Pot(b, rank) >= 0
  {
    if |b| > 0 {
      var last := |b| - 1;
      assert forall k :: 0 <= k < last ==> b[..last][k] == b[k];
      PotNonneg(b[..last], rank);
      BatchPotNonneg(b[last], last, rank);
    }
  }

  /** Moving one package one batch later lowers the potential by exactly one. */
  lemma MovePot(b: Batches, i: nat, j: nat, rank: Change -> nat)
    requires i < |b| && j < |b[i]|
    ensures Pot(Move(b, i, j), rank) == Pot(b, rank) - 1
  {
    var p := b[i][j];
    var rest := b[i][..j] + b[i][j + 1..];
    assert b[i] == b[i][..j] + [p] + b[i][j + 1..];
    BatchPotConcat(b[i][..j] + [p], b[i][j + 1..], i, rank);
    BatchPotConcat(b[i][..j], [p], i, rank);
    BatchPotConcat(b[i][..j], b[i][j + 1..], i, rank);
    assert BatchPot([p], i, rank) == rank(p) - i;
    var b1 := b[i := rest];
    PotUpdate(b, i, rest, rank);
    if i + 1 < |b| {
      BatchPotConcat(b1[i + 1], [p], i + 1, rank);
      assert BatchPot([p], i + 1, rank) == rank(p) - i - 1;
      PotUpdate(b1, i + 1, b1[i + 1] + [p], rank);
    } else {
      assert (b1 + [[p]])[..|b1|] == b1;
      assert BatchPot([p], |b1|, rank) == rank(p) - i - 1;
    }
  }

  /** A move of a blocked package keeps every package within its rank. */
  lemma MoveRankBound(b: Batches, i: nat, j: nat, rank: Change -> nat)
    requires i < |b| && j < |b[i]| && Blocked(b, i, j)
    requires RankBound(b, rank) && Ranked(Pool(b), rank)
    ensures RankBound(Move(b, i, j), rank)
  {
    var p := b[i][j];
    var k, q :| i <= k < |b| && q in b[k] && DependsOn(p, q);
    PoolMember(b, i, p);
    PoolMember(b, k, q);
    assert i + 1 <= rank(p);
    var m := Move(b, i, j);
    MoveEffect(b, i, j);
    forall k', q' | 0 <= k' < |m| && q' in m[k'] ensures k' <= rank(q') {
      if k' == i {
        assert q' in b[i][..j] || q' in b[i][j + 1..];
      } else if k' == i + 1 {
        assert q' in m[i + 1];
        if i + 1 < |b| {
          assert q' in b[i + 1] || q' == p;
        }
      }
    }
  }

  /** The facts the ordering loop needs about one move of a blocked package. */
  lemma MoveFacts(b: Batches, i: nat, j: nat, rank: Change -> nat)
    requires i < |b| && j < |b[i]| && Blocked(b, i, j)
    requires RankBound(b, rank) && Ranked(Pool(b), rank)
    ensures RankBound(Move(b, i, j), rank)
    ensures Pool(Move(b, i, j)) == Pool(b)
    ensures Pot(Move(b, i, j), rank) == Pot(b, rank) - 1
    ensures |Move(b, i, j)| >= |b|
  {
    MoveRankBound(b, i, j, rank);
    MovePool(b, i, j);
    MovePot(b, i, j, rank);
  }

  /** The batches before ordering: one batch of the MPR changes in enumeration order. */
  function Initial(changes: seq<Change>): Batches {
    [Tracked(changes)]
  }

  /** One pass of the ordering loop: move the first blocked package, if any. */
  function Step(b: Batches): Batches {
    match ScanFrom(b, 0)
    case None => b
    case Some((i, j)) => Move(b, i, j)
  }

  /** What one pass that finds a blocked package does to the loop's invariants. */
  lemma PassFacts(b: Batches, i: nat, j: nat, rank: Change -> nat, pool: multiset<Change>)
    requires ScanFrom(b, 0) == Some((i, j))
    requires RankBound(b, rank) && Pool(b) == pool && Ranked(pool, rank)
    ensures i < |b| && j < |b[i]|
    ensures Step(b) == Move(b, i, j)
    ensures RankBound(Step(b), rank) && Pool(Step(b)) == pool
    ensures Pot(Step(b), rank) == Pot(b, rank) - 1 && |Step(b)| >= |b|
  {
    ScanSpec(b);
    MoveFacts(b, i, j, rank);
  }

  /** The batches after `n` passes. */
  function Iterate(b: Batches, n: nat): Batches {
    if n == 0 then b else Step(Iterate(b, n - 1))
  }

  /** Passes keep the multiset of packages, never remove a batch, and add at most one
      batch per pass. */
  lemma {:induction false} IteratePreserves(b: Batches, n: nat)
    requires |b| >= 1
    ensures Pool(Iterate(b, n)) == Pool(b)
    ensures |b| <= |Iterate(b, n)| <= |b| + n
  {
    if n > 0 {
      IteratePreserves(b, n - 1);
      var c := Iterate(b, n - 1);
      match ScanFrom(c, 0)
      case None =>
      case Some((i, j)) =>
        MovePool(c, i, j);
        MoveEffect(c, i, j);
    }
  }

  /** Some change of the list makes the MPR test panic. */
  predicate AnyPanics(changes: seq<Change>) {
    exists c :: c in changes && Panics(c)
  }

  /** Tracking one more change appends it exactly when it is an MPR change. */
  lemma TrackedStep(changes: seq<Change>, t: nat)
    requires t < |changes|
    ensures Tracked(changes[..t + 1]) == Tracked(changes[..t]) + (if IsMprChange(changes[t]) then [changes[t]] else [])
  {
    assert changes[..t + 1][..t] == changes[..t];
  }

  /** A list none of whose positions panics has no panicking change. */
  lemma NoPanicsAll(changes: seq<Change>)
    requires forall k :: 0 <= k < |changes| ==> !Panics(changes[k])
    ensures !AnyPanics(changes)
  {
    forall c | c in changes ensures !Panics(c) {
      var k :| 0 <= k < |changes| && changes[k] == c;
    }
  }

  /** Collects the MPR changes into the first and only batch (lines 152-218); None
      when the test panics on one of the changes. */
  method CollectChanges(changes: seq<Change>) returns (mpr: Option<Batches>)
    ensures mpr.None? <==> AnyPanics(changes)
    ensures mpr.Some? ==> mpr.value == Initial(changes)
    ensures mpr.Some? ==> |mpr.value| == 1 && (forall c :: c in mpr.value[0] <==> c in changes && IsMprChange(c))
  {
    var batch: seq<Change> := [];
    var t := 0;
    while t < |changes|
      invariant 0 <= t <= |changes|
      invariant batch == Tracked(changes[..t])
      invariant forall k :: 0 <= k < t ==> !Panics(changes[k])
    {
      var test := MprTest(changes[t]);
      if test.None? {
        assert changes[t] in changes && Panics(changes[t]);
        return None;
      }
      TrackedStep(changes, t);
      if test.value {
        batch := batch + [changes[t]];
      }
      t := t + 1;
    }
    assert changes[..t] == changes;
    NoPanicsAll(changes);
    mpr := Some([batch]);
  }

  /** Whether `p` depends on a package in batches `i..` (the two inner loops over
      `inner_pkg_vecs` and the loop over the provides list). */
  method DependsOnLater(b: Batches, i: nat, p: Change) returns (hit: bool)
    requires i < |b|
    ensures hit <==> exists k, q :: i <= k < |b| && q in b[k] && DependsOn(p, q)
  {
    var indexLen := |b| - 1;
    hit := false;
    var k := i;
    while k <= indexLen && !hit
      invariant i <= k <= |b|
      invariant hit ==> exists k', q :: i <= k' < |b| && q in b[k'] && DependsOn(p, q)
      invariant !hit ==> forall k', q :: i <= k' < k && q in b[k'] ==> !DependsOn(p, q)
    {
      var l := 0;
      while l < |b[k]| && !hit
        invariant 0 <= l <= |b[k]|
        invariant hit ==> exists k', q :: i <= k' < |b| && q in b[k'] && DependsOn(p, q)
        invariant !hit ==> forall l' :: 0 <= l' < l ==> !DependsOn(p, b[k][l'])
      {
        var q := b[k][l];
        var providesList := q.providesList + [q.name];
        var m := 0;
        while m < |providesList| && !hit
          invariant 0 <= m <= |providesList|
          invariant hit ==> DependsOn(p, q)
          invariant !hit ==> forall m' :: 0 <= m' < m ==> providesList[m'] !in p.deps
        {
          if providesList[m] in p.deps {
            hit := true;
          }
          m := m + 1;
        }
        l := l + 1;
      }
      if !hit {
        forall q | q in b[k] ensures !DependsOn(p, q) {
          var l' :| 0 <= l' < |b[k]| && b[k][l'] == q;
        }
      }
      k := k + 1;
    }
  }

  /** The search of one pass (lines 226-269): the first blocked position, if any. */
  method FindChange(b: Batches) returns (changed: Option<(nat, nat)>)
    ensures changed == ScanFrom(b, 0)
  {
    changed := None;
    var vecIndex := 0;
    while vecIndex < |b| && changed.None?
      invariant 0 <= vecIndex <= |b|
      invariant changed.None? ==> ScanFrom(b, 0) == ScanFrom(b, vecIndex)
      invariant changed.Some? ==> changed == ScanFrom(b, 0)
    {
      var pkgIndex := 0;
      while pkgIndex < |b[vecIndex]| && changed.None?
        invariant 0 <= pkgIndex <= |b[vecIndex]|
        invariant changed.None? ==> ScanBatch(b, vecIndex, 0) == ScanBatch(b, vecIndex, pkgIndex)
        invariant changed.Some? ==> changed == ScanBatch(b, vecIndex, 0)
      {
        var hit := DependsOnLater(b, vecIndex, b[vecIndex][pkgIndex]);
        if hit {
          changed := Some((vecIndex, pkgIndex));
        }
        pkgIndex := pkgIndex + 1;
      }
      vecIndex := vecIndex + 1;
    }
  }

  /** The names of a batch's packages, in order. */
  function Names(s: seq<Change>): (r: seq<string>)
    ensures |r| == |s| && forall k :: 0 <= k < |s| ==> r[k] == s[k].name
  {
    seq(|s|, k requires 0 <= k < |s| => s[k].name)
  }

  /** The package names of each batch, batch by batch. */
  function BatchNames(b: Batches): (r: seq<seq<string>>)
    ensures |r| == |b| && forall k :: 0 <= k < |b| ==> r[k] == Names(b[k])
  {
    seq(|b|, k requires 0 <= k < |b| => Names(b[k]))
  }

  /** Lines 285-291: the names of the packages, batch by batch. */
  method CollectNames(b: Batches) returns (order: seq<seq<string>>)
    ensures order == BatchNames(b)
  {
    order := [];
    var k := 0;
    while k < |b|
      invariant 0 <= k <= |b|
      invariant order == BatchNames(b[..k])
    {
      order := order + [Names(b[k])];
      k := k + 1;
    }
    assert b[..k] == b;
  }

  /** Lines 271-282: remove the package at `b[vi][pi]` and push it onto the next batch,
      or onto a new trailing batch. */
  method RemoveAndPush(b: Batches, vi: nat, pi: nat) returns (mpr: Batches)
    requires vi < |b| && pi < |b[vi]|
    ensures mpr == Move(b, vi, pi)
  {
    mpr := b;
    var newVecPosition := vi + 1;
    var pkg := mpr[vi][pi];
    mpr := mpr[vi := mpr[vi][..pi] + mpr[vi][pi + 1..]];
    if newVecPosition < |mpr| {
      mpr := mpr[newVecPosition := mpr[newVecPosition] + [pkg]];
    } else {
      mpr := mpr + [[pkg]];
    }
  }

  /** `order_mpr_packages` from the batch-ordering loop on: in the final batches no package
      depends on a package of its own batch or a later one, the packages are exactly the
      MPR changes, and the result is what the passes compute. The loop terminates whenever
      the dependency relation among the MPR changes is acyclic, which `rank` witnesses. */
  method OrderMprPackages(changes: seq<Change>, ghost rank: Change -> nat) returns (order: Option<seq<seq<string>>>)
    requires Ranked(multiset(Tracked(changes)), rank)
    ensures order.None? <==> AnyPanics(changes)
    ensures order.Some? ==>
              exists n: nat :: Settled(Iterate(Initial(changes), n)) && order.value == BatchNames(Iterate(Initial(changes), n))
  {
    var collected := CollectChanges(changes);
    if collected.None? {
      return None;
    }
    var mpr := collected.value;
    ghost var moves: nat := 0;
    assert Pool(mpr) == multiset(Tracked(changes)) by {
      assert mpr[..0] == [];
    }
    ghost var pool := multiset(Tracked(changes));
    ghost var init := Initial(changes);
    var changedIndex: Option<(nat, nat)> := Some((0, 0));
    while changedIndex.Some?
      invariant |mpr| >= 1
      invariant mpr == Iterate(init, moves)
      invariant Pool(mpr) == pool
      invariant RankBound(mpr, rank)
      invariant changedIndex.None? ==> Settled(mpr)
      decreases Pot(mpr, rank) + (if changedIndex.Some? then 1 else 0)
    {
      PotNonneg(mpr, rank);
      changedIndex := FindChange(mpr);
      ScanSpec(mpr);
      if changedIndex.Some? {
        var vi, pi := changedIndex.value.0, changedIndex.value.1;
        PassFacts(mpr, vi, pi, rank, pool);
        mpr := RemoveAndPush(mpr, vi, pi);
        moves := moves + 1;
      }
    }
    var names := CollectNames(mpr);
    assert Settled(Iterate(init, moves)) && names == BatchNames(Iterate(init, moves));
    order := Some(names);
  }

  /** On a settled batch sequence every dependency of a package lies in a strictly
      earlier batch. */
  lemma SettledOrdersDependencies(b: Batches, i: nat, j: nat, k: nat, q: Change)
    requires Settled(b) && i < |b| && j < |b[i]| && k < |b| && q in b[k]
    requires DependsOn(b[i][j], q)
    ensures k < i
  {
    assert !Blocked(b, i, j);
  }

  /** The first batch holding `q`. */
  function FirstBatch(b: Batches, q: Change, from: nat): (k: nat)
    requires exists k :: from <= k < |b| && q in b[k]
    ensures from <= k < |b| && q in b[k]
    ensures forall k' :: from <= k' < k ==> q !in b[k']
    decreases |b| - from
  {
    if q in b[from] then from else FirstBatch(b, q, from + 1)
  }

  /** The first batch holding a package of the pool. */
  function BatchOf(b: Batches, q: Change): (k: nat)
    requires q in Pool(b)
    ensures k < |b| && q in b[k]
  {
    PoolHas(b, q);
    FirstBatch(b, q, 0)
  }

  lemma SettledEdge(b: Batches, p: Change, q: Change)
    requires Settled(b) && p in Pool(b) && q in Pool(b) && DependsOn(p, q)
    ensures BatchOf(b, q) < BatchOf(b, p)
  {
    var i := BatchOf(b, p);
    var k := BatchOf(b, q);
    var j :| 0 <= j < |b[i]| && b[i][j] == p;
    SettledOrdersDependencies(b, i, j, k, q);
  }

  /** A chain of dependencies `path[0] -> path[1] -> ...` is in strictly decreasing
      first-batch order on settled batches. */
  lemma {:induction false} SettledChain(b: Batches, path: seq<Change>, t: nat)
    requires Settled(b) && 0 < t < |path|
    requires forall x :: x in path ==> x in Pool(b)
    requires forall s :: 0 <= s < |path| - 1 ==> DependsOn(path[s], path[s + 1])
    ensures BatchOf(b, path[t]) + t <= BatchOf(b, path[0])
  {
    SettledEdge(b, path[t - 1], path[t]);
    if t > 1 {
      SettledChain(b, path, t - 1);
    }
  }

  /** A dependency cycle among the packages (a package depending on itself included)
      keeps every batch sequence holding them unsettled: the ordering loop then never
      exits, since passes keep the packages. */
  lemma CycleNeverSettles(b: Batches, path: seq<Change>)
    requires |path| >= 1
    requires forall x :: x in path ==> x in Pool(b)
    requires forall s :: 0 <= s < |path| - 1 ==> DependsOn(path[s], path[s + 1])
    requires DependsOn(path[|path| - 1], path[0])
    ensures !Settled(b)
  {
    if Settled(b) {
      SettledEdge(b, path[|path| - 1], path[0]);
      if |path| > 1 {
        SettledChain(b, path, |path| - 1);
      }
      assert false;
    }
  }

  /** `slice.get(lo..=hi)`: the elements `lo` to `hi` inclusive, when that range is in bounds. */
  function GetInclusive<T>(s: seq<T>, lo: nat, hi: nat): (r: Option<seq<T>>)
    ensures r.Some? <==> lo <= hi + 1 && hi < |s|
  {
    if lo <= hi + 1 && hi < |s| then Some(s[lo..hi + 1]) else None
  }

  /** Every name replaced by its package base, batch shape and order kept. */
  function Bases(pkgbase: map<string, string>, b: seq<seq<string>>): (r: seq<seq<string>>)
    requires forall k, n :: 0 <= k < |b| && n in b[k] ==> n in pkgbase
    ensures |r| == |b|
    ensures forall k :: 0 <= k < |b| ==> |r[k]| == |b[k]| && forall l :: 0 <= l < |b[k]| ==> r[k][l] == pkgbase[b[k][l]]
  {
    seq(|b|, k requires 0 <= k < |b| => seq(|b[k]|, l requires 0 <= l < |b[k]| => pkgbase[b[k][l]]))
  }

  /** `pkgnames_to_pkgbases`. `pkgbase` maps MPR package names to their bases; a name
      that is not an MPR package makes `unwrap` fail (None here). As written the
      duplicate-removal pass asks for `returned_vec.get(vec_index..=vec_len)` with
      `vec_len` the length, which is always out of range: the pass runs once and
      removes nothing, so the result is the plain mapping. */
  method PkgnamesToPkgbases(pkgbase: map<string, string>, pkglist: seq<seq<string>>)
    returns (r: Option<seq<seq<string>>>)
    ensures r.Some? <==> forall k, n :: 0 <= k < |pkglist| && n in pkglist[k] ==> n in pkgbase
    ensures r.Some? ==> r.value == Bases(pkgbase, pkglist)
  {
    var returnedVec: seq<seq<string>> := [];
    var k := 0;
    while k < |pkglist|
      invariant 0 <= k <= |pkglist|
      invariant forall k', n :: 0 <= k' < k && n in pkglist[k'] ==> n in pkgbase
      invariant returnedVec == Bases(pkgbase, pkglist[..k])
    {
      var innerVec: seq<string> := [];
      var l := 0;
      while l < |pkglist[k]|
        invariant 0 <= l <= |pkglist[k]|
        invariant forall l' :: 0 <= l' < l ==> pkglist[k][l'] in pkgbase
        invariant |innerVec| == l && forall l' :: 0 <= l' < l ==> innerVec[l'] == pkgbase[pkglist[k][l']]
      {
        if pkglist[k][l] !in pkgbase {
          return None;
        }
        innerVec := innerVec + [pkgbase[pkglist[k][l]]];
        l := l + 1;
      }
      ghost var next := Bases(pkgbase, pkglist[..k + 1]);
      assert forall k' :: 0 <= k' < k ==> pkglist[..k + 1][k'] == pkglist[..k][k'];
      assert innerVec == next[k];
      returnedVec := returnedVec + [innerVec];
      assert returnedVec == next;
      k := k + 1;
    }
    assert pkglist[..k] == pkglist;

    var removalIndex: Option<(nat, nat)> := Some((0, 0));
    while removalIndex.Some?
      invariant returnedVec == Bases(pkgbase, pkglist)
      decreases if removalIndex.Some? then 1 else 0
    {
      removalIndex := None;
      var vecLen := |returnedVec|;
      var vecIndex := 0;
      while vecIndex < |returnedVec|
        invariant 0 <= vecIndex <= |returnedVec|
      {
        var p := 0;
        while p < |returnedVec[vecIndex]|
          invariant 0 <= p <= |returnedVec[vecIndex]|
        {
          var innerVecs := GetInclusive(returnedVec, vecIndex, vecLen);
          if innerVecs.Some? {
            assert false;
          }
          p := p + 1;
        }
        vecIndex := vecIndex + 1;
      }
    }
    r := Some(returnedVec);
  }
}
