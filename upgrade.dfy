/** The candidate selection of `upgrade` in `src/upgrade.rs`: the dpkg status file becomes a
    map from package name to its stanza, then every non-virtual APT package is either marked
    for an APT upgrade, queued for an MPR upgrade, or left alone.

    The stanzas of `/var/lib/dpkg/status` are field maps, the APT packages arrive in the order
    `get_nonvirtual_packages` yields them, the MPR's versions are a map, and
    `apt_util::cmp_versions(a, b).is_lt()` is the oracle `older(a, b)`. */
module Upgrade {
  import opened Wrappers
  import opened MprResolver

  /** One stanza of the dpkg status file: field name to value. */
  type Stanza = map<string, string>

  /** A non-virtual APT package. */
  datatype AptPackage = AptPackage(name: string, upgradable: bool, autoInstalled: bool)

  datatype UpgradeError =
    | NoPackageField                // `pkg.get("Package").unwrap()` at line 26
    | NoVersionField(name: string)  // `get("Version").unwrap()` at line 42
    | NotOnMpr(name: string)        // `packages().get(&pkgname).unwrap()` at line 43

  // ---------------------------------------------------------------------------------------
  // The dpkg map (lines 23-27)

  /** The map after inserting the stanzas in order, or the panic on one without `Package`. */
  function DpkgMap(stanzas: seq<Stanza>): Result<map<string, Stanza>, UpgradeError> {
    if |stanzas| == 0 then Ok(map[])
    else
      var last := stanzas[|stanzas| - 1];
      match DpkgMap(stanzas[..|stanzas| - 1])
      case Err(e) => Err(e)
      case Ok(m) => if "Package" in last then Ok(m[last["Package"] := last]) else Err(NoPackageField)
  }

  /** The map is built exactly when every stanza names its package. */
  lemma {:induction false} DpkgMapOk(stanzas: seq<Stanza>)
    ensures DpkgMap(stanzas).Ok? <==> forall i :: 0 <= i < |stanzas| ==> "Package" in stanzas[i]
  {
    if |stanzas| > 0 {
      var init := stanzas[..|stanzas| - 1];
      DpkgMapOk(init);
      assert forall i :: 0 <= i < |init| ==> init[i] == stanzas[i];
    }
  }

  /** The keys are exactly the packages named. */
  lemma {:induction false} DpkgMapKeys(stanzas: seq<Stanza>, x: string)
    requires forall i :: 0 <= i < |stanzas| ==> "Package" in stanzas[i]
    ensures DpkgMap(stanzas).Ok?
    ensures x in DpkgMap(stanzas).value <==> exists i :: 0 <= i < |stanzas| && stanzas[i]["Package"] == x
  {
    DpkgMapOk(stanzas);
    if |stanzas| > 0 {
      var init := stanzas[..|stanzas| - 1];
      assert forall i :: 0 <= i < |init| ==> init[i] == stanzas[i];
      DpkgMapKeys(init, x);
      assert DpkgMap(stanzas).value == DpkgMap(init).value[stanzas[|stanzas| - 1]["Package"] := stanzas[|stanzas| - 1]];
    }
  }

  /** Each key holds the last stanza naming it (`i` is where it sits): a later duplicate
      overwrites an earlier one. */
  lemma {:induction false} DpkgMapEntry(stanzas: seq<Stanza>, x: string) returns (i: nat)
    requires forall i :: 0 <= i < |stanzas| ==> "Package" in stanzas[i]
    requires DpkgMap(stanzas).Ok? && x in DpkgMap(stanzas).value
    ensures i < |stanzas| && stanzas[i]["Package"] == x && DpkgMap(stanzas).value[x] == stanzas[i]
    ensures forall j :: i < j < |stanzas| ==> stanzas[j]["Package"] != x
  {
    var init := stanzas[..|stanzas| - 1];
    var last := stanzas[|stanzas| - 1];
    assert forall i :: 0 <= i < |init| ==> init[i] == stanzas[i];
    DpkgMapOk(init);
    var m := DpkgMap(init).value;
    assert DpkgMap(stanzas).value == m[last["Package"] := last];
    if last["Package"] == x {
      i := |stanzas| - 1;
    } else {
      i := DpkgMapEntry(init, x);
    }
  }

  /** The loop inserting every stanza under its `Package` field. */
  method BuildDpkgMap(stanzas: seq<Stanza>) returns (r: Result<map<string, Stanza>, UpgradeError>)
    ensures r == DpkgMap(stanzas)
  {
    var m: map<string, Stanza> := map[];
    var i := 0;
    while i < |stanzas|
      invariant 0 <= i <= |stanzas|
      invariant DpkgMap(stanzas[..i]) == Ok(m)
    {
      assert stanzas[..i + 1][..i] == stanzas[..i];
      if "Package" !in stanzas[i] {
        DpkgErrSticky(stanzas, i + 1);
        return Err(NoPackageField);
      }
      m := m[stanzas[i]["Package"] := stanzas[i]];
      i := i + 1;
    }
    assert stanzas[..i] == stanzas;
    r := Ok(m);
  }

  /** Once a stanza without `Package` is inserted, the whole map fails with it. */
  lemma {:induction false} DpkgErrSticky(stanzas: seq<Stanza>, k: nat)
    requires k <= |stanzas| && DpkgMap(stanzas[..k]) == Err(NoPackageField)
    ensures DpkgMap(stanzas) == Err(NoPackageField)
    decreases |stanzas| - k
  {
    if k < |stanzas| {
      assert stanzas[..k + 1][..k] == stanzas[..k];
      DpkgErrSticky(stanzas, k + 1);
    } else {
      assert stanzas[..k] == stanzas;
    }
  }

  // ---------------------------------------------------------------------------------------
  // Selecting the upgrades (lines 30-50)

  /** The command's flags and what the selection consults. */
  datatype Context = Context(
    aptOnly: bool,
    mprOnly: bool,
    dpkg: map<string, Stanza>,
    mprVersion: map<string, string>,
    older: (string, string) -> bool)

  datatype Action = MarkApt | QueueMpr | Skip | Fail(error: UpgradeError)

  /** What the loop body does with one package. */
  function Decide(ctx: Context, pkg: AptPackage): Action {
    var name := pkg.name;
    if !ctx.mprOnly && pkg.upgradable && name in ctx.dpkg && "MPR-Package" !in ctx.dpkg[name] then MarkApt
    else if !ctx.aptOnly && name in ctx.dpkg && "MPR-Package" in ctx.dpkg[name] then
      if "Version" !in ctx.dpkg[name] then Fail(NoVersionField(name))
      else if name !in ctx.mprVersion then Fail(NotOnMpr(name))
      else if ctx.older(ctx.dpkg[name]["Version"], ctx.mprVersion[name]) then QueueMpr
      else Skip
    else Skip
  }

  /** The MPR queue and the APT marks after the first `n` packages, or the first panic. */
  datatype Selection = Selection(queue: Result<seq<string>, UpgradeError>, marks: map<string, Mark>)

  function Select(ctx: Context, pkgs: seq<AptPackage>, marks: map<string, Mark>): (r: Selection)
    ensures marks.Keys <= r.marks.Keys
  {
    if |pkgs| == 0 then Selection(Ok([]), marks)
    else
      var prev := Select(ctx, pkgs[..|pkgs| - 1], marks);
      var pkg := pkgs[|pkgs| - 1];
      if prev.queue.Err? then prev
      else
        match Decide(ctx, pkg)
        case MarkApt => Selection(prev.queue, prev.marks[pkg.name := Install(pkg.autoInstalled)])
        case QueueMpr => Selection(Ok(prev.queue.value + [pkg.name]), prev.marks)
        case Skip => prev
        case Fail(e) => Selection(Err(e), prev.marks)
  }

  /** The selection only marks packages that are upgradable, known to dpkg and not built from
      the MPR, and only when the command is not MPR-only; a package keeps its automatic flag. */
  lemma {:induction false} MarkedOnlyFromApt(ctx: Context, pkgs: seq<AptPackage>, marks: map<string, Mark>, x: string)
    requires x in marks
    ensures var s := Select(ctx, pkgs, marks);
            x in s.marks &&
            (s.marks[x] != marks[x] ==>
              && !ctx.mprOnly && x in ctx.dpkg && "MPR-Package" !in ctx.dpkg[x]
              && exists i :: 0 <= i < |pkgs| && pkgs[i].name == x && pkgs[i].upgradable
                               && s.marks[x] == Install(pkgs[i].autoInstalled))
  {
    if |pkgs| > 0 {
      MarkedOnlyFromApt(ctx, pkgs[..|pkgs| - 1], marks, x);
    }
  }

  /** The selection only queues packages built from the MPR whose installed version is older
      than the MPR's, and only when the command is not APT-only. */
  lemma {:induction false} QueuedOnlyFromMpr(ctx: Context, pkgs: seq<AptPackage>, marks: map<string, Mark>, x: string)
    requires Select(ctx, pkgs, marks).queue.Ok? && x in Select(ctx, pkgs, marks).queue.value
    ensures && !ctx.aptOnly && x in ctx.dpkg && "MPR-Package" in ctx.dpkg[x]
            && "Version" in ctx.dpkg[x] && x in ctx.mprVersion
            && ctx.older(ctx.dpkg[x]["Version"], ctx.mprVersion[x])
            && exists i :: 0 <= i < |pkgs| && pkgs[i].name == x
  {
    var init := pkgs[..|pkgs| - 1];
    var prev := Select(ctx, init, marks);
    if prev.queue.Ok? && x in prev.queue.value {
      QueuedOnlyFromMpr(ctx, init, marks, x);
    }
  }

  /** No package is both marked for APT and queued for the MPR. */
  lemma NeverBoth(ctx: Context, pkgs: seq<AptPackage>, marks: map<string, Mark>, x: string)
    requires x in marks
    requires Select(ctx, pkgs, marks).queue.Ok? && x in Select(ctx, pkgs, marks).queue.value
    ensures Select(ctx, pkgs, marks).marks[x] == marks[x]
  {
    QueuedOnlyFromMpr(ctx, pkgs, marks, x);
    MarkedOnlyFromApt(ctx, pkgs, marks, x);
  }

  /** With `--apt-only` nothing is queued; with `--mpr-only` no mark changes. */
  lemma {:induction false} OnlyFlags(ctx: Context, pkgs: seq<AptPackage>, marks: map<string, Mark>)
    ensures ctx.aptOnly ==> Select(ctx, pkgs, marks).queue == Ok([])
    ensures ctx.mprOnly ==> Select(ctx, pkgs, marks).marks == marks
  {
    if |pkgs| > 0 {
      OnlyFlags(ctx, pkgs[..|pkgs| - 1], marks);
    }
  }

  /** Every package that passes the MPR test is queued, in loop order: the queue of a longer
      run of packages extends the queue of a shorter one. */
  lemma {:induction false} QueueGrows(ctx: Context, pkgs: seq<AptPackage>, marks: map<string, Mark>, n: nat)
    requires n <= |pkgs| && Select(ctx, pkgs, marks).queue.Ok?
    ensures Select(ctx, pkgs[..n], marks).queue.Ok?
    ensures Select(ctx, pkgs[..n], marks).queue.value <= Select(ctx, pkgs, marks).queue.value
    decreases |pkgs| - n
  {
    if n < |pkgs| {
      var longer := pkgs[..n + 1];
      assert longer[..n] == pkgs[..n];
      QueueGrows(ctx, pkgs, marks, n + 1);
      assert pkgs[..n + 1][..n + 1] == pkgs[..n + 1];
    } else {
      assert pkgs[..n] == pkgs;
    }
  }

  /** The package queued by step `n` comes right after what the first `n` steps queued. */
  lemma QueuedInOrder(ctx: Context, pkgs: seq<AptPackage>, marks: map<string, Mark>, n: nat)
    requires n < |pkgs| && Select(ctx, pkgs, marks).queue.Ok?
    requires Decide(ctx, pkgs[n]) == QueueMpr
    ensures Select(ctx, pkgs[..n], marks).queue.Ok?
    ensures Select(ctx, pkgs[..n], marks).queue.value + [pkgs[n].name] <= Select(ctx, pkgs, marks).queue.value
  {
    QueueGrows(ctx, pkgs, marks, n + 1);
    assert pkgs[..n + 1][..n] == pkgs[..n];
  }

  /** The loop over the non-virtual packages, given the dpkg map. */
  method SelectLoop(apt: AptEngine, ghost ctx: Context, pkgs: seq<AptPackage>,
                    aptOnly: bool, mprOnly: bool, dpkg: map<string, Stanza>, mprVersion: map<string, string>,
                    older: (string, string) -> bool)
    returns (r: Result<seq<string>, UpgradeError>)
    requires ctx == Context(aptOnly, mprOnly, dpkg, mprVersion, older)
    requires forall i :: 0 <= i < |pkgs| ==> pkgs[i].name in apt.marks
    modifies apt
    ensures Select(ctx, pkgs, old(apt.marks)) == Selection(r, apt.marks)
  {
    ghost var marks0 := apt.marks;
    var mprPkgs: seq<string> := [];
    var i := 0;
    while i < |pkgs|
      invariant 0 <= i <= |pkgs|
      invariant Select(ctx, pkgs[..i], marks0) == Selection(Ok(mprPkgs), apt.marks)
      invariant apt.marks.Keys == marks0.Keys
    {
      var pkg := pkgs[i];
      var name := pkg.name;
      assert pkgs[..i + 1][..i] == pkgs[..i];
      assert pkgs[..i + 1][i] == pkg;
      if !mprOnly && pkg.upgradable && name in dpkg && "MPR-Package" !in dpkg[name] {
        assert Decide(ctx, pkg) == MarkApt;
        apt.MarkInstall(name, !pkg.autoInstalled);
      } else if !aptOnly && name in dpkg && "MPR-Package" in dpkg[name] {
        if "Version" !in dpkg[name] {
          assert Decide(ctx, pkg) == Fail(NoVersionField(name));
          SelectErrSticky(ctx, pkgs, marks0, i + 1);
          return Err(NoVersionField(name));
        }
        if name !in mprVersion {
          assert Decide(ctx, pkg) == Fail(NotOnMpr(name));
          SelectErrSticky(ctx, pkgs, marks0, i + 1);
          return Err(NotOnMpr(name));
        }
        if older(dpkg[name]["Version"], mprVersion[name]) {
          assert Decide(ctx, pkg) == QueueMpr;
          mprPkgs := mprPkgs + [name];
        } else {
          assert Decide(ctx, pkg) == Skip;
        }
      } else {
        assert Decide(ctx, pkg) == Skip;
      }
      i := i + 1;
    }
    assert pkgs[..i] == pkgs;
    r := Ok(mprPkgs);
  }

  /** `upgrade` up to the ordering of the MPR queue: build the dpkg map, then mark or queue
      each non-virtual package. */
  method SelectUpgrades(apt: AptEngine, pkgs: seq<AptPackage>, stanzas: seq<Stanza>,
                        aptOnly: bool, mprOnly: bool, mprVersion: map<string, string>,
                        older: (string, string) -> bool)
    returns (r: Result<seq<string>, UpgradeError>)
    requires forall i :: 0 <= i < |pkgs| ==> pkgs[i].name in apt.marks
    modifies apt
    ensures DpkgMap(stanzas).Err? ==> r == Err(DpkgMap(stanzas).error) && apt.marks == old(apt.marks)
    ensures DpkgMap(stanzas).Ok? ==>
              Select(Context(aptOnly, mprOnly, DpkgMap(stanzas).value, mprVersion, older), pkgs, old(apt.marks))
              == Selection(r, apt.marks)
  {
    var dpkgMap := BuildDpkgMap(stanzas);
    if dpkgMap.Err? {
      return Err(dpkgMap.error);
    }
    var dpkg := dpkgMap.value;
    r := SelectLoop(apt, Context(aptOnly, mprOnly, dpkg, mprVersion, older), pkgs, aptOnly, mprOnly, dpkg, mprVersion, older);
  }

  /** After a panic the rest of the packages change nothing. */
  lemma {:induction false} SelectErrSticky(ctx: Context, pkgs: seq<AptPackage>, marks: map<string, Mark>, k: nat)
    requires k <= |pkgs| && Select(ctx, pkgs[..k], marks).queue.Err?
    ensures Select(ctx, pkgs, marks) == Select(ctx, pkgs[..k], marks)
    decreases |pkgs| - k
  {
    if k < |pkgs| {
      assert pkgs[..k + 1][..k] == pkgs[..k];
      SelectErrSticky(ctx, pkgs, marks, k + 1);
    } else {
      assert pkgs[..k] == pkgs;
    }
  }
}
