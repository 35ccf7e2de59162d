/** `quick_list` in `src/quick_list.rs`: the names starting with a prefix, first those of APT's
    cache (unless MPR-only) and then those of the MPR (unless APT-only), one per line.

    The APT names are the inputs `aptNames`, in the order of the default package sort; the MPR
    packages are the archive's entries in order. */
module QuickList {
  import opened Text
  import opened Cache

  /** The names of `names` that start with `prefix`, in order. */
  function Prefixed(names: seq<string>, prefix: string): (r: seq<string>)
    ensures forall x :: x in r <==> x in names && StartsWith(x, prefix)
  {
    if |names| == 0 then []
    else
      var init := names[..|names| - 1];
      var last := names[|names| - 1];
      assert names == init + [last];
      Prefixed(init, prefix) + (if StartsWith(last, prefix) then [last] else [])
  }

  /** Filtering by prefix keeps every occurrence of a kept name. */
  lemma {:induction false} PrefixedCount(names: seq<string>, prefix: string, x: string)
    ensures multiset(Prefixed(names, prefix))[x] == if StartsWith(x, prefix) then multiset(names)[x] else 0
  {
    if |names| > 0 {
      var init := names[..|names| - 1];
      PrefixedCount(init, prefix, x);
      assert names == init + [names[|names| - 1]];
    }
  }

  function PkgNames(pkgs: seq<MprPkg>): (r: seq<string>)
    ensures |r| == |pkgs| && forall k :: 0 <= k < |r| ==> r[k] == pkgs[k].pkgname
  {
    if |pkgs| == 0 then [] else PkgNames(pkgs[..|pkgs| - 1]) + [pkgs[|pkgs| - 1].pkgname]
  }

  /** The lines `quick_list` prints. */
  function Output(aptNames: seq<string>, mprPkgs: seq<MprPkg>, prefix: string, aptOnly: bool, mprOnly: bool): seq<string> {
    (if !mprOnly then Prefixed(aptNames, prefix) else [])
    + (if !aptOnly then Prefixed(PkgNames(mprPkgs), prefix) else [])
  }

  /** All APT lines come first: up to position `k` every line is a prefixed APT name, from
      there on a prefixed MPR name; MPR-only prints no APT line and APT-only no MPR line. */
  lemma AptFirst(aptNames: seq<string>, mprPkgs: seq<MprPkg>, prefix: string, aptOnly: bool, mprOnly: bool)
    returns (k: nat)
    ensures var r := Output(aptNames, mprPkgs, prefix, aptOnly, mprOnly);
            && k <= |r|
            && (forall i :: 0 <= i < k ==> r[i] in aptNames && StartsWith(r[i], prefix))
            && (forall i :: k <= i < |r| ==> r[i] in PkgNames(mprPkgs) && StartsWith(r[i], prefix))
            && (mprOnly ==> k == 0)
            && (aptOnly ==> k == |r|)
  {
    var a := if !mprOnly then Prefixed(aptNames, prefix) else [];
    var m := if !aptOnly then Prefixed(PkgNames(mprPkgs), prefix) else [];
    var r := Output(aptNames, mprPkgs, prefix, aptOnly, mprOnly);
    assert r == a + m;
    k := |a|;
    forall i | 0 <= i < k
      ensures r[i] in aptNames && StartsWith(r[i], prefix)
    {
      assert r[i] == a[i] && a[i] in a;
    }
    forall i | k <= i < |r|
      ensures r[i] in PkgNames(mprPkgs) && StartsWith(r[i], prefix)
    {
      assert r[i] == m[i - k] && m[i - k] in m;
    }
  }

  /** A name that starts with the prefix is printed once per listing of it in each catalog that
      is not excluded, so a name both catalogs have is printed twice. */
  lemma Occurrences(aptNames: seq<string>, mprPkgs: seq<MprPkg>, prefix: string, aptOnly: bool, mprOnly: bool, x: string)
    ensures multiset(Output(aptNames, mprPkgs, prefix, aptOnly, mprOnly))[x] ==
            if StartsWith(x, prefix) then
              (if !mprOnly then multiset(aptNames)[x] else 0) + (if !aptOnly then multiset(PkgNames(mprPkgs))[x] else 0)
            else 0
  {
    PrefixedCount(aptNames, prefix, x);
    PrefixedCount(PkgNames(mprPkgs), prefix, x);
  }

  /** A name is printed exactly when it starts with the prefix and a catalog that is not
      excluded has it. */
  lemma Printed(aptNames: seq<string>, mprPkgs: seq<MprPkg>, prefix: string, aptOnly: bool, mprOnly: bool, x: string)
    ensures x in Output(aptNames, mprPkgs, prefix, aptOnly, mprOnly) <==>
            && StartsWith(x, prefix)
            && ((!mprOnly && x in aptNames) || (!aptOnly && exists k :: 0 <= k < |mprPkgs| && mprPkgs[k].pkgname == x))
  {
    var names := PkgNames(mprPkgs);
    if exists k :: 0 <= k < |mprPkgs| && mprPkgs[k].pkgname == x {
      var k :| 0 <= k < |mprPkgs| && mprPkgs[k].pkgname == x;
      assert names[k] == x;
    }
  }
}
