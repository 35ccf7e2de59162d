/** `list` in `src/list.rs`: the cache's packages, or the search results of each query in
    turn, filtered by installation state and by source, reduced to the first entry of each
    name and joined into the command's output.

    `Cache::pkglist` and `Cache::search` are the inputs `pkglist` and `search`; the blocks of
    full entries are those of `Style.EntryText`. */
module List {
  import opened Wrappers
  import opened Text
  import opened Cache
  import Style

  /** The three arms of the `match mode` (lines 36-46). */
  datatype SearchMode = NoMode | AptOnly | MprOnly

  // ---------------------------------------------------------------------------------------
  // Gathering (lines 18-25)

  /** The search results of each query, one query after the other (`flat_map`). */
  function Searched(queries: seq<string>, search: string -> seq<CachePackage>): seq<CachePackage> {
    if |queries| == 0 then [] else Searched(queries[..|queries| - 1], search) + search(queries[|queries| - 1])
  }

  /** The results of two runs of queries follow one another. */
  lemma {:induction false} SearchedAppend(a: seq<string>, b: seq<string>, search: string -> seq<CachePackage>)
    ensures Searched(a + b, search) == Searched(a, search) + Searched(b, search)
    decreases |b|
  {
    if |b| > 0 {
      assert (a + b)[..|a + b| - 1] == a + b[..|b| - 1];
      SearchedAppend(a, b[..|b| - 1], search);
    } else {
      assert a + b == a;
    }
  }

  /** A package is gathered exactly when some query's search returns it. */
  lemma {:induction false} SearchedMembers(queries: seq<string>, search: string -> seq<CachePackage>, p: CachePackage)
    ensures p in Searched(queries, search) <==> exists k :: 0 <= k < |queries| && p in search(queries[k])
  {
    if |queries| > 0 {
      var init := queries[..|queries| - 1];
      SearchedMembers(init, search, p);
      assert forall k :: 0 <= k < |init| ==> init[k] == queries[k];
    }
  }

  /** The packages `list` starts from: the whole package list without queries, else the
      search results of the queries. */
  function Gathered(queries: seq<string>, pkglist: seq<CachePackage>, search: string -> seq<CachePackage>): seq<CachePackage> {
    if |queries| == 0 then pkglist else Searched(queries, search)
  }

  // ---------------------------------------------------------------------------------------
  // Filters (lines 27-46)

  /** The elements satisfying `keep`, in order (`into_iter().filter(..).collect()`). */
  function Filter(s: seq<CachePackage>, keep: CachePackage -> bool): (r: seq<CachePackage>)
    ensures |r| <= |s|
  {
    if |s| == 0 then [] else Filter(s[..|s| - 1], keep) + (if keep(s[|s| - 1]) then [s[|s| - 1]] else [])
  }

  /** An element is kept exactly when it is in the input and satisfies `keep`. */
  lemma {:induction false} FilterMembers(s: seq<CachePackage>, keep: CachePackage -> bool, x: CachePackage)
    ensures x in Filter(s, keep) <==> x in s && keep(x)
  {
    if |s| > 0 {
      var init := s[..|s| - 1];
      FilterMembers(init, keep, x);
      assert s == init + [s[|s| - 1]];
    }
  }

  /** Filtering keeps order: the kept elements sit at increasing positions of the input. */
  lemma {:induction false} FilterIndices(s: seq<CachePackage>, keep: CachePackage -> bool) returns (idx: seq<nat>)
    ensures |idx| == |Filter(s, keep)|
    ensures forall k :: 0 <= k < |idx| ==> idx[k] < |s| && s[idx[k]] == Filter(s, keep)[k]
    ensures forall k, l :: 0 <= k < l < |idx| ==> idx[k] < idx[l]
    ensures forall i :: 0 <= i < |s| && keep(s[i]) ==> i in idx
  {
    if |s| == 0 {
      idx := [];
    } else {
      var init := s[..|s| - 1];
      var last := s[|s| - 1];
      var prev := FilterIndices(init, keep);
      var f := Filter(init, keep);
      var r := Filter(s, keep);
      assert forall i :: 0 <= i < |init| ==> init[i] == s[i];
      if keep(last) {
        assert r == f + [last];
        idx := prev + [|s| - 1];
        assert forall k :: 0 <= k < |prev| ==> idx[k] == prev[k] && r[k] == f[k];
      } else {
        assert r == f;
        idx := prev;
      }
    }
  }

  /** The entry reports the package as installed. */
  predicate Installed(p: CachePackage) {
    p.isInstalled == Some(true)
  }

  /** The test each search mode applies to a package's source. */
  function ModeKeeps(mode: SearchMode): CachePackage -> bool {
    match mode
    case NoMode => (p: CachePackage) => true
    case AptOnly => (p: CachePackage) => p.source == Apt
    case MprOnly => (p: CachePackage) => p.source == Mpr
  }

  /** The packages the installed-only filter and then the mode's filter keep, in order. */
  function Selected(pkgs: seq<CachePackage>, mode: SearchMode, installedOnly: bool): seq<CachePackage> {
    var pkgs1 := if installedOnly then Filter(pkgs, Installed) else pkgs;
    match mode
    case NoMode => pkgs1
    case AptOnly => Filter(pkgs1, ModeKeeps(AptOnly))
    case MprOnly => Filter(pkgs1, ModeKeeps(MprOnly))
  }

  /** A package survives the filters exactly when it is installed (if installed-only is set)
      and comes from the source the mode asks for. */
  lemma SelectedMembers(pkgs: seq<CachePackage>, mode: SearchMode, installedOnly: bool, p: CachePackage)
    ensures p in Selected(pkgs, mode, installedOnly) <==>
            && p in pkgs
            && (installedOnly ==> p.isInstalled == Some(true))
            && (mode == AptOnly ==> p.source == Apt)
            && (mode == MprOnly ==> p.source == Mpr)
  {
    var pkgs1 := if installedOnly then Filter(pkgs, Installed) else pkgs;
    FilterMembers(pkgs, Installed, p);
    FilterMembers(pkgs1, ModeKeeps(mode), p);
  }

  // ---------------------------------------------------------------------------------------
  // Unique names (lines 48-51)

  /** `unique_by(|pkg| pkg.pkgname)`: each package whose name is neither in `seen` nor met
      earlier, in order; `seen` is the iterator's set of names already used. */
  function UniqueFrom(pkgs: seq<CachePackage>, seen: set<string>): seq<CachePackage>
    decreases |pkgs|
  {
    if |pkgs| == 0 then []
    else if pkgs[0].pkgname in seen then UniqueFrom(pkgs[1..], seen)
    else [pkgs[0]] + UniqueFrom(pkgs[1..], seen + {pkgs[0].pkgname})
  }

  /** `unique_by(|pkg| pkg.pkgname)` from an empty set of seen names. */
  function UniqueByName(pkgs: seq<CachePackage>): seq<CachePackage> {
    UniqueFrom(pkgs, {})
  }

  /** The kept names are distinct, and none of them was already seen. */
  lemma {:induction false} UniqueDistinct(pkgs: seq<CachePackage>, seen: set<string>)
    ensures forall k :: 0 <= k < |UniqueFrom(pkgs, seen)| ==> UniqueFrom(pkgs, seen)[k].pkgname !in seen
    ensures forall k, l :: 0 <= k < l < |UniqueFrom(pkgs, seen)| ==>
              UniqueFrom(pkgs, seen)[k].pkgname != UniqueFrom(pkgs, seen)[l].pkgname
    decreases |pkgs|
  {
    if |pkgs| > 0 {
      var p := pkgs[0];
      if p.pkgname in seen {
        UniqueDistinct(pkgs[1..], seen);
      } else {
        var seen' := seen + {p.pkgname};
        var rest := UniqueFrom(pkgs[1..], seen');
        UniqueDistinct(pkgs[1..], seen');
        var r := UniqueFrom(pkgs, seen);
        assert r == [p] + rest;
        forall k | 0 <= k < |r|
          ensures r[k].pkgname !in seen
        {
          if k > 0 {
            assert r[k] == rest[k - 1];
          }
        }
        forall k, l | 0 <= k < l < |r|
          ensures r[k].pkgname != r[l].pkgname
        {
          assert r[l] == rest[l - 1];
          if k > 0 {
            assert r[k] == rest[k - 1];
          }
        }
      }
    }
  }

  /** A name is kept exactly when the input has it and it was not already seen. */
  lemma {:induction false} UniqueHas(pkgs: seq<CachePackage>, seen: set<string>, n: string)
    ensures n in Names(UniqueFrom(pkgs, seen)) <==> n !in seen && n in Names(pkgs)
    decreases |pkgs|
  {
    if |pkgs| > 0 {
      var p := pkgs[0];
      assert Names(pkgs) == [p.pkgname] + Names(pkgs[1..]);
      if p.pkgname in seen {
        UniqueHas(pkgs[1..], seen, n);
      } else {
        var seen' := seen + {p.pkgname};
        UniqueHas(pkgs[1..], seen', n);
        assert Names(UniqueFrom(pkgs, seen)) == [p.pkgname] + Names(UniqueFrom(pkgs[1..], seen'));
      }
    }
  }

  /** The positions of the kept packages in the input are increasing: the order is kept. */
  lemma {:induction false} UniqueIndices(pkgs: seq<CachePackage>, seen: set<string>) returns (idx: seq<nat>)
    ensures |idx| == |UniqueFrom(pkgs, seen)|
    ensures forall k :: 0 <= k < |idx| ==> idx[k] < |pkgs| && pkgs[idx[k]] == UniqueFrom(pkgs, seen)[k]
    ensures forall k, l :: 0 <= k < l < |idx| ==> idx[k] < idx[l]
    decreases |pkgs|
  {
    if |pkgs| == 0 {
      idx := [];
    } else {
      var p := pkgs[0];
      var tail := pkgs[1..];
      var seen' := if p.pkgname in seen then seen else seen + {p.pkgname};
      var rest := UniqueFrom(tail, seen');
      var ridx := UniqueIndices(tail, seen');
      var shifted := seq(|ridx|, k requires 0 <= k < |ridx| => ridx[k] + 1);
      assert forall k :: 0 <= k < |ridx| ==> pkgs[shifted[k]] == rest[k];
      if p.pkgname in seen {
        idx := shifted;
        assert UniqueFrom(pkgs, seen) == rest;
      } else {
        idx := [0] + shifted;
        assert UniqueFrom(pkgs, seen) == [p] + rest;
        assert forall k :: 1 <= k < |idx| ==> idx[k] == shifted[k - 1];
      }
    }
  }

  /** Each kept package is the first of the input with its name: `i` is where it sits. */
  lemma {:induction false} UniqueFirst(pkgs: seq<CachePackage>, seen: set<string>, k: nat) returns (i: nat)
    requires k < |UniqueFrom(pkgs, seen)|
    ensures i < |pkgs| && pkgs[i] == UniqueFrom(pkgs, seen)[k]
    ensures forall j :: 0 <= j < i ==> pkgs[j].pkgname != pkgs[i].pkgname
    decreases |pkgs|
  {
    var p := pkgs[0];
    var tail := pkgs[1..];
    var r := UniqueFrom(pkgs, seen);
    if p.pkgname !in seen && k == 0 {
      i := 0;
    } else {
      var seen' := if p.pkgname in seen then seen else seen + {p.pkgname};
      var rest := UniqueFrom(tail, seen');
      var k' := if p.pkgname in seen then k else k - 1;
      assert r[k] == rest[k'];
      var i' := UniqueFirst(tail, seen', k');
      UniqueDistinct(tail, seen');
      i := i' + 1;
      assert pkgs[i] == tail[i'];
      forall j | 0 <= j < i
        ensures pkgs[j].pkgname != pkgs[i].pkgname
      {
        if j > 0 {
          assert pkgs[j] == tail[j - 1];
        } else {
          assert rest[k'].pkgname !in seen';
        }
      }
    }
  }

  // ---------------------------------------------------------------------------------------
  // The output (lines 53-59)

  /** The names `list` shows, in order. */
  function ListedNames(queries: seq<string>, pkglist: seq<CachePackage>, search: string -> seq<CachePackage>,
                       mode: SearchMode, installedOnly: bool): seq<string>
  {
    Names(UniqueByName(Selected(Gathered(queries, pkglist, search), mode, installedOnly)))
  }

  /** What `list` returns: the names joined by newlines, or the blocks joined by blank lines. */
  function ListOutput(queries: seq<string>, pkglist: seq<CachePackage>, search: string -> seq<CachePackage>,
                      mode: SearchMode, nameOnly: bool, installedOnly: bool,
                      cat: Style.Catalog, colours: Style.Colours): Result<string, Style.StyleError>
  {
    var names := ListedNames(queries, pkglist, search, mode, installedOnly);
    if nameOnly then Ok(Join(names, "\n"))
    else
      match Style.Blocks(names, cat, colours)
      case Err(e) => Err(e)
      case Ok(blocks) => Ok(Join(blocks, "\n\n"))
  }

  /** The names shown are distinct, and they are exactly the names of the packages that pass
      the filters. */
  lemma ListedNamesSpec(queries: seq<string>, pkglist: seq<CachePackage>, search: string -> seq<CachePackage>,
                        mode: SearchMode, installedOnly: bool)
    ensures var names := ListedNames(queries, pkglist, search, mode, installedOnly);
            forall k, l :: 0 <= k < l < |names| ==> names[k] != names[l]
    ensures var names := ListedNames(queries, pkglist, search, mode, installedOnly);
            var pkgs := Selected(Gathered(queries, pkglist, search), mode, installedOnly);
            forall n :: n in names <==> n in Names(pkgs)
  {
    var pkgs := Selected(Gathered(queries, pkglist, search), mode, installedOnly);
    UniqueDistinct(pkgs, {});
    forall n
      ensures n in Names(UniqueByName(pkgs)) <==> n in Names(pkgs)
    {
      UniqueHas(pkgs, {}, n);
    }
  }

  /** In name-only mode the output is the names separated by newlines with none after the
      last, so splitting it at newlines gives the names back when none holds a newline. */
  lemma NameOnlyOutput(queries: seq<string>, pkglist: seq<CachePackage>, search: string -> seq<CachePackage>,
                       mode: SearchMode, installedOnly: bool, cat: Style.Catalog, colours: Style.Colours)
    ensures var names := ListedNames(queries, pkglist, search, mode, installedOnly);
            ListOutput(queries, pkglist, search, mode, true, installedOnly, cat, colours) == Ok(Join(names, "\n"))
    ensures var names := ListedNames(queries, pkglist, search, mode, installedOnly);
            |names| > 0 && (forall k :: 0 <= k < |names| ==> '\n' !in names[k]) ==>
              Split(Join(names, "\n"), '\n') == names
  {
    var names := ListedNames(queries, pkglist, search, mode, installedOnly);
    if |names| > 0 && (forall k :: 0 <= k < |names| ==> '\n' !in names[k]) {
      JoinSplit(names, '\n');
    }
  }

  /** Otherwise the output is every kept name's entry, in order, with a blank line between
      consecutive ones (`blocks` are those entries); it fails exactly when one of those names
      has no entry. */
  lemma FullOutput(queries: seq<string>, pkglist: seq<CachePackage>, search: string -> seq<CachePackage>,
                   mode: SearchMode, installedOnly: bool, cat: Style.Catalog, colours: Style.Colours)
    returns (blocks: seq<string>)
    ensures var names := ListedNames(queries, pkglist, search, mode, installedOnly);
            ListOutput(queries, pkglist, search, mode, false, installedOnly, cat, colours).Ok? <==>
            forall k :: 0 <= k < |names| ==> Style.EntryText(names[k], cat, false, colours).Ok?
    ensures var names := ListedNames(queries, pkglist, search, mode, installedOnly);
            var out := ListOutput(queries, pkglist, search, mode, false, installedOnly, cat, colours);
            out.Ok? ==>
              && |blocks| == |names|
              && (forall k :: 0 <= k < |names| ==> blocks[k] == Style.EntryText(names[k], cat, false, colours).value)
              && out.value == Join(blocks, "\n\n")
  {
    var names := ListedNames(queries, pkglist, search, mode, installedOnly);
    Style.BlocksSpec(names, cat, colours);
    blocks := [];
    var b := Style.Blocks(names, cat, colours);
    var out := ListOutput(queries, pkglist, search, mode, false, installedOnly, cat, colours);
    if b.Ok? {
      blocks := b.value;
      assert out == Ok(Join(blocks, "\n\n"));
    } else {
      assert out == Err(b.error);
    }
  }
}
