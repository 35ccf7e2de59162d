/** `search` in `src/search.rs`: the MPR packages matching any query argument, each once and
    in archive order, printed as blocks separated by blank lines.

    The archive is the sequence of `Cache.MprPkg` entries (the fields of `MprCache` in
    `src/mpr_cache.rs`); `str::to_lowercase`, the colour of the name and the formatting of the
    out-of-date timestamp are the parameters `lower`, `paint` and `date`. */
module Search {
  import opened Wrappers
  import opened Text
  import opened Cache

  // ---------------------------------------------------------------------------------------
  // Matching (lines 11-27)

  /** The package's name holds `arg` (case-sensitively), or its lower-cased description does. */
  predicate MatchesArg(pkg: MprPkg, arg: string, lower: string -> string) {
    Contains(pkg.pkgname, arg) || (pkg.pkgdesc.Some? && Contains(lower(pkg.pkgdesc.value), arg))
  }

  /** The package matches at least one of the arguments. */
  predicate MatchesAny(pkg: MprPkg, args: seq<string>, lower: string -> string) {
    exists k :: 0 <= k < |args| && MatchesArg(pkg, args[k], lower)
  }

  /** The matches after the first `n` packages of the archive: each matching package added
      unless an equal one is already there. */
  function Found(archive: seq<MprPkg>, n: nat, args: seq<string>, lower: string -> string): seq<MprPkg>
    requires n <= |archive|
  {
    if n == 0 then []
    else
      var prev := Found(archive, n - 1, args, lower);
      var pkg := archive[n - 1];
      prev + (if MatchesAny(pkg, args, lower) && pkg !in prev then [pkg] else [])
  }

  /** A package is a match exactly when it is in the archive and matches some argument. */
  lemma {:induction false} FoundMembers(archive: seq<MprPkg>, n: nat, args: seq<string>, lower: string -> string, p: MprPkg)
    requires n <= |archive|
    ensures p in Found(archive, n, args, lower) <==>
            (exists i :: 0 <= i < n && archive[i] == p) && MatchesAny(p, args, lower)
  {
    if n > 0 {
      FoundMembers(archive, n - 1, args, lower, p);
    }
  }

  predicate Distinct<T(==)>(s: seq<T>) {
    forall k, l :: 0 <= k < l < |s| ==> s[k] != s[l]
  }

  /** No package is listed twice. */
  lemma {:induction false} FoundDistinct(archive: seq<MprPkg>, n: nat, args: seq<string>, lower: string -> string)
    requires n <= |archive|
    ensures Distinct(Found(archive, n, args, lower))
  {
    if n > 0 {
      var prev := Found(archive, n - 1, args, lower);
      FoundDistinct(archive, n - 1, args, lower);
      var pkg := archive[n - 1];
      var added := MatchesAny(pkg, args, lower) && pkg !in prev;
      var f := Found(archive, n, args, lower);
      assert f == prev + (if added then [pkg] else []);
      forall k, l | 0 <= k < l < |f|
        ensures f[k] != f[l]
      {
        assert f[k] == prev[k];
        if l == |prev| {
          assert added && f[l] == pkg;
          assert prev[k] in prev;
        } else {
          assert f[l] == prev[l];
        }
      }
    }
  }

  /** The matches follow the archive: each sits at an archive position after the previous
      one's. */
  lemma {:induction false} FoundIndices(archive: seq<MprPkg>, n: nat, args: seq<string>, lower: string -> string)
    returns (idx: seq<nat>)
    requires n <= |archive|
    ensures |idx| == |Found(archive, n, args, lower)|
    ensures forall k :: 0 <= k < |idx| ==> idx[k] < n && archive[idx[k]] == Found(archive, n, args, lower)[k]
    ensures forall k, l :: 0 <= k < l < |idx| ==> idx[k] < idx[l]
  {
    if n == 0 {
      idx := [];
    } else {
      var prev := Found(archive, n - 1, args, lower);
      var pidx := FoundIndices(archive, n - 1, args, lower);
      var pkg := archive[n - 1];
      if MatchesAny(pkg, args, lower) && pkg !in prev {
        assert Found(archive, n, args, lower) == prev + [pkg];
        idx := pidx + [n - 1];
      } else {
        assert Found(archive, n, args, lower) == prev;
        idx := pidx;
      }
    }
  }

  /** The match loop of `search`. */
  method FindMatches(archive: seq<MprPkg>, args: seq<string>, lower: string -> string) returns (matches: seq<MprPkg>)
    ensures matches == Found(archive, |archive|, args, lower)
  {
    matches := [];
    var i := 0;
    while i < |archive|
      invariant 0 <= i <= |archive|
      invariant matches == Found(archive, i, args, lower)
    {
      var pkg := archive[i];
      ghost var base := matches;
      var j := 0;
      while j < |args|
        invariant 0 <= j <= |args|
        invariant matches == base + (if pkg !in base && MatchesAny(pkg, args[..j], lower) then [pkg] else [])
      {
        var arg := args[j];
        assert forall k :: 0 <= k < j ==> args[..j + 1][k] == args[..j][k];
        assert args[..j + 1][j] == arg;
        if Contains(pkg.pkgname, arg) && pkg !in matches {
          matches := matches + [pkg];
        }
        if pkg.pkgdesc.Some? && Contains(lower(pkg.pkgdesc.value), arg) && pkg !in matches {
          matches := matches + [pkg];
        }
        if MatchesArg(pkg, arg, lower) {
          assert MatchesAny(pkg, args[..j + 1], lower);
        } else if MatchesAny(pkg, args[..j + 1], lower) {
          var k :| 0 <= k < j + 1 && MatchesArg(pkg, args[..j + 1][k], lower);
          assert MatchesAny(pkg, args[..j], lower);
        }
        j := j + 1;
      }
      assert args[..j] == args;
      i := i + 1;
    }
  }

  // ---------------------------------------------------------------------------------------
  // Output (lines 29-74)

  /** How the terminal shows the parts of an entry that are not plain text. */
  datatype Display = Display(paint: string -> string, date: nat -> string)

  /** The lines printed for one match. */
  function EntryLines(pkg: MprPkg, d: Display): (r: seq<string>)
    ensures |r| == 4 + (if pkg.pkgdesc.Some? then 1 else 0) + (if pkg.maintainer.Some? then 1 else 0)
    ensures r[0] == d.paint(pkg.pkgname) + "/" + pkg.version
    ensures pkg.pkgdesc.Some? ==> r[1] == "Description: " + pkg.pkgdesc.value
    ensures pkg.maintainer.Some? ==> r[|r| - 4] == "Maintainer: " + pkg.maintainer.value
    ensures r[|r| - 3] == "Votes: " + NatToString(pkg.numVotes)
    ensures r[|r| - 2] == "Popularity: " + pkg.popularity
    ensures r[|r| - 1] == "Out of Date: " + (if pkg.ood.Some? then d.date(pkg.ood.value) else "N/A")
  {
    [d.paint(pkg.pkgname) + "/" + pkg.version]
    + (if pkg.pkgdesc.Some? then ["Description: " + pkg.pkgdesc.value] else [])
    + (if pkg.maintainer.Some? then ["Maintainer: " + pkg.maintainer.value] else [])
    + ["Votes: " + NatToString(pkg.numVotes), "Popularity: " + pkg.popularity,
       "Out of Date: " + (if pkg.ood.Some? then d.date(pkg.ood.value) else "N/A")]
  }

  /** The text printed for one match: its lines, each ended by a newline. */
  function EntryText(pkg: MprPkg, d: Display): string {
    Terminated(EntryLines(pkg, d), "\n")
  }

  function EntryTexts(matches: seq<MprPkg>, d: Display): (r: seq<string>)
    ensures |r| == |matches| && forall k :: 0 <= k < |r| ==> r[k] == EntryText(matches[k], d)
  {
    if |matches| == 0 then [] else EntryTexts(matches[..|matches| - 1], d) + [EntryText(matches[|matches| - 1], d)]
  }

  /** The printing of `search`: `"No results."` alone when nothing matched, otherwise the
      entries with a blank line between consecutive ones and none after the last. */
  method PrintMatches(matches: seq<MprPkg>, d: Display) returns (out: string)
    ensures |matches| == 0 ==> out == "No results.\n"
    ensures |matches| > 0 ==> out == Join(EntryTexts(matches, d), "\n")
  {
    if |matches| == 0 {
      return "No results.\n";
    }
    var last := |matches| - 1;
    out := "";
    var index := 0;
    while index < |matches|
      invariant 0 <= index <= |matches|
      invariant index > 0 ==> out == Join(EntryTexts(matches[..index], d), "\n") + (if index <= last then "\n" else "")
      invariant index == 0 ==> out == ""
    {
      var text := EntryText(matches[index], d);
      EntryStep(matches, d, index);
      out := out + text;
      if index < last {
        out := out + "\n";
      }
      index := index + 1;
    }
    assert matches[..index] == matches;
    assert out == Join(EntryTexts(matches, d), "\n");
  }

  /** One more match extends the output by a newline (unless it is the first) and its text. */
  lemma EntryStep(matches: seq<MprPkg>, d: Display, index: nat)
    requires index < |matches|
    ensures Join(EntryTexts(matches[..index + 1], d), "\n") ==
            (if index == 0 then "" else Join(EntryTexts(matches[..index], d), "\n") + "\n") + EntryText(matches[index], d)
  {
    var prev := EntryTexts(matches[..index], d);
    assert matches[..index + 1][..index] == matches[..index];
    assert EntryTexts(matches[..index + 1], d) == prev + [EntryText(matches[index], d)];
    JoinStep(prev, EntryText(matches[index], d), "\n");
  }

  /** The whole of `search` after the archive is loaded. */
  method RunSearch(archive: seq<MprPkg>, args: seq<string>, lower: string -> string, d: Display) returns (out: string)
    ensures var f := Found(archive, |archive|, args, lower);
            out == if |f| == 0 then "No results.\n" else Join(EntryTexts(f, d), "\n")
  {
    var matches := FindMatches(archive, args, lower);
    out := PrintMatches(matches, d);
  }
}
