/** The package information blocks of `src/style.rs`: `generate_pkginfo_entry` writes one
    package's block (name, version, source tag, description and the MPR's extra fields), and
    `generate_pkginfo_entries` filters a list of names and joins their blocks.

    What APT and the MPR know of a name is a `Catalog`; terminal colours, bold text and the
    formatting of the out-of-date timestamp are the functions of a `Colours` value. */
module Style {
  import opened Wrappers
  import opened Text
  import opened Cache

  /** What APT knows of a package: whether it is installed, and its candidate version with
      the candidate's description. */
  datatype AptCandidateInfo = AptCandidateInfo(version: string, description: Option<string>)
  datatype AptView = AptView(installed: bool, candidate: Option<AptCandidateInfo>)

  datatype Catalog = Catalog(apt: map<string, AptView>, mpr: map<string, MprPkg>)

  datatype Colours = Colours(orange: string -> string, purple: string -> string, bold: string -> string,
                             date: nat -> string)

  datatype StyleError =
    | NoSource(name: string)     // `sources_str.pop().unwrap()` at line 50, for a name neither catalog has
    | NoCandidate(name: string)  // `candidate().unwrap()` at lines 64 and 71

  // ---------------------------------------------------------------------------------------
  // One entry (lines 15-130)

  /** The sources of the tag, APT first. */
  function Sources(name: string, cat: Catalog, c: Colours): seq<string> {
    (if name in cat.apt then [c.purple("APT")] else []) + (if name in cat.mpr then [c.purple("MPR")] else [])
  }

  /** The tag is `[APT, MPR]`, `[APT]` or `[MPR]`, in the purple of the sources. */
  lemma SourceTag(name: string, cat: Catalog, c: Colours)
    ensures name in cat.apt && name in cat.mpr ==>
              "[" + Join(Sources(name, cat, c), ", ") + "]" == "[" + c.purple("APT") + ", " + c.purple("MPR") + "]"
    ensures name in cat.apt && name !in cat.mpr ==> "[" + Join(Sources(name, cat, c), ", ") + "]" == "[" + c.purple("APT") + "]"
    ensures name !in cat.apt && name in cat.mpr ==> "[" + Join(Sources(name, cat, c), ", ") + "]" == "[" + c.purple("MPR") + "]"
    ensures Sources(name, cat, c) == [] <==> name !in cat.apt && name !in cat.mpr
  {
    var s := Sources(name, cat, c);
    if name in cat.apt && name in cat.mpr {
      assert s == [c.purple("APT"), c.purple("MPR")];
      assert s[1..] == [c.purple("MPR")];
    }
  }

  /** The version and description shown: an installed APT package's candidate first, then the
      MPR package, then APT's candidate. */
  function Chosen(name: string, cat: Catalog): Result<AptCandidateInfo, StyleError> {
    if name in cat.apt && cat.apt[name].installed then
      if cat.apt[name].candidate.Some? then Ok(cat.apt[name].candidate.value) else Err(NoCandidate(name))
    else if name in cat.mpr then Ok(AptCandidateInfo(cat.mpr[name].version, cat.mpr[name].pkgdesc))
    else if name in cat.apt then
      if cat.apt[name].candidate.Some? then Ok(cat.apt[name].candidate.value) else Err(NoCandidate(name))
    else Err(NoSource(name))
  }

  /** The out-of-date line; the date is written under the label `Popularity:`. */
  function OutOfDateLine(p: MprPkg, c: Colours): string {
    "\n" + c.bold("Popularity:") + " " + (if p.ood.Some? then c.date(p.ood.value) else "N/A")
  }

  /** The lines the MPR adds: maintainer (if any), votes, popularity, then the out-of-date line. */
  function MprLines(p: MprPkg, c: Colours): string {
    (if p.maintainer.Some? then "\n" + c.bold("Maintainer:") + " " + p.maintainer.value else "")
    + "\n" + c.bold("Votes:") + " " + NatToString(p.numVotes)
    + "\n" + c.bold("Popularity:") + " " + p.popularity
    + OutOfDateLine(p, c)
  }

  /** The first line: the name, the version shown and the source tag. */
  function Header(name: string, cat: Catalog, c: Colours, info: AptCandidateInfo): string {
    c.orange(name) + "/" + info.version + " " + "[" + Join(Sources(name, cat, c), ", ") + "]"
  }

  /** The description line, `N/A` when there is no description. */
  function DescriptionLine(c: Colours, info: AptCandidateInfo): string {
    "\n" + c.bold("Description:") + " " + info.description.GetOr("N/A")
  }

  /** The MPR's lines when the MPR has the name, otherwise nothing. */
  function MprPart(name: string, cat: Catalog, c: Colours): string {
    if name in cat.mpr then MprLines(cat.mpr[name], c) else ""
  }

  /** The block `generate_pkginfo_entry` returns, or its panic. */
  function EntryText(name: string, cat: Catalog, nameOnly: bool, c: Colours): Result<string, StyleError> {
    if nameOnly then Ok(name)
    else if Sources(name, cat, c) == [] then Err(NoSource(name))
    else
      match Chosen(name, cat)
      case Err(e) => Err(e)
      case Ok(info) => Ok(Header(name, cat, c, info) + DescriptionLine(c, info) + MprPart(name, cat, c))
  }

  /** Which package's version a block shows, in order of precedence. */
  lemma EntryPrecedence(name: string, cat: Catalog, c: Colours)
    requires EntryText(name, cat, false, c).Ok?
    ensures name in cat.apt || name in cat.mpr
    ensures name in cat.apt && cat.apt[name].installed ==>
              cat.apt[name].candidate.Some? &&
              StartsWith(EntryText(name, cat, false, c).value, c.orange(name) + "/" + cat.apt[name].candidate.value.version + " ")
    ensures !(name in cat.apt && cat.apt[name].installed) && name in cat.mpr ==>
              StartsWith(EntryText(name, cat, false, c).value, c.orange(name) + "/" + cat.mpr[name].version + " ")
    ensures name in cat.apt && !cat.apt[name].installed && name !in cat.mpr ==>
              cat.apt[name].candidate.Some? &&
              StartsWith(EntryText(name, cat, false, c).value, c.orange(name) + "/" + cat.apt[name].candidate.value.version + " ")
  {
    SourceTag(name, cat, c);
    var info := Chosen(name, cat).value;
    var head := c.orange(name) + "/" + info.version + " ";
    var text := EntryText(name, cat, false, c).value;
    assert text == head + (text[|head|..]);
  }

  /** A block without a panic is the header, the description line and the MPR's lines. */
  lemma EntryParts(name: string, cat: Catalog, c: Colours)
    requires EntryText(name, cat, false, c).Ok?
    ensures Chosen(name, cat).Ok?
    ensures EntryText(name, cat, false, c).value
            == Header(name, cat, c, Chosen(name, cat).value) + DescriptionLine(c, Chosen(name, cat).value) + MprPart(name, cat, c)
  {
  }

  /** A missing description shows `N/A`. */
  lemma EntryNoDescription(name: string, cat: Catalog, c: Colours)
    requires EntryText(name, cat, false, c).Ok?
    requires Chosen(name, cat).Ok? && Chosen(name, cat).value.description.None?
    ensures Contains(EntryText(name, cat, false, c).value, "\n" + c.bold("Description:") + " N/A")
  {
    EntryParts(name, cat, c);
    var text := EntryText(name, cat, false, c).value;
    var info := Chosen(name, cat).value;
    var head := Header(name, cat, c, info);
    var desc := DescriptionLine(c, info);
    assert desc == "\n" + c.bold("Description:") + " N/A";
    var tail := MprPart(name, cat, c);
    assert text == head + desc + tail;
    assert text[|head|..|head| + |desc|] == desc;
    ContainsAt(text, desc, |head|);
  }

  /** A package on the MPR ends its block with its out-of-date date under the label
      `Popularity:`, and with `N/A` when it has none. */
  lemma EntryNoOutOfDate(name: string, cat: Catalog, c: Colours)
    requires EntryText(name, cat, false, c).Ok?
    requires name in cat.mpr
    ensures EndsWith(EntryText(name, cat, false, c).value,
                     "\n" + c.bold("Popularity:") + " " +
                     (if cat.mpr[name].ood.Some? then c.date(cat.mpr[name].ood.value) else "N/A"))
  {
    EntryParts(name, cat, c);
    var p := cat.mpr[name];
    var text := EntryText(name, cat, false, c).value;
    var last := OutOfDateLine(p, c);
    var info := Chosen(name, cat).value;
    var front := (if p.maintainer.Some? then "\n" + c.bold("Maintainer:") + " " + p.maintainer.value else "")
                 + "\n" + c.bold("Votes:") + " " + NatToString(p.numVotes)
                 + "\n" + c.bold("Popularity:") + " " + p.popularity;
    var rest := Header(name, cat, c, info) + DescriptionLine(c, info) + front;
    assert MprPart(name, cat, c) == front + last;
    assert text == rest + last;
    assert text[|rest|..] == last;
  }

  /** `generate_pkginfo_entry`: the name alone in name-only mode; otherwise the source tag is
      built by pushing `"APT, "` and `"MPR, "` and popping the last two characters. */
  method Entry(name: string, cat: Catalog, nameOnly: bool, c: Colours) returns (r: Result<string, StyleError>)
    ensures nameOnly ==> r == Ok(name)
    ensures r == EntryText(name, cat, nameOnly, c)
  {
    if nameOnly {
      return Ok(name);
    }
    var out := c.orange(name);
    var sources: seq<string> := [];
    if name in cat.apt {
      sources := sources + [c.purple("APT")];
    }
    if name in cat.mpr {
      sources := sources + [c.purple("MPR")];
    }
    assert sources == Sources(name, cat, c);
    var sourcesStr := "";
    var k := 0;
    while k < |sources|
      invariant 0 <= k <= |sources|
      invariant sourcesStr == Terminated(sources[..k], ", ")
    {
      TerminatedAppend(sources[..k], sources[k], ", ");
      assert sources[..k + 1] == sources[..k] + [sources[k]];
      sourcesStr := sourcesStr + sources[k] + ", ";
      k := k + 1;
    }
    assert sources[..k] == sources;
    if |sources| > 0 {
      DropSeparator(sources, ", ");
    }
    var trimmed := PopTwice(sourcesStr);
    if trimmed.None? {
      assert sources == [];
      return Err(NoSource(name));
    }
    assert sources != [];
    assert trimmed.value == Join(sources, ", ");
    var chosen := Chosen(name, cat);
    if chosen.Err? {
      return Err(chosen.error);
    }
    ghost var info := chosen.value;
    out := out + "/" + chosen.value.version + " " + "[" + trimmed.value + "]";
    assert out == Header(name, cat, c, info);
    out := out + "\n" + c.bold("Description:") + " " + chosen.value.description.GetOr("N/A");
    assert out == Header(name, cat, c, info) + DescriptionLine(c, info);
    if name in cat.mpr {
      out := out + MprLines(cat.mpr[name], c);
    }
    assert out == Header(name, cat, c, info) + DescriptionLine(c, info) + MprPart(name, cat, c);
    assert Sources(name, cat, c) != [];
    r := Ok(out);
  }

  // ---------------------------------------------------------------------------------------
  // Several entries (lines 132-186)

  /** The filters of the first loop. A name missing from APT is always dropped: the
      `else if` belongs to the installed-only test but runs whatever the flags. */
  predicate Kept(name: string, cat: Catalog, aptOnly: bool, mprOnly: bool, installedOnly: bool) {
    if aptOnly && name !in cat.apt then false
    else if mprOnly && name !in cat.mpr then false
    else if installedOnly && name in cat.apt && !cat.apt[name].installed then false
    else name in cat.apt
  }

  /** The names kept, in input order. */
  function KeptNames(pkgs: seq<string>, cat: Catalog, aptOnly: bool, mprOnly: bool, installedOnly: bool): seq<string> {
    if |pkgs| == 0 then []
    else
      var last := pkgs[|pkgs| - 1];
      KeptNames(pkgs[..|pkgs| - 1], cat, aptOnly, mprOnly, installedOnly)
      + (if Kept(last, cat, aptOnly, mprOnly, installedOnly) then [last] else [])
  }

  /** A name is kept exactly when APT has it, the MPR has it as well if MPR-only is set, and
      it is installed if installed-only is set; the APT-only flag never changes the result. */
  lemma {:induction false} KeptMembers(pkgs: seq<string>, cat: Catalog, aptOnly: bool, mprOnly: bool, installedOnly: bool, x: string)
    ensures x in KeptNames(pkgs, cat, aptOnly, mprOnly, installedOnly) <==>
            x in pkgs && x in cat.apt && (mprOnly ==> x in cat.mpr) && (installedOnly ==> cat.apt[x].installed)
    ensures KeptNames(pkgs, cat, aptOnly, mprOnly, installedOnly) == KeptNames(pkgs, cat, false, mprOnly, installedOnly)
  {
    if |pkgs| > 0 {
      var init := pkgs[..|pkgs| - 1];
      KeptMembers(init, cat, aptOnly, mprOnly, installedOnly, x);
      assert pkgs == init + [pkgs[|pkgs| - 1]];
    }
  }

  /** The entry of each name, in order, each either a block or its panic. */
  function EntryResults(names: seq<string>, cat: Catalog, c: Colours): seq<Result<string, StyleError>> {
    if |names| == 0 then []
    else EntryResults(names[..|names| - 1], cat, c) + [EntryText(names[|names| - 1], cat, false, c)]
  }

  /** The values in order, or the first error. */
  function Collect(rs: seq<Result<string, StyleError>>): Result<seq<string>, StyleError> {
    if |rs| == 0 then Ok([])
    else
      match Collect(rs[..|rs| - 1])
      case Err(e) => Err(e)
      case Ok(prev) =>
        match rs[|rs| - 1]
        case Err(e) => Err(e)
        case Ok(t) => Ok(prev + [t])
  }

  /** The blocks of the names in order, or the first panic. */
  function Blocks(names: seq<string>, cat: Catalog, c: Colours): Result<seq<string>, StyleError> {
    Collect(EntryResults(names, cat, c))
  }

  /** The blocks of one more name: those before it, then its own, unless one of them panics. */
  lemma BlocksStep(names: seq<string>, cat: Catalog, c: Colours, k: nat)
    requires k < |names|
    ensures Blocks(names[..k + 1], cat, c) ==
            match Blocks(names[..k], cat, c)
            case Err(e) => Err(e)
            case Ok(prev) =>
              match EntryText(names[k], cat, false, c)
              case Err(e) => Err(e)
              case Ok(t) => Ok(prev + [t])
  {
    assert names[..k + 1][..k] == names[..k];
    var rs := EntryResults(names[..k], cat, c);
    assert EntryResults(names[..k + 1], cat, c) == rs + [EntryText(names[k], cat, false, c)];
    assert (rs + [EntryText(names[k], cat, false, c)])[..|rs|] == rs;
  }

  /** What `generate_pkginfo_entries` returns: each name followed by a newline in name-only
      mode; otherwise the blocks separated by a blank line, with a newline after the last. */
  function EntriesText(names: seq<string>, cat: Catalog, nameOnly: bool, c: Colours): Result<string, StyleError> {
    if nameOnly then Ok(Terminated(names, "\n"))
    else
      match Blocks(names, cat, c)
      case Err(e) => Err(e)
      case Ok(ts) => Ok(if |ts| == 0 then "" else Join(ts, "\n\n") + "\n")
  }

  /** The filtering loop. */
  method FilterNames(pkgs: seq<string>, cat: Catalog, aptOnly: bool, mprOnly: bool, installedOnly: bool)
    returns (matches: seq<string>)
    ensures matches == KeptNames(pkgs, cat, aptOnly, mprOnly, installedOnly)
  {
    matches := [];
    var i := 0;
    while i < |pkgs|
      invariant 0 <= i <= |pkgs|
      invariant matches == KeptNames(pkgs[..i], cat, aptOnly, mprOnly, installedOnly)
    {
      var name := pkgs[i];
      assert pkgs[..i + 1][..i] == pkgs[..i];
      if aptOnly && name !in cat.apt {
      } else if mprOnly && name !in cat.mpr {
      } else if installedOnly && name in cat.apt && !cat.apt[name].installed {
      } else if name !in cat.apt {
      } else {
        matches := matches + [name];
      }
      i := i + 1;
    }
    assert pkgs[..i] == pkgs;
  }

  /** The output loop over the kept names. */
  method JoinEntries(matches: seq<string>, cat: Catalog, nameOnly: bool, c: Colours) returns (r: Result<string, StyleError>)
    ensures r == EntriesText(matches, cat, nameOnly, c)
  {
    var out := "";
    ghost var blocks: seq<string> := [];
    var index := 0;
    while index < |matches|
      invariant 0 <= index <= |matches|
      invariant nameOnly ==> out == Terminated(matches[..index], "\n")
      invariant !nameOnly ==> Blocks(matches[..index], cat, c) == Ok(blocks) && |blocks| == index
      invariant !nameOnly && index < |matches| ==> out == Terminated(blocks, "\n\n")
      invariant !nameOnly && index == |matches| && index > 0 ==> out == Join(blocks, "\n\n") + "\n"
      invariant !nameOnly && index == 0 ==> out == ""
    {
      var name := matches[index];
      assert matches[..index + 1][..index] == matches[..index];
      if nameOnly {
        TerminatedAppend(matches[..index], name, "\n");
        assert matches[..index + 1] == matches[..index] + [name];
        out := out + name + "\n";
      } else {
        var e := Entry(name, cat, false, c);
        BlocksStep(matches, cat, c, index);
        if e.Err? {
          BlocksErrSticky(matches, cat, c, index + 1);
          return Err(e.error);
        }
        if index == |matches| - 1 {
          TerminatedThenLast(blocks, e.value, "\n\n");
          out := out + e.value + "\n";
        } else {
          TerminatedAppend(blocks, e.value, "\n\n");
          out := out + e.value + "\n\n";
        }
        blocks := blocks + [e.value];
      }
      index := index + 1;
    }
    assert matches[..index] == matches;
    r := Ok(out);
  }

  /** The entry results hold one result per name, that name's entry. */
  lemma {:induction false} EntryResultsSpec(names: seq<string>, cat: Catalog, c: Colours)
    ensures |EntryResults(names, cat, c)| == |names|
    ensures forall k :: 0 <= k < |names| ==> EntryResults(names, cat, c)[k] == EntryText(names[k], cat, false, c)
  {
    if |names| > 0 {
      var init := names[..|names| - 1];
      EntryResultsSpec(init, cat, c);
      assert forall k :: 0 <= k < |init| ==> init[k] == names[k];
    }
  }

  /** Collecting succeeds exactly when every result does, and then holds the values in order. */
  lemma {:induction false} CollectSpec(rs: seq<Result<string, StyleError>>)
    ensures Collect(rs).Ok? <==> forall k :: 0 <= k < |rs| ==> rs[k].Ok?
    ensures Collect(rs).Ok? ==> |Collect(rs).value| == |rs| && forall k :: 0 <= k < |rs| ==> Collect(rs).value[k] == rs[k].value
  {
    if |rs| > 0 {
      var init := rs[..|rs| - 1];
      CollectSpec(init);
      assert forall k :: 0 <= k < |init| ==> init[k] == rs[k];
      if Collect(init).Ok? && rs[|rs| - 1].Ok? {
        var r := Collect(init).value + [rs[|rs| - 1].value];
        assert Collect(rs) == Ok(r);
        assert forall k :: 0 <= k < |init| ==> r[k] == Collect(init).value[k];
      }
    }
  }

  /** The blocks succeed exactly when every name has an entry, and then hold those entries
      in order. */
  lemma BlocksSpec(names: seq<string>, cat: Catalog, c: Colours)
    ensures Blocks(names, cat, c).Ok? <==> forall k :: 0 <= k < |names| ==> EntryText(names[k], cat, false, c).Ok?
    ensures Blocks(names, cat, c).Ok? ==>
              && |Blocks(names, cat, c).value| == |names|
              && forall k :: 0 <= k < |names| ==> Blocks(names, cat, c).value[k] == EntryText(names[k], cat, false, c).value
  {
    EntryResultsSpec(names, cat, c);
    CollectSpec(EntryResults(names, cat, c));
  }

  /** A panic on one block is the panic of all of them. */
  lemma {:induction false} BlocksErrSticky(names: seq<string>, cat: Catalog, c: Colours, k: nat)
    requires k <= |names| && Blocks(names[..k], cat, c).Err?
    ensures Blocks(names, cat, c) == Blocks(names[..k], cat, c)
    decreases |names| - k
  {
    if k < |names| {
      BlocksStep(names, cat, c, k);
      BlocksErrSticky(names, cat, c, k + 1);
    } else {
      assert names[..k] == names;
    }
  }

  /** `generate_pkginfo_entries`. */
  method Entries(pkgs: seq<string>, cat: Catalog, aptOnly: bool, mprOnly: bool, installedOnly: bool,
                 nameOnly: bool, c: Colours)
    returns (r: Result<string, StyleError>)
    ensures r == EntriesText(KeptNames(pkgs, cat, aptOnly, mprOnly, installedOnly), cat, nameOnly, c)
  {
    var matches := FilterNames(pkgs, cat, aptOnly, mprOnly, installedOnly);
    r := JoinEntries(matches, cat, nameOnly, c);
  }

  /** The names kept are never a name missing from APT, whatever the flags: with MPR-only set,
      a package only the MPR has is dropped rather than shown. */
  lemma MprOnlyNeedsApt(pkgs: seq<string>, cat: Catalog, aptOnly: bool, installedOnly: bool, x: string)
    requires x in pkgs && x in cat.mpr && x !in cat.apt
    ensures x !in KeptNames(pkgs, cat, aptOnly, true, installedOnly)
  {
    KeptMembers(pkgs, cat, aptOnly, true, installedOnly, x);
  }
}
