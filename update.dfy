/** The pure decisions of `update` in `src/update.rs`: which MPR packages need their dummy
    `.deb` rebuilt, the Debian binary control stanza written for each (section 5.3 of the
    Debian Policy Manual, with the `Depends`, `Pre-Depends` and `Conflicts` fields of
    section 7.1), and the split of the APT update error into error and warning messages.

    The file system is reduced to what each package's files look like; the MPR package's
    `get_system_*depends` lists and `SplitDependency::as_control` are inputs. */
module Update {
  import opened Wrappers
  import opened Text

  // ---------------------------------------------------------------------------------------
  // The APT update error (lines 23-31)

  datatype Level = ErrorLevel | WarningLevel

  /** A message printed with `message::error` or `message::warning`. */
  datatype Message = Message(level: Level, text: string)

  /** One `;`-separated piece of the error: `E:` and `W:` pieces become messages without
      their prefix, everything else is dropped. */
  function Classify(piece: string): (r: Option<Message>)
    ensures StartsWith(piece, "E:") <==> |piece| >= 2 && r == Some(Message(ErrorLevel, piece[2..] + "\n"))
    ensures StartsWith(piece, "W:") <==> |piece| >= 2 && r == Some(Message(WarningLevel, piece[2..] + "\n"))
    ensures r.None? <==> !StartsWith(piece, "E:") && !StartsWith(piece, "W:")
  {
    if StartsWith(piece, "E:") then Some(Message(ErrorLevel, StripPrefix(piece, "E:").value + "\n"))
    else if StartsWith(piece, "W:") then Some(Message(WarningLevel, StripPrefix(piece, "W:").value + "\n"))
    else None
  }

  /** The messages of the pieces, in order. */
  function Diagnostics(pieces: seq<string>): seq<Message> {
    if |pieces| == 0 then []
    else
      var last := Classify(pieces[|pieces| - 1]);
      Diagnostics(pieces[..|pieces| - 1]) + (if last.Some? then [last.value] else [])
  }

  /** Every message comes from a piece, and every `E:`/`W:` piece gives one. */
  lemma {:induction false} DiagnosticsMembers(pieces: seq<string>, m: Message)
    ensures m in Diagnostics(pieces) <==> exists i :: 0 <= i < |pieces| && Classify(pieces[i]) == Some(m)
  {
    if |pieces| > 0 {
      var init := pieces[..|pieces| - 1];
      DiagnosticsMembers(init, m);
      assert forall i :: 0 <= i < |init| ==> init[i] == pieces[i];
    }
  }

  /** The messages of consecutive runs of pieces follow one another. */
  lemma {:induction false} DiagnosticsAppend(a: seq<string>, b: seq<string>)
    ensures Diagnostics(a + b) == Diagnostics(a) + Diagnostics(b)
    decreases |b|
  {
    if |b| > 0 {
      assert (a + b)[..|a + b| - 1] == a + b[..|b| - 1];
      DiagnosticsAppend(a, b[..|b| - 1]);
    } else {
      assert a + b == a;
    }
  }

  /** Lines 23-31: the messages printed for the error text `what`. */
  method UpdateMessages(what: string) returns (messages: seq<Message>)
    ensures messages == Diagnostics(Split(what, ';'))
  {
    var pieces := Split(what, ';');
    messages := [];
    var i := 0;
    while i < |pieces|
      invariant 0 <= i <= |pieces|
      invariant messages == Diagnostics(pieces[..i])
    {
      assert pieces[..i + 1][..i] == pieces[..i];
      var msg := pieces[i];
      if StartsWith(msg, "E:") {
        messages := messages + [Message(ErrorLevel, StripPrefix(msg, "E:").value + "\n")];
      } else if StartsWith(msg, "W:") {
        messages := messages + [Message(WarningLevel, StripPrefix(msg, "W:").value + "\n")];
      }
      i := i + 1;
    }
    assert pieces[..i] == pieces;
  }

  // ---------------------------------------------------------------------------------------
  // Which packages to rebuild (lines 67-94)

  /** What reading `<pkgname>/DEBIAN/control` gives: no file, a file that does not parse as
      a stanza, or a stanza with or without a `Version` field. */
  datatype ControlRead = Absent | Unparsable | Parsed(version: Option<string>)

  /** The files of one MPR package in the `.deb` cache directory. */
  datatype PkgFiles = PkgFiles(debExists: bool, control: ControlRead)

  /** The panics of `update`. */
  datatype UpdateError =
    | BadControlFile(pkgname: string)   // `TagSection::new(…).unwrap()` at line 84
    | NoVersionField(pkgname: string)   // `get("Version").unwrap()` at line 88
    | EmptyItems(pkgname: string)       // `pop().unwrap()` on an empty list, lines 159-160

  /** An MPR package as `update` sees it: the `get_system_*` lookups for the system's
      distribution and architecture are already done. */
  datatype MprPackage = MprPackage(
    pkgname: string,
    version: string,
    systemDepends: Option<seq<string>>,
    systemMakedepends: Option<seq<string>>,
    systemCheckdepends: Option<seq<string>>,
    systemConflicts: Option<seq<string>>)

  /** Whether one package must be rebuilt. */
  function Rebuild(pkg: MprPackage, files: PkgFiles): Result<bool, UpdateError> {
    if !files.debExists then Ok(true)
    else match files.control
      case Absent => Ok(false)
      case Unparsable => Err(BadControlFile(pkg.pkgname))
      case Parsed(None) => Err(NoVersionField(pkg.pkgname))
      case Parsed(Some(v)) => Ok(v != pkg.version)
  }

  /** The names to rebuild, in iteration order, or the first panic. */
  function ToBuild(pkgs: seq<MprPackage>, files: string -> PkgFiles): Result<seq<string>, UpdateError> {
    if |pkgs| == 0 then Ok([])
    else
      match ToBuild(pkgs[..|pkgs| - 1], files)
      case Err(e) => Err(e)
      case Ok(names) =>
        var p := pkgs[|pkgs| - 1];
        match Rebuild(p, files(p.pkgname))
        case Err(e) => Err(e)
        case Ok(b) => Ok(if b then names + [p.pkgname] else names)
  }

  /** A package is scheduled exactly when its `.deb` is missing, or when its control file
      exists and records another version; a `.deb` without a control file is kept. The
      schedule fails exactly when some package with a `.deb` has an unreadable control
      file or one without a version. */
  lemma {:induction false} ToBuildSpec(pkgs: seq<MprPackage>, files: string -> PkgFiles)
    ensures ToBuild(pkgs, files).Err? <==> exists i :: 0 <= i < |pkgs| && Rebuild(pkgs[i], files(pkgs[i].pkgname)).Err?
    ensures ToBuild(pkgs, files).Ok? ==> forall n ::
              n in ToBuild(pkgs, files).value <==>
                exists i :: && 0 <= i < |pkgs| && pkgs[i].pkgname == n
                            && (|| !files(n).debExists
                                || (files(n).control.Parsed? && files(n).control.version.Some?
                                    && files(n).control.version.value != pkgs[i].version))
  {
    if |pkgs| > 0 {
      var init := pkgs[..|pkgs| - 1];
      ToBuildSpec(init, files);
      assert forall i :: 0 <= i < |init| ==> init[i] == pkgs[i];
    }
  }

  /** A panic on an earlier package is the panic of the whole schedule. */
  lemma {:induction false} ToBuildErrSticky(pkgs: seq<MprPackage>, files: string -> PkgFiles, k: nat)
    requires k <= |pkgs| && ToBuild(pkgs[..k], files).Err?
    ensures ToBuild(pkgs, files) == ToBuild(pkgs[..k], files)
    decreases |pkgs| - k
  {
    if k < |pkgs| {
      assert pkgs[..k + 1][..k] == pkgs[..k];
      ToBuildErrSticky(pkgs, files, k + 1);
    } else {
      assert pkgs[..k] == pkgs;
    }
  }

  /** Lines 68-94: the loop that fills `to_build`. */
  method CollectToBuild(pkgs: seq<MprPackage>, files: string -> PkgFiles) returns (r: Result<seq<string>, UpdateError>)
    ensures r == ToBuild(pkgs, files)
  {
    var toBuild: seq<string> := [];
    var i := 0;
    while i < |pkgs|
      invariant 0 <= i <= |pkgs|
      invariant ToBuild(pkgs[..i], files) == Ok(toBuild)
    {
      assert pkgs[..i + 1][..i] == pkgs[..i];
      var pkg := pkgs[i];
      var f := files(pkg.pkgname);
      if !f.debExists {
        toBuild := toBuild + [pkg.pkgname];
      } else if f.control.Unparsable? {
        ToBuildErrSticky(pkgs, files, i + 1);
        return Err(BadControlFile(pkg.pkgname));
      } else if f.control.Parsed? {
        if f.control.version.None? {
          ToBuildErrSticky(pkgs, files, i + 1);
          return Err(NoVersionField(pkg.pkgname));
        }
        if f.control.version.value != pkg.version {
          toBuild := toBuild + [pkg.pkgname];
        }
      }
      i := i + 1;
    }
    assert pkgs[..i] == pkgs;
    return Ok(toBuild);
  }

  // ---------------------------------------------------------------------------------------
  // Routing dependencies (lines 109-126)

  /** The entries without the `p!` prefix, in order. */
  function PlainDeps(deps: seq<string>): (r: seq<string>)
    ensures |r| <= |deps|
  {
    if |deps| == 0 then []
    else PlainDeps(deps[..|deps| - 1]) + (if StartsWith(deps[|deps| - 1], "p!") then [] else [deps[|deps| - 1]])
  }

  /** The entries with the `p!` prefix, the prefix removed, in order. */
  function PreDeps(deps: seq<string>): (r: seq<string>)
    ensures |r| <= |deps|
  {
    if |deps| == 0 then []
    else
      var d := deps[|deps| - 1];
      PreDeps(deps[..|deps| - 1]) + (if StartsWith(d, "p!") then [d[2..]] else [])
  }

  /** The three lists of an MPR package that are not absent, one after the other. */
  function AllDeps(pkg: MprPackage): seq<string> {
    pkg.systemDepends.GetOr([]) + pkg.systemMakedepends.GetOr([]) + pkg.systemCheckdepends.GetOr([])
  }

  /** Every entry lands in exactly one list: an unprefixed entry in the depends list, a
      `p!` entry without its prefix in the pre-depends list. */
  lemma {:induction false} RoutingPartition(deps: seq<string>)
    ensures |PlainDeps(deps)| + |PreDeps(deps)| == |deps|
    ensures forall x :: x in PlainDeps(deps) <==> x in deps && !StartsWith(x, "p!")
    ensures forall x :: x in PreDeps(deps) <==> "p!" + x in deps
  {
    if |deps| > 0 {
      var init := deps[..|deps| - 1];
      var d := deps[|deps| - 1];
      RoutingPartition(init);
      assert deps == init + [d];
      if StartsWith(d, "p!") {
        assert "p!" + d[2..] == d;
      }
      forall x | "p!" + x == d ensures StartsWith(d, "p!") && x == d[2..] {
        assert d[..2] == "p!";
      }
    }
  }

  lemma {:induction false} RoutingAppend(a: seq<string>, b: seq<string>)
    ensures PlainDeps(a + b) == PlainDeps(a) + PlainDeps(b)
    ensures PreDeps(a + b) == PreDeps(a) + PreDeps(b)
    decreases |b|
  {
    if |b| > 0 {
      assert (a + b)[..|a + b| - 1] == a + b[..|b| - 1];
      RoutingAppend(a, b[..|b| - 1]);
    } else {
      assert a + b == a;
    }
  }

  /** Lines 118-124: route one list's entries, appending to `depends` and `predepends`. */
  method RouteList(deps: seq<string>, depends0: seq<string>, predepends0: seq<string>)
    returns (depends: seq<string>, predepends: seq<string>)
    ensures depends == depends0 + PlainDeps(deps) && predepends == predepends0 + PreDeps(deps)
  {
    depends, predepends := depends0, predepends0;
    var k := 0;
    while k < |deps|
      invariant 0 <= k <= |deps|
      invariant depends == depends0 + PlainDeps(deps[..k]) && predepends == predepends0 + PreDeps(deps[..k])
    {
      assert deps[..k + 1] == deps[..k] + [deps[k]];
      RoutingAppend(deps[..k], [deps[k]]);
      var dep := deps[k];
      var noPrefix := StripPrefix(dep, "p!");
      if noPrefix.Some? {
        predepends := predepends + [noPrefix.value];
      } else {
        depends := depends + [dep];
      }
      k := k + 1;
    }
    assert deps[..k] == deps;
  }

  /** Lines 109-126: the loop over the three lists that fills `depends` and `predepends`. */
  method RouteDepends(pkg: MprPackage) returns (depends: seq<string>, predepends: seq<string>)
    ensures depends == PlainDeps(AllDeps(pkg)) && predepends == PreDeps(AllDeps(pkg))
  {
    var groups := [pkg.systemDepends, pkg.systemMakedepends, pkg.systemCheckdepends];
    ghost var chosen := [groups[0].GetOr([]), groups[1].GetOr([]), groups[2].GetOr([])];
    depends, predepends := [], [];
    var g := 0;
    while g < |groups|
      invariant 0 <= g <= |groups|
      invariant depends == PlainDeps(Concat(chosen[..g])) && predepends == PreDeps(Concat(chosen[..g]))
    {
      assert chosen[..g + 1][..g] == chosen[..g];
      RoutingAppend(Concat(chosen[..g]), chosen[g]);
      if groups[g].Some? {
        depends, predepends := RouteList(groups[g].value, depends, predepends);
      } else {
        assert Concat(chosen[..g]) + chosen[g] == Concat(chosen[..g]);
      }
      g := g + 1;
    }
    assert chosen[..3] == chosen;
    assert chosen[..2] == [chosen[0], chosen[1]];
    assert chosen[..2][..1] == [chosen[0]];
    assert [chosen[0]][..0] == [];
    assert Concat(chosen[..2][..1]) == chosen[0];
    assert Concat(chosen[..2]) == chosen[0] + chosen[1];
    assert Concat(chosen) == AllDeps(pkg);
  }

  // ---------------------------------------------------------------------------------------
  // The control stanza (lines 101-163)

  /** A `Name: value` field of a control stanza. */
  datatype Field = Field(name: string, value: string)

  const Description: string := "Dummy description so 'dpkg-deb' doesn't complain."

  /** The rendered relations of a list. */
  function Controls(items: seq<string>, asControl: string -> string): (r: seq<string>)
    ensures |r| == |items| && forall k :: 0 <= k < |items| ==> r[k] == asControl(items[k])
  {
    seq(|items|, k requires 0 <= k < |items| => asControl(items[k]))
  }

  /** The four fields every stanza starts with. */
  function BaseFields(pkg: MprPackage): seq<Field> {
    [Field("Package", pkg.pkgname), Field("Version", pkg.version), Field("Architecture", "all"),
     Field("Description", Description)]
  }

  /** A relation field, present when its list is non-empty. */
  function RelationField(name: string, items: seq<string>, asControl: string -> string): seq<Field> {
    if |items| > 0 then [Field(name, Join(Controls(items, asControl), ", "))] else []
  }

  /** The fields before `Conflicts`. */
  function DependencyFields(pkg: MprPackage, asControl: string -> string): seq<Field> {
    BaseFields(pkg)
      + RelationField("Depends", PlainDeps(AllDeps(pkg)), asControl)
      + RelationField("Pre-Depends", PreDeps(AllDeps(pkg)), asControl)
  }

  /** The fields of the stanza written for `pkg`, or `None` when its conflicts list is
      present but empty. */
  function Stanza(pkg: MprPackage, asControl: string -> string): Option<seq<Field>> {
    var fields := DependencyFields(pkg, asControl);
    match pkg.systemConflicts
    case None => Some(fields)
    case Some(conflicts) =>
      if |conflicts| == 0 then None
      else Some(fields + RelationField("Conflicts", conflicts, asControl))
  }

  /** One field as the line `Name: value`, without its newline. */
  function FieldLine(f: Field): string {
    f.name + ": " + f.value
  }

  function FieldLines(fields: seq<Field>): (r: seq<string>)
    ensures |r| == |fields| && forall k :: 0 <= k < |fields| ==> r[k] == FieldLine(fields[k])
  {
    seq(|fields|, k requires 0 <= k < |fields| => FieldLine(fields[k]))
  }

  /** The stanza's text: one line per field, each ended by a newline. */
  function Render(fields: seq<Field>): string {
    Terminated(FieldLines(fields), "\n")
  }

  /** The canonical order of the fields the stanza may hold. */
  const FieldOrder: seq<string> := ["Package", "Version", "Architecture", "Description", "Depends", "Pre-Depends", "Conflicts"]

  /** The field names rise strictly in the canonical order. */
  predicate Ascending(fs: seq<Field>) {
    forall i, j :: 0 <= i < j < |fs| ==> OrderIndex(fs[i].name) < OrderIndex(fs[j].name)
  }

  /** `fs` has a field called `name`. */
  predicate HasField(fs: seq<Field>, name: string) {
    exists i :: 0 <= i < |fs| && fs[i].name == name
  }

  /** Appending a relation field whose name comes after every name present. */
  lemma AppendRelation(fs: seq<Field>, name: string, items: seq<string>, asControl: string -> string)
    requires Ascending(fs) && forall i :: 0 <= i < |fs| ==> OrderIndex(fs[i].name) < OrderIndex(name)
    ensures Ascending(fs + RelationField(name, items, asControl))
    ensures forall i :: 0 <= i < |fs + RelationField(name, items, asControl)| ==>
              OrderIndex((fs + RelationField(name, items, asControl))[i].name) <= OrderIndex(name)
    ensures forall other :: HasField(fs + RelationField(name, items, asControl), other) <==>
              HasField(fs, other) || (other == name && |items| > 0)
  {
    var extra := RelationField(name, items, asControl);
    forall other ensures HasField(fs + extra, other) <==> HasField(fs, other) || (other == name && |items| > 0) {
      if HasField(fs + extra, other) {
        var i :| 0 <= i < |fs + extra| && (fs + extra)[i].name == other;
        if i < |fs| { assert fs[i].name == other; }
      }
      if HasField(fs, other) {
        var i :| 0 <= i < |fs| && fs[i].name == other;
        assert (fs + extra)[i].name == other;
      }
      if other == name && |items| > 0 {
        assert (fs + extra)[|fs|].name == name;
      }
    }
  }

  lemma BaseFieldsFacts(pkg: MprPackage)
    ensures Ascending(BaseFields(pkg))
    ensures forall i :: 0 <= i < 4 ==> OrderIndex(BaseFields(pkg)[i].name) < OrderIndex("Depends")
    ensures !HasField(BaseFields(pkg), "Depends") && !HasField(BaseFields(pkg), "Pre-Depends")
    ensures !HasField(BaseFields(pkg), "Conflicts")
  {
    var base := BaseFields(pkg);
    assert forall i :: 0 <= i < 4 ==> OrderIndex(base[i].name) == i;
  }

  /** The fields before `Conflicts` start with the base fields, rise in the canonical order
      and hold `Depends` and `Pre-Depends` exactly when their lists are non-empty. */
  lemma DependencyFieldsFacts(pkg: MprPackage, asControl: string -> string)
    ensures var fs := DependencyFields(pkg, asControl);
      && |fs| >= 4 && fs[..4] == BaseFields(pkg) && Ascending(fs)
      && (forall i :: 0 <= i < |fs| ==> OrderIndex(fs[i].name) < OrderIndex("Conflicts"))
      && (HasField(fs, "Depends") <==> |PlainDeps(AllDeps(pkg))| > 0)
      && (HasField(fs, "Pre-Depends") <==> |PreDeps(AllDeps(pkg))| > 0)
      && !HasField(fs, "Conflicts")
  {
    var base := BaseFields(pkg);
    var withDeps := base + RelationField("Depends", PlainDeps(AllDeps(pkg)), asControl);
    var fields := withDeps + RelationField("Pre-Depends", PreDeps(AllDeps(pkg)), asControl);
    BaseFieldsFacts(pkg);
    AppendRelation(base, "Depends", PlainDeps(AllDeps(pkg)), asControl);
    AppendRelation(withDeps, "Pre-Depends", PreDeps(AllDeps(pkg)), asControl);
    assert fields == DependencyFields(pkg, asControl);
    assert fields[..4] == base;
  }

  /** The stanza fails exactly when the conflicts list is present and empty. Otherwise it
      starts with `Package`, `Version`, `Architecture: all` and the description, its field
      names rise in the canonical order, `Depends` and `Pre-Depends` are there exactly when
      their lists are non-empty, and `Conflicts` exactly when the lookup gave a list. */
  lemma StanzaFields(pkg: MprPackage, asControl: string -> string)
    ensures Stanza(pkg, asControl).None? <==> pkg.systemConflicts == Some([])
    ensures Stanza(pkg, asControl).Some? ==>
      var fs := Stanza(pkg, asControl).value;
      && |fs| >= 4 && fs[..4] == BaseFields(pkg) && Ascending(fs)
      && (HasField(fs, "Depends") <==> |PlainDeps(AllDeps(pkg))| > 0)
      && (HasField(fs, "Pre-Depends") <==> |PreDeps(AllDeps(pkg))| > 0)
      && (HasField(fs, "Conflicts") <==> pkg.systemConflicts.Some?)
  {
    var fields := DependencyFields(pkg, asControl);
    DependencyFieldsFacts(pkg, asControl);
    match pkg.systemConflicts
    case None =>
      assert Stanza(pkg, asControl) == Some(fields);
    case Some(conflicts) =>
      if |conflicts| > 0 {
        var all := fields + RelationField("Conflicts", conflicts, asControl);
        AppendRelation(fields, "Conflicts", conflicts, asControl);
        assert all[..4] == fields[..4];
        assert Stanza(pkg, asControl) == Some(all);
      }
  }

  /** The position of a field name in the canonical order. */
  function OrderIndex(name: string): nat {
    if name == "Package" then 0 else if name == "Version" then 1 else if name == "Architecture" then 2
    else if name == "Description" then 3 else if name == "Depends" then 4
    else if name == "Pre-Depends" then 5 else 6
  }

  // Reading a stanza back

  /** The index of the first `c` in `s`, if any. */
  function IndexOf(s: string, c: char): (r: Option<nat>)
    ensures r.Some? ==> r.value < |s| && s[r.value] == c && c !in s[..r.value]
    ensures r.None? ==> c !in s
  {
    if |s| == 0 then None
    else if s[0] == c then Some(0)
    else
      var r := IndexOf(s[1..], c);
      if r.None? then None
      else
        assert s[..r.value + 1] == [s[0]] + s[1..][..r.value];
        Some(r.value + 1)
  }

  /** A line `Name: value`: the name is what precedes the first colon, which a space
      follows. */
  function ParseLine(line: string): Option<Field> {
    match IndexOf(line, ':')
    case None => None
    case Some(i) =>
      if i + 1 < |line| && line[i + 1] == ' ' then Some(Field(line[..i], line[i + 2..])) else None
  }

  function ParseLines(lines: seq<string>): Option<seq<Field>> {
    if |lines| == 0 then Some([])
    else
      match (ParseLine(lines[0]), ParseLines(lines[1..]))
      case (Some(f), Some(fs)) => Some([f] + fs)
      case _ => None
  }

  /** A stanza's text read back into its fields: the newline-separated lines, the last of
      them empty. */
  function ParseStanza(text: string): Option<seq<Field>> {
    var lines := Split(text, '\n');
    if lines[|lines| - 1] != "" then None else ParseLines(lines[..|lines| - 1])
  }

  /** A field the line syntax can carry: no colon in its name and no newline anywhere. */
  predicate WellFormed(f: Field) {
    ':' !in f.name && '\n' !in f.name && '\n' !in f.value
  }

  lemma {:induction false} IndexOfFirst(x: string, c: char, y: string)
    requires c !in x
    ensures IndexOf(x + [c] + y, c) == Some(|x|)
  {
    if |x| == 0 {
      assert x + [c] + y == [c] + y;
    } else {
      assert (x + [c] + y)[1..] == x[1..] + [c] + y;
      IndexOfFirst(x[1..], c, y);
    }
  }

  lemma ParseFieldLine(f: Field)
    requires WellFormed(f)
    ensures ParseLine(FieldLine(f)) == Some(f)
  {
    var line := FieldLine(f);
    assert line == f.name + [':'] + (" " + f.value);
    IndexOfFirst(f.name, ':', " " + f.value);
    assert line[..|f.name|] == f.name;
    assert line[|f.name| + 2..] == f.value;
  }

  lemma {:induction false} ParseFieldLines(fields: seq<Field>)
    requires forall i :: 0 <= i < |fields| ==> WellFormed(fields[i])
    ensures ParseLines(FieldLines(fields)) == Some(fields)
  {
    if |fields| > 0 {
      ParseFieldLine(fields[0]);
      assert FieldLines(fields)[1..] == FieldLines(fields[1..]);
      ParseFieldLines(fields[1..]);
      assert [fields[0]] + fields[1..] == fields;
    }
  }

  /** Reading the rendered stanza back gives its fields, in order. */
  lemma StanzaRoundTrip(fields: seq<Field>)
    requires forall i :: 0 <= i < |fields| ==> WellFormed(fields[i])
    ensures ParseStanza(Render(fields)) == Some(fields)
  {
    var lines := FieldLines(fields);
    TerminatedJoin(lines, "\n");
    forall i | 0 <= i < |lines + [""]| ensures '\n' !in (lines + [""])[i] {
      if i < |lines| {
        assert (lines + [""])[i] == FieldLine(fields[i]);
        assert FieldLine(fields[i]) == fields[i].name + ": " + fields[i].value;
      }
    }
    JoinSplit(lines + [""], '\n');
    assert (lines + [""])[..|lines|] == lines;
    ParseFieldLines(fields);
  }

  /** Lines 129-135 (and 141-147, 153-160): each item's relation followed by `", "`, then two
      `pop().unwrap()`s; `None` stands for the panic on an empty list. */
  method ControlItems(items: seq<string>, asControl: string -> string) returns (r: Option<string>)
    ensures r.None? <==> |items| == 0
    ensures r.Some? ==> r.value == Join(Controls(items, asControl), ", ")
  {
    var s := "";
    var k := 0;
    while k < |items|
      invariant 0 <= k <= |items|
      invariant s == Terminated(Controls(items[..k], asControl), ", ")
    {
      TerminatedAppend(Controls(items[..k], asControl), asControl(items[k]), ", ");
      assert Controls(items[..k + 1], asControl) == Controls(items[..k], asControl) + [asControl(items[k])];
      s := s + asControl(items[k]);
      s := s + ", ";
      k := k + 1;
    }
    assert items[..k] == items;
    if |items| > 0 {
      DropSeparator(Controls(items, asControl), ", ");
    }
    var trimmed := PopTwice(s);
    if trimmed.None? {
      return None;
    }
    return Some(trimmed.value);
  }

  /** Lines 101-163: the text of the control file for `pkg`. */
  method ControlFile(pkg: MprPackage, asControl: string -> string) returns (r: Result<string, UpdateError>)
    ensures Stanza(pkg, asControl).None? ==> r == Err(EmptyItems(pkg.pkgname))
    ensures Stanza(pkg, asControl).Some? ==> r == Ok(Render(Stanza(pkg, asControl).value))
  {
    ghost var fields: seq<Field> := [];
    var text := "";
    text := Append(fields, text, Field("Package", pkg.pkgname));
    fields := fields + [Field("Package", pkg.pkgname)];
    text := Append(fields, text, Field("Version", pkg.version));
    fields := fields + [Field("Version", pkg.version)];
    text := Append(fields, text, Field("Architecture", "all"));
    fields := fields + [Field("Architecture", "all")];
    text := Append(fields, text, Field("Description", Description));
    fields := fields + [Field("Description", Description)];
    assert fields == BaseFields(pkg);

    var depends, predepends := RouteDepends(pkg);
    if |depends| > 0 {
      var items := ControlItems(depends, asControl);
      text := Append(fields, text, Field("Depends", items.value));
      fields := fields + [Field("Depends", items.value)];
    }
    assert fields == BaseFields(pkg) + RelationField("Depends", depends, asControl);
    if |predepends| > 0 {
      var items := ControlItems(predepends, asControl);
      text := Append(fields, text, Field("Pre-Depends", items.value));
      fields := fields + [Field("Pre-Depends", items.value)];
    }
    assert fields == BaseFields(pkg) + RelationField("Depends", depends, asControl)
                     + RelationField("Pre-Depends", predepends, asControl);
    if pkg.systemConflicts.Some? {
      var items := ControlItems(pkg.systemConflicts.value, asControl);
      if items.None? {
        return Err(EmptyItems(pkg.pkgname));
      }
      text := Append(fields, text, Field("Conflicts", items.value));
      fields := fields + [Field("Conflicts", items.value)];
    }
    assert Stanza(pkg, asControl) == Some(fields);
    return Ok(text);
  }

  /** `push_str(format!("{name}: {value}\n"))` onto the rendered `fields`. */
  method Append(ghost fields: seq<Field>, text: string, f: Field) returns (next: string)
    requires text == Render(fields)
    ensures next == Render(fields + [f])
  {
    next := text + f.name + ": " + f.value + "\n";
    TerminatedAppend(FieldLines(fields), FieldLine(f), "\n");
    assert FieldLines(fields + [f]) == FieldLines(fields) + [FieldLine(f)];
  }
}
