/** `list_comments` in `src/list_comments.rs`: the package base must be one of the MPR's, its
    comments are rendered as one Markdown text with a rule between consecutive comments, and
    the `--paging` argument picks the pager's mode.

    The comments are the decoded response of the MPR's `list-comments` endpoint (the request
    itself and its decoding are not part of this model), and the `%Y-%m-%d` rendering of a
    comment's Unix timestamp is the function `day`. */
module ListComments {
  import opened Wrappers
  import opened Text
  import opened Cache

  /** One decoded comment; `date` is the `i64` timestamp. */
  datatype Comment = Comment(date: int, msg: string, user: string)

  /** `bat::PagingMode`. */
  datatype Paging = Always | Never | QuitIfOneScreen

  datatype CommentsError =
    | NoSuchPkgbase(pkgbase: string)   // the exit with `exitcode::USAGE` at lines 28-34
    | LengthUnderflow                  // `resp_json.len() - 1` on an empty list (line 55)

  const Rule: string := "\n\n  --------------------\n\n"

  // ---------------------------------------------------------------------------------------
  // The package base check (lines 20-34)

  /** The loop collecting the `pkgbase` of every MPR package, in archive order. */
  method CollectPkgbases(packages: seq<MprPkg>) returns (pkgbases: seq<string>)
    ensures |pkgbases| == |packages|
    ensures forall i :: 0 <= i < |packages| ==> pkgbases[i] == packages[i].pkgbase
  {
    pkgbases := [];
    var i := 0;
    while i < |packages|
      invariant 0 <= i <= |packages|
      invariant |pkgbases| == i
      invariant forall k :: 0 <= k < i ==> pkgbases[k] == packages[k].pkgbase
    {
      pkgbases := pkgbases + [packages[i].pkgbase];
      i := i + 1;
    }
  }

  /** `pkgbase` has an entry in the archive. */
  predicate KnownPkgbase(packages: seq<MprPkg>, pkgbase: string) {
    exists i :: 0 <= i < |packages| && packages[i].pkgbase == pkgbase
  }

  /** `Vec::contains` on the collected package bases. */
  method CheckPkgbase(packages: seq<MprPkg>, pkgbase: string) returns (r: Result<(), CommentsError>)
    ensures r.Ok? <==> KnownPkgbase(packages, pkgbase)
    ensures r.Err? ==> r.error == NoSuchPkgbase(pkgbase)
  {
    var pkgbases := CollectPkgbases(packages);
    if pkgbase !in pkgbases {
      return Err(NoSuchPkgbase(pkgbase));
    }
    ghost var i :| 0 <= i < |pkgbases| && pkgbases[i] == pkgbase;
    assert packages[i].pkgbase == pkgbase;
    r := Ok(());
  }

  // ---------------------------------------------------------------------------------------
  // Rendering (lines 54-76)

  /** One comment: its date and author as Markdown headings, a blank line, then the message
      without leading or trailing whitespace. */
  function Rendered(c: Comment, day: int -> string): string {
    "# Date: " + day(c.date) + "\n# Author: " + c.user + "\n\n" + Trim(c.msg)
  }

  /** The rendering of each comment, in order. */
  function RenderedAll(comments: seq<Comment>, day: int -> string): seq<string> {
    if |comments| == 0 then [] else RenderedAll(comments[..|comments| - 1], day) + [Rendered(comments[|comments| - 1], day)]
  }

  /** The rendered comments are the comments' renderings, in order. */
  lemma {:induction false} RenderedAllSpec(comments: seq<Comment>, day: int -> string)
    ensures |RenderedAll(comments, day)| == |comments|
    ensures forall k :: 0 <= k < |comments| ==> RenderedAll(comments, day)[k] == Rendered(comments[k], day)
  {
    if |comments| > 0 {
      var init := comments[..|comments| - 1];
      RenderedAllSpec(init, day);
      assert forall k :: 0 <= k < |init| ==> init[k] == comments[k];
    }
  }

  /** The text shown to the user: the rendered comments with the rule between each two, or the
      panic of the length computation when there are none. */
  function CommentsText(comments: seq<Comment>, day: int -> string): Result<string, CommentsError> {
    if |comments| == 0 then Err(LengthUnderflow) else Ok(Join(RenderedAll(comments, day), Rule))
  }

  /** One more comment extends the text by a rule (unless it is the first) and itself. */
  lemma RenderStep(comments: seq<Comment>, day: int -> string, index: nat)
    requires index < |comments|
    ensures Join(RenderedAll(comments[..index + 1], day), Rule) ==
            (if index == 0 then "" else Join(RenderedAll(comments[..index], day), Rule) + Rule) + Rendered(comments[index], day)
  {
    var parts := RenderedAll(comments[..index], day);
    var text := Rendered(comments[index], day);
    assert comments[..index + 1][..index] == comments[..index];
    assert RenderedAll(comments[..index + 1], day) == parts + [text];
    if index > 0 {
      JoinAppend(parts, text, Rule);
    } else {
      JoinShort(parts + [text], Rule);
    }
  }

  /** The rendering loop, the rule written after every comment but the last. */
  method RenderComments(comments: seq<Comment>, day: int -> string) returns (r: Result<string, CommentsError>)
    ensures r == CommentsText(comments, day)
  {
    if |comments| == 0 {
      return Err(LengthUnderflow);
    }
    var commentsLen := |comments| - 1;
    var out := "";
    var index := 0;
    while index < |comments|
      invariant 0 <= index <= |comments|
      invariant index == 0 ==> out == ""
      invariant index > 0 ==> out == Join(RenderedAll(comments[..index], day), Rule) + (if index <= commentsLen then Rule else "")
    {
      var text := Rendered(comments[index], day);
      RenderStep(comments, day, index);
      out := out + text;
      if index < commentsLen {
        out := out + Rule;
      }
      index := index + 1;
    }
    assert comments[..index] == comments;
    assert out == Join(RenderedAll(comments, day), Rule);
    r := Ok(out);
  }

  /** The text begins with the first comment and ends with the last one, with no rule after
      it, and it holds exactly one rule between each two consecutive comments. */
  lemma RuleBetween(comments: seq<Comment>, day: int -> string)
    requires |comments| > 0
    ensures CommentsText(comments, day).Ok?
    ensures StartsWith(CommentsText(comments, day).value, Rendered(comments[0], day))
    ensures EndsWith(CommentsText(comments, day).value, Rendered(comments[|comments| - 1], day))
    ensures |CommentsText(comments, day).value| ==
            TotalLength(RenderedAll(comments, day)) + (|comments| - 1) * |Rule|
  {
    RenderedAllSpec(comments, day);
    JoinEnds(RenderedAll(comments, day), Rule);
    JoinLength(RenderedAll(comments, day), Rule);
  }

  /** A single comment is shown alone, with no rule. */
  lemma SingleComment(c: Comment, day: int -> string)
    ensures CommentsText([c], day) == Ok(Rendered(c, day))
  {
    assert [c][..0] == [];
    assert RenderedAll([c], day) == [Rendered(c, day)];
    JoinShort(RenderedAll([c], day), Rule);
  }

  /** Each rendered comment opens with its date heading and closes with its trimmed message. */
  lemma RenderedShape(c: Comment, day: int -> string)
    ensures StartsWith(Rendered(c, day), "# Date: " + day(c.date) + "\n# Author: ")
    ensures EndsWith(Rendered(c, day), "\n\n" + Trim(c.msg))
    ensures |Rendered(c, day)| > 0 && (|Trim(c.msg)| > 0 ==> !IsWhitespace(Rendered(c, day)[|Rendered(c, day)| - 1]))
  {
    var head := "# Date: " + day(c.date) + "\n# Author: ";
    var tail := "\n\n" + Trim(c.msg);
    TrimSpec(c.msg);
    assert Rendered(c, day) == head + c.user + tail;
    assert (head + c.user + tail)[..|head|] == head;
    assert (head + c.user + tail)[|head + c.user + tail| - |tail|..] == tail;
  }

  // ---------------------------------------------------------------------------------------
  // Paging (lines 79-83)

  /** The `match paging`: only the exact words `always` and `never` are recognised. */
  function PagingMode(paging: string): (m: Paging)
    ensures m == Always <==> paging == "always"
    ensures m == Never <==> paging == "never"
    ensures m == QuitIfOneScreen <==> paging != "always" && paging != "never"
  {
    if paging == "always" then Always
    else if paging == "never" then Never
    else QuitIfOneScreen
  }

  // ---------------------------------------------------------------------------------------
  // The command (lines 14-91)

  /** `list_comments` after its arguments are read and the comments received: the text and
      paging mode handed to the pager, or the reason the command stops. */
  method ListComments(packages: seq<MprPkg>, pkgbase: string, comments: seq<Comment>, day: int -> string, paging: string)
    returns (r: Result<(string, Paging), CommentsError>)
    ensures !KnownPkgbase(packages, pkgbase) ==> r == Err(NoSuchPkgbase(pkgbase))
    ensures KnownPkgbase(packages, pkgbase) ==>
              match CommentsText(comments, day)
              case Err(e) => r == Err(e)
              case Ok(text) => r == Ok((text, PagingMode(paging)))
  {
    var known := CheckPkgbase(packages, pkgbase);
    if known.Err? {
      return Err(known.error);
    }
    var text := RenderComments(comments, day);
    if text.Err? {
      return Err(text.error);
    }
    r := Ok((text.value, PagingMode(paging)));
  }
}
