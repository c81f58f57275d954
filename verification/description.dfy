/** The description builder of `extract_metadata`: the recorded comments are
    joined with newlines, the text is split back into lines, banner lines are
    dropped by `is_not_comment_line`, and what is left is joined again. An
    empty result leaves the `description` key out. */
module Description {
  import opened Records
  import opened Text
  import Tags

  /** A decoration line: it starts with `---` and ends with `-//` or `---`. */
  predicate IsBanner(line: string) {
    StartsWith(line, "---") && (EndsWith(line, "-//") || EndsWith(line, "---"))
  }

  /** `is_not_comment_line` as written: a line is kept when it is not a
      banner, or when it is a `//…//` line, or when a tag matches at its
      start. A banner starts with `-`, so neither of the last two clauses
      can keep one, and the filter drops exactly the banners; in particular
      tag lines are kept. */
  function IsNotCommentLine(x: string): (keep: bool)
    ensures keep <==> !IsBanner(x)
  {
    BannerStartsWithDash(x);
    || !IsBanner(x)
    || (StartsWith(x, "//") && EndsWith(x, "//"))
    || Tags.TagAt(x, 0).Some?
  }

  lemma BannerStartsWithDash(x: string)
    ensures IsBanner(x) ==> x[0] == '-' && !StartsWith(x, "//")
  {
    if IsBanner(x) {
      assert x[0] == x[..3][0];
    }
  }

  /** `filter(is_not_comment_line, lines)`. */
  function FilterLines(lines: seq<string>): (r: seq<string>)
    ensures forall i :: 0 <= i < |r| ==> !IsBanner(r[i])
    ensures forall x :: x in r <==> x in lines && !IsBanner(x)
    ensures |r| <= |lines|
    decreases |lines|
  {
    if |lines| == 0 then []
    else if IsNotCommentLine(lines[0]) then [lines[0]] + FilterLines(lines[1..])
    else FilterLines(lines[1..])
  }

  /** The description built from the recorded comments, `None` when it is
      empty. A description is never empty and none of its lines is a
      banner. When no comment holds a newline, it is the non-banner comments
      joined with newlines. */
  function BuildDescription(comments: seq<string>): (r: Option<string>)
    ensures r.Some? ==> r.value != ""
    ensures r.Some? ==> forall i :: 0 <= i < |Split(r.value)| ==> !IsBanner(Split(r.value)[i])
    ensures (forall i :: 0 <= i < |comments| ==> NoNewline(comments[i])) ==>
              r == (var d := Join("\n", FilterLines(comments)); if d == "" then None else Some(d))
  {
    var lines := Split(Join("\n", comments));
    var kept := FilterLines(lines);
    var text := Join("\n", kept);
    KeptLinesSplitBack(lines, kept);
    CommentLinesSplitBack(comments);
    if text == "" then None else Some(text)
  }

  lemma KeptLinesSplitBack(lines: seq<string>, kept: seq<string>)
    requires forall i :: 0 <= i < |lines| ==> NoNewline(lines[i])
    requires kept == FilterLines(lines)
    ensures Join("\n", kept) != "" ==> Split(Join("\n", kept)) == kept
  {
    if kept != [] {
      forall i | 0 <= i < |kept| ensures NoNewline(kept[i]) {
        assert kept[i] in lines;
      }
      SplitJoin(kept);
    }
  }

  lemma CommentLinesSplitBack(comments: seq<string>)
    ensures (forall i :: 0 <= i < |comments| ==> NoNewline(comments[i])) ==>
              FilterLines(Split(Join("\n", comments))) == FilterLines(comments)
              || (comments == [] && FilterLines(Split(Join("\n", comments))) == [""])
  {
    if forall i :: 0 <= i < |comments| ==> NoNewline(comments[i]) {
      if comments == [] {
        assert Split("") == [""];
        assert FilterLines([""]) == [""];
      } else {
        SplitJoin(comments);
      }
    }
  }

  /** A single line survives the filter exactly when it is not a banner. */
  lemma FilterLinesOne(x: string)
    ensures FilterLines([x]) == if IsBanner(x) then [] else [x]
  {
    assert [x][1..] == [];
  }

  /** The filter works line by line: filtering a concatenation filters each
      part, so the kept lines stay in order and duplicates are kept. With
      `FilterLinesOne` this determines the filter on every list. */
  lemma {:induction false} FilterLinesAppend(a: seq<string>, b: seq<string>)
    ensures FilterLines(a + b) == FilterLines(a) + FilterLines(b)
    decreases |a|
  {
    if |a| == 0 {
      assert a + b == b;
    } else {
      assert (a + b)[0] == a[0];
      assert (a + b)[1..] == a[1..] + b;
      FilterLinesAppend(a[1..], b);
    }
  }
}
