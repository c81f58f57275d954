/** The `@tag: value` parser of metaparser.py: the `metatag_re` pattern with
    `findall`'s leftmost-match semantics, the attribute registry
    `SUPPORTED_ATTRS` with its overwrite (`one`) and append (`multiple`)
    handlers, `metadata_parser`, and the loop over all lines that
    `extract_metadata` runs last. */
module Tags {
  import opened Records
  import opened Text

  /** One match of `@([a-zA-Z0-9]+)\s*:\s*("([^"]+)"|([^\s]+))`, cut into
      the pieces the pattern consumes: the identifier, the whitespace before
      and after the colon, which alternative matched, and the value group
      (without the quotes when the quoted alternative matched). */
  datatype TagMatch = TagMatch(
    ident: string,
    beforeColon: string,
    afterColon: string,
    quoted: bool,
    value: string)

  /** The text a match consumes. */
  function Render(m: TagMatch): string {
    "@" + m.ident + m.beforeColon + ":" + m.afterColon
    + (if m.quoted then "\"" + m.value + "\"" else m.value)
  }

  predicate WellFormed(m: TagMatch) {
    && |m.ident| > 0
    && AllIn(m.ident, Alnum)
    && AllIn(m.beforeColon, Space)
    && AllIn(m.afterColon, Space)
    && |m.value| > 0
    && (if m.quoted then AllIn(m.value, NotQuote) else AllIn(m.value, NonSpace))
  }

  /** `m` is a match that starts at position `i` of `s`. A match of the
      non-whitespace alternative ends at a space or at the end of `s`. */
  predicate MatchedAt(s: string, i: nat, m: TagMatch) {
    && WellFormed(m)
    && HasAt(s, i, Render(m))
    && (!m.quoted ==> i + |Render(m)| == |s| || IsSpace(s[i + |Render(m)|]))
  }

  /** The pattern tried at position `i`. Every repetition in it is greedy and
      each one stops at a character the next piece needs, so backtracking
      never finds another match: the identifier run stops at a non-alnum, the
      whitespace runs at a non-space, and `[^"]+` at the closing quote. When
      the quoted alternative fails (no closing quote, or `""`), the
      non-whitespace alternative is tried at the same place and keeps the
      opening quote. */
  function TagAt(s: string, i: nat): (r: Option<TagMatch>)
    ensures r.Some? ==> i < |s| && s[i] == '@'
  {
    if i >= |s| || s[i] != '@' then None
    else
      var a := RunEnd(s, i + 1, Alnum);
      if a == i + 1 then None
      else
        var b := RunEnd(s, a, Space);
        if b == |s| || s[b] != ':' then None
        else
          var c := RunEnd(s, b + 1, Space);
          if c == |s| then None
          else
            var d := RunEnd(s, c + 1, NotQuote);
            if s[c] == '"' && c + 1 < d < |s| then
              Some(TagMatch(s[i + 1..a], s[a..b], s[b + 1..c], true, s[c + 1..d]))
            else
              Some(TagMatch(s[i + 1..a], s[a..b], s[b + 1..c], false, s[c..RunEnd(s, c, NonSpace)]))
  }

  /** Whatever `TagAt` returns is a well-formed match of the text at `i`. */
  lemma TagAtSound(s: string, i: nat)
    ensures TagAt(s, i).Some? ==> MatchedAt(s, i, TagAt(s, i).value)
  {
    if i < |s| && s[i] == '@' {
      var a := RunEnd(s, i + 1, Alnum);
      if a > i + 1 {
        var b := RunEnd(s, a, Space);
        if b < |s| && s[b] == ':' {
          var c := RunEnd(s, b + 1, Space);
          if c < |s| {
            var d := RunEnd(s, c + 1, NotQuote);
            if s[c] == '"' && c + 1 < d < |s| {
              QuotedSound(s, i, a, b, c, d);
            } else {
              BareSound(s, i, a, b, c, d);
            }
          }
        }
      }
    }
  }

  /** The quoted alternative of `TagAt` yields a sound match. */
  lemma QuotedSound(s: string, i: nat, a: nat, b: nat, c: nat, d: nat)
    requires i < |s| && s[i] == '@'
    requires a == RunEnd(s, i + 1, Alnum) && a > i + 1
    requires b == RunEnd(s, a, Space) && b < |s| && s[b] == ':'
    requires c == RunEnd(s, b + 1, Space) && c < |s|
    requires d == RunEnd(s, c + 1, NotQuote) && s[c] == '"' && c + 1 < d < |s|
    ensures TagAt(s, i).Some? && MatchedAt(s, i, TagAt(s, i).value)
  {
    var m := TagMatch(s[i + 1..a], s[a..b], s[b + 1..c], true, s[c + 1..d]);
    assert TagAt(s, i) == Some(m);
    PiecesMatch(s, i, a, b, c, c + 1, d, m);
  }

  /** The non-whitespace alternative of `TagAt` yields a sound match. */
  lemma BareSound(s: string, i: nat, a: nat, b: nat, c: nat, d: nat)
    requires i < |s| && s[i] == '@'
    requires a == RunEnd(s, i + 1, Alnum) && a > i + 1
    requires b == RunEnd(s, a, Space) && b < |s| && s[b] == ':'
    requires c == RunEnd(s, b + 1, Space) && c < |s|
    requires d == RunEnd(s, c + 1, NotQuote) && !(s[c] == '"' && c + 1 < d < |s|)
    ensures TagAt(s, i).Some? && MatchedAt(s, i, TagAt(s, i).value)
  {
    var e := RunEnd(s, c, NonSpace);
    var m := TagMatch(s[i + 1..a], s[a..b], s[b + 1..c], false, s[c..e]);
    assert TagAt(s, i) == Some(m);
    PiecesMatch(s, i, a, b, c, c, e, m);
  }

  /** Pieces cut at the positions the greedy runs stop at form a match. */
  lemma PiecesMatch(s: string, i: nat, a: nat, b: nat, c: nat, v: nat, w: nat, m: TagMatch)
    requires i + 1 < a <= b < c < |s| && c <= v < w <= |s|
    requires s[i] == '@' && m.ident == s[i + 1..a] && m.beforeColon == s[a..b]
    requires s[b] == ':' && m.afterColon == s[b + 1..c] && m.value == s[v..w]
    requires forall k :: i + 1 <= k < a ==> InClass(s[k], Alnum)
    requires forall k :: a <= k < b ==> InClass(s[k], Space)
    requires forall k :: b + 1 <= k < c ==> InClass(s[k], Space)
    requires m.quoted ==> v == c + 1 && s[c] == '"' && w < |s| && s[w] == '"'
    requires m.quoted ==> forall k :: v <= k < w ==> InClass(s[k], NotQuote)
    requires !m.quoted ==> v == c && forall k :: v <= k < w ==> InClass(s[k], NonSpace)
    requires !m.quoted ==> w == |s| || !InClass(s[w], NonSpace)
    ensures MatchedAt(s, i, m)
  {
    SliceAllIn(s, i + 1, a, Alnum);
    SliceAllIn(s, a, b, Space);
    SliceAllIn(s, b + 1, c, Space);
    SliceAllIn(s, v, w, if m.quoted then NotQuote else NonSpace);
    RenderedAt(s, i, a, b, c, v, w, m);
  }

  /** A match whose pieces sit at consecutive positions of `s` renders to
      the text at those positions. */
  lemma RenderedAt(s: string, i: nat, a: nat, b: nat, c: nat, v: nat, w: nat, m: TagMatch)
    requires i < a <= b < c <= v <= w <= |s|
    requires s[i] == '@' && s[i + 1..a] == m.ident && s[a..b] == m.beforeColon
    requires s[b] == ':' && s[b + 1..c] == m.afterColon && s[v..w] == m.value
    requires m.quoted ==> v == c + 1 && s[c] == '"' && w < |s| && s[w] == '"'
    requires !m.quoted ==> v == c
    ensures HasAt(s, i, Render(m))
    ensures i + |Render(m)| == if m.quoted then w + 1 else w
  {
    HeadSlice(s, i, a, b, c, m);
    if m.quoted {
      QuotedSlice(s, c, w, m);
      SliceSplit(s, i, c, w + 1);
    } else {
      SliceSplit(s, i, c, w);
    }
  }

  /** The text from the `@` to the value is the head of the rendering. */
  lemma HeadSlice(s: string, i: nat, a: nat, b: nat, c: nat, m: TagMatch)
    requires i < a <= b < c <= |s|
    requires s[i] == '@' && s[i + 1..a] == m.ident && s[a..b] == m.beforeColon
    requires s[b] == ':' && s[b + 1..c] == m.afterColon
    ensures s[i..c] == "@" + m.ident + m.beforeColon + ":" + m.afterColon
  {
    assert s[i..i + 1] == "@";
    SliceSplit(s, i, i + 1, a);
    SliceSplit(s, i, a, b);
    assert s[b..b + 1] == ":";
    SliceSplit(s, i, b, b + 1);
    SliceSplit(s, i, b + 1, c);
  }

  /** A quoted value with its quotes. */
  lemma QuotedSlice(s: string, c: nat, w: nat, m: TagMatch)
    requires c < w < |s| && s[c] == '"' && s[w] == '"' && s[c + 1..w] == m.value
    ensures s[c..w + 1] == "\"" + m.value + "\""
  {
    assert s[c..c + 1] == "\"" && s[w..w + 1] == "\"";
    SliceSplit(s, c, c + 1, w);
    SliceSplit(s, c, w, w + 1);
  }

  /** Where the identifier and the space before the colon end, for text
      that reads `@`, an identifier, spaces, then a colon. */
  lemma HeadStops(s: string, ident: string, before: string, x: string, a: nat, b: nat)
    requires s[0..] == "@" + (ident + (before + x))
    requires |ident| > 0 && AllIn(ident, Alnum) && AllIn(before, Space)
    requires x != [] && x[0] == ':'
    requires a == 1 + |ident| && b == a + |before|
    ensures 1 < a <= b <= |s| && s[0] == '@'
    ensures RunEnd(s, 1, Alnum) == a && RunEnd(s, a, Space) == b
    ensures s[1..a] == ident && s[a..b] == before && s[b..] == x
  {
    Advance(s, 0, "@", ident + (before + x));
    var x1 := before + x;
    if |before| > 0 {
      assert x1[0] == before[0];
      SpaceIsNotAlnum(before[0]);
    }
    RunStops(s, 1, ident, x1, Alnum);
    assert !IsSpace(':');
    RunStops(s, a, before, x, Space);
  }

  lemma SpaceIsNotAlnum(c: char)
    requires IsSpace(c)
    ensures !IsAsciiAlnum(c)
  {
  }

  /** Where the space after the colon ends. */
  lemma ColonStops(s: string, b: nat, after: string, x: string, c: nat)
    requires b <= |s| && s[b..] == ":" + (after + x)
    requires AllIn(after, Space)
    requires x != [] && !IsSpace(x[0])
    requires c == b + 1 + |after|
    ensures c < |s| && s[b] == ':'
    ensures RunEnd(s, b + 1, Space) == c
    ensures s[b + 1..c] == after && s[c..] == x
  {
    Advance(s, b, ":", after + x);
    RunStops(s, b + 1, after, x, Space);
  }

  /** Where a quoted value ends. */
  lemma QuotedStops(s: string, c: nat, value: string, rest: string, w: nat)
    requires c <= |s| && s[c..] == "\"" + (value + ("\"" + rest))
    requires AllIn(value, NotQuote)
    requires w == c + 1 + |value|
    ensures w < |s| && s[c] == '"'
    ensures RunEnd(s, c + 1, NotQuote) == w
    ensures s[c + 1..w] == value
  {
    Advance(s, c, "\"", value + ("\"" + rest));
    RunStops(s, c + 1, value, "\"" + rest, NotQuote);
  }

  /** Where an unquoted value ends. */
  lemma BareStops(s: string, c: nat, value: string, rest: string, w: nat)
    requires c <= |s| && s[c..] == value + rest
    requires |value| > 0 && AllIn(value, NonSpace)
    requires rest == [] || IsSpace(rest[0])
    requires w == c + |value|
    ensures c < w <= |s| && s[c] == value[0]
    ensures RunEnd(s, c, NonSpace) == w
    ensures s[c..w] == value
  {
    RunStops(s, c, value, rest, NonSpace);
    assert s[c] == s[c..w][0];
  }

  lemma RenderShape(m: TagMatch, rest: string)
    ensures var tail := if m.quoted then "\"" + (m.value + ("\"" + rest)) else m.value + rest;
            (Render(m) + rest)[0..]
            == "@" + (m.ident + (m.beforeColon + (":" + (m.afterColon + tail))))
  {
  }

  /** Matching the rendering of a well-formed match gives the match back.
      For the non-whitespace alternative the value must not open with a
      quote (the quoted alternative is tried first) and must be followed by
      a space or the end. */
  lemma RenderThenMatch(m: TagMatch, rest: string)
    requires WellFormed(m)
    requires !m.quoted ==> m.value[0] != '"' && (rest == [] || IsSpace(rest[0]))
    ensures TagAt(Render(m) + rest, 0) == Some(m)
  {
    RenderShape(m, rest);
    var tail := if m.quoted then "\"" + (m.value + ("\"" + rest)) else m.value + rest;
    MatchShape(Render(m) + rest, m, rest, tail);
  }

  /** The pattern tried at a position reads nothing before it: two texts
      that agree from `i` and `j` on give the same match there. */
  lemma TagAtSuffix(t: string, j: nat, s: string, i: nat)
    requires j <= |t| && i <= |s| && t[j..] == s[i..]
    ensures TagAt(t, j) == TagAt(s, i)
  {
    if i < |s| {
      CharAgrees(t, j, s, i, i, j);
      if s[i] == '@' {
        RunEndAgrees(t, j, s, i, i + 1, j + 1, Alnum);
        var a := RunEnd(s, i + 1, Alnum);
        if a > i + 1 {
          HeadAgrees(t, j, s, i, a);
        }
      }
    } else {
      assert |t[j..]| == 0;
    }
  }

  /** `TagAtSuffix` once the identifier is read. */
  lemma HeadAgrees(t: string, j: nat, s: string, i: nat, a: nat)
    requires j <= |t| && i < |s| && t[j..] == s[i..] && s[i] == '@' && t[j] == '@'
    requires a == RunEnd(s, i + 1, Alnum) && a > i + 1
    requires RunEnd(t, j + 1, Alnum) == j + (a - i)
    ensures TagAt(t, j) == TagAt(s, i)
  {
    var a' := j + (a - i);
    RunEndAgrees(t, j, s, i, a, a', Space);
    var b := RunEnd(s, a, Space);
    var b' := j + (b - i);
    EndAgrees(t, j, s, i, b, b');
    if b < |s| {
      CharAgrees(t, j, s, i, b, b');
    }
    if b < |s| && s[b] == ':' {
      ColonAgrees(t, j, s, i, a, b);
    } else {
      NoColon(t, j, a', b');
      NoColon(s, i, a, b);
    }
  }

  /** The pattern fails when no colon follows the identifier and its
      spaces. */
  lemma NoColon(s: string, i: nat, a: nat, b: nat)
    requires i < |s| && s[i] == '@' && a == RunEnd(s, i + 1, Alnum)
    requires a <= |s| && b == RunEnd(s, a, Space) && (b == |s| || s[b] != ':')
    ensures TagAt(s, i) == None
  {
  }

  /** The pattern fails when nothing follows the colon and its spaces. */
  lemma NothingAfterColon(s: string, i: nat, a: nat, b: nat, c: nat)
    requires i < |s| && s[i] == '@' && a == RunEnd(s, i + 1, Alnum)
    requires a <= |s| && b == RunEnd(s, a, Space) && b < |s| && s[b] == ':'
    requires c == RunEnd(s, b + 1, Space) && c == |s|
    ensures TagAt(s, i) == None
  {
  }

  /** `TagAtSuffix` once the colon is read. */
  lemma ColonAgrees(t: string, j: nat, s: string, i: nat, a: nat, b: nat)
    requires j <= |t| && i < |s| && t[j..] == s[i..] && s[i] == '@' && t[j] == '@'
    requires a == RunEnd(s, i + 1, Alnum) && a > i + 1 && RunEnd(t, j + 1, Alnum) == j + (a - i)
    requires b == RunEnd(s, a, Space) && RunEnd(t, j + (a - i), Space) == j + (b - i)
    requires b < |s| && s[b] == ':' && t[j + (b - i)] == ':'
    ensures TagAt(t, j) == TagAt(s, i)
  {
    var b' := j + (b - i);
    RunEndAgrees(t, j, s, i, b + 1, b' + 1, Space);
    var c := RunEnd(s, b + 1, Space);
    var c' := j + (c - i);
    EndAgrees(t, j, s, i, c, c');
    if c < |s| {
      SuffixMatch(t, j, s, i, a, b, c);
    } else {
      NothingAfterColon(t, j, j + (a - i), b', c');
      NothingAfterColon(s, i, a, b, c);
    }
  }

  /** `TagAtSuffix` where the pattern gets as far as the value. */
  lemma SuffixMatch(t: string, j: nat, s: string, i: nat, a: nat, b: nat, c: nat)
    requires j <= |t| && i <= |s| && t[j..] == s[i..]
    requires i < a <= b < c < |s| && s[i] == '@' && a > i + 1 && s[b] == ':'
    requires a == RunEnd(s, i + 1, Alnum) && b == RunEnd(s, a, Space) && c == RunEnd(s, b + 1, Space)
    ensures TagAt(t, j) == TagAt(s, i)
  {
    var d := RunEnd(s, c + 1, NotQuote);
    var e := RunEnd(s, c, NonSpace);
    var a', b', c', d', e' := j + (a - i), j + (b - i), j + (c - i), j + (d - i), j + (e - i);
    assert Cuts(s, i, a, b, c, d, e);
    CutsAgree(t, j, a', b', c', d', e', s, i, a, b, c, d, e);
    SameCutsSameTag(t, j, a', b', c', d', e', s, i, a, b, c, d, e);
  }

  /** Two texts that agree from `i` and `j` on are cut at corresponding
      places. */
  lemma CutsAgree(t: string, j: nat, a': nat, b': nat, c': nat, d': nat, e': nat,
                  s: string, i: nat, a: nat, b: nat, c: nat, d: nat, e: nat)
    requires j <= |t| && i <= |s| && t[j..] == s[i..]
    requires Cuts(s, i, a, b, c, d, e)
    requires a' == j + (a - i) && b' == j + (b - i) && c' == j + (c - i) && d' == j + (d - i) && e' == j + (e - i)
    ensures Cuts(t, j, a', b', c', d', e')
  {
    CharAgrees(t, j, s, i, i, j);
    CharAgrees(t, j, s, i, b, b');
    CharAgrees(t, j, s, i, c, c');
    RunsAgree(t, j, a', b', c', d', e', s, i, a, b, c, d, e);
  }

  /** The greedy runs of the pattern end at corresponding places. */
  lemma RunsAgree(t: string, j: nat, a': nat, b': nat, c': nat, d': nat, e': nat,
                  s: string, i: nat, a: nat, b: nat, c: nat, d: nat, e: nat)
    requires j <= |t| && i <= |s| && t[j..] == s[i..]
    requires i < a <= b < c < |s|
    requires a == RunEnd(s, i + 1, Alnum) && b == RunEnd(s, a, Space) && c == RunEnd(s, b + 1, Space)
    requires d == RunEnd(s, c + 1, NotQuote) && e == RunEnd(s, c, NonSpace)
    requires a' == j + (a - i) && b' == j + (b - i) && c' == j + (c - i) && d' == j + (d - i) && e' == j + (e - i)
    ensures c' < |t|
    ensures a' == RunEnd(t, j + 1, Alnum) && b' == RunEnd(t, a', Space) && c' == RunEnd(t, b' + 1, Space)
    ensures d' == RunEnd(t, c' + 1, NotQuote) && e' == RunEnd(t, c', NonSpace)
  {
    HeadRunsAgree(t, j, a', b', c', s, i, a, b, c);
    ValueRunsAgree(t, j, c', d', e', s, i, c, d, e);
  }

  /** The runs of the identifier and of the spaces around the colon. */
  lemma HeadRunsAgree(t: string, j: nat, a': nat, b': nat, c': nat, s: string, i: nat, a: nat, b: nat, c: nat)
    requires j <= |t| && i <= |s| && t[j..] == s[i..]
    requires i < a <= b < c <= |s|
    requires a == RunEnd(s, i + 1, Alnum) && b == RunEnd(s, a, Space) && c == RunEnd(s, b + 1, Space)
    requires a' == j + (a - i) && b' == j + (b - i) && c' == j + (c - i)
    ensures a' == RunEnd(t, j + 1, Alnum) && b' == RunEnd(t, a', Space) && c' == RunEnd(t, b' + 1, Space)
  {
    RunEndAgrees(t, j, s, i, i + 1, j + 1, Alnum);
    RunEndAgrees(t, j, s, i, a, a', Space);
    RunEndAgrees(t, j, s, i, b + 1, b' + 1, Space);
  }

  /** The runs of the two value alternatives. */
  lemma ValueRunsAgree(t: string, j: nat, c': nat, d': nat, e': nat, s: string, i: nat, c: nat, d: nat, e: nat)
    requires j <= |t| && i <= |s| && t[j..] == s[i..]
    requires i <= c < |s|
    requires d == RunEnd(s, c + 1, NotQuote) && e == RunEnd(s, c, NonSpace)
    requires c' == j + (c - i) && d' == j + (d - i) && e' == j + (e - i)
    ensures c' < |t|
    ensures d' == RunEnd(t, c' + 1, NotQuote) && e' == RunEnd(t, c', NonSpace)
  {
    RunEndAgrees(t, j, s, i, c + 1, c' + 1, NotQuote);
    RunEndAgrees(t, j, s, i, c, c', NonSpace);
    CharAgrees(t, j, s, i, c, c');
  }

  /** Two texts that agree from `i` and `j` on, cut at corresponding
      places, give the same match. */
  lemma SameCutsSameTag(t: string, j: nat, a': nat, b': nat, c': nat, d': nat, e': nat,
                        s: string, i: nat, a: nat, b: nat, c: nat, d: nat, e: nat)
    requires j <= |t| && i <= |s| && t[j..] == s[i..]
    requires Cuts(t, j, a', b', c', d', e') && Cuts(s, i, a, b, c, d, e)
    requires a' == j + (a - i) && b' == j + (b - i) && c' == j + (c - i) && d' == j + (d - i) && e' == j + (e - i)
    ensures TagAt(t, j) == TagAt(s, i)
  {
    TagAtPieces(t, j, a', b', c', d', e');
    TagAtPieces(s, i, a, b, c, d, e);
    AssembleAgrees(t, j, a', b', c', d', e', s, i, a, b, c, d, e);
  }

  /** The match `TagAt` builds from the places its greedy runs end. */
  function Assemble(s: string, i: nat, a: nat, b: nat, c: nat, d: nat, e: nat): Option<TagMatch>
    requires i < a <= b < c < |s| && c < d <= |s| && c <= e <= |s|
  {
    if s[c] == '"' && c + 1 < d < |s|
    then Some(TagMatch(s[i + 1..a], s[a..b], s[b + 1..c], true, s[c + 1..d]))
    else Some(TagMatch(s[i + 1..a], s[a..b], s[b + 1..c], false, s[c..e]))
  }

  /** Two texts that agree from `i` and `j` on assemble the same match from
      corresponding places. */
  lemma AssembleAgrees(t: string, j: nat, a': nat, b': nat, c': nat, d': nat, e': nat,
                       s: string, i: nat, a: nat, b: nat, c: nat, d: nat, e: nat)
    requires j <= |t| && i <= |s| && t[j..] == s[i..]
    requires i < a <= b < c < |s| && c < d <= |s| && c <= e <= |s|
    requires a' == j + (a - i) && b' == j + (b - i) && c' == j + (c - i) && d' == j + (d - i) && e' == j + (e - i)
    ensures j < a' <= b' < c' < |t| && c' < d' <= |t| && c' <= e' <= |t|
    ensures t[c'] == s[c] && (d' < |t| <==> d < |s|)
    ensures Assemble(t, j, a', b', c', d', e') == Assemble(s, i, a, b, c, d, e)
  {
    SliceAgrees(t, j, s, i, i + 1, a, j + 1, a');
    SliceAgrees(t, j, s, i, a, b, a', b');
    SliceAgrees(t, j, s, i, b + 1, c, b' + 1, c');
    SliceAgrees(t, j, s, i, c + 1, d, c' + 1, d');
    SliceAgrees(t, j, s, i, c, e, c', e');
    CharAgrees(t, j, s, i, c, c');
    EndAgrees(t, j, s, i, d, d');
  }

  /** `a`, `b`, `c`, `d` and `e` are where the greedy runs of the pattern
      tried at `i` end, and the pattern gets as far as the value. */
  predicate Cuts(s: string, i: nat, a: nat, b: nat, c: nat, d: nat, e: nat) {
    && i < a <= b < c < |s| && s[i] == '@' && a > i + 1 && s[b] == ':'
    && a == RunEnd(s, i + 1, Alnum) && b == RunEnd(s, a, Space) && c == RunEnd(s, b + 1, Space)
    && d == RunEnd(s, c + 1, NotQuote) && e == RunEnd(s, c, NonSpace)
  }

  /** `TagAt` once the ends of its greedy runs are known. */
  lemma TagAtPieces(s: string, i: nat, a: nat, b: nat, c: nat, d: nat, e: nat)
    requires Cuts(s, i, a, b, c, d, e)
    ensures c < d <= |s| && c <= e <= |s|
    ensures TagAt(s, i) == Assemble(s, i, a, b, c, d, e)
  {
    if s[c] == '"' && c + 1 < d < |s| {
      QuotedAtPositionsFrom(s, i, a, b, c, d);
      AssembleQuoted(s, i, a, b, c, d, e);
    } else {
      BareAtPositionsFrom(s, i, a, b, c, e);
      AssembleBare(s, i, a, b, c, d, e);
    }
  }

  lemma AssembleQuoted(s: string, i: nat, a: nat, b: nat, c: nat, d: nat, e: nat)
    requires i < a <= b < c < |s| && c < d <= |s| && c <= e <= |s|
    requires s[c] == '"' && c + 1 < d < |s|
    ensures Assemble(s, i, a, b, c, d, e) == Some(TagMatch(s[i + 1..a], s[a..b], s[b + 1..c], true, s[c + 1..d]))
  {
  }

  lemma AssembleBare(s: string, i: nat, a: nat, b: nat, c: nat, d: nat, e: nat)
    requires i < a <= b < c < |s| && c < d <= |s| && c <= e <= |s|
    requires !(s[c] == '"' && c + 1 < d < |s|)
    ensures Assemble(s, i, a, b, c, d, e) == Some(TagMatch(s[i + 1..a], s[a..b], s[b + 1..c], false, s[c..e]))
  {
  }

  /** `TagAt` at `i` once its greedy runs' ends are known: the quoted
      alternative. */
  lemma QuotedAtPositionsFrom(s: string, i: nat, a: nat, b: nat, c: nat, d: nat)
    requires i + 1 < a <= b < c < d < |s| && s[i] == '@' && s[b] == ':'
    requires RunEnd(s, i + 1, Alnum) == a && RunEnd(s, a, Space) == b && RunEnd(s, b + 1, Space) == c
    requires s[c] == '"' && c + 1 < d && RunEnd(s, c + 1, NotQuote) == d
    ensures TagAt(s, i) == Some(TagMatch(s[i + 1..a], s[a..b], s[b + 1..c], true, s[c + 1..d]))
  {
  }

  /** The same for the non-whitespace alternative. */
  lemma BareAtPositionsFrom(s: string, i: nat, a: nat, b: nat, c: nat, e: nat)
    requires i + 1 < a <= b < c < e <= |s| && s[i] == '@' && s[b] == ':'
    requires RunEnd(s, i + 1, Alnum) == a && RunEnd(s, a, Space) == b && RunEnd(s, b + 1, Space) == c
    requires !(s[c] == '"' && c + 1 < RunEnd(s, c + 1, NotQuote) < |s|)
    requires RunEnd(s, c, NonSpace) == e
    ensures TagAt(s, i) == Some(TagMatch(s[i + 1..a], s[a..b], s[b + 1..c], false, s[c..e]))
  {
  }

  /** Matching in `p + s` at `|p|` is matching in `s` at its start. */
  lemma TagAtShift(p: string, s: string)
    ensures TagAt(p + s, |p|) == TagAt(s, 0)
  {
    assert (p + s)[|p|..] == s[0..];
    TagAtSuffix(p + s, |p|, s, 0);
  }

  /** A well-formed match rendered anywhere in a line is matched back at
      its position. */
  lemma RenderThenMatchAt(p: string, m: TagMatch, rest: string)
    requires WellFormed(m)
    requires !m.quoted ==> m.value[0] != '"' && (rest == [] || IsSpace(rest[0]))
    ensures TagAt(p + (Render(m) + rest), |p|) == Some(m)
  {
    RenderThenMatch(m, rest);
    TagAtShift(p, Render(m) + rest);
  }

  /** `@a: ""x`: the quoted alternative needs at least one character between
      the quotes, so a value that opens with `""` is taken by the
      non-whitespace alternative, quotes included. */
  lemma EmptyQuotesFallThrough(m: TagMatch, rest: string)
    requires WellFormed(m) && !m.quoted
    requires |m.value| >= 2 && m.value[0] == '"' && m.value[1] == '"'
    requires rest == [] || IsSpace(rest[0])
    ensures TagAt(Render(m) + rest, 0) == Some(m)
  {
    RenderShape(m, rest);
    var s := Render(m) + rest;
    var tail := m.value + rest;
    var a := 1 + |m.ident|;
    var b := a + |m.beforeColon|;
    var c := b + 1 + |m.afterColon|;
    HeadStops(s, m.ident, m.beforeColon, ":" + (m.afterColon + tail), a, b);
    assert tail[0] == '"';
    ColonStops(s, b, m.afterColon, tail, c);
    var w := c + |m.value|;
    BareStops(s, c, m.value, rest, w);
    assert s[c + 1] == '"';
    assert RunEnd(s, c + 1, NotQuote) == c + 1;
    BareAtPositions(s, a, b, c, w);
  }

  lemma MatchShape(s: string, m: TagMatch, rest: string, tail: string)
    requires WellFormed(m)
    requires !m.quoted ==> m.value[0] != '"' && (rest == [] || IsSpace(rest[0]))
    requires tail == if m.quoted then "\"" + (m.value + ("\"" + rest)) else m.value + rest
    requires s[0..] == "@" + (m.ident + (m.beforeColon + (":" + (m.afterColon + tail))))
    ensures TagAt(s, 0) == Some(m)
  {
    var a := 1 + |m.ident|;
    var b := a + |m.beforeColon|;
    var c := b + 1 + |m.afterColon|;
    HeadStops(s, m.ident, m.beforeColon, ":" + (m.afterColon + tail), a, b);
    assert tail[0] == if m.quoted then '"' else m.value[0];
    ColonStops(s, b, m.afterColon, tail, c);
    if m.quoted {
      var w := c + 1 + |m.value|;
      QuotedStops(s, c, m.value, rest, w);
      QuotedAtPositions(s, a, b, c, w);
    } else {
      var w := c + |m.value|;
      BareStops(s, c, m.value, rest, w);
      BareAtPositions(s, a, b, c, w);
    }
  }

  /** `QuotedAtPositionsFrom` at the start of the text. */
  lemma QuotedAtPositions(s: string, a: nat, b: nat, c: nat, w: nat)
    requires 1 < a <= b < c < w < |s| && s[0] == '@' && s[b] == ':'
    requires RunEnd(s, 1, Alnum) == a && RunEnd(s, a, Space) == b && RunEnd(s, b + 1, Space) == c
    requires s[c] == '"' && c + 1 < w && RunEnd(s, c + 1, NotQuote) == w
    ensures TagAt(s, 0) == Some(TagMatch(s[1..a], s[a..b], s[b + 1..c], true, s[c + 1..w]))
  {
    QuotedAtPositionsFrom(s, 0, a, b, c, w);
  }

  /** `BareAtPositionsFrom` at the start of the text. */
  lemma BareAtPositions(s: string, a: nat, b: nat, c: nat, w: nat)
    requires 1 < a <= b < c < w <= |s| && s[0] == '@' && s[b] == ':'
    requires RunEnd(s, 1, Alnum) == a && RunEnd(s, a, Space) == b && RunEnd(s, b + 1, Space) == c
    requires !(s[c] == '"' && c + 1 < RunEnd(s, c + 1, NotQuote) < |s|)
    requires RunEnd(s, c, NonSpace) == w
    ensures TagAt(s, 0) == Some(TagMatch(s[1..a], s[a..b], s[b + 1..c], false, s[c..w]))
  {
    BareAtPositionsFrom(s, 0, a, b, c, w);
  }

  /** A value that opens a quote and never closes it falls through to the
      non-whitespace alternative: it keeps its opening quote and runs to the
      next space. */
  lemma UnterminatedQuoteKeepsQuote(ident: string, before: string, after: string, v: string)
    requires |ident| > 0 && AllIn(ident, Alnum)
    requires AllIn(before, Space) && AllIn(after, Space)
    requires AllIn(v, NotQuote)
    ensures var r := TagAt("@" + ident + before + ":" + after + "\"" + v, 0);
            && r.Some?
            && !r.value.quoted
            && r.value.ident == ident
            && r.value.value == "\"" + v[..RunEnd(v, 0, NonSpace)]
  {
    var s := "@" + ident + before + ":" + after + "\"" + v;
    assert s[0..] == "@" + (ident + (before + (":" + (after + ("\"" + v)))));
    UnterminatedAt(s, ident, before, after, v);
  }

  lemma UnterminatedAt(s: string, ident: string, before: string, after: string, v: string)
    requires |ident| > 0 && AllIn(ident, Alnum)
    requires AllIn(before, Space) && AllIn(after, Space)
    requires AllIn(v, NotQuote)
    requires s[0..] == "@" + (ident + (before + (":" + (after + ("\"" + v)))))
    ensures var r := TagAt(s, 0);
            && r.Some?
            && !r.value.quoted
            && r.value.ident == ident
            && r.value.value == "\"" + v[..RunEnd(v, 0, NonSpace)]
  {
    var tail := "\"" + v;
    var a := 1 + |ident|;
    var b := a + |before|;
    var c := b + 1 + |after|;
    HeadStops(s, ident, before, ":" + (after + tail), a, b);
    ColonStops(s, b, after, tail, c);
    var w := c + 1 + RunEnd(v, 0, NonSpace);
    QuoteFallsThrough(s, c, v, w);
    BareAtPositions(s, a, b, c, w);
  }

  /** Where the value ends when its opening quote is never closed. */
  lemma QuoteFallsThrough(s: string, c: nat, v: string, w: nat)
    requires c <= |s| && s[c..] == "\"" + v
    requires AllIn(v, NotQuote)
    requires w == c + 1 + RunEnd(v, 0, NonSpace)
    ensures c < w <= |s| && s[c] == '"'
    ensures RunEnd(s, c + 1, NotQuote) == |s|
    ensures RunEnd(s, c, NonSpace) == w
    ensures s[c..w] == "\"" + v[..RunEnd(v, 0, NonSpace)]
  {
    Advance(s, c, "\"", v);
    RunStops(s, c + 1, v, [], NotQuote);
    var j := RunEnd(v, 0, NonSpace);
    var quotedRun := "\"" + v[..j];
    assert AllIn(quotedRun, NonSpace) by {
      forall k | 0 <= k < |quotedRun| ensures InClass(quotedRun[k], NonSpace) {
        if k > 0 {
          assert quotedRun[k] == v[k - 1];
        }
      }
    }
    assert s[c..] == quotedRun + v[j..];
    if j < |v| {
      assert v[j..][0] == v[j];
    }
    RunStops(s, c, quotedRun, v[j..], NonSpace);
  }

  /** The leftmost match at or after `i`, with its position: `findall(s)[0]`
      when `i` is 0. */
  function FindTagFrom(s: string, i: nat): (r: Option<(nat, TagMatch)>)
    requires i <= |s|
    ensures r.Some? ==> i <= r.value.0 < |s| && TagAt(s, r.value.0) == Some(r.value.1)
    ensures forall j :: i <= j < |s| && (r.None? || j < r.value.0) ==> TagAt(s, j).None?
    decreases |s| - i
  {
    if i == |s| then None
    else
      var here := TagAt(s, i);
      if here.Some? then Some((i, here.value))
      else FindTagFrom(s, i + 1)
  }

  /** The attribute a line sets and its raw value: the leftmost tag, its
      identifier lower-cased. */
  function LineTag(line: string): Option<(string, string)> {
    match FindTagFrom(line, 0)
    case None => None
    case Some((_, m)) => Some((Lower(m.ident), m.value))
  }

  /** The tag a line sets is the one at the leftmost position where the
      pattern matches, with its identifier lower-cased. */
  lemma LineTagAt(line: string, i: nat)
    requires i < |line| && TagAt(line, i).Some?
    requires forall j :: 0 <= j < i ==> TagAt(line, j).None?
    ensures LineTag(line) == Some((Lower(TagAt(line, i).value.ident), TagAt(line, i).value.value))
    ensures forall k :: 0 <= k < |LineTag(line).value.0| ==> !('A' <= LineTag(line).value.0[k] <= 'Z')
  {
    var m := TagAt(line, i).value;
    FindTagFromFirst(line, i);
    assert LineTag(line) == Some((Lower(m.ident), m.value));
    LowerHasNoUpper(m.ident);
  }

  /** The search from the start stops at the first position that matches. */
  lemma FindTagFromFirst(line: string, i: nat)
    requires i < |line| && TagAt(line, i).Some?
    requires forall j :: 0 <= j < i ==> TagAt(line, j).None?
    ensures FindTagFrom(line, 0) == Some((i, TagAt(line, i).value))
  {
    var r := FindTagFrom(line, 0);
    assert r.Some?;
    assert r.value.0 == i;
  }

  /** A line sets no tag exactly when the pattern matches nowhere in it. */
  lemma LineTagNone(line: string)
    ensures LineTag(line).None? <==> forall i :: 0 <= i < |line| ==> TagAt(line, i).None?
  {
    if LineTag(line).Some? {
      var i := FindTagFrom(line, 0).value.0;
      assert TagAt(line, i).Some?;
    }
  }

  datatype Cardinality = One | Multiple

  /** The value converters: `string_attr`, `date_attr` and `url_attr`. */
  datatype ValueKind = StringValue | DateValue | UrlValue

  datatype Handler = Handler(cardinality: Cardinality, kind: ValueKind)

  /** `SUPPORTED_ATTRS`. */
  const SupportedAttrs: map<string, Handler> := map[
    "author" := Handler(One, StringValue),
    "maintainer" := Handler(Multiple, StringValue),
    "name" := Handler(One, StringValue),
    "license" := Handler(One, StringValue),
    "releasedate" := Handler(One, DateValue),
    "creationdate" := Handler(One, DateValue),
    "video" := Handler(Multiple, UrlValue),
    "picture" := Handler(Multiple, UrlValue)
  ]

  /** `dateutil.parser.parse(v).isoformat()`, supplied by the caller: `None`
      where the parser raises. */
  type DateParser = string -> Option<string>

  function Normalize(kind: ValueKind, value: string, parseDate: DateParser): Option<string> {
    match kind
    case StringValue => Some(value)
    case UrlValue => Some(value)
    case DateValue => parseDate(value)
  }

  /** The prior list of an append attribute (what `setdefault` yields). */
  function Items(md: Metadata, attr: string): seq<string> {
    if attr in md && md[attr].List? then md[attr].items else []
  }

  /** The `wrap` closure of `one(parser)` or `multiple(parser)`: `None` when
      it raises, either because the converter raises or because an append
      finds a single string where it expects a list. */
  function Apply(h: Handler, md: Metadata, attr: string, value: string, parseDate: DateParser): (r: Option<Metadata>)
    ensures r.Some? ==> r.value.Keys == md.Keys + {attr}
    ensures r.Some? ==> forall k :: k in md && k != attr ==> r.value[k] == md[k]
    ensures r.Some? && h.cardinality == One ==>
              r.value[attr].Str? && Normalize(h.kind, value, parseDate) == Some(r.value[attr].text)
    ensures r.Some? && h.cardinality == Multiple ==>
              exists v :: Normalize(h.kind, value, parseDate) == Some(v) && r.value[attr] == List(Items(md, attr) + [v])
    ensures r.None? <==>
              || Normalize(h.kind, value, parseDate).None?
              || (h.cardinality == Multiple && attr in md && md[attr].Str?)
  {
    match h.cardinality
    case One =>
      (match Normalize(h.kind, value, parseDate)
       case Some(v) => Some(md[attr := Str(v)])
       case None => None)
    case Multiple =>
      if attr in md && md[attr].Str? then None
      else match Normalize(h.kind, value, parseDate)
        case Some(v) => Some(md[attr := List(Items(md, attr) + [v])])
        case None => None
  }

  /** `metadata_parser` on one line: `None` when the handler raises. A line
      without a tag, or whose tag is not in the registry, leaves the record
      as it is. */
  function ParseLine(md: Metadata, line: string, parseDate: DateParser): (r: Option<Metadata>)
    ensures LineTag(line).None? || LineTag(line).value.0 !in SupportedAttrs ==> r == Some(md)
    ensures r.Some? ==> forall k :: k in md ==> k in r.value
    ensures r.Some? ==> forall k :: k in r.value && k !in md ==> k in SupportedAttrs
    ensures r.Some? ==> forall k :: k in md && k !in SupportedAttrs ==> r.value[k] == md[k]
  {
    match LineTag(line)
    case None => Some(md)
    case Some((attr, value)) =>
      if attr in SupportedAttrs then Apply(SupportedAttrs[attr], md, attr, value, parseDate)
      else Some(md)
  }

  /** The tag loop of `extract_metadata` over every line, stopping at the
      first line whose handler raises and reporting that line. */
  function ParseLines(md: Metadata, lines: seq<string>, parseDate: DateParser): (r: Result<Metadata, string>)
    ensures r.Failure? ==> r.error in lines
    ensures r.Success? ==> forall k :: k in md ==> k in r.value
    ensures r.Success? ==> forall k :: k in r.value && k !in md ==> k in SupportedAttrs
    ensures r.Success? ==> forall k :: k in md && k !in SupportedAttrs ==> r.value[k] == md[k]
    decreases |lines|
  {
    if |lines| == 0 then Success(md)
    else match ParseLine(md, lines[0], parseDate)
      case None => Failure(lines[0])
      case Some(md1) => ParseLines(md1, lines[1..], parseDate)
  }

  /** The raw values of the lines whose first tag names `attr`, in line
      order. */
  function TagValues(lines: seq<string>, attr: string): seq<string>
    decreases |lines|
  {
    if |lines| == 0 then []
    else
      var here := match LineTag(lines[0])
        case Some((a, v)) => if a == attr then [v] else []
        case None => [];
      here + TagValues(lines[1..], attr)
  }

  /** A line whose first tag names a date attribute whose value the date
      parser rejects. */
  predicate BadDateLine(line: string, parseDate: DateParser) {
    match LineTag(line)
    case None => false
    case Some((attr, v)) =>
      attr in SupportedAttrs && SupportedAttrs[attr].kind == DateValue && parseDate(v).None?
  }

  /** Every append attribute present holds a list, as `setdefault` leaves
      it. */
  predicate ListsWellTyped(md: Metadata) {
    forall k :: k in md && k in SupportedAttrs && SupportedAttrs[k].cardinality == Multiple ==> md[k].List?
  }

  lemma AppendAttrsAreNotDates(attr: string)
    requires attr in SupportedAttrs && SupportedAttrs[attr].cardinality == Multiple
    ensures SupportedAttrs[attr].kind != DateValue
  {
  }

  /** On a well-typed record a line's handler raises exactly when the line
      carries a date tag the date parser rejects, and a record it returns is
      still well typed. */
  lemma ParseLineFails(md: Metadata, line: string, parseDate: DateParser)
    requires ListsWellTyped(md)
    ensures ParseLine(md, line, parseDate).None? <==> BadDateLine(line, parseDate)
    ensures ParseLine(md, line, parseDate).Some? ==> ListsWellTyped(ParseLine(md, line, parseDate).value)
  {
    match LineTag(line)
    case None =>
    case Some((attr, v)) =>
      if attr in SupportedAttrs && SupportedAttrs[attr].cardinality == Multiple {
        AppendAttrsAreNotDates(attr);
      }
  }

  /** Index of the first line with a rejected date, or `|lines|`. */
  function FirstBadDate(lines: seq<string>, parseDate: DateParser): (k: nat)
    ensures k <= |lines|
    ensures k < |lines| ==> BadDateLine(lines[k], parseDate)
    ensures forall j :: 0 <= j < k ==> !BadDateLine(lines[j], parseDate)
    decreases |lines|
  {
    if |lines| == 0 then 0
    else if BadDateLine(lines[0], parseDate) then 0
    else 1 + FirstBadDate(lines[1..], parseDate)
  }

  /** The tag loop fails exactly when some line carries a rejected date, and
      then it reports the first such line. */
  lemma {:induction false} ParseLinesFails(md: Metadata, lines: seq<string>, parseDate: DateParser)
    requires ListsWellTyped(md)
    ensures ParseLines(md, lines, parseDate).Failure? <==> FirstBadDate(lines, parseDate) < |lines|
    ensures ParseLines(md, lines, parseDate).Failure? ==>
              ParseLines(md, lines, parseDate).error == lines[FirstBadDate(lines, parseDate)]
    decreases |lines|
  {
    if |lines| > 0 {
      ParseLineFails(md, lines[0], parseDate);
      if !BadDateLine(lines[0], parseDate) {
        var md1 := ParseLine(md, lines[0], parseDate).value;
        ParseLinesFails(md1, lines[1..], parseDate);
        assert ParseLines(md, lines, parseDate) == ParseLines(md1, lines[1..], parseDate);
        assert FirstBadDate(lines, parseDate) == 1 + FirstBadDate(lines[1..], parseDate);
      }
    }
  }

  /** Running the loop over two blocks of lines one after the other is the
      same as running it over their concatenation: the loop only ever
      extends the record it is given. */
  lemma {:induction false} ParseLinesAppend(md: Metadata, a: seq<string>, b: seq<string>, parseDate: DateParser)
    ensures ParseLines(md, a + b, parseDate)
            == match ParseLines(md, a, parseDate)
               case Success(md1) => ParseLines(md1, b, parseDate)
               case Failure(line) => Failure(line)
    decreases |a|
  {
    if |a| == 0 {
      assert a + b == b;
    } else {
      assert (a + b)[0] == a[0];
      assert (a + b)[1..] == a[1..] + b;
      match ParseLine(md, a[0], parseDate)
      case None =>
      case Some(md1) => ParseLinesAppend(md1, a[1..], b, parseDate);
    }
  }

  /** One line's effect on an append attribute. */
  lemma ParseLineAppends(md: Metadata, line: string, attr: string, parseDate: DateParser)
    requires attr in SupportedAttrs && SupportedAttrs[attr].cardinality == Multiple
    requires attr !in md || md[attr].List?
    requires ParseLine(md, line, parseDate).Some?
    ensures var r := ParseLine(md, line, parseDate).value;
            && (attr in r <==> attr in md || TagValues([line], attr) != [])
            && (attr in r ==> r[attr] == List(Items(md, attr) + TagValues([line], attr)))
  {
    AppendAttrsAreNotDates(attr);
    LineTagValues(line, attr);
    match LineTag(line)
    case None =>
    case Some((a, v)) =>
      if a in SupportedAttrs {
        assert ParseLine(md, line, parseDate) == Apply(SupportedAttrs[a], md, a, v, parseDate);
      }
  }

  /** The values one line contributes to an attribute: its tag's value when
      the tag names that attribute, else nothing. */
  lemma LineTagValues(line: string, attr: string)
    ensures TagValues([line], attr)
            == match LineTag(line)
               case Some((a, v)) => if a == attr then [v] else []
               case None => []
  {
    assert [line][1..] == [];
  }

  /** One line leaves an overwrite attribute as it was, or sets it to the
      converted value of the line's tag for it. */
  lemma ParseLineOverwrites(md: Metadata, line: string, attr: string, parseDate: DateParser)
    requires attr in SupportedAttrs && SupportedAttrs[attr].cardinality == One
    requires ParseLine(md, line, parseDate).Some?
    ensures Overwritten(md, ParseLine(md, line, parseDate).value, attr, SupportedAttrs[attr].kind, parseDate,
                        TagValues([line], attr))
  {
    LineTagValues(line, attr);
    match LineTag(line)
    case None =>
    case Some((a, v)) =>
      if a in SupportedAttrs {
        assert ParseLine(md, line, parseDate) == Apply(SupportedAttrs[a], md, a, v, parseDate);
      }
  }

  /** An append attribute ends up holding its prior list followed by the
      values of every line tagged with it, in line order, duplicates kept;
      it is created only when there is something to hold. */
  lemma {:induction false} ParseLinesAppends(md: Metadata, lines: seq<string>, attr: string, parseDate: DateParser)
    requires attr in SupportedAttrs && SupportedAttrs[attr].cardinality == Multiple
    requires attr !in md || md[attr].List?
    requires ParseLines(md, lines, parseDate).Success?
    ensures var r := ParseLines(md, lines, parseDate).value;
            && (attr in r <==> attr in md || TagValues(lines, attr) != [])
            && (attr in r ==> r[attr] == List(Items(md, attr) + TagValues(lines, attr)))
    decreases |lines|
  {
    if |lines| > 0 {
      var md1 := ParseLine(md, lines[0], parseDate).value;
      ParseLineAppends(md, lines[0], attr, parseDate);
      ParseLinesAppends(md1, lines[1..], attr, parseDate);
      TagValuesSplit(lines, attr);
      assert ParseLines(md, lines, parseDate) == ParseLines(md1, lines[1..], parseDate);
      var r := ParseLines(md1, lines[1..], parseDate).value;
      AppendsCompose(md, md1, r, attr, TagValues([lines[0]], attr), TagValues(lines[1..], attr));
    }
  }

  /** Two append steps in a row append both blocks of values. */
  lemma AppendsCompose(md: Metadata, md1: Metadata, r: Metadata, attr: string, t0: seq<string>, t1: seq<string>)
    requires attr !in md || md[attr].List?
    requires (attr in md1 <==> attr in md || t0 != []) && (attr in md1 ==> md1[attr] == List(Items(md, attr) + t0))
    requires (attr in r <==> attr in md1 || t1 != []) && (attr in r ==> r[attr] == List(Items(md1, attr) + t1))
    ensures attr in r <==> attr in md || t0 + t1 != []
    ensures attr in r ==> r[attr] == List(Items(md, attr) + (t0 + t1))
  {
    if attr in md1 {
      assert Items(md1, attr) + t1 == Items(md, attr) + (t0 + t1);
    } else {
      assert t0 + t1 == t1;
    }
  }

  /** An append attribute absent before the loop ends up holding exactly the
      values tagged for it, and only when there is one. */
  lemma AppendsFromAbsent(md: Metadata, lines: seq<string>, attr: string, parseDate: DateParser)
    requires attr in SupportedAttrs && SupportedAttrs[attr].cardinality == Multiple
    requires attr !in md
    requires ParseLines(md, lines, parseDate).Success?
    ensures var r := ParseLines(md, lines, parseDate).value;
            && (attr in r <==> TagValues(lines, attr) != [])
            && (attr in r ==> r[attr] == List(TagValues(lines, attr)))
  {
    assert Items(md, attr) == [];
    ParseLinesAppends(md, lines, attr, parseDate);
  }

  lemma TagValuesSplit(lines: seq<string>, attr: string)
    requires |lines| > 0
    ensures TagValues(lines, attr) == TagValues([lines[0]], attr) + TagValues(lines[1..], attr)
  {
    assert [lines[0]][1..] == [];
  }

  /** An overwrite attribute ends up holding the converted value of the last
      line tagged with it; with no such line it is left as it was. */
  lemma {:induction false} ParseLinesOverwrites(md: Metadata, lines: seq<string>, attr: string, parseDate: DateParser)
    requires attr in SupportedAttrs && SupportedAttrs[attr].cardinality == One
    requires ParseLines(md, lines, parseDate).Success?
    ensures Overwritten(md, ParseLines(md, lines, parseDate).value, attr, SupportedAttrs[attr].kind, parseDate,
                        TagValues(lines, attr))
    decreases |lines|
  {
    if |lines| > 0 {
      var md1 := ParseLine(md, lines[0], parseDate).value;
      assert ParseLines(md, lines, parseDate) == ParseLines(md1, lines[1..], parseDate);
      ParseLineOverwrites(md, lines[0], attr, parseDate);
      ParseLinesOverwrites(md1, lines[1..], attr, parseDate);
      TagValuesSplit(lines, attr);
      OverwritesCompose(md, md1, ParseLines(md1, lines[1..], parseDate).value, attr, SupportedAttrs[attr].kind,
                        parseDate, TagValues([lines[0]], attr), TagValues(lines[1..], attr));
    }
  }

  /** `after` is `before` with `attr` overwritten by the last of the values
      `t`, converted; or untouched when `t` is empty. */
  predicate Overwritten(before: Metadata, after: Metadata, attr: string, kind: ValueKind, parseDate: DateParser, t: seq<string>) {
    if t == [] then
      (attr in after <==> attr in before) && (attr in before ==> after[attr] == before[attr])
    else
      && attr in after
      && after[attr].Str?
      && Normalize(kind, t[|t| - 1], parseDate) == Some(after[attr].text)
  }

  /** Two overwrite steps in a row leave the last value of both blocks. */
  lemma OverwritesCompose(md: Metadata, md1: Metadata, r: Metadata, attr: string, kind: ValueKind,
                          parseDate: DateParser, t0: seq<string>, t1: seq<string>)
    requires Overwritten(md, md1, attr, kind, parseDate, t0)
    requires Overwritten(md1, r, attr, kind, parseDate, t1)
    ensures Overwritten(md, r, attr, kind, parseDate, t0 + t1)
  {
    if t1 != [] {
      assert (t0 + t1)[|t0 + t1| - 1] == t1[|t1| - 1];
    } else {
      assert t0 + t1 == t0;
    }
  }
}
