/** The `_LwksEffectInfo` block of an effect file: `extract_lwksinfo_lines`
    cuts the window of lines that holds it, and three one-line patterns read
    the `Category`, `SubCategory` and `Description` string assignments out of
    that window into `category`, `subcategory` and `name`. */
module LwksInfo {
  import opened Records
  import opened Text

  const Marker := "_LwksEffectInfo"

  /** `'_LwksEffectInfo' in line`. */
  predicate HasMarker(line: string) {
    Contains(line, Marker)
  }

  /** `end_of_block_re.match(line)` for the pattern `>[^;]`: a `>` followed
      by any character other than `;`. */
  predicate EndsBlock(line: string) {
    |line| >= 2 && line[0] == '>' && line[1] != ';'
  }

  /** Index of the first line at or after `from` that holds the marker, or
      `|lines|` when there is none. */
  function FirstMarkerFrom(lines: seq<string>, from: nat): (a: nat)
    requires from <= |lines|
    ensures from <= a <= |lines|
    ensures forall i :: from <= i < a ==> !HasMarker(lines[i])
    ensures a < |lines| ==> HasMarker(lines[a])
    decreases |lines| - from
  {
    if from == |lines| || HasMarker(lines[from]) then from else FirstMarkerFrom(lines, from + 1)
  }

  function FirstMarker(lines: seq<string>): (a: nat)
    ensures a <= |lines|
    ensures forall i :: 0 <= i < a ==> !HasMarker(lines[i])
    ensures a < |lines| ==> HasMarker(lines[a])
  {
    FirstMarkerFrom(lines, 0)
  }

  /** Index of the line that closes a window opened at `from`: the first
      line at or after `from` that ends the block, or the last line. */
  function BlockEnd(lines: seq<string>, from: nat): (b: nat)
    requires from < |lines|
    ensures from <= b < |lines|
    ensures forall i :: from <= i < b ==> !EndsBlock(lines[i])
    ensures EndsBlock(lines[b]) || b == |lines| - 1
    decreases |lines| - from
  {
    if EndsBlock(lines[from]) || from == |lines| - 1 then from else BlockEnd(lines, from + 1)
  }

  /** `w` is the window of `lines` opened at `a`: the slice that starts at
      the first line holding the marker, runs to the first line (from there
      on) that ends the block, and stops early only at the end of input. */
  predicate IsWindowAt(lines: seq<string>, a: nat, w: seq<string>) {
    && |w| > 0
    && a + |w| <= |lines|
    && w == lines[a..a + |w|]
    && HasMarker(w[0])
    && (forall i :: 0 <= i < a ==> !HasMarker(lines[i]))
    && (forall i :: 0 <= i < |w| - 1 ==> !EndsBlock(w[i]))
    && (EndsBlock(w[|w| - 1]) || a + |w| == |lines|)
  }

  /** The lines `extract_lwksinfo_lines` returns: empty exactly when no line
      holds the marker, and otherwise the window opened at the first marker
      line. */
  function Window(lines: seq<string>): (w: seq<string>)
    ensures w == [] <==> forall i :: 0 <= i < |lines| ==> !HasMarker(lines[i])
    ensures w != [] ==> IsWindowAt(lines, FirstMarker(lines), w)
  {
    var a := FirstMarker(lines);
    if a == |lines| then [] else lines[a..BlockEnd(lines, a) + 1]
  }

  /** The loop of `extract_lwksinfo_lines`: collecting starts at the first
      line that holds the marker and stops after the first collected line
      that ends the block. */
  method ExtractLwksInfoLines(lines: seq<string>) returns (toAnalyse: seq<string>)
    ensures toAnalyse == Window(lines)
  {
    toAnalyse := [];
    var inBlock := false;
    ghost var start := 0;
    var i := 0;
    while i < |lines|
      invariant 0 <= i <= |lines|
      invariant !inBlock ==> toAnalyse == [] && forall j :: 0 <= j < i ==> !HasMarker(lines[j])
      invariant inBlock ==> start < i && HasMarker(lines[start]) && forall j :: 0 <= j < start ==> !HasMarker(lines[j])
      invariant inBlock ==> toAnalyse == lines[start..i]
      invariant inBlock ==> forall j :: start <= j < i ==> !EndsBlock(lines[j])
    {
      var line := lines[i];
      if HasMarker(line) {
        if !inBlock {
          start := i;
        }
        inBlock := true;
      }
      if inBlock {
        assert lines[start..i + 1] == lines[start..i] + [line];
        toAnalyse := toAnalyse + [line];
        if EndsBlock(line) {
          inBlock := false;
          WindowEndsAt(lines, start, i);
          break;
        }
      }
      i := i + 1;
    }
    if inBlock {
      WindowEndsAt(lines, start, |lines| - 1);
    }
  }

  /** The window once the line that opens it and the line that closes it
      are known. */
  lemma WindowEndsAt(lines: seq<string>, a: nat, b: nat)
    requires a <= b < |lines| && HasMarker(lines[a])
    requires forall j :: 0 <= j < a ==> !HasMarker(lines[j])
    requires forall j :: a <= j < b ==> !EndsBlock(lines[j])
    requires EndsBlock(lines[b]) || b == |lines| - 1
    ensures Window(lines) == lines[a..b + 1]
  {
    FirstMarkerAt(lines, a);
    BlockEndAt(lines, a, b);
    WindowAt(lines, a, b);
  }

  /** The window once its first and last lines are known. */
  lemma WindowAt(lines: seq<string>, a: nat, b: nat)
    requires a == FirstMarker(lines) && a <= b < |lines| && b == BlockEnd(lines, a)
    ensures Window(lines) == lines[a..b + 1]
  {
  }

  lemma FirstMarkerAt(lines: seq<string>, i: nat)
    requires i < |lines| && HasMarker(lines[i])
    requires forall j :: 0 <= j < i ==> !HasMarker(lines[j])
    ensures FirstMarker(lines) == i
  {
  }

  lemma BlockEndAt(lines: seq<string>, a: nat, i: nat)
    requires a <= i < |lines|
    requires EndsBlock(lines[i]) || i == |lines| - 1
    requires forall j :: a <= j < i ==> !EndsBlock(lines[j])
    ensures BlockEnd(lines, a) == i
  {
  }

  /** The pieces of a line that `^\s*string\s*FIELD\s*=\s*"([^"]+)"`
      matches, in order: the indentation, the gap after `string`, the gaps
      before and after `=`, and the captured value. */
  datatype Assignment = Assignment(indent: string, afterType: string, beforeEq: string, afterEq: string, value: string)

  const TypeName := "string"

  function RenderAssignment(field: string, a: Assignment): string {
    a.indent + (TypeName + (a.afterType + (field + (a.beforeEq + ("=" + (a.afterEq + ("\"" + (a.value + "\""))))))))
  }

  predicate WellFormedAssignment(a: Assignment) {
    && AllIn(a.indent, Space)
    && AllIn(a.afterType, Space)
    && AllIn(a.beforeEq, Space)
    && AllIn(a.afterEq, Space)
    && |a.value| > 0
    && AllIn(a.value, NotQuote)
  }

  /** The field names the three window patterns look for. */
  predicate IsFieldName(field: string) {
    field == "Category" || field == "SubCategory" || field == "Description"
  }

  /** A greedy run of `cls` at the start of `s`, and what follows it. */
  function SplitRun(s: string, cls: CharClass): (r: (string, string))
    ensures r.0 + r.1 == s
    ensures AllIn(r.0, cls)
    ensures r.1 == [] || !InClass(r.1[0], cls)
  {
    var j := RunEnd(s, 0, cls);
    assert s[..j] == s[0..j];
    SliceAllIn(s, 0, j, cls);
    assert j < |s| ==> s[j..][0] == s[j];
    (s[..j], s[j..])
  }

  /** The split of a run followed by a character outside the class is that
      run and that remainder. */
  lemma SplitRunOf(p: string, q: string, cls: CharClass)
    requires AllIn(p, cls)
    requires q == [] || !InClass(q[0], cls)
    ensures SplitRun(p + q, cls) == (p, q)
  {
    var s := p + q;
    assert s[0..] == p + q;
    RunStops(s, 0, p, q, cls);
    assert s[..|p|] == s[0..|p|];
  }

  /** `\s*"([^"]+)"` at the start of `s`: the gap before the opening
      quote, the value between the quotes, and the text after the closing
      quote. */
  function QuotedPart(s: string): (r: Option<(string, string, string)>)
    ensures r.Some? ==> AllIn(r.value.0, Space) && |r.value.1| > 0 && AllIn(r.value.1, NotQuote)
    ensures r.Some? ==> s == r.value.0 + ("\"" + (r.value.1 + ("\"" + r.value.2)))
  {
    var (gap, s1) := SplitRun(s, Space);
    if s1 == [] || s1[0] != '"' then None else
    var (value, s2) := SplitRun(s1[1..], NotQuote);
    if value == [] || s2 == [] then None else
    PrefixThenRest(s1, "\"");
    PrefixThenRest(s2, "\"");
    Some((gap, value, s2[1..]))
  }

  /** `\s*=` followed by `QuotedPart`: the gaps around `=`, the value and
      the text after the closing quote. */
  function EqualsPart(s: string): (r: Option<(string, string, string, string)>)
    ensures r.Some? ==> && AllIn(r.value.0, Space) && AllIn(r.value.1, Space)
                        && |r.value.2| > 0 && AllIn(r.value.2, NotQuote)
    ensures r.Some? ==> s == r.value.0 + ("=" + (r.value.1 + ("\"" + (r.value.2 + ("\"" + r.value.3)))))
  {
    var (gap, s1) := SplitRun(s, Space);
    if s1 == [] || s1[0] != '=' then None else
    match QuotedPart(s1[1..])
    case None => None
    case Some((afterEq, value, rest)) =>
      PrefixThenRest(s1, "=");
      Some((gap, afterEq, value, rest))
  }

  /** `\s*FIELD` followed by `EqualsPart`. */
  function FieldPart(s: string, field: string): (r: Option<(string, string, string, string, string)>)
    ensures r.Some? ==> && AllIn(r.value.0, Space) && AllIn(r.value.1, Space) && AllIn(r.value.2, Space)
                        && |r.value.3| > 0 && AllIn(r.value.3, NotQuote)
    ensures r.Some? ==>
              s == r.value.0 + (field + (r.value.1 + ("=" + (r.value.2 + ("\"" + (r.value.3 + ("\"" + r.value.4)))))))
  {
    var (gap, s1) := SplitRun(s, Space);
    if !StartsWith(s1, field) then None else
    match EqualsPart(s1[|field|..])
    case None => None
    case Some((beforeEq, afterEq, value, rest)) =>
      PrefixThenRest(s1, field);
      Some((gap, beforeEq, afterEq, value, rest))
  }

  /** `^\s*string\s*FIELD\s*=\s*"([^"]+)"` at the start of `line`, with
      the text after the closing quote: the line is the rendering of the
      match followed by that text. */
  function ParseAssignment(line: string, field: string): (r: Option<(Assignment, string)>)
    ensures r.Some? ==> WellFormedAssignment(r.value.0)
    ensures r.Some? ==> line == RenderAssignment(field, r.value.0) + r.value.1
  {
    var (indent, s1) := SplitRun(line, Space);
    if !StartsWith(s1, TypeName) then None else
    match FieldPart(s1[|TypeName|..], field)
    case None => None
    case Some((afterType, beforeEq, afterEq, value, rest)) =>
      var a := Assignment(indent, afterType, beforeEq, afterEq, value);
      PrefixThenRest(s1, TypeName);
      RenderThen(field, a, rest, s1[|TypeName|..]);
      Some((a, rest))
  }

  /** The match of `^\s*string\s*FIELD\s*=\s*"([^"]+)"` at the start of
      `line`, the first element `regexp.findall(line)` returns. Each greedy
      run stops where the next literal has to start, so the first attempt is
      the only one that can succeed. */
  function MatchAssignment(line: string, field: string): Option<Assignment> {
    match ParseAssignment(line, field)
    case None => None
    case Some((a, _)) => Some(a)
  }

  /** A match is well formed, and its rendering is a prefix of the line. */
  lemma AssignmentSound(line: string, field: string)
    ensures MatchAssignment(line, field).Some? ==>
              && WellFormedAssignment(MatchAssignment(line, field).value)
              && StartsWith(line, RenderAssignment(field, MatchAssignment(line, field).value))
  {
    if ParseAssignment(line, field).Some? {
      var (a, rest) := ParseAssignment(line, field).value;
      PrefixOfAppend(RenderAssignment(field, a), rest);
    }
  }

  lemma PrefixOfAppend(p: string, q: string)
    ensures StartsWith(p + q, p)
  {
    assert (p + q)[..|p|] == p;
  }

  /** Appending to a rendering appends to its last piece. */
  lemma RenderThen(field: string, a: Assignment, rest: string, t: string)
    requires t == a.afterType + (field + (a.beforeEq + ("=" + (a.afterEq + ("\"" + (a.value + ("\"" + rest)))))))
    ensures RenderAssignment(field, a) + rest == a.indent + (TypeName + t)
  {
  }

  lemma QuotedPartOf(gap: string, value: string, rest: string)
    requires AllIn(gap, Space) && |value| > 0 && AllIn(value, NotQuote)
    ensures QuotedPart(gap + ("\"" + (value + ("\"" + rest)))) == Some((gap, value, rest))
  {
    SplitRunOf(gap, "\"" + (value + ("\"" + rest)), Space);
    SplitRunOf(value, "\"" + rest, NotQuote);
  }

  lemma EqualsPartOf(gap: string, afterEq: string, value: string, rest: string)
    requires AllIn(gap, Space) && AllIn(afterEq, Space) && |value| > 0 && AllIn(value, NotQuote)
    ensures EqualsPart(gap + ("=" + (afterEq + ("\"" + (value + ("\"" + rest))))))
            == Some((gap, afterEq, value, rest))
  {
    var t := afterEq + ("\"" + (value + ("\"" + rest)));
    SplitRunOf(gap, "=" + t, Space);
    assert ("=" + t)[1..] == t;
    QuotedPartOf(afterEq, value, rest);
  }

  lemma FieldPartOf(gap: string, field: string, beforeEq: string, afterEq: string, value: string, rest: string)
    requires IsFieldName(field)
    requires AllIn(gap, Space) && AllIn(beforeEq, Space) && AllIn(afterEq, Space)
    requires |value| > 0 && AllIn(value, NotQuote)
    ensures FieldPart(gap + (field + (beforeEq + ("=" + (afterEq + ("\"" + (value + ("\"" + rest))))))), field)
            == Some((gap, beforeEq, afterEq, value, rest))
  {
    var t := beforeEq + ("=" + (afterEq + ("\"" + (value + ("\"" + rest)))));
    assert (field + t)[0] == field[0];
    SplitRunOf(gap, field + t, Space);
    assert (field + t)[..|field|] == field;
    assert (field + t)[|field|..] == t;
    EqualsPartOf(beforeEq, afterEq, value, rest);
  }

  /** Matching the rendering of a well-formed assignment, followed by
      anything, gives the assignment back. */
  lemma AssignmentThenMatch(field: string, a: Assignment, rest: string)
    requires IsFieldName(field)
    requires WellFormedAssignment(a)
    ensures MatchAssignment(RenderAssignment(field, a) + rest, field) == Some(a)
  {
    var t := a.afterType + (field + (a.beforeEq + ("=" + (a.afterEq + ("\"" + (a.value + ("\"" + rest)))))));
    RenderThen(field, a, rest, t);
    ParseAssignmentOf(field, a, rest, t);
  }

  lemma ParseAssignmentOf(field: string, a: Assignment, rest: string, t: string)
    requires IsFieldName(field)
    requires WellFormedAssignment(a)
    requires t == a.afterType + (field + (a.beforeEq + ("=" + (a.afterEq + ("\"" + (a.value + ("\"" + rest)))))))
    ensures ParseAssignment(a.indent + (TypeName + t), field) == Some((a, rest))
  {
    SplitRunOf(a.indent, TypeName + t, Space);
    assert (TypeName + t)[..|TypeName|] == TypeName;
    assert (TypeName + t)[|TypeName|..] == t;
    FieldPartOf(a.afterType, field, a.beforeEq, a.afterEq, a.value, rest);
  }

  /** A line matches a field's pattern with a given assignment exactly when
      the assignment is well formed and its rendering starts the line: the
      match is unique, whatever follows it. */
  lemma MatchAssignmentIff(line: string, field: string, a: Assignment)
    requires IsFieldName(field)
    ensures MatchAssignment(line, field) == Some(a)
            <==> WellFormedAssignment(a) && StartsWith(line, RenderAssignment(field, a))
  {
    AssignmentSound(line, field);
    if WellFormedAssignment(a) && StartsWith(line, RenderAssignment(field, a)) {
      var p := RenderAssignment(field, a);
      PrefixThenRest(line, p);
      AssignmentThenMatch(field, a, line[|p|..]);
    }
  }

  /** No line assigns two of the three fields: the field name sits at the
      same position for every pattern, and the names start with different
      letters. */
  lemma FieldsExclusive(line: string, f1: string, f2: string)
    requires IsFieldName(f1) && IsFieldName(f2)
    requires MatchAssignment(line, f1).Some? && MatchAssignment(line, f2).Some?
    ensures f1 == f2
  {
    var s2 := FieldText(line);
    FieldAt(line, f1);
    FieldAt(line, f2);
    assert s2[0] == s2[..|f1|][0] == f1[0];
    assert s2[0] == s2[..|f2|][0] == f2[0];
  }

  /** The text where every window pattern expects its field name. */
  function FieldText(line: string): string {
    var s1 := SplitRun(line, Space).1;
    if |s1| < |TypeName| then [] else SplitRun(s1[|TypeName|..], Space).1
  }

  lemma FieldAt(line: string, field: string)
    requires MatchAssignment(line, field).Some?
    ensures StartsWith(FieldText(line), field)
  {
    assert ParseAssignment(line, field).Some?;
  }

  /** The metadata key each field feeds. */
  function KeyOf(field: string): string {
    if field == "Category" then "category"
    else if field == "SubCategory" then "subcategory"
    else "name"
  }

  predicate IsWindowKey(key: string) {
    key == "category" || key == "subcategory" || key == "name"
  }

  /** One window line through the three parsers in order; the first that
      matches stores its value and stops the others. A line that matches a
      field sets that field's key to the captured value and nothing else;
      any other line changes nothing. */
  function ApplyLine(md: Metadata, line: string): (r: Metadata)
    ensures MatchAssignment(line, "Category").Some? ==>
              r == md["category" := Str(MatchAssignment(line, "Category").value.value)]
    ensures MatchAssignment(line, "SubCategory").Some? ==>
              r == md["subcategory" := Str(MatchAssignment(line, "SubCategory").value.value)]
    ensures MatchAssignment(line, "Description").Some? ==>
              r == md["name" := Str(MatchAssignment(line, "Description").value.value)]
    ensures NoField(line) ==> r == md
  {
    AtMostOneField(line);
    if MatchAssignment(line, "Category").Some? then
      md["category" := Str(MatchAssignment(line, "Category").value.value)]
    else if MatchAssignment(line, "SubCategory").Some? then
      md["subcategory" := Str(MatchAssignment(line, "SubCategory").value.value)]
    else if MatchAssignment(line, "Description").Some? then
      md["name" := Str(MatchAssignment(line, "Description").value.value)]
    else md
  }

  /** No window pattern matches the line. */
  predicate NoField(line: string) {
    && MatchAssignment(line, "Category").None?
    && MatchAssignment(line, "SubCategory").None?
    && MatchAssignment(line, "Description").None?
  }

  lemma AtMostOneField(line: string)
    ensures MatchAssignment(line, "SubCategory").Some? ==> MatchAssignment(line, "Category").None?
    ensures MatchAssignment(line, "Description").Some? ==>
              MatchAssignment(line, "Category").None? && MatchAssignment(line, "SubCategory").None?
  {
    if MatchAssignment(line, "SubCategory").Some? && MatchAssignment(line, "Category").Some? {
      FieldsExclusive(line, "SubCategory", "Category");
    }
    if MatchAssignment(line, "Description").Some? && MatchAssignment(line, "Category").Some? {
      FieldsExclusive(line, "Description", "Category");
    }
    if MatchAssignment(line, "Description").Some? && MatchAssignment(line, "SubCategory").Some? {
      FieldsExclusive(line, "Description", "SubCategory");
    }
  }

  /** What `ApplyLine` does to the key of one field. */
  lemma ApplyLineKey(md: Metadata, line: string, field: string)
    requires IsFieldName(field)
    ensures var r := ApplyLine(md, line);
            var key := KeyOf(field);
            match MatchAssignment(line, field)
            case Some(a) => key in r && r[key] == Str(a.value)
            case None => (key in r <==> key in md) && (key in md ==> r[key] == md[key])
  {
    AtMostOneField(line);
  }

  /** The window lines through `ApplyLine`, first to last. Keys outside the
      three window keys are left alone. */
  function ApplyWindow(md: Metadata, window: seq<string>): (r: Metadata)
    ensures forall k :: !IsWindowKey(k) ==> (k in r <==> k in md) && (k in md ==> r[k] == md[k])
    ensures forall k :: k in md ==> k in r
    ensures forall k :: k in r ==> k in md || IsWindowKey(k)
    decreases |window|
  {
    if |window| == 0 then md
    else ApplyLine(ApplyWindow(md, window[..|window| - 1]), window[|window| - 1])
  }

  /** The value of the last window line that assigns `field`. */
  function LastValue(window: seq<string>, field: string): Option<string>
    decreases |window|
  {
    if |window| == 0 then None
    else match MatchAssignment(window[|window| - 1], field)
      case Some(a) => Some(a.value)
      case None => LastValue(window[..|window| - 1], field)
  }

  /** The last assignment wins: after the window, a field's key holds the
      value of the last line that assigns the field, and is untouched when
      no line does. */
  lemma {:induction false} ApplyWindowLastWins(md: Metadata, window: seq<string>, field: string)
    requires IsFieldName(field)
    ensures var r := ApplyWindow(md, window);
            match LastValue(window, field)
            case Some(v) => KeyOf(field) in r && r[KeyOf(field)] == Str(v)
            case None => (KeyOf(field) in r <==> KeyOf(field) in md)
                         && (KeyOf(field) in md ==> r[KeyOf(field)] == md[KeyOf(field)])
    decreases |window|
  {
    if |window| > 0 {
      ApplyWindowLastWins(md, window[..|window| - 1], field);
      ApplyLineKey(ApplyWindow(md, window[..|window| - 1]), window[|window| - 1], field);
    }
  }
}
