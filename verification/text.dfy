/** Character classes and string helpers with the meaning Python gives them:
    the regular-expression classes `\s`, `[^\s]`, `[a-zA-Z0-9]` and `[^"]`,
    `str.startswith`/`str.endswith`, the `in` substring check, `sep.join` and
    `str.split('\n')`. */
module Text {

  /** The characters Python's `re` matches with `\s` in a str pattern, which
      are the characters `str.isspace()` accepts. */
  predicate IsSpace(c: char) {
    || ('\t' <= c && c <= '\r')
    || ('\U{1C}' <= c && c <= '\U{1F}')
    || c == ' '
    || c == '\U{85}'
    || c == '\U{A0}'
    || c == '\U{1680}'
    || ('\U{2000}' <= c && c <= '\U{200A}')
    || c == '\U{2028}'
    || c == '\U{2029}'
    || c == '\U{202F}'
    || c == '\U{205F}'
    || c == '\U{3000}'
  }

  predicate IsAsciiAlnum(c: char) {
    ('a' <= c && c <= 'z') || ('A' <= c && c <= 'Z') || ('0' <= c && c <= '9')
  }

  /** The character classes the extractor's patterns repeat greedily. */
  datatype CharClass = Space | NonSpace | Alnum | NotQuote

  predicate InClass(c: char, cls: CharClass) {
    match cls
    case Space => IsSpace(c)
    case NonSpace => !IsSpace(c)
    case Alnum => IsAsciiAlnum(c)
    case NotQuote => c != '"'
  }

  predicate AllIn(s: string, cls: CharClass) {
    forall k :: 0 <= k < |s| ==> InClass(s[k], cls)
  }

  /** End of the longest run of `cls` characters that starts at `i`: where a
      greedy `[...]*` stops. */
  function RunEnd(s: string, i: nat, cls: CharClass): (j: nat)
    requires i <= |s|
    ensures i <= j <= |s|
    ensures forall k :: i <= k < j ==> InClass(s[k], cls)
    ensures j == |s| || !InClass(s[j], cls)
    decreases |s| - i
  {
    if i == |s| || !InClass(s[i], cls) then i else RunEnd(s, i + 1, cls)
  }

  /** Reading `p` off the suffix of `s` at `i` leaves `q`. */
  lemma Advance(s: string, i: nat, p: string, q: string)
    requires i <= |s| && s[i..] == p + q
    ensures i + |p| <= |s|
    ensures s[i..i + |p|] == p
    ensures s[i + |p|..] == q
  {
    assert |s[i..]| == |p| + |q|;
    assert s[i..i + |p|] == s[i..][..|p|];
    assert s[i + |p|..] == s[i..][|p|..];
  }

  /** A greedy run of `cls` at `i` consumes exactly `p` when `p` is in the
      class and what follows it is not. */
  lemma RunStops(s: string, i: nat, p: string, q: string, cls: CharClass)
    requires i <= |s| && s[i..] == p + q
    requires AllIn(p, cls)
    requires q == [] || !InClass(q[0], cls)
    ensures RunEnd(s, i, cls) == i + |p|
    ensures s[i..i + |p|] == p && s[i + |p|..] == q
  {
    Advance(s, i, p, q);
    var j := i + |p|;
    if j < |s| {
      assert s[j] == s[j..][0];
    }
  }

  /** Two texts that agree from `x` and `y` on agree from any later
      position on: `k` in `s` corresponds to `k'` in `t`. */
  lemma SuffixAgrees(t: string, y: nat, s: string, x: nat, k: nat, k': nat)
    requires y <= |t| && x <= |s| && t[y..] == s[x..]
    requires x <= k <= |s| && k' == y + (k - x)
    ensures k' <= |t| && t[k'..] == s[k..]
  {
    assert |t[y..]| == |s[x..]|;
    assert t[k'..] == t[y..][k - x..];
    assert s[k..] == s[x..][k - x..];
  }

  /** The same for a single character. */
  lemma CharAgrees(t: string, y: nat, s: string, x: nat, k: nat, k': nat)
    requires y <= |t| && x <= |s| && t[y..] == s[x..]
    requires x <= k < |s| && k' == y + (k - x)
    ensures k' < |t| && t[k'] == s[k]
  {
    assert |t[y..]| == |s[x..]|;
    assert t[k'] == t[y..][k - x];
  }

  /** The same for the end of the text. */
  lemma EndAgrees(t: string, y: nat, s: string, x: nat, k: nat, k': nat)
    requires y <= |t| && x <= |s| && t[y..] == s[x..]
    requires x <= k <= |s| && k' == y + (k - x)
    ensures k' <= |t| && (k' == |t| <==> k == |s|)
  {
    assert |t[y..]| == |s[x..]|;
  }

  /** The same for a slice: `k..l` in `s` is `k'..l'` in `t`. */
  lemma SliceAgrees(t: string, y: nat, s: string, x: nat, k: nat, l: nat, k': nat, l': nat)
    requires y <= |t| && x <= |s| && t[y..] == s[x..]
    requires x <= k <= l <= |s| && k' == y + (k - x) && l' == y + (l - x)
    ensures k' <= l' <= |t| && t[k'..l'] == s[k..l]
  {
    assert |t[y..]| == |s[x..]|;
    assert t[k'..l'] == t[y..][k - x..l - x];
    assert s[k..l] == s[x..][k - x..l - x];
  }

  /** A greedy run reads nothing before its start: in two texts that agree
      from `x` and `y` on, the runs from there have the same length. */
  lemma {:induction false} RunEndSuffix(t: string, y: nat, s: string, x: nat, cls: CharClass)
    requires y <= |t| && x <= |s| && t[y..] == s[x..]
    ensures RunEnd(t, y, cls) + x == RunEnd(s, x, cls) + y
    decreases |s| - x
  {
    if x < |s| {
      CharAgrees(t, y, s, x, x, y);
      if InClass(s[x], cls) {
        SuffixAgrees(t, y, s, x, x + 1, y + 1);
        RunEndSuffix(t, y + 1, s, x + 1, cls);
      }
    } else {
      assert |t[y..]| == 0;
    }
  }

  /** `RunEndSuffix` at a later position `k` (`k'` in `t`) of two texts that
      agree from `x` and `y` on. */
  lemma RunEndAgrees(t: string, y: nat, s: string, x: nat, k: nat, k': nat, cls: CharClass)
    requires y <= |t| && x <= |s| && t[y..] == s[x..]
    requires x <= k <= |s| && k' == y + (k - x)
    ensures k' <= |t| && RunEnd(t, k', cls) + k == RunEnd(s, k, cls) + k'
  {
    SuffixAgrees(t, y, s, x, k, k');
    RunEndSuffix(t, k', s, k, cls);
  }

  /** A slice is its two halves around any point inside it. */
  lemma SliceSplit(s: string, x: nat, y: nat, z: nat)
    requires x <= y <= z <= |s|
    ensures s[x..z] == s[x..y] + s[y..z]
  {
  }

  /** Every character of a slice is in `cls` when every position it covers is. */
  lemma SliceAllIn(s: string, i: nat, j: nat, cls: CharClass)
    requires i <= j <= |s|
    requires forall k :: i <= k < j ==> InClass(s[k], cls)
    ensures AllIn(s[i..j], cls)
  {
    forall k | 0 <= k < j - i ensures InClass(s[i..j][k], cls) {
      assert s[i..j][k] == s[i + k];
    }
  }

  /** `s` holds `lit` at position `i`. */
  predicate HasAt(s: string, i: nat, lit: string) {
    i + |lit| <= |s| && s[i..i + |lit|] == lit
  }

  predicate StartsWith(s: string, prefix: string) {
    |prefix| <= |s| && s[..|prefix|] == prefix
  }

  predicate EndsWith(s: string, suffix: string) {
    |suffix| <= |s| && s[|s| - |suffix|..] == suffix
  }

  /** A string that starts with `p` is `p` followed by the rest. */
  lemma PrefixThenRest(s: string, p: string)
    requires StartsWith(s, p)
    ensures s == p + s[|p|..]
  {
    assert s == s[..|p|] + s[|p|..];
  }

  /** Python's `needle in s` for strings. */
  predicate Contains(s: string, needle: string) {
    exists i :: 0 <= i <= |s| && HasAt(s, i, needle)
  }

  /** Index of the first `c` in `s`, or `|s|` when there is none. */
  function IndexOf(s: string, c: char): (k: nat)
    ensures k <= |s|
    ensures k < |s| ==> s[k] == c
    ensures forall j :: 0 <= j < k ==> s[j] != c
  {
    if |s| == 0 then 0
    else if s[0] == c then 0
    else 1 + IndexOf(s[1..], c)
  }

  function LowerChar(c: char): char {
    if 'A' <= c && c <= 'Z' then (c as int + 32) as char else c
  }

  /** `str.lower()` restricted to what it does on ASCII letters; the
      identifiers it is applied to are `[a-zA-Z0-9]+`. */
  function Lower(s: string): string {
    seq(|s|, i requires 0 <= i < |s| => LowerChar(s[i]))
  }

  /** `Lower` leaves no upper-case ASCII letter. */
  lemma LowerHasNoUpper(s: string)
    ensures forall k :: 0 <= k < |Lower(s)| ==> !('A' <= Lower(s)[k] <= 'Z')
  {
  }

  /** Python's `sep.join(parts)`. */
  function Join(sep: string, parts: seq<string>): string {
    if |parts| == 0 then ""
    else if |parts| == 1 then parts[0]
    else parts[0] + sep + Join(sep, parts[1..])
  }

  predicate NoNewline(s: string) {
    '\n' !in s
  }

  /** Python's `s.split('\n')`: always at least one piece, none holding a
      newline. */
  function Split(s: string): (r: seq<string>)
    ensures |r| >= 1
    ensures forall i :: 0 <= i < |r| ==> NoNewline(r[i])
    decreases |s|
  {
    var k := IndexOf(s, '\n');
    if k == |s| then [s] else [s[..k]] + Split(s[k + 1..])
  }

  /** Joining a part in front of at least one more. */
  lemma JoinCons(sep: string, x: string, tail: seq<string>)
    requires |tail| >= 1
    ensures Join(sep, [x] + tail) == x + sep + Join(sep, tail)
  {
    assert ([x] + tail)[1..] == tail;
  }

  /** A text is the part before a newline, the newline and the part after it. */
  lemma CutAround(s: string, k: nat)
    requires k < |s| && s[k] == '\n'
    ensures s == s[..k] + "\n" + s[k + 1..]
  {
    assert s[..k + 1] == s[..k] + "\n";
    assert s == s[..k + 1] + s[k + 1..];
  }

  /** Joining the pieces of a split with the separator gives back the text. */
  lemma {:induction false} JoinSplit(s: string)
    ensures Join("\n", Split(s)) == s
    decreases |s|
  {
    var k := IndexOf(s, '\n');
    if k < |s| {
      var tail := Split(s[k + 1..]);
      JoinSplit(s[k + 1..]);
      assert Split(s) == [s[..k]] + tail;
      JoinCons("\n", s[..k], tail);
      CutAround(s, k);
    }
  }

  /** Splitting a newline-joined list of newline-free pieces gives back the
      pieces. */
  lemma {:induction false} SplitJoin(parts: seq<string>)
    requires |parts| >= 1
    requires forall i :: 0 <= i < |parts| ==> NoNewline(parts[i])
    ensures Split(Join("\n", parts)) == parts
    decreases |parts|
  {
    var p := parts[0];
    assert NoNewline(p);
    if |parts| == 1 {
      assert IndexOf(p, '\n') == |p|;
    } else {
      var tail := Join("\n", parts[1..]);
      var s := p + "\n" + tail;
      assert Join("\n", parts) == s;
      var k := IndexOf(s, '\n');
      assert s[|p|] == '\n';
      assert forall j :: 0 <= j < |p| ==> s[j] == p[j];
      assert k == |p|;
      assert s[..k] == p;
      assert s[k + 1..] == tail;
      SplitJoin(parts[1..]);
      assert parts == [p] + parts[1..];
    }
  }
}
