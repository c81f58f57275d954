/** The comment scanner of metaparser.py: the five-state character machine
    `CommentsExtractorMachine` and the capture rule of `extract_comments`.

    The automaton library that drives the machine is not part of this model;
    its behaviour is stated here as an explicit assumption:
    - a step looks the (state, character) pair up in the transition table and,
      when no entry matches, takes the state's fallback;
    - the `when(state, f)` callback runs `f(c)` for every input character `c`
      whose post-transition state is `state`;
    - the `change` callback runs with `(new, previous)` whenever a step leaves
      the state it started in, `previous` being the state just before. */
module Comments {
  import opened Records
  import opened Text

  datatype State =
    | NoComment
    | MaybeComment
    | SingleLineComment
    | MultiLineComment
    | MaybeEndMultiLineComment

  /** The machine's declared transitions, in declaration order. */
  const Transitions: seq<(State, char, State)> := [
    (NoComment, '/', MaybeComment),
    (MaybeComment, '*', MultiLineComment),
    (MaybeComment, '/', SingleLineComment),
    (MultiLineComment, '*', MaybeEndMultiLineComment),
    (MaybeEndMultiLineComment, '/', NoComment),
    (SingleLineComment, '\n', NoComment)
  ]

  /** The machine's declared fallbacks: where a state goes on any character
      without a transition entry. */
  const Fallbacks: seq<(State, State)> := [
    (NoComment, NoComment),
    (MaybeComment, NoComment),
    (MaybeEndMultiLineComment, NoComment),
    (MultiLineComment, MultiLineComment),
    (SingleLineComment, SingleLineComment)
  ]

  function LookupTransition(table: seq<(State, char, State)>, s: State, c: char): Option<State> {
    if |table| == 0 then None
    else if table[0].0 == s && table[0].1 == c then Some(table[0].2)
    else LookupTransition(table[1..], s, c)
  }

  function LookupFallback(table: seq<(State, State)>, s: State): Option<State> {
    if |table| == 0 then None
    else if table[0].0 == s then Some(table[0].1)
    else LookupFallback(table[1..], s)
  }

  /** One step as the table-driven machine takes it. */
  function TableStep(s: State, c: char): Option<State> {
    match LookupTransition(Transitions, s, c)
    case Some(t) => Some(t)
    case None => LookupFallback(Fallbacks, s)
  }

  /** The transition function, written out per state. */
  function Step(s: State, c: char): (r: State)
    ensures s == NoComment ==> (r != NoComment <==> c == '/')
    ensures s == SingleLineComment ==> (r != SingleLineComment <==> c == '\n')
    ensures s == MultiLineComment ==> (r != MultiLineComment <==> c == '*')
    ensures s == MaybeEndMultiLineComment ==> r == NoComment
    ensures r == NoComment ==> s != MultiLineComment
  {
    match s
    case NoComment => if c == '/' then MaybeComment else NoComment
    case MaybeComment =>
      if c == '*' then MultiLineComment
      else if c == '/' then SingleLineComment
      else NoComment
    case MultiLineComment => if c == '*' then MaybeEndMultiLineComment else MultiLineComment
    case MaybeEndMultiLineComment => NoComment
    case SingleLineComment => if c == '\n' then NoComment else SingleLineComment
  }

  lemma {:induction false} LookupTransitionFinds(table: seq<(State, char, State)>, s: State, c: char)
    ensures LookupTransition(table, s, c).Some?
            <==> exists i :: 0 <= i < |table| && table[i].0 == s && table[i].1 == c
    ensures forall i :: 0 <= i < |table| && table[i].0 == s && table[i].1 == c ==>
              (|| LookupTransition(table, s, c) == Some(table[i].2)
               || exists j :: 0 <= j < i && table[j].0 == s && table[j].1 == c)
    decreases |table|
  {
    if |table| > 0 {
      LookupTransitionFinds(table[1..], s, c);
      forall i | 1 <= i < |table| && table[i].0 == s && table[i].1 == c
        ensures || LookupTransition(table, s, c) == Some(table[i].2)
                || exists j :: 0 <= j < i && table[j].0 == s && table[j].1 == c
      {
        assert table[1..][i - 1] == table[i];
        if exists j :: 0 <= j < i - 1 && table[1..][j].0 == s && table[1..][j].1 == c {
          var j :| 0 <= j < i - 1 && table[1..][j].0 == s && table[1..][j].1 == c;
          assert table[j + 1] == table[1..][j];
        }
      }
      if exists i :: 0 <= i < |table| && table[i].0 == s && table[i].1 == c {
        var i :| 0 <= i < |table| && table[i].0 == s && table[i].1 == c;
        if i > 0 {
          assert table[1..][i - 1] == table[i];
        }
      }
    }
  }

  /** The written-out step function is total and agrees with the declared
      table and fallbacks on every state and character. */
  lemma StepFollowsTable(s: State, c: char)
    ensures TableStep(s, c) == Some(Step(s, c))
  {
    LookupTransitionFinds(Transitions, s, c);
    assert Fallbacks[1..][1..][1..][1..][1..] == [];
  }

  /** The scanner's state between two characters: the machine state, the
      capture buffer `new_comment` and the list `comments_found`. */
  datatype Scanner = Scanner(state: State, buffer: string, found: seq<string>)

  const Initial := Scanner(NoComment, [], [])

  predicate Captures(s: State) {
    s == SingleLineComment || s == MultiLineComment
  }

  /** The `store_new_comment` handler, run with the post-step scanner and
      the state before the step. Python's `[1:-1]` on a one-character buffer
      is the empty string. */
  function OnChange(sc: Scanner, previous: State): Scanner {
    if sc.state == NoComment && sc.buffer != [] then
      var b := sc.buffer;
      var found :=
        if previous == SingleLineComment then sc.found + [b[1..]]
        else if previous == MultiLineComment then
          sc.found + [if |b| >= 2 then b[1..|b| - 1] else []]
        else sc.found;
      Scanner(sc.state, [], found)
    else sc
  }

  /** Processing one character: step, buffer callbacks, change callback. */
  function Feed(sc: Scanner, c: char): (r: Scanner)
    ensures r.found == sc.found
            || (&& sc.state == SingleLineComment
                && r.state == NoComment
                && sc.buffer != []
                && r.found == sc.found + [sc.buffer[1..]])
    ensures r.state == NoComment && sc.state != NoComment ==> r.buffer == []
    ensures r.state != NoComment ==> r.found == sc.found
  {
    var next := Step(sc.state, c);
    var buffer := if Captures(next) then sc.buffer + [c] else sc.buffer;
    var stepped := Scanner(next, buffer, sc.found);
    if next != sc.state then OnChange(stepped, sc.state) else stepped
  }

  /** `process_many`: feed the characters left to right. */
  function Run(sc: Scanner, t: string): Scanner
    decreases |t|
  {
    if |t| == 0 then sc else Run(Feed(sc, t[0]), t[1..])
  }

  /** An independent statement of what the scanner records. Each `//`
      comment closed by a newline contributes the text between the `//` and
      the newline, in order. After `/*` the machine goes back to no-comment
      one character past the first `*` (a `*/` or any other `*x`), and such
      a block contributes nothing. A `/` followed by another character just
      consumes both. A comment open at the end contributes nothing. */
  function LineCommentBodies(t: string): seq<string>
    decreases |t|
  {
    if |t| < 2 then []
    else if t[0] != '/' then LineCommentBodies(t[1..])
    else
      var rest := t[2..];
      if t[1] == '/' then
        var k := IndexOf(rest, '\n');
        if k == |rest| then [] else [rest[..k]] + LineCommentBodies(rest[k + 1..])
      else if t[1] == '*' then
        var k := IndexOf(rest, '*');
        if k + 1 >= |rest| then [] else LineCommentBodies(rest[k + 2..])
      else LineCommentBodies(rest)
  }

  lemma {:induction false} RunFromNoComment(t: string, found: seq<string>)
    ensures Run(Scanner(NoComment, [], found), t).found == found + LineCommentBodies(t)
    decreases |t|, 0
  {
    var sc := Scanner(NoComment, [], found);
    if |t| == 0 {
    } else if t[0] != '/' {
      assert Feed(sc, t[0]) == sc;
      RunFromNoComment(t[1..], found);
      if |t| < 2 {
        assert t[1..] == [];
      }
    } else {
      var sc1 := Scanner(MaybeComment, [], found);
      assert Feed(sc, t[0]) == sc1;
      if |t| == 1 {
        assert Run(sc, t) == Run(sc1, []);
      } else {
        var rest := t[2..];
        assert t[1..][1..] == rest;
        assert Run(sc, t) == Run(Feed(sc1, t[1]), rest);
        if t[1] == '/' {
          assert Feed(sc1, t[1]) == Scanner(SingleLineComment, "/", found);
          RunInLineComment("/", rest, found);
          var k := IndexOf(rest, '\n');
          if k < |rest| {
            assert "/"[1..] + rest[..k] == rest[..k];
          }
        } else if t[1] == '*' {
          assert Feed(sc1, t[1]) == Scanner(MultiLineComment, "*", found);
          RunInBlockComment("*", rest, found);
        } else {
          assert Feed(sc1, t[1]) == sc;
          RunFromNoComment(rest, found);
        }
      }
    }
  }

  lemma {:induction false} RunInLineComment(b: string, t: string, found: seq<string>)
    requires b != []
    ensures Run(Scanner(SingleLineComment, b, found), t).found
            == (var k := IndexOf(t, '\n');
                if k == |t| then found
                else found + [b[1..] + t[..k]] + LineCommentBodies(t[k + 1..]))
    decreases |t|, 1
  {
    var sc := Scanner(SingleLineComment, b, found);
    if |t| == 0 {
    } else if t[0] == '\n' {
      assert Feed(sc, t[0]) == Scanner(NoComment, [], found + [b[1..]]);
      RunFromNoComment(t[1..], found + [b[1..]]);
      assert t[..0] == [];
      assert b[1..] + t[..0] == b[1..];
    } else {
      var b' := b + [t[0]];
      assert Feed(sc, t[0]) == Scanner(SingleLineComment, b', found);
      RunInLineComment(b', t[1..], found);
      var k' := IndexOf(t[1..], '\n');
      assert IndexOf(t, '\n') == k' + 1;
      if k' < |t[1..]| {
        assert b'[1..] + t[1..][..k'] == b[1..] + t[..k' + 1];
        assert t[1..][k' + 1..] == t[k' + 2..];
      }
    }
  }

  lemma {:induction false} RunInBlockComment(b: string, t: string, found: seq<string>)
    ensures Run(Scanner(MultiLineComment, b, found), t).found
            == (var k := IndexOf(t, '*');
                if k + 1 >= |t| then found else found + LineCommentBodies(t[k + 2..]))
    decreases |t|, 1
  {
    var sc := Scanner(MultiLineComment, b, found);
    if |t| == 0 {
    } else if t[0] == '*' {
      var sc1 := Scanner(MaybeEndMultiLineComment, b, found);
      assert Feed(sc, t[0]) == sc1;
      if |t| == 1 {
        assert Run(sc, t) == Run(sc1, []);
      } else {
        assert t[1..][1..] == t[2..];
        assert Run(sc, t) == Run(Feed(sc1, t[1]), t[2..]);
        assert Feed(sc1, t[1]) == Scanner(NoComment, [], found);
        RunFromNoComment(t[2..], found);
      }
    } else {
      assert Feed(sc, t[0]) == Scanner(MultiLineComment, b + [t[0]], found);
      RunInBlockComment(b + [t[0]], t[1..], found);
      var k' := IndexOf(t[1..], '*');
      assert IndexOf(t, '*') == k' + 1;
      if k' + 1 < |t[1..]| {
        assert t[1..][k' + 2..] == t[k' + 3..];
      }
    }
  }

  /** Text without a `/` never leaves no-comment and records nothing. */
  lemma {:induction false} NoSlashNoComment(t: string, found: seq<string>)
    requires forall i :: 0 <= i < |t| ==> t[i] != '/'
    ensures Run(Scanner(NoComment, [], found), t) == Scanner(NoComment, [], found)
    decreases |t|
  {
    if |t| > 0 {
      assert Feed(Scanner(NoComment, [], found), t[0]) == Scanner(NoComment, [], found);
      NoSlashNoComment(t[1..], found);
    }
  }

  /** The reference records nothing for text without a `/`. */
  lemma {:induction false} NoSlashNoLineComments(t: string)
    ensures (forall i :: 0 <= i < |t| ==> t[i] != '/') ==> LineCommentBodies(t) == []
    decreases |t|
  {
    if |t| >= 2 && t[0] != '/' {
      NoSlashNoLineComments(t[1..]);
      assert (forall i :: 0 <= i < |t| ==> t[i] != '/') ==> (forall i :: 0 <= i < |t[1..]| ==> t[1..][i] != '/');
    }
  }

  /** Every recorded comment is newline-free. */
  lemma {:induction false} LineCommentBodiesNewlineFree(t: string)
    ensures forall i :: 0 <= i < |LineCommentBodies(t)| ==> NoNewline(LineCommentBodies(t)[i])
    decreases |t|
  {
    if |t| < 2 {
    } else if t[0] != '/' {
      LineCommentBodiesNewlineFree(t[1..]);
    } else {
      var rest := t[2..];
      if t[1] == '/' {
        var k := IndexOf(rest, '\n');
        if k < |rest| {
          LineCommentBodiesNewlineFree(rest[k + 1..]);
          assert NoNewline(rest[..k]);
        }
      } else if t[1] == '*' {
        var k := IndexOf(rest, '*');
        if k + 1 < |rest| {
          LineCommentBodiesNewlineFree(rest[k + 2..]);
        }
      } else {
        LineCommentBodiesNewlineFree(rest);
      }
    }
  }

  /** `extract_comments`: run the machine over the concatenated lines and
      return the recorded comments. */
  function ExtractComments(lines: seq<string>): (r: seq<string>)
    ensures r == LineCommentBodies(Join("", lines))
    ensures forall i :: 0 <= i < |r| ==> NoNewline(r[i])
    ensures (forall i :: 0 <= i < |Join("", lines)| ==> Join("", lines)[i] != '/') ==> r == []
  {
    var content := Join("", lines);
    RunFromNoComment(content, []);
    LineCommentBodiesNewlineFree(content);
    NoSlashNoLineComments(content);
    Run(Initial, content).found
  }

  /** The change handler records at most one comment and never alters the
      ones already found. A recorded comment is the buffer without its first
      character (a line comment) or without its first and last characters (a
      block comment, empty for a one-character buffer); recording empties the
      buffer. A change into `no-comment` with a non-empty buffer out of
      either comment state always records. */
  lemma OnChangeRecordsOne(sc: Scanner, previous: State)
    ensures var r := OnChange(sc, previous);
            && r.state == sc.state
            && |sc.found| <= |r.found| <= |sc.found| + 1
            && r.found[..|sc.found|] == sc.found
            && (|r.found| > |sc.found| ==>
                  && r.buffer == []
                  && (previous == SingleLineComment || previous == MultiLineComment)
                  && (previous == SingleLineComment ==> r.found[|sc.found|] == sc.buffer[1..])
                  && (previous == MultiLineComment ==>
                        r.found[|sc.found|] == if |sc.buffer| >= 2 then sc.buffer[1..|sc.buffer| - 1] else []))
    ensures sc.state == NoComment && sc.buffer != [] && previous == SingleLineComment ==>
              OnChange(sc, previous).found == sc.found + [sc.buffer[1..]]
    ensures sc.state == NoComment && sc.buffer != [] && previous == MultiLineComment ==>
              OnChange(sc, previous).found
              == sc.found + [if |sc.buffer| >= 2 then sc.buffer[1..|sc.buffer| - 1] else []]
  {
    var r := OnChange(sc, previous);
    assert r.found[..|sc.found|] == sc.found;
  }

  /** Scanning two pieces of text one after the other is scanning their
      concatenation: the machine keeps no state outside the scanner. */
  lemma {:induction false} RunAppend(sc: Scanner, a: string, b: string)
    ensures Run(sc, a + b) == Run(Run(sc, a), b)
    decreases |a|
  {
    if |a| == 0 {
      assert a + b == b;
    } else {
      assert (a + b)[0] == a[0];
      assert (a + b)[1..] == a[1..] + b;
      RunAppend(Feed(sc, a[0]), a[1..], b);
    }
  }
}
