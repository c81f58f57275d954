# Effect metadata extraction, modelled in Dafny

This project models the metadata extractor of the Lightworks effects bundle
(`metaparser.py`). The extractor reads one `.fx` effect source file and builds
a metadata record for it. It works in four stages, in this order:

1. **Comment scanner** (`Comments`). A five-state character automaton
   (`no-comment`, `maybe-comment`, `singleline-comment`, `multiline-comment`,
   `maybe-end-multiline-comment`) runs over the concatenated lines. The
   automaton is declared as a transition table plus fallbacks. A capture
   buffer and an on-change handler turn the run into a list of comment
   strings.
2. **`_LwksEffectInfo` window** (`LwksInfo`). The extractor takes the block
   of lines that starts at the first line mentioning `_LwksEffectInfo`. The
   block ends at the first line that starts with `>` followed by anything but
   `;`. Three start-anchored patterns, `string Category = "…"`,
   `string SubCategory = "…"` and `string Description = "…"`, fill
   `category`, `subcategory` and `name`.
3. **Description** (`Description`). The comments are joined with newlines.
   Banner lines are dropped: lines that start with `---` and end with `-//`
   or `---`. A non-empty result becomes `description`.
4. **`@tag: value` lines** (`Tags`). Every line of the file is searched for
   the leftmost `@ident : value` match. The value is either a quoted string
   or a non-whitespace run. The identifier is lower-cased and looked up in
   a fixed registry:
   - overwrite (`one`) handlers: `author`, `name`, `license`,
     `releasedate`, `creationdate`;
   - append (`multiple`) handlers: `maintainer`, `video`, `picture`.

   A handler that raises aborts the whole file with a `ParserException`.

`MetaParser.ExtractMetadata` composes the four stages. It takes the file's
lines and its file name (and stem), and returns the record or the exception.

## How the model is built

- `Records`: `Option`, `Result`, `Val = Str | List`, and
  `Metadata = map<string, Val>`.
- `Text`: Python's `\s` class, greedy character runs (`RunEnd`), `join`,
  `split('\n')` and the round trips between them.
- Every regular expression is a hand-written matcher that follows the
  pattern's own greedy structure. There is no general regex engine.
  - The tag pattern `TagAt` is tied to an independent description
    (`MatchedAt`, `Render`). Both directions are proved: `TagAtSound` and
    `RenderThenMatch`.
  - The window patterns are staged parsers that return what remains of the
    line. They are tied to `RenderAssignment` in both directions:
    `AssignmentSound` and `AssignmentThenMatch`.
- The scanner is a fold of `Feed` over the characters. It is proved equal to
  an independent reference, `LineCommentBodies`, which recognises `//`
  comments directly.
- The window extractor is written as the source's loop,
  `ExtractLwksInfoLines`. It is proved equal to a declarative window,
  `Window`, and `Window` is characterised by `IsWindowAt`.
- The tag loop over all lines is `Tags.ParseLines`. It is characterised per
  attribute:
  - overwrite attributes keep their last tag's value;
  - append attributes hold their tags' values in line order, duplicates
    kept;
  - every other key is left alone.
  Its failure condition is characterised exactly: the first tag line
  carrying an unparsable date.

### Assumptions about code outside the model

- **The `dsm` state machine library.** Its source is not part of this
  model. The model reads it as follows:
  - a `when(state, f)` callback runs `f` on every input character whose
    post-transition state is `state`;
  - the `change` event fires only when the state differs, and passes the
    new state and the state immediately before;
  - the next state is the first matching transition entry, or else the
    state's fallback.

  Under this reading, `multiline-comment` never steps directly to
  `no-comment`. The multi-line branch of `store_new_comment` is therefore
  unreachable, and block comments are cleared without being recorded. Only
  `//` comments reach the description.
- **Date conversion.** `dateutil.parser.parse(v).isoformat()` is a
  parameter `parseDate: string -> Option<string>`, where `None` stands for
  "raises".
- **Python's `[1:-1]`** on a one-character buffer is the empty string. The
  model writes this out.
- **Raising handlers.** An append handler that finds a plain string where it
  expects a list raises, like a bad date does. `MetaParser` proves this
  cannot happen from `extract_metadata`'s own starting record
  (`BeforeTagsWellTyped`).

### Behaviour of the code worth knowing

- `author` is single-valued: it is registered with `one` (metaparser.py:53).
- The registry holds exactly eight attributes (metaparser.py:52-61).
- Every matching window line overwrites its field, so the last matching line
  wins (metaparser.py:95, metaparser.py:189-192).
- The description is joined and filtered but not whitespace-trimmed
  (metaparser.py:200-204).
- Tag lines stay in the description. The tag clause of
  `is_not_comment_line` can only keep a line, never drop one
  (metaparser.py:194-197).
- Block comments never reach the description, under the `dsm` reading above
  (metaparser.py:107-108, metaparser.py:114, metaparser.py:130-131).

## Model

| member | source | states |
|---|---|---|
| Comments.Step | metaparser.py:103-117 | The step function is total. `/` is the only character that leaves `no-comment`, `\n` the only one that leaves `singleline-comment`, and `*` the only one that leaves `multiline-comment`. `maybe-end-multiline-comment` always returns to `no-comment`, and `multiline-comment` never steps directly into `no-comment`. |
| Comments.StepFollowsTable | metaparser.py:100-117 | The per-state step function agrees, for every state and character, with the declared table: the first matching transition, else the fallback. |
| Comments.LookupTransitionFinds | metaparser.py:103-110 | The transition lookup succeeds exactly when some entry matches the state and character, and it returns the first such entry's target. |
| Comments.Feed | metaparser.py:126-138 | Feeding one character records at most one comment. That happens only when a single-line comment closes into `no-comment` with a non-empty buffer, and the recorded text is the buffer minus its first character. Re-entering `no-comment` clears the buffer, and no comment is recorded while outside `no-comment`. |
| Comments.OnChangeRecordsOne | metaparser.py:126-132 | `store_new_comment` records at most one comment per change and never alters earlier ones. A recorded line comment is the buffer without its first character. A recorded block comment is the buffer without its first and last characters, empty for a one-character buffer. Recording empties the buffer. Conversely, a change into `no-comment` with a non-empty buffer out of either comment state always records that text. The block-comment branch is unreachable under the `dsm` reading: `Feed` passes the state before the step as `previous`, and `Comments.Step` never goes from `multiline-comment` to `no-comment`. |
| Comments.RunAppend | metaparser.py:134-138 | `process_many` over two pieces of text in a row is the same as over their concatenation. |
| Comments.RunFromNoComment | metaparser.py:120-140 | Scanning from `no-comment` with an empty buffer appends exactly the reference list `LineCommentBodies` of the text to the comments found so far, in source order. |
| Comments.RunInLineComment | metaparser.py:126-129 | Inside a `//` comment, the comment is recorded at the next newline as the buffer without its leading `/` plus the text up to the newline. A comment still open at end of input is never recorded. |
| Comments.RunInBlockComment | metaparser.py:105-117 | Inside a block comment, nothing is recorded up to the first `*` and the character after it. Scanning then resumes from `no-comment`, so block comments never yield a comment. |
| Comments.NoSlashNoComment | metaparser.py:104-112 | Text with no `/` never leaves `no-comment` and leaves the scanner unchanged. |
| Comments.NoSlashNoLineComments | metaparser.py:104-112 | Text with no `/` yields no comments. |
| Comments.LineCommentBodiesNewlineFree | metaparser.py:109-129 | No recorded comment contains a newline. |
| Comments.ExtractComments | metaparser.py:120-140 | `extract_comments` returns the `//` comment bodies of the concatenated lines, none holding a newline, and none at all when the text has no `/`. |
| Text.JoinSplit | metaparser.py:180-201 | Splitting on `\n` and joining with `\n` gives back the original text. |
| Text.SplitJoin | metaparser.py:180-201 | Joining newline-free pieces with `\n` and splitting on `\n` gives back the pieces. |
| Description.IsNotCommentLine | metaparser.py:194-197 | The three-clause filter predicate keeps a line exactly when it is not a banner: it does not start with `---` and end with `-//` or `---`. |
| Description.BannerStartsWithDash | metaparser.py:195-197 | A banner starts with `-`, so the `//…//` clause and the tag clause (a tag matched at position 0 starts with `@`) can never keep one. |
| Description.FilterLines | metaparser.py:200-201 | The filtered lines are exactly the input lines that are not banners, and there are no more of them than before. |
| Description.FilterLinesOne | metaparser.py:194-201 | One line survives the filter exactly when it is not a banner. |
| Description.FilterLinesAppend | metaparser.py:200-201 | Filtering a concatenation filters each part, so kept lines stay in order and duplicates are kept. With `FilterLinesOne` this fixes the filter on every list. |
| Description.BuildDescription | metaparser.py:178-204 | A description is never the empty string and holds no banner line. For newline-free comments it is the non-banner comments joined with `\n`, and it is absent exactly when that text is empty. |
| Description.KeptLinesSplitBack | metaparser.py:200-201 | Splitting the joined description gives back exactly the kept lines. |
| Description.CommentLinesSplitBack | metaparser.py:180-201 | Filtering the split of the joined comments is the same as filtering the comments themselves. The one exception is an empty comment list, whose join splits into one empty line. |
| LwksInfo.FirstMarkerFrom | metaparser.py:148-150 | The index is of the first line from the start point that holds `_LwksEffectInfo`; no earlier line there holds it. |
| LwksInfo.FirstMarker | metaparser.py:148-150 | The index is of the first line holding `_LwksEffectInfo`, or the line count when there is none. |
| LwksInfo.BlockEnd | metaparser.py:146-155 | The index is of the first line from the start point that starts with `>` followed by a non-`;` character, or the last line when there is none. |
| LwksInfo.Window | metaparser.py:143-157 | The window is empty exactly when no line holds the marker. Otherwise it is the contiguous slice that starts at the first marker line and ends, inclusive, at the first closing line, or at the last line. |
| LwksInfo.ExtractLwksInfoLines | metaparser.py:143-157 | The loop as written returns exactly the declarative window. |
| LwksInfo.SplitRun | metaparser.py:18-20 | A greedy `\s*` splits a string into a run of the class and a rest that does not start with the class. |
| LwksInfo.ParseAssignment | metaparser.py:18-20 | A match of `^\s*string\s*<Field>\s*=\s*"([^"]+)"` is well formed and renders back to a prefix of the line. |
| LwksInfo.AssignmentSound | metaparser.py:18-20 | The captured value is non-empty and quote-free, and the match's rendering starts the line. |
| LwksInfo.AssignmentThenMatch | metaparser.py:18-20 | Any well-formed assignment line, followed by anything, matches the field's pattern and captures exactly that assignment. |
| LwksInfo.MatchAssignmentIff | metaparser.py:93-95 | `regexp.findall(line)[0]` for a field's pattern is a given assignment exactly when that assignment is well formed and its rendering starts the line. The match is therefore unique. |
| LwksInfo.FieldsExclusive | metaparser.py:18-20 | No line matches the patterns of two different fields. |
| LwksInfo.AtMostOneField | metaparser.py:184-192 | Because the fields are exclusive, the first-matching-parser-wins loop never has two candidates. |
| LwksInfo.ApplyLine | metaparser.py:91-97 | A window line that matches a field sets that field's key to the captured value and changes nothing else. Any other line leaves the record unchanged. |
| LwksInfo.ApplyLineKey | metaparser.py:91-97 | For each field, one line either sets its key to the captured value or leaves the key as it was. |
| LwksInfo.ApplyWindow | metaparser.py:189-192 | Folding the window over the record never removes a key, and it touches only `category`, `subcategory` and `name`. |
| LwksInfo.ApplyWindowLastWins | metaparser.py:183-192 | After the window, each field's key holds the value of the last window line that matches that field, or is unchanged when no line does. |
| Tags.TagAt | metaparser.py:17 | A tag match at a position starts with `@` there. |
| Tags.TagAtSound | metaparser.py:17 | A match found by the hand-written matcher is a well-formed `@ident\s*:\s*value` occurrence at that position, and an unquoted value ends at whitespace or end of line. |
| Tags.RenderThenMatch | metaparser.py:17 | Every well-formed tag text, followed by a suitable rest, is matched back to exactly that tag: quoted values lose their quotes, bare values are the maximal non-whitespace run. |
| Tags.TagAtSuffix | metaparser.py:17 | The pattern tried at a position reads nothing before it: two lines that agree from positions `i` and `j` onwards give the same match (or none) at those positions. |
| Tags.TagAtShift | metaparser.py:17 | Matching at `|p|` in `p + s` gives the same result as matching at the start of `s`. |
| Tags.RenderThenMatchAt | metaparser.py:17 | A well-formed tag text placed anywhere in a line, followed by a suitable rest, is matched back exactly at its position. |
| Tags.EmptyQuotesFallThrough | metaparser.py:17 | In `@a: ""x` the quoted alternative needs at least one character between the quotes, so the non-whitespace alternative takes the whole run, both quotes included. |
| Tags.UnterminatedQuoteKeepsQuote | metaparser.py:17 | A value with an unterminated quote falls through to the non-whitespace alternative and keeps its leading `"`. |
| Tags.FindTagFrom | metaparser.py:77-80 | The result is the leftmost position where the tag pattern matches; no earlier position matches. |
| Tags.LineTagAt | metaparser.py:78-81 | The tag of a line is taken from the leftmost position where the pattern matches, with its identifier lower-cased. `strip()` has nothing to remove from an identifier of `[a-zA-Z0-9]+`. |
| Tags.LineTagNone | metaparser.py:78-79 | A line has no tag exactly when the pattern matches at no position. |
| Tags.Apply | metaparser.py:39-49 | `one` replaces the value with the converted one; `multiple` appends the converted value to the prior list, creating it if absent. Only that attribute changes. The handler raises exactly when conversion fails, or when an append finds a plain string. |
| Tags.AppendAttrsAreNotDates | metaparser.py:52-61 | No append attribute is a date attribute, so appends of a well-typed record never raise. |
| Tags.ParseLine | metaparser.py:77-88 | A line with no tag, or whose lower-cased identifier is not in the registry, leaves the record unchanged. Otherwise only registry keys are added or changed. |
| Tags.ParseLineFails | metaparser.py:77-88 | On a record whose append attributes hold lists, a line fails exactly when its tag is a known date attribute whose value does not parse; success keeps the lists well typed. |
| Tags.ParseLines | metaparser.py:206-214 | The tag loop keeps every key, adds only registry keys, never changes a non-registry key, and a failure names one of the lines. |
| Tags.FirstBadDate | metaparser.py:206-214 | The index is of the first line carrying an unparsable date tag, or the line count. |
| Tags.ParseLinesFails | metaparser.py:206-214 | The loop fails exactly when some line carries an unparsable date tag, and it reports the first such line. |
| Tags.ParseLinesAppend | metaparser.py:206-214 | Running the loop over two blocks of lines is running it over the first block and then over the second, and an early failure stops everything. |
| Tags.ParseLineAppends | metaparser.py:45-49 | One line appends its tag's value to an append attribute, or leaves it as it was. |
| Tags.ParseLinesAppends | metaparser.py:45-61 | An append attribute ends as its prior list followed by every value tagged for it, in line order with duplicates kept. It is present exactly when it was before or some line tags it. |
| Tags.AppendsFromAbsent | metaparser.py:45-49 | An append attribute absent before the loop ends up holding exactly its tagged values, and is present only when there is one. |
| Tags.AppendsCompose | metaparser.py:45-49 | Two append steps in a row append both blocks of values in order. |
| Tags.ParseLineOverwrites | metaparser.py:39-42 | One line sets an overwrite attribute to the converted value of its tag for it, or leaves the attribute as it was. |
| Tags.OverwritesCompose | metaparser.py:39-42 | Two overwrite steps in a row leave the last value of both blocks. |
| Tags.ParseLinesOverwrites | metaparser.py:39-42 | An overwrite attribute ends as the converted value of its last tag, or unchanged when no line tags it. |
| MetaParser.ExtractMetadata | metaparser.py:164-216 | A failure is a `ParserException` that names the path and one of the file's lines. A success keeps `filename`, always has `name`, and holds no keys beyond `name`, `filename`, `category`, `subcategory`, `description` and the registry's. |
| MetaParser.InitialRecordSurvives | metaparser.py:165-170 | Both keys of the starting record survive extraction, and `filename` is unchanged. `name` keeps the file stem when neither the window nor a tag sets it. |
| MetaParser.WindowRecordKeys | metaparser.py:167-192 | After the window, the record holds `name` and the original `filename`, and otherwise only `category` and `subcategory`. |
| MetaParser.BeforeTagsKeys | metaparser.py:167-204 | Before the tag loop, the record holds only fixed keys, including `name` and the original `filename`. |
| MetaParser.BeforeTagsWellTyped | metaparser.py:167-204 | Before the tag loop, no append attribute holds a plain string, so append handlers never raise. |
| MetaParser.ExtractFails | metaparser.py:206-214 | Extraction fails exactly when some line carries an unparsable date tag. The exception names the path and the first such line. |
| MetaParser.FixedKeysOutsideRegistry | metaparser.py:52-61 | A key that is both fixed and a registry attribute is `name`: apart from `name`, no fixed key is a registry attribute, so tags cannot touch them, and no registry attribute is a fixed key. |
| MetaParser.TagsKeepKey | metaparser.py:206-214 | The tag loop leaves every non-registry key exactly as the window and description stages left it. |
| MetaParser.BeforeTagsKeepsWindow | metaparser.py:199-204 | Adding the description changes no key other than `description`. |
| MetaParser.BeforeTagsDescription | metaparser.py:203-204 | Before the tag loop the record has a `description` exactly when the comments give a non-empty description, and then it holds that text. |
| MetaParser.WindowFields | metaparser.py:182-192 | `category` and `subcategory` hold the value of the last window line that sets them, and are absent when no window line does. |
| MetaParser.NamePriority | metaparser.py:167-210 | `name` is the last `@name` tag's value. Without one, it is the last window `Description` value; without that, it is the file name stem. |
| MetaParser.NameAfterWindow | metaparser.py:167-192 | After the window, `name` is the last `Description` value, or the stem. |
| MetaParser.NameAfterTags | metaparser.py:206-210 | The tag loop sets `name` to the last `@name` tag's value, or leaves it as it was. |
| MetaParser.DescriptionOfIs | metaparser.py:178-204 | The description is the non-banner `//` comment bodies of the file joined with `\n`, and is absent exactly when that text is empty. |
| MetaParser.DescriptionFromComments | metaparser.py:178-204 | The record has a `description` exactly when the filtered comment text is non-empty, and then holds that text. |
| MetaParser.AppendAttrs | metaparser.py:45-61 | `maintainer`, `video` and `picture` are present exactly when tagged, and hold every tagged value in line order with duplicates kept. |
| MetaParser.OverwriteAttrs | metaparser.py:39-61 | `author`, `license`, `releasedate` and `creationdate` are present exactly when tagged, and hold the converted value of the last tag. |

## Left out

- Reading files with the latin1/utf-8 fallback (`readlines`) is I/O. The model takes the decoded lines as input, each keeping its trailing newline.
- `find_files` and `main` are left out: directory traversal, argument parsing, JSON output and the timestamp are I/O and command-line glue.
- `eprint` of an unknown attribute is left out. Writing to stderr is I/O, and the model treats an unknown tag as a no-op.
- `dateutil.parser.parse` is a foreign library. It is the `parseDate` parameter, and its failure becomes the `ParserException`.
- `string_attr` and `url_attr` (metaparser.py:27-28 and 35-36) return their argument unchanged. `Tags.Normalize` only dispatches to them and to `parseDate`, so it has no row of its own; `Tags.Apply` states how its result is used.
- The `dsm` library's internals are not part of this model. They are replaced by the explicit step function and the callback reading stated above.
- `os.path.basename` and `os.path.splitext` are left out. The file name and its stem are inputs (`Source.filename`, `Source.stem`).
- The text of the `ParserException` message is left out. It is formatting; the exception carries the path and the offending line.
- Text.Lower: models `str.lower()` on ASCII letters only. That is exact for the identifiers it is applied to, which match `[a-zA-Z0-9]+`.
