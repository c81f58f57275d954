/** `extract_metadata`: the record of one effect file, built in the order
    the source builds it. The file name gives `name` and `filename`; the
    `_LwksEffectInfo` window may set `category`, `subcategory` and `name`;
    the line comments give `description`; and the tag loop over every line
    adds or overwrites the registry attributes, or fails on the first line
    whose handler raises. */
module MetaParser {
  import opened Records
  import opened Text
  import Comments
  import LwksInfo
  import Description
  import Tags

  /** What `extract_metadata` takes from the file system: the path, its
      base name, the base name without its extension, and the file's lines
      as `readlines` returns them. */
  datatype Source = Source(path: string, filename: string, stem: string, lines: seq<string>)

  /** `ParserException`: the file and the line whose handler raised. */
  datatype ParserException = ParserException(path: string, line: string)

  /** The record before any line is read. */
  function InitialRecord(src: Source): Metadata {
    map["name" := Str(src.stem), "filename" := Str(src.filename)]
  }

  /** The record after the `_LwksEffectInfo` window. */
  function WindowRecord(src: Source): Metadata {
    LwksInfo.ApplyWindow(InitialRecord(src), LwksInfo.Window(src.lines))
  }

  /** The description built from the file's line comments. */
  function DescriptionOf(src: Source): Option<string> {
    Description.BuildDescription(Comments.ExtractComments(src.lines))
  }

  /** The record after the window and the description, before the tag
      loop. */
  function BeforeTags(src: Source): Metadata {
    match DescriptionOf(src)
    case Some(d) => WindowRecord(src)["description" := Str(d)]
    case None => WindowRecord(src)
  }

  /** `extract_metadata`. A failure names the file and one of its lines; a
      record always keeps the file name and a string `name`, and holds no
      key beyond the fixed ones and the registry's. */
  function ExtractMetadata(src: Source, parseDate: Tags.DateParser): (r: Result<Metadata, ParserException>)
    ensures r.Failure? ==> r.error.path == src.path && r.error.line in src.lines
    ensures r.Success? ==> "filename" in r.value && r.value["filename"] == Str(src.filename)
    ensures r.Success? ==> "name" in r.value
    ensures r.Success? ==> forall k :: k in r.value ==> IsFixedKey(k) || k in Tags.SupportedAttrs
  {
    BeforeTagsKeys(src);
    TagLoopKeys(BeforeTags(src), src.lines, parseDate);
    match Tags.ParseLines(BeforeTags(src), src.lines, parseDate)
    case Success(md) => Success(md)
    case Failure(line) => Failure(ParserException(src.path, line))
  }

  /** From a record of fixed keys, the tag loop adds only registry
      attributes. */
  lemma TagLoopKeys(md: Metadata, lines: seq<string>, parseDate: Tags.DateParser)
    requires forall k :: k in md ==> IsFixedKey(k)
    ensures var r := Tags.ParseLines(md, lines, parseDate);
            r.Success? ==> forall k :: k in r.value ==> IsFixedKey(k) || k in Tags.SupportedAttrs
  {
  }

  /** The keys `extract_metadata` sets outside the tag registry. */
  predicate IsFixedKey(k: string) {
    k == "name" || k == "filename" || k == "category" || k == "subcategory" || k == "description"
  }

  /** After the window the record holds only `name`, `filename`,
      `category` and `subcategory`, and always the first two. */
  lemma WindowRecordKeys(src: Source)
    ensures forall k :: k in WindowRecord(src) ==> IsFixedKey(k) && k != "description"
    ensures "name" in WindowRecord(src)
    ensures "filename" in WindowRecord(src) && WindowRecord(src)["filename"] == Str(src.filename)
  {
    var md0 := InitialRecord(src);
    var r := WindowRecord(src);
    assert "name" in md0 && "filename" in md0;
    assert !LwksInfo.IsWindowKey("filename");
    forall k | k in r
      ensures IsFixedKey(k) && k != "description"
    {
      assert k in md0 || LwksInfo.IsWindowKey(k);
    }
  }

  /** Before the tag loop the record holds only fixed keys, and always
      `name` and `filename`. */
  lemma BeforeTagsKeys(src: Source)
    ensures forall k :: k in BeforeTags(src) ==> IsFixedKey(k)
    ensures "name" in BeforeTags(src)
    ensures "filename" in BeforeTags(src) && BeforeTags(src)["filename"] == Str(src.filename)
  {
    WindowRecordKeys(src);
  }

  lemma BeforeTagsWellTyped(src: Source)
    ensures Tags.ListsWellTyped(BeforeTags(src))
  {
    var md := BeforeTags(src);
    BeforeTagsKeys(src);
    forall k | k in md
      ensures k in Tags.SupportedAttrs ==> k == "name"
    {
      if k != "name" {
        FixedKeysOutsideRegistry(k);
      }
    }
    assert Tags.SupportedAttrs["name"].cardinality == Tags.One;
  }

  /** Extraction fails exactly when some line carries a date tag the date
      parser rejects, and the exception names the first such line. */
  lemma ExtractFails(src: Source, parseDate: Tags.DateParser)
    ensures ExtractMetadata(src, parseDate).Failure? <==>
              Tags.FirstBadDate(src.lines, parseDate) < |src.lines|
    ensures ExtractMetadata(src, parseDate).Failure? ==>
              ExtractMetadata(src, parseDate).error
              == ParserException(src.path, src.lines[Tags.FirstBadDate(src.lines, parseDate)])
  {
    BeforeTagsWellTyped(src);
    Tags.ParseLinesFails(BeforeTags(src), src.lines, parseDate);
  }

  /** Of the fixed keys only `name` is also a registry attribute: apart
      from `name`, no fixed key is in the registry and no registry
      attribute is a fixed key. */
  lemma FixedKeysOutsideRegistry(k: string)
    ensures IsFixedKey(k) && k in Tags.SupportedAttrs ==> k == "name"
  {
  }

  /** The tag loop leaves a key outside the registry as it was before it. */
  lemma TagsKeepKey(src: Source, parseDate: Tags.DateParser, k: string)
    requires ExtractMetadata(src, parseDate).Success?
    requires k !in Tags.SupportedAttrs
    ensures var r := ExtractMetadata(src, parseDate).value;
            && (k in r <==> k in BeforeTags(src))
            && (k in r ==> r[k] == BeforeTags(src)[k])
  {
    var md := BeforeTags(src);
    assert ExtractMetadata(src, parseDate).value == Tags.ParseLines(md, src.lines, parseDate).value;
  }

  /** Adding the description leaves every other key as the window left it. */
  lemma BeforeTagsKeepsWindow(src: Source, k: string)
    requires k != "description"
    ensures k in BeforeTags(src) <==> k in WindowRecord(src)
    ensures k in WindowRecord(src) ==> BeforeTags(src)[k] == WindowRecord(src)[k]
  {
  }

  /** `category` and `subcategory` come from the last window line that
      assigns them, and are absent when no window line does. */
  lemma WindowFields(src: Source, parseDate: Tags.DateParser, field: string)
    requires field == "Category" || field == "SubCategory"
    requires ExtractMetadata(src, parseDate).Success?
    ensures var r := ExtractMetadata(src, parseDate).value;
            var key := LwksInfo.KeyOf(field);
            match LwksInfo.LastValue(LwksInfo.Window(src.lines), field)
            case Some(v) => key in r && r[key] == Str(v)
            case None => key !in r
  {
    var key := LwksInfo.KeyOf(field);
    assert key == "category" || key == "subcategory";
    FixedKeysOutsideRegistry(key);
    TagsKeepKey(src, parseDate, key);
    BeforeTagsKeepsWindow(src, key);
    LwksInfo.ApplyWindowLastWins(InitialRecord(src), LwksInfo.Window(src.lines), field);
  }

  /** `name` is the value of the last `@name` tag; without one, the last
      `Description` assignment of the window; without either, the file name
      without its extension. */
  lemma NamePriority(src: Source, parseDate: Tags.DateParser)
    requires ExtractMetadata(src, parseDate).Success?
    ensures var r := ExtractMetadata(src, parseDate).value;
            var tagged := Tags.TagValues(src.lines, "name");
            && "name" in r
            && r["name"]
               == if tagged != [] then Str(tagged[|tagged| - 1])
                  else match LwksInfo.LastValue(LwksInfo.Window(src.lines), "Description")
                    case Some(v) => Str(v)
                    case None => Str(src.stem)
  {
    ExtractIsTagLoop(src, parseDate);
    BeforeTagsKeepsWindow(src, "name");
    NameAfterWindow(src);
    NameAfterTags(BeforeTags(src), src.lines, parseDate);
  }

  /** After the window, `name` is the last `Description` assignment, or the
      file name without its extension. */
  lemma NameAfterWindow(src: Source)
    ensures "name" in WindowRecord(src)
    ensures WindowRecord(src)["name"]
            == match LwksInfo.LastValue(LwksInfo.Window(src.lines), "Description")
               case Some(v) => Str(v)
               case None => Str(src.stem)
  {
    assert LwksInfo.KeyOf("Description") == "name";
    LwksInfo.ApplyWindowLastWins(InitialRecord(src), LwksInfo.Window(src.lines), "Description");
  }

  /** The tag loop leaves `name` at its last tag's value, or as it was. */
  lemma NameAfterTags(md: Metadata, lines: seq<string>, parseDate: Tags.DateParser)
    requires "name" in md
    requires Tags.ParseLines(md, lines, parseDate).Success?
    ensures var r := Tags.ParseLines(md, lines, parseDate).value;
            var tagged := Tags.TagValues(lines, "name");
            && "name" in r
            && r["name"] == if tagged != [] then Str(tagged[|tagged| - 1]) else md["name"]
  {
    assert Tags.SupportedAttrs["name"] == Tags.Handler(Tags.One, Tags.StringValue);
    Tags.ParseLinesOverwrites(md, lines, "name", parseDate);
  }

  /** The description is the surviving line-comment bodies joined with
      newlines, or nothing when that text is empty. */
  lemma DescriptionOfIs(src: Source)
    ensures var d := Join("\n", Description.FilterLines(Comments.LineCommentBodies(Join("", src.lines))));
            DescriptionOf(src) == if d == "" then None else Some(d)
  {
    var comments := Comments.ExtractComments(src.lines);
    assert forall i :: 0 <= i < |comments| ==> NoNewline(comments[i]);
  }

  /** `description` is present exactly when some line comment survives the
      banner filter, and then it is the surviving comment bodies joined with
      newlines. */
  lemma DescriptionFromComments(src: Source, parseDate: Tags.DateParser)
    requires ExtractMetadata(src, parseDate).Success?
    ensures var r := ExtractMetadata(src, parseDate).value;
            var d := Join("\n", Description.FilterLines(Comments.LineCommentBodies(Join("", src.lines))));
            && ("description" in r <==> d != "")
            && ("description" in r ==> r["description"] == Str(d))
  {
    FixedKeysOutsideRegistry("description");
    TagsKeepKey(src, parseDate, "description");
    WindowRecordKeys(src);
    DescriptionOfIs(src);
  }

  /** A record extraction returns is the tag loop's result on the record
      built before it. */
  lemma ExtractIsTagLoop(src: Source, parseDate: Tags.DateParser)
    requires ExtractMetadata(src, parseDate).Success?
    ensures Tags.ParseLines(BeforeTags(src), src.lines, parseDate).Success?
    ensures ExtractMetadata(src, parseDate).value == Tags.ParseLines(BeforeTags(src), src.lines, parseDate).value
  {
  }

  /** An append attribute holds the values of its tags in line order and
      is present exactly when there is at least one. */
  lemma AppendAttrs(src: Source, parseDate: Tags.DateParser, attr: string)
    requires attr in Tags.SupportedAttrs && Tags.SupportedAttrs[attr].cardinality == Tags.Multiple
    requires ExtractMetadata(src, parseDate).Success?
    ensures var r := ExtractMetadata(src, parseDate).value;
            && (attr in r <==> Tags.TagValues(src.lines, attr) != [])
            && (attr in r ==> r[attr] == List(Tags.TagValues(src.lines, attr)))
  {
    ExtractIsTagLoop(src, parseDate);
    FixedKeysOutsideRegistry(attr);
    BeforeTagsKeys(src);
    Tags.AppendsFromAbsent(BeforeTags(src), src.lines, attr, parseDate);
  }

  /** An overwrite attribute other than `name` holds the converted value of
      its last tag and is absent when it has none. */
  lemma OverwriteAttrs(src: Source, parseDate: Tags.DateParser, attr: string)
    requires attr in Tags.SupportedAttrs && Tags.SupportedAttrs[attr].cardinality == Tags.One
    requires attr != "name"
    requires ExtractMetadata(src, parseDate).Success?
    ensures var r := ExtractMetadata(src, parseDate).value;
            var vs := Tags.TagValues(src.lines, attr);
            && (attr in r <==> vs != [])
            && (attr in r ==>
                  && r[attr].Str?
                  && Tags.Normalize(Tags.SupportedAttrs[attr].kind, vs[|vs| - 1], parseDate) == Some(r[attr].text))
  {
    ExtractIsTagLoop(src, parseDate);
    FixedKeysOutsideRegistry(attr);
    BeforeTagsKeys(src);
    Tags.ParseLinesOverwrites(BeforeTags(src), src.lines, attr, parseDate);
  }

  /** The record `extract_metadata` starts from survives: both of its keys
      are still there, `filename` unchanged, and `name` keeps the stem when
      neither the window nor a tag sets it. */
  lemma InitialRecordSurvives(src: Source, parseDate: Tags.DateParser)
    requires ExtractMetadata(src, parseDate).Success?
    ensures var r := ExtractMetadata(src, parseDate).value;
            && (forall k :: k in InitialRecord(src) ==> k in r)
            && r["filename"] == InitialRecord(src)["filename"]
    ensures var r := ExtractMetadata(src, parseDate).value;
            Tags.TagValues(src.lines, "name") == []
            && LwksInfo.LastValue(LwksInfo.Window(src.lines), "Description").None?
            ==> r["name"] == InitialRecord(src)["name"]
  {
    NamePriority(src, parseDate);
  }

  /** Before the tag loop the record has a `description` exactly when the
      comments give a non-empty description, and then it holds it. */
  lemma BeforeTagsDescription(src: Source)
    ensures "description" in BeforeTags(src) <==> DescriptionOf(src).Some?
    ensures DescriptionOf(src).Some? ==> BeforeTags(src)["description"] == Str(DescriptionOf(src).value)
  {
    WindowRecordKeys(src);
  }
}
