/**
 * The thumbnail catalogue of one directory as text: the lines `thumbcat`
 * writes, the headings `extract_entries_from_thumbcat` reads back, and the
 * test that decides whether an existing catalogue is still up to date.
 */
module Thumbcat {
  import opened Wrappers
  import opened Paths
  import opened Collection

  /** The position of the first occurrence of `c` in `s`. */
  function IndexOf(s: string, c: char): (r: Option<nat>)
    ensures r.Some? ==> r.value < |s| && s[r.value] == c && c !in s[..r.value]
    ensures r.None? ==> c !in s
  {
    if |s| == 0 then None
    else if s[0] == c then Some(0)
    else match IndexOf(s[1..], c)
      case None => None
      case Some(i) => Some(i + 1)
  }

  /** A carriage return right before the line feed is dropped with it. */
  function StripCR(line: string): string
  {
    if |line| > 0 && line[|line| - 1] == '\r' then line[..|line| - 1] else line
  }

  /**
   * `BufRead::lines`: the text split at each '\n', without the line feed or a
   * CR-LF pair; a final line without a line feed is kept as it is, and a
   * final line feed does not start an empty line.
   */
  function Lines(text: string): seq<string>
    decreases |text|
  {
    if text == [] then []
    else match IndexOf(text, '\n')
      case None => [text]
      case Some(i) => [StripCR(text[..i])] + Lines(text[i + 1..])
  }

  /** `writeln!` of each line in turn. */
  function Unlines(lines: seq<string>): string
  {
    if lines == [] then "" else lines[0] + "\n" + Unlines(lines[1..])
  }

  /** A line `Lines` gives back unchanged: no line feed in it, no carriage return at its end. */
  predicate PlainLine(line: string)
  {
    '\n' !in line && (|line| == 0 || line[|line| - 1] != '\r')
  }

  /** Reading back what `writeln!` wrote gives the same lines, as long as those are plain. */
  lemma {:induction false} LinesOfUnlines(lines: seq<string>)
    requires AllPlain(lines)
    ensures Lines(Unlines(lines)) == lines
    decreases |lines|
  {
    if lines != [] {
      var l := lines[0];
      var rest := Unlines(lines[1..]);
      var text := l + "\n" + rest;
      assert text[|l|] == '\n';
      assert text[..|l|] == l;
      assert IndexOf(text, '\n') == Some(|l|) by {
        FirstLineFeed(l, rest);
      }
      assert text[|l| + 1..] == rest;
      LinesOfUnlines(lines[1..]);
    }
  }

  lemma {:induction false} FirstLineFeed(l: string, rest: string)
    requires '\n' !in l
    ensures IndexOf(l + "\n" + rest, '\n') == Some(|l|)
    decreases |l|
  {
    var text := l + "\n" + rest;
    if l != [] {
      assert text[0] == l[0];
      assert text[1..] == l[1..] + "\n" + rest;
      FirstLineFeed(l[1..], rest);
    }
  }

  // ---------------------------------------------------------------------
  // Headings

  /** The heading line written for a photo. */
  function Heading(name: string): string
  {
    "<h1>" + name + "</h1>"
  }

  /**
   * A match of `^<h1>(.+)</h1>$` and its capture: the whole line is `<h1>`,
   * at least one character other than a line feed, and `</h1>`.
   */
  function HeadingText(line: string): Option<string>
  {
    if |line| >= 10 && line[..4] == "<h1>" && line[|line| - 5..] == "</h1>" && '\n' !in line[4..|line| - 5]
    then Some(line[4..|line| - 5])
    else None
  }

  /** A line is a heading with text `x` exactly when it is the heading written for a non-empty, single-line `x`. */
  lemma HeadingTextIff(line: string, x: string)
    ensures HeadingText(line) == Some(x) <==> line == Heading(x) && x != [] && '\n' !in x
  {
    if line == Heading(x) && x != [] && '\n' !in x {
      assert line[..4] == "<h1>";
      assert line[4..|line| - 5] == x;
      assert line[|line| - 5..] == "</h1>";
    }
    if HeadingText(line) == Some(x) {
      assert line == line[..4] + line[4..|line| - 5] + line[|line| - 5..];
    }
  }

  /** The captures of all heading lines, in order; other lines are ignored. */
  function Headings(lines: seq<string>): seq<string>
  {
    if lines == [] then []
    else
      var last := lines[|lines| - 1];
      Headings(lines[..|lines| - 1]) + (match HeadingText(last) case Some(x) => [x] case None => [])
  }

  lemma {:induction false} HeadingsAppend(a: seq<string>, b: seq<string>)
    ensures Headings(a + b) == Headings(a) + Headings(b)
    decreases |b|
  {
    if b == [] {
      assert a + b == a;
    } else {
      var front := b[..|b| - 1];
      assert (a + b)[..|a + b| - 1] == a + front;
      HeadingsAppend(a, front);
    }
  }

  /**
   * `extract_entries_from_thumbcat`: read the catalogue line by line and
   * collect the capture of every heading line. An error opening the file is
   * passed on.
   */
  method ExtractEntriesFromThumbcat(file: Result<string>) returns (r: Result<seq<string>>)
    ensures file.Err? ==> r == Err(file.error)
    ensures file.Ok? ==> r == Ok(Headings(Lines(file.value)))
  {
    if file.Err? {
      return Err(file.error);
    }
    var lines := Lines(file.value);
    var entries := [];
    for i := 0 to |lines|
      invariant entries == Headings(lines[..i])
    {
      var line := lines[i];
      assert lines[..i + 1][..i] == lines[..i];
      match HeadingText(line)
      case Some(entry) =>
        entries := entries + [entry];
      case None =>
        assert entries + [] == entries;
    }
    assert lines[..|lines|] == lines;
    return Ok(entries);
  }

  // ---------------------------------------------------------------------
  // Writing a catalogue

  /** A generated thumbnail as Base64 text, or the (escaped) message of the error that prevented it. */
  type Thumbnail = Result<string>

  const Doctype := "<!DOCTYPE html>"
  const HtmlOpen := "<html lang=\"en\">"
  const HeadOpen := "<head>"
  const MetaCharset := "<meta charset=\"utf-8\">"
  const TitleOpen := "<title>Thumbnail Catalogue for Directory "
  const TitleClose := "</title>"
  const Style := "<style>h1 { font-size: large }</style>"
  const HeadClose := "</head>"
  const BodyOpen := "<body>"
  const BodyClose := "</body>"
  const HtmlClose := "</html>"
  const ImageOpen := "<p><img src=\"data:image/jpeg;base64,"
  const ImageClose := "\" style=\"width: 100%\" /></p>"
  const ParagraphOpen := "<p>"
  const ParagraphClose := "</p>"

  const Prologue: seq<string> := [Doctype, HtmlOpen, HeadOpen, MetaCharset]

  const Epilogue: seq<string> := [Style, HeadClose, BodyOpen]

  const Footer: seq<string> := [BodyClose, HtmlClose]

  function TitleLine(title: string): string
  {
    TitleOpen + title + TitleClose
  }

  /** The fixed lines before the first photo, around the (escaped) directory name. */
  function Header(title: string): seq<string>
  {
    Prologue + [TitleLine(title)] + Epilogue
  }

  /** The paragraph after a heading: the embedded image, or the error message. */
  function ImageLine(t: Thumbnail): string
  {
    match t
    case Ok(b64) => ImageOpen + b64 + ImageClose
    case Err(msg) => ParagraphOpen + msg + ParagraphClose
  }

  /** The two lines written per photo. */
  function Entry(name: string, t: Thumbnail): seq<string>
  {
    [Heading(name), ImageLine(t)]
  }

  function Body(names: seq<string>, thumbs: seq<Thumbnail>): seq<string>
    requires |names| == |thumbs|
  {
    if names == [] then []
    else Body(names[..|names| - 1], thumbs[..|thumbs| - 1]) + Entry(names[|names| - 1], thumbs[|thumbs| - 1])
  }

  /** All lines of a catalogue. */
  function Catalogue(title: string, names: seq<string>, thumbs: seq<Thumbnail>): seq<string>
    requires |names| == |thumbs|
  {
    Header(title) + Body(names, thumbs) + Footer
  }

  /** The lines `thumbcat` writes for one directory: header, two lines per photo, footer. */
  method WriteCatalogue(title: string, names: seq<string>, thumbs: seq<Thumbnail>) returns (text: string)
    requires |names| == |thumbs|
    ensures text == Unlines(Catalogue(title, names, thumbs))
  {
    var lines := Header(title);
    for i := 0 to |names|
      invariant lines == Header(title) + Body(names[..i], thumbs[..i])
    {
      assert names[..i + 1][..i] == names[..i];
      assert thumbs[..i + 1][..i] == thumbs[..i];
      lines := lines + [Heading(names[i])];
      lines := lines + [ImageLine(thumbs[i])];
    }
    assert names[..|names|] == names && thumbs[..|thumbs|] == thumbs;
    lines := lines + Footer;
    text := Unlines(lines);
  }

  /** A payload that keeps its line to itself. */
  predicate SingleLine(s: string)
  {
    '\n' !in s
  }

  /** Every line of `lines` is plain. */
  predicate AllPlain(lines: seq<string>)
  {
    forall i :: 0 <= i < |lines| ==> PlainLine(lines[i])
  }

  lemma AllPlainAppend(a: seq<string>, b: seq<string>)
    requires AllPlain(a) && AllPlain(b)
    ensures AllPlain(a + b)
  {
    forall i | 0 <= i < |a + b| ensures PlainLine((a + b)[i]) {
      if i < |a| {
        assert (a + b)[i] == a[i];
      } else {
        assert (a + b)[i] == b[i - |a|];
      }
    }
  }

  /**
   * A single line that ends with '>' and whose third character rules out
   * `<h1>` at its start is plain and no heading.
   */
  lemma NotAHeading(line: string)
    requires |line| >= 4 && line[2] != '1'
    requires '\n' !in line && line[|line| - 1] == '>'
    ensures PlainLine(line) && HeadingText(line) == None
  {
    assert line[..4][2] == line[2];
  }

  /** A line made of an opening tag, single-line text and a closing tag is plain and no heading. */
  lemma WrappedIsNotAHeading(open: string, text: string, close: string)
    requires |open| >= 3 && open[2] != '1' && '\n' !in open
    requires SingleLine(text)
    requires |close| >= 2 && close[|close| - 1] == '>' && '\n' !in close
    ensures PlainLine(open + text + close) && HeadingText(open + text + close) == None
  {
    var line := open + text + close;
    assert line[2] == open[2];
    assert line[|line| - 1] == close[|close| - 1];
    NotAHeading(line);
  }

  lemma {:induction false} NoHeadings(lines: seq<string>)
    requires forall i :: 0 <= i < |lines| ==> HeadingText(lines[i]) == None
    ensures Headings(lines) == []
    decreases |lines|
  {
    if lines != [] {
      NoHeadings(lines[..|lines| - 1]);
    }
  }

  lemma DoctypeIsNotAHeading() ensures PlainLine(Doctype) && HeadingText(Doctype) == None { NotAHeading(Doctype); }
  lemma HtmlOpenIsNotAHeading() ensures PlainLine(HtmlOpen) && HeadingText(HtmlOpen) == None { NotAHeading(HtmlOpen); }
  lemma HeadOpenIsNotAHeading() ensures PlainLine(HeadOpen) && HeadingText(HeadOpen) == None { NotAHeading(HeadOpen); }
  lemma MetaCharsetIsNotAHeading() ensures PlainLine(MetaCharset) && HeadingText(MetaCharset) == None { NotAHeading(MetaCharset); }
  lemma StyleIsNotAHeading() ensures PlainLine(Style) && HeadingText(Style) == None { NotAHeading(Style); }
  lemma HeadCloseIsNotAHeading() ensures PlainLine(HeadClose) && HeadingText(HeadClose) == None { NotAHeading(HeadClose); }
  lemma BodyOpenIsNotAHeading() ensures PlainLine(BodyOpen) && HeadingText(BodyOpen) == None { NotAHeading(BodyOpen); }
  lemma BodyCloseIsNotAHeading() ensures PlainLine(BodyClose) && HeadingText(BodyClose) == None { NotAHeading(BodyClose); }
  lemma HtmlCloseIsNotAHeading() ensures PlainLine(HtmlClose) && HeadingText(HtmlClose) == None { NotAHeading(HtmlClose); }

  lemma TitleTags()
    ensures |TitleOpen| >= 3 && TitleOpen[2] != '1' && '\n' !in TitleOpen
    ensures |TitleClose| >= 2 && TitleClose[|TitleClose| - 1] == '>' && '\n' !in TitleClose
  {
  }

  lemma ImageTags()
    ensures |ImageOpen| >= 3 && ImageOpen[2] != '1' && '\n' !in ImageOpen
    ensures |ImageClose| >= 2 && ImageClose[|ImageClose| - 1] == '>' && '\n' !in ImageClose
  {
  }

  lemma ParagraphTags()
    ensures |ParagraphOpen| >= 3 && ParagraphOpen[2] != '1' && '\n' !in ParagraphOpen
    ensures |ParagraphClose| >= 2 && ParagraphClose[|ParagraphClose| - 1] == '>' && '\n' !in ParagraphClose
  {
  }

  lemma PrologueIsPlainAndHasNoHeading()
    ensures AllPlain(Prologue) && Headings(Prologue) == []
  {
    DoctypeIsNotAHeading();
    HtmlOpenIsNotAHeading();
    HeadOpenIsNotAHeading();
    MetaCharsetIsNotAHeading();
    NoHeadings(Prologue);
  }

  lemma EpilogueIsPlainAndHasNoHeading()
    ensures AllPlain(Epilogue) && Headings(Epilogue) == []
  {
    StyleIsNotAHeading();
    HeadCloseIsNotAHeading();
    BodyOpenIsNotAHeading();
    NoHeadings(Epilogue);
  }

  lemma FooterIsPlainAndHasNoHeading()
    ensures AllPlain(Footer) && Headings(Footer) == []
  {
    BodyCloseIsNotAHeading();
    HtmlCloseIsNotAHeading();
    NoHeadings(Footer);
  }

  lemma HeaderIsPlainAndHasNoHeading(title: string)
    requires SingleLine(title)
    ensures AllPlain(Header(title))
    ensures Headings(Header(title)) == []
  {
    var t := TitleLine(title);
    TitleTags();
    WrappedIsNotAHeading(TitleOpen, title, TitleClose);
    NoHeadings([t]);
    PrologueIsPlainAndHasNoHeading();
    EpilogueIsPlainAndHasNoHeading();
    AllPlainAppend(Prologue, [t]);
    AllPlainAppend(Prologue + [t], Epilogue);
    HeadingsAppend(Prologue, [t]);
    HeadingsAppend(Prologue + [t], Epilogue);
  }

  /** The payload of a thumbnail: its Base64 text or its error message. */
  function Payload(t: Thumbnail): string
  {
    if t.Ok? then t.value else t.error
  }

  lemma ImageLineIsNotAHeading(t: Thumbnail)
    requires SingleLine(Payload(t))
    ensures PlainLine(ImageLine(t)) && HeadingText(ImageLine(t)) == None
  {
    match t
    case Ok(b64) =>
      ImageTags();
      WrappedIsNotAHeading(ImageOpen, b64, ImageClose);
    case Err(msg) =>
      ParagraphTags();
      WrappedIsNotAHeading(ParagraphOpen, msg, ParagraphClose);
  }

  lemma HeadingIsPlain(name: string)
    requires name != [] && SingleLine(name)
    ensures PlainLine(Heading(name)) && HeadingText(Heading(name)) == Some(name)
  {
    var h := Heading(name);
    assert h[|h| - 1] == '>';
    HeadingTextIff(h, name);
  }

  lemma EntryLines(name: string, t: Thumbnail)
    requires name != [] && SingleLine(name) && SingleLine(Payload(t))
    ensures AllPlain(Entry(name, t))
    ensures Headings(Entry(name, t)) == [name]
  {
    HeadingIsPlain(name);
    ImageLineIsNotAHeading(t);
    var h := Heading(name);
    var e := Entry(name, t);
    assert Headings([h]) == [name] by {
      assert [h][..0] == [];
    }
    assert e[..1] == [h];
    assert Headings(e) == Headings([h]);
  }

  /** Names a catalogue can list: non-empty and on one line. */
  predicate ListableNames(names: seq<string>)
  {
    forall x :: x in names ==> x != [] && SingleLine(x)
  }

  /** Thumbnails a catalogue can embed: payloads on one line. */
  predicate ListableThumbs(thumbs: seq<Thumbnail>)
  {
    forall t :: t in thumbs ==> SingleLine(Payload(t))
  }

  lemma ListableFront(names: seq<string>, thumbs: seq<Thumbnail>)
    requires ListableNames(names) && ListableThumbs(thumbs)
    requires |names| == |thumbs| > 0
    ensures ListableNames(names[..|names| - 1]) && ListableThumbs(thumbs[..|thumbs| - 1])
    ensures names[|names| - 1] != [] && SingleLine(names[|names| - 1]) && SingleLine(Payload(thumbs[|thumbs| - 1]))
  {
    assert names[|names| - 1] in names && thumbs[|thumbs| - 1] in thumbs;
    assert forall x :: x in names[..|names| - 1] ==> x in names;
    assert forall t :: t in thumbs[..|thumbs| - 1] ==> t in thumbs;
  }

  /** The headings of a body are its names, in order, and all its lines are plain. */
  lemma {:induction false} BodyHeadings(names: seq<string>, thumbs: seq<Thumbnail>)
    requires |names| == |thumbs|
    requires ListableNames(names) && ListableThumbs(thumbs)
    ensures AllPlain(Body(names, thumbs))
    ensures Headings(Body(names, thumbs)) == names
    decreases |names|
  {
    if names != [] {
      var n := |names|;
      var initNames, initThumbs := names[..n - 1], thumbs[..n - 1];
      ListableFront(names, thumbs);
      BodyHeadings(initNames, initThumbs);
      AppendEntry(Body(initNames, initThumbs), initNames, names[n - 1], thumbs[n - 1]);
      InitThenLast(names);
    }
  }

  /** A non-empty sequence is its front followed by its last element. */
  lemma InitThenLast(s: seq<string>)
    requires s != []
    ensures s[..|s| - 1] + [s[|s| - 1]] == s
  {
  }

  /** Appending a photo's two lines adds its name to the headings and keeps every line plain. */
  lemma AppendEntry(lines: seq<string>, names: seq<string>, name: string, t: Thumbnail)
    requires AllPlain(lines) && Headings(lines) == names
    requires name != [] && SingleLine(name) && SingleLine(Payload(t))
    ensures AllPlain(lines + Entry(name, t)) && Headings(lines + Entry(name, t)) == names + [name]
  {
    EntryLines(name, t);
    AllPlainAppend(lines, Entry(name, t));
    HeadingsAppend(lines, Entry(name, t));
  }

  /** Plain lines framed by plain lines without headings: the headings that survive the round trip are the middle's. */
  lemma FramedHeadings(a: seq<string>, b: seq<string>, c: seq<string>)
    requires AllPlain(a) && AllPlain(b) && AllPlain(c)
    requires Headings(a) == [] && Headings(c) == []
    ensures Headings(Lines(Unlines(a + b + c))) == Headings(b)
  {
    AllPlainAppend(a, b);
    AllPlainAppend(a + b, c);
    LinesOfUnlines(a + b + c);
    HeadingsAppend(a + b, c);
    HeadingsAppend(a, b);
    assert [] + Headings(b) + [] == Headings(b);
  }

  /**
   * Reading back a written catalogue gives exactly the photo names, in
   * order, when the names are non-empty and no name, title or payload holds
   * a line break.
   */
  lemma CatalogueRoundTrip(title: string, names: seq<string>, thumbs: seq<Thumbnail>)
    requires |names| == |thumbs|
    requires SingleLine(title)
    requires ListableNames(names) && ListableThumbs(thumbs)
    ensures Headings(Lines(Unlines(Catalogue(title, names, thumbs)))) == names
  {
    HeaderIsPlainAndHasNoHeading(title);
    FooterIsPlainAndHasNoHeading();
    BodyHeadings(names, thumbs);
    FramedHeadings(Header(title), Body(names, thumbs), Footer);
  }

  // ---------------------------------------------------------------------
  // The up-to-date test

  /** The names the current photos are listed under: their paths relative to the directory. */
  function CurrentNames(curPhotos: seq<Photo>, subdir: Path): (names: seq<string>)
    requires forall i :: 0 <= i < |curPhotos| ==> subdir <= curPhotos[i].relativePath
    ensures |names| == |curPhotos|
    ensures forall i :: 0 <= i < |curPhotos| ==> names[i] == Display(curPhotos[i].relativePath[|subdir|..])
  {
    if curPhotos == [] then []
    else
      var last := curPhotos[|curPhotos| - 1];
      CurrentNames(curPhotos[..|curPhotos| - 1], subdir) + [Display(StripPrefix(last.relativePath, subdir).value)]
  }

  /** The catalogue lists exactly the current photos, in the same order. */
  predicate IsUpToDate(curPhotos: seq<Photo>, subdir: Path, entries: seq<string>)
    requires forall i :: 0 <= i < |curPhotos| ==> subdir <= curPhotos[i].relativePath
  {
    CurrentNames(curPhotos, subdir) == entries
  }

  /** What `thumbcat` does in one directory. */
  datatype Action =
    | SkipUpToDate
    | SkipNoPhotos
    | Write(text: string)

  /**
   * The decision for one directory: unless forced, an existing catalogue that
   * lists exactly the current photos is left alone; a directory without
   * photos gets no catalogue; otherwise the catalogue is (re)written.
   * `existing` is the content of the catalogue file when there is one.
   */
  method ThumbcatDirectory(
    title: string, curPhotos: seq<Photo>, subdir: Path, force: bool,
    existing: Option<Result<string>>, thumbnail: Path -> Thumbnail)
    returns (r: Result<Action>)
    requires forall i :: 0 <= i < |curPhotos| ==> subdir <= curPhotos[i].relativePath
    ensures r.Err? <==> !force && existing.Some? && existing.value.Err?
    ensures r == Ok(SkipUpToDate) <==>
      !force && existing.Some? && existing.value.Ok? && IsUpToDate(curPhotos, subdir, Headings(Lines(existing.value.value)))
    ensures r.Ok? && r.value.Write? ==>
      |curPhotos| > 0 &&
      r.value.text == Unlines(Catalogue(title, CurrentNames(curPhotos, subdir), ThumbnailsOf(curPhotos, thumbnail)))
    ensures r == Ok(SkipNoPhotos) ==> |curPhotos| == 0
  {
    if !force && existing.Some? {
      var curTcEntries := ExtractEntriesFromThumbcat(existing.value);
      if curTcEntries.Err? {
        return Err(curTcEntries.error);
      }
      if CurrentNames(curPhotos, subdir) == curTcEntries.value {
        return Ok(SkipUpToDate);
      }
    }
    if |curPhotos| == 0 {
      return Ok(SkipNoPhotos);
    }
    var text := WriteCatalogue(title, CurrentNames(curPhotos, subdir), ThumbnailsOf(curPhotos, thumbnail));
    return Ok(Write(text));
  }

  /** The thumbnail of each current photo, in order. */
  function ThumbnailsOf(curPhotos: seq<Photo>, thumbnail: Path -> Thumbnail): (ts: seq<Thumbnail>)
    ensures |ts| == |curPhotos|
    ensures forall i :: 0 <= i < |curPhotos| ==> ts[i] == thumbnail(curPhotos[i].relativePath)
  {
    seq(|curPhotos|, i requires 0 <= i < |curPhotos| => thumbnail(curPhotos[i].relativePath))
  }

  /**
   * A freshly written catalogue is up to date: run again, unforced, on the
   * same photos, the directory is skipped, provided the names are non-empty
   * and no name, title or payload holds a line break.
   */
  lemma WrittenCatalogueIsUpToDate(title: string, curPhotos: seq<Photo>, subdir: Path, thumbnail: Path -> Thumbnail)
    requires forall i :: 0 <= i < |curPhotos| ==> subdir <= curPhotos[i].relativePath
    requires SingleLine(title)
    requires forall i :: 0 <= i < |curPhotos| ==>
      var name := Display(curPhotos[i].relativePath[|subdir|..]);
      name != [] && SingleLine(name)
    requires forall i :: 0 <= i < |curPhotos| ==>
      var t := thumbnail(curPhotos[i].relativePath);
      SingleLine(Payload(t))
    ensures var text := Unlines(Catalogue(title, CurrentNames(curPhotos, subdir), ThumbnailsOf(curPhotos, thumbnail)));
      IsUpToDate(curPhotos, subdir, Headings(Lines(text)))
  {
    var names, thumbs := CurrentNames(curPhotos, subdir), ThumbnailsOf(curPhotos, thumbnail);
    forall x | x in names ensures x != [] && SingleLine(x) {
      var i :| 0 <= i < |names| && names[i] == x;
    }
    forall t | t in thumbs ensures SingleLine(Payload(t)) {
      var i :| 0 <= i < |thumbs| && thumbs[i] == t;
    }
    CatalogueRoundTrip(title, names, thumbs);
  }
}
