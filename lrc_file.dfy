/**
 * LRC documents, as `src/lib/utils.ts` writes them (`syncedLyricsToLrc`)
 * and reads them (`parseLrc`). Both work line by line with a loop, so both
 * are methods here, each proved equal to a function that describes its
 * result; the properties of the format are lemmas about those functions.
 */
module LrcFile {
  import opened Wrappers
  import opened JsString
  import opened LrcCodec
  import opened SyncedLines

  /** The optional `metadata` argument of `syncedLyricsToLrc`. */
  datatype Metadata = Metadata(title: Option<string>, artist: Option<string>, album: Option<string>)

  /** `metadata?.field` is truthy: the field is there and is not the empty string. */
  predicate Truthy(field: Option<string>)
  {
    field.Some? && field.value != ""
  }

  /** An ID tag line such as `[ti:<title>]`. */
  function Tag(name: string, value: string): string
  {
    "[" + name + ":" + value + "]"
  }

  function TagLine(name: string, field: Option<string>): seq<string>
  {
    if Truthy(field) then [Tag(name, field.value)] else []
  }

  /** The header lines `syncedLyricsToLrc` writes: title, artist, album, each only when truthy. */
  function HeaderLines(metadata: Option<Metadata>): seq<string>
  {
    match metadata
    case None => []
    case Some(m) => TagLine("ti", m.title) + TagLine("ar", m.artist) + TagLine("al", m.album)
  }

  /** One lyric line of the output: its time stamp, then its text. */
  function LyricLine(line: SyncedLine): string
  {
    FormatLrcTime(line.time) + line.text
  }

  /** The lyric lines of the output: line `i` is entry `i` written out. */
  function BodyLines(lyrics: seq<SyncedLine>): seq<string>
  {
    seq(|lyrics|, i requires 0 <= i < |lyrics| => LyricLine(lyrics[i]))
  }

  /** The header followed by one blank line, or nothing when there is no header. */
  function Preamble(metadata: Option<Metadata>): seq<string>
  {
    var header := HeaderLines(metadata);
    header + (if header == [] then [] else [""])
  }

  /** All lines of the document: the header, one blank line if there is a header, then the lyrics. */
  function LrcLines(lyrics: seq<SyncedLine>, metadata: Option<Metadata>): seq<string>
  {
    Preamble(metadata) + BodyLines(lyrics)
  }

  /** Every line followed by a line feed. */
  function Terminated(lines: seq<string>): string
  {
    if lines == [] then "" else lines[0] + "\n" + Terminated(lines[1..])
  }

  /** The text `syncedLyricsToLrc(lyrics, metadata)` returns. */
  function LrcText(lyrics: seq<SyncedLine>, metadata: Option<Metadata>): string
  {
    Terminated(LrcLines(lyrics, metadata))
  }

  lemma {:induction false} TerminatedSnoc(lines: seq<string>, line: string)
    ensures Terminated(lines + [line]) == Terminated(lines) + line + "\n"
  {
    if lines != [] {
      assert (lines + [line])[1..] == lines[1..] + [line];
      TerminatedSnoc(lines[1..], line);
    }
  }

  lemma {:induction false} TerminatedAsJoin(lines: seq<string>)
    ensures Terminated(lines) == Join(lines + [""], '\n')
  {
    if lines != [] {
      assert (lines + [""])[1..] == lines[1..] + [""];
      TerminatedAsJoin(lines[1..]);
    }
  }

  lemma AppendPieces(acc: string, stamp: string, text: string)
    ensures acc + stamp + text + "\n" == acc + (stamp + text) + "\n"
  {
  }

  lemma BodyLinesSnoc(lyrics: seq<SyncedLine>, i: nat)
    requires i < |lyrics|
    ensures BodyLines(lyrics[..i + 1]) == BodyLines(lyrics[..i]) + [LyricLine(lyrics[i])]
  {
    var a, b := BodyLines(lyrics[..i + 1]), BodyLines(lyrics[..i]) + [LyricLine(lyrics[i])];
    forall j | 0 <= j < |a| ensures a[j] == b[j] {
      if j < i {
        assert lyrics[..i + 1][j] == lyrics[..i][j];
      }
    }
  }

  lemma WriteOneLine(written: seq<string>, lyrics: seq<SyncedLine>, i: nat)
    requires i < |lyrics|
    ensures Terminated(written + BodyLines(lyrics[..i + 1]))
            == Terminated(written + BodyLines(lyrics[..i])) + LyricLine(lyrics[i]) + "\n"
  {
    var line := LyricLine(lyrics[i]);
    BodyLinesSnoc(lyrics, i);
    assert written + BodyLines(lyrics[..i + 1]) == written + BodyLines(lyrics[..i]) + [line];
    TerminatedSnoc(written + BodyLines(lyrics[..i]), line);
  }

  /**
   * `syncedLyricsToLrc(lyrics, metadata)`: grows the text with `+=`, first
   * the header, then one line per lyric, in the order given.
   */
  method SyncedLyricsToLrc(lyrics: seq<SyncedLine>, metadata: Option<Metadata>) returns (lrc: string)
    ensures lrc == LrcText(lyrics, metadata)
  {
    lrc := WriteHeader(metadata);
    ghost var written := Preamble(metadata);
    assert lyrics[..0] == [];
    assert written + [] == written;
    for i := 0 to |lyrics|
      invariant lrc == Terminated(written + BodyLines(lyrics[..i]))
    {
      WriteOneLine(written, lyrics, i);
      AppendPieces(lrc, FormatLrcTime(lyrics[i].time), lyrics[i].text);
      lrc := lrc + FormatLrcTime(lyrics[i].time) + lyrics[i].text + "\n";
    }
    assert lyrics[..|lyrics|] == lyrics;
  }

  /**
   * The first statements of `syncedLyricsToLrc`: a tag line for each truthy
   * metadata field, then a blank line when anything was written.
   */
  method WriteHeader(metadata: Option<Metadata>) returns (lrc: string)
    ensures lrc == Terminated(Preamble(metadata))
  {
    lrc := "";
    ghost var m := if metadata.Some? then metadata.value else Metadata(None, None, None);
    ghost var written: seq<string> := [];
    if metadata.Some? && Truthy(metadata.value.title) {
      lrc := lrc + Tag("ti", metadata.value.title.value) + "\n";
    }
    TagStep(written, "ti", m.title);
    written := written + TagLine("ti", m.title);
    assert lrc == Terminated(written);
    if metadata.Some? && Truthy(metadata.value.artist) {
      lrc := lrc + Tag("ar", metadata.value.artist.value) + "\n";
    }
    TagStep(written, "ar", m.artist);
    written := written + TagLine("ar", m.artist);
    assert lrc == Terminated(written);
    if metadata.Some? && Truthy(metadata.value.album) {
      lrc := lrc + Tag("al", metadata.value.album.value) + "\n";
    }
    TagStep(written, "al", m.album);
    written := written + TagLine("al", m.album);
    assert lrc == Terminated(written);
    HeaderOfFields(metadata, m);
    if lrc != "" {
      TerminatedSnoc(written, "");
      lrc := lrc + "\n";
    } else {
      TerminatedEmpty(written);
    }
  }

  /** Writing a tag line when its field is truthy extends the text by that line. */
  lemma TagStep(written: seq<string>, name: string, field: Option<string>)
    ensures Terminated(written + TagLine(name, field))
            == Terminated(written) + (if Truthy(field) then Tag(name, field.value) + "\n" else "")
  {
    if Truthy(field) {
      TerminatedSnoc(written, Tag(name, field.value));
    } else {
      assert written + [] == written;
    }
  }

  lemma HeaderOfFields(metadata: Option<Metadata>, m: Metadata)
    requires m == if metadata.Some? then metadata.value else Metadata(None, None, None)
    ensures [] + TagLine("ti", m.title) + TagLine("ar", m.artist) + TagLine("al", m.album) == HeaderLines(metadata)
  {
  }

  /** Only no lines at all terminate to the empty text. */
  lemma TerminatedEmpty(lines: seq<string>)
    requires Terminated(lines) == ""
    ensures lines == []
  {
    if lines != [] {
      assert false;
    }
  }

  // ---------------------------------------------------------------------
  // Parsing
  // ---------------------------------------------------------------------

  /**
   * The line matches `^\[(\d{2}:\d{2}\.\d{2})\](.*)$` (no `m` flag): a
   * stamp at the very start, then anything up to the end of the line that
   * holds no line terminator, since `.` matches none of them and `$` only
   * matches at the end of the input.
   */
  predicate MatchesLyricLine(line: string)
  {
    IsStampAt(line, 0) && forall i :: 10 <= i < |line| ==> !IsLineTerminator(line[i])
  }

  /**
   * One iteration of the loop of `parseLrc`: a matching line with a
   * non-empty trimmed remainder becomes an entry whose time is read from the
   * leading stamp and whose text is that trimmed remainder.
   */
  function ParseLine(line: string): Option<SyncedLine>
  {
    if MatchesLyricLine(line) && Trim(line[10..]) != "" then
      Some(SyncedLine(ParseLrcTime(line[..10]), Trim(line[10..])))
    else None
  }

  function OptionToSeq(o: Option<SyncedLine>): seq<SyncedLine>
  {
    if o.Some? then [o.value] else []
  }

  /** The entries the loop of `parseLrc` pushes, in line order. */
  function Accepted(lines: seq<string>): seq<SyncedLine>
  {
    if lines == [] then [] else OptionToSeq(ParseLine(lines[0])) + Accepted(lines[1..])
  }

  /** What `parseLrc(lrcContent)` returns. */
  function ParseLrcText(content: string): seq<SyncedLine>
  {
    SortByTime(Accepted(Split(content, '\n')))
  }

  lemma {:induction false} AcceptedConcat(a: seq<string>, b: seq<string>)
    ensures Accepted(a + b) == Accepted(a) + Accepted(b)
  {
    if a == [] {
      assert a + b == b;
    } else {
      assert (a + b)[1..] == a[1..] + b;
      AcceptedConcat(a[1..], b);
    }
  }

  lemma AcceptedSnoc(lines: seq<string>, line: string)
    ensures Accepted(lines + [line]) == Accepted(lines) + OptionToSeq(ParseLine(line))
  {
    AcceptedConcat(lines, [line]);
    assert [line][1..] == [];
  }

  /**
   * `parseLrc(lrcContent)`: splits the text at line feeds, keeps the lines
   * that parse, then sorts them by time.
   */
  method ParseLrc(lrcContent: string) returns (result: seq<SyncedLine>)
    ensures result == ParseLrcText(lrcContent)
    ensures SortedByTime(result)
    ensures multiset(result) == multiset(Accepted(Split(lrcContent, '\n')))
  {
    var lines := Split(lrcContent, '\n');
    var accepted: seq<SyncedLine> := [];
    assert lines[..0] == [];
    for i := 0 to |lines|
      invariant accepted == Accepted(lines[..i])
    {
      var parsed := ParseLine(lines[i]);
      AcceptedSnoc(lines[..i], lines[i]);
      assert lines[..i + 1] == lines[..i] + [lines[i]];
      if parsed.Some? {
        accepted := accepted + [parsed.value];
      }
    }
    assert lines[..|lines|] == lines;
    result := SortByTime(accepted);
  }

  // ---------------------------------------------------------------------
  // What the parser keeps and drops
  // ---------------------------------------------------------------------

  /** The time of an accepted line is the value of its leading stamp. */
  lemma LeadingStampValue(line: string)
    requires IsStampAt(line, 0)
    ensures ParseLrcTime(line[..10]) == StampValue(line, 0)
  {
    var head := line[..10];
    assert IsStampAt(head, 0);
    assert head[1..3] == line[1..3] && head[4..6] == line[4..6] && head[7..9] == line[7..9];
    ParseLrcTimeReadsFirstStamp(head);
  }

  /**
   * A line made of a stamp and a remainder free of line terminators parses
   * to the stamp's time and the trimmed remainder, when that is not empty.
   */
  lemma ParseStampedLine(stamp: string, rest: string)
    requires |stamp| == 10 && IsStampAt(stamp, 0)
    requires forall i :: 0 <= i < |rest| ==> !IsLineTerminator(rest[i])
    requires Trim(rest) != ""
    ensures ParseLine(stamp + rest) == Some(SyncedLine(StampValue(stamp, 0), Trim(rest)))
  {
    var line := stamp + rest;
    assert line[..10] == stamp && line[10..] == rest;
    assert IsStampAt(line, 0);
    LeadingStampValue(line);
    assert StampValue(line, 0) == StampValue(stamp, 0) by {
      assert line[1..3] == stamp[1..3] && line[4..6] == stamp[4..6] && line[7..9] == stamp[7..9];
    }
  }

  /** A line whose last character is a carriage return never matches (no `m` flag, `.` stops at `\r`). */
  lemma CarriageReturnLineDropped(line: string)
    requires line != [] && line[|line| - 1] == '\r'
    ensures ParseLine(line) == None
  {
    if |line| > 10 {
      assert IsLineTerminator(line[|line| - 1]);
    }
  }

  /** ID tags such as `[ti:...]` and `[offset:...]` are not lyric lines. */
  lemma TagLineDropped(name: string, value: string)
    requires name != [] && !IsDigit(name[0])
    ensures ParseLine(Tag(name, value)) == None
  {
    assert Tag(name, value)[1] == name[0];
  }

  /** A line of white space only, the empty line included, is dropped. */
  lemma BlankLineDropped(line: string)
    requires forall i :: 0 <= i < |line| ==> IsJsWhitespace(line[i])
    ensures ParseLine(line) == None
  {
    if |line| >= 10 {
      assert IsJsWhitespace(line[0]);
    }
  }

  /** Text that survives `trim` unchanged, is not empty and fits on one line. */
  predicate IsCleanText(text: string)
  {
    && text != ""
    && !IsJsWhitespace(text[0]) && !IsJsWhitespace(text[|text| - 1])
    && forall i :: 0 <= i < |text| ==> !IsLineTerminator(text[i])
  }

  /** Every character of a stamp below 100 minutes; none is a line terminator or white space. */
  lemma FormattedStampCharacters(t: Centis)
    requires t < HundredMinutes
    ensures var r := FormatLrcTime(t);
      |r| == 10 && IsStampAt(r, 0) && StampValue(r, 0) == t
      && forall i :: 0 <= i < |r| ==> !IsLineTerminator(r[i]) && !IsJsWhitespace(r[i])
  {
    FormattedIsStamp(t);
    StampIsClean(FormatLrcTime(t));
  }

  lemma StampIsClean(r: string)
    requires |r| == 10 && IsStampAt(r, 0)
    ensures forall i :: 0 <= i < |r| ==> !IsLineTerminator(r[i]) && !IsJsWhitespace(r[i])
  {
    forall i | 0 <= i < |r| ensures !IsLineTerminator(r[i]) && !IsJsWhitespace(r[i]) {
      if i !in {0, 3, 6, 9} {
        assert IsDigit(r[i]);
      }
    }
  }

  /** A serialized lyric line parses back to the entry it was written from. */
  lemma ParseLyricLine(line: SyncedLine)
    requires line.time < HundredMinutes && IsCleanText(line.text)
    ensures ParseLine(LyricLine(line)) == Some(line)
  {
    FormattedStampCharacters(line.time);
    TrimOfTrimmed(line.text);
    ParseStampedLine(FormatLrcTime(line.time), line.text);
  }

  /**
   * Only the first stamp of a line is its time: the later ones stay in the
   * text, which is why repeated-chorus lines keep one entry.
   */
  lemma LaterStampsStayInText(t1: Centis, t2: Centis, text: string)
    requires t1 < HundredMinutes && t2 < HundredMinutes
    requires forall i :: 0 <= i < |text| ==> !IsLineTerminator(text[i])
    requires text != [] ==> !IsJsWhitespace(text[|text| - 1])
    ensures ParseLine(FormatLrcTime(t1) + FormatLrcTime(t2) + text)
            == Some(SyncedLine(t1, FormatLrcTime(t2) + text))
  {
    FormattedStampCharacters(t1);
    FormattedStampCharacters(t2);
    var rest := FormatLrcTime(t2) + text;
    assert rest[0] == '[';
    assert rest[|rest| - 1] == if text == [] then ']' else text[|text| - 1];
    TrimOfTrimmed(rest);
    assert FormatLrcTime(t1) + FormatLrcTime(t2) + text == FormatLrcTime(t1) + rest;
    ParseStampedLine(FormatLrcTime(t1), rest);
  }

  /** Texts that are not empty and that `trim` leaves alone. */
  predicate TextsTrimmed(entries: seq<SyncedLine>)
  {
    forall i :: 0 <= i < |entries| ==> entries[i].text != "" && Trim(entries[i].text) == entries[i].text
  }

  lemma ParsedTextTrimmed(line: string)
    ensures TextsTrimmed(OptionToSeq(ParseLine(line)))
  {
    if ParseLine(line).Some? {
      TrimIdempotent(line[10..]);
    }
  }

  /** Every entry `parseLrc` keeps has non-empty text that `trim` leaves alone. */
  lemma {:induction false} AcceptedTextsAreTrimmed(lines: seq<string>)
    ensures TextsTrimmed(Accepted(lines))
  {
    if lines != [] {
      AcceptedTextsAreTrimmed(lines[1..]);
      ParsedTextTrimmed(lines[0]);
      TextsTrimmedConcat(OptionToSeq(ParseLine(lines[0])), Accepted(lines[1..]));
    }
  }

  lemma TextsTrimmedConcat(a: seq<SyncedLine>, b: seq<SyncedLine>)
    requires TextsTrimmed(a) && TextsTrimmed(b)
    ensures TextsTrimmed(a + b)
  {
    forall i | 0 <= i < |a + b| ensures (a + b)[i].text != "" && Trim((a + b)[i].text) == (a + b)[i].text {
      if i >= |a| {
        assert (a + b)[i] == b[i - |a|];
      }
    }
  }

  /**
   * The result of `parseLrc`: in time order, exactly the accepted lines
   * rearranged, lines with equal times in their order in the file, and every
   * text non-empty and trimmed.
   */
  lemma ParseLrcTextProperties(content: string)
    ensures var result, accepted := ParseLrcText(content), Accepted(Split(content, '\n'));
      && SortedByTime(result)
      && multiset(result) == multiset(accepted)
      && (forall t :: AtTime(result, t) == AtTime(accepted, t))
      && TextsTrimmed(result)
  {
    var accepted := Accepted(Split(content, '\n'));
    AcceptedTextsAreTrimmed(Split(content, '\n'));
    SortedTexts(accepted);
  }

  /** Sorting keeps every entry, so it keeps texts trimmed; and it is stable. */
  lemma SortedTexts(accepted: seq<SyncedLine>)
    requires TextsTrimmed(accepted)
    ensures TextsTrimmed(SortByTime(accepted))
    ensures forall t :: AtTime(SortByTime(accepted), t) == AtTime(accepted, t)
  {
    var result := SortByTime(accepted);
    forall t ensures AtTime(result, t) == AtTime(accepted, t) {
      SortByTimeStable(accepted, t);
    }
    forall i | 0 <= i < |result| ensures result[i].text != "" && Trim(result[i].text) == result[i].text {
      assert result[i] in multiset(accepted);
      var k :| 0 <= k < |accepted| && accepted[k] == result[i];
    }
  }

  // ---------------------------------------------------------------------
  // Round trip
  // ---------------------------------------------------------------------

  /** Entries the format can carry exactly: under 100 minutes, clean one-line text. */
  predicate Writable(lyrics: seq<SyncedLine>)
  {
    forall i :: 0 <= i < |lyrics| ==> lyrics[i].time < HundredMinutes && IsCleanText(lyrics[i].text)
  }

  predicate OneLine(field: Option<string>)
  {
    field.Some? ==> '\n' !in field.value
  }

  /** Metadata values that do not break the header onto extra lines. */
  predicate MetadataOnOneLine(metadata: Option<Metadata>)
  {
    metadata.Some? ==> OneLine(metadata.value.title) && OneLine(metadata.value.artist) && OneLine(metadata.value.album)
  }

  lemma AcceptedBody(lyrics: seq<SyncedLine>)
    requires Writable(lyrics)
    ensures Accepted(BodyLines(lyrics)) == lyrics
  {
    var body := BodyLines(lyrics);
    forall i | 0 <= i < |body| ensures ParseLine(body[i]) == Some(lyrics[i]) {
      ParseLyricLine(lyrics[i]);
    }
    AcceptedAll(body, lyrics);
  }

  /** Lines that each parse to an entry are accepted as exactly those entries. */
  lemma {:induction false} AcceptedAll(lines: seq<string>, entries: seq<SyncedLine>)
    requires |lines| == |entries|
    requires forall i :: 0 <= i < |lines| ==> ParseLine(lines[i]) == Some(entries[i])
    ensures Accepted(lines) == entries
  {
    if lines != [] {
      AcceptedAll(lines[1..], entries[1..]);
      assert entries == [entries[0]] + entries[1..];
    }
  }

  lemma TagLineAcceptsNothing(name: string, field: Option<string>)
    requires name != [] && !IsDigit(name[0])
    ensures Accepted(TagLine(name, field)) == []
  {
    if Truthy(field) {
      TagLineDropped(name, field.value);
    }
  }

  lemma HeaderAcceptsNothing(metadata: Option<Metadata>)
    ensures Accepted(HeaderLines(metadata)) == []
  {
    if metadata.Some? {
      var m := metadata.value;
      TagLineAcceptsNothing("ti", m.title);
      TagLineAcceptsNothing("ar", m.artist);
      TagLineAcceptsNothing("al", m.album);
      AcceptedConcat(TagLine("ti", m.title), TagLine("ar", m.artist));
      AcceptedConcat(TagLine("ti", m.title) + TagLine("ar", m.artist), TagLine("al", m.album));
    }
  }

  lemma LinesHaveNoLineFeed(lyrics: seq<SyncedLine>, metadata: Option<Metadata>)
    requires Writable(lyrics) && MetadataOnOneLine(metadata)
    ensures NoLineFeeds(LrcLines(lyrics, metadata) + [""])
  {
    PreambleHasNoLineFeed(metadata);
    BodyHasNoLineFeed(lyrics);
    NoLineFeedAround(Preamble(metadata), BodyLines(lyrics));
  }

  predicate NoLineFeeds(lines: seq<string>)
  {
    forall i :: 0 <= i < |lines| ==> '\n' !in lines[i]
  }

  lemma NoLineFeedAround(pre: seq<string>, body: seq<string>)
    requires NoLineFeeds(pre) && NoLineFeeds(body)
    ensures NoLineFeeds(pre + body + [""])
  {
    var all := pre + body + [""];
    forall i | 0 <= i < |all| ensures '\n' !in all[i] {
      if i < |pre| {
        assert all[i] == pre[i];
      } else if i < |pre| + |body| {
        assert all[i] == body[i - |pre|];
      }
    }
  }

  lemma PreambleHasNoLineFeed(metadata: Option<Metadata>)
    requires MetadataOnOneLine(metadata)
    ensures NoLineFeeds(Preamble(metadata))
  {
  }

  lemma BodyHasNoLineFeed(lyrics: seq<SyncedLine>)
    requires Writable(lyrics)
    ensures NoLineFeeds(BodyLines(lyrics))
  {
    var body := BodyLines(lyrics);
    forall i | 0 <= i < |body| ensures '\n' !in body[i] {
      FormattedStampCharacters(lyrics[i].time);
      assert body[i] == FormatLrcTime(lyrics[i].time) + lyrics[i].text;
    }
  }

  /** The text `syncedLyricsToLrc` writes splits into its lines and one empty piece after the last line feed. */
  lemma LinesOfLrcText(lyrics: seq<SyncedLine>, metadata: Option<Metadata>)
    requires Writable(lyrics) && MetadataOnOneLine(metadata)
    ensures Split(LrcText(lyrics, metadata), '\n') == LrcLines(lyrics, metadata) + [""]
  {
    TerminatedAsJoin(LrcLines(lyrics, metadata));
    LinesHaveNoLineFeed(lyrics, metadata);
    SplitOfJoin(LrcLines(lyrics, metadata) + [""], '\n');
  }

  /**
   * Reading back what `syncedLyricsToLrc` wrote gives the lyrics back, for
   * time-ordered entries under 100 minutes with clean one-line texts, and
   * whatever one-line metadata: the header and the blank line are dropped.
   */
  lemma RoundTrip(lyrics: seq<SyncedLine>, metadata: Option<Metadata>)
    requires SortedByTime(lyrics) && Writable(lyrics) && MetadataOnOneLine(metadata)
    ensures ParseLrcText(LrcText(lyrics, metadata)) == lyrics
  {
    LinesOfLrcText(lyrics, metadata);
    AcceptedLrcLines(lyrics, metadata);
    SortSortedIsIdentity(lyrics);
  }

  /** Of all the lines written, the parser keeps exactly the lyric lines, as the entries they came from. */
  lemma AcceptedLrcLines(lyrics: seq<SyncedLine>, metadata: Option<Metadata>)
    requires Writable(lyrics)
    ensures Accepted(LrcLines(lyrics, metadata) + [""]) == lyrics
  {
    PreambleAcceptsNothing(metadata);
    AcceptedBody(lyrics);
    AcceptedAroundBody(Preamble(metadata), BodyLines(lyrics), lyrics);
  }

  lemma AcceptedAroundBody(pre: seq<string>, body: seq<string>, entries: seq<SyncedLine>)
    requires Accepted(pre) == [] && Accepted(body) == entries
    ensures Accepted(pre + body + [""]) == entries
  {
    AcceptedConcat(pre + body, [""]);
    AcceptedConcat(pre, body);
    assert Accepted([""]) == [];
  }

  lemma PreambleAcceptsNothing(metadata: Option<Metadata>)
    ensures Accepted(Preamble(metadata)) == []
  {
    var header := HeaderLines(metadata);
    var blank: seq<string> := if header == [] then [] else [""];
    AcceptedConcat(header, blank);
    HeaderAcceptsNothing(metadata);
    assert Accepted(blank) == [];
  }
}
