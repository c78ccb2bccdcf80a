# LyricSync core, modelled in Dafny

This project models the logic of the LyricSync web application that does more than pass data through to its hosted database.

- **The LRC helpers of `src/lib/utils.ts`.**
  - The timestamp codec: `formatLrcTime` and `parseLrcTime`.
  - The LRC writer `syncedLyricsToLrc` and the LRC reader `parseLrc`. Both keep their loops and are Dafny methods here.
  - `formatDuration`, `slugify`, and the leaderboard's `calculatePoints`, `calculateLevel` and `getLevelName`.
- **`GET /api/v1/songs`.** It filters the mock catalogue by status, cuts one page out with `Array.prototype.slice`, and reports the total and the number of pages.
- **`POST /api/v1/upload`, up to its storage call.**
  - The chain of guards, each with its status code and message.
  - The object name and slug derived from the title and the clock.
  - The song row it inserts.
- **`POST /api/v1/youtube`.**
  - The form check.
  - The anchored YouTube URL pattern.
  - The unanchored video ID search of `getYtmp3DownloadInfo` and that function's defaults and error wrapping.
  - The storage path and the song row of an import.

The files are organised as follows:

- `wrappers.dfy` holds `Option` and `Result`.
- `js_string.dfy` models the JavaScript string built-ins the code relies on:
  - `toString` of integers, `padStart`, `split` on one character and `trim`;
  - `parseInt` without a radix, including its white-space skipping, sign, `0x` prefix and `NaN`;
  - ASCII lower-casing.
- `lrc_codec.dfy` is the timestamp codec.
- `synced_lines.dfy` is the stable sort by time that `parseLrc` ends with.
- `lrc_file.dfy` is the writer and the reader.
- `utils.dfy` holds the other helpers.
- `songs_api.dfy`, `upload_api.dfy` and `youtube_api.dfy` are the three routes.

Times are whole hundredths of a second (`Centis`), the precision of the LRC format.

The main results:

- **Codec round trip.** Parsing a formatted time gives the time back for every time under 100 minutes. From 100 minutes on, the formatted stamp has three minute digits, the two-digit pattern of `parseLrcTime` finds nothing, and it reads back as 0.
- **Document round trip.** `parseLrc(syncedLyricsToLrc(lyrics, metadata)) == lyrics` holds when all of these are true:
  - the lyrics are in time order;
  - every time is under 100 minutes;
  - every text is non-empty, trimmed and on one line;
  - the metadata is on one line.

  The header and the blank line are dropped.
- **Reader output.** The result of `parseLrc` is sorted by time and is a permutation of the accepted lines. Lines with equal times keep their file order, and that pins the result down uniquely. Every text is non-empty and trimmed.
- **Slugs.** `slugify` always yields a well-formed slug, keeps every ASCII letter and digit in order, and is idempotent.
- **Songs route.**
  - The pages of the songs route partition the filtered list.
  - A page is empty exactly when it lies past `totalPages`.
  - `totalPages` is the ceiling of `total / limit`.
  - Negative page numbers are modelled too; `slice` then counts from the end.
- **Upload route.** The guards fire in the source's order, and an upload is accepted exactly when it passes all of them.
- **YouTube route.**
  - The greedy reading of the optional groups of the URL pattern accepts exactly the URLs some choice of those groups matches.
  - For an accepted URL, the ID search finds the ID right after the host.

Some details of the code that the model keeps:

- `parseLrcTime` and the line pattern of `parseLrc` accept exactly two fractional digits.
- `parseLrc` takes a line's time from its first stamp; any later stamps stay in its text.
- `parseLrc` drops tag lines such as `[ti:...]` only because its line pattern does not match them; it keeps no list of tag names.
- `parseLrcTime` returns 0 for text without a stamp.
- `syncedLyricsToLrc` writes only the `ti`, `ar` and `al` tags.
- `syncedLyricsToLrc` ends every line, the last one included, with a line feed.

## Model

| member | source | states |
|---|---|---|
| JsString.NatToDecimal | src/lib/utils.ts:14 | `n.toString()` for a non-negative integer; what it writes is stated by `JsString.NatToDecimalFacts` and read back by `JsString.ParseIntOfNatToDecimal` |
| JsString.NatToDecimalFacts | src/lib/utils.ts:14 | `toString` of a non-negative integer is a non-empty digit string without leading zero that reads back as the number; one digit exactly below 10, at most two below 100 |
| JsString.PadStart | src/lib/utils.ts:14 | `padStart` with a one-character fill; its result is stated by `JsString.PadStartFacts` |
| JsString.PadStartFacts | src/lib/utils.ts:14 | `padStart` keeps the string as its suffix and fills up to the width with the fill character, or leaves a long enough string alone |
| JsString.ZeroPaddingKeepsValue | src/lib/utils.ts:14 | zero padding a digit string keeps it a digit string with the same value |
| JsString.TwoDigitPadding | src/lib/utils.ts:37 | a number below 100 padded to two places is its tens digit then its units digit |
| JsString.ToLowerAscii | src/lib/utils.ts:45 | lower-casing keeps the length and the positions, leaves no upper-case ASCII letter, turns each one into its lower-case partner and keeps every other character |
| JsString.ToLowerAsciiIdempotent | src/app/api/v1/upload/route.ts:59-60 | lower-casing twice is lower-casing once |
| JsString.TrimStart | src/lib/utils.ts:84 | the result is the suffix left after the leading white space, and does not start with white space |
| JsString.TrimEnd | src/lib/utils.ts:84 | the result is the prefix left before the trailing white space, and does not end with white space |
| JsString.Trim | src/lib/utils.ts:84 | `trim` is `TrimEnd` after `TrimStart`, whose contracts state what each end loses; `JsString.TrimIdempotent` and `JsString.TrimOfTrimmed` state the whole |
| JsString.TrimOfTrimmed | src/lib/utils.ts:84 | a string without white space at either end is its own trim |
| JsString.TrimIdempotent | src/lib/utils.ts:84 | trimming twice is trimming once |
| JsString.Split | src/lib/utils.ts:77 | `split` gives at least one piece, no piece holds the separator, and joining the pieces gives the string back |
| JsString.SplitOfJoin | src/lib/utils.ts:77 | splitting a join of separator-free pieces gives the pieces back |
| JsString.SplitAppend | src/lib/utils.ts:77 | splitting `a + sep + b` splits `a` and `b` on their own |
| JsString.LastPieceAfterSeparator | src/app/api/v1/upload/route.ts:59 | the last piece of `a + sep + b` is `b` when `b` holds no separator |
| JsString.LeadingDigits | src/app/api/v1/songs/route.ts:37-38 | the longest prefix of digits of the radix: everything in it is a digit, the next character is not |
| JsString.ParseInt | src/app/api/v1/songs/route.ts:37-38 | `parseInt` without a radix, `None` for `NaN`; stated by `JsString.ParseIntOfDecimal`, `JsString.ParseIntSkipsWhitespace` and `JsString.ParseIntOfNatToDecimal` |
| JsString.ParseIntOfDecimal | src/app/api/v1/songs/route.ts:37-38 | `parseInt` reads back what `toString` writes, after any white space and before any text that does not continue the number |
| JsString.ParseIntSkipsWhitespace | src/app/api/v1/songs/route.ts:37-38 | leading white space does not change what `parseInt` reads |
| JsString.ParseIntOfNatToDecimal | src/app/api/v1/songs/route.ts:37-38 | `parseInt(n.toString()) == n` |
| LrcCodec.FormatLrcTime | src/lib/utils.ts:11-15 | `formatLrcTime`; its layout is stated by `LrcCodec.FormatLrcTimeLayout` and its inverse by `LrcCodec.ParseFormatRoundTrip` |
| LrcCodec.TwoDigits | src/lib/utils.ts:14 | a number below 100 is written as two digits that read back as it |
| LrcCodec.MinutesFieldLayout | src/lib/utils.ts:12-14 | the minutes field has at least two digits, reads back as the whole minutes, and has exactly two below 100 minutes |
| LrcCodec.SecondsFieldLayout | src/lib/utils.ts:13-14 | `secs.toFixed(2).padStart(5, '0')` is two digits of whole seconds, a dot and two digits of hundredths |
| LrcCodec.FormatLrcTimeLayout | src/lib/utils.ts:11-15 | the formatted time is `[`, the uncapped minutes, `:`, the seconds within the minute, `.`, the hundredths and `]` |
| LrcCodec.FirstStamp | src/lib/utils.ts:21 | the unanchored search finds a stamp with no stamp before it, or reports that there is none |
| LrcCodec.ParseLrcTime | src/lib/utils.ts:20-29 | `parseLrcTime`; what it returns is stated by `LrcCodec.ParseLrcTimeReadsFirstStamp` |
| LrcCodec.ParseLrcTimeReadsFirstStamp | src/lib/utils.ts:20-29 | `parseLrcTime` is 0 without a stamp and otherwise the value of the leftmost stamp |
| LrcCodec.StampRead | src/lib/utils.ts:21-28 | a stamp of three two-digit fields matches the pattern and reads back as minutes·60 + seconds + hundredths/100 |
| LrcCodec.FormattedIsStamp | src/lib/utils.ts:11-15 | below 100 minutes a formatted time is a ten-character stamp that reads back as the time |
| LrcCodec.ParseFormatRoundTrip | src/lib/utils.ts:11-29 | `parseLrcTime(formatLrcTime(t)) == t` below 100 minutes |
| LrcCodec.NoStampInLongStamp | src/lib/utils.ts:21 | a stamp with three or more minute digits contains no two-digit stamp anywhere |
| LrcCodec.ParseFormatBeyondHundredMinutes | src/lib/utils.ts:11-29 | from 100 minutes on the formatted time reads back as 0 |
| SyncedLines.AtTimeMembers | src/lib/utils.ts:94 | the lines picked for a time are lines of the sequence at that time |
| SyncedLines.InsertPermutes | src/lib/utils.ts:94 | insertion adds the line and loses none |
| SyncedLines.InsertSorted | src/lib/utils.ts:94 | insertion keeps time order |
| SyncedLines.SortByTime | src/lib/utils.ts:94 | the sort by `a.time - b.time` yields time order and a permutation of its input |
| SyncedLines.InsertAtTime | src/lib/utils.ts:94 | inserting a line puts it before the lines it ties with, and leaves the other times alone |
| SyncedLines.SortByTimeStable | src/lib/utils.ts:94 | the sort is stable: for each time, the lines at that time keep their order |
| SyncedLines.SortSortedIsIdentity | src/lib/utils.ts:94 | sorting time-ordered lines changes nothing |
| SyncedLines.SortedWithSameTimeClassesAreEqual | src/lib/utils.ts:94 | two time-ordered sequences with the same lines at every time, in the same order, are equal |
| SyncedLines.StableSortIsUnique | src/lib/utils.ts:94 | any time-ordered rearrangement that keeps equal-time lines in order is the model's sort |
| LrcFile.LrcText | src/lib/utils.ts:55-71 | the text `syncedLyricsToLrc` returns; `LrcFile.SyncedLyricsToLrc` is proved to return it and `LrcFile.RoundTrip` reads it back |
| LrcFile.TerminatedSnoc | src/lib/utils.ts:67 | appending a line to the text appends it followed by a line feed |
| LrcFile.TerminatedAsJoin | src/lib/utils.ts:55-71 | the written text is its lines joined by line feeds, with an empty piece after the last feed |
| LrcFile.WriteHeader | src/lib/utils.ts:59-64 | the header writes a tag for each truthy title, artist and album, then one blank line when anything was written |
| LrcFile.TagStep | src/lib/utils.ts:61-63 | a truthy field adds its tag line, an absent or empty one adds nothing |
| LrcFile.TerminatedEmpty | src/lib/utils.ts:64 | only an empty header leaves the text empty, so `if (lrc)` tests whether a tag was written |
| LrcFile.SyncedLyricsToLrc | src/lib/utils.ts:55-71 | the method builds exactly the header, the blank line and one stamped line per lyric, in the order given |
| LrcFile.ParseLine | src/lib/utils.ts:81-91 | one iteration of the loop of `parseLrc`; stated by `LrcFile.ParseStampedLine`, `LrcFile.ParsedTextTrimmed` and the `Dropped` lemmas |
| LrcFile.ParseLrcText | src/lib/utils.ts:76-95 | what `parseLrc` returns; `LrcFile.ParseLrc` is proved to return it and `LrcFile.ParseLrcTextProperties` states its properties |
| LrcFile.AcceptedSnoc | src/lib/utils.ts:80-92 | one more line adds its entry, if it parses, at the end |
| LrcFile.AcceptedConcat | src/lib/utils.ts:80-92 | the entries of two runs of lines are the entries of each, in order |
| LrcFile.ParseLrc | src/lib/utils.ts:76-95 | the method returns the parsed lines sorted by time, a permutation of the lines it accepted |
| LrcFile.LeadingStampValue | src/lib/utils.ts:83-87 | the time of an accepted line is the value of its leading stamp |
| LrcFile.ParseStampedLine | src/lib/utils.ts:81-90 | a stamp followed by one line of text gives the stamp's time and the trimmed text, when that is not empty |
| LrcFile.CarriageReturnLineDropped | src/lib/utils.ts:81 | a line ending in a carriage return never matches |
| LrcFile.TagLineDropped | src/lib/utils.ts:81 | ID tags such as `[ti:...]` are never lyric lines |
| LrcFile.BlankLineDropped | src/lib/utils.ts:84-85 | an empty or white-space line is dropped |
| LrcFile.FormattedStampCharacters | src/lib/utils.ts:14 | a formatted stamp below 100 minutes holds no line terminator and no white space |
| LrcFile.ParseLyricLine | src/lib/utils.ts:67-90 | a written lyric line parses back to the entry it came from |
| LrcFile.LaterStampsStayInText | src/lib/utils.ts:81-84 | a second stamp on a line stays in the text; only the first gives the time |
| LrcFile.ParsedTextTrimmed | src/lib/utils.ts:84-85 | a line's entry, if any, has non-empty trimmed text |
| LrcFile.AcceptedTextsAreTrimmed | src/lib/utils.ts:80-92 | every accepted entry has non-empty trimmed text |
| LrcFile.SortedTexts | src/lib/utils.ts:94 | sorting keeps texts trimmed and keeps equal-time entries in order |
| LrcFile.ParseLrcTextProperties | src/lib/utils.ts:76-95 | the result is in time order, a permutation of the accepted lines, stable, with trimmed non-empty texts |
| LrcFile.AcceptedBody | src/lib/utils.ts:66-90 | the lyric lines written for writable entries parse back to those entries |
| LrcFile.AcceptedAll | src/lib/utils.ts:80-92 | lines that each parse to an entry give exactly those entries |
| LrcFile.HeaderAcceptsNothing | src/lib/utils.ts:61-63 | no header tag line parses as a lyric |
| LrcFile.PreambleAcceptsNothing | src/lib/utils.ts:59-64 | the header and its blank line give no entry |
| LrcFile.LinesHaveNoLineFeed | src/lib/utils.ts:55-71 | with one-line metadata and texts, no written line holds a line feed |
| LrcFile.LinesOfLrcText | src/lib/utils.ts:55-77 | splitting the written text at line feeds gives its lines and one empty piece |
| LrcFile.AcceptedLrcLines | src/lib/utils.ts:55-92 | of all the lines written, the reader keeps exactly the lyrics |
| LrcFile.RoundTrip | src/lib/utils.ts:55-95 | `parseLrc(syncedLyricsToLrc(lyrics, metadata)) == lyrics` for time-ordered lyrics under 100 minutes with clean one-line texts and one-line metadata |
| Utils.FormatDuration | src/lib/utils.ts:34-38 | `formatDuration`; its layout and value are stated by `Utils.FormatDurationReadsBack` |
| Utils.FormatDurationReadsBack | src/lib/utils.ts:34-38 | the label is unpadded minutes, a colon and two digits of seconds below 60, reading back as the whole seconds |
| Utils.DropSeparators | src/lib/utils.ts:48 | drops exactly the leading run outside `[a-z0-9]` |
| Utils.CollapseSeparators | src/lib/utils.ts:48 | the result is made of `[a-z0-9]` and single dashes, starts with a dash exactly when the input starts outside the class, and is empty only for empty input |
| Utils.Slugify | src/lib/utils.ts:43-50 | `slugify` always gives `[a-z0-9]` words joined by single dashes, with no dash at either end, and its letters and digits are those of the lower-cased text, in order |
| Utils.TrimDashesMakesSlug | src/lib/utils.ts:49 | removing one leading and one trailing dash from collapsed text leaves a well-formed slug |
| Utils.DropSeparatorsKeepsSlugChars | src/lib/utils.ts:48 | dropping separators loses no letter or digit |
| Utils.CollapseKeepsSlugChars | src/lib/utils.ts:48 | collapsing separators loses no letter or digit |
| Utils.TrimDashesKeepsSlugChars | src/lib/utils.ts:49 | trimming dashes loses no letter or digit |
| Utils.SlugifyEmpty | src/lib/utils.ts:43-50 | the slug is empty exactly when the lower-cased text has no letter or digit |
| Utils.CollapseOfSlugText | src/lib/utils.ts:48 | collapsing text of `[a-z0-9]` and single dashes changes nothing |
| Utils.SlugifySlug | src/lib/utils.ts:43-50 | a well-formed slug is its own slug |
| Utils.SlugifyIdempotent | src/lib/utils.ts:43-50 | slugifying twice is slugifying once |
| Utils.CalculatePoints | src/lib/utils.ts:100-111 | points are positive exactly for the three known kinds, and at most 10 |
| Utils.PointsRankKinds | src/lib/utils.ts:100-111 | a sync earns more than a correction, which earns more than a validation |
| Utils.CalculateLevel | src/lib/utils.ts:116-121 | the level is 1 plus one for each of the thresholds 50, 200 and 500 reached, so between 1 and 4 |
| Utils.LevelMonotone | src/lib/utils.ts:116-121 | more points never lower the level |
| Utils.GetLevelName | src/lib/utils.ts:126-139 | the name is `Inconnu` exactly outside levels 1 to 4 |
| Utils.LevelNamesDistinct | src/lib/utils.ts:126-139 | the four levels have four different names |
| Utils.CalculatedLevelIsNamed | src/lib/utils.ts:116-139 | every level reached through points has a proper name |
| SongsApi.GetSongs | src/app/api/v1/songs/route.ts:5-62 | the route over the mock catalogue; stated by `SongsApi.DefaultCatalogue` |
| SongsApi.ListSongs | src/app/api/v1/songs/route.ts:35-62 | the handler over any list; stated by `SongsApi.ResponseHasStatus`, `SongsApi.TotalIgnoresPaging`, `SongsApi.EchoesPageAndLimit` and `SongsApi.DefaultQuery` |
| SongsApi.ParamFallback | src/app/api/v1/songs/route.ts:37-39 | an absent or empty parameter takes its fallback |
| SongsApi.FilterStatus | src/app/api/v1/songs/route.ts:51 | the kept songs are exactly the songs with the status |
| SongsApi.FilterStatusConcat | src/app/api/v1/songs/route.ts:51 | filtering keeps catalogue order |
| SongsApi.JsSlice | src/app/api/v1/songs/route.ts:52 | `slice` with integral bounds, made relative by `SongsApi.RelativeIndex` |
| SongsApi.PageOf | src/app/api/v1/songs/route.ts:52 | the page cut out of the filtered list; stated by `SongsApi.PageSlice`, `SongsApi.PageBeforeFirst`, `SongsApi.PageAtMostLimit` and `SongsApi.PagesPartitionList` |
| SongsApi.RelativeIndex | src/app/api/v1/songs/route.ts:52 | a `slice` index is clamped to the list |
| SongsApi.RelativeIndexCases | src/app/api/v1/songs/route.ts:52 | an index inside the list is kept, a negative one counts from the end, both are clamped |
| SongsApi.TotalPages | src/app/api/v1/songs/route.ts:60 | `totalPages` is `null` exactly for a `NaN` or zero limit |
| SongsApi.TotalPagesIsCeiling | src/app/api/v1/songs/route.ts:60 | `totalPages` is the ceiling of `total / limit`, for both signs of the limit |
| SongsApi.PageSlice | src/app/api/v1/songs/route.ts:52 | page `p` from 1 is the slice from `(p-1)·limit` to `p·limit`, cut at the end |
| SongsApi.PageAtMostLimit | src/app/api/v1/songs/route.ts:52 | no page holds more than `limit` songs |
| SongsApi.PageBeforeFirst | src/app/api/v1/songs/route.ts:52 | page 0 is empty, and a negative page is the block counted back from the end of the list |
| SongsApi.PageEmptyIffBeyondLast | src/app/api/v1/songs/route.ts:52-60 | a page from 1 is empty exactly when it is past `totalPages` |
| SongsApi.FirstPagesArePrefix | src/app/api/v1/songs/route.ts:52 | pages 1 to `k` together are the first `k·limit` songs |
| SongsApi.PagesPartitionList | src/app/api/v1/songs/route.ts:52-60 | pages 1 to `totalPages` together are the filtered list, each song once and in order |
| SongsApi.PageWithinList | src/app/api/v1/songs/route.ts:52 | every song on a page is in the filtered list |
| SongsApi.ResponseHasStatus | src/app/api/v1/songs/route.ts:39-55 | every song returned has the requested status, `published` by default |
| SongsApi.TotalIgnoresPaging | src/app/api/v1/songs/route.ts:59 | `total` counts the songs with the status whatever the page and limit |
| SongsApi.EchoesPageAndLimit | src/app/api/v1/songs/route.ts:37-58 | decimal `page` and `limit` parameters are echoed back as those numbers |
| SongsApi.DefaultNumbers | src/app/api/v1/songs/route.ts:37-38 | the default page and limit parse as 1 and 20 |
| SongsApi.DefaultQuery | src/app/api/v1/songs/route.ts:35-62 | with no parameters the response is page 1 of 20 published songs |
| SongsApi.FirstPageOfTwenty | src/app/api/v1/songs/route.ts:52-60 | page 1 of 20 is the first twenty songs, with the count and number of pages |
| SongsApi.OneFullPage | src/app/api/v1/songs/route.ts:52-60 | one to twenty songs fit on page 1 of 20, with one page in all |
| SongsApi.WholeListOnOnePage | src/app/api/v1/songs/route.ts:35-62 | a published list of one to twenty songs comes back whole by default |
| SongsApi.DefaultCatalogue | src/app/api/v1/songs/route.ts:5-62 | the deployed route with no parameters returns the three mock songs on one page |
| UploadApi.HandleUpload | src/app/api/v1/upload/route.ts:9-115 | the handler up to the insert; stated by `UploadApi.GuardOrder` and `UploadApi.AcceptedUpload` |
| UploadApi.GuardOrder | src/app/api/v1/upload/route.ts:9-56 | 401 without a user, then 400 for a missing file, then for a missing title, artist or lyrics, then for a non-audio type, then 413 over 10 MiB; accepted exactly when every guard passes |
| UploadApi.TooLargeMessage | src/app/api/v1/upload/route.ts:50-55 | the 413 message names a 10 Mo limit |
| UploadApi.ReplaceNonAlnum | src/app/api/v1/upload/route.ts:60 | every character outside `[a-zA-Z0-9]` becomes a dash, one for one |
| UploadApi.SanitizeTitle | src/app/api/v1/upload/route.ts:60 | each character of the title becomes its lower case if alphanumeric, a dash otherwise |
| UploadApi.SanitizedShape | src/app/api/v1/upload/route.ts:60 | a sanitized title is made of `[a-z0-9-]` |
| UploadApi.SanitizeIdempotent | src/app/api/v1/upload/route.ts:60 | sanitizing twice is sanitizing once |
| UploadApi.FileExt | src/app/api/v1/upload/route.ts:59 | the extension; stated by `UploadApi.FileExtCases` and `UploadApi.FileExtShape` |
| UploadApi.FileName | src/app/api/v1/upload/route.ts:61 | the object name; stated by `UploadApi.FileNameKeepsExtension` and `UploadApi.AcceptedUpload` |
| UploadApi.Slug | src/app/api/v1/upload/route.ts:100 | the slug; stated by `UploadApi.SlugEndsWithTime` |
| UploadApi.FileExtCases | src/app/api/v1/upload/route.ts:59 | the extension is what follows the last dot, lower-cased, or `mp3` when that is empty |
| UploadApi.FileExtShape | src/app/api/v1/upload/route.ts:59 | an extension is non-empty, holds no dot and is lower-case |
| UploadApi.FileNameKeepsExtension | src/app/api/v1/upload/route.ts:59-61 | the stored object name has the uploaded file's extension |
| UploadApi.SlugEndsWithTime | src/app/api/v1/upload/route.ts:100 | the slug ends with a dash and the clock reading, which reads back |
| UploadApi.AcceptedUpload | src/app/api/v1/upload/route.ts:59-115 | an accepted upload is stored as `<user>/<now>-<title>.<ext>` and inserted as a draft by that user, with the fields as given and an empty album as none |
| YoutubeApi.IsYoutubeUrl | src/app/api/v1/youtube/route.ts:22 | what the anchored pattern matches: some choice of the optional groups, one host alternative and an ID |
| YoutubeApi.TestYoutubeUrl | src/app/api/v1/youtube/route.ts:22-23 | `youtubeRegex.test`; `YoutubeApi.TestYoutubeUrlCorrect` proves it equal to `YoutubeApi.IsYoutubeUrl` |
| YoutubeApi.AlternativesExclusive | src/app/api/v1/youtube/route.ts:22 | at most one host alternative matches at a position |
| YoutubeApi.OnlyAlternative | src/app/api/v1/youtube/route.ts:22 | the alternative that matches at a position is the only one |
| YoutubeApi.GreedyGroups | src/app/api/v1/youtube/route.ts:22 | the greedy reading of `(https?://)?(www.)?` is one of the choices of those groups |
| YoutubeApi.GreedyPosition | src/app/api/v1/youtube/route.ts:22 | whichever choice of the optional groups matches, the host starts where the greedy reading puts it |
| YoutubeApi.GreedyMatchIsMatch | src/app/api/v1/youtube/route.ts:22-23 | a URL the greedy check accepts matches the pattern |
| YoutubeApi.MatchIsGreedyMatch | src/app/api/v1/youtube/route.ts:22-23 | a URL that matches the pattern passes the greedy check |
| YoutubeApi.TestYoutubeUrlCorrect | src/app/api/v1/youtube/route.ts:22-23 | the URL check accepts exactly the URLs the anchored pattern matches |
| YoutubeApi.HostIdAt | src/app/api/v1/youtube/route.ts:131 | a host alternative followed by an ID matches at a position exactly when an eleven-character ID is returned, the one after that alternative |
| YoutubeApi.SearchVideoId | src/app/api/v1/youtube/route.ts:131 | the search from a position fails exactly when no match starts there or later; an ID found has eleven ID characters |
| YoutubeApi.ExtractVideoId | src/app/api/v1/youtube/route.ts:131-135 | the ID search fails exactly when no match starts anywhere in the URL |
| YoutubeApi.SearchFrom | src/app/api/v1/youtube/route.ts:131 | the search returns the first match at or after its start |
| YoutubeApi.NoYBeforeHost | src/app/api/v1/youtube/route.ts:22 | no `y` comes before the host of an accepted URL |
| YoutubeApi.AcceptedUrlId | src/app/api/v1/youtube/route.ts:131-135 | for an accepted URL the ID found is the one after the host, whichever way the pattern matches |
| YoutubeApi.CheckedUrlHasId | src/app/api/v1/youtube/route.ts:131-135 | a URL that passed the check always yields an ID |
| YoutubeApi.GetDownloadInfo | src/app/api/v1/youtube/route.ts:122-173 | `getYtmp3DownloadInfo` with the converter's reply as input; stated by `YoutubeApi.InfoErrorsArePrefixed`, `YoutubeApi.NoIdNoInfo`, `YoutubeApi.DownloadInfoDefaults` and `YoutubeApi.InfoIdIsExtracted` |
| YoutubeApi.InfoErrorsArePrefixed | src/app/api/v1/youtube/route.ts:151-171 | every failure of `getYtmp3DownloadInfo` carries its fixed prefix |
| YoutubeApi.NoIdNoInfo | src/app/api/v1/youtube/route.ts:131-134 | without a match the info step fails with `Invalid YouTube URL`, before the converter is consulted |
| YoutubeApi.DownloadInfoDefaults | src/app/api/v1/youtube/route.ts:161-167 | on success the ID is the one in the URL, and a missing title, duration or thumbnail takes its default |
| YoutubeApi.InfoIdIsExtracted | src/app/api/v1/youtube/route.ts:131-167 | a successful info carries the eleven-character ID extracted from the URL |
| YoutubeApi.HandleImport | src/app/api/v1/youtube/route.ts:4-120 | the handler; stated by the lemmas below |
| YoutubeApi.MissingFieldsFirst | src/app/api/v1/youtube/route.ts:14-19 | a missing or empty URL, title, artist or lyrics gives 400 before anything else |
| YoutubeApi.UrlRefusedIffNotYoutube | src/app/api/v1/youtube/route.ts:22-28 | with all fields present, the URL is refused exactly when it does not match the pattern |
| YoutubeApi.InfoFailureReported | src/app/api/v1/youtube/route.ts:36-118 | a failure of the info step reaches the client as its own prefixed message, never the generic one |
| YoutubeApi.LaterFailureReported | src/app/api/v1/youtube/route.ts:46-118 | a later failure answers with a non-empty message: the step's fixed message, the thrown exception's message, or `Erreur lors de l'import YouTube` when that is empty |
| YoutubeApi.StoragePath | src/app/api/v1/youtube/route.ts:56-57 | the storage path; stated by `YoutubeApi.StoragePathLayout` |
| YoutubeApi.StoragePathLayout | src/app/api/v1/youtube/route.ts:56-57 | the storage path is `audio/youtube_<now>_<id>.mp3`, with the ID in the eleven characters before `.mp3` |
| YoutubeApi.ImportedRecord | src/app/api/v1/youtube/route.ts:56-91 | an import stores the audio under the ID from the URL and inserts a draft with no submitter, an empty album as none and a zero duration as none |

## Left out

- Floating-point seconds: every time is a whole number of hundredths. `toFixed(2)` rounding of finer times, negative times, `NaN` and infinities are not modelled. For times in hundredths the model takes the end result of `formatLrcTime` and `formatDuration` to be exact. The intermediate steps are not exact in doubles: `61.29 % 60` is not exactly 1.29, and `toFixed(2)` rounds it back to `1.29`.
- `parseInt` above 2^53: the model returns the exact integer where JavaScript rounds to the nearest double.
- `calculateLevel` and `getLevelName` on `NaN` or fractional input: the model takes integers.
- `calculatePoints` on a kind outside the three: the model takes any string, and other kinds give 0 as in the `default` branch.
- Utils.Slugify: lower-cases ASCII letters only and does not model `normalize('NFD')` or the removal of combining marks. So an accented letter becomes a separator here, where the source keeps its base letter. On ASCII text the two steps change nothing.
- UploadApi.FileExt and UploadApi.SanitizeTitle: `toLowerCase` is modelled on ASCII letters only.
- Strings are sequences of code points, where JavaScript uses UTF-16 code units. This shows only for characters outside the Basic Multilingual Plane, which `sanitizedTitle` would turn into two dashes rather than one.
- The backing service and the network are not modelled:
  - the database client, storage, public URLs, `fetch` and `NextResponse`;
  - the `try`/`catch` that answers 500 when the songs route throws;
  - the upload route's catch-all, which answers 500 `Erreur serveur inattendue` (lines 138-143) when `createClient`, `getUser` or `request.formData()` throws;
  - the audio URL in the inserted rows.

  Their outcomes are parameters: the signed-in user, the converter's reply, and how a later import step failed (its fixed message, or the message of the exception it threw).
- The upload route's storage-error messages (lines 76-90) and its database error path (from line 120) are not part of this model.
- Clocks: each `Date.now()` reading is a parameter. The upload route reads the clock twice, once for the object name and once for the slug.
- `formData` values: a field is either absent or a string, and the file is a name, a type and a size. A string sent where a file is expected is not modelled.
- The YouTube duration is an integer: a fractional duration from the converter is not modelled.
- `cn` (class-name merging for the user interface) is not part of this model.
- The tap-to-sync session (`src/app/sync/[id]/page.tsx`) and the playback resolver (`src/app/song/[id]/page.tsx`) are user-interface code, and they are not part of this model.
- The LRC export route (`src/app/api/v1/lrc/[songId]/route.ts`) is not part of this model, in any of its three formats. Its `lrc` format has its own inline writer, with no header and no final line feed, and it is not `syncedLyricsToLrc`. Its SRT format uses `formatSrtTime`, and its default format is JSON.
