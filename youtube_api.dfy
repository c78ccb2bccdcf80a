/**
 * `POST /api/v1/youtube` of `src/app/api/v1/youtube/route.ts`: the form
 * check, the YouTube URL check, the video ID search and the defaults of
 * `getYtmp3DownloadInfo`, and the storage path and song record the import
 * produces.
 *
 * The regular expressions of the route are written out as predicates. The
 * converter's answer, the outcome of the later network and storage steps,
 * and the `Date.now()` reading are inputs.
 */
module YoutubeApi {
  import opened Wrappers
  import opened JsString

  // ---------------------------------------------------------------------
  // The URL patterns
  // ---------------------------------------------------------------------

  /** The class `[a-zA-Z0-9_-]` of a video ID. */
  predicate IsIdChar(c: char) { IsAsciiAlnum(c) || c == '_' || c == '-' }

  /** The three alternatives `youtube\.com\/watch\?v=`, `youtu\.be\/` and `youtube\.com\/embed\/`, in order. */
  const HostPrefixes: seq<string> := ["youtube.com/watch?v=", "youtu.be/", "youtube.com/embed/"]

  /** The three choices of the optional group `(https?:\/\/)?`: `https://`, `http://`, nothing. */
  function SchemeText(a: nat): string
  {
    if a == 0 then "https://" else if a == 1 then "http://" else ""
  }

  /** The two choices of the optional group `(www\.)?`: `www.`, nothing. */
  function WwwText(b: nat): string
  {
    if b == 0 then "www." else ""
  }

  /** Eleven ID characters from position `i`. */
  predicate IdAt(s: string, i: nat)
  {
    i + 11 <= |s| && forall m :: i <= m < i + 11 ==> IsIdChar(s[m])
  }

  /** `s` holds `p` at position `i`. */
  predicate HasAt(s: string, i: nat, p: string)
  {
    i + |p| <= |s| && s[i..i + |p|] == p
  }

  /** Alternative `k` of the host group, followed by an ID, matches at `i`. */
  predicate HostAndIdAt(s: string, i: nat, k: nat)
  {
    k < |HostPrefixes| && HasAt(s, i, HostPrefixes[k]) && IdAt(s, i + |HostPrefixes[k]|)
  }

  /** The ID that follows alternative `k` at `i`. */
  function IdFrom(s: string, i: nat, k: nat): string
    requires HostAndIdAt(s, i, k)
  {
    s[i + |HostPrefixes[k]|..i + |HostPrefixes[k]| + 11]
  }

  /** Choice `a` of the scheme, choice `b` of `www.` and alternative `k` of the host, then an ID, spell the start of `url`. */
  predicate MatchAfter(url: string, a: nat, b: nat, k: nat)
  {
    && a < 3 && b < 2
    && HasAt(url, 0, SchemeText(a))
    && HasAt(url, |SchemeText(a)|, WwwText(b))
    && HostAndIdAt(url, |SchemeText(a)| + |WwwText(b)|, k)
  }

  /** What the start-anchored pattern of the URL check accepts: some choice of the optional groups matches. */
  ghost predicate IsYoutubeUrl(url: string)
  {
    exists a: nat, b: nat, k: nat :: MatchAfter(url, a, b, k)
  }

  /** Where the host part starts when the scheme and `www.` are taken whenever present. */
  function HostStart(url: string): (i: nat)
    ensures i <= 12
  {
    var a := if HasAt(url, 0, "https://") then 8 else if HasAt(url, 0, "http://") then 7 else 0;
    a + (if HasAt(url, a, "www.") then 4 else 0)
  }

  /** `youtubeRegex.test(url)`, reading the optional groups greedily. */
  function TestYoutubeUrl(url: string): bool
  {
    var i := HostStart(url);
    HostAndIdAt(url, i, 0) || HostAndIdAt(url, i, 1) || HostAndIdAt(url, i, 2)
  }

  /** Every alternative of the host group starts with `y`. */
  lemma HostStartsWithY(s: string, i: nat, k: nat)
    requires HostAndIdAt(s, i, k)
    ensures s[i] == 'y'
  {
    assert s[i] == s[i..i + |HostPrefixes[k]|][0];
  }

  /** At one position at most one alternative of the host group can match. */
  lemma AlternativesExclusive(s: string, i: nat, k: nat, k': nat)
    requires HostAndIdAt(s, i, k) && HostAndIdAt(s, i, k')
    ensures k == k'
  {
    if k != k' {
      var j := if k == 1 || k' == 1 then 5 else 12;
      CharOfPrefix(s, i, HostPrefixes[k], j);
      CharOfPrefix(s, i, HostPrefixes[k'], j);
    }
  }

  lemma CharOfPrefix(s: string, i: nat, p: string, j: nat)
    requires HasAt(s, i, p) && j < |p|
    ensures s[i + j] == p[j]
  {
    assert s[i + j] == s[i..i + |p|][j];
  }

  lemma OnlyAlternative(s: string, i: nat, k: nat)
    requires HostAndIdAt(s, i, k)
    ensures forall k': nat :: HostAndIdAt(s, i, k') ==> k' == k
  {
    forall k': nat | HostAndIdAt(s, i, k') ensures k' == k {
      AlternativesExclusive(s, i, k, k');
    }
  }

  /**
   * Reading the optional groups greedily loses nothing: no host alternative
   * starts with `h` or `w`, so giving up a present scheme or `www.` can never
   * help the match. The URL check accepts exactly the URLs of the pattern.
   */
  lemma TestYoutubeUrlCorrect(url: string)
    ensures TestYoutubeUrl(url) <==> IsYoutubeUrl(url)
  {
    if TestYoutubeUrl(url) {
      GreedyMatchIsMatch(url);
    }
    if IsYoutubeUrl(url) {
      var a: nat, b: nat, k: nat :| MatchAfter(url, a, b, k);
      MatchIsGreedyMatch(url, a, b, k);
    }
  }

  lemma GreedyMatchIsMatch(url: string)
    requires TestYoutubeUrl(url)
    ensures IsYoutubeUrl(url)
  {
    var k: nat :| k < 3 && HostAndIdAt(url, HostStart(url), k);
    var a, b := GreedyGroups(url);
    assert MatchAfter(url, a, b, k);
  }

  lemma MatchIsGreedyMatch(url: string, a: nat, b: nat, k: nat)
    requires MatchAfter(url, a, b, k)
    ensures TestYoutubeUrl(url)
  {
    GreedyPosition(url, a, b, k);
    assert HostAndIdAt(url, HostStart(url), k);
    assert k == 0 || k == 1 || k == 2;
  }

  /** The choices of the optional groups that the greedy reading makes. */
  lemma GreedyGroups(url: string) returns (a: nat, b: nat)
    ensures a < 3 && b < 2
    ensures HasAt(url, 0, SchemeText(a)) && HasAt(url, |SchemeText(a)|, WwwText(b))
    ensures HostStart(url) == |SchemeText(a)| + |WwwText(b)|
  {
    a := if HasAt(url, 0, "https://") then 0 else if HasAt(url, 0, "http://") then 1 else 2;
    b := if HasAt(url, |SchemeText(a)|, "www.") then 0 else 1;
    assert url[0..0] == [] && url[|SchemeText(a)|..|SchemeText(a)|] == [];
  }

  /** Whatever choice of the optional groups matches, the greedy reading puts the host at the same place. */
  lemma GreedyPosition(url: string, a: nat, b: nat, k: nat)
    requires MatchAfter(url, a, b, k)
    ensures HostStart(url) == |SchemeText(a)| + |WwwText(b)|
  {
    var o := |SchemeText(a)|;
    HostStartsWithY(url, o + |WwwText(b)|, k);
    if b == 0 {
      assert url[o] == url[o..o + 4][0];
    }
    assert url[o] == 'w' || url[o] == 'y';
    assert HasAt(url, 0, "https://") ==> url[0] == url[0..8][0] && url[4] == url[0..8][4];
    assert HasAt(url, 0, "http://") ==> url[0] == url[0..7][0];
    if a == 1 {
      assert url[4] == url[0..7][4];
    }
    assert HasAt(url, o, "www.") ==> url[o] == url[o..o + 4][0];
  }

  // ---------------------------------------------------------------------
  // The video ID
  // ---------------------------------------------------------------------

  /** The alternative of the host group that matches at `i`, with its ID. */
  function HostIdAt(s: string, i: nat): (r: Option<string>)
    ensures r.Some? <==> exists k: nat :: HostAndIdAt(s, i, k)
    ensures forall k: nat :: HostAndIdAt(s, i, k) ==> r == Some(IdFrom(s, i, k))
    ensures r.Some? ==> |r.value| == 11 && forall m :: 0 <= m < 11 ==> IsIdChar(r.value[m])
  {
    if HostAndIdAt(s, i, 0) then
      OnlyAlternative(s, i, 0);
      Some(IdFrom(s, i, 0))
    else if HostAndIdAt(s, i, 1) then
      OnlyAlternative(s, i, 1);
      Some(IdFrom(s, i, 1))
    else if HostAndIdAt(s, i, 2) then
      Some(IdFrom(s, i, 2))
    else None
  }

  /** The leftmost match of the unanchored pattern at or after `from`. */
  function SearchVideoId(s: string, from: nat): (r: Option<string>)
    ensures r.None? <==> forall i: nat, k: nat :: from <= i ==> !HostAndIdAt(s, i, k)
    ensures r.Some? ==> |r.value| == 11 && forall m :: 0 <= m < 11 ==> IsIdChar(r.value[m])
    decreases |s| - from
  {
    if from >= |s| then
      assert forall i: nat, k: nat :: from <= i ==> !HostAndIdAt(s, i, k);
      None
    else
      match HostIdAt(s, from)
      case Some(id) => Some(id)
      case None =>
        var r := SearchVideoId(s, from + 1);
        assert r.None? ==> forall i: nat, k: nat :: from <= i ==> !HostAndIdAt(s, i, k) by {
          if r.None? {
            forall i: nat, k: nat | from <= i ensures !HostAndIdAt(s, i, k) {
              if i == from {
                assert HostIdAt(s, from).None?;
              }
            }
          }
        }
        r
  }

  /** `youtubeUrl.match(...)[1]` of `getYtmp3DownloadInfo`: the ID of the leftmost match anywhere. */
  function ExtractVideoId(url: string): (r: Option<string>)
    ensures r.None? <==> forall i: nat, k: nat :: !HostAndIdAt(url, i, k)
    ensures r.Some? ==> |r.value| == 11 && forall m :: 0 <= m < 11 ==> IsIdChar(r.value[m])
  {
    SearchVideoId(url, 0)
  }

  /**
   * For a URL the check accepts, the search finds the ID that follows the
   * scheme, `www.` and host, the same for every way the pattern matches:
   * nothing before the host can start a match, since no alternative starts
   * with a character of `https://www.`.
   */
  lemma AcceptedUrlId(url: string, a: nat, b: nat, k: nat)
    requires MatchAfter(url, a, b, k)
    ensures ExtractVideoId(url) == Some(IdFrom(url, |SchemeText(a)| + |WwwText(b)|, k))
  {
    GreedyPosition(url, a, b, k);
    var i := HostStart(url);
    forall j: nat | j < i ensures HostIdAt(url, j).None? {
      if HostIdAt(url, j).Some? {
        var k': nat :| HostAndIdAt(url, j, k');
        HostStartsWithY(url, j, k');
        NoYBeforeHost(url, j);
      }
    }
    SearchFrom(url, i, 0);
  }

  lemma NoYBeforeHost(url: string, j: nat)
    requires j < HostStart(url)
    ensures url[j] != 'y'
  {
    var a := if HasAt(url, 0, "https://") then 8 else if HasAt(url, 0, "http://") then 7 else 0;
    if j < a {
      if a == 8 {
        assert url[j] == url[0..8][j];
      } else {
        assert url[j] == url[0..7][j];
      }
    } else {
      assert url[j] == url[a..a + 4][j - a];
    }
  }

  lemma {:induction false} SearchFrom(s: string, i: nat, from: nat)
    requires from <= i && HostIdAt(s, i).Some?
    requires forall j: nat :: from <= j < i ==> HostIdAt(s, j).None?
    ensures SearchVideoId(s, from) == HostIdAt(s, i)
    decreases i - from
  {
    HostIdAtInside(s, i);
    if from < i {
      assert HostIdAt(s, from).None?;
      SearchFrom(s, i, from + 1);
    }
  }

  lemma HostIdAtInside(s: string, i: nat)
    requires HostIdAt(s, i).Some?
    ensures i < |s|
  {
    var k: nat :| HostAndIdAt(s, i, k);
  }

  // ---------------------------------------------------------------------
  // getYtmp3DownloadInfo
  // ---------------------------------------------------------------------

  /** The JSON fields of the converter's answer that the route reads; `None` when absent. */
  datatype ApiData = ApiData(title: Option<string>, duration: Option<int>, thumbnail: Option<string>, audioUrl: Option<string>)

  /**
   * What the call to the converter produced: a thrown error (network failure,
   * unreadable body) with its message, or an HTTP status and a body that is
   * `None` when it is `null` or another false value.
   */
  datatype ApiReply = Thrown(message: string) | Reply(status: nat, body: Option<ApiData>)

  datatype DownloadInfo = DownloadInfo(id: string, title: string, duration: int, thumbnail: string, audioUrl: string)

  predicate Truthy(field: Option<string>)
  {
    field.Some? && field.value != ""
  }

  const InfoErrorPrefix: string := "Impossible d'obtenir les informations de téléchargement: "

  /** The `catch` of `getYtmp3DownloadInfo`: every error is rethrown behind one prefix. */
  function InfoError(message: string): string
  {
    InfoErrorPrefix + message
  }

  /**
   * `getYtmp3DownloadInfo(youtubeUrl)`: the ID is taken from the URL before
   * the converter is called; a missing title, duration or thumbnail takes
   * its default.
   */
  function GetDownloadInfo(url: string, reply: ApiReply): Result<DownloadInfo, string>
  {
    match ExtractVideoId(url)
    case None => Err(InfoError("Invalid YouTube URL"))
    case Some(id) =>
      match reply
      case Thrown(message) => Err(InfoError(message))
      case Reply(status, body) =>
        if !(200 <= status <= 299) then Err(InfoError("ytmp3.cc API error: " + NatToDecimal(status)))
        else if body.None? || !Truthy(body.value.audioUrl) then Err(InfoError("Failed to get download URL from ytmp3.cc"))
        else
          var data := body.value;
          Ok(DownloadInfo(
            id,
            if Truthy(data.title) then data.title.value else "YouTube Video " + id,
            if data.duration.Some? then data.duration.value else 0,
            if Truthy(data.thumbnail) then data.thumbnail.value else "",
            data.audioUrl.value))
  }

  /** Every failure of `getYtmp3DownloadInfo` carries the prefix, so its message is never empty. */
  lemma InfoErrorsArePrefixed(url: string, reply: ApiReply)
    ensures var r := GetDownloadInfo(url, reply);
      r.Err? ==> |r.error| > |InfoErrorPrefix| - 1 && r.error[..|InfoErrorPrefix|] == InfoErrorPrefix
  {
  }

  /**
   * Without a match anywhere in the URL the info step fails with `Invalid
   * YouTube URL` behind the prefix, whatever the converter would have said.
   */
  lemma NoIdNoInfo(url: string, reply: ApiReply)
    requires forall i: nat, k :: !HostAndIdAt(url, i, k)
    ensures GetDownloadInfo(url, reply) == Err(InfoError("Invalid YouTube URL"))
  {
  }

  /**
   * On success the ID is the one in the URL, and the defaults fill the gaps:
   * `YouTube Video <id>` for a missing title, 0 for a missing duration, the
   * empty string for a missing thumbnail.
   */
  lemma DownloadInfoDefaults(url: string, status: nat, data: ApiData)
    requires ExtractVideoId(url).Some? && 200 <= status <= 299 && Truthy(data.audioUrl)
    ensures var r := GetDownloadInfo(url, Reply(status, Some(data)));
      var id := ExtractVideoId(url).value;
      && r.Ok? && r.value.id == id && r.value.audioUrl == data.audioUrl.value
      && (!Truthy(data.title) ==> r.value.title == "YouTube Video " + id)
      && (Truthy(data.title) ==> r.value.title == data.title.value)
      && (data.duration.None? ==> r.value.duration == 0)
      && (!Truthy(data.thumbnail) ==> r.value.thumbnail == "")
  {
  }

  // ---------------------------------------------------------------------
  // The handler
  // ---------------------------------------------------------------------

  datatype ImportForm = ImportForm(
    youtubeUrl: Option<string>,
    title: Option<string>,
    artist: Option<string>,
    album: Option<string>,
    lyrics: Option<string>)

  /**
   * How a step after the info call can fail: the audio answer is not OK,
   * storage reports an error or the insert reports an error (each thrown
   * with a fixed message), or a call in between (`fetch`, `arrayBuffer`,
   * the storage or database client) throws an exception of its own.
   */
  datatype LaterFailure = AudioDownloadFailed | StorageFailed | InsertFailed | LaterThrown(message: string)

  /** The `songs` row, without the public URL that storage hands back. */
  datatype ImportRecord = ImportRecord(
    title: string,
    artistName: string,
    album: Option<string>,
    lyricsText: string,
    status: string,
    submittedBy: Option<string>,
    durationSeconds: Option<int>)

  datatype ImportOutcome =
    | Rejected(status: nat, message: string)
    | Failed(message: string)
    | Imported(filePath: string, record: ImportRecord, info: DownloadInfo)

  const MissingFields: string := "Paramètres manquants"
  const InvalidUrl: string := "URL YouTube invalide"
  const ImportFailed: string := "Erreur lors de l'import YouTube"

  /** The `catch` of the handler: `error.message || 'Erreur lors de l\'import YouTube'`. */
  function CaughtMessage(message: string): string
  {
    if message != "" then message else ImportFailed
  }

  function LaterFailureMessage(f: LaterFailure): string
  {
    match f
    case AudioDownloadFailed => "Impossible de télécharger l'audio depuis ytmp3.cc"
    case StorageFailed => "Erreur lors de l'upload du fichier audio"
    case InsertFailed => "Erreur lors de la création de la chanson"
    case LaterThrown(message) => message
  }

  /** `audio/youtube_<now>_<id>.mp3`. */
  function StoragePath(now: nat, id: string): string
  {
    "audio/" + "youtube_" + NatToDecimal(now) + "_" + id + ".mp3"
  }

  /**
   * The handler: 400 for missing fields, then for a URL the check refuses;
   * 500 with the error's message, or the generic one when it has none, when
   * the info call or a later step fails; otherwise the
   * path the audio is stored under, the row inserted and the video details
   * returned.
   */
  function HandleImport(form: ImportForm, reply: ApiReply, later: Option<LaterFailure>, now: nat): ImportOutcome
  {
    if !Truthy(form.youtubeUrl) || !Truthy(form.title) || !Truthy(form.artist) || !Truthy(form.lyrics) then
      Rejected(400, MissingFields)
    else if !TestYoutubeUrl(form.youtubeUrl.value) then
      Rejected(400, InvalidUrl)
    else
      match GetDownloadInfo(form.youtubeUrl.value, reply)
      case Err(message) => Failed(CaughtMessage(message))
      case Ok(info) =>
        if later.Some? then Failed(CaughtMessage(LaterFailureMessage(later.value)))
        else
          Imported(
            StoragePath(now, info.id),
            ImportRecord(
              form.title.value,
              form.artist.value,
              if Truthy(form.album) then form.album else None,
              form.lyrics.value,
              "draft",
              None,
              if info.duration != 0 then Some(info.duration) else None),
            info)
  }

  /** A missing or empty URL, title, artist or lyrics is refused before the URL is looked at. */
  lemma MissingFieldsFirst(form: ImportForm, reply: ApiReply, later: Option<LaterFailure>, now: nat)
    requires !(Truthy(form.youtubeUrl) && Truthy(form.title) && Truthy(form.artist) && Truthy(form.lyrics))
    ensures HandleImport(form, reply, later, now) == Rejected(400, MissingFields)
  {
  }

  /** With every field present, the URL is refused exactly when it does not match the pattern. */
  lemma UrlRefusedIffNotYoutube(form: ImportForm, reply: ApiReply, later: Option<LaterFailure>, now: nat)
    requires Truthy(form.youtubeUrl) && Truthy(form.title) && Truthy(form.artist) && Truthy(form.lyrics)
    ensures HandleImport(form, reply, later, now) == Rejected(400, InvalidUrl)
            <==> !IsYoutubeUrl(form.youtubeUrl.value)
  {
    TestYoutubeUrlCorrect(form.youtubeUrl.value);
  }

  /**
   * A failure of `getYtmp3DownloadInfo` reaches the client as its own,
   * prefixed, message: it is never empty, so the fallback is never used.
   */
  lemma InfoFailureReported(form: ImportForm, reply: ApiReply, later: Option<LaterFailure>, now: nat)
    requires Truthy(form.youtubeUrl) && Truthy(form.title) && Truthy(form.artist) && Truthy(form.lyrics)
    requires TestYoutubeUrl(form.youtubeUrl.value)
    requires GetDownloadInfo(form.youtubeUrl.value, reply).Err?
    ensures HandleImport(form, reply, later, now) == Failed(GetDownloadInfo(form.youtubeUrl.value, reply).error)
  {
    InfoErrorsArePrefixed(form.youtubeUrl.value, reply);
  }

  /**
   * A later step that fails answers with 500 and a message that is never
   * empty: the fixed message of the step, the message of the exception
   * thrown, or the generic one when that exception has none.
   */
  lemma LaterFailureReported(form: ImportForm, reply: ApiReply, f: LaterFailure, now: nat)
    requires Truthy(form.youtubeUrl) && Truthy(form.title) && Truthy(form.artist) && Truthy(form.lyrics)
    requires TestYoutubeUrl(form.youtubeUrl.value)
    requires GetDownloadInfo(form.youtubeUrl.value, reply).Ok?
    ensures var r := HandleImport(form, reply, Some(f), now);
      && r.Failed? && r.message != ""
      && (f.LaterThrown? && f.message != "" ==> r.message == f.message)
      && (f.LaterThrown? && f.message == "" ==> r.message == ImportFailed)
      && (f == AudioDownloadFailed ==> r.message == "Impossible de télécharger l'audio depuis ytmp3.cc")
      && (f == StorageFailed ==> r.message == "Erreur lors de l'upload du fichier audio")
      && (f == InsertFailed ==> r.message == "Erreur lors de la création de la chanson")
  {
  }

  /**
   * Past the checks, the ID search cannot fail: an import never ends with
   * the `Invalid YouTube URL` error unless the converter's own error says so.
   */
  lemma CheckedUrlHasId(url: string)
    requires IsYoutubeUrl(url)
    ensures ExtractVideoId(url).Some?
  {
    var a: nat, b: nat, k: nat :| MatchAfter(url, a, b, k);
    AcceptedUrlId(url, a, b, k);
  }

  /**
   * A successful import stores the audio at `audio/youtube_<now>_<id>.mp3`,
   * with the ID in the eleven characters before `.mp3`, and inserts a draft
   * with no submitter, an empty album as none and a zero duration as none.
   */
  lemma ImportedRecord(form: ImportForm, reply: ApiReply, later: Option<LaterFailure>, now: nat)
    requires HandleImport(form, reply, later, now).Imported?
    ensures var r := HandleImport(form, reply, later, now);
      var p := r.filePath;
      && ExtractVideoId(form.youtubeUrl.value) == Some(r.info.id)
      && p == "audio/youtube_" + NatToDecimal(now) + "_" + r.info.id + ".mp3"
      && |p| >= 15 && p[|p| - 15..|p| - 4] == r.info.id && p[|p| - 4..] == ".mp3"
      && r.record.title == form.title.value && r.record.artistName == form.artist.value
      && r.record.lyricsText == form.lyrics.value
      && (r.record.album.Some? <==> Truthy(form.album))
      && r.record.status == "draft" && r.record.submittedBy.None?
      && (r.record.durationSeconds.None? <==> r.info.duration == 0)
  {
    var r := HandleImport(form, reply, later, now);
    InfoIdIsExtracted(form.youtubeUrl.value, reply);
    StoragePathLayout(now, r.info.id);
  }

  lemma InfoIdIsExtracted(url: string, reply: ApiReply)
    ensures var r := GetDownloadInfo(url, reply);
      r.Ok? ==> ExtractVideoId(url) == Some(r.value.id) && |r.value.id| == 11
  {
  }

  lemma StoragePathLayout(now: nat, id: string)
    requires |id| == 11
    ensures var p := StoragePath(now, id);
      && p == "audio/youtube_" + NatToDecimal(now) + "_" + id + ".mp3"
      && |p| >= 15 && p[|p| - 15..|p| - 4] == id && p[|p| - 4..] == ".mp3"
  {
    var p := StoragePath(now, id);
    var head := "audio/youtube_" + NatToDecimal(now) + "_";
    assert "audio/" + "youtube_" == "audio/youtube_";
    assert p == head + id + ".mp3";
    assert p[|p| - 15..|p| - 4] == id;
  }
}
