/**
 * `POST /api/v1/upload` of `src/app/api/v1/upload/route.ts`, up to the point
 * where it talks to storage: the chain of guards that turns a request away
 * with a status code and a message, then the names it derives for an
 * accepted upload (the storage object name and the song's slug) and the
 * fields of the song record it inserts.
 *
 * The signed-in user, the form fields and the two `Date.now()` readings
 * (one for the object name, one for the slug) are inputs.
 */
module UploadApi {
  import opened Wrappers
  import opened JsString

  /** The `File` of the form: its name, its MIME type and its size in bytes. */
  datatype UploadedFile = UploadedFile(name: string, mimeType: string, size: nat)

  /** The form fields; `None` when a field is absent. */
  datatype UploadForm = UploadForm(
    file: Option<UploadedFile>,
    title: Option<string>,
    artist: Option<string>,
    album: Option<string>,
    lyrics: Option<string>)

  /** The row inserted into `songs`, without the public URL that storage hands back. */
  datatype SongRecord = SongRecord(
    title: string,
    slug: string,
    artistName: string,
    album: Option<string>,
    lyricsText: string,
    status: string,
    submittedBy: string)

  datatype UploadOutcome =
    | Rejected(status: nat, message: string)
    | Accepted(fileName: string, record: SongRecord)

  /** `10 * 1024 * 1024`: the largest accepted file, in bytes. */
  const MaxSize: nat := 10485760

  const NotSignedIn: string := "Non authentifié. Veuillez vous connecter."
  const FileRequired: string := "Fichier audio requis"
  const FieldsRequired: string := "Titre, artiste et paroles sont requis"
  const NotAudio: string := "Le fichier doit être un fichier audio"

  /** The 413 message, with the limit written in mebibytes (`Math.round(maxSize / 1024 / 1024)`). */
  function TooLarge(): string
  {
    "Le fichier ne doit pas dépasser " + NatToDecimal(MaxSize / 1048576) + " Mo (limite d'hébergement)"
  }

  /** A form field that JavaScript reads as true: present and not empty. */
  predicate Truthy(field: Option<string>)
  {
    field.Some? && field.value != ""
  }

  /** `title.replace(/[^a-zA-Z0-9]/g, '-').toLowerCase()`. */
  function SanitizeTitle(title: string): (r: string)
    ensures |r| == |title|
    ensures forall i :: 0 <= i < |r| ==> r[i] == (if IsAsciiAlnum(title[i]) then LowerChar(title[i]) else '-')
  {
    ToLowerAscii(ReplaceNonAlnum(title))
  }

  function ReplaceNonAlnum(s: string): (r: string)
    ensures |r| == |s|
    ensures forall i :: 0 <= i < |r| ==> r[i] == (if IsAsciiAlnum(s[i]) then s[i] else '-')
  {
    if s == [] then [] else [if IsAsciiAlnum(s[0]) then s[0] else '-'] + ReplaceNonAlnum(s[1..])
  }

  /** The characters a sanitized title is made of: `[a-z0-9-]`. */
  predicate IsSanitized(s: string)
  {
    forall i :: 0 <= i < |s| ==> ('a' <= s[i] <= 'z') || IsDigit(s[i]) || s[i] == '-'
  }

  /** `file.name.split('.').pop()?.toLowerCase() || 'mp3'`. */
  function FileExt(name: string): string
  {
    var parts := Split(name, '.');
    var last := ToLowerAscii(parts[|parts| - 1]);
    if last == "" then "mp3" else last
  }

  /** `` `${user.id}/${Date.now()}-${sanitizedTitle}.${fileExt}` ``. */
  function FileName(userId: string, now: nat, title: string, ext: string): string
  {
    userId + "/" + NatToDecimal(now) + "-" + SanitizeTitle(title) + "." + ext
  }

  /** `` `${sanitizedTitle}-${Date.now()}` ``. */
  function Slug(title: string, now: nat): string
  {
    SanitizeTitle(title) + "-" + NatToDecimal(now)
  }

  /**
   * The handler up to the storage upload: `user` is the signed-in user's id
   * (`None` when there is none or the session lookup failed); `nameTime` and
   * `slugTime` are the two clock readings.
   */
  function HandleUpload(user: Option<string>, form: UploadForm, nameTime: nat, slugTime: nat): UploadOutcome
  {
    if user.None? then Rejected(401, NotSignedIn)
    else if form.file.None? then Rejected(400, FileRequired)
    else if !Truthy(form.title) || !Truthy(form.artist) || !Truthy(form.lyrics) then Rejected(400, FieldsRequired)
    else if !StartsWith(form.file.value.mimeType, "audio/") then Rejected(400, NotAudio)
    else if form.file.value.size > MaxSize then Rejected(413, TooLarge())
    else
      var title := form.title.value;
      var record := SongRecord(
        title,
        Slug(title, slugTime),
        form.artist.value,
        if Truthy(form.album) then form.album else None,
        form.lyrics.value,
        "draft",
        user.value);
      Accepted(FileName(user.value, nameTime, title, FileExt(form.file.value.name)), record)
  }

  // ---------------------------------------------------------------------
  // The guards
  // ---------------------------------------------------------------------

  /** A request that passes every guard. */
  predicate Acceptable(user: Option<string>, form: UploadForm)
  {
    && user.Some?
    && form.file.Some?
    && Truthy(form.title) && Truthy(form.artist) && Truthy(form.lyrics)
    && StartsWith(form.file.value.mimeType, "audio/")
    && form.file.value.size <= MaxSize
  }

  /**
   * The guards in their order: no user gives 401 whatever the form; then a
   * missing file, then a missing or empty title, artist or lyrics (the album
   * is optional), then a type outside `audio/`, each 400; then a file over
   * 10 MiB gives 413. A request is accepted exactly when it passes them all,
   * a file of exactly 10 MiB included.
   */
  lemma GuardOrder(user: Option<string>, form: UploadForm, nameTime: nat, slugTime: nat)
    ensures var r := HandleUpload(user, form, nameTime, slugTime);
      && (user.None? ==> r == Rejected(401, NotSignedIn))
      && (user.Some? && form.file.None? ==> r == Rejected(400, FileRequired))
      && (user.Some? && form.file.Some? && !(Truthy(form.title) && Truthy(form.artist) && Truthy(form.lyrics))
          ==> r == Rejected(400, FieldsRequired))
      && (user.Some? && form.file.Some? && Truthy(form.title) && Truthy(form.artist) && Truthy(form.lyrics)
          && !StartsWith(form.file.value.mimeType, "audio/")
          ==> r == Rejected(400, NotAudio))
      && (user.Some? && form.file.Some? && Truthy(form.title) && Truthy(form.artist) && Truthy(form.lyrics)
          && StartsWith(form.file.value.mimeType, "audio/") && form.file.value.size > MaxSize
          ==> r == Rejected(413, TooLarge()))
      && (r.Accepted? <==> Acceptable(user, form))
  {
  }

  /** The 413 message names the limit: 10 Mo. */
  lemma TooLargeMessage()
    ensures TooLarge() == "Le fichier ne doit pas dépasser 10 Mo (limite d'hébergement)"
  {
    assert MaxSize / 1048576 == 10;
    assert NatToDecimal(10) == NatToDecimal(1) + [DigitChar(0)];
  }

  // ---------------------------------------------------------------------
  // Derived names and the record
  // ---------------------------------------------------------------------

  /** A sanitized title keeps the length and the positions of the title and is made of `[a-z0-9-]`. */
  lemma SanitizedShape(title: string)
    ensures IsSanitized(SanitizeTitle(title))
  {
  }

  /** Sanitizing a sanitized title changes nothing. */
  lemma SanitizeIdempotent(title: string)
    ensures SanitizeTitle(SanitizeTitle(title)) == SanitizeTitle(title)
  {
    var s := SanitizeTitle(title);
    assert forall i :: 0 <= i < |s| ==> SanitizeTitle(s)[i] == s[i];
  }

  /**
   * The extension is what follows the last dot, lower-cased, and `mp3` when
   * that is empty; a name without a dot is its own extension.
   */
  lemma FileExtCases(base: string, ext: string)
    requires '.' !in ext
    ensures FileExt(base + "." + ext) == if ext == "" then "mp3" else ToLowerAscii(ext)
    ensures FileExt(ext) == if ext == "" then "mp3" else ToLowerAscii(ext)
  {
    LastPieceAfterSeparator(base, ext, '.');
    SplitNoSeparator(ext, '.');
  }

  /** An extension is never empty, holds no dot and is already lower-case. */
  lemma FileExtShape(name: string)
    ensures var e := FileExt(name);
      e != "" && '.' !in e && ToLowerAscii(e) == e
  {
    var parts := Split(name, '.');
    var last := parts[|parts| - 1];
    ToLowerAsciiIdempotent(last);
  }

  /** Reading the extension back from the generated object name gives the file's extension. */
  lemma FileNameKeepsExtension(userId: string, now: nat, title: string, fileName: string)
    ensures FileExt(FileName(userId, now, title, FileExt(fileName))) == FileExt(fileName)
  {
    var e := FileExt(fileName);
    FileExtShape(fileName);
    var base := userId + "/" + NatToDecimal(now) + "-" + SanitizeTitle(title);
    assert FileName(userId, now, title, e) == base + "." + e;
    FileExtCases(base, e);
  }

  /** The slug ends in a dash and the slug clock reading, which reads back from the last dash-separated piece. */
  lemma SlugEndsWithTime(title: string, now: nat)
    ensures var parts := Split(Slug(title, now), '-');
      parts[|parts| - 1] == NatToDecimal(now) && AllDigits(parts[|parts| - 1]) && DecimalValue(parts[|parts| - 1]) == now
  {
    NatToDecimalFacts(now);
    assert '-' !in NatToDecimal(now);
    LastPieceAfterSeparator(SanitizeTitle(title), NatToDecimal(now), '-');
  }

  /**
   * An accepted upload stores the file under the user's folder as
   * `<now>-<sanitized title>.<ext>`, and records a draft submitted by that
   * user, with the fields as given and an empty album as none.
   */
  lemma AcceptedUpload(user: Option<string>, form: UploadForm, nameTime: nat, slugTime: nat)
    requires Acceptable(user, form)
    ensures var r := HandleUpload(user, form, nameTime, slugTime);
      && r.Accepted?
      && r.fileName == user.value + "/" + NatToDecimal(nameTime) + "-" + SanitizeTitle(form.title.value)
                       + "." + FileExt(form.file.value.name)
      && r.record.slug == SanitizeTitle(form.title.value) + "-" + NatToDecimal(slugTime)
      && r.record.title == form.title.value
      && r.record.artistName == form.artist.value
      && r.record.lyricsText == form.lyrics.value
      && (r.record.album.Some? <==> Truthy(form.album))
      && (r.record.album.Some? ==> r.record.album == form.album)
      && r.record.status == "draft"
      && r.record.submittedBy == user.value
  {
  }
}
