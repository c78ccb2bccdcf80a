/**
 * `GET /api/v1/songs` of `src/app/api/v1/songs/route.ts`: the song list is
 * filtered by status, one page of it is cut out with `Array.prototype.slice`,
 * and the response carries the page, the page size, the number of matching
 * songs and the number of pages. The list is the route's constant mock
 * catalogue; the handler is also stated over any list.
 */
module SongsApi {
  import opened Wrappers
  import opened JsString

  datatype Song = Song(
    id: string,
    title: string,
    artistName: string,
    album: string,
    durationSeconds: nat,
    status: string,
    hasSyncedLyrics: bool)

  /** The catalogue the route serves: three published songs. */
  const MockSongs: seq<Song> := [
    Song("1", "Hosanna", "Ronn The Voice", "Adorons", 225, "published", true),
    Song("2", "Je Suis Ton Ami", "Dena Mwana", "Souffle", 312, "published", true),
    Song("3", "Nzambe Monene", "Moise Mbiye", "Tango Na Yo", 276, "published", false)
  ]

  /** The query string parameters `page`, `limit` and `status`, `None` when absent. */
  datatype Query = Query(page: Option<string>, limit: Option<string>, status: Option<string>)

  /**
   * The JSON body. `page`, `limit` and `totalPages` are numbers that may be
   * `NaN` or infinite, which JSON writes as `null`: those are `None`.
   */
  datatype SongsPage = SongsPage(
    songs: seq<Song>,
    page: Option<int>,
    limit: Option<int>,
    total: nat,
    totalPages: Option<int>)

  /** `searchParams.get(name) || fallback`: an absent or empty parameter takes the fallback. */
  function Param(value: Option<string>, fallback: string): string
  {
    if value.Some? && value.value != "" then value.value else fallback
  }

  lemma ParamFallback(value: Option<string>, fallback: string)
    requires value.None? || value == Some("")
    ensures Param(value, fallback) == fallback
  {
  }

  /** `songs.filter(s => s.status === status)`. */
  function FilterStatus(songs: seq<Song>, status: string): (r: seq<Song>)
    ensures |r| <= |songs|
    ensures forall i :: 0 <= i < |r| ==> r[i].status == status
    ensures forall s :: s in songs && s.status == status ==> s in r
    ensures forall s :: s in r ==> s in songs
  {
    if songs == [] then []
    else (if songs[0].status == status then [songs[0]] else []) + FilterStatus(songs[1..], status)
  }

  /** Filtering a concatenation filters each part, so the kept songs stay in catalogue order. */
  lemma {:induction false} FilterStatusConcat(a: seq<Song>, b: seq<Song>, status: string)
    ensures FilterStatus(a + b, status) == FilterStatus(a, status) + FilterStatus(b, status)
  {
    if a == [] {
      assert a + b == b;
    } else {
      assert (a + b)[0] == a[0] && (a + b)[1..] == a[1..] + b;
      FilterStatusConcat(a[1..], b, status);
    }
  }

  /** A relative index of `slice`: negative counts back from the end, and it is clamped to the list. */
  function RelativeIndex(k: int, len: nat): (r: nat)
    ensures r <= len
  {
    if k < 0 then (if len + k < 0 then 0 else len + k)
    else if k < len then k else len
  }

  /** An index inside the list is kept, a negative one counts from the end, and both are clamped. */
  lemma RelativeIndexCases(k: int, len: nat)
    ensures 0 <= k <= len ==> RelativeIndex(k, len) == k
    ensures -(len as int) <= k < 0 ==> RelativeIndex(k, len) == len + k
    ensures k > len ==> RelativeIndex(k, len) == len
    ensures k < -(len as int) ==> RelativeIndex(k, len) == 0
  {
  }

  /** `s.slice(start, end)` with integral arguments. */
  function JsSlice(s: seq<Song>, start: int, end: int): seq<Song>
  {
    var from, to := RelativeIndex(start, |s|), RelativeIndex(end, |s|);
    if from < to then s[from..to] else []
  }

  /**
   * `filtered.slice((page - 1) * limit, page * limit)`. When `page` or
   * `limit` is `NaN` both bounds are `NaN`, which `slice` reads as 0.
   */
  function PageOf(filtered: seq<Song>, page: Option<int>, limit: Option<int>): seq<Song>
  {
    if page.None? || limit.None? then []
    else JsSlice(filtered, (page.value - 1) * limit.value, page.value * limit.value)
  }

  /**
   * `Math.ceil(total / limit)`, `None` when it is not a finite number: for a
   * `NaN` limit, and for a zero limit (infinite, or `NaN` when there is
   * nothing to count).
   */
  function TotalPages(total: nat, limit: Option<int>): (r: Option<int>)
    ensures r.None? <==> limit.None? || limit.value == 0
  {
    if limit.None? || limit.value == 0 then None
    else if limit.value > 0 then Some((total + limit.value - 1) / limit.value)
    else Some(-(total / -limit.value))
  }

  /**
   * The page count is the ceiling of `total / limit`: for a positive limit
   * the fewest pages that hold every song, for a negative one the ceiling of
   * a negative quotient.
   */
  lemma TotalPagesIsCeiling(total: nat, l: int)
    requires l != 0
    ensures var r := TotalPages(total, Some(l)).value;
      && (l > 0 ==> (r - 1) * l < total <= r * l)
      && (l < 0 ==> r * l <= total < (r - 1) * l)
  {
    var r := TotalPages(total, Some(l)).value;
    if l > 0 {
      var q := (total + l - 1) / l;
      assert q * l <= total + l - 1 < q * l + l;
      assert r == q;
      assert (r - 1) * l == r * l - l;
    } else {
      var m := -l;
      var q := total / m;
      assert q * m <= total < q * m + m;
      assert r == -q;
      assert r * l == q * m;
      assert (r - 1) * l == q * m + m;
    }
  }

  /** The `GET` handler over a given song list. */
  function ListSongs(songs: seq<Song>, query: Query): SongsPage
  {
    Respond(
      FilterStatus(songs, Param(query.status, "published")),
      ParseInt(Param(query.page, "1")),
      ParseInt(Param(query.limit, "20")))
  }

  /** The response for the filtered list and the parsed page and page size. */
  function Respond(filtered: seq<Song>, page: Option<int>, limit: Option<int>): SongsPage
  {
    SongsPage(PageOf(filtered, page, limit), page, limit, |filtered|, TotalPages(|filtered|, limit))
  }

  /** The route as deployed: the handler over the mock catalogue. */
  function GetSongs(query: Query): SongsPage
  {
    ListSongs(MockSongs, query)
  }

  // ---------------------------------------------------------------------
  // Pages
  // ---------------------------------------------------------------------

  /** From page 1 on, page `p` is the slice from `(p - 1) * limit` to `p * limit`, cut at the end of the list. */
  lemma PageSlice(filtered: seq<Song>, p: int, l: int)
    requires p >= 1 && l >= 1
    ensures var n := |filtered|;
      var from := if (p - 1) * l < n then (p - 1) * l else n;
      var to := if p * l < n then p * l else n;
      PageOf(filtered, Some(p), Some(l)) == filtered[from..to]
  {
    assert (p - 1) * l >= 0;
    assert p * l == (p - 1) * l + l;
  }

  /** With a non-negative page size, no page holds more than `limit` songs, whatever the page number. */
  lemma PageAtMostLimit(filtered: seq<Song>, page: Option<int>, l: int)
    requires l >= 0
    ensures |PageOf(filtered, page, Some(l))| <= l
  {
    if page.Some? {
      var p := page.value;
      assert p * l == (p - 1) * l + l;
    }
  }

  /**
   * Page 0 is empty, and a negative page `p` counts back from the end of the
   * list: it is the block that ends `-p * limit` songs before the end.
   */
  lemma PageBeforeFirst(filtered: seq<Song>, p: int, l: int)
    requires p <= 0 && l >= 1
    ensures p == 0 ==> PageOf(filtered, Some(p), Some(l)) == []
    ensures p < 0 ==>
      var n := |filtered|;
      var from := if n + (p - 1) * l < 0 then 0 else n + (p - 1) * l;
      var to := if n + p * l < 0 then 0 else n + p * l;
      PageOf(filtered, Some(p), Some(l)) == filtered[from..to]
  {
    if p < 0 {
      assert p * l < 0;
      assert (p - 1) * l == p * l - l;
    }
  }

  /** For page numbers from 1, a page is empty exactly when it lies beyond the last page. */
  lemma PageEmptyIffBeyondLast(filtered: seq<Song>, p: int, l: int)
    requires p >= 1 && l >= 1
    ensures PageOf(filtered, Some(p), Some(l)) == [] <==> p > TotalPages(|filtered|, Some(l)).value
  {
    PageSlice(filtered, p, l);
    TotalPagesIsCeiling(|filtered|, l);
    var tp := TotalPages(|filtered|, Some(l)).value;
    if p > tp {
      MonotoneProduct(tp, p - 1, l);
    } else {
      MonotoneProduct(p - 1, tp - 1, l);
    }
  }

  lemma MonotoneProduct(a: int, b: int, l: int)
    requires a <= b && l >= 0
    ensures a * l <= b * l
  {
  }

  /** Pages 1 to `k`, one after the other. */
  function FirstPages(filtered: seq<Song>, l: int, k: nat): seq<Song>
    requires l >= 1
  {
    if k == 0 then [] else FirstPages(filtered, l, k - 1) + PageOf(filtered, Some(k), Some(l))
  }

  lemma {:induction false} FirstPagesArePrefix(filtered: seq<Song>, l: int, k: nat)
    requires l >= 1
    ensures var n := |filtered|;
      FirstPages(filtered, l, k) == filtered[..if k * l < n then k * l else n]
  {
    if k > 0 {
      FirstPagesArePrefix(filtered, l, k - 1);
      PageSlice(filtered, k, l);
      var a, b := (k - 1) * l, k * l;
      MonotoneProduct(0, k - 1, l);
      assert b == a + l;
      PrefixThenSlice(filtered, a, b);
    }
  }

  lemma PrefixThenSlice(s: seq<Song>, a: int, b: int)
    requires 0 <= a <= b
    ensures var n := |s|;
      var a' := if a < n then a else n;
      var b' := if b < n then b else n;
      s[..a'] + s[a'..b'] == s[..b']
  {
  }

  /**
   * Pages 1 to `totalPages` put back together are the filtered list: every
   * song is on exactly one page, in order.
   */
  lemma PagesPartitionList(filtered: seq<Song>, l: int)
    requires l >= 1
    ensures FirstPages(filtered, l, TotalPages(|filtered|, Some(l)).value) == filtered
  {
    var tp := TotalPages(|filtered|, Some(l)).value;
    TotalPagesIsCeiling(|filtered|, l);
    FirstPagesArePrefix(filtered, l, tp);
  }

  // ---------------------------------------------------------------------
  // The handler
  // ---------------------------------------------------------------------

  /** Every song returned has the requested status, `published` unless another is given. */
  lemma ResponseHasStatus(songs: seq<Song>, query: Query)
    ensures forall s :: s in ListSongs(songs, query).songs ==> s.status == Param(query.status, "published")
  {
    var filtered := FilterStatus(songs, Param(query.status, "published"));
    PageWithinList(filtered, ParseInt(Param(query.page, "1")), ParseInt(Param(query.limit, "20")));
  }

  /** Every song on a page is a song of the list. */
  lemma PageWithinList(filtered: seq<Song>, page: Option<int>, limit: Option<int>)
    ensures forall s :: s in PageOf(filtered, page, limit) ==> s in filtered
  {
    var r := PageOf(filtered, page, limit);
    if page.Some? && limit.Some? {
      var from, to := RelativeIndex((page.value - 1) * limit.value, |filtered|), RelativeIndex(page.value * limit.value, |filtered|);
      forall s | s in r ensures s in filtered {
        var i :| 0 <= i < |r| && r[i] == s;
        assert s == filtered[from + i];
      }
    }
  }

  /** `total` counts the songs with the status, whatever the page and the page size. */
  lemma TotalIgnoresPaging(songs: seq<Song>, q1: Query, q2: Query)
    requires Param(q1.status, "published") == Param(q2.status, "published")
    ensures ListSongs(songs, q1).total == ListSongs(songs, q2).total
            == |FilterStatus(songs, Param(q1.status, "published"))|
  {
  }

  /** A page and a page size written in decimal are echoed back as those numbers. */
  lemma EchoesPageAndLimit(songs: seq<Song>, p: nat, l: nat, status: Option<string>)
    ensures var r := ListSongs(songs, Query(Some(NatToDecimal(p)), Some(NatToDecimal(l)), status));
      r.page == Some(p) && r.limit == Some(l)
  {
    ParseIntOfNatToDecimal(p);
    ParseIntOfNatToDecimal(l);
    assert Param(Some(NatToDecimal(p)), "1") == NatToDecimal(p);
    assert Param(Some(NatToDecimal(l)), "20") == NatToDecimal(l);
  }

  lemma DefaultNumbers()
    ensures ParseInt("1") == Some(1) && ParseInt("20") == Some(20)
  {
    ParseIntOfNatToDecimal(1);
    ParseIntOfNatToDecimal(20);
    DecimalOfOneAndTwenty();
  }

  lemma DecimalOfOneAndTwenty()
    ensures NatToDecimal(1) == "1" && NatToDecimal(20) == "20"
  {
    assert DigitChar(1) == '1' && DigitChar(2) == '2' && DigitChar(0) == '0';
    assert NatToDecimal(20) == NatToDecimal(2) + [DigitChar(0)];
  }

  /** Without parameters (or with empty ones): page 1 of 20 published songs. */
  lemma DefaultQuery(songs: seq<Song>, query: Query)
    requires query.page.None? || query.page == Some("")
    requires query.limit.None? || query.limit == Some("")
    requires query.status.None? || query.status == Some("")
    ensures ListSongs(songs, query) == Respond(FilterStatus(songs, "published"), Some(1), Some(20))
    ensures var r, filtered := ListSongs(songs, query), FilterStatus(songs, "published");
      && r.page == Some(1) && r.limit == Some(20)
      && r.total == |filtered| && r.totalPages == TotalPages(|filtered|, Some(20))
      && r.songs == filtered[..if |filtered| < 20 then |filtered| else 20]
  {
    DefaultNumbers();
    ParamFallback(query.page, "1");
    ParamFallback(query.limit, "20");
    ParamFallback(query.status, "published");
    FirstPageOfTwenty(FilterStatus(songs, "published"));
  }

  lemma FirstPageOfTwenty(filtered: seq<Song>)
    ensures var r := Respond(filtered, Some(1), Some(20));
      && r.page == Some(1) && r.limit == Some(20)
      && r.total == |filtered| && r.totalPages == TotalPages(|filtered|, Some(20))
      && r.songs == filtered[..if |filtered| < 20 then |filtered| else 20]
  {
    PageSlice(filtered, 1, 20);
  }

  /** The deployed route with no parameters returns the whole catalogue, on one page. */
  lemma DefaultCatalogue(query: Query)
    requires query.page.None? || query.page == Some("")
    requires query.limit.None? || query.limit == Some("")
    requires query.status.None? || query.status == Some("")
    ensures var r := GetSongs(query);
      r.songs == MockSongs && r.total == 3 && r.totalPages == Some(1)
  {
    MockSongsArePublished();
    assert |MockSongs| == 3;
    WholeListOnOnePage(MockSongs, query);
  }

  /** A list of published songs that fits on one page comes back whole by default. */
  lemma WholeListOnOnePage(songs: seq<Song>, query: Query)
    requires query.page.None? || query.page == Some("")
    requires query.limit.None? || query.limit == Some("")
    requires query.status.None? || query.status == Some("")
    requires FilterStatus(songs, "published") == songs && 1 <= |songs| <= 20
    ensures var r := ListSongs(songs, query);
      r.songs == songs && r.total == |songs| && r.totalPages == Some(1)
  {
    DefaultQuery(songs, query);
    OneFullPage(songs);
  }

  lemma OneFullPage(songs: seq<Song>)
    requires 1 <= |songs| <= 20
    ensures Respond(songs, Some(1), Some(20)).songs == songs
    ensures Respond(songs, Some(1), Some(20)).total == |songs|
    ensures Respond(songs, Some(1), Some(20)).totalPages == Some(1)
  {
    var r := Respond(songs, Some(1), Some(20));
    FirstPageOfTwenty(songs);
    assert r.songs == songs[..|songs|] == songs;
    OnePageOfTwenty(|songs|);
  }

  lemma OnePageOfTwenty(n: nat)
    requires 1 <= n <= 20
    ensures TotalPages(n, Some(20)) == Some(1)
  {
  }

  lemma MockSongsArePublished()
    ensures FilterStatus(MockSongs, "published") == MockSongs
  {
    var s := MockSongs;
    assert FilterStatus(s[3..], "published") == [];
    assert s[2..][1..] == s[3..];
    assert FilterStatus(s[2..], "published") == [s[2]];
    assert s[1..][1..] == s[2..];
    assert FilterStatus(s[1..], "published") == [s[1], s[2]];
  }
}
