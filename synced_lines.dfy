/**
 * Synced lyric lines and the ordering `parseLrc` puts them in:
 * `result.sort((a, b) => a.time - b.time)`. `Array.prototype.sort` is
 * stable, so the order it produces is fully determined: sorted by time, and
 * lines with equal times in their original order. The model sorts by
 * insertion and proves that any other sorted, stable rearrangement is the
 * same sequence.
 */
module SyncedLines {
  import opened LrcCodec

  /** `{ time, text }`: one lyric line and the time it starts at. */
  datatype SyncedLine = SyncedLine(time: Centis, text: string)

  predicate SortedByTime(s: seq<SyncedLine>)
  {
    forall i, j :: 0 <= i < j < |s| ==> s[i].time <= s[j].time
  }

  /** The lines of `s` whose time is `t`, in their order in `s`. */
  function AtTime(s: seq<SyncedLine>, t: Centis): (r: seq<SyncedLine>)
  {
    if s == [] then []
    else Here(s[0], t) + AtTime(s[1..], t)
  }

  /** The lines `AtTime` picks are lines of `s`, at time `t`. */
  lemma {:induction false} AtTimeMembers(s: seq<SyncedLine>, t: Centis)
    ensures forall i :: 0 <= i < |AtTime(s, t)| ==> AtTime(s, t)[i].time == t && AtTime(s, t)[i] in s
  {
    if s != [] {
      AtTimeMembers(s[1..], t);
      var r := AtTime(s, t);
      forall i | 0 <= i < |r| ensures r[i].time == t && r[i] in s {
        if Here(s[0], t) == [] || i > 0 {
          assert r[i] == AtTime(s[1..], t)[i - |Here(s[0], t)|];
        }
      }
    }
  }

  /** `[x]` when `x` is at time `t`, nothing otherwise. */
  function Here(x: SyncedLine, t: Centis): seq<SyncedLine>
  {
    if x.time == t then [x] else []
  }

  /** Places `x` just before the first line that is not earlier than it. */
  function Insert(x: SyncedLine, s: seq<SyncedLine>): (r: seq<SyncedLine>)
    ensures |r| == |s| + 1
  {
    if s == [] || x.time <= s[0].time then [x] + s
    else [s[0]] + Insert(x, s[1..])
  }

  /** Inserting adds `x` and loses nothing. */
  lemma {:induction false} InsertPermutes(x: SyncedLine, s: seq<SyncedLine>)
    ensures multiset(Insert(x, s)) == multiset(s) + multiset{x}
  {
    if !(s == [] || x.time <= s[0].time) {
      InsertPermutes(x, s[1..]);
      assert s == [s[0]] + s[1..];
    }
  }

  /** Inserting into time-ordered lines keeps them in time order. */
  lemma {:induction false} InsertSorted(x: SyncedLine, s: seq<SyncedLine>)
    requires SortedByTime(s)
    ensures SortedByTime(Insert(x, s))
  {
    if s == [] || x.time <= s[0].time {
      ConsSorted(x, s);
    } else {
      var rest := Insert(x, s[1..]);
      InsertSorted(x, s[1..]);
      InsertPermutes(x, s[1..]);
      forall i | 0 <= i < |rest| ensures s[0].time <= rest[i].time {
        assert rest[i] in multiset(rest);
        if rest[i] != x {
          assert rest[i] in multiset(s[1..]);
          var j :| 0 <= j < |s[1..]| && s[1..][j] == rest[i];
          assert s[j + 1] == rest[i];
        }
      }
      ConsSorted(s[0], rest);
    }
  }

  lemma ConsSorted(x: SyncedLine, s: seq<SyncedLine>)
    requires SortedByTime(s)
    requires forall i :: 0 <= i < |s| ==> x.time <= s[i].time
    ensures SortedByTime([x] + s)
  {
    var r := [x] + s;
    forall i, j | 0 <= i < j < |r| ensures r[i].time <= r[j].time {
      if i > 0 {
        assert r[i] == s[i - 1] && r[j] == s[j - 1];
      }
    }
  }

  /**
   * `lines.sort((a, b) => a.time - b.time)`: the lines ordered by time,
   * the same lines as before.
   */
  function SortByTime(s: seq<SyncedLine>): (r: seq<SyncedLine>)
    ensures SortedByTime(r)
    ensures multiset(r) == multiset(s)
  {
    if s == [] then []
    else
      var rest := SortByTime(s[1..]);
      InsertPermutes(s[0], rest);
      InsertSorted(s[0], rest);
      assert s == [s[0]] + s[1..];
      Insert(s[0], rest)
  }

  lemma AtTimeCons(x: SyncedLine, s: seq<SyncedLine>, t: Centis)
    ensures AtTime([x] + s, t) == Here(x, t) + AtTime(s, t)
  {
    assert ([x] + s)[1..] == s;
  }

  lemma {:induction false} InsertAtTime(x: SyncedLine, s: seq<SyncedLine>, t: Centis)
    ensures AtTime(Insert(x, s), t) == Here(x, t) + AtTime(s, t)
  {
    if s == [] || x.time <= s[0].time {
      AtTimeCons(x, s, t);
    } else {
      var rest := Insert(x, s[1..]);
      InsertAtTime(x, s[1..], t);
      AtTimeCons(s[0], rest, t);
      AtTimeCons(s[0], s[1..], t);
      assert s == [s[0]] + s[1..];
      if Here(s[0], t) == [] {
        assert Here(s[0], t) + (Here(x, t) + AtTime(s[1..], t)) == Here(x, t) + AtTime(s[1..], t);
      } else {
        assert Here(x, t) == [];
        assert Here(s[0], t) + AtTime(s[1..], t) == Here(x, t) + (Here(s[0], t) + AtTime(s[1..], t));
      }
    }
  }

  /** The sort is stable: for every time, the lines at that time keep their order. */
  lemma {:induction false} SortByTimeStable(s: seq<SyncedLine>, t: Centis)
    ensures AtTime(SortByTime(s), t) == AtTime(s, t)
  {
    if s != [] {
      SortByTimeStable(s[1..], t);
      InsertAtTime(s[0], SortByTime(s[1..]), t);
    }
  }

  /** Sorting lines that are already in time order changes nothing. */
  lemma {:induction false} SortSortedIsIdentity(s: seq<SyncedLine>)
    requires SortedByTime(s)
    ensures SortByTime(s) == s
  {
    if s != [] {
      SortSortedIsIdentity(s[1..]);
      assert s == [s[0]] + s[1..];
    }
  }

  lemma AtTimeHead(s: seq<SyncedLine>)
    requires s != []
    ensures AtTime(s, s[0].time) != [] && AtTime(s, s[0].time)[0] == s[0]
  {
  }

  /**
   * Two time-ordered sequences that agree, for every time, on the lines at
   * that time are equal.
   */
  lemma {:induction false} SortedWithSameTimeClassesAreEqual(a: seq<SyncedLine>, b: seq<SyncedLine>)
    requires SortedByTime(a) && SortedByTime(b)
    requires forall t :: AtTime(a, t) == AtTime(b, t)
    ensures a == b
    decreases |a|
  {
    if a == [] {
      if b != [] {
        AtTimeHead(b);
        assert false;
      }
    } else if b == [] {
      AtTimeHead(a);
      assert false;
    } else {
      AtTimeHead(a);
      AtTimeHead(b);
      var ta, tb := a[0].time, b[0].time;
      AtTimeMembers(a, tb);
      AtTimeMembers(b, ta);
      assert AtTime(a, tb)[0] in a;
      assert AtTime(b, ta)[0] in b;
      assert ta == tb;
      assert a[0] == b[0];
      forall t ensures AtTime(a[1..], t) == AtTime(b[1..], t) {
        var ha := Here(a[0], t);
        assert AtTime(a, t) == ha + AtTime(a[1..], t);
        assert AtTime(b, t) == ha + AtTime(b[1..], t);
        assert AtTime(a, t) == AtTime(b, t);
        assert AtTime(a[1..], t) == AtTime(a, t)[|ha|..];
      }
      SortedWithSameTimeClassesAreEqual(a[1..], b[1..]);
      assert a == [a[0]] + a[1..] && b == [b[0]] + b[1..];
    }
  }

  /**
   * The model's sort is the only stable sort by time: any time-ordered
   * rearrangement that keeps equal-time lines in their order equals it.
   */
  lemma StableSortIsUnique(s: seq<SyncedLine>, r: seq<SyncedLine>)
    requires SortedByTime(r)
    requires forall t :: AtTime(r, t) == AtTime(s, t)
    ensures r == SortByTime(s)
  {
    forall t ensures AtTime(r, t) == AtTime(SortByTime(s), t) {
      SortByTimeStable(s, t);
    }
    SortedWithSameTimeClassesAreEqual(r, SortByTime(s));
  }
}
