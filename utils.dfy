/**
 * The small helpers of `src/lib/utils.ts` next to the LRC codec: the
 * `m:ss` duration label, `slugify`, and the contribution points and levels
 * of the leaderboard.
 */
module Utils {
  import opened JsString
  import opened LrcCodec

  // ---------------------------------------------------------------------
  // formatDuration
  // ---------------------------------------------------------------------

  /**
   * `formatDuration(seconds)`: whole minutes, unpadded, a colon, then the
   * whole seconds within the minute on two digits. Hundredths are dropped.
   */
  function FormatDuration(t: Centis): string
  {
    NatToDecimal(t / 6000) + ":" + PadStart(NatToDecimal(t % 6000 / 100), 2, '0')
  }

  lemma WholeSeconds(t: Centis)
    ensures t / 6000 * 60 + t % 6000 / 100 == t / 100
  {
    var q, r := t / 6000, t % 6000;
    assert t == q * 6000 + r;
    assert q * 6000 + r == (q * 60 + r / 100) * 100 + r % 100;
  }

  /**
   * The label splits at its only colon into the minutes, written without
   * leading zeros, and two digits of seconds below 60; together they read
   * back as the whole number of seconds in `t`.
   */
  lemma FormatDurationReadsBack(t: Centis)
    ensures var parts := Split(FormatDuration(t), ':');
      && |parts| == 2
      && AllDigits(parts[0]) && |parts[0]| >= 1 && (|parts[0]| > 1 ==> parts[0][0] != '0')
      && AllDigits(parts[1]) && |parts[1]| == 2 && DecimalValue(parts[1]) < 60
      && DecimalValue(parts[0]) * 60 + DecimalValue(parts[1]) == t / 100
  {
    var mins, secs := NatToDecimal(t / 6000), t % 6000 / 100;
    NatToDecimalFacts(t / 6000);
    TwoDigitPadding(secs);
    assert PadStart(NatToDecimal(secs), 2, '0') == TwoDigits(secs);
    assert FormatDuration(t) == mins + [':'] + TwoDigits(secs);
    SplitPrefix(mins, TwoDigits(secs), ':');
    SplitNoSeparator(TwoDigits(secs), ':');
    WholeSeconds(t);
  }

  // ---------------------------------------------------------------------
  // slugify
  // ---------------------------------------------------------------------

  /** The class `[a-z0-9]` that survives in a slug. */
  predicate IsSlugChar(c: char) { 'a' <= c <= 'z' || IsDigit(c) }

  /** Drops a leading run of characters outside `[a-z0-9]`. */
  function DropSeparators(s: string): (r: string)
    ensures |r| <= |s| && r == s[|s| - |r|..]
    ensures r != [] ==> IsSlugChar(r[0])
    ensures forall i :: 0 <= i < |s| - |r| ==> !IsSlugChar(s[i])
  {
    if s != [] && !IsSlugChar(s[0]) then
      var r := DropSeparators(s[1..]);
      assert s[|s| - |r|..] == s[1..][|s| - 1 - |r|..];
      assert forall i :: 1 <= i < |s| - |r| ==> s[i] == s[1..][i - 1];
      r
    else s
  }

  /** `.replace(/[^a-z0-9]+/g, '-')`: every maximal run outside `[a-z0-9]` becomes one dash. */
  function CollapseSeparators(s: string): (r: string)
    ensures forall i :: 0 <= i < |r| ==> IsSlugChar(r[i]) || r[i] == '-'
    ensures forall i :: 0 <= i < |r| - 1 ==> !(r[i] == '-' && r[i + 1] == '-')
    ensures r == [] <==> s == []
    ensures r != [] ==> (r[0] == '-' <==> !IsSlugChar(s[0]))
    decreases |s|
  {
    if s == [] then []
    else if IsSlugChar(s[0]) then [s[0]] + CollapseSeparators(s[1..])
    else "-" + CollapseSeparators(DropSeparators(s[1..]))
  }

  /** `.replace(/(^-|-$)/g, '')`: one leading dash and one trailing dash go. */
  function TrimDashes(s: string): string
  {
    var a := if s != [] && s[0] == '-' then s[1..] else s;
    if a != [] && a[|a| - 1] == '-' then a[..|a| - 1] else a
  }

  /**
   * `slugify(text)`. Lower-casing covers the ASCII letters; the accent
   * stripping that follows it leaves ASCII text unchanged. Whatever the
   * input, the result is a well-formed slug, and no letter or digit of the
   * lower-cased text is lost, reordered or invented.
   */
  function Slugify(text: string): (r: string)
    ensures IsSlug(r)
    ensures SlugChars(r) == SlugChars(ToLowerAscii(text))
  {
    var collapsed := CollapseSeparators(ToLowerAscii(text));
    TrimDashesMakesSlug(collapsed);
    CollapseKeepsSlugChars(ToLowerAscii(text));
    TrimDashesKeepsSlugChars(collapsed);
    TrimDashes(collapsed)
  }

  /** A well-formed slug: `[a-z0-9]` words joined by single dashes. */
  predicate IsSlug(s: string)
  {
    && (forall i :: 0 <= i < |s| ==> IsSlugChar(s[i]) || s[i] == '-')
    && (forall i :: 0 <= i < |s| - 1 ==> !(s[i] == '-' && s[i + 1] == '-'))
    && (s != [] ==> s[0] != '-' && s[|s| - 1] != '-')
  }

  /** The `[a-z0-9]` characters of a string, in order. */
  function SlugChars(s: string): string
  {
    if s == [] then [] else (if IsSlugChar(s[0]) then [s[0]] else []) + SlugChars(s[1..])
  }

  lemma TrimDashesMakesSlug(s: string)
    requires forall i :: 0 <= i < |s| ==> IsSlugChar(s[i]) || s[i] == '-'
    requires forall i :: 0 <= i < |s| - 1 ==> !(s[i] == '-' && s[i + 1] == '-')
    ensures IsSlug(TrimDashes(s))
  {
    var a := if s != [] && s[0] == '-' then s[1..] else s;
    assert a != [] ==> a[0] != '-' by {
      if a != [] && s != [] && s[0] == '-' {
        assert a[0] == s[1];
      }
    }
    var r := TrimDashes(s);
    if a != [] && a[|a| - 1] == '-' && r != [] {
      assert r[|r| - 1] == a[|a| - 2];
    }
  }

  lemma SlugCharsConcat(a: string, b: string)
    ensures SlugChars(a + b) == SlugChars(a) + SlugChars(b)
  {
    if a != [] {
      assert (a + b)[0] == a[0] && (a + b)[1..] == a[1..] + b;
      SlugCharsConcat(a[1..], b);
      var head := if IsSlugChar(a[0]) then [a[0]] else [];
      assert SlugChars(a + b) == head + SlugChars(a[1..] + b);
    } else {
      assert a + b == b;
    }
  }

  lemma {:induction false} DropSeparatorsKeepsSlugChars(s: string)
    ensures SlugChars(DropSeparators(s)) == SlugChars(s)
  {
    if s != [] && !IsSlugChar(s[0]) {
      DropSeparatorsKeepsSlugChars(s[1..]);
    }
  }

  lemma {:induction false} CollapseKeepsSlugChars(s: string)
    ensures SlugChars(CollapseSeparators(s)) == SlugChars(s)
    decreases |s|
  {
    if s != [] {
      if IsSlugChar(s[0]) {
        CollapseKeepsSlugChars(s[1..]);
        SlugCharsConcat([s[0]], CollapseSeparators(s[1..]));
      } else {
        var d := DropSeparators(s[1..]);
        CollapseKeepsSlugChars(d);
        DropSeparatorsKeepsSlugChars(s[1..]);
        SlugCharsConcat("-", CollapseSeparators(d));
      }
    }
  }

  lemma TrimDashesKeepsSlugChars(s: string)
    ensures SlugChars(TrimDashes(s)) == SlugChars(s)
  {
    var a := if s != [] && s[0] == '-' then s[1..] else s;
    assert SlugChars(a) == SlugChars(s);
    if a != [] && a[|a| - 1] == '-' {
      LastDashCarriesNoSlugChar(a);
    }
  }

  lemma LastDashCarriesNoSlugChar(a: string)
    requires a != [] && a[|a| - 1] == '-'
    ensures SlugChars(a[..|a| - 1]) == SlugChars(a)
  {
    SlugCharsConcat(a[..|a| - 1], "-");
    assert a == a[..|a| - 1] + "-";
  }

  /** A slug made of dashes only is empty. */
  lemma SlugWithoutLetters(s: string)
    requires IsSlug(s) && SlugChars(s) == []
    ensures s == []
  {
    if s != [] {
      assert false;
    }
  }

  /** `slugify` gives the empty string exactly when the lower-cased text has no letter or digit. */
  lemma SlugifyEmpty(text: string)
    ensures Slugify(text) == [] <==> SlugChars(ToLowerAscii(text)) == []
  {
    if SlugChars(ToLowerAscii(text)) == [] {
      SlugWithoutLetters(Slugify(text));
    }
  }

  lemma {:induction false} CollapseOfSlugText(s: string)
    requires forall i :: 0 <= i < |s| ==> IsSlugChar(s[i]) || s[i] == '-'
    requires forall i :: 0 <= i < |s| - 1 ==> !(s[i] == '-' && s[i + 1] == '-')
    ensures CollapseSeparators(s) == s
  {
    if s != [] {
      CollapseOfSlugText(s[1..]);
      if !IsSlugChar(s[0]) {
        assert s[1..] != [] ==> IsSlugChar(s[1]);
        assert DropSeparators(s[1..]) == s[1..];
      }
    }
  }

  /** A well-formed slug is its own slug. */
  lemma SlugifySlug(s: string)
    requires IsSlug(s)
    ensures Slugify(s) == s
  {
    assert ToLowerAscii(s) == s;
    CollapseOfSlugText(s);
  }

  /** Slugifying twice is slugifying once. */
  lemma SlugifyIdempotent(text: string)
    ensures Slugify(Slugify(text)) == Slugify(text)
  {
    SlugifySlug(Slugify(text));
  }

  // ---------------------------------------------------------------------
  // Points and levels
  // ---------------------------------------------------------------------

  /**
   * `calculatePoints(type)`: 10 for a synchronisation, 5 for a correction,
   * 3 for a validation, and 0 for any other kind.
   */
  function CalculatePoints(kind: string): (p: nat)
    ensures p > 0 <==> kind in {"sync", "correction", "validation"}
    ensures p <= 10
  {
    match kind
    case "sync" => 10
    case "correction" => 5
    case "validation" => 3
    case _ => 0
  }

  /** A synchronisation earns more than a correction, which earns more than a validation. */
  lemma PointsRankKinds()
    ensures CalculatePoints("sync") > CalculatePoints("correction") > CalculatePoints("validation") > 0
  {
  }

  /** `calculateLevel(points)`: level 1 below 50 points, 2 below 200, 3 below 500, else 4. */
  function CalculateLevel(points: int): (level: int)
    ensures 1 <= level <= 4
    ensures level == 1 + (if points >= 50 then 1 else 0) + (if points >= 200 then 1 else 0)
                       + (if points >= 500 then 1 else 0)
  {
    if points < 50 then 1
    else if points < 200 then 2
    else if points < 500 then 3
    else 4
  }

  /** More points never lower the level. */
  lemma LevelMonotone(p: int, q: int)
    requires p <= q
    ensures CalculateLevel(p) <= CalculateLevel(q)
  {
  }

  /** `getLevelName(level)`. */
  function GetLevelName(level: int): (name: string)
    ensures name == "Inconnu" <==> !(1 <= level <= 4)
  {
    match level
    case 1 => "Débutant"
    case 2 => "Contributeur"
    case 3 => "Expert"
    case 4 => "Ambassadeur"
    case _ => "Inconnu"
  }

  /** The four levels have four different names. */
  lemma LevelNamesDistinct(a: int, b: int)
    requires 1 <= a <= 4 && 1 <= b <= 4 && a != b
    ensures GetLevelName(a) != GetLevelName(b)
  {
  }

  /** Every level reached through points has a proper name. */
  lemma CalculatedLevelIsNamed(points: int)
    ensures GetLevelName(CalculateLevel(points)) != "Inconnu"
  {
  }
}
