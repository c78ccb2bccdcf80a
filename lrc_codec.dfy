/**
 * The LRC timestamp codec of `src/lib/utils.ts`: `formatLrcTime` renders a
 * time as `[mm:ss.xx]`, `parseLrcTime` reads the first such stamp out of a
 * string. Times are whole hundredths of a second, the precision of the
 * format.
 */
module LrcCodec {
  import opened Wrappers
  import opened JsString

  /** A time in hundredths of a second. */
  type Centis = nat

  /** The first time whose minutes need three digits: 100 minutes (6000 hundredths a minute). */
  const HundredMinutes: nat := 600000

  /** A number below 100 written with exactly two digits. */
  function TwoDigits(n: nat): (r: string)
    requires n < 100
    ensures |r| == 2 && AllDigits(r) && DecimalValue(r) == n
  {
    var r := [DigitChar(n / 10), DigitChar(n % 10)];
    assert r[..1][..0] == [];
    assert DecimalValue(r[..1]) == n / 10;
    r
  }

  /** `secs.toFixed(2)` for `secs` = `cs` hundredths, a non-negative number. */
  function ToFixed2(cs: nat): string
  {
    NatToDecimal(cs / 100) + "." + PadStart(NatToDecimal(cs % 100), 2, '0')
  }

  /** `mins.toString().padStart(2, '0')`: the minutes field of a stamp. */
  function MinutesField(t: Centis): string
  {
    PadStart(NatToDecimal(t / 6000), 2, '0')
  }

  /** `formatLrcTime(seconds)`. */
  function FormatLrcTime(t: Centis): string
  {
    "[" + MinutesField(t) + ":" + PadStart(ToFixed2(t % 6000), 5, '0') + "]"
  }

  /** A stamp assembled from its minutes, seconds and hundredths fields. */
  function Stamp(minutes: string, seconds: string, hundredths: string): string
  {
    "[" + minutes + ":" + seconds + "." + hundredths + "]"
  }

  lemma StampChars(m: string, a: string, b: string)
    requires |a| == 2 && |b| == 2
    ensures var r := Stamp(m, a, b);
      && |r| == |m| + 8 && r[0] == '[' && r[|m| + 1] == ':' && r[|m| + 4] == '.' && r[|m| + 7] == ']'
      && r[1..|m| + 1] == m && r[|m| + 2..|m| + 4] == a && r[|m| + 5..|m| + 7] == b
  {
  }

  /** The seconds part, `secs.toFixed(2).padStart(5, '0')`, for seconds below a minute. */
  lemma SecondsFieldLayout(cs: nat)
    requires cs < 6000
    ensures PadStart(ToFixed2(cs), 5, '0') == TwoDigits(cs / 100) + "." + TwoDigits(cs % 100)
  {
    ToFixed2Layout(cs);
    PaddedSecondsLayout(cs / 100, cs % 100);
  }

  lemma ToFixed2Layout(cs: nat)
    ensures ToFixed2(cs) == NatToDecimal(cs / 100) + "." + TwoDigits(cs % 100)
  {
    TwoDigitPadding(cs % 100);
  }

  lemma PaddedSecondsLayout(w: nat, h: nat)
    requires w < 60 && h < 100
    ensures PadStart(NatToDecimal(w) + "." + TwoDigits(h), 5, '0') == TwoDigits(w) + "." + TwoDigits(h)
  {
    NatToDecimalFacts(w);
    if w < 10 {
      OneDigitPadded(w);
      var fixed := NatToDecimal(w) + "." + TwoDigits(h);
      assert |fixed| == 4;
      PadStartFacts(fixed, 5, '0');
      assert PadStart(fixed, 5, '0') == ['0'] + fixed;
    } else {
      TwoDigitPadding(w);
    }
  }

  lemma OneDigitPadded(w: nat)
    requires w < 10
    ensures TwoDigits(w) == ['0'] + NatToDecimal(w)
  {
    NatToDecimalFacts(w);
  }

  lemma MinutesFieldLayout(t: Centis)
    ensures var m := MinutesField(t);
      && |m| >= 2 && AllDigits(m) && DecimalValue(m) == t / 6000
      && (|m| == 2 <==> t < HundredMinutes)
  {
    NatToDecimalFacts(t / 6000);
    PadStartFacts(NatToDecimal(t / 6000), 2, '0');
    ZeroPaddingKeepsValue(NatToDecimal(t / 6000), 2);
    var m := MinutesField(t);
    if |NatToDecimal(t / 6000)| < 2 {
      assert AllDigits(m) by {
        assert m == ['0'] + NatToDecimal(t / 6000);
      }
    }
  }

  /**
   * The layout of a formatted time: the minutes, padded to at least two
   * digits and never capped, then the seconds within the minute and the
   * hundredths, two digits each.
   */
  lemma FormatLrcTimeLayout(t: Centis)
    ensures var m := MinutesField(t);
      && |m| >= 2 && AllDigits(m) && DecimalValue(m) == t / 6000
      && (|m| == 2 <==> t < HundredMinutes)
      && FormatLrcTime(t)
         == Stamp(m, TwoDigits(t % 6000 / 100), TwoDigits(t % 6000 % 100))
  {
    MinutesFieldLayout(t);
    var secs := t % 6000;
    SecondsFieldLayout(secs);
    StampOfParts(MinutesField(t), PadStart(ToFixed2(secs), 5, '0'), TwoDigits(secs / 100), TwoDigits(secs % 100));
  }

  lemma StampOfParts(m: string, p: string, a: string, b: string)
    requires p == a + "." + b
    ensures "[" + m + ":" + p + "]" == Stamp(m, a, b)
  {
  }

  // ---------------------------------------------------------------------
  // Reading a stamp
  // ---------------------------------------------------------------------

  /** The ten characters from `i` match `\[(\d{2}):(\d{2})\.(\d{2})\]`. */
  predicate IsStampAt(s: string, i: nat)
  {
    && i + 10 <= |s|
    && s[i] == '[' && IsDigit(s[i + 1]) && IsDigit(s[i + 2])
    && s[i + 3] == ':' && IsDigit(s[i + 4]) && IsDigit(s[i + 5])
    && s[i + 6] == '.' && IsDigit(s[i + 7]) && IsDigit(s[i + 8])
    && s[i + 9] == ']'
  }

  /** `mins * 60 + secs + hundredths / 100` for the stamp at `i`, in hundredths. */
  function StampValue(s: string, i: nat): Centis
    requires IsStampAt(s, i)
  {
    var mins := DecimalValue(s[i + 1..i + 3]);
    var secs := DecimalValue(s[i + 4..i + 6]);
    var hundredths := DecimalValue(s[i + 7..i + 9]);
    mins * 6000 + secs * 100 + hundredths
  }

  /** Where an unanchored search for a stamp, starting at `from`, finds the leftmost one. */
  function FirstStamp(s: string, from: nat): (r: Option<nat>)
    ensures r.Some? ==> from <= r.value && IsStampAt(s, r.value)
    ensures r.Some? ==> forall j: nat :: from <= j < r.value ==> !IsStampAt(s, j)
    ensures r.None? ==> forall j: nat :: from <= j ==> !IsStampAt(s, j)
    decreases |s| - from
  {
    if from + 10 > |s| then None
    else if IsStampAt(s, from) then Some(from)
    else FirstStamp(s, from + 1)
  }

  /**
   * `parseLrcTime(timeStr)`: the value of the leftmost stamp anywhere in the
   * string, and 0 when there is none.
   */
  function ParseLrcTime(s: string): Centis
  {
    match FirstStamp(s, 0)
    case None => 0
    case Some(i) => StampValue(s, i)
  }

  /** `parseLrcTime` gives 0 without a stamp, and otherwise the value of the leftmost stamp. */
  lemma ParseLrcTimeReadsFirstStamp(s: string)
    ensures (forall j: nat :: !IsStampAt(s, j)) ==> ParseLrcTime(s) == 0
    ensures forall i: nat :: IsStampAt(s, i) && (forall j: nat :: j < i ==> !IsStampAt(s, j))
                             ==> ParseLrcTime(s) == StampValue(s, i)
  {
    var r := FirstStamp(s, 0);
    if r.Some? {
      forall i: nat | IsStampAt(s, i) && (forall j: nat :: j < i ==> !IsStampAt(s, j))
        ensures ParseLrcTime(s) == StampValue(s, i)
      {
        assert !(r.value < i) && !(i < r.value);
      }
    }
  }

  lemma SplitCentis(t: Centis)
    ensures t / 6000 * 6000
            + t % 6000 / 100 * 100
            + t % 6000 % 100 == t
  {
    var secs := t % 6000;
    assert t == t / 6000 * 6000 + secs;
    assert secs == secs / 100 * 100 + secs % 100;
  }

  /** A stamp built from three two-digit fields reads back as their value. */
  lemma StampRead(m: string, a: string, b: string)
    requires |m| == 2 && |a| == 2 && |b| == 2 && AllDigits(m) && AllDigits(a) && AllDigits(b)
    ensures IsStampAt(Stamp(m, a, b), 0)
    ensures StampValue(Stamp(m, a, b), 0) == DecimalValue(m) * 6000 + DecimalValue(a) * 100 + DecimalValue(b)
  {
    StampChars(m, a, b);
    var r := Stamp(m, a, b);
    assert r[1] == m[0] && r[2] == m[1];
    assert r[4] == a[0] && r[5] == a[1];
    assert r[7] == b[0] && r[8] == b[1];
  }

  lemma StampOfTimeFields(t: Centis, m: string, a: string, b: string)
    requires |m| == 2 && |a| == 2 && |b| == 2 && AllDigits(m) && AllDigits(a) && AllDigits(b)
    requires DecimalValue(m) == t / 6000 && DecimalValue(a) == t % 6000 / 100 && DecimalValue(b) == t % 6000 % 100
    ensures |Stamp(m, a, b)| == 10 && IsStampAt(Stamp(m, a, b), 0) && StampValue(Stamp(m, a, b), 0) == t
  {
    StampRead(m, a, b);
    SplitCentis(t);
  }

  /** A time under 100 minutes formats to a ten-character stamp that reads back exactly. */
  lemma FormattedIsStamp(t: Centis)
    requires t < HundredMinutes
    ensures |FormatLrcTime(t)| == 10
    ensures IsStampAt(FormatLrcTime(t), 0) && StampValue(FormatLrcTime(t), 0) == t
  {
    FormatLrcTimeLayout(t);
    var secs := t % 6000;
    StampOfTimeFields(t, MinutesField(t), TwoDigits(secs / 100), TwoDigits(secs % 100));
  }

  /** Decoding inverts encoding for every time under 100 minutes. */
  lemma ParseFormatRoundTrip(t: Centis)
    requires t < HundredMinutes
    ensures ParseLrcTime(FormatLrcTime(t)) == t
  {
    FormattedIsStamp(t);
    ParseLrcTimeReadsFirstStamp(FormatLrcTime(t));
  }

  /** A stamp whose minutes field is three digits or longer contains no two-digit stamp anywhere. */
  lemma NoStampInLongStamp(m: string, a: string, b: string)
    requires |m| >= 3 && |a| == 2 && |b| == 2 && AllDigits(m) && AllDigits(a) && AllDigits(b)
    ensures forall j: nat :: !IsStampAt(Stamp(m, a, b), j)
  {
    var r := Stamp(m, a, b);
    StampChars(m, a, b);
    assert r[3] == m[2];
    forall j: nat | 1 <= j < |r| ensures r[j] != '[' {
      if j <= |m| {
        assert r[j] == r[1..|m| + 1][j - 1] == m[j - 1];
      } else if |m| + 2 <= j < |m| + 4 {
        assert r[j] == r[|m| + 2..|m| + 4][j - |m| - 2];
      } else if |m| + 5 <= j < |m| + 7 {
        assert r[j] == r[|m| + 5..|m| + 7][j - |m| - 5];
      }
    }
  }

  /**
   * From 100 minutes on the minutes field has three or more digits, which
   * the two-digit pattern cannot match: the formatted time reads back as 0.
   */
  lemma ParseFormatBeyondHundredMinutes(t: Centis)
    requires t >= HundredMinutes
    ensures ParseLrcTime(FormatLrcTime(t)) == 0
  {
    FormatLrcTimeLayout(t);
    var secs := t % 6000;
    NoStampInLongStamp(MinutesField(t), TwoDigits(secs / 100), TwoDigits(secs % 100));
    ParseLrcTimeReadsFirstStamp(FormatLrcTime(t));
  }
}
