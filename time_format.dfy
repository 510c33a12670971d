/** The clock labels shown next to each bookmark: `formatTimestamp` of the
    popup and of the all-bookmarks page (`MM:SS`, both fields zero-padded) and
    `formatTime` of the video page (`M:SS`, minutes unpadded). */
module TimeFormat {
  import opened BookmarkModel

  predicate IsDigit(c: char) {
    '0' <= c <= '9'
  }

  predicate AllDigits(s: string) {
    forall i :: 0 <= i < |s| ==> IsDigit(s[i])
  }

  function DigitChar(d: nat): (c: char)
    requires d < 10
    ensures IsDigit(c) && c as int - '0' as int == d
  {
    ('0' as int + d) as char
  }

  /** The number a string of decimal digits denotes; leading zeros allowed. */
  function DigitsValue(s: string): nat
    requires AllDigits(s)
  {
    if s == [] then 0
    else 10 * DigitsValue(s[..|s| - 1]) + (s[|s| - 1] as int - '0' as int)
  }

  /** `n.toString()` for a non-negative integer. */
  function Decimal(n: nat): (r: string)
    ensures |r| >= 1
  {
    if n < 10 then [DigitChar(n)] else Decimal(n / 10) + [DigitChar(n % 10)]
  }

  /** The decimal digits of `n`: a non-empty digit string worth `n`, one
      digit long exactly below ten, with no leading zero unless `n` is zero. */
  lemma {:induction false} DecimalSpec(n: nat)
    ensures var r := Decimal(n);
      && 1 <= |r| && AllDigits(r) && DigitsValue(r) == n
      && (|r| == 1 <==> n < 10)
      && (r[0] != '0' || r == "0")
  {
    if n >= 10 {
      DecimalSpec(n / 10);
      var p := Decimal(n / 10);
      var c := DigitChar(n % 10);
      assert (p + [c])[..|p|] == p;
    }
  }

  /** `s.padStart(2, '0')`: zeros in front up to length two; never truncates. */
  function PadStart2(s: string): (r: string)
    ensures |r| == if |s| < 2 then 2 else |s|
  {
    if |s| >= 2 then s else if |s| == 1 then ['0'] + s else "00"
  }

  /** Padding only puts zeros in front: the input is the tail of the result. */
  lemma PadStart2Spec(s: string)
    ensures var r := PadStart2(s);
      && r[|r| - |s|..] == s
      && forall i :: 0 <= i < |r| - |s| ==> r[i] == '0'
  {
  }

  lemma {:induction false} LeadingZero(s: string)
    requires AllDigits(s)
    ensures AllDigits(['0'] + s) && DigitsValue(['0'] + s) == DigitsValue(s)
    decreases |s|
  {
    var z := ['0'] + s;
    if s != [] {
      LeadingZero(s[..|s| - 1]);
      assert z[..|z| - 1] == ['0'] + s[..|s| - 1];
    }
  }

  /** Zero-padding keeps a digit string's value. */
  lemma PadKeepsValue(s: string)
    requires AllDigits(s)
    ensures AllDigits(PadStart2(s)) && DigitsValue(PadStart2(s)) == DigitsValue(s)
  {
    if |s| == 1 {
      LeadingZero(s);
    } else if |s| == 0 {
      assert DigitsValue("00") == 10 * DigitsValue("0") + 0;
      assert DigitsValue("0") == 10 * DigitsValue("") + 0;
    }
  }

  /** Seconds below a minute render in at most two digits, so the padded
      seconds field is exactly two characters wide. */
  lemma SecondsFieldWidth(n: nat)
    requires n < 60
    ensures |PadStart2(Decimal(n))| == 2
  {
    DecimalSpec(n);
    if n >= 10 {
      assert Decimal(n) == Decimal(n / 10) + [DigitChar(n % 10)];
    }
  }

  /** Joining a minutes field and a two-digit seconds field with ':' keeps
      both fields, and their values, recoverable from the ends of the label. */
  lemma ClockFields(minutes: string, secs: string, m: nat, s: nat)
    requires AllDigits(minutes) && DigitsValue(minutes) == m
    requires |secs| == 2 && AllDigits(secs) && DigitsValue(secs) == s
    ensures var r := minutes + ":" + secs;
      && |r| == |minutes| + 3 && r[|r| - 3] == ':'
      && r[..|r| - 3] == minutes && AllDigits(r[..|r| - 3]) && DigitsValue(r[..|r| - 3]) == m
      && r[|r| - 2..] == secs && AllDigits(r[|r| - 2..]) && DigitsValue(r[|r| - 2..]) == s
  {
    var r := minutes + ":" + secs;
    assert r[..|r| - 3] == minutes;
    assert r[|r| - 2..] == secs;
  }

  /** The seconds field of both labels: two digits of value `n mod 60`. */
  lemma SecondsField(n: nat)
    ensures var secs := PadStart2(Decimal(n % 60));
      |secs| == 2 && AllDigits(secs) && DigitsValue(secs) == n % 60
  {
    DecimalSpec(n % 60);
    PadKeepsValue(Decimal(n % 60));
    SecondsFieldWidth(n % 60);
  }

  /** `formatTimestamp(seconds)`: minutes and seconds, each padded to two digits. */
  function FormatTimestamp(seconds: nat): (clock: string)
    ensures |clock| >= 5
  {
    PadStart2(Decimal(seconds / 60)) + ":" + PadStart2(Decimal(seconds % 60))
  }

  /** The `MM:SS` label: a ':' three from the end, a minutes field of at
      least two digits worth `seconds div 60` (never truncated), and two
      seconds digits worth `seconds mod 60`. */
  lemma FormatTimestampFields(seconds: nat)
    ensures var r := FormatTimestamp(seconds);
      && 5 <= |r| && r[|r| - 3] == ':'
      && AllDigits(r[..|r| - 3]) && 2 <= |r[..|r| - 3]| && DigitsValue(r[..|r| - 3]) == seconds / 60
      && AllDigits(r[|r| - 2..]) && DigitsValue(r[|r| - 2..]) == seconds % 60
  {
    var minutes, secs := PadStart2(Decimal(seconds / 60)), PadStart2(Decimal(seconds % 60));
    assert 2 <= |minutes| && AllDigits(minutes) && DigitsValue(minutes) == seconds / 60 by {
      DecimalSpec(seconds / 60);
      PadKeepsValue(Decimal(seconds / 60));
    }
    assert |secs| == 2 && AllDigits(secs) && DigitsValue(secs) == seconds % 60 by {
      SecondsField(seconds);
    }
    ClockFields(minutes, secs, seconds / 60, seconds % 60);
  }

  /** `formatTime(seconds)`: unpadded minutes, seconds padded to two digits. */
  function FormatTime(seconds: nat): (clock: string)
    ensures |clock| >= 4
  {
    Decimal(seconds / 60) + ":" + PadStart2(Decimal(seconds % 60))
  }

  /** The `M:SS` label: a ':' three from the end, minutes worth `seconds div
      60` with no leading zero unless they are zero, and two seconds digits
      worth `seconds mod 60`. */
  lemma FormatTimeFields(seconds: nat)
    ensures var r := FormatTime(seconds);
      && 4 <= |r| && r[|r| - 3] == ':'
      && AllDigits(r[..|r| - 3]) && DigitsValue(r[..|r| - 3]) == seconds / 60
      && (r[0] != '0' || |r| == 4)
      && AllDigits(r[|r| - 2..]) && DigitsValue(r[|r| - 2..]) == seconds % 60
  {
    var minutes, secs := Decimal(seconds / 60), PadStart2(Decimal(seconds % 60));
    assert AllDigits(minutes) && DigitsValue(minutes) == seconds / 60 && (minutes[0] != '0' || |minutes| == 1) by {
      DecimalSpec(seconds / 60);
    }
    assert |secs| == 2 && AllDigits(secs) && DigitsValue(secs) == seconds % 60 by {
      SecondsField(seconds);
    }
    ClockFields(minutes, secs, seconds / 60, seconds % 60);
    assert (minutes + ":" + secs)[0] == minutes[0];
  }

  /** Reads an `M:SS` or `MM:SS` label back into seconds. */
  function ParseClock(text: string): Option<nat> {
    if |text| >= 4 && text[|text| - 3] == ':'
       && AllDigits(text[..|text| - 3]) && AllDigits(text[|text| - 2..])
       && DigitsValue(text[|text| - 2..]) < 60
    then Some(60 * DigitsValue(text[..|text| - 3]) + DigitsValue(text[|text| - 2..]))
    else None
  }

  /** A `formatTimestamp` label names exactly the second it was made from. */
  lemma FormatTimestampRoundTrip(seconds: nat)
    ensures ParseClock(FormatTimestamp(seconds)) == Some(seconds)
  {
    FormatTimestampFields(seconds);
  }

  /** A `formatTime` label names exactly the second it was made from. */
  lemma FormatTimeRoundTrip(seconds: nat)
    ensures ParseClock(FormatTime(seconds)) == Some(seconds)
  {
    FormatTimeFields(seconds);
  }

  /** The two formats agree on the seconds field and differ only in a
      leading zero on minutes below ten. */
  lemma {:induction false} FormatsDifferInMinutePadding(seconds: nat)
    ensures FormatTimestamp(seconds) == (if seconds / 60 < 10 then "0" else "") + FormatTime(seconds)
  {
    var m := Decimal(seconds / 60);
    var secs := PadStart2(Decimal(seconds % 60));
    var zero := if seconds / 60 < 10 then "0" else "";
    DecimalSpec(seconds / 60);
    assert PadStart2(m) == zero + m;
    PrefixClock(zero, m, secs);
  }

  lemma PrefixClock(prefix: string, minutes: string, secs: string)
    ensures prefix + (minutes + ":" + secs) == (prefix + minutes) + ":" + secs
  {
  }
}
