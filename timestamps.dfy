/** Timestamps as the plugin reads them: a regular-expression substitution
    that removes a time-zone suffix, followed by
    `datetime.strptime(s, '%Y-%m-%dT%H:%M:%S')`. */
module Timestamps {
  import opened Wrappers
  import opened PyStrings

  /** A naive (time-zone-less) date and time of day. */
  datatype DateTime = DateTime(year: int, month: int, day: int, hour: int, minute: int, second: int)

  predicate IsLeapYear(y: int)
  {
    y % 4 == 0 && (y % 100 != 0 || y % 400 == 0)
  }

  function DaysInMonth(y: int, m: int): int
    requires 1 <= m <= 12
  {
    if m == 2 then (if IsLeapYear(y) then 29 else 28)
    else if m == 4 || m == 6 || m == 9 || m == 11 then 30
    else 31
  }

  /** The values `datetime.datetime` accepts. */
  predicate Valid(t: DateTime)
  {
    && 1 <= t.year <= 9999
    && 1 <= t.month <= 12
    && 1 <= t.day <= DaysInMonth(t.year, t.month)
    && 0 <= t.hour < 24
    && 0 <= t.minute < 60
    && 0 <= t.second < 60
  }

  predicate IsDigit(c: char)
  {
    '0' <= c <= '9'
  }

  function DigitChar(d: int): char
    requires 0 <= d < 10
  {
    ('0' as int + d) as char
  }

  function DigitValue(c: char): int
    requires IsDigit(c)
  {
    c as int - '0' as int
  }

  function Two(s: string, i: nat): int
    requires i + 2 <= |s| && IsDigit(s[i]) && IsDigit(s[i + 1])
  {
    10 * DigitValue(s[i]) + DigitValue(s[i + 1])
  }

  function Four(s: string, i: nat): int
    requires i + 4 <= |s| && forall k :: i <= k < i + 4 ==> IsDigit(s[k])
  {
    100 * Two(s, i) + Two(s, i + 2)
  }

  function Pad2(n: int): string
    requires 0 <= n < 100
  {
    [DigitChar(n / 10), DigitChar(n % 10)]
  }

  function Pad4(n: int): string
    requires 0 <= n < 10000
  {
    Pad2(n / 100) + Pad2(n % 100)
  }

  /** Positions of the fixed-width shape `YYYY-MM-DDTHH:MM:SS` that hold a digit. */
  predicate IsDigitPosition(k: int)
  {
    0 <= k < 19 && k != 4 && k != 7 && k != 10 && k != 13 && k != 16
  }

  predicate HasShape(s: string)
  {
    && |s| == 19
    && s[4] == '-' && s[7] == '-' && s[10] == 'T' && s[13] == ':' && s[16] == ':'
    && forall k :: 0 <= k < 19 && IsDigitPosition(k) ==> IsDigit(s[k])
  }

  /** `strftime('%Y-%m-%dT%H:%M:%S')`. */
  function Format(t: DateTime): (s: string)
    requires Valid(t)
    ensures HasShape(s)
  {
    Pad4(t.year) + "-" + Pad2(t.month) + "-" + Pad2(t.day) + "T"
    + Pad2(t.hour) + ":" + Pad2(t.minute) + ":" + Pad2(t.second)
  }

  /** `datetime.strptime(s, '%Y-%m-%dT%H:%M:%S')` on zero-padded input;
      `None` stands for the `ValueError` it raises. A parsed value prints
      back to exactly the text it came from. */
  function Parse(s: string): (r: Option<DateTime>)
    ensures r.Some? ==> Valid(r.value) && Format(r.value) == s
  {
    if !HasShape(s) then None
    else
      var t := DateTime(Four(s, 0), Two(s, 5), Two(s, 8), Two(s, 11), Two(s, 14), Two(s, 17));
      if Valid(t) then
        FormatParsed(s, t);
        Some(t)
      else None
  }

  lemma Pad2Two(s: string, i: nat)
    requires i + 2 <= |s| && IsDigit(s[i]) && IsDigit(s[i + 1])
    ensures Pad2(Two(s, i)) == s[i..i + 2]
  {
    var a, b := DigitValue(s[i]), DigitValue(s[i + 1]);
    assert (10 * a + b) / 10 == a && (10 * a + b) % 10 == b;
  }

  lemma Pad4Four(s: string, i: nat)
    requires i + 4 <= |s| && forall k :: i <= k < i + 4 ==> IsDigit(s[k])
    ensures Pad4(Four(s, i)) == s[i..i + 4]
  {
    var a, b := Two(s, i), Two(s, i + 2);
    assert (100 * a + b) / 100 == a && (100 * a + b) % 100 == b;
    Pad2Two(s, i);
    Pad2Two(s, i + 2);
  }

  lemma FormatParsed(s: string, t: DateTime)
    requires HasShape(s) && Valid(t)
    requires t == DateTime(Four(s, 0), Two(s, 5), Two(s, 8), Two(s, 11), Two(s, 14), Two(s, 17))
    ensures Format(t) == s
  {
    assert IsDigitPosition(0) && IsDigitPosition(1) && IsDigitPosition(2) && IsDigitPosition(3);
    Pad4Four(s, 0);
    assert IsDigitPosition(5) && IsDigitPosition(6);
    Pad2Two(s, 5);
    assert IsDigitPosition(8) && IsDigitPosition(9);
    Pad2Two(s, 8);
    assert IsDigitPosition(11) && IsDigitPosition(12);
    Pad2Two(s, 11);
    assert IsDigitPosition(14) && IsDigitPosition(15);
    Pad2Two(s, 14);
    assert IsDigitPosition(17) && IsDigitPosition(18);
    Pad2Two(s, 17);
    assert s == s[0..4] + "-" + s[5..7] + "-" + s[8..10] + "T" + s[11..13] + ":" + s[14..16] + ":" + s[17..19];
  }

  /** Parsing what `Format` printed gives back the same value. */
  lemma ParseFormat(t: DateTime)
    requires Valid(t)
    ensures Parse(Format(t)) == Some(t)
  {
    var s := Format(t);
    assert Four(s, 0) == t.year by {
      assert s[0..4] == Pad4(t.year);
      assert s[0..2] == Pad2(t.year / 100) && s[2..4] == Pad2(t.year % 100);
      TwoPad2(s, 0, t.year / 100);
      TwoPad2(s, 2, t.year % 100);
    }
    assert Two(s, 5) == t.month && Two(s, 8) == t.day by {
      assert s[5..7] == Pad2(t.month) && s[8..10] == Pad2(t.day);
      TwoPad2(s, 5, t.month);
      TwoPad2(s, 8, t.day);
    }
    assert Two(s, 11) == t.hour && Two(s, 14) == t.minute && Two(s, 17) == t.second by {
      assert s[11..13] == Pad2(t.hour) && s[14..16] == Pad2(t.minute) && s[17..19] == Pad2(t.second);
      TwoPad2(s, 11, t.hour);
      TwoPad2(s, 14, t.minute);
      TwoPad2(s, 17, t.second);
    }
  }

  lemma TwoPad2(s: string, i: nat, n: int)
    requires 0 <= n < 100 && i + 2 <= |s| && s[i..i + 2] == Pad2(n)
    ensures IsDigit(s[i]) && IsDigit(s[i + 1]) && Two(s, i) == n
  {
    assert s[i] == s[i..i + 2][0] && s[i + 1] == s[i..i + 2][1];
  }

  // ---------------------------------------------------------------------
  // Removing the time-zone suffix

  /** The number of digits at the end of `t`. */
  function TrailingDigits(t: string): (k: nat)
    ensures k <= |t|
    ensures forall i :: |t| - k <= i < |t| ==> IsDigit(t[i])
    ensures k < |t| ==> !IsDigit(t[|t| - k - 1])
  {
    if |t| == 0 || !IsDigit(t[|t| - 1]) then 0
    else 1 + TrailingDigits(t[..|t| - 1])
  }

  /** Removes the optional group `(\.[0-9]+)?` that may stand right before
      the offset: a `.` followed by the digits that end `t`. */
  function DropFraction(t: string): (r: string)
    ensures r <= t
  {
    var k := TrailingDigits(t);
    if 0 < k < |t| && t[|t| - k - 1] == '.' then t[..|t| - k - 1] else t
  }

  /** An offset `+0H:00` matching `\+0[0-9]:00`. */
  predicate IsSingleDigitOffset(u: string)
  {
    |u| == 6 && u[0] == '+' && u[1] == '0' && IsDigit(u[2]) && u[3] == ':' && u[4] == '0' && u[5] == '0'
  }

  /** `re.sub('((\.[0-9]+)?\+0[0-9]:00|Z)$', '', s)` on an OPDS `updated`
      value: a final `Z`, or a final `+0H:00` together with a fraction of a
      second right before it, is removed; anything else is left alone. */
  function StripFeedZone(s: string): (r: string)
    ensures r <= s
  {
    if EndsWith(s, "Z") then s[..|s| - 1]
    else if |s| >= 6 && IsSingleDigitOffset(s[|s| - 6..]) then DropFraction(s[..|s| - 6])
    else s
  }

  /** `re.sub('(\.[0-9]+)?\+00:00$', '', s)` on a timestamp of calibre's
      REST interface. */
  function StripUtcOffset(s: string): (r: string)
    ensures r <= s
  {
    if EndsWith(s, "+00:00") then DropFraction(s[..|s| - 6]) else s
  }

  /** The `updated` value assumed for an entry that has none. */
  const DefaultUpdated: string := "1980-01-01T00:00:00+00:00"

  /** The timestamp of an OPDS entry; `None` stands for the `ValueError`
      of `strptime`. */
  function EntryTimestamp(updated: Option<string>): (r: Option<DateTime>)
    ensures r.Some? ==> Valid(r.value) && Format(r.value) <= (if updated.Some? then updated.value else DefaultUpdated)
  {
    Parse(StripFeedZone(if updated.Some? then updated.value else DefaultUpdated))
  }

  /** The timestamp of a record of calibre's REST interface. */
  function RestTimestamp(raw: string): (r: Option<DateTime>)
    ensures r.Some? ==> Valid(r.value) && Format(r.value) <= raw
  {
    Parse(StripUtcOffset(raw))
  }

  // ---------------------------------------------------------------------
  // Properties

  predicate AllDigits(ds: string)
  {
    forall i :: 0 <= i < |ds| ==> IsDigit(ds[i])
  }

  /** The fraction the feed regular expression accepts: empty, or `.`
      followed by one or more digits. */
  predicate IsFraction(f: string)
  {
    f == "" || (|f| >= 2 && f[0] == '.' && AllDigits(f[1..]))
  }

  lemma {:induction false} TrailingDigitsAfterDot(a: string, ds: string)
    requires AllDigits(ds)
    ensures TrailingDigits(a + "." + ds) == |ds|
    decreases |ds|
  {
    var t := a + "." + ds;
    if |ds| == 0 {
      assert t[|t| - 1] == '.';
    } else {
      assert t[..|t| - 1] == a + "." + ds[..|ds| - 1];
      TrailingDigitsAfterDot(a, ds[..|ds| - 1]);
    }
  }

  lemma DropFractionOfFormat(t: DateTime, f: string)
    requires Valid(t) && IsFraction(f)
    ensures DropFraction(Format(t) + f) == Format(t)
  {
    var s := Format(t);
    if f == "" {
      assert s + f == s;
      forall i | 0 <= i < |s| ensures s[i] != '.' {
        if IsDigitPosition(i) { assert IsDigit(s[i]); }
      }
    } else {
      assert s + f == s + "." + f[1..];
      TrailingDigitsAfterDot(s, f[1..]);
      assert (s + f)[..|s|] == s;
    }
  }

  /** Every suffix the feed regular expression is meant for is removed, so
      that a well-formed timestamp followed by `Z`, `+0H:00` or
      `.fraction+0H:00` parses to the same naive date and time. */
  lemma StripFeedZoneOfSuffix(t: DateTime, f: string, off: string)
    requires Valid(t) && IsFraction(f) && IsSingleDigitOffset(off)
    ensures StripFeedZone(Format(t) + "Z") == Format(t)
    ensures StripFeedZone(Format(t) + f + off) == Format(t)
    ensures EntryTimestamp(Some(Format(t) + "Z")) == Some(t)
    ensures EntryTimestamp(Some(Format(t) + f + off)) == Some(t)
  {
    var s := Format(t);
    assert (s + "Z")[..|s + "Z"| - 1] == s;
    var u := s + f + off;
    assert u[|u| - 6..] == off;
    assert u[..|u| - 6] == s + f;
    assert !EndsWith(u, "Z") by { assert u[|u| - 1] == off[5]; }
    DropFractionOfFormat(t, f);
    ParseFormat(t);
  }

  /** The same for the REST interface's `+00:00` suffix. */
  lemma StripUtcOffsetOfSuffix(t: DateTime, f: string)
    requires Valid(t) && IsFraction(f)
    ensures RestTimestamp(Format(t) + f + "+00:00") == Some(t)
    ensures RestTimestamp(Format(t)) == Some(t)
  {
    var s := Format(t);
    var u := s + f + "+00:00";
    assert u[|u| - 6..] == "+00:00";
    assert u[..|u| - 6] == s + f;
    DropFractionOfFormat(t, f);
    ParseFormat(t);
    assert !EndsWith(s, "+00:00") by { assert s[|s| - 1] == s[18] && IsDigitPosition(18); }
  }

  /** A missing `updated` element gives 1 January 1980, midnight. */
  lemma DefaultTimestamp()
    ensures EntryTimestamp(None) == Some(DateTime(1980, 1, 1, 0, 0, 0))
  {
    var t := DateTime(1980, 1, 1, 0, 0, 0);
    assert Format(t) + "" + "+00:00" == DefaultUpdated;
    StripFeedZoneOfSuffix(t, "", "+00:00");
  }

  /** Both spellings of the same instant read as `2021-03-01T10:00:00`. */
  lemma FractionAndZuluExamples()
    ensures EntryTimestamp(Some("2021-03-01T10:00:00.123+02:00")) == Some(DateTime(2021, 3, 1, 10, 0, 0))
    ensures EntryTimestamp(Some("2021-03-01T10:00:00Z")) == Some(DateTime(2021, 3, 1, 10, 0, 0))
  {
    var t := DateTime(2021, 3, 1, 10, 0, 0);
    FormatExample();
    assert "2021-03-01T10:00:00" + ".123" + "+02:00" == "2021-03-01T10:00:00.123+02:00";
    assert "2021-03-01T10:00:00" + "Z" == "2021-03-01T10:00:00Z";
    StripFeedZoneOfSuffix(t, ".123", "+02:00");
  }

  lemma FormatExample()
    ensures Format(DateTime(2021, 3, 1, 10, 0, 0)) == "2021-03-01T10:00:00"
  {
    assert Pad2(20) == "20" && Pad2(21) == "21";
    assert Pad4(2021) == "2021";
    assert Pad2(3) == "03" && Pad2(1) == "01" && Pad2(10) == "10" && Pad2(0) == "00";
  }

  /** Suffixes outside the regular expression survive and make `strptime`
      fail: a fraction before `Z`, and a negative offset. */
  lemma UnstrippedSuffixExamples()
    ensures EntryTimestamp(Some("2021-03-01T10:00:00.123Z")) == None
    ensures EntryTimestamp(Some("2021-03-01T10:00:00-05:00")) == None
  {
    var a := "2021-03-01T10:00:00.123Z";
    assert EndsWith(a, "Z");
    assert |StripFeedZone(a)| == 23;
    var b := "2021-03-01T10:00:00-05:00";
    assert !EndsWith(b, "Z") && !IsSingleDigitOffset(b[|b| - 6..]);
    assert |StripFeedZone(b)| == 25;
  }
}
