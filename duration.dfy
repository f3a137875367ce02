/**
 * `YouTubeDownloader._format_duration`: a length in seconds split with two
 * `divmod(_, 60)` steps and printed as "{h}h {m}m {s}s", or "{m}m {s}s"
 * when the hours are not positive. A reader for that text is the inverse
 * the printing is proved against.
 */
module Duration {
  import opened Wrappers
  import opened Decimal

  /**
   * The two `divmod(_, 60)` steps. Python's `divmod` floors, and Dafny's
   * `/` and `%` agree with it for the positive divisor 60, negative
   * lengths included.
   */
  function DurationParts(seconds: int): (p: (int, nat, nat))
    ensures p.0 * 3600 + p.1 * 60 + p.2 == seconds
    ensures p.1 < 60 && p.2 < 60
  {
    var minutes := seconds / 60;
    (minutes / 60, minutes % 60, seconds % 60)
  }

  /**
   * One field of the f-string: the number, its unit letter, then `rest`.
   * When the unit is not a digit, the reader gets the number and `rest`
   * back.
   */
  function Field(n: nat, unit: char, rest: string): (r: string)
    ensures !IsDigit(unit) ==> ParseField(r, unit) == Some((n, rest))
  {
    var d := NatToString(n);
    var r := d + [unit] + rest;
    if IsDigit(unit) then r
    else
      assert r == d + ([unit] + rest);
      LeadingDigitsOf(d, [unit] + rest);
      NatToStringRoundTrip(n);
      assert r[..|d|] == d && r[|d| + 1..] == rest;
      r
  }

  /**
   * f"{minutes}m {seconds}s", read back as minutes * 60 + seconds when
   * both fields are below 60, as those of `_format_duration` are.
   */
  function MinutesSecondsText(minutes: nat, secs: nat): (r: string)
    ensures ParseMinutesSeconds(r) == if minutes < 60 && secs < 60 then Some(minutes * 60 + secs) else None
  {
    var rest := " " + Field(secs, 's', "");
    assert rest[1..] == Field(secs, 's', "");
    Field(minutes, 'm', rest)
  }

  /** f"{h}h {m}m {s}s" when `h > 0`, else f"{m}m {s}s". */
  function DurationText(hours: int, minutes: nat, secs: nat): string
  {
    if hours > 0 then Field(hours, 'h', " " + MinutesSecondsText(minutes, secs))
    else MinutesSecondsText(minutes, secs)
  }

  /**
   * `_format_duration(seconds)`. Reading the text back gives the length; a
   * negative length, which always prints without hours, reads back as its
   * remainder modulo 3600.
   */
  function FormatDuration(seconds: int): (r: string)
    ensures ParseDuration(r) == Some(if seconds >= 0 then seconds else seconds % 3600)
  {
    var (h, m, s) := DurationParts(seconds);
    DurationPartsRoundTrip(seconds, h, m, s);
    DurationText(h, m, s)
  }

  /** The split is the only one with minutes and seconds below 60. */
  lemma DurationPartsUnique(seconds: int, h: int, m: nat, s: nat)
    requires h * 3600 + m * 60 + s == seconds
    requires m < 60 && s < 60
    ensures DurationParts(seconds) == (h, m, s)
  {
    var (h', m', s') := DurationParts(seconds);
    assert (h - h') * 3600 == (m' * 60 + s') - (m * 60 + s);
  }

  // ---------------------------------------------------------------------
  // Reading the text back

  /**
   * Reads "<digits><unit>" at the front of `s`: the number and the text
   * after the unit. Only digits as `str` prints them are accepted: no
   * leading zero except in "0".
   */
  function ParseField(s: string, unit: char): Option<(nat, string)>
  {
    var k := LeadingDigits(s);
    if 0 < k < |s| && s[k] == unit && Canonical(s[..k]) then Some((DigitsValue(s[..k]), s[k + 1..])) else None
  }

  /** Reads "{m}m {s}s", both fields below 60, as a number of seconds. */
  function ParseMinutesSeconds(s: string): Option<nat>
  {
    match ParseField(s, 'm')
    case None => None
    case Some((m, rest)) =>
      if |rest| >= 1 && rest[0] == ' ' then
        match ParseField(rest[1..], 's')
        case Some((secs, tail)) => if tail == [] && m < 60 && secs < 60 then Some(m * 60 + secs) else None
        case None => None
      else None
  }

  /** Reads "{h}h {m}m {s}s" with positive hours, or "{m}m {s}s", as a number of seconds. */
  function ParseDuration(s: string): Option<nat>
  {
    match ParseField(s, 'h')
    case None => ParseMinutesSeconds(s)
    case Some((h, rest)) =>
      if h > 0 && |rest| >= 1 && rest[0] == ' ' then
        match ParseMinutesSeconds(rest[1..])
        case Some(ms) => Some(h * 3600 + ms)
        case None => None
      else None
  }

  /** The text of a split is read back as the seconds it stands for, hours counted only when positive. */
  lemma DurationTextRoundTrip(h: int, m: nat, s: nat)
    requires m < 60 && s < 60
    ensures ParseDuration(DurationText(h, m, s)) == Some(if h > 0 then h * 3600 + m * 60 + s else m * 60 + s)
  {
    var ms := MinutesSecondsText(m, s);
    if h > 0 {
      var rest := " " + ms;
      assert rest[1..] == ms;
    } else {
      assert ParseField(ms, 'h') == None by {
        ParseFieldOtherUnit(m, 'm', 'h', " " + Field(s, 's', ""));
      }
    }
  }

  /** The text of the split of `seconds` reads back as `seconds`, or `seconds % 3600` when negative. */
  lemma DurationPartsRoundTrip(seconds: int, h: int, m: nat, s: nat)
    requires DurationParts(seconds) == (h, m, s)
    ensures ParseDuration(DurationText(h, m, s)) == Some(if seconds >= 0 then seconds else seconds % 3600)
  {
    var printed := if h > 0 then h * 3600 + m * 60 + s else m * 60 + s;
    assert ParseDuration(DurationText(h, m, s)) == Some(printed) by {
      DurationTextRoundTrip(h, m, s);
    }
    assert printed == if seconds >= 0 then seconds else seconds % 3600 by {
      PrintedValue(seconds);
    }
  }

  /** A printed field is not read under a different unit. */
  lemma ParseFieldOtherUnit(n: nat, unit: char, other: char, t: string)
    requires !IsDigit(unit) && other != unit
    ensures ParseField(Field(n, unit, t), other) == None
  {
    var d := NatToString(n);
    assert Field(n, unit, t) == d + ([unit] + t);
    LeadingDigitsOf(d, [unit] + t);
  }

  /**
   * The seconds the printed fields stand for: the length itself, or, for a
   * negative length, whose hours are never printed, the length modulo an
   * hour.
   */
  lemma PrintedValue(seconds: int)
    ensures var (h, m, s) := DurationParts(seconds);
      (if h > 0 then h * 3600 + m * 60 + s else m * 60 + s) == if seconds >= 0 then seconds else seconds % 3600
  {
    var (h, m, s) := DurationParts(seconds);
    if h <= 0 {
      var q, r := seconds / 3600, seconds % 3600;
      assert seconds == q * 3600 + r && 0 <= r < 3600;
      assert (h - q) * 3600 == r - (m * 60 + s);
    }
  }

  /** The hours field is printed exactly when the length is at least an hour. */
  lemma FormatDurationShowsHours(seconds: int)
    ensures 'h' in FormatDuration(seconds) <==> seconds >= 3600
  {
    var (h, m, s) := DurationParts(seconds);
    var mstr, sstr := NatToString(m), NatToString(s);
    assert 'h' !in mstr && 'h' !in sstr;
    var ms := MinutesSecondsText(m, s);
    assert ms == mstr + ['m', ' '] + sstr + ['s'];
    if h > 0 {
      assert FormatDuration(seconds)[|NatToString(h)|] == 'h';
    } else {
      assert FormatDuration(seconds) == ms;
    }
  }

  // ---------------------------------------------------------------------
  // The reader accepts only printed text, so the printed text is unique

  /** A field the reader accepts is the printed field of the number it read. */
  lemma ParseFieldSound(s: string, unit: char, n: nat, rest: string)
    requires ParseField(s, unit) == Some((n, rest))
    ensures s == Field(n, unit, rest)
  {
    var k := LeadingDigits(s);
    var d := s[..k];
    CanonicalRoundTrip(d);
    assert s == d + [unit] + rest;
  }

  /** Accepted "{m}m {s}s" text is the printed text of its two fields, both below 60. */
  lemma ParseMinutesSecondsSound(t: string, v: nat) returns (m: nat, secs: nat)
    requires ParseMinutesSeconds(t) == Some(v)
    ensures m < 60 && secs < 60 && v == m * 60 + secs
    ensures t == MinutesSecondsText(m, secs)
  {
    var mr := ParseField(t, 'm').value;
    m := mr.0;
    var rest := mr.1;
    ParseFieldSound(t, 'm', m, rest);
    var sr := ParseField(rest[1..], 's').value;
    secs := sr.0;
    ParseFieldSound(rest[1..], 's', secs, sr.1);
    assert rest == " " + rest[1..];
  }

  /**
   * Every text the reader accepts is what `_format_duration` prints for the
   * value read. With `FormatDuration`'s own contract this pins the printed
   * text: for a length n >= 0, `FormatDuration(n)` is the only text that
   * reads as n, so fields are unpadded, minutes and seconds are below 60,
   * and the hours appear only when positive.
   */
  lemma ParseDurationSound(t: string, v: nat)
    requires ParseDuration(t) == Some(v)
    ensures t == FormatDuration(v)
  {
    match ParseField(t, 'h')
    case None =>
      var m, secs := ParseMinutesSecondsSound(t, v);
      DurationPartsUnique(v, 0, m, secs);
    case Some((h, rest)) =>
      ParseFieldSound(t, 'h', h, rest);
      var m, secs := ParseMinutesSecondsSound(rest[1..], v - h * 3600);
      assert rest == " " + rest[1..];
      DurationPartsUnique(v, h, m, secs);
  }

  /** Two texts the reader accepts as the same length are the same text. */
  lemma ParseDurationInjective(a: string, b: string)
    requires ParseDuration(a).Some? && ParseDuration(a) == ParseDuration(b)
    ensures a == b
  {
    ParseDurationSound(a, ParseDuration(a).value);
    ParseDurationSound(b, ParseDuration(b).value);
  }

  /** 90 seconds print as "1m 30s", which reads back as 90. */
  lemma NinetySeconds()
    ensures FormatDuration(90) == "1m 30s" && ParseDuration("1m 30s") == Some(90)
  {
    assert DurationParts(90) == (0, 1, 30);
    assert NatToString(30) == NatToString(3) + ['0'];
    assert MinutesSecondsText(1, 30) == "1m 30s";
    assert ParseField("1m 30s", 'h') == None by {
      ParseFieldOtherUnit(1, 'm', 'h', " " + Field(30, 's', ""));
    }
  }

  /** A field of 60 or more is not read: "0m 90s" is no duration text. */
  lemma NoOverflowingField()
    ensures ParseDuration("0m 90s") == None
  {
    assert NatToString(90) == NatToString(9) + ['0'];
    assert MinutesSecondsText(0, 90) == "0m 90s";
    assert ParseField("0m 90s", 'h') == None by {
      ParseFieldOtherUnit(0, 'm', 'h', " " + Field(90, 's', ""));
    }
  }

  /** A padded field is not read: "01m 30s" is no duration text. */
  lemma NoPaddedField()
    ensures ParseDuration("01m 30s") == None
  {
    var t := "01m 30s";
    assert LeadingDigits(t) == 2 by {
      assert t == "01" + "m 30s";
      LeadingDigitsOf("01", "m 30s");
    }
    assert t[2] == 'm' && !Canonical(t[..2]);
  }
}
