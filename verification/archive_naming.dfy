/** Names of backup archives: `backup` writes `archive-%Y%m%d_%H%M%S`, to
    which the archiver appends `.tar.bz2`.  The clock reading is an input
    (a UTC `Timestamp`), and every field is printed zero-padded to a fixed
    width, which is what makes string order agree with time order. */
module ArchiveNaming {
  import opened Wrappers
  import opened StringOrder
  import ArchiveCatalog

  /** A UTC clock reading to the second (the format prints no fraction). */
  datatype Timestamp = Timestamp(year: int, month: int, day: int, hour: int, minute: int, second: int)

  predicate IsLeapYear(y: int) {
    y % 4 == 0 && (y % 100 != 0 || y % 400 == 0)
  }

  function DaysInMonth(y: int, m: int): int
    requires 1 <= m <= 12
  {
    if m == 2 then (if IsLeapYear(y) then 29 else 28)
    else if m == 4 || m == 6 || m == 9 || m == 11 then 30
    else 31
  }

  /** The range of a Python `datetime`: years 1 to 9999. */
  predicate Valid(t: Timestamp) {
    && 1 <= t.year <= 9999
    && 1 <= t.month <= 12
    && 1 <= t.day <= DaysInMonth(t.year, t.month)
    && 0 <= t.hour < 24
    && 0 <= t.minute < 60
    && 0 <= t.second < 60
  }

  /** Chronological order, as `datetime` compares two readings. */
  predicate Before(t1: Timestamp, t2: Timestamp) {
    || t1.year < t2.year
    || (t1.year == t2.year && t1.month < t2.month)
    || (t1.year == t2.year && t1.month == t2.month && t1.day < t2.day)
    || (t1.year == t2.year && t1.month == t2.month && t1.day == t2.day && t1.hour < t2.hour)
    || (t1.year == t2.year && t1.month == t2.month && t1.day == t2.day && t1.hour == t2.hour
        && t1.minute < t2.minute)
    || (t1.year == t2.year && t1.month == t2.month && t1.day == t2.day && t1.hour == t2.hour
        && t1.minute == t2.minute && t1.second < t2.second)
  }

  // ---------------------------------------------------------------------
  // Fixed-width decimal fields
  // ---------------------------------------------------------------------

  function Pow10(w: nat): nat {
    if w == 0 then 1 else 10 * Pow10(w - 1)
  }

  predicate IsDigit(c: char) {
    '0' <= c <= '9'
  }

  predicate AllDigits(s: string) {
    forall i :: 0 <= i < |s| ==> IsDigit(s[i])
  }

  function DigitChar(d: int): char
    requires 0 <= d < 10
  {
    ('0' as int + d) as char
  }

  /** `n` printed in exactly `w` digits with leading zeros, as a `%Y`
      (w = 4) or `%m`, `%d`, `%H`, `%M`, `%S` (w = 2) directive prints it. */
  function Padded(n: nat, w: nat): (s: string)
    requires n < Pow10(w)
    ensures |s| == w && AllDigits(s)
  {
    if w == 0 then []
    else Padded(n / 10, w - 1) + [DigitChar(n % 10)]
  }

  /** The number a digit string spells. */
  function Value(s: string): nat
    requires AllDigits(s)
  {
    if |s| == 0 then 0
    else Value(s[..|s| - 1]) * 10 + (s[|s| - 1] as int - '0' as int)
  }

  lemma {:induction false} ValueOfPadded(n: nat, w: nat)
    requires n < Pow10(w)
    ensures Value(Padded(n, w)) == n
  {
    if w > 0 {
      ValueOfPadded(n / 10, w - 1);
      var s := Padded(n, w);
      assert s[..|s| - 1] == Padded(n / 10, w - 1);
    }
  }

  lemma {:induction false} PaddedOfValue(s: string)
    requires AllDigits(s)
    ensures Value(s) < Pow10(|s|)
    ensures Padded(Value(s), |s|) == s
  {
    if 0 < |s| {
      var init := s[..|s| - 1];
      PaddedOfValue(init);
      var d := s[|s| - 1] as int - '0' as int;
      assert Value(s) / 10 == Value(init) && Value(s) % 10 == d;
      assert s == init + [s[|s| - 1]];
    }
  }

  lemma PaddedInjective(n: nat, m: nat, w: nat)
    requires n < Pow10(w) && m < Pow10(w)
    ensures Padded(n, w) == Padded(m, w) <==> n == m
  {
    ValueOfPadded(n, w);
    ValueOfPadded(m, w);
  }

  /** Fixed-width fields compare as strings exactly as their numbers do. */
  lemma {:induction false} PaddedOrder(n: nat, m: nat, w: nat)
    requires n < Pow10(w) && m < Pow10(w)
    ensures Less(Padded(n, w), Padded(m, w)) <==> n < m
  {
    if w > 0 {
      var a, b := Padded(n / 10, w - 1), Padded(m / 10, w - 1);
      PaddedOrder(n / 10, m / 10, w - 1);
      PaddedInjective(n / 10, m / 10, w - 1);
      LessConcat(a, [DigitChar(n % 10)], b, [DigitChar(m % 10)]);
    } else {
      LessIrreflexive([]);
    }
  }

  // ---------------------------------------------------------------------
  // Archive names
  // ---------------------------------------------------------------------

  const NamePrefix := "archive-"

  function DateField(t: Timestamp): (s: string)
    requires Valid(t)
    ensures |s| == 8
  {
    Padded(t.year, 4) + Padded(t.month, 2) + Padded(t.day, 2)
  }

  function TimeField(t: Timestamp): (s: string)
    requires Valid(t)
    ensures |s| == 6
  {
    Padded(t.hour, 2) + Padded(t.minute, 2) + Padded(t.second, 2)
  }

  /** The `%Y%m%d_%H%M%S` rendering of a reading. */
  function Stamp(t: Timestamp): (s: string)
    requires Valid(t)
    ensures |s| == 15
  {
    DateField(t) + "_" + TimeField(t)
  }

  /** The base name `backup` hands to the archiver: `archive-%Y%m%d_%H%M%S`. */
  function ArchiveBaseName(t: Timestamp): (s: string)
    requires Valid(t)
    ensures |s| == 23
  {
    NamePrefix + Stamp(t)
  }

  /** The file the archiver writes: the base name plus `.tar.bz2`. */
  function ArchiveFileName(t: Timestamp): (s: string)
    requires Valid(t)
    ensures |s| == 31
    ensures ArchiveCatalog.IsArchiveFile(s)
  {
    var s := ArchiveBaseName(t) + ArchiveCatalog.ArchiveExtension;
    assert s[|s| - 8..] == ArchiveCatalog.ArchiveExtension;
    s
  }

  /** Reads the timestamp back out of an archive file name; the inverse of
      `ArchiveFileName`. */
  function ParseArchiveFileName(s: string): (r: Option<Timestamp>)
    ensures r.Some? ==> Valid(r.value)
  {
    if |s| == 31 && s[..8] == NamePrefix && s[16] == '_' && s[23..] == ArchiveCatalog.ArchiveExtension
       && AllDigits(s[8..12]) && AllDigits(s[12..14]) && AllDigits(s[14..16])
       && AllDigits(s[17..19]) && AllDigits(s[19..21]) && AllDigits(s[21..23])
    then
      var t := Timestamp(Value(s[8..12]), Value(s[12..14]), Value(s[14..16]),
                         Value(s[17..19]), Value(s[19..21]), Value(s[21..23]));
      if Valid(t) then Some(t) else None
    else None
  }

  /** `%Y%m%d` orders as the calendar date does. */
  lemma DateFieldOrder(t1: Timestamp, t2: Timestamp)
    requires Valid(t1) && Valid(t2)
    ensures Less(DateField(t1), DateField(t2)) <==>
      || t1.year < t2.year
      || (t1.year == t2.year && t1.month < t2.month)
      || (t1.year == t2.year && t1.month == t2.month && t1.day < t2.day)
    ensures DateField(t1) == DateField(t2) <==>
      t1.year == t2.year && t1.month == t2.month && t1.day == t2.day
  {
    var y1, y2 := Padded(t1.year, 4), Padded(t2.year, 4);
    var mo1, mo2 := Padded(t1.month, 2), Padded(t2.month, 2);
    var d1, d2 := Padded(t1.day, 2), Padded(t2.day, 2);
    PaddedOrder(t1.year, t2.year, 4);
    PaddedOrder(t1.month, t2.month, 2);
    PaddedOrder(t1.day, t2.day, 2);
    PaddedInjective(t1.year, t2.year, 4);
    PaddedInjective(t1.month, t2.month, 2);
    PaddedInjective(t1.day, t2.day, 2);
    LessConcat(y1, mo1, y2, mo2);
    LessConcat(y1 + mo1, d1, y2 + mo2, d2);
  }

  /** `%H%M%S` orders as the time of day does. */
  lemma TimeFieldOrder(t1: Timestamp, t2: Timestamp)
    requires Valid(t1) && Valid(t2)
    ensures Less(TimeField(t1), TimeField(t2)) <==>
      || t1.hour < t2.hour
      || (t1.hour == t2.hour && t1.minute < t2.minute)
      || (t1.hour == t2.hour && t1.minute == t2.minute && t1.second < t2.second)
    ensures TimeField(t1) == TimeField(t2) <==>
      t1.hour == t2.hour && t1.minute == t2.minute && t1.second == t2.second
  {
    var h1, h2 := Padded(t1.hour, 2), Padded(t2.hour, 2);
    var mi1, mi2 := Padded(t1.minute, 2), Padded(t2.minute, 2);
    var s1, s2 := Padded(t1.second, 2), Padded(t2.second, 2);
    PaddedOrder(t1.hour, t2.hour, 2);
    PaddedOrder(t1.minute, t2.minute, 2);
    PaddedOrder(t1.second, t2.second, 2);
    PaddedInjective(t1.hour, t2.hour, 2);
    PaddedInjective(t1.minute, t2.minute, 2);
    PaddedInjective(t1.second, t2.second, 2);
    LessConcat(h1, mi1, h2, mi2);
    LessConcat(h1 + mi1, s1, h2 + mi2, s2);
  }

  lemma StampOrder(t1: Timestamp, t2: Timestamp)
    requires Valid(t1) && Valid(t2)
    ensures Less(Stamp(t1), Stamp(t2)) <==> Before(t1, t2)
  {
    DateFieldOrder(t1, t2);
    TimeFieldOrder(t1, t2);
    var d1, d2 := DateField(t1), DateField(t2);
    LessConcat(d1, "_", d2, "_");
    LessIrreflexive("_");
    LessConcat(d1 + "_", TimeField(t1), d2 + "_", TimeField(t2));
  }

  /** The catalog's string order is time order: for valid readings, one
      archive name sorts before another exactly when it was taken earlier. */
  lemma NameOrderIsTimeOrder(t1: Timestamp, t2: Timestamp)
    requires Valid(t1) && Valid(t2)
    ensures Less(ArchiveFileName(t1), ArchiveFileName(t2)) <==> Before(t1, t2)
  {
    StampOrder(t1, t2);
    var ext := ArchiveCatalog.ArchiveExtension;
    PrefixPreservesLess(NamePrefix, Stamp(t1), Stamp(t2));
    LessConcat(ArchiveBaseName(t1), ext, ArchiveBaseName(t2), ext);
    LessIrreflexive(ext);
  }

  lemma ParseOfName(t: Timestamp)
    requires Valid(t)
    ensures ParseArchiveFileName(ArchiveFileName(t)) == Some(t)
  {
    var s := ArchiveFileName(t);
    assert s == NamePrefix + (Padded(t.year, 4) + Padded(t.month, 2) + Padded(t.day, 2) + "_"
      + (Padded(t.hour, 2) + Padded(t.minute, 2) + Padded(t.second, 2))) + ArchiveCatalog.ArchiveExtension;
    assert s[8..12] == Padded(t.year, 4);
    assert s[12..14] == Padded(t.month, 2);
    assert s[14..16] == Padded(t.day, 2);
    assert s[17..19] == Padded(t.hour, 2);
    assert s[19..21] == Padded(t.minute, 2);
    assert s[21..23] == Padded(t.second, 2);
    ValueOfPadded(t.year, 4);
    ValueOfPadded(t.month, 2);
    ValueOfPadded(t.day, 2);
    ValueOfPadded(t.hour, 2);
    ValueOfPadded(t.minute, 2);
    ValueOfPadded(t.second, 2);
  }

  lemma NameOfParse(s: string)
    requires ParseArchiveFileName(s).Some?
    ensures ArchiveFileName(ParseArchiveFileName(s).value) == s
  {
    var t := ParseArchiveFileName(s).value;
    assert DateField(t) == s[8..16] by {
      PaddedOfValue(s[8..12]);
      PaddedOfValue(s[12..14]);
      PaddedOfValue(s[14..16]);
      assert s[8..16] == s[8..12] + s[12..14] + s[14..16];
    }
    assert TimeField(t) == s[17..23] by {
      PaddedOfValue(s[17..19]);
      PaddedOfValue(s[19..21]);
      PaddedOfValue(s[21..23]);
      assert s[17..23] == s[17..19] + s[19..21] + s[21..23];
    }
    assert Stamp(t) == s[8..23] by {
      assert s[8..23] == s[8..16] + [s[16]] + s[17..23];
    }
    assert s == s[..8] + s[8..23] + s[23..];
  }

  /** Distinct readings never share an archive name. */
  lemma NameInjective(t1: Timestamp, t2: Timestamp)
    requires Valid(t1) && Valid(t2)
    ensures ArchiveFileName(t1) == ArchiveFileName(t2) <==> t1 == t2
  {
    ParseOfName(t1);
    ParseOfName(t2);
  }
}
