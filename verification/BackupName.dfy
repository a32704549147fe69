/** The file name offered for a backup (src/main.rs): date and time of day from
    the Unix time in seconds. */
module BackupName {
  import opened Bytes
  import opened Calendar
  import opened Decimal
  import opened Division

  datatype TimeOfDay = TimeOfDay(hour: nat, minute: nat, second: nat)

  function TimeOf(secs: U64): TimeOfDay {
    var remaining := secs % 86400;
    TimeOfDay(remaining / 3600, remaining % 3600 / 60, remaining % 60)
  }

  function DateOf(secs: U64): (d: Date) {
    CivilFromDays(secs / 86400)
  }

  predicate ValidTime(t: TimeOfDay) {
    t.hour < 24 && t.minute < 60 && t.second < 60
  }

  function SecondsOfDay(t: TimeOfDay): nat {
    3600 * t.hour + 60 * t.minute + t.second
  }

  lemma TimeSplits(secs: U64)
    ensures ValidTime(TimeOf(secs))
    ensures SecondsOfDay(TimeOf(secs)) == secs % 86400
  {
  }

  /** Date and time are those of the calendar, and nothing of the Unix time is
      lost. */
  lemma TimestampSplits(secs: U64)
    ensures ValidDate(DateOf(secs)) && ValidTime(TimeOf(secs))
    ensures 1970 <= DateOf(secs).year
    ensures 86400 * DaysFromDate(DateOf(secs)) + SecondsOfDay(TimeOf(secs)) == secs
  {
    TimeSplits(secs);
    CivilFromDaysSound(secs / 86400);
    NotBeforeEpoch(DateOf(secs));
  }

  lemma NotBeforeEpoch(d: Date)
    requires ValidDate(d) && DaysFromDate(d) >= 0
    ensures 1970 <= d.year
  {
    if d.year < 1970 {
      YearsIncrease(d.year, 1970);
      DayOfYearBounds(d);
    }
  }

  function Two(n: nat): string {
    "-" + ZeroPadded(n, 2)
  }

  function TimeText(t: TimeOfDay): string {
    Two(t.hour) + Two(t.minute) + Two(t.second)
  }

  function DateText(d: Date): string
    requires d.year >= 0 && d.month >= 0 && d.day >= 0
  {
    Numeral(d.year) + Two(d.month) + Two(d.day)
  }

  const PREFIX := "cybercuris-backup-"
  const SUFFIX := ".yaml"

  function FileName(secs: U64): string {
    TimestampSplits(secs);
    PREFIX + DateText(DateOf(secs)) + TimeText(TimeOf(secs)) + SUFFIX
  }

  lemma TwoDigits(n: nat)
    requires n < 100
    ensures |Two(n)| == 3 && Two(n) == "-" + LastDigits(n, 2)
    ensures Value(LastDigits(n, 2)) == n
  {
    Hundred();
    ZeroPaddedIsLastDigits(n, 2);
    LastDigitsValue(n, 2);
    DivModUnique(n, 100, 0, n);
  }

  lemma Hundred()
    ensures Pow10(2) == 100
  {
    assert Pow10(1) == 10;
  }

  lemma TwoInjective(n: nat, m: nat)
    requires n < 100 && m < 100 && Two(n) == Two(m)
    ensures n == m
  {
    TwoDigits(n);
    TwoDigits(m);
    assert Two(n)[1..] == LastDigits(n, 2) && Two(m)[1..] == LastDigits(m, 2);
  }

  lemma SplitTail(a: string, x: string, b: string, y: string)
    requires a + x == b + y && |x| == |y|
    ensures a == b && x == y
  {
    assert a == (a + x)[..|a|];
    assert b == (b + y)[..|b|];
    assert x == (a + x)[|a|..];
    assert y == (b + y)[|b|..];
  }

  lemma TimeTextInjective(s: TimeOfDay, t: TimeOfDay)
    requires ValidTime(s) && ValidTime(t) && TimeText(s) == TimeText(t)
    ensures s == t
  {
    TwoDigits(s.hour);
    TwoDigits(s.minute);
    TwoDigits(s.second);
    TwoDigits(t.hour);
    TwoDigits(t.minute);
    TwoDigits(t.second);
    SplitTail(Two(s.hour) + Two(s.minute), Two(s.second), Two(t.hour) + Two(t.minute), Two(t.second));
    SplitTail(Two(s.hour), Two(s.minute), Two(t.hour), Two(t.minute));
    TwoInjective(s.hour, t.hour);
    TwoInjective(s.minute, t.minute);
    TwoInjective(s.second, t.second);
  }

  lemma DateTextInjective(d: Date, e: Date)
    requires d.year >= 0 && 0 <= d.month < 100 && 0 <= d.day < 100
    requires e.year >= 0 && 0 <= e.month < 100 && 0 <= e.day < 100
    requires DateText(d) == DateText(e)
    ensures d == e
  {
    TwoDigits(d.month);
    TwoDigits(d.day);
    TwoDigits(e.month);
    TwoDigits(e.day);
    SplitTail(Numeral(d.year) + Two(d.month), Two(d.day), Numeral(e.year) + Two(e.month), Two(e.day));
    SplitTail(Numeral(d.year), Two(d.month), Numeral(e.year), Two(e.month));
    NumeralInjective(d.year, e.year);
    TwoInjective(d.month, e.month);
    TwoInjective(d.day, e.day);
  }

  lemma TimeTextLength(t: TimeOfDay)
    requires ValidTime(t)
    ensures |TimeText(t)| == 9
  {
    TwoDigits(t.hour);
    TwoDigits(t.minute);
    TwoDigits(t.second);
  }

  lemma MiddleInjective(ds: string, ts: string, dt: string, tt: string)
    requires |ts| == |tt|
    requires PREFIX + ds + ts + SUFFIX == PREFIX + dt + tt + SUFFIX
    ensures ds == dt && ts == tt
  {
    SplitTail(PREFIX + ds + ts, SUFFIX, PREFIX + dt + tt, SUFFIX);
    SplitTail(PREFIX + ds, ts, PREFIX + dt, tt);
    assert ds == (PREFIX + ds)[|PREFIX|..];
    assert dt == (PREFIX + dt)[|PREFIX|..];
  }

  /** Backups made in different seconds are offered different file names, up to
      the last second that 64 bits can hold. */
  lemma FileNameInjective(s: U64, t: U64)
    requires FileName(s) == FileName(t)
    ensures s == t
  {
    TimestampSplits(s);
    TimestampSplits(t);
    TimeTextLength(TimeOf(s));
    TimeTextLength(TimeOf(t));
    MiddleInjective(DateText(DateOf(s)), TimeText(TimeOf(s)), DateText(DateOf(t)), TimeText(TimeOf(t)));
    DateTextInjective(DateOf(s), DateOf(t));
    TimeTextInjective(TimeOf(s), TimeOf(t));
  }

  /** A dash and two digits, read at a position. */
  function ReadTwo(name: string, at: nat): (n: nat) {
    if at + 3 <= |name| && name[at] == '-' && AllDigits(name[at + 1..at + 3]) then Value(name[at + 1..at + 3]) else 100
  }

  lemma PartAt(name: string, before: string, n: nat, after: string)
    requires n < 100 && name == before + (Two(n) + after)
    ensures |before| + 3 <= |name| && ReadTwo(name, |before|) == n
  {
    TwoDigits(n);
    assert name[|before|..|before| + 3] == Two(n);
    assert name[|before| + 1..|before| + 3] == Two(n)[1..] == LastDigits(n, 2);
  }

  /** The same text, cut before any of its parts. */
  lemma CutAnywhere(a: string, y: string, m: string, d: string, h: string, i: string, s: string, z: string)
    ensures var name := a + (y + m + d) + (h + i + s) + z;
            && name == a + y + (m + (d + (h + (i + (s + z)))))
            && name == a + y + m + (d + (h + (i + (s + z))))
            && name == a + y + m + d + (h + (i + (s + z)))
            && name == a + y + m + d + h + (i + (s + z))
            && name == a + y + m + d + h + i + (s + z)
            && name == a + y + m + d + h + i + s + z
  {
  }

  lemma NumeralAt(name: string, before: string, n: nat, after: string)
    requires name == before + Numeral(n) + after
    ensures |before| + |Numeral(n)| <= |name|
    ensures name[|before|..|before| + |Numeral(n)|] == Numeral(n)
    ensures name[..|before|] == before
  {
  }

  /** Reading a file name back: after the prefix comes the year, then month, day,
      hour, minute and second, two digits each after a dash; they are a date and a
      time of day, and together the time stamp. */
  lemma FileNameReadsBack(secs: U64, name: string) returns (d: Date, t: TimeOfDay, n: nat)
    requires name == FileName(secs)
    ensures ValidDate(d) && d.year >= 0 && ValidTime(t)
    ensures 86400 * DaysFromDate(d) + 3600 * t.hour + 60 * t.minute + t.second == secs
    ensures 18 <= n && |name| == n + 20 && name[..18] == "cybercuris-backup-" && name[n + 15..] == ".yaml"
    ensures name[18..n] == Numeral(d.year)
    ensures ReadTwo(name, n) == d.month && ReadTwo(name, n + 3) == d.day
    ensures ReadTwo(name, n + 6) == t.hour && ReadTwo(name, n + 9) == t.minute && ReadTwo(name, n + 12) == t.second
  {
    TimestampSplits(secs);
    d, t := DateOf(secs), TimeOf(secs);
    var (y, mo, da) := (Numeral(d.year), Two(d.month), Two(d.day));
    var (h, mi, s) := (Two(t.hour), Two(t.minute), Two(t.second));
    n := 18 + |y|;
    CutAnywhere(PREFIX, y, mo, da, h, mi, s, SUFFIX);
    PrefixLength();
    NumeralAt(name, PREFIX, d.year, mo + (da + (h + (mi + (s + SUFFIX)))));
    TwoLengths(d, t);
    PartAt(name, PREFIX + y, d.month, da + (h + (mi + (s + SUFFIX))));
    PartAt(name, PREFIX + y + mo, d.day, h + (mi + (s + SUFFIX)));
    PartAt(name, PREFIX + y + mo + da, t.hour, mi + (s + SUFFIX));
    PartAt(name, PREFIX + y + mo + da + h, t.minute, s + SUFFIX);
    PartAt(name, PREFIX + y + mo + da + h + mi, t.second, SUFFIX);
    assert name[n + 15..] == SUFFIX;
  }

  lemma PrefixLength()
    ensures |PREFIX| == 18 && |SUFFIX| == 5
  {
  }

  lemma TwoLengths(d: Date, t: TimeOfDay)
    requires ValidDate(d) && ValidTime(t)
    ensures |Two(d.month)| == 3 && |Two(d.day)| == 3
    ensures |Two(t.hour)| == 3 && |Two(t.minute)| == 3 && |Two(t.second)| == 3
  {
    TwoDigits(d.month);
    TwoDigits(d.day);
    TwoDigits(t.hour);
    TwoDigits(t.minute);
    TwoDigits(t.second);
  }
}
