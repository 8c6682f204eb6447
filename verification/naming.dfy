/**
 The three names a backup cycle derives from the clock:

 - the local folder, from local time, `lundi-05-février-2024-09h07`
   (French weekday and month, zero-padded day, hour and minute, no seconds);
 - the ZIP file, from UTC time, `<zip_prefix>_20240205_090712.zip`;
 - the Drive folder, from local time, `<bot name> 5 février 2024 9h07`
   (unpadded day and hour, zero-padded minute).

 Each name is shown to be decodable back into the fields it was built from.
 */
module Naming {
  import opened Text
  import opened Wrappers

  /** A reading of `datetime.now()` or `datetime.utcnow()`, to the second. */
  datatype DateTime = DateTime(year: int, month: int, day: int, hour: int, minute: int, second: int)

  predicate IsLeap(y: int)
  {
    y % 4 == 0 && (y % 100 != 0 || y % 400 == 0)
  }

  function DaysInMonth(y: int, m: int): int
    requires 1 <= m <= 12
  {
    if m == 2 then (if IsLeap(y) then 29 else 28)
    else if m == 4 || m == 6 || m == 9 || m == 11 then 30
    else 31
  }

  /** A date and time `datetime` accepts (years 1 to 9999). */
  predicate Valid(t: DateTime)
  {
    && 1 <= t.year <= 9999
    && 1 <= t.month <= 12
    && 1 <= t.day <= DaysInMonth(t.year, t.month)
    && 0 <= t.hour < 24
    && 0 <= t.minute < 60
    && 0 <= t.second < 60
  }

  // ---------------------------------------------------------------------
  // Day of the week, as `date.weekday()` computes it from the proleptic
  // Gregorian ordinal (day 1 is Monday 1 January of year 1).

  function DaysBeforeYear(y: int): int
    requires 1 <= y
  {
    var y1 := y - 1;
    y1 * 365 + y1 / 4 - y1 / 100 + y1 / 400
  }

  function DaysBeforeMonth(y: int, m: int): int
    requires 1 <= m <= 12
  {
    [0, 0, 31, 59, 90, 120, 151, 181, 212, 243, 273, 304, 334][m] + (if m > 2 && IsLeap(y) then 1 else 0)
  }

  function Ordinal(t: DateTime): int
    requires Valid(t)
  {
    DaysBeforeYear(t.year) + DaysBeforeMonth(t.year, t.month) + t.day
  }

  /** `weekday()`: Monday is 0, Sunday is 6. */
  function Weekday(t: DateTime): (w: nat)
    requires Valid(t)
    ensures w < 7
  {
    (Ordinal(t) + 6) % 7
  }

  /** The same time of day on the next calendar day. */
  function NextDay(t: DateTime): (u: DateTime)
    requires Valid(t) && t.year < 9999
    ensures Valid(u)
  {
    if t.day < DaysInMonth(t.year, t.month) then t.(day := t.day + 1)
    else if t.month < 12 then t.(month := t.month + 1, day := 1)
    else t.(year := t.year + 1, month := 1, day := 1)
  }

  lemma DaysInYear(y: int)
    requires 1 <= y
    ensures DaysBeforeYear(y + 1) == DaysBeforeYear(y) + if IsLeap(y) then 366 else 365
  {
    assert y / 4 - (y - 1) / 4 == if y % 4 == 0 then 1 else 0;
    assert y / 100 - (y - 1) / 100 == if y % 100 == 0 then 1 else 0;
    assert y / 400 - (y - 1) / 400 == if y % 400 == 0 then 1 else 0;
  }

  lemma DaysInMonthStep(y: int, m: int)
    requires 1 <= m < 12
    ensures DaysBeforeMonth(y, m + 1) == DaysBeforeMonth(y, m) + DaysInMonth(y, m)
  {
  }

  /** Days are numbered consecutively, so the weekday cycles through the week. */
  lemma NextDayWeekday(t: DateTime)
    requires Valid(t) && t.year < 9999
    ensures Ordinal(NextDay(t)) == Ordinal(t) + 1
    ensures Weekday(NextDay(t)) == (Weekday(t) + 1) % 7
  {
    NextDayOrdinal(t);
    ModSevenStep(Ordinal(t) + 6);
  }

  lemma ModSevenStep(x: int)
    ensures (x + 1) % 7 == (x % 7 + 1) % 7
  {
  }

  lemma NextDayOrdinal(t: DateTime)
    requires Valid(t) && t.year < 9999
    ensures Ordinal(NextDay(t)) == Ordinal(t) + 1
  {
    if t.day < DaysInMonth(t.year, t.month) {
    } else if t.month < 12 {
      DaysInMonthStep(t.year, t.month);
    } else {
      DaysInYear(t.year);
      assert DaysBeforeMonth(t.year, 12) + 31 == if IsLeap(t.year) then 366 else 365;
    }
  }

  /** 1 January 2024 was a Monday. */
  lemma WeekdayAnchor()
    ensures Weekday(DateTime(2024, 1, 1, 0, 0, 0)) == 0
  {
  }

  // ---------------------------------------------------------------------
  // The local folder name

  const Jours: seq<string> := ["lundi", "mardi", "mercredi", "jeudi", "vendredi", "samedi", "dimanche"]

  const Mois: seq<string> :=
    ["janvier", "février", "mars", "avril", "mai", "juin",
     "juillet", "août", "septembre", "octobre", "novembre", "décembre"]

  /** `f"{hour:02d}h{minute:02d}"` */
  function PaddedHourMinute(hour: nat, minute: nat): string
  {
    Padded(hour, 2) + "h" + Padded(minute, 2)
  }

  /** The local folder of the cycle started at local time `now`. */
  function LocalFolderName(now: DateTime): string
    requires Valid(now)
  {
    Jours[Weekday(now)] + "-" + Padded(now.day, 2) + "-" + Mois[now.month - 1] + "-"
      + Decimal(now.year) + "-" + PaddedHourMinute(now.hour, now.minute)
  }

  /** What a local folder name records: weekday, day, month, year, hour, minute. */
  datatype LocalStamp = LocalStamp(weekday: nat, day: nat, month: nat, year: nat, hour: nat, minute: nat)

  /** The position of `s` in `names`, if any. */
  function IndexOf(names: seq<string>, s: string): (r: Option<nat>)
    ensures r.Some? ==> r.value < |names| && names[r.value] == s
    ensures r.None? ==> s !in names
  {
    if |names| == 0 then None
    else if names[0] == s then Some(0)
    else match IndexOf(names[1..], s)
      case None => None
      case Some(i) => Some(i + 1)
  }

  lemma IndexOfDistinct(names: seq<string>, i: nat)
    requires Distinct(names) && i < |names|
    ensures IndexOf(names, names[i]) == Some(i)
  {
    var r := IndexOf(names, names[i]);
    assert r.Some?;
  }

  lemma NamesDistinct()
    ensures Distinct(Jours) && Distinct(Mois)
  {
  }

  /** Reads a decimal field; `None` unless it is a non-empty run of digits. */
  function ParseDigits(s: string): Option<nat>
  {
    if |s| >= 1 && AllDigits(s) then Some(DigitsValue(s)) else None
  }

  /** Decodes a local folder name back into the fields it records. */
  function ParseLocalFolderName(s: string): Option<LocalStamp>
  {
    var parts := Split(s, '-');
    if |parts| != 5 then None
    else
      var w, d, m, y := IndexOf(Jours, parts[0]), ParseDigits(parts[1]), IndexOf(Mois, parts[2]), ParseDigits(parts[3]);
      var hm := Split(parts[4], 'h');
      if w.None? || d.None? || m.None? || y.None? || |hm| != 2 then None
      else
        var h, mi := ParseDigits(hm[0]), ParseDigits(hm[1]);
        if h.None? || mi.None? then None
        else Some(LocalStamp(w.value, d.value, m.value + 1, y.value, h.value, mi.value))
  }

  lemma DigitsHaveNo(s: string, c: char)
    requires AllDigits(s) && !IsDigit(c)
    ensures c !in s
  {
  }

  lemma NoDash(names: seq<string>, i: nat)
    requires i < |names| && (names == Jours || names == Mois)
    ensures '-' !in names[i] && ' ' !in names[i]
  {
  }

  lemma PaddedTwoDigits(n: nat)
    requires n < 100
    ensures |Padded(n, 2)| == 2 && ParseDigits(Padded(n, 2)) == Some(n)
  {
    PaddedValue(n, 2);
  }

  /** `f"{hour:02d}h{minute:02d}"` splits at its `h` into the two padded numbers. */
  lemma HourMinuteSplit(hour: nat, minute: nat)
    requires hour < 100 && minute < 100
    ensures Split(PaddedHourMinute(hour, minute), 'h') == [Padded(hour, 2), Padded(minute, 2)]
    ensures '-' !in PaddedHourMinute(hour, minute) && ' ' !in PaddedHourMinute(hour, minute)
  {
    var h, mi := Padded(hour, 2), Padded(minute, 2);
    DigitsHaveNo(h, 'h');
    DigitsHaveNo(mi, 'h');
    DigitsHaveNo(h, '-');
    DigitsHaveNo(mi, '-');
    DigitsHaveNo(h, ' ');
    DigitsHaveNo(mi, ' ');
    SplitTwo(h, mi, 'h');
  }

  /** The five `-`-separated fields of a local folder name. */
  function LocalFields(now: DateTime): seq<string>
    requires Valid(now)
  {
    [Jours[Weekday(now)], Padded(now.day, 2), Mois[now.month - 1], Decimal(now.year),
     PaddedHourMinute(now.hour, now.minute)]
  }

  /** A last piece without the separator comes off whole. */
  lemma SplitSnoc(x: string, e: string, sep: char)
    requires sep !in e
    ensures Split(x + [sep] + e, sep) == Split(x, sep) + [e]
  {
    SplitConcat(x, e, sep);
    SplitNoSeparator(e, sep);
  }

  lemma SplitTwo(a: string, b: string, sep: char)
    requires sep !in a && sep !in b
    ensures Split(a + [sep] + b, sep) == [a, b]
  {
    SplitNoSeparator(a, sep);
    SplitSnoc(a, b, sep);
  }

  lemma SplitFive(a: string, b: string, c: string, d: string, e: string, sep: char)
    requires sep !in a && sep !in b && sep !in c && sep !in d && sep !in e
    ensures Split(a + [sep] + b + [sep] + c + [sep] + d + [sep] + e, sep) == [a, b, c, d, e]
  {
    SplitTwo(a, b, sep);
    SplitSnoc(a + [sep] + b, c, sep);
    SplitSnoc(a + [sep] + b + [sep] + c, d, sep);
    SplitSnoc(a + [sep] + b + [sep] + c + [sep] + d, e, sep);
  }

  lemma LocalFolderNameSplit(now: DateTime)
    requires Valid(now)
    ensures Split(LocalFolderName(now), '-') == LocalFields(now)
  {
    var jour, dd, mois, yyyy, hm :=
      Jours[Weekday(now)], Padded(now.day, 2), Mois[now.month - 1], Decimal(now.year),
      PaddedHourMinute(now.hour, now.minute);
    NoDash(Jours, Weekday(now));
    NoDash(Mois, now.month - 1);
    DigitsHaveNo(dd, '-');
    DigitsHaveNo(yyyy, '-');
    HourMinuteSplit(now.hour, now.minute);
    SplitFive(jour, dd, mois, yyyy, hm, '-');
  }

  lemma WeekdayNameIndex(w: nat)
    requires w < 7
    ensures IndexOf(Jours, Jours[w]) == Some(w)
  {
    NamesDistinct();
    IndexOfDistinct(Jours, w);
  }

  lemma MonthNameIndex(m: nat)
    requires m < 12
    ensures IndexOf(Mois, Mois[m]) == Some(m)
  {
    NamesDistinct();
    IndexOfDistinct(Mois, m);
  }

  /** What the decoder makes of a string whose fields decode one by one. */
  lemma ParseLocalFields(s: string, hh: string, mm: string, w: nat, d: nat, m: nat, y: nat, h: nat, mi: nat)
    requires |Split(s, '-')| == 5
    requires IndexOf(Jours, Split(s, '-')[0]) == Some(w)
    requires ParseDigits(Split(s, '-')[1]) == Some(d)
    requires IndexOf(Mois, Split(s, '-')[2]) == Some(m)
    requires ParseDigits(Split(s, '-')[3]) == Some(y)
    requires Split(Split(s, '-')[4], 'h') == [hh, mm]
    requires ParseDigits(hh) == Some(h) && ParseDigits(mm) == Some(mi)
    ensures ParseLocalFolderName(s) == Some(LocalStamp(w, d, m + 1, y, h, mi))
  {
  }

  /** The local folder name decodes back into the weekday, date, hour and
      minute it was built from. */
  lemma LocalFolderNameRoundTrip(now: DateTime)
    requires Valid(now)
    ensures ParseLocalFolderName(LocalFolderName(now))
         == Some(LocalStamp(Weekday(now), now.day, now.month, now.year, now.hour, now.minute))
  {
    LocalFolderNameSplit(now);
    HourMinuteSplit(now.hour, now.minute);
    WeekdayNameIndex(Weekday(now));
    MonthNameIndex(now.month - 1);
    PaddedTwoDigits(now.day);
    PaddedTwoDigits(now.hour);
    PaddedTwoDigits(now.minute);
    ParseLocalFields(LocalFolderName(now), Padded(now.hour, 2), Padded(now.minute, 2),
                     Weekday(now), now.day, now.month - 1, now.year, now.hour, now.minute);
  }

  /** The local folder name has minute resolution: two cycles started within
      the same minute share one local folder. */
  lemma LocalFolderNameIgnoresSeconds(now: DateTime, second: int)
    requires Valid(now) && 0 <= second < 60
    ensures LocalFolderName(now.(second := second)) == LocalFolderName(now)
  {
  }

  // ---------------------------------------------------------------------
  // The ZIP file name

  /** `utcnow.strftime("%Y%m%d_%H%M%S")` */
  function UtcStamp(utc: DateTime): string
    requires Valid(utc)
  {
    Padded(utc.year, 4) + Padded(utc.month, 2) + Padded(utc.day, 2) + "_"
      + Padded(utc.hour, 2) + Padded(utc.minute, 2) + Padded(utc.second, 2)
  }

  /** `f"{zip_prefix}_{ts}.zip"` */
  function ZipName(zipPrefix: string, utc: DateTime): (r: string)
    requires Valid(utc)
  {
    zipPrefix + "_" + UtcStamp(utc) + ".zip"
  }

  /** Decodes a ZIP name from its end: the prefix may itself contain `_`. */
  function ParseZipName(s: string): Option<(string, DateTime)>
  {
    if |s| < 20 || s[|s| - 4..] != ".zip" || s[|s| - 20] != '_' then None
    else
      var st := s[|s| - 19..|s| - 4];
      var date, time := st[..8], st[9..];
      if st[8] != '_' || !AllDigits(date) || !AllDigits(time) then None
      else
        Some((s[..|s| - 20],
              DateTime(DigitsValue(date[..4]), DigitsValue(date[4..6]), DigitsValue(date[6..]),
                       DigitsValue(time[..2]), DigitsValue(time[2..4]), DigitsValue(time[4..]))))
  }

  lemma Slices3(a: string, b: string, c: string)
    ensures var s := a + b + c;
      s[..|a|] == a && s[|a|..|a| + |b|] == b && s[|a| + |b|..] == c
  {
  }

  lemma AllDigits3(a: string, b: string, c: string)
    requires AllDigits(a) && AllDigits(b) && AllDigits(c)
    ensures AllDigits(a + b + c)
  {
  }

  lemma UtcStampShape(utc: DateTime)
    requires Valid(utc)
    ensures var st := UtcStamp(utc);
      var date, time := st[..8], st[9..];
      && |st| == 15 && st[8] == '_' && AllDigits(date) && AllDigits(time)
      && DigitsValue(date[..4]) == utc.year && DigitsValue(date[4..6]) == utc.month
      && DigitsValue(date[6..]) == utc.day && DigitsValue(time[..2]) == utc.hour
      && DigitsValue(time[2..4]) == utc.minute && DigitsValue(time[4..]) == utc.second
  {
    var y, mo, d := Padded(utc.year, 4), Padded(utc.month, 2), Padded(utc.day, 2);
    var h, mi, s := Padded(utc.hour, 2), Padded(utc.minute, 2), Padded(utc.second, 2);
    PaddedValue(utc.year, 4);
    PaddedValue(utc.month, 2);
    PaddedValue(utc.day, 2);
    PaddedValue(utc.hour, 2);
    PaddedValue(utc.minute, 2);
    PaddedValue(utc.second, 2);
    var date, time := y + mo + d, h + mi + s;
    Slices3(y, mo, d);
    Slices3(h, mi, s);
    AllDigits3(y, mo, d);
    AllDigits3(h, mi, s);
    var st := UtcStamp(utc);
    assert st == date + "_" + time;
    Slices3(date, "_", time);
  }

  /** The ZIP name decodes back into its prefix and the UTC second it was built from. */
  lemma ZipNameRoundTrip(zipPrefix: string, utc: DateTime)
    requires Valid(utc)
    ensures ParseZipName(ZipName(zipPrefix, utc)) == Some((zipPrefix, utc))
  {
    UtcStampShape(utc);
    var s := ZipName(zipPrefix, utc);
    var st := UtcStamp(utc);
    assert s == zipPrefix + "_" + st + ".zip";
    assert s[|s| - 4..] == ".zip";
    assert s[|s| - 20] == '_';
    assert s[|s| - 19..|s| - 4] == st;
    assert s[..|s| - 20] == zipPrefix;
  }

  /** Two cycles get the same ZIP name only for the same prefix and the same UTC second. */
  lemma ZipNameInjective(p1: string, t1: DateTime, p2: string, t2: DateTime)
    requires Valid(t1) && Valid(t2)
    requires ZipName(p1, t1) == ZipName(p2, t2)
    ensures p1 == p2 && t1 == t2
  {
    ZipNameRoundTrip(p1, t1);
    ZipNameRoundTrip(p2, t2);
  }

  // ---------------------------------------------------------------------
  // The Drive folder name

  /** `f"{name} {now.day} {mois[now.month-1]} {now.year} {now.hour}h{now.minute:02d}"` */
  function DriveFolderName(botName: string, now: DateTime): string
    requires Valid(now)
  {
    botName + " " + Decimal(now.day) + " " + Mois[now.month - 1] + " " + Decimal(now.year) + " "
      + HourMinute(now.hour, now.minute)
  }

  /** `f"{hour}h{minute:02d}"` */
  function HourMinute(hour: nat, minute: nat): string
  {
    Decimal(hour) + "h" + Padded(minute, 2)
  }

  /** What a Drive folder name records: the bot name, day, month, year, hour, minute. */
  datatype DriveStamp = DriveStamp(botName: string, day: nat, month: nat, year: nat, hour: nat, minute: nat)

  /** Decodes a Drive folder name from its last four space-separated fields;
      the bot name before them may contain spaces. */
  function ParseDriveFolderName(s: string): Option<DriveStamp>
  {
    var parts := Split(s, ' ');
    if |parts| < 5 then None
    else
      var n := |parts|;
      var d, m, y := ParseDigits(parts[n - 4]), IndexOf(Mois, parts[n - 3]), ParseDigits(parts[n - 2]);
      var hm := Split(parts[n - 1], 'h');
      if d.None? || m.None? || y.None? || |hm| != 2 then None
      else
        var h, mi := ParseDigits(hm[0]), ParseDigits(hm[1]);
        if h.None? || mi.None? then None
        else Some(DriveStamp(Join(parts[..n - 4], ' '), d.value, m.value + 1, y.value, h.value, mi.value))
  }

  /** The four fields after the bot name in a Drive folder name. */
  function DriveFields(now: DateTime): seq<string>
    requires Valid(now)
  {
    [Decimal(now.day), Mois[now.month - 1], Decimal(now.year), HourMinute(now.hour, now.minute)]
  }

  lemma DriveFieldsSplit(now: DateTime)
    requires Valid(now)
    ensures var tail := DriveFields(now);
      Split(Join(tail, ' '), ' ') == tail
      && Split(tail[3], 'h') == [Decimal(now.hour), Padded(now.minute, 2)]
  {
    var tail := DriveFields(now);
    var h, mi := Decimal(now.hour), Padded(now.minute, 2);
    NoDash(Mois, now.month - 1);
    DigitsHaveNo(tail[0], ' ');
    DigitsHaveNo(tail[2], ' ');
    DigitsHaveNo(h, ' ');
    DigitsHaveNo(mi, ' ');
    DigitsHaveNo(h, 'h');
    DigitsHaveNo(mi, 'h');
    assert ' ' !in tail[3];
    SplitJoin(tail, ' ');
    SplitTwo(h, mi, 'h');
  }

  /** Splitting a name followed by four separated fields that do not contain
      the separator. */
  lemma SplitFourAfter(x: string, a: string, b: string, c: string, d: string, sep: char)
    requires sep !in a && sep !in b && sep !in c && sep !in d
    ensures Split(x + [sep] + a + [sep] + b + [sep] + c + [sep] + d, sep) == Split(x, sep) + [a, b, c, d]
  {
    SplitSnoc(x, a, sep);
    SplitSnoc(x + [sep] + a, b, sep);
    SplitSnoc(x + [sep] + a + [sep] + b, c, sep);
    SplitSnoc(x + [sep] + a + [sep] + b + [sep] + c, d, sep);
  }

  lemma DriveFolderNameSplit(botName: string, now: DateTime)
    requires Valid(now)
    ensures Split(DriveFolderName(botName, now), ' ') == Split(botName, ' ') + DriveFields(now)
  {
    var d, mois, y := Decimal(now.day), Mois[now.month - 1], Decimal(now.year);
    DriveFieldsSplit(now);
    NoDash(Mois, now.month - 1);
    DigitsHaveNo(d, ' ');
    DigitsHaveNo(y, ' ');
    SplitFourAfter(botName, d, mois, y, HourMinute(now.hour, now.minute), ' ');
  }

  /** What the decoder makes of a string whose last four fields decode one by one. */
  lemma ParseDriveFields(s: string, hh: string, mm: string, d: nat, m: nat, y: nat, h: nat, mi: nat)
    requires var parts := Split(s, ' ');
      && |parts| >= 5
      && ParseDigits(parts[|parts| - 4]) == Some(d)
      && IndexOf(Mois, parts[|parts| - 3]) == Some(m)
      && ParseDigits(parts[|parts| - 2]) == Some(y)
      && Split(parts[|parts| - 1], 'h') == [hh, mm]
      && ParseDigits(hh) == Some(h) && ParseDigits(mm) == Some(mi)
    ensures var parts := Split(s, ' ');
      ParseDriveFolderName(s) == Some(DriveStamp(Join(parts[..|parts| - 4], ' '), d, m + 1, y, h, mi))
  {
    var parts := Split(s, ' ');
    var hm := Split(parts[|parts| - 1], 'h');
    assert hm[0] == hh && hm[1] == mm;
  }

  /** The Drive folder name decodes back into the bot name, date, hour and
      minute it was built from, whatever spaces the bot name holds. */
  lemma DriveFolderNameRoundTrip(botName: string, now: DateTime)
    requires Valid(now)
    ensures ParseDriveFolderName(DriveFolderName(botName, now))
         == Some(DriveStamp(botName, now.day, now.month, now.year, now.hour, now.minute))
  {
    DriveFolderNameSplit(botName, now);
    DriveFieldsSplit(now);
    var parts := Split(botName, ' ') + DriveFields(now);
    assert parts[..|parts| - 4] == Split(botName, ' ');
    JoinSplit(botName, ' ');
    MonthNameIndex(now.month - 1);
    PaddedTwoDigits(now.minute);
    ParseDriveFields(DriveFolderName(botName, now), Decimal(now.hour), Padded(now.minute, 2),
                     now.day, now.month - 1, now.year, now.hour, now.minute);
  }
}
