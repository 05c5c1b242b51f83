module Calendar {
  import opened Types

  // ---------------------------------------------------------------------
  // getMonthYear: the calendar month of a timestamp, in UTC

  const MillisPerDay := 86400000

  /** Year of a 400-year era, from the day of the era (days since 1 March of year 0 of the era). */
  function YearOfEra(doe: int): int {
    (doe - doe / 1460 + doe / 36524 - doe / 146096) / 365
  }

  /** Day of the (March-based) year. */
  function DayOfYear(doe: int, yoe: int): int {
    doe - YearStart(yoe)
  }

  /** Month of the March-based year: 0 is March, 11 is February. */
  function MonthIndex(doy: int): int {
    (5 * doy + 2) / 153
  }

  /** The proleptic Gregorian month containing a day counted from 1970-01-01. */
  function CivilMonth(days: int): MonthKey {
    var z := days + 719468;
    EraMonth(z / 146097, z % 146097)
  }

  /** The month containing day `doe` of era `era` (eras start on 1 March 0000 + 400 * era). */
  function EraMonth(era: int, doe: int): MonthKey {
    var yoe := YearOfEra(doe);
    YearMonth(era, yoe, DayOfYear(doe, yoe))
  }

  /** The month containing day `doy` of the March-based year `yoe` of era `era`. */
  function YearMonth(era: int, yoe: int, doy: int): MonthKey {
    MarchMonthKey(yoe + era * 400, MonthIndex(doy))
  }

  /** The civil month and year of March-based month `mp` of the year
      starting in March of `y` (months 10 and 11 are the next January and February). */
  function MarchMonthKey(y: int, mp: int): MonthKey {
    var m := if mp < 10 then mp + 3 else mp - 9;
    MonthKey(if m <= 2 then y + 1 else y, m)
  }

  /** `getMonthYear`: the month and year a timestamp falls in. */
  function MonthYearOf(millis: int): MonthKey {
    CivilMonth(millis / MillisPerDay)
  }

  // ---------------------------------------------------------------------
  // The calendar the month is taken from, and its partner: the day count of a date

  /** The Gregorian leap-year rule. */
  predicate LeapYear(y: int) {
    y % 4 == 0 && (y % 100 != 0 || y % 400 == 0)
  }

  /** The month length of the civil month `m`, February having `leap` decide. */
  function MonthLength(m: int, leap: bool): int {
    if m == 2 then (if leap then 29 else 28)
    else if m == 4 || m == 6 || m == 9 || m == 11 then 30
    else 31
  }

  /** The number of days of month `m` of year `y`. */
  function DaysInMonth(y: int, m: int): int
    requires 1 <= m <= 12
  {
    MonthLength(m, LeapYear(y))
  }

  /** First day of the March-based month `mp` (0 is March) within its year. */
  function MonthStart(mp: int): int {
    (153 * mp + 2) / 5
  }

  /** The first day of year `yoe` of a 400-year era (years start on 1 March). */
  function YearStart(yoe: int): int {
    365 * yoe + yoe / 4 - yoe / 100
  }

  /** The inverse direction: the day count, from 1970-01-01, of day `d` of
      month `m` of year `y`. */
  function DaysFromCivil(y: int, m: int, d: int): int
    requires 1 <= m <= 12
  {
    var y' := if m <= 2 then y - 1 else y;
    var era := y' / 400;
    var yoe := y' - era * 400;
    var mp := if m > 2 then m - 3 else m + 9;
    var doy := MonthStart(mp) + d - 1;
    era * 146097 + YearStart(yoe) + doy - 719468
  }

  /** The month index recovers the March-based month from any of its days. */
  lemma MonthIndexOf(mp: int, dd: int)
    requires 0 <= mp < 12 && 0 <= dd && MonthStart(mp) + dd < (if mp == 11 then 366 else MonthStart(mp + 1))
    ensures MonthIndex(MonthStart(mp) + dd) == mp
  {
  }

  /** The year of the era recovers `yoe` from any day of that year. */
  lemma YearOfEraOf(yoe: int, doy: int)
    requires 0 <= yoe < 400 && 0 <= doy
    requires doy < 365 || (doy == 365 && LeapYear(yoe + 1))
    ensures YearOfEra(YearStart(yoe) + doy) == yoe
  {
    var c, q, r := yoe / 100, (yoe % 100) / 4, yoe % 4;
    assert yoe == 100 * c + 4 * q + r;
    assert YearStart(yoe) == 36524 * c + 1461 * q + 365 * r;
    YearOfEraParts(c, q, r, doy);
  }

  /** `YearOfEra` on a day of year `100 * c + 4 * q + r` of the era, counted
      by centuries, four-year cycles and years. */
  lemma YearOfEraParts(c: int, q: int, r: int, doy: int)
    requires 0 <= c < 4 && 0 <= q < 25 && 0 <= r < 4 && 0 <= doy
    requires doy < 365 || (doy == 365 && r == 3 && (q < 24 || c == 3))
    ensures YearOfEra(36524 * c + 1461 * q + 365 * r + doy) == 100 * c + 4 * q + r
  {
    var doe := 36524 * c + 1461 * q + 365 * r + doy;
    var x1 := if 24 * c + q + 365 * r + doy >= 1460 then 1 else 0;
    assert doe / 1460 == 25 * c + q + x1;
    var x2 := if doe == 146096 then 1 else 0;
    assert doe / 36524 == c + x2;
    assert doe / 146096 == x2;
  }

  /** The leap-year rule repeats every 400 years. */
  lemma LeapEra(yoe: int, era: int)
    ensures LeapYear(yoe + 1 + era * 400) == LeapYear(yoe + 1)
  {
    Shift4(yoe + 1, 100 * era);
    Shift100(yoe + 1, 4 * era);
    Shift400(yoe + 1, era);
  }

  /** Multiples of 4, 100 and 400 do not change the remainder by the same divisor. */
  lemma Shift4(a: int, k: int)
    ensures (a + 4 * k) % 4 == a % 4
  {
  }

  lemma Shift100(a: int, k: int)
    ensures (a + 100 * k) % 100 == a % 100
  {
  }

  lemma Shift400(a: int, k: int)
    ensures (a + 400 * k) % 400 == a % 400
  {
  }

  /** A day count splits uniquely into its era and its day of the era. */
  lemma EraSplit(z: int, era: int, doe: int)
    requires 0 <= doe < 146097 && z == era * 146097 + doe
    ensures z / 146097 == era && z % 146097 == doe
  {
  }

  /** The March-based month and day of `m`/`d` fit the month lengths the
      decoding expects. */
  lemma MarchDay(m: int, d: int, leap: bool)
    requires 1 <= m <= 12 && 1 <= d
    requires d <= MonthLength(m, leap)
    ensures var mp := if m > 2 then m - 3 else m + 9;
      && MonthStart(mp) + d - 1 < (if mp == 11 then 366 else MonthStart(mp + 1))
      && (MonthStart(mp) + d - 1 < 365 || (MonthStart(mp) + d - 1 == 365 && leap))
  {
  }

  /** Decoding a day count given by its era, year of era and day of year. */
  lemma CivilMonthOfParts(days: int, era: int, yoe: int, mp: int, dd: int)
    requires 0 <= yoe < 400 && 0 <= mp < 12 && 0 <= dd
    requires MonthStart(mp) + dd < (if mp == 11 then 366 else MonthStart(mp + 1))
    requires MonthStart(mp) + dd < 365 || (MonthStart(mp) + dd == 365 && LeapYear(yoe + 1))
    requires days + 719468 == era * 146097 + YearStart(yoe) + MonthStart(mp) + dd
    ensures CivilMonth(days) == MarchMonthKey(yoe + era * 400, mp)
  {
    var doy := MonthStart(mp) + dd;
    EraSplit(days + 719468, era, YearStart(yoe) + doy);
    assert CivilMonth(days) == EraMonth(era, YearStart(yoe) + doy);
    EraMonthOf(era, yoe, doy);
    YearMonthOf(era, yoe, mp, dd);
  }

  /** Day `dd` of March-based month `mp` lies in that month. */
  lemma YearMonthOf(era: int, yoe: int, mp: int, dd: int)
    requires 0 <= mp < 12 && 0 <= dd && MonthStart(mp) + dd < (if mp == 11 then 366 else MonthStart(mp + 1))
    ensures YearMonth(era, yoe, MonthStart(mp) + dd) == MarchMonthKey(yoe + era * 400, mp)
  {
    MonthIndexOf(mp, dd);
  }

  /** The era's day `doe` is day `doy` of year `yoe`. */
  lemma EraMonthOf(era: int, yoe: int, doy: int)
    requires 0 <= yoe < 400 && 0 <= doy
    requires doy < 365 || (doy == 365 && LeapYear(yoe + 1))
    ensures EraMonth(era, YearStart(yoe) + doy) == YearMonth(era, yoe, doy)
  {
    YearOfEraOf(yoe, doy);
  }

  /** Decoding the day count of a date gives that date's month and year. */
  lemma CivilMonthOfDate(y: int, m: int, d: int)
    requires 1 <= m <= 12 && 1 <= d <= DaysInMonth(y, m)
    ensures CivilMonth(DaysFromCivil(y, m, d)) == MonthKey(y, m)
  {
    var y' := if m <= 2 then y - 1 else y;
    var era := y' / 400;
    var yoe := y' - era * 400;
    var mp := if m > 2 then m - 3 else m + 9;
    assert 0 <= yoe < 400;
    assert y' == yoe + era * 400;
    LeapEra(yoe, era);
    assert m <= 2 ==> y == yoe + 1 + era * 400;
    assert m <= 2 ==> LeapYear(y) == LeapYear(yoe + 1);
    MarchDay(m, d, LeapYear(yoe + 1));
    assert DaysFromCivil(y, m, d) == era * 146097 + YearStart(yoe) + MonthStart(mp) + (d - 1) - 719468;
    CivilMonthOfParts(DaysFromCivil(y, m, d), era, yoe, mp, d - 1);
  }

  /** A March-based year has 366 days exactly when the February it ends with is a leap one. */
  lemma YearLength(yoe: int)
    requires 0 <= yoe < 399
    ensures YearStart(yoe + 1) - YearStart(yoe) == if LeapYear(yoe + 1) then 366 else 365
  {
    assert (yoe + 1) / 4 - yoe / 4 == if (yoe + 1) % 4 == 0 then 1 else 0;
    assert (yoe + 1) / 100 - yoe / 100 == if (yoe + 1) % 100 == 0 then 1 else 0;
    assert (yoe + 1) % 400 != 0;
  }

  /** The last year of the era, from `yoe` on, that starts on or before `doe`. */
  function FindYear(doe: int, yoe: int): (r: int)
    requires 0 <= yoe <= 399 && YearStart(yoe) <= doe
    ensures yoe <= r <= 399 && YearStart(r) <= doe
    ensures r == 399 || doe < YearStart(r + 1)
    decreases 399 - yoe
  {
    if yoe == 399 || doe < YearStart(yoe + 1) then yoe else FindYear(doe, yoe + 1)
  }

  /** The last March-based month, from `mp` on, that starts on or before `doy`. */
  function FindMonth(doy: int, mp: int): (r: int)
    requires 0 <= mp <= 11 && MonthStart(mp) <= doy
    ensures mp <= r <= 11 && MonthStart(r) <= doy
    ensures r == 11 || doy < MonthStart(r + 1)
    decreases 11 - mp
  {
    if mp == 11 || doy < MonthStart(mp + 1) then mp else FindMonth(doy, mp + 1)
  }

  /** The day `doy` of a March-based year is day `d` of civil month `m`. */
  lemma MonthOfDay(doy: int, leap: bool) returns (m: int, d: int)
    requires 0 <= doy && (doy < 365 || (doy == 365 && leap))
    ensures 1 <= m <= 12 && 1 <= d <= MonthLength(m, leap)
    ensures MonthStart(if m > 2 then m - 3 else m + 9) + d - 1 == doy
  {
    var mp := FindMonth(doy, 0);
    m := if mp < 10 then mp + 3 else mp - 9;
    d := doy - MonthStart(mp) + 1;
  }

  /** Every day count is the encoding of a date of the calendar. */
  lemma DayIsCivil(days: int) returns (y: int, m: int, d: int)
    ensures 1 <= m <= 12 && 1 <= d <= DaysInMonth(y, m)
    ensures DaysFromCivil(y, m, d) == days
  {
    var z := days + 719468;
    var era, doe := z / 146097, z % 146097;
    var yoe := FindYear(doe, 0);
    var doy := doe - YearStart(yoe);
    if yoe < 399 {
      YearLength(yoe);
    }
    m, d := MonthOfDay(doy, LeapYear(yoe + 1));
    y := if m <= 2 then yoe + era * 400 + 1 else yoe + era * 400;
    LeapEra(yoe, era);
    var y' := yoe + era * 400;
    assert y' / 400 == era && y' - era * 400 == yoe;
    assert m <= 2 ==> y == yoe + 1 + era * 400;
    assert m == 2 ==> LeapYear(y) == LeapYear(yoe + 1);
    assert DaysInMonth(y, m) == MonthLength(m, LeapYear(yoe + 1));
    assert z == era * 146097 + doe;
    assert (if m <= 2 then y - 1 else y) == y';
    assert DaysFromCivil(y, m, d) == era * 146097 + YearStart(yoe) + doy - 719468;
  }

  /** A day count lies in the month `m` of year `y` exactly when it encodes a day of that month. */
  lemma CivilMonthIsMonth(days: int, y: int, m: int)
    requires 1 <= m <= 12
    ensures CivilMonth(days) == MonthKey(y, m) <==> exists d :: 1 <= d <= DaysInMonth(y, m) && days == DaysFromCivil(y, m, d)
  {
    var y0, m0, d0 := DayIsCivil(days);
    CivilMonthOfDate(y0, m0, d0);
    if exists d :: 1 <= d <= DaysInMonth(y, m) && days == DaysFromCivil(y, m, d) {
      var d :| 1 <= d <= DaysInMonth(y, m) && days == DaysFromCivil(y, m, d);
      CivilMonthOfDate(y, m, d);
    }
  }

  /** A timestamp falls in month `m` of year `y` exactly when its day is one
      of the days of that month. */
  lemma MonthYearOfIsMonth(t: int, y: int, m: int)
    requires 1 <= m <= 12
    ensures MonthYearOf(t) == MonthKey(y, m) <==>
      exists d :: 1 <= d <= DaysInMonth(y, m) && t / MillisPerDay == DaysFromCivil(y, m, d)
  {
    CivilMonthIsMonth(t / MillisPerDay, y, m);
  }

  /** Every timestamp gets a month number 1..12, the month of the civil
      date its day encodes. */
  lemma MonthYearOfRange(t: int)
    ensures 1 <= MonthYearOf(t).month <= 12
    ensures var k := MonthYearOf(t);
      exists d :: 1 <= d <= DaysInMonth(k.year, k.month) && t / MillisPerDay == DaysFromCivil(k.year, k.month, d)
  {
    var y, m, d := DayIsCivil(t / MillisPerDay);
    CivilMonthOfDate(y, m, d);
  }

  /** 2023-06-15T10:30:00Z lies in June 2023 and 2024-02-05T16:45:00Z in February 2024. */
  lemma MonthYearOfExamples()
    ensures MonthYearOf(1686825000000) == MonthKey(2023, 6)
    ensures MonthYearOf(1707151500000) == MonthKey(2024, 2)
  {
    assert 1686825000000 / MillisPerDay == 19523;
    assert 738991 / 146097 == 5 && 738991 % 146097 == 8506;
    assert YearOfEra(8506) == 23;
    assert DayOfYear(8506, 23) == 106;
    assert MonthIndex(106) == 3;
    assert 1707151500000 / MillisPerDay == 19758;
    assert 739226 / 146097 == 5 && 739226 % 146097 == 8741;
    assert YearOfEra(8741) == 23;
    assert DayOfYear(8741, 23) == 341;
    assert MonthIndex(341) == 11;
  }
}

/** utils.ts: the calendar month of a timestamp (the date-album key) and the
    exact-duplicate detector. */
module Utils {
  import opened Types
  import opened Strings
  import opened Seqs
  import opened Calendar
  import opened Counters

  // ---------------------------------------------------------------------
  // The duplicate fingerprint `${date.getTime()}_${size}`

  /** The fingerprint string of a photo. */
  function Key(p: Photo): string {
    IntToString(p.date) + "_" + NatToString(p.size)
  }

  lemma NoUnderscoreInNumbers(i: int, n: nat)
    ensures '_' !in IntToString(i) && '_' !in NatToString(n)
  {
  }

  /** Two photos share a fingerprint exactly when they share timestamp and size. */
  lemma KeyInjective(p: Photo, q: Photo)
    ensures Key(p) == Key(q) <==> p.date == q.date && p.size == q.size
  {
    if Key(p) == Key(q) {
      NoUnderscoreInNumbers(p.date, p.size);
      NoUnderscoreInNumbers(q.date, q.size);
      SplitAtSeparator(IntToString(p.date), NatToString(p.size), IntToString(q.date), NatToString(q.size), '_');
      IntToStringInjective(p.date, q.date);
      NatToStringInjective(p.size, q.size);
    }
  }

  /** A fingerprint always holds a '_', so it is never an integer-like
      property name and a record keyed by fingerprints enumerates its
      entries in insertion order. */
  lemma KeyNotIndexLike(p: Photo)
    ensures '_' in Key(p) && !AllDigits(Key(p))
  {
    var s := Key(p);
    var at := |IntToString(p.date)|;
    assert s[at] == '_';
  }

  // ---------------------------------------------------------------------
  // Bucketing photos by a key. The functions take the key as a parameter;
  // the detector instantiates it with the fingerprint `Key`.

  /** The photos of `s` whose key is `k`, in the order of `s`. */
  function WithKey(key: Photo -> string, s: seq<Photo>, k: string): seq<Photo> {
    Filter(s, (p: Photo) => key(p) == k)
  }

  /** The distinct keys of `s`, in the order they are first seen: the key
      order of a record that is given the keys of `s` one by one. */
  function FirstSeenKeys(key: Photo -> string, s: seq<Photo>): seq<string> {
    FirstSeen(KeysOf(key, s))
  }

  /** The keys of `s`, one per photo. */
  function KeysOf(key: Photo -> string, s: seq<Photo>): (r: seq<string>)
    ensures |r| == |s| && forall i :: 0 <= i < |s| ==> r[i] == key(s[i])
  {
    if s == [] then [] else KeysOf(key, s[..|s| - 1]) + [key(s[|s| - 1])]
  }

  /** Some photo of `s` has key `k`. */
  predicate HasKey(key: Photo -> string, s: seq<Photo>, k: string) {
    exists i :: 0 <= i < |s| && key(s[i]) == k
  }

  /** The index of the first photo of `s` with key `k`. */
  function FirstIndex(key: Photo -> string, s: seq<Photo>, k: string): (i: nat)
    requires HasKey(key, s, k)
    ensures i < |s| && key(s[i]) == k
  {
    var s' := s[..|s| - 1];
    if HasKey(key, s', k) then
      var i := FirstIndex(key, s', k);
      assert s'[i] == s[i];
      i
    else
      assert forall j :: 0 <= j < |s| - 1 ==> s'[j] == s[j];
      |s| - 1
  }

  /** No photo before the first index has the key. */
  lemma {:induction false} FirstIndexIsFirst(key: Photo -> string, s: seq<Photo>, k: string, j: int)
    requires HasKey(key, s, k) && 0 <= j < FirstIndex(key, s, k)
    ensures key(s[j]) != k
  {
    var s' := s[..|s| - 1];
    if HasKey(key, s', k) {
      FirstIndexIsFirst(key, s', k, j);
      assert s'[j] == s[j];
    } else {
      assert s'[j] == s[j];
    }
  }

  /** The groups of the keys `ks` that have two or more photos in `s`, in the order of `ks`. */
  function GroupsOf(key: Photo -> string, ks: seq<string>, s: seq<Photo>): seq<DuplicateGroup> {
    if ks == [] then []
    else
      var k := ks[|ks| - 1];
      var members := WithKey(key, s, k);
      GroupsOf(key, ks[..|ks| - 1], s) + (if |members| > 1 then [DuplicateGroup(k, members, k)] else [])
  }

  /** What `findDuplicates` returns for `photos`. */
  function DuplicateGroups(photos: seq<Photo>): seq<DuplicateGroup> {
    GroupsOf(Key, FirstSeenKeys(Key, photos), photos)
  }

  /** The filter/map over the record's entries that ends `findDuplicates`. */
  function EntriesToGroups(order: seq<string>, groups: map<string, seq<Photo>>): seq<DuplicateGroup>
    requires forall k :: k in order ==> k in groups
  {
    if order == [] then []
    else
      var k := order[|order| - 1];
      EntriesToGroups(order[..|order| - 1], groups)
        + (if |groups[k]| > 1 then [DuplicateGroup(k, groups[k], k)] else [])
  }

  /** Filtering and mapping the record's entries yields the specified groups. */
  lemma {:induction false} EntriesAreGroups(key: Photo -> string, order: seq<string>, groups: map<string, seq<Photo>>, s: seq<Photo>)
    requires forall k :: k in order ==> k in groups && groups[k] == WithKey(key, s, k)
    ensures EntriesToGroups(order, groups) == GroupsOf(key, order, s)
  {
    if order != [] {
      EntriesAreGroups(key, order[..|order| - 1], groups, s);
    }
  }

  // ---------------------------------------------------------------------
  // findDuplicates

  /** A record of buckets and its key order describe the photos `s`: the keys
      in first-seen order, each with its bucket, and no bucket for any other key. */
  ghost predicate Buckets(key: Photo -> string, groups: map<string, seq<Photo>>, order: seq<string>, s: seq<Photo>) {
    && order == FirstSeenKeys(key, s)
    && (forall k :: k in groups <==> k in order)
    && (forall k :: k in groups ==> groups[k] == WithKey(key, s, k))
    && (forall k :: k !in groups ==> WithKey(key, s, k) == [])
  }

  /** Adding the next photo to its bucket, creating the bucket first when its
      key is new, describes one more photo of the input. */
  lemma BucketsStep(key: Photo -> string, groups: map<string, seq<Photo>>, order: seq<string>, s: seq<Photo>, i: int,
                    groups': map<string, seq<Photo>>, order': seq<string>)
    requires 0 <= i < |s| && Buckets(key, groups, order, s[..i])
    requires order' == if key(s[i]) in groups then order else order + [key(s[i])]
    requires forall k :: k in groups' <==> k in groups || k == key(s[i])
    requires key(s[i]) in groups' && groups'[key(s[i])] == (if key(s[i]) in groups then groups[key(s[i])] else []) + [s[i]]
    requires forall k :: k in groups && k != key(s[i]) ==> groups'[k] == groups[k]
    ensures Buckets(key, groups', order', s[..i + 1])
  {
    PrefixStep(s, i);
    assert order' == FirstSeenKeys(key, s[..i + 1]);
    forall k | k in groups'
      ensures groups'[k] == WithKey(key, s[..i + 1], k)
    {
      WithKeyStep(key, s, i, k);
    }
    forall k | k !in groups'
      ensures WithKey(key, s[..i + 1], k) == []
    {
      WithKeyStep(key, s, i, k);
    }
  }

  /** The bucket of `k` after one more photo. */
  lemma WithKeyStep(key: Photo -> string, s: seq<Photo>, i: int, k: string)
    requires 0 <= i < |s|
    ensures WithKey(key, s[..i + 1], k) == WithKey(key, s[..i], k) + (if key(s[i]) == k then [s[i]] else [])
  {
    PrefixStep(s, i);
  }

  /** The prefix one longer drops back to the prefix, and ends with the next element. */
  lemma PrefixStep<T>(s: seq<T>, i: int)
    requires 0 <= i < |s|
    ensures s[..i + 1][..i] == s[..i] && s[..i + 1][i] == s[i] && |s[..i + 1]| == i + 1
  {
  }

  /** The body of the `forEach` of `findDuplicates` for photo `i`:
      `if (!groups[key]) groups[key] = []; groups[key].push(photo)`, on the
      record and its key order. The buckets of the photos before `i` become
      those of the photos up to `i`. */
  method AddToBucket(groups: map<string, seq<Photo>>, order: seq<string>, photos: seq<Photo>, i: int)
    returns (groups': map<string, seq<Photo>>, order': seq<string>)
    requires 0 <= i < |photos| && Buckets(Key, groups, order, photos[..i])
    ensures Buckets(Key, groups', order', photos[..i + 1])
  {
    var photo := photos[i];
    var key := Key(photo);
    groups', order' := groups, order;
    if key !in groups' {
      groups' := groups'[key := []];
      order' := order' + [key];
    }
    groups' := groups'[key := groups'[key] + [photo]];
    BucketsStep(Key, groups, order, photos, i, groups', order');
  }

  /** Buckets the photos by fingerprint in a record filled in input order,
      then keeps the buckets with more than one photo. */
  method FindDuplicates(photos: seq<Photo>) returns (result: seq<DuplicateGroup>)
    ensures result == DuplicateGroups(photos)
  {
    var groups: map<string, seq<Photo>> := map[];
    var order: seq<string> := [];  // the record's keys in insertion order
    var i := 0;
    while i < |photos|
      invariant 0 <= i <= |photos|
      invariant Buckets(Key, groups, order, photos[..i])
    {
      groups, order := AddToBucket(groups, order, photos, i);
      i := i + 1;
    }
    assert photos[..i] == photos;
    EntriesAreGroups(Key, order, groups, photos);
    result := EntriesToGroups(order, groups);
  }

  // ---------------------------------------------------------------------
  // Properties of buckets

  /** Every photo of a bucket is a photo of the input with that key. */
  lemma {:induction false} WithKeyMembers(key: Photo -> string, s: seq<Photo>, k: string)
    ensures forall p :: p in WithKey(key, s, k) ==> p in s && key(p) == k
  {
    if s != [] {
      WithKeyMembers(key, s[..|s| - 1], k);
    }
  }

  /** A bucket is empty exactly when no photo has that key. */
  lemma {:induction false} WithKeyEmpty(key: Photo -> string, s: seq<Photo>, k: string)
    ensures WithKey(key, s, k) == [] <==> !HasKey(key, s, k)
  {
    if s != [] {
      var s' := s[..|s| - 1];
      WithKeyEmpty(key, s', k);
      assert forall j :: 0 <= j < |s'| ==> s'[j] == s[j];
    }
  }

  /** The photo at index `i` has company in its bucket exactly when another
      index of the input carries the same key. */
  lemma {:induction false} WithKeyCompany(key: Photo -> string, s: seq<Photo>, i: int)
    requires 0 <= i < |s|
    ensures |WithKey(key, s, key(s[i]))| > 1 <==> exists j :: 0 <= j < |s| && j != i && key(s[j]) == key(s[i])
  {
    var k := key(s[i]);
    var s' := s[..|s| - 1];
    assert forall j :: 0 <= j < |s'| ==> s'[j] == s[j];
    if i == |s| - 1 {
      WithKeyEmpty(key, s', k);
    } else {
      assert s'[i] == s[i];
      WithKeyCompany(key, s', i);
      WithKeyEmpty(key, s', k);
      if key(s[|s| - 1]) == k {
        assert HasKey(key, s', k);
      }
    }
  }

  /** Every photo belongs to the bucket of its own key. */
  lemma {:induction false} WithKeyComplete(key: Photo -> string, s: seq<Photo>, p: Photo)
    requires p in s
    ensures p in WithKey(key, s, key(p))
  {
    var s' := s[..|s| - 1];
    if s[|s| - 1] != p {
      assert p in s';
      WithKeyComplete(key, s', p);
    }
  }

  /** A bucket lists its photos in input order: it is a subsequence of the input. */
  lemma {:induction false} WithKeyInOrder(key: Photo -> string, s: seq<Photo>, k: string)
    ensures IsSubsequence(WithKey(key, s, k), s)
  {
    if s != [] {
      var s' := s[..|s| - 1];
      WithKeyInOrder(key, s', k);
      assert s' + [s[|s| - 1]] == s;
      if key(s[|s| - 1]) == k {
        SubsequenceAppend(WithKey(key, s', k), s', s[|s| - 1]);
      } else {
        assert WithKey(key, s, k) == WithKey(key, s', k);
        SubsequenceWeaken(WithKey(key, s', k), s', s[|s| - 1]);
      }
    }
  }

  /** The distinct keys, each one once, ordered by first occurrence. */
  lemma FirstSeenKeysSpec(key: Photo -> string, s: seq<Photo>)
    ensures forall k :: k in FirstSeenKeys(key, s) <==> HasKey(key, s, k)
    ensures forall a, b :: 0 <= a < b < |FirstSeenKeys(key, s)| ==>
      FirstIndex(key, s, FirstSeenKeys(key, s)[a]) < FirstIndex(key, s, FirstSeenKeys(key, s)[b])
  {
    FirstSeenKeysMembers(key, s);
    FirstSeenKeysOrdered(key, s);
  }

  /** The first-seen keys are the keys of the photos. */
  lemma {:induction false} FirstSeenKeysMembers(key: Photo -> string, s: seq<Photo>)
    ensures forall k :: k in FirstSeenKeys(key, s) <==> HasKey(key, s, k)
  {
    if s != [] {
      var s' := s[..|s| - 1];
      FirstSeenKeysMembers(key, s');
      assert forall j :: 0 <= j < |s'| ==> s'[j] == s[j];
      assert forall k :: HasKey(key, s, k) <==> HasKey(key, s', k) || key(s[|s| - 1]) == k;
    }
  }

  /** The first-seen keys come in order of their first occurrence. */
  lemma {:induction false} FirstSeenKeysOrdered(key: Photo -> string, s: seq<Photo>)
    ensures forall k :: k in FirstSeenKeys(key, s) ==> HasKey(key, s, k)
    ensures forall a, b :: 0 <= a < b < |FirstSeenKeys(key, s)| ==>
      FirstIndex(key, s, FirstSeenKeys(key, s)[a]) < FirstIndex(key, s, FirstSeenKeys(key, s)[b])
  {
    FirstSeenKeysMembers(key, s);
    if s != [] {
      var s' := s[..|s| - 1];
      var ks', ks := FirstSeenKeys(key, s'), FirstSeenKeys(key, s);
      FirstSeenKeysOrdered(key, s');
      FirstSeenKeysMembers(key, s');
      forall k | HasKey(key, s', k)
        ensures FirstIndex(key, s, k) == FirstIndex(key, s', k)
      {
        FirstIndexPrefix(key, s, k);
      }
      if key(s[|s| - 1]) !in ks' {
        forall a | 0 <= a < |ks'|
          ensures FirstIndex(key, s, ks'[a]) < |s| - 1
        {
          assert ks'[a] in ks';
        }
      }
    }
  }

  /** A key already present before the last photo is first seen there. */
  lemma FirstIndexPrefix(key: Photo -> string, s: seq<Photo>, k: string)
    requires s != [] && HasKey(key, s[..|s| - 1], k)
    ensures HasKey(key, s, k) && FirstIndex(key, s, k) == FirstIndex(key, s[..|s| - 1], k)
  {
    var s' := s[..|s| - 1];
    var i :| 0 <= i < |s'| && key(s'[i]) == k;
    assert s[i] == s'[i];
  }

  /** Which groups GroupsOf lists: one per key of `ks` with company. */
  lemma {:induction false} GroupsOfMembers(key: Photo -> string, ks: seq<string>, s: seq<Photo>)
    ensures forall g :: g in GroupsOf(key, ks, s) ==>
      g.key in ks && g.id == g.key && g.photos == WithKey(key, s, g.key) && |g.photos| > 1
    ensures forall k :: k in ks && |WithKey(key, s, k)| > 1 ==>
      DuplicateGroup(k, WithKey(key, s, k), k) in GroupsOf(key, ks, s)
  {
    if ks != [] {
      GroupsOfMembers(key, ks[..|ks| - 1], s);
      assert forall k :: k in ks ==> k in ks[..|ks| - 1] || k == ks[|ks| - 1];
    }
  }

  /** Where in `ks` the key of each listed group stands: strictly increasing positions. */
  lemma {:induction false} GroupsOfPositions(key: Photo -> string, ks: seq<string>, s: seq<Photo>) returns (pos: seq<int>)
    ensures |pos| == |GroupsOf(key, ks, s)|
    ensures forall a :: 0 <= a < |pos| ==> 0 <= pos[a] < |ks| && ks[pos[a]] == GroupsOf(key, ks, s)[a].key
    ensures forall a, b :: 0 <= a < b < |pos| ==> pos[a] < pos[b]
  {
    if ks == [] {
      pos := [];
    } else {
      var ks', last := ks[..|ks| - 1], ks[|ks| - 1];
      var pos' := GroupsOfPositions(key, ks', s);
      var g', g := GroupsOf(key, ks', s), GroupsOf(key, ks, s);
      var members := WithKey(key, s, last);
      assert forall a :: 0 <= a < |pos'| ==> ks[pos'[a]] == ks'[pos'[a]];
      if |members| > 1 {
        assert g == g' + [DuplicateGroup(last, members, last)];
        pos := pos' + [|ks| - 1];
      } else {
        assert g == g';
        pos := pos';
      }
    }
  }

  /** GroupsOf keeps the order of `ks`: listed by increasing first occurrence. */
  lemma GroupsOfOrdered(key: Photo -> string, ks: seq<string>, s: seq<Photo>)
    requires forall k :: k in ks ==> HasKey(key, s, k)
    requires forall a, b :: 0 <= a < b < |ks| ==> FirstIndex(key, s, ks[a]) < FirstIndex(key, s, ks[b])
    ensures forall a :: 0 <= a < |GroupsOf(key, ks, s)| ==> GroupsOf(key, ks, s)[a].key in ks
    ensures forall a, b :: 0 <= a < b < |GroupsOf(key, ks, s)| ==>
      FirstIndex(key, s, GroupsOf(key, ks, s)[a].key) < FirstIndex(key, s, GroupsOf(key, ks, s)[b].key)
  {
    var g := GroupsOf(key, ks, s);
    var pos := GroupsOfPositions(key, ks, s);
    forall a | 0 <= a < |g|
      ensures g[a].key in ks
    {
      assert ks[pos[a]] == g[a].key;
    }
    forall a, b | 0 <= a < b < |g|
      ensures FirstIndex(key, s, g[a].key) < FirstIndex(key, s, g[b].key)
    {
      assert ks[pos[a]] == g[a].key && ks[pos[b]] == g[b].key;
    }
  }

  // ---------------------------------------------------------------------
  // Properties of findDuplicates

  /** Every group has two or more photos, all from the input and all with the
      group's fingerprint as key; its id is that key, and its photos keep
      their input order. */
  lemma DuplicateGroupsShape(photos: seq<Photo>)
    ensures forall g :: g in DuplicateGroups(photos) ==>
      && |g.photos| >= 2
      && g.id == g.key
      && (forall p :: p in g.photos ==> p in photos && Key(p) == g.key)
      && IsSubsequence(g.photos, photos)
  {
    GroupsOfMembers(Key, FirstSeenKeys(Key, photos), photos);
    forall g | g in DuplicateGroups(photos)
      ensures forall p :: p in g.photos ==> p in photos && Key(p) == g.key
      ensures IsSubsequence(g.photos, photos)
    {
      WithKeyMembers(Key, photos, g.key);
      WithKeyInOrder(Key, photos, g.key);
    }
  }

  /** The photos of one group share timestamp and size, and the group's id
      and key are both `"<millis>_<size>"` of them. */
  lemma DuplicateGroupsSameFingerprint(photos: seq<Photo>, g: DuplicateGroup, p: Photo, q: Photo)
    requires g in DuplicateGroups(photos) && p in g.photos && q in g.photos
    ensures p.date == q.date && p.size == q.size
    ensures g.id == g.key == IntToString(p.date) + "_" + NatToString(p.size)
  {
    DuplicateGroupsShape(photos);
    KeyInjective(p, q);
  }

  /** Groups are listed in the order their fingerprints are first seen in the
      input, so no fingerprint has two groups. */
  lemma DuplicateGroupsOrdered(photos: seq<Photo>)
    ensures forall a :: 0 <= a < |DuplicateGroups(photos)| ==> HasKey(Key, photos, DuplicateGroups(photos)[a].key)
    ensures forall a, b :: 0 <= a < b < |DuplicateGroups(photos)| ==>
      FirstIndex(Key, photos, DuplicateGroups(photos)[a].key) < FirstIndex(Key, photos, DuplicateGroups(photos)[b].key)
    ensures forall a, b :: 0 <= a < b < |DuplicateGroups(photos)| ==>
      DuplicateGroups(photos)[a].key != DuplicateGroups(photos)[b].key
  {
    FirstSeenKeysSpec(Key, photos);
    GroupsOfOrdered(Key, FirstSeenKeys(Key, photos), photos);
  }

  /** A photo is in some group exactly when another photo of the input has
      its timestamp and size. */
  lemma DuplicateGroupsCover(photos: seq<Photo>, i: int)
    requires 0 <= i < |photos|
    ensures (exists g :: g in DuplicateGroups(photos) && photos[i] in g.photos) <==>
      (exists j :: 0 <= j < |photos| && j != i && photos[j].date == photos[i].date && photos[j].size == photos[i].size)
  {
    var groups := DuplicateGroups(photos);
    var k := Key(photos[i]);
    WithKeyCompany(Key, photos, i);
    GroupsOfMembers(Key, FirstSeenKeys(Key, photos), photos);
    if j :| 0 <= j < |photos| && j != i && photos[j].date == photos[i].date && photos[j].size == photos[i].size {
      KeyInjective(photos[j], photos[i]);
      FirstSeenKeysSpec(Key, photos);
      assert HasKey(Key, photos, k);
      WithKeyComplete(Key, photos, photos[i]);
      assert DuplicateGroup(k, WithKey(Key, photos, k), k) in groups;
    }
    if g :| g in groups && photos[i] in g.photos {
      WithKeyMembers(Key, photos, g.key);
      var j :| 0 <= j < |photos| && j != i && Key(photos[j]) == k;
      KeyInjective(photos[j], photos[i]);
    }
  }

  /** No photo is in two groups. */
  lemma DuplicateGroupsDisjoint(photos: seq<Photo>, p: Photo)
    ensures forall a, b ::
      (0 <= a < |DuplicateGroups(photos)| && 0 <= b < |DuplicateGroups(photos)|
       && p in DuplicateGroups(photos)[a].photos && p in DuplicateGroups(photos)[b].photos) ==> a == b
  {
    var groups := DuplicateGroups(photos);
    GroupsOfMembers(Key, FirstSeenKeys(Key, photos), photos);
    DuplicateGroupsOrdered(photos);
    forall a, b | 0 <= a < |groups| && 0 <= b < |groups| && p in groups[a].photos && p in groups[b].photos
      ensures a == b
    {
      assert groups[a] in groups && groups[b] in groups;
      WithKeyMembers(Key, photos, groups[a].key);
      WithKeyMembers(Key, photos, groups[b].key);
    }
  }

  /** With no two photos sharing timestamp and size (in particular with no
      photos at all) there are no groups. */
  lemma NoSharedFingerprintNoGroups(photos: seq<Photo>)
    requires forall i, j :: 0 <= i < j < |photos| ==> photos[i].date != photos[j].date || photos[i].size != photos[j].size
    ensures DuplicateGroups(photos) == []
  {
    var groups := DuplicateGroups(photos);
    if groups != [] {
      DuplicateGroupsShape(photos);
      assert groups[0] in groups;
      var p := groups[0].photos[0];
      assert p in groups[0].photos;
      var i :| 0 <= i < |photos| && photos[i] == p;
      DuplicateGroupsCover(photos, i);
    }
  }

  /** Two photos with one fingerprint and a third with another give exactly
      one group, of the first two. */
  lemma PairAndStrangerScenario(a: Photo, b: Photo, c: Photo)
    requires a.date == b.date && a.size == b.size
    requires c.date != a.date || c.size != a.size
    ensures DuplicateGroups([a, b, c]) == [DuplicateGroup(Key(a), [a, b], Key(a))]
  {
    KeyInjective(a, b);
    KeyInjective(a, c);
    PairAndStranger(Key, a, b, c);
  }

  lemma PairAndStranger(key: Photo -> string, a: Photo, b: Photo, c: Photo)
    requires key(a) == key(b) && key(c) != key(a)
    ensures GroupsOf(key, FirstSeenKeys(key, [a, b, c]), [a, b, c]) == [DuplicateGroup(key(a), [a, b], key(a))]
  {
    var s := [a, b, c];
    PairAndStrangerKeys(key, a, b, c);
    PairAndStrangerBuckets(key, a, b, c);
    var ks := [key(a), key(c)];
    assert ks[..1] == [key(a)] && [key(a)][..0] == [];
    assert GroupsOf(key, [key(a)], s) == [DuplicateGroup(key(a), [a, b], key(a))];
  }

  lemma PairAndStrangerKeys(key: Photo -> string, a: Photo, b: Photo, c: Photo)
    requires key(a) == key(b) && key(c) != key(a)
    ensures FirstSeenKeys(key, [a, b, c]) == [key(a), key(c)]
  {
    assert [a, b, c][..2] == [a, b] && [a, b][..1] == [a] && [a][..0] == [];
    assert FirstSeenKeys(key, [a]) == [key(a)];
    assert FirstSeenKeys(key, [a, b]) == [key(a)];
  }

  lemma PairAndStrangerBuckets(key: Photo -> string, a: Photo, b: Photo, c: Photo)
    requires key(a) == key(b) && key(c) != key(a)
    ensures WithKey(key, [a, b, c], key(a)) == [a, b] && WithKey(key, [a, b, c], key(c)) == [c]
  {
    assert [a, b, c][..2] == [a, b] && [a, b][..1] == [a] && [a][..0] == [];
    assert WithKey(key, [a], key(a)) == [a];
    assert WithKey(key, [a, b], key(a)) == [a, b];
    assert WithKey(key, [a], key(c)) == [];
    assert WithKey(key, [a, b], key(c)) == [];
  }

  /** The first three photos of the simulated Drive import: a mountain photo,
      its copy under another name and an unrelated office photo. */
  lemma DriveImportScenario()
    ensures var mountain := Photo("m", None, "Vacation_Mountain.jpg", 1686825000000, 240500, Drive, None, Pending);
            var copy := Photo("c", None, "Copy of Vacation_Mountain.jpg", 1686825000000, 240500, Drive, None, Pending);
            var office := Photo("o", None, "Office_Setup.jpg", 1704877200000, 305000, Drive, None, Pending);
            DuplicateGroups([mountain, copy, office]) == [DuplicateGroup(Key(mountain), [mountain, copy], Key(mountain))]
  {
    var mountain := Photo("m", None, "Vacation_Mountain.jpg", 1686825000000, 240500, Drive, None, Pending);
    var copy := Photo("c", None, "Copy of Vacation_Mountain.jpg", 1686825000000, 240500, Drive, None, Pending);
    var office := Photo("o", None, "Office_Setup.jpg", 1704877200000, 305000, Drive, None, Pending);
    PairAndStrangerScenario(mountain, copy, office);
  }
}
