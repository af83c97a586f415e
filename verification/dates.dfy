/** Calendar dates as the site stores them ("YYYY-MM-DD" strings), what
    `new Date(s)` reads from them, and the two ways the pages print them:
    "YYYY/MM/DD" and the "YYYY-MM" month keys. */
module Dates {
  import opened Wrappers
  import opened Strings

  datatype Date = Date(year: nat, month: nat, day: nat)

  predicate IsLeapYear(y: nat) {
    (y % 4 == 0 && y % 100 != 0) || y % 400 == 0
  }

  function DaysInMonth(y: nat, m: nat): nat
    requires 1 <= m <= 12
  {
    if m == 2 then (if IsLeapYear(y) then 29 else 28)
    else if m == 4 || m == 6 || m == 9 || m == 11 then 30
    else 31
  }

  predicate ValidDate(d: Date) {
    1 <= d.month <= 12 && 1 <= d.day <= DaysInMonth(d.year, d.month)
  }

  /** `new Date(s)` on the date-only form "YYYY-MM-DD" that date inputs and
      `toISOString().slice(0, 10)` produce. Every other string is an invalid
      date (a Date whose time is NaN), written None. */
  function ParseIsoDate(s: string): (r: Option<Date>)
    ensures r.Some? ==> ValidDate(r.value) && r.value.year < 10000 && |s| == 10
  {
    if |s| == 10 && s[4] == '-' && s[7] == '-'
       && AllDigits(s[..4]) && AllDigits(s[5..7]) && AllDigits(s[8..])
    then
      var d := Date(DigitsValue(s[..4]), DigitsValue(s[5..7]), DigitsValue(s[8..]));
      DigitsValueBound(s[..4]);
      assert Pow10(4) == 10000;
      if ValidDate(d) then Some(d) else None
    else None
  }

  /** `d.toISOString().slice(0, 10)` */
  function IsoDate(d: Date): (r: string)
    ensures |r| == 10
  {
    FixedDigits(d.year, 4) + "-" + FixedDigits(d.month, 2) + "-" + FixedDigits(d.day, 2)
  }

  /** Printing a date in ISO form and reading it back gives the same date. */
  lemma ParseIsoDateOfIsoDate(d: Date)
    requires ValidDate(d) && d.year < 10000
    ensures ParseIsoDate(IsoDate(d)) == Some(d)
  {
    var s := IsoDate(d);
    assert s[..4] == FixedDigits(d.year, 4);
    assert s[5..7] == FixedDigits(d.month, 2);
    assert s[8..] == FixedDigits(d.day, 2);
    assert Pow10(4) == 10000 && Pow10(2) == 100;
    FixedDigitsValue(d.year, 4);
    FixedDigitsValue(d.month, 2);
    FixedDigitsValue(d.day, 2);
  }

  /** Every string that reads as a valid date is the ISO form of that date. */
  lemma IsoDateOfParseIsoDate(s: string)
    requires ParseIsoDate(s).Some?
    ensures IsoDate(ParseIsoDate(s).value) == s
  {
    FixedDigitsOfValue(s[..4]);
    FixedDigitsOfValue(s[5..7]);
    FixedDigitsOfValue(s[8..]);
    assert s == s[..4] + "-" + s[5..7] + "-" + s[8..];
  }

  /** Chronological order of calendar days. */
  predicate Before(a: Date, b: Date) {
    || a.year < b.year
    || (a.year == b.year && a.month < b.month)
    || (a.year == b.year && a.month == b.month && a.day < b.day)
  }

  /** A number that orders dates like the time value of `new Date(s)`. */
  function Ordinal(d: Date): int {
    (d.year * 13 + d.month) * 32 + d.day
  }

  lemma OrdinalMonotone(a: Date, b: Date)
    requires ValidDate(a) && ValidDate(b)
    ensures Ordinal(a) < Ordinal(b) <==> Before(a, b)
    ensures Ordinal(a) == Ordinal(b) <==> a == b
  {
    var ma := a.year * 13 + a.month;
    var mb := b.year * 13 + b.month;
    assert ma < mb <==> (a.year < b.year || (a.year == b.year && a.month < b.month)) by {
      if a.year < b.year {
        assert a.year * 13 + 13 <= b.year * 13;
      } else if b.year < a.year {
        assert b.year * 13 + 13 <= a.year * 13;
      }
    }
    if ma < mb {
      assert ma * 32 + 32 <= mb * 32;
    } else if mb < ma {
      assert mb * 32 + 32 <= ma * 32;
    }
  }

  /** `${d.getFullYear()}/${pad2(d.getMonth() + 1)}/${pad2(d.getDate())}` */
  function SlashDate(d: Date): string {
    NatToString(d.year) + "/" + Pad2(d.month) + "/" + Pad2(d.day)
  }

  /** For a stored date whose year has four significant digits, the printed
      form is the stored string with its hyphens turned into slashes. */
  lemma SlashDateOfIso(s: string)
    requires ParseIsoDate(s).Some? && s[0] != '0'
    ensures SlashDate(ParseIsoDate(s).value) == s[..4] + "/" + s[5..7] + "/" + s[8..]
  {
    var d := ParseIsoDate(s).value;
    NatToStringOfDigits(s[..4]);
    FixedDigitsOfValue(s[5..7]);
    FixedDigitsOfValue(s[8..]);
  }

  /** `${d.getFullYear()}-${pad2(d.getMonth() + 1)}` */
  function MonthKey(d: Date): string {
    NatToString(d.year) + "-" + Pad2(d.month)
  }

  /** The month key of a stored date string, None for an invalid date. */
  function MonthKeyOf(s: string): Option<string> {
    match ParseIsoDate(s)
    case None => None
    case Some(d) => Some(MonthKey(d))
  }

  /** Keys sorted by `(a, b) => b.localeCompare(a)` with no key twice. */
  predicate StrictlyDescending(s: seq<string>) {
    forall i, j :: 0 <= i < j < |s| ==> LexLess(s[j], s[i])
  }

  lemma StrictlyDescendingDistinct(s: seq<string>)
    requires StrictlyDescending(s)
    ensures forall i, j :: 0 <= i < j < |s| ==> s[i] != s[j]
  {
    forall i, j | 0 <= i < j < |s|
      ensures s[i] != s[j]
    {
      LexLessIrreflexive(s[i]);
    }
  }

  /** Adds `k` to a descending key list unless it is already there. */
  function InsertDescending(k: string, s: seq<string>): (r: seq<string>)
    requires StrictlyDescending(s)
    ensures StrictlyDescending(r)
    ensures forall x :: x in r <==> x == k || x in s
  {
    if |s| == 0 then [k]
    else if k == s[0] then s
    else if LexLess(s[0], k) then
      assert forall j :: 0 <= j < |s| ==> LexLess(s[j], k) by {
        forall j | 0 <= j < |s|
          ensures LexLess(s[j], k)
        {
          if j > 0 {
            LexLessTransitive(s[j], s[0], k);
          }
        }
      }
      [k] + s
    else
      LexLessTotal(k, s[0]);
      var t := InsertDescending(k, s[1..]);
      assert forall j :: 0 <= j < |t| ==> LexLess(t[j], s[0]) by {
        forall j | 0 <= j < |t|
          ensures LexLess(t[j], s[0])
        {
          assert t[j] in t;
          if t[j] != k {
            var i :| 0 <= i < |s[1..]| && s[1..][i] == t[j];
            assert s[i + 1] == t[j];
          }
        }
      }
      [s[0]] + t
  }

  /** The "YYYY-MM" keys of the valid dates among `dates`, each once,
      newest first: what gallery.js `groupByMonth` and events.js `buildTOC`
      list. */
  function MonthKeys(dates: seq<string>): (r: seq<string>)
    ensures StrictlyDescending(r)
    ensures forall k :: k in r <==> exists i :: 0 <= i < |dates| && MonthKeyOf(dates[i]) == Some(k)
  {
    if |dates| == 0 then []
    else
      var p := dates[..|dates| - 1];
      var rest := MonthKeys(p);
      var last := MonthKeyOf(dates[|dates| - 1]);
      var r := if last.Some? then InsertDescending(last.value, rest) else rest;
      MonthKeysStep(dates, p, MonthKeyOf, rest, r);
      r
  }

  /** Adding the last element's key to the keys of the others gives the keys
      of all the elements. */
  lemma MonthKeysStep<T, K>(xs: seq<T>, p: seq<T>, key: T -> Option<K>, rest: seq<K>, r: seq<K>)
    requires |xs| > 0 && p == xs[..|xs| - 1]
    requires forall k :: k in rest <==> exists i :: 0 <= i < |p| && key(p[i]) == Some(k)
    requires forall k :: k in r <==> k in rest || key(xs[|xs| - 1]) == Some(k)
    ensures forall k :: k in r <==> exists i :: 0 <= i < |xs| && key(xs[i]) == Some(k)
  {
    forall k
      ensures k in r <==> exists i :: 0 <= i < |xs| && key(xs[i]) == Some(k)
    {
      if k in rest {
        var i :| 0 <= i < |p| && key(p[i]) == Some(k);
        assert xs[i] == p[i];
      }
      if exists i :: 0 <= i < |xs| && key(xs[i]) == Some(k) {
        var i :| 0 <= i < |xs| && key(xs[i]) == Some(k);
        if i < |p| {
          assert p[i] == xs[i];
        }
      }
    }
  }

  /** A descending list without repeats is determined by its elements, so
      `MonthKeys` is the only correct answer. */
  lemma {:induction false} DescendingUnique(a: seq<string>, b: seq<string>)
    requires StrictlyDescending(a) && StrictlyDescending(b)
    requires forall x :: x in a <==> x in b
    ensures a == b
    decreases |a|
  {
    if |a| == 0 {
      if |b| > 0 {
        HeadIsMember(b);
        assert false;
      }
    } else {
      assert a[0] in a;
      var j :| 0 <= j < |b| && b[j] == a[0];
      if j > 0 {
        assert b[0] in b;
        var i :| 0 <= i < |a| && a[i] == b[0];
        if i == 0 {
          LexLessIrreflexive(b[0]);
        } else {
          LexLessTransitive(b[0], b[j], b[0]);
          LexLessIrreflexive(b[0]);
        }
      }
      StrictlyDescendingDistinct(a);
      StrictlyDescendingDistinct(b);
      forall x
        ensures x in a[1..] <==> x in b[1..]
      {
        if x in a[1..] {
          var i :| 0 <= i < |a[1..]| && a[1..][i] == x;
          assert x == a[i + 1] && x != a[0];
          assert x in b;
          var k :| 0 <= k < |b| && b[k] == x;
          assert k != 0;
          assert b[1..][k - 1] == x;
        }
        if x in b[1..] {
          var i :| 0 <= i < |b[1..]| && b[1..][i] == x;
          assert x == b[i + 1] && x != b[0];
          assert x in a;
          var k :| 0 <= k < |a| && a[k] == x;
          assert k != 0;
          assert a[1..][k - 1] == x;
        }
      }
      DescendingUnique(a[1..], b[1..]);
      assert a == [a[0]] + a[1..] && b == [b[0]] + b[1..];
    }
  }

  lemma HeadIsMember(b: seq<string>)
    requires 0 < |b|
    ensures b[0] in b
  {
  }

  lemma MonthKeysUnique(dates: seq<string>, keys: seq<string>)
    requires StrictlyDescending(keys)
    requires forall k :: k in keys <==> exists i :: 0 <= i < |dates| && MonthKeyOf(dates[i]) == Some(k)
    ensures keys == MonthKeys(dates)
  {
    DescendingUnique(keys, MonthKeys(dates));
  }

  /** A point in time: a calendar day and the milliseconds elapsed in it. */
  datatype Moment = Moment(date: Date, ms: nat)

  const MsPerDay: nat := 24 * 60 * 60 * 1000

  predicate ValidMoment(m: Moment) {
    ValidDate(m.date) && m.ms < MsPerDay
  }

  /** `new Date(s)` for a date-only string is midnight UTC of that day; the
      model takes the local time zone to be UTC, so that is also the first
      instant of the local day. */
  function StartOf(d: Date): Moment {
    Moment(d, 0)
  }

  /** `<` on Date objects */
  predicate Earlier(a: Moment, b: Moment) {
    Before(a.date, b.date) || (a.date == b.date && a.ms < b.ms)
  }
}
