/** Sorting records by one of their date fields, as every page does with a
    comparator of the form `new Date(a.date) - new Date(b.date)`. */
module DateSort {
  import opened Wrappers
  import opened Seqs
  import opened Dates

  /** The number `new Date(s)` compares by; 0 stands in for NaN, which the
      sorts below never meet since they require valid dates. */
  function DateKey(s: string): int {
    match ParseIsoDate(s)
    case Some(d) => Ordinal(d)
    case None => 0
  }

  function ByDate<T>(date: T -> string, newestFirst: bool): T -> int {
    x => if newestFirst then -DateKey(date(x)) else DateKey(date(x))
  }

  predicate DatesValid<T>(s: seq<T>, date: T -> string) {
    forall i :: 0 <= i < |s| ==> ParseIsoDate(date(s[i])).Some?
  }

  /** Oldest first, or newest first when `newestFirst`. */
  predicate Chronological<T>(s: seq<T>, date: T -> string, newestFirst: bool)
    requires DatesValid(s, date)
  {
    forall i, j :: 0 <= i < j < |s| ==>
      var a := ParseIsoDate(date(s[i])).value;
      var b := ParseIsoDate(date(s[j])).value;
      if newestFirst then !Before(a, b) else !Before(b, a)
  }

  /** `s.sort((a, b) => new Date(date(a)) - new Date(date(b)))`, or with `a`
      and `b` swapped when `newestFirst`. */
  function SortByDate<T>(s: seq<T>, date: T -> string, newestFirst: bool): (r: seq<T>)
    requires DatesValid(s, date)
    ensures multiset(r) == multiset(s)
    ensures DatesValid(r, date)
    ensures Chronological(r, date, newestFirst)
  {
    var r := SortBy(s, ByDate(date, newestFirst));
    assert DatesValid(r, date) by {
      forall i | 0 <= i < |r|
        ensures ParseIsoDate(date(r[i])).Some?
      {
        assert r[i] in multiset(s);
      }
    }
    forall i, j | 0 <= i < j < |r|
      ensures var a := ParseIsoDate(date(r[i])).value;
              var b := ParseIsoDate(date(r[j])).value;
              if newestFirst then !Before(a, b) else !Before(b, a)
    {
      OrdinalMonotone(ParseIsoDate(date(r[i])).value, ParseIsoDate(date(r[j])).value);
      OrdinalMonotone(ParseIsoDate(date(r[j])).value, ParseIsoDate(date(r[i])).value);
    }
    r
  }

  function OnDate<T>(date: T -> string, ds: string): T -> bool {
    x => date(x) == ds
  }

  /** Two valid date strings have the same sort key only when they are the
      same string. */
  lemma DateKeyInjective(a: string, b: string)
    requires ParseIsoDate(a).Some? && ParseIsoDate(b).Some?
    ensures DateKey(a) == DateKey(b) <==> a == b
  {
    OrdinalMonotone(ParseIsoDate(a).value, ParseIsoDate(b).value);
    IsoDateOfParseIsoDate(a);
    IsoDateOfParseIsoDate(b);
  }

  /** The sort is stable: records sharing a date keep their order. */
  lemma SortByDateStable<T(!new)>(s: seq<T>, date: T -> string, newestFirst: bool, ds: string)
    requires DatesValid(s, date) && ParseIsoDate(ds).Some?
    ensures Filter(SortByDate(s, date, newestFirst), OnDate(date, ds)) == Filter(s, OnDate(date, ds))
  {
    var key := ByDate(date, newestFirst);
    var k := if newestFirst then -DateKey(ds) else DateKey(ds);
    var r := SortByDate(s, date, newestFirst);
    SortByStable(s, key, k);
    forall x: T | ParseIsoDate(date(x)).Some?
      ensures key(x) == k <==> OnDate(date, ds)(x)
    {
      DateKeyInjective(date(x), ds);
    }
    WithKeyIsFilter(s, key, k, OnDate(date, ds));
    WithKeyIsFilter(r, key, k, OnDate(date, ds));
  }
}
