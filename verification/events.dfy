/** The public events page: reading the list from the localStorage mirror,
    splitting it into upcoming and past events at the current moment, the
    two sort orders, the hero, the date text, the month index and the
    past-section toggle. */
module Events {
  import opened Wrappers
  import opened Strings
  import opened Seqs
  import opened Dates
  import opened DateSort
  import opened Content
  import Storage

  const StorageKey: string := "alpha_events_v1"
  const Placeholder: string := "img/gallery-placeholder.jpg"

  /** `loadEvents`: the events page reads the localStorage mirror directly.
      `localOk` says whether localStorage can be read; `parse` stands for
      JSON.parse, None when it throws. */
  function LoadEvents(local: map<string, string>, localOk: bool, parse: string -> Option<seq<Event>>): (r: seq<Event>)
    ensures !localOk || StorageKey !in local || local[StorageKey] == "" ==> r == []
    ensures localOk && StorageKey in local && local[StorageKey] != "" ==>
              (parse(local[StorageKey]).Some? ==> r == parse(local[StorageKey]).value)
              && (parse(local[StorageKey]).None? ==> r == [])
  {
    if !localOk || StorageKey !in local || local[StorageKey] == "" then []
    else parse(local[StorageKey]).GetOr([])
  }

  /** Whatever happens to the remote write, a list the admin page saves with
      `setJSON` reaches the mirror whenever localStorage accepts it, and the
      events page reads it back. */
  lemma PageSeesAdminWrite(st: Storage.Store, events: seq<Event>, w: Storage.Env,
                           parse: string -> Option<seq<Event>>, stringify: seq<Event> -> Option<string>)
    requires w.localOk
    requires stringify(events).Some? && stringify(events).value != ""
    requires parse(stringify(events).value) == Some(events)
    ensures LoadEvents(Storage.SetJSON(st, StorageKey, events, w, stringify).store.local, true, parse) == events
  {
  }

  /** `event.end` is truthy. */
  predicate HasEnd(ev: Event) {
    ev.end.Some? && ev.end.value != ""
  }

  /** `isPast(event)` at the moment `now`. With an end date the event is past
      once that day has begun; without one, once the start day is over. A
      date that does not parse compares false, so such an event is never
      past. */
  predicate IsPast(ev: Event, now: Moment): (r: bool)
    ensures r ==> ParseIsoDate(EndOrStart(ev)).Some? && Earlier(StartOf(ParseIsoDate(EndOrStart(ev)).value), now)
    ensures r && !HasEnd(ev) ==> ParseIsoDate(ev.start).value != now.date
  {
    if HasEnd(ev) then
      match ParseIsoDate(ev.end.value)
      case None => false
      case Some(e) => Earlier(StartOf(e), now)
    else
      match ParseIsoDate(ev.start)
      case None => false
      case Some(s) => Earlier(StartOf(s), now) && s != now.date
  }

  /** By calendar day: an event without an end is past exactly when it
      started on an earlier day; one with an end, when the end day is earlier
      or is today and the day has begun. */
  lemma IsPastByDay(ev: Event, now: Moment)
    ensures !HasEnd(ev) ==>
              (IsPast(ev, now) <==> ParseIsoDate(ev.start).Some? && Before(ParseIsoDate(ev.start).value, now.date))
    ensures HasEnd(ev) ==>
              (IsPast(ev, now) <==>
                 && ParseIsoDate(ev.end.value).Some?
                 && (|| Before(ParseIsoDate(ev.end.value).value, now.date)
                     || (ParseIsoDate(ev.end.value).value == now.date && 0 < now.ms)))
  {
  }

  /** With the local zone taken as UTC, an event whose end date is today is
      listed as past from the first millisecond of the day, while one without
      an end that starts today is not. */
  lemma EndingTodayIsPast(ev: Event, now: Moment)
    requires 0 < now.ms
    ensures HasEnd(ev) && ParseIsoDate(ev.end.value) == Some(now.date) ==> IsPast(ev, now)
    ensures !HasEnd(ev) && ParseIsoDate(ev.start) == Some(now.date) ==> !IsPast(ev, now)
  {
  }

  function PastAt(now: Moment): Event -> bool {
    (ev: Event) => IsPast(ev, now)
  }

  function NotPastAt(now: Moment): Event -> bool {
    (ev: Event) => !IsPast(ev, now)
  }

  /** Every event lands in exactly one of the two lists. */
  lemma Partition(all: seq<Event>, now: Moment)
    ensures multiset(Filter(all, NotPastAt(now))) + multiset(Filter(all, PastAt(now))) == multiset(all)
    ensures forall ev :: !(ev in Filter(all, NotPastAt(now)) && ev in Filter(all, PastAt(now)))
  {
    FilterMultiset(all, NotPastAt(now));
    FilterMultiset(all, PastAt(now));
    forall ev: Event
      ensures multiset(Filter(all, NotPastAt(now)))[ev] + multiset(Filter(all, PastAt(now)))[ev] == multiset(all)[ev]
    {
      if IsPast(ev, now) {
        assert !NotPastAt(now)(ev);
        assert ev !in Filter(all, NotPastAt(now));
      } else {
        assert !PastAt(now)(ev);
        assert ev !in Filter(all, PastAt(now));
      }
    }
  }

  /** Once past, an event stays past: `isPast` at a moment `t1` implies it
      at any moment `t2` no earlier. */
  lemma IsPastMonotone(ev: Event, t1: Moment, t2: Moment)
    requires !Earlier(t2, t1)
    ensures IsPast(ev, t1) ==> IsPast(ev, t2)
  {
    if IsPast(ev, t1) {
      IsPastByDay(ev, t1);
      IsPastByDay(ev, t2);
    }
  }

  /** Each `isPast` call reads the clock anew, so the upcoming filter may see
      a moment `t1` and the later past filter a moment `t2`. Because the
      upcoming list is built first, no event is lost; an event is in both
      lists exactly when it turned past in between. */
  lemma PartitionTwoClocks(all: seq<Event>, t1: Moment, t2: Moment)
    requires !Earlier(t2, t1)
    ensures forall ev :: ev in all ==> ev in Filter(all, NotPastAt(t1)) || ev in Filter(all, PastAt(t2))
    ensures forall ev :: ev in Filter(all, NotPastAt(t1)) && ev in Filter(all, PastAt(t2)) <==>
                         ev in all && !IsPast(ev, t1) && IsPast(ev, t2)
  {
    forall ev | ev in all
      ensures ev in Filter(all, NotPastAt(t1)) || ev in Filter(all, PastAt(t2))
    {
      IsPastMonotone(ev, t1, t2);
      if IsPast(ev, t1) {
        assert PastAt(t2)(ev);
      } else {
        assert NotPastAt(t1)(ev);
      }
    }
  }

  function EventStart(ev: Event): string {
    ev.start
  }

  /** `b.end || b.start`, the date the past list sorts by. */
  function EndOrStart(ev: Event): string {
    if HasEnd(ev) then ev.end.value else ev.start
  }

  /** The sorts need the dates they compare to parse; past events always have
      such a date, upcoming ones need a valid start. */
  predicate UpcomingStartsValid(all: seq<Event>, now: Moment) {
    forall i :: 0 <= i < |all| && !IsPast(all[i], now) ==> ParseIsoDate(all[i].start).Some?
  }

  /** The hero: the next event's image and line, or the placeholder. */
  datatype Hero = Featured(thumb: string, line: string) | NoneUpcoming

  /** What `buildLists` shows: the two lists, the hero, and whether the past
      section is hidden. */
  datatype Lists = Lists(upcoming: seq<Event>, past: seq<Event>, hero: Hero, pastHidden: bool)

  /** `all.filter(e => !isPast(e)).sort(...)`: the upcoming events, soonest
      first (not latest first as the comments in events.js say). */
  function Upcoming(all: seq<Event>, now: Moment): (r: seq<Event>)
    requires UpcomingStartsValid(all, now)
    ensures multiset(r) == multiset(Filter(all, NotPastAt(now)))
    ensures forall ev :: ev in r <==> ev in all && !IsPast(ev, now)
    ensures DatesValid(r, EventStart) && Chronological(r, EventStart, false)
  {
    var up := Filter(all, NotPastAt(now));
    assert DatesValid(up, EventStart) by {
      forall i | 0 <= i < |up|
        ensures ParseIsoDate(up[i].start).Some?
      {
        assert up[i] in all;
      }
    }
    var r := SortByDate(up, EventStart, false);
    SameMembers(r, up);
    r
  }

  /** `all.filter(e => isPast(e)).sort(...)`: the past events, latest first
      by end, or by start when there is no end. */
  function PastEvents(all: seq<Event>, now: Moment): (r: seq<Event>)
    ensures multiset(r) == multiset(Filter(all, PastAt(now)))
    ensures forall ev :: ev in r <==> ev in all && IsPast(ev, now)
    ensures DatesValid(r, EndOrStart) && Chronological(r, EndOrStart, true)
  {
    var past := Filter(all, PastAt(now));
    assert DatesValid(past, EndOrStart) by {
      forall i | 0 <= i < |past|
        ensures ParseIsoDate(EndOrStart(past[i])).Some?
      {
        assert PastAt(now)(past[i]);
      }
    }
    var r := SortByDate(past, EndOrStart, true);
    SameMembers(r, past);
    r
  }

  /** The hero for a list of upcoming events: the first one's image and its
      title with its dates, or the placeholder. */
  function HeroFor(upcoming: seq<Event>): (h: Hero)
    ensures h.NoneUpcoming? <==> |upcoming| == 0
    ensures h.Featured? ==> h.thumb == upcoming[0].thumb
    ensures h.Featured? ==> h.line == upcoming[0].title + " — " + FormatDates(upcoming[0].start, upcoming[0].end)
  {
    if |upcoming| == 0 then NoneUpcoming
    else Featured(upcoming[0].thumb, upcoming[0].title + " — " + FormatDates(upcoming[0].start, upcoming[0].end))
  }

  /** `buildLists` at the moment `now`: every event is in exactly one of the
      two lists, and the past section starts hidden. */
  function BuildLists(all: seq<Event>, now: Moment): (r: Lists)
    requires UpcomingStartsValid(all, now)
    ensures multiset(r.upcoming) + multiset(r.past) == multiset(all)
    ensures r.upcoming == Upcoming(all, now) && r.past == PastEvents(all, now)
    ensures r.hero == HeroFor(r.upcoming)
    ensures r.pastHidden
  {
    Partition(all, now);
    var up := Upcoming(all, now);
    Lists(up, PastEvents(all, now), HeroFor(up), true)
  }

  /** The hero event starts no later than any other upcoming event. */
  lemma HeroIsSoonest(all: seq<Event>, now: Moment)
    requires UpcomingStartsValid(all, now)
    ensures var r := BuildLists(all, now);
              forall i :: 0 < i < |r.upcoming| ==>
                !Before(ParseIsoDate(r.upcoming[i].start).value, ParseIsoDate(r.upcoming[0].start).value)
  {
    var r := BuildLists(all, now);
    assert Chronological(r.upcoming, EventStart, false);
    assert r.upcoming == Upcoming(all, now);
  }

  /** The text `formatDates` gives one date: "YYYY/MM/DD" with the year
      unpadded, "NaN/NaN/NaN" for a date that does not parse. */
  function DayText(s: string): string {
    match ParseIsoDate(s)
    case Some(d) => SlashDate(d)
    case None => "NaN/NaN/NaN"
  }

  /** `formatDates(start, end)`: the start, then " 〜 " and the end only when
      the end is truthy. */
  function FormatDates(start: string, end: Option<string>): (r: string)
    ensures !(end.Some? && end.value != "") ==> r == DayText(start)
    ensures end.Some? && end.value != "" ==> r == DayText(start) + " 〜 " + DayText(end.value)
  {
    var s := DayText(start);
    if end.Some? && end.value != "" then s + " 〜 " + DayText(end.value) else s
  }

  /** For a stored date with a four-digit year the printed form is the
      stored text with slashes for hyphens, and an invalid date prints as
      NaN in every field. */
  lemma DayTextOfIso(s: string)
    ensures ParseIsoDate(s).Some? && s[0] != '0' ==> DayText(s) == s[..4] + "/" + s[5..7] + "/" + s[8..]
    ensures ParseIsoDate(s).None? ==> DayText(s) == "NaN/NaN/NaN"
  {
    if ParseIsoDate(s).Some? && s[0] != '0' {
      SlashDateOfIso(s);
    }
  }

  function Starts(all: seq<Event>): (r: seq<string>)
    ensures |r| == |all|
    ensures forall i :: 0 <= i < |all| ==> r[i] == all[i].start
  {
    seq(|all|, i requires 0 <= i < |all| => all[i].start)
  }

  /** `buildTOC`: the months in which some event with a valid start begins,
      each once, newest first. */
  function TocKeys(all: seq<Event>): (r: seq<string>)
    ensures StrictlyDescending(r)
    ensures forall i, j :: 0 <= i < j < |r| ==> r[i] != r[j]
    ensures forall k :: k in r <==> exists i :: 0 <= i < |all| && MonthKeyOf(all[i].start) == Some(k)
  {
    var r := MonthKeys(Starts(all));
    StrictlyDescendingDistinct(r);
    assert forall k :: k in r <==> exists i :: 0 <= i < |all| && MonthKeyOf(all[i].start) == Some(k) by {
      forall k
        ensures k in r <==> exists i :: 0 <= i < |all| && MonthKeyOf(all[i].start) == Some(k)
      {
        if k in r {
          var i :| 0 <= i < |Starts(all)| && MonthKeyOf(Starts(all)[i]) == Some(k);
          assert MonthKeyOf(all[i].start) == Some(k);
        }
        if exists i :: 0 <= i < |all| && MonthKeyOf(all[i].start) == Some(k) {
          var i :| 0 <= i < |all| && MonthKeyOf(all[i].start) == Some(k);
          assert MonthKeyOf(Starts(all)[i]) == Some(k);
        }
      }
    }
    r
  }

  /** The month index is the only descending repeat-free list of those
      months. */
  lemma TocKeysUnique(all: seq<Event>, keys: seq<string>)
    requires StrictlyDescending(keys)
    requires forall k :: k in keys <==> exists i :: 0 <= i < |all| && MonthKeyOf(all[i].start) == Some(k)
    ensures keys == TocKeys(all)
  {
    DescendingUnique(keys, TocKeys(all));
  }

  const ShowPastLabel: string := "過去のイベントを表示"
  const HidePastLabel: string := "過去のイベントを非表示"

  /** The past section's `aria-hidden` state and its button's caption. */
  datatype PastSection = PastSection(hidden: bool, caption: string)

  predicate Consistent(p: PastSection) {
    p.caption == if p.hidden then ShowPastLabel else HidePastLabel
  }

  /** What every `buildLists` resets the section to. */
  const Initial: PastSection := PastSection(true, ShowPastLabel)

  /** The show-past button: shows a hidden section and hides a shown one,
      with the caption offering the opposite. */
  function TogglePast(p: PastSection): (r: PastSection)
    ensures r.hidden == !p.hidden
    ensures Consistent(r)
  {
    if p.hidden then PastSection(false, HidePastLabel) else PastSection(true, ShowPastLabel)
  }

  /** Pressing the button twice restores the section. */
  lemma ToggleTwice(p: PastSection)
    requires Consistent(p)
    ensures TogglePast(TogglePast(p)) == p
  {
  }
}
