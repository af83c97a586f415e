/** The public gallery page: the stored list newest first, the pictures
    grouped by month, the rotating hero image, and the enlarged view with its
    previous / next navigation. */
module Gallery {
  import opened Wrappers
  import opened JsValues
  import opened Seqs
  import opened Dates
  import opened DateSort
  import opened Content
  import Cyclic

  const StorageKey: string := "alpha_gallery_items_v1"
  const Placeholder: string := "img/gallery-placeholder.jpg"

  /** Milliseconds between two hero images. */
  const HeroInterval: nat := 5000

  /** Swipes shorter than this many pixels are ignored. */
  const SwipeThreshold: nat := 40

  /** `getAllItems`: the loaded list, newest first, pictures of the same day
      in stored order. */
  function GetAllItems(got: Completion<Option<seq<Item>>>): (r: seq<Item>)
    requires DatesValid(LoadOrEmpty(got), ItemDate)
    ensures multiset(r) == multiset(LoadOrEmpty(got))
    ensures DatesValid(r, ItemDate)
    ensures forall i, j :: 0 <= i < j < |r| ==> !Before(ParseIsoDate(r[i].date).value, ParseIsoDate(r[j].date).value)
  {
    var r := SortByDate(LoadOrEmpty(got), ItemDate, true);
    assert Chronological(r, ItemDate, true);
    r
  }

  /** Pictures taken on the same day keep their stored order. */
  lemma GetAllItemsStable(got: Completion<Option<seq<Item>>>, day: string)
    requires DatesValid(LoadOrEmpty(got), ItemDate) && ParseIsoDate(day).Some?
    ensures Filter(GetAllItems(got), OnDate(ItemDate, day)) == Filter(LoadOrEmpty(got), OnDate(ItemDate, day))
  {
    SortByDateStable(LoadOrEmpty(got), ItemDate, true, day);
  }

  /** `buildHeroList`: every src once, in order of first appearance. */
  function BuildHeroList(items: seq<Item>): (r: seq<string>)
    ensures Distinct(r)
    ensures forall x :: x in r <==> x in Srcs(items)
    ensures forall x :: x in r <==> exists i :: 0 <= i < |items| && items[i].src == x
    ensures forall i, j :: 0 <= i < j < |r| ==> FirstIndex(Srcs(items), r[i]) < FirstIndex(Srcs(items), r[j])
  {
    var srcs := Srcs(items);
    var r := Dedup(srcs);
    assert forall x :: x in srcs <==> exists i :: 0 <= i < |items| && items[i].src == x by {
      forall x
        ensures x in srcs <==> exists i :: 0 <= i < |items| && items[i].src == x
      {
        if x in srcs {
          var i :| 0 <= i < |srcs| && srcs[i] == x;
          assert items[i].src == x;
        }
      }
    }
    r
  }

  /** The hero rotator: the placeholder when there is no picture, otherwise
      the picture list and the index on show. */
  datatype Hero = Still | Rotating(srcs: seq<string>, idx: nat)

  predicate HeroValid(h: Hero) {
    h.Rotating? ==> 0 < |h.srcs| && h.idx < |h.srcs|
  }

  /** `startHeroRotation(srcs)`; `start` is the value of
      `Math.floor(Math.random() * srcs.length)`. */
  function StartHero(srcs: seq<string>, start: nat): (r: Hero)
    requires |srcs| > 0 ==> start < |srcs|
    ensures HeroValid(r)
    ensures r.Still? <==> |srcs| == 0
  {
    if |srcs| == 0 then Still else Rotating(srcs, start)
  }

  /** The background image shown. */
  function HeroImage(h: Hero): (url: string)
    requires HeroValid(h)
    ensures h.Still? ==> url == Placeholder
    ensures h.Rotating? ==> url in h.srcs && url == h.srcs[h.idx]
  {
    if h.Still? then Placeholder else h.srcs[h.idx]
  }

  /** One interval tick: the next picture, wrapping after the last. */
  function HeroTick(h: Hero): (r: Hero)
    requires HeroValid(h)
    ensures HeroValid(r)
    ensures r.Still? <==> h.Still?
    ensures h.Rotating? ==> r.srcs == h.srcs && r.idx == Cyclic.Next(h.idx, |h.srcs|)
  {
    if h.Still? then h else Rotating(h.srcs, (h.idx + 1) % |h.srcs|)
  }

  function HeroAfter(h: Hero, k: nat): (r: Hero)
    requires HeroValid(h)
    ensures HeroValid(r)
  {
    if k == 0 then h else HeroTick(HeroAfter(h, k - 1))
  }

  /** After `k` ticks the picture on show is the one `k` places further
      round the list, so every picture comes up once per `|srcs|` ticks. */
  lemma {:induction false} HeroAfterTicks(srcs: seq<string>, start: nat, k: nat)
    requires 0 < |srcs| && start < |srcs|
    ensures HeroAfter(StartHero(srcs, start), k) == Rotating(srcs, (start + k) % |srcs|)
  {
    RotatingAfter(srcs, start, k);
    Cyclic.AfterSteps(start, |srcs|, k);
  }

  /** The picture on show after `k` ticks. */
  lemma HeroImageAfterTicks(srcs: seq<string>, start: nat, k: nat)
    requires 0 < |srcs| && start < |srcs|
    ensures HeroImage(HeroAfter(StartHero(srcs, start), k)) == srcs[(start + k) % |srcs|]
  {
    HeroAfterTicks(srcs, start, k);
  }

  lemma {:induction false} RotatingAfter(srcs: seq<string>, start: nat, k: nat)
    requires 0 < |srcs| && start < |srcs|
    ensures HeroAfter(StartHero(srcs, start), k) == Rotating(srcs, Cyclic.After(start, |srcs|, k))
  {
    if k > 0 {
      RotatingAfter(srcs, start, k - 1);
    }
  }

  /** One month of `groupByMonth`: its key and the positions in `items` of
      its pictures, in list order. */
  datatype MonthGroup = MonthGroup(key: string, members: seq<nat>)

  function InMonth(key: string): Item -> bool {
    (it: Item) => MonthKeyOf(it.date) == Some(key)
  }

  function Keys(groups: seq<MonthGroup>): (r: seq<string>)
    ensures |r| == |groups|
    ensures forall g :: 0 <= g < |groups| ==> r[g] == groups[g].key
  {
    seq(|groups|, g requires 0 <= g < |groups| => groups[g].key)
  }

  /** `groupByMonth`: one group per month, newest month first, each holding
      the positions of its pictures in list order. A card's index is its
      position in `items`, which is what `items.indexOf(item)` gives for the
      card's own object. `GroupByMonthCovers` and `GroupMembers` state which
      months and pictures appear. */
  function GroupByMonth(items: seq<Item>): (r: seq<MonthGroup>)
    ensures StrictlyDescending(Keys(r))
    ensures forall g :: 0 <= g < |r| ==> r[g].members == Positions(items, InMonth(r[g].key))
  {
    var keys := MonthKeys(DatesOf(items));
    var r := seq(|keys|, i requires 0 <= i < |keys| => MonthGroup(keys[i], Positions(items, InMonth(keys[i]))));
    assert Keys(r) == keys;
    r
  }

  /** There is a group for a month exactly when some picture's date falls in
      it, and no group is empty. */
  lemma GroupByMonthCovers(items: seq<Item>)
    ensures forall k :: k in Keys(GroupByMonth(items)) <==> exists p :: 0 <= p < |items| && MonthKeyOf(items[p].date) == Some(k)
    ensures forall g :: 0 <= g < |GroupByMonth(items)| ==> |GroupByMonth(items)[g].members| > 0
  {
    var r := GroupByMonth(items);
    var dates := DatesOf(items);
    var keys := MonthKeys(dates);
    assert Keys(r) == keys;
    forall k
      ensures k in keys <==> exists p :: 0 <= p < |items| && MonthKeyOf(items[p].date) == Some(k)
    {
      if k in keys {
        var p :| 0 <= p < |dates| && MonthKeyOf(dates[p]) == Some(k);
        assert MonthKeyOf(items[p].date) == Some(k);
      }
      if exists p :: 0 <= p < |items| && MonthKeyOf(items[p].date) == Some(k) {
        var p :| 0 <= p < |items| && MonthKeyOf(items[p].date) == Some(k);
        assert MonthKeyOf(dates[p]) == Some(k);
      }
    }
    forall g | 0 <= g < |r|
      ensures |r[g].members| > 0
    {
      assert r[g].key in Keys(r);
      var p :| 0 <= p < |items| && MonthKeyOf(items[p].date) == Some(r[g].key);
      assert InMonth(r[g].key)(items[p]);
      assert p in r[g].members;
    }
  }

  /** A picture is in a group exactly when its date falls in that group's
      month; pictures with an invalid date are in no group. */
  lemma GroupMembers(items: seq<Item>, g: nat, p: nat)
    requires g < |GroupByMonth(items)|
    ensures p in GroupByMonth(items)[g].members <==> p < |items| && MonthKeyOf(items[p].date) == Some(GroupByMonth(items)[g].key)
  {
    var r := GroupByMonth(items);
    if p < |items| && MonthKeyOf(items[p].date) == Some(r[g].key) {
      assert InMonth(r[g].key)(items[p]);
    }
  }

  /** Different groups hold different pictures: every picture is shown at
      most once. */
  lemma GroupsDisjoint(items: seq<Item>, g1: nat, g2: nat, p: nat)
    requires g1 < g2 < |GroupByMonth(items)|
    ensures !(p in GroupByMonth(items)[g1].members && p in GroupByMonth(items)[g2].members)
  {
    var r := GroupByMonth(items);
    StrictlyDescendingDistinct(Keys(r));
    assert r[g1].key != r[g2].key;
    GroupMembers(items, g1, p);
    GroupMembers(items, g2, p);
  }

  /** The enlarged view: `currentIndex` into the current list (-1 when
      closed) and the length of that list. */
  predicate ModalValid(cur: int, n: nat) {
    -1 <= cur < n
  }

  /** `openModal(index)`: ignored unless `index` is a position of the list. */
  function OpenModal(cur: int, n: nat, index: int): (r: int)
    ensures 0 <= index < n ==> r == index
    ensures !(0 <= index < n) ==> r == cur
  {
    if index < 0 || index >= n then cur else index
  }

  /** `closeModal()`: back to the closed state, whatever was open. */
  function CloseModal(cur: int, n: nat): (r: int)
    ensures ModalValid(r, n) && r < 0
  {
    -1
  }

  /** Closing never blocks reopening: after a close, opening any position of
      the list shows it, and "previous" stays closed. */
  lemma CloseThenOpen(cur: int, n: nat, index: int)
    requires 0 <= index < n
    ensures OpenModal(CloseModal(cur, n), n, index) == index
    ensures ShowPrev(CloseModal(cur, n), n) == CloseModal(cur, n)
  {
  }

  /** `showPrev`: the previous picture, nothing at the first or when closed.
      `renderGallery` replaces the list without resetting the index, so with
      the modal open the index may lie beyond a shorter new list; then
      `openModal` refuses `cur - 1` unless it is back in range. */
  function ShowPrev(cur: int, n: nat): (r: int)
    ensures ModalValid(cur, n) ==> ModalValid(r, n)
    ensures cur <= 0 ==> r == cur
    ensures 0 < cur <= n ==> r == cur - 1
    ensures cur > n ==> r == cur
  {
    if cur <= 0 then cur else OpenModal(cur, n, cur - 1)
  }

  /** `showNext`: the next picture, nothing at the last. From the closed
      state (-1) it opens the first picture. */
  function ShowNext(cur: int, n: nat): (r: int)
    ensures ModalValid(cur, n) ==> ModalValid(r, n)
    ensures cur >= n - 1 ==> r == cur
    ensures -1 <= cur < n - 1 ==> r == cur + 1
    ensures cur < -1 ==> r == cur
  {
    if cur >= n - 1 then cur else OpenModal(cur, n, cur + 1)
  }

  /** Previous undoes next and next undoes previous, wherever they move. */
  lemma PrevNextInverse(cur: int, n: nat)
    requires ModalValid(cur, n)
    ensures 0 <= cur < n - 1 ==> ShowPrev(ShowNext(cur, n), n) == cur
    ensures 0 < cur ==> ShowNext(ShowPrev(cur, n), n) == cur
  {
  }

  /** A horizontal swipe of `dx` pixels on the picture: longer than the
      threshold to the right shows the previous picture, to the left the
      next. */
  function Swipe(cur: int, n: nat, dx: int): (r: int)
    ensures ModalValid(cur, n) ==> ModalValid(r, n)
    ensures -(SwipeThreshold as int) <= dx <= SwipeThreshold as int ==> r == cur
    ensures dx > SwipeThreshold as int ==> r == ShowPrev(cur, n)
    ensures dx < -(SwipeThreshold as int) ==> r == ShowNext(cur, n)
  {
    if (if dx < 0 then -dx else dx) > SwipeThreshold as int then
      if dx > 0 then ShowPrev(cur, n) else ShowNext(cur, n)
    else cur
  }

  /** A long swipe one way undoes a long swipe the other way, away from the
      ends of the list. */
  lemma SwipeBack(cur: int, n: nat, dx: int)
    requires ModalValid(cur, n) && dx > SwipeThreshold as int
    ensures 0 < cur ==> Swipe(Swipe(cur, n, dx), n, -dx) == cur
    ensures 0 <= cur < n - 1 ==> Swipe(Swipe(cur, n, -dx), n, dx) == cur
  {
    PrevNextInverse(cur, n);
  }

  /** `renderGallery` with the modal open: the list is replaced and
      `currentIndex` kept, whatever the new length. */
  function Rerender(cur: int, newLength: nat): (r: int)
    ensures r == cur
    ensures ModalValid(r, newLength) <==> -1 <= cur < newLength
  {
    cur
  }

  /** After a re-render that left the index beyond the new list, "next" stays
      stuck, and "previous" comes back into the list only from just past its
      end; from further out both buttons do nothing until the modal is
      closed or a card is opened. */
  lemma StaleIndexAfterRerender(cur: int, n: nat)
    requires Rerender(cur, n) >= n
    ensures ShowNext(Rerender(cur, n), n) == cur
    ensures ModalValid(ShowPrev(Rerender(cur, n), n), n) <==> cur == n && n > 0
    ensures ModalValid(CloseModal(cur, n), n)
  {
  }
}
