/** The gallery admin page: normalising what is loaded, the search / year /
    month filter, paging through the filtered list 24 cards at a time, the
    bulk selection buttons, and the changes it saves (delete selected,
    delete from the preview, add files). The saving itself goes through
    `Storage.ApiSetJSON`; here a change is the list that would be saved,
    None when nothing is saved. */
module GalleryAdmin {
  import opened Wrappers
  import opened Strings
  import opened Seqs
  import opened Dates
  import opened Content
  import opened DateSort
  import opened JsValues

  const StorageKey: string := "alpha_gallery_items_v1"

  /** Cards rendered per page. */
  const PageSize: nat := 24

  function NormaliseItem(it: RawItem, today: string): Item {
    Item(
      it.src,
      if it.date.Some? && it.date.value != "" then it.date.value else today,
      it.desc.GetOr(""))
  }

  /** `init`: every item gets a date (today's, `toISOString().slice(0, 10)`,
      when it has none or an empty one) and a string description. */
  function Normalise(items: seq<RawItem>, today: string): (r: seq<Item>)
    ensures |r| == |items|
    ensures forall i :: 0 <= i < |r| ==> r[i].src == items[i].src
    ensures forall i :: 0 <= i < |r| ==> r[i].date == today || items[i].date == Some(r[i].date)
    ensures today != "" ==> forall i :: 0 <= i < |r| ==> r[i].date != ""
    ensures forall i :: 0 <= i < |r| ==> items[i].date.Some? && items[i].date.value != "" ==> r[i].date == items[i].date.value
    ensures forall i :: 0 <= i < |r| ==> r[i].desc == if items[i].desc.Some? then items[i].desc.value else ""
  {
    seq(|items|, i requires 0 <= i < |items| => NormaliseItem(items[i], today))
  }

  function ToRaw(it: Item): RawItem {
    RawItem(it.src, Some(it.date), Some(it.desc))
  }

  /** Normalising an already normalised list changes nothing. */
  lemma NormaliseIdempotent(items: seq<RawItem>, today: string)
    requires today != ""
    ensures var n := Normalise(items, today);
              Normalise(seq(|n|, i requires 0 <= i < |n| => ToRaw(n[i])), today) == n
  {
  }

  /** When today is given as `toISOString().slice(0, 10)`, every item that
      had no date now carries a valid one. */
  lemma NormalisedDefaultDateIsValid(items: seq<RawItem>, today: Date)
    requires ValidDate(today) && today.year < 10000
    ensures forall i :: 0 <= i < |items| && (items[i].date.None? || items[i].date == Some("")) ==>
              ParseIsoDate(Normalise(items, IsoDate(today))[i].date) == Some(today)
  {
    ParseIsoDateOfIsoDate(today);
  }

  /** The test `applyFiltersAndRender` applies to each item: `query` is the
      search box text, `year` and `month` the selected option values, ""
      meaning "all". */
  predicate Matches(it: Item, query: string, year: string, month: string): (r: bool)
    ensures ToLower(Trim(query)) == "" && year == "" && month == "" ==> r
    ensures r && ToLower(Trim(query)) != "" ==> Includes(ToLower(it.desc), ToLower(Trim(query)))
    ensures r && (year != "" || month != "") ==> ParseIsoDate(it.date).Some?
    ensures r && year != "" ==> NatToString(ParseIsoDate(it.date).value.year) == year
    ensures r && month != "" ==> Pad2(ParseIsoDate(it.date).value.month) == month
  {
    var q := ToLower(Trim(query));
    var d := ParseIsoDate(it.date);
    && (q == "" || Includes(ToLower(it.desc), q))
    && (year == "" || (d.Some? && NatToString(d.value.year) == year))
    && (month == "" || (d.Some? && Pad2(d.value.month) == month))
  }

  function Criteria(query: string, year: string, month: string): Item -> bool {
    (it: Item) => Matches(it, query, year, month)
  }

  /** `filtered = items.filter(...)` */
  function ApplyFilter(items: seq<Item>, query: string, year: string, month: string): (r: seq<Item>)
    ensures forall it :: it in r <==> it in items && Matches(it, query, year, month)
  {
    Filter(items, Criteria(query, year, month))
  }

  /** An item passes exactly when the trimmed, lower-cased query is empty or
      occurs in its lower-cased description, and each of year and month is
      unset or equal to the item's. */
  lemma MatchesIff(it: Item, query: string, year: string, month: string)
    ensures Matches(it, query, year, month) <==>
      && (ToLower(Trim(query)) == "" || exists i :: OccursAt(ToLower(it.desc), ToLower(Trim(query)), i))
      && (year == "" || (ParseIsoDate(it.date).Some? && NatToString(ParseIsoDate(it.date).value.year) == year))
      && (month == "" || (ParseIsoDate(it.date).Some? && Pad2(ParseIsoDate(it.date).value.month) == month))
  {
    var q := ToLower(Trim(query));
    IncludesIffOccurs(ToLower(it.desc), q);
    assert Includes(ToLower(it.desc), q) <==> exists i :: OccursAt(ToLower(it.desc), q, i);
  }

  /** With a year or a month selected, items whose date does not parse are
      never shown. */
  lemma InvalidDatesExcluded(items: seq<Item>, query: string, year: string, month: string)
    requires year != "" || month != ""
    ensures forall it :: it in ApplyFilter(items, query, year, month) ==> ParseIsoDate(it.date).Some?
  {
  }

  /** With nothing to filter on, every item is shown, in order. */
  lemma {:induction false} NoCriteriaKeepsAll(items: seq<Item>, query: string)
    requires ToLower(Trim(query)) == ""
    ensures ApplyFilter(items, query, "", "") == items
    decreases |items|
  {
    if |items| > 0 {
      NoCriteriaKeepsAll(items[1..], query);
      assert items == [items[0]] + items[1..];
    }
  }

  /** The filter keeps the relative order of the items it keeps. */
  lemma ApplyFilterConcat(a: seq<Item>, b: seq<Item>, query: string, year: string, month: string)
    ensures ApplyFilter(a + b, query, year, month) == ApplyFilter(a, query, year, month) + ApplyFilter(b, query, year, month)
  {
    FilterConcat(a, b, Criteria(query, year, month));
  }

  /** Filtering the filtered list again changes nothing. */
  lemma ApplyFilterIdempotent(items: seq<Item>, query: string, year: string, month: string)
    ensures ApplyFilter(ApplyFilter(items, query, year, month), query, year, month) == ApplyFilter(items, query, year, month)
  {
    FilterIdempotent(items, Criteria(query, year, month));
  }

  /** The sort `applyFiltersAndRender` applies before filtering: oldest
      first when the sort option is "old", newest first otherwise; items on
      the same date keep their stored order (`DateSort.SortByDateStable`). */
  function SortView(items: seq<Item>, sortValue: string): (r: seq<Item>)
    requires DatesValid(items, ItemDate)
    ensures multiset(r) == multiset(items)
    ensures DatesValid(r, ItemDate)
    ensures forall i, j :: 0 <= i < j < |r| ==>
              var a := ParseIsoDate(r[i].date).value;
              var b := ParseIsoDate(r[j].date).value;
              if sortValue == "old" then !Before(b, a) else !Before(a, b)
  {
    var r := SortByDate(items, ItemDate, sortValue != "old");
    assert Chronological(r, ItemDate, sortValue != "old");
    r
  }

  /** `a` may be listed before `b` in the order the sort select asks for:
      oldest first for "old", newest first otherwise. */
  predicate ViewOrder(sortValue: string, a: Item, b: Item) {
    var da := ParseIsoDate(a.date);
    var db := ParseIsoDate(b.date);
    && da.Some? && db.Some?
    && (if sortValue == "old" then !Before(db.value, da.value) else !Before(da.value, db.value))
  }

  /** `applyFiltersAndRender` once the stored list is in hand: sort, then
      filter. */
  function View(stored: seq<Item>, sortValue: string, query: string, year: string, month: string): (r: seq<Item>)
    requires DatesValid(stored, ItemDate)
    ensures forall it :: it in r <==> it in stored && Matches(it, query, year, month)
    ensures forall it :: Matches(it, query, year, month) ==> multiset(r)[it] == multiset(stored)[it]
    ensures forall i, j :: 0 <= i < j < |r| ==> ViewOrder(sortValue, r[i], r[j])
  {
    var sorted := SortView(stored, sortValue);
    SameMembers(sorted, stored);
    FilterMultiset(sorted, Criteria(query, year, month));
    FilterKeepsOrder(sorted, Criteria(query, year, month), (a: Item, b: Item) => ViewOrder(sortValue, a, b));
    ApplyFilter(sorted, query, year, month)
  }

  /** The year filter's options: each year some item falls in, once, newest
      first. */
  function YearOptions(items: seq<Item>): (r: seq<nat>)
    ensures forall i, j :: 0 <= i < j < |r| ==> r[i] > r[j]
    ensures forall y :: y in r <==> exists i :: 0 <= i < |items| && ParseIsoDate(items[i].date).Some? && ParseIsoDate(items[i].date).value.year == y
  {
    if |items| == 0 then []
    else
      var p := items[..|items| - 1];
      var rest := YearOptions(p);
      assert forall i :: 0 <= i < |p| ==> items[i] == p[i];
      match ParseIsoDate(items[|items| - 1].date)
      case None => rest
      case Some(d) => InsertYear(d.year, rest)
  }

  function InsertYear(y: nat, s: seq<nat>): (r: seq<nat>)
    requires forall i, j :: 0 <= i < j < |s| ==> s[i] > s[j]
    ensures forall i, j :: 0 <= i < j < |r| ==> r[i] > r[j]
    ensures forall x :: x in r <==> x == y || x in s
  {
    if |s| == 0 then [y]
    else if y == s[0] then s
    else if y > s[0] then [y] + s
    else
      var t := InsertYear(y, s[1..]);
      var r := [s[0]] + t;
      forall i, j | 0 <= i < j < |r|
        ensures r[i] > r[j]
      {
        assert r[j] == t[j - 1] && t[j - 1] in t;
        if i > 0 {
          assert r[i] == t[i - 1];
        }
      }
      r
  }

  /** The month filter's options, "01" to "12". */
  function MonthOptions(): (r: seq<string>)
    ensures |r| == 12
    ensures forall i :: 0 <= i < 12 ==> r[i] == FixedDigits(i + 1, 2)
  {
    seq(12, i requires 0 <= i < 12 => Pad2(i + 1))
  }

  lemma EmptyQuery()
    ensures ToLower(Trim("")) == ""
  {
    var t := Trim("");
    var i :| TrimmedAt("", t, i);
  }

  /** Every year offered matches at least one item. */
  lemma YearOptionsNonEmpty(items: seq<Item>, y: nat)
    requires y in YearOptions(items)
    ensures exists it :: it in ApplyFilter(items, "", NatToString(y), "")
  {
    var i :| 0 <= i < |items| && ParseIsoDate(items[i].date).Some? && ParseIsoDate(items[i].date).value.year == y;
    EmptyQuery();
    assert Matches(items[i], "", NatToString(y), "");
    assert items[i] in ApplyFilter(items, "", NatToString(y), "");
  }

  /** One call of `renderNextPage`: cards `first .. first + count - 1` of the
      filtered list are appended, then the new `renderedCount` and whether the
      "load more" button shows. */
  datatype Page = Page(first: nat, count: nat, renderedCount: nat, loadMore: bool)

  function RenderNextPage(renderedCount: nat, total: nat): (r: Page)
    ensures r.first == renderedCount && r.count <= PageSize
    ensures r.renderedCount == r.first + r.count
    ensures r.count == 0 <==> total <= renderedCount
    ensures r.count > 0 ==> r.first + r.count <= total
    ensures r.count > 0 && r.count < PageSize ==> r.renderedCount == total
    ensures renderedCount <= total ==> r.renderedCount <= total
    ensures r.loadMore <==> r.renderedCount < total
  {
    var start := renderedCount;
    var end := if renderedCount + PageSize < total then renderedCount + PageSize else total;
    if start >= end then Page(start, 0, renderedCount, false)
    else Page(start, end - start, end, end < total)
  }

  /** `renderedCount` after resetting it to 0 and rendering `k` pages. */
  function RenderedAfter(total: nat, k: nat): nat {
    if k == 0 then 0 else RenderNextPage(RenderedAfter(total, k - 1), total).renderedCount
  }

  /** After a reset, `k` pages show the first `min(24 * k, total)` filtered
      items, each once: the windows are consecutive and never overlap. */
  lemma {:induction false} RenderedAfterPages(total: nat, k: nat)
    ensures RenderedAfter(total, k) == if PageSize * k < total then PageSize * k else total
  {
    if k > 0 {
      RenderedAfterPages(total, k - 1);
    }
  }

  /** Select all: every filtered src joins the selection; nothing leaves it. */
  function SelectAll(selected: set<string>, filtered: seq<Item>): (r: set<string>)
    ensures selected <= r
    ensures forall i :: 0 <= i < |filtered| ==> filtered[i].src in r
    ensures forall x :: x in r && x !in selected ==> x in Srcs(filtered)
  {
    selected + set i | 0 <= i < |filtered| :: filtered[i].src
  }

  function Toggle(selected: set<string>, x: string): set<string> {
    if x in selected then selected - {x} else selected + {x}
  }

  /** A card's checkbox changing: its src joins the selection when checked
      and leaves it when cleared; no other src is affected. */
  function CheckboxChange(selected: set<string>, src: string, checked: bool): (r: set<string>)
    ensures src in r <==> checked
    ensures forall x :: x != src ==> (x in r <==> x in selected)
  {
    if checked then selected + {src} else selected - {src}
  }

  /** Invert selection: each filtered item toggles its src in turn, so a src
      shared by two filtered items is toggled twice. */
  function Invert(selected: set<string>, srcs: seq<string>): (r: set<string>)
    ensures forall x :: x in r <==> (x in selected) != (multiset(srcs)[x] % 2 == 1)
    decreases |srcs|
  {
    if |srcs| == 0 then selected
    else
      InvertStep(selected, srcs);
      Invert(Toggle(selected, srcs[0]), srcs[1..])
  }

  /** Toggling the first src and taking the parities of the rest decides
      membership as taking the parities of all of them does. */
  lemma InvertStep(selected: set<string>, srcs: seq<string>)
    requires |srcs| > 0
    ensures forall x :: ((x in Toggle(selected, srcs[0])) != (multiset(srcs[1..])[x] % 2 == 1))
                        == ((x in selected) != (multiset(srcs)[x] % 2 == 1))
  {
    assert srcs == [srcs[0]] + srcs[1..];
    forall x
      ensures multiset(srcs)[x] == multiset(srcs[1..])[x] + (if x == srcs[0] then 1 else 0)
    {
      assert multiset(srcs) == multiset{srcs[0]} + multiset(srcs[1..]);
    }
  }

  /** Inverting twice restores the selection. */
  lemma InvertTwice(selected: set<string>, filtered: seq<Item>)
    ensures Invert(Invert(selected, Srcs(filtered)), Srcs(filtered)) == selected
  {
  }

  /** When no src repeats, inverting is the symmetric difference. */
  lemma InvertDistinct(selected: set<string>, srcs: seq<string>)
    requires Distinct(srcs)
    ensures forall x :: x in Invert(selected, srcs) <==> (x in selected) != (x in srcs)
  {
    forall x
      ensures multiset(srcs)[x] == if x in srcs then 1 else 0
    {
      DistinctCount(srcs, x);
    }
  }

  lemma {:induction false} DistinctCount(s: seq<string>, x: string)
    requires Distinct(s)
    ensures multiset(s)[x] == if x in s then 1 else 0
    decreases |s|
  {
    if |s| > 0 {
      assert s == [s[0]] + s[1..];
      DistinctCount(s[1..], x);
      if s[0] == x {
        assert x !in s[1..];
      }
    }
  }

  /** What "delete selected" leads to: the list it saves (None: nothing is
      saved) and the selection afterwards. */
  datatype Deletion = Deletion(saved: Option<seq<Item>>, selected: set<string>)

  function Unselected(selected: set<string>): Item -> bool {
    (it: Item) => it.src !in selected
  }

  /** Delete selected. With an empty selection, or when the confirmation is
      declined, nothing happens; otherwise exactly the stored items whose src
      is not selected are saved, in order, and the selection is cleared. */
  function DeleteSelected(all: seq<Item>, selected: set<string>, confirmed: bool): (r: Deletion)
    ensures r.saved.None? ==> r.selected == selected
    ensures r.saved.Some? <==> |selected| > 0 && confirmed
    ensures r.saved.Some? ==> r.selected == {}
    ensures r.saved.Some? ==> forall it :: it in r.saved.value <==> it in all && it.src !in selected
    ensures r.saved.Some? ==> forall it: Item :: it.src !in selected ==> multiset(r.saved.value)[it] == multiset(all)[it]
  {
    if |selected| == 0 || !confirmed then Deletion(None, selected)
    else
      FilterMultiset(all, Unselected(selected));
      Deletion(Some(Filter(all, Unselected(selected))), {})
  }

  function SameSrcAndDate(item: Item): Item -> bool {
    (it: Item) => it.src == item.src && it.date == item.date
  }

  /** Delete from the preview of filtered item `index`: removes the first
      stored item with the same src and date, and only that one. Nothing is
      saved when no preview is open (index -1), the index is past the
      filtered list (`item` is undefined and the handler throws), the
      confirmation is declined, or nothing matches. */
  function PreviewDelete(all: seq<Item>, filtered: seq<Item>, index: int, confirmed: bool): (r: Option<seq<Item>>)
    ensures r.Some? ==> 0 <= index < |filtered| && confirmed
    ensures 0 <= index < |filtered| && confirmed ==>
              var p := SameSrcAndDate(filtered[index]);
              && (r.None? <==> forall i :: 0 <= i < |all| ==> !p(all[i]))
              && (r.Some? ==> |r.value| == |all| - 1 && exists i :: FirstMatchRemoved(all, p, i, r.value))
  {
    if index < 0 || index >= |filtered| || !confirmed then None
    else RemoveFirst(all, SameSrcAndDate(filtered[index]))
  }

  /** How reading one chosen file ended: compressed to a JPEG data URL, read
      as-is after compression failed, or not readable at all. */
  datatype FileRead = Compressed(url: string) | AsIs(url: string) | Unreadable

  /** The data URLs of the readable files, in order. */
  function ReadUrls(files: seq<FileRead>): (r: seq<string>)
    ensures |r| <= |files|
    ensures (forall i :: 0 <= i < |files| ==> !files[i].Unreadable?) ==> |r| == |files|
    ensures forall u :: u in r <==> exists i :: 0 <= i < |files| && !files[i].Unreadable? && files[i].url == u
  {
    if |files| == 0 then []
    else (if files[0].Unreadable? then [] else [files[0].url]) + ReadUrls(files[1..])
  }

  /** The files are read one after another and each readable one pushes its
      URL (a sequential `for … of` with `push`): a single file gives its URL
      or nothing, and the URLs of two batches of files are those of the
      first batch followed by those of the second. */
  lemma {:induction false} ReadUrlsConcat(a: seq<FileRead>, b: seq<FileRead>)
    ensures forall u :: ReadUrls([Compressed(u)]) == [u] && ReadUrls([AsIs(u)]) == [u]
    ensures ReadUrls([Unreadable]) == []
    ensures ReadUrls(a + b) == ReadUrls(a) + ReadUrls(b)
    decreases |a|
  {
    forall u
      ensures ReadUrls([Compressed(u)]) == [u] && ReadUrls([AsIs(u)]) == [u]
    {
      assert [Compressed(u)][1..] == [];
      assert [AsIs(u)][1..] == [];
    }
    assert [Unreadable][1..] == [];
    if |a| == 0 {
      assert a + b == b;
    } else {
      assert (a + b)[0] == a[0];
      assert (a + b)[1..] == a[1..] + b;
      ReadUrlsConcat(a[1..], b);
    }
  }

  /** The add button: nothing with no file chosen; otherwise one item per
      readable file is appended, in order, all with the chosen date (today's
      when none) and the trimmed description. */
  function AddItems(arr: seq<Item>, files: seq<FileRead>, dateInput: string, descInput: string, today: string): (r: Option<seq<Item>>)
    ensures r.None? <==> |files| == 0
    ensures r.Some? ==> |r.value| == |arr| + |ReadUrls(files)| && r.value[..|arr|] == arr
    ensures r.Some? ==> Srcs(r.value[|arr|..]) == ReadUrls(files)
    ensures r.Some? ==> forall i :: |arr| <= i < |r.value| ==>
              r.value[i].date == (if dateInput != "" then dateInput else today) && r.value[i].desc == Trim(descInput)
  {
    if |files| == 0 then None
    else
      var date := if dateInput != "" then dateInput else today;
      var desc := Trim(descInput);
      var urls := ReadUrls(files);
      var added := seq(|urls|, i requires 0 <= i < |urls| => Item(urls[i], date, desc));
      assert (arr + added)[..|arr|] == arr;
      assert (arr + added)[|arr|..] == added;
      Some(arr + added)
  }

  /** What a call of `loadSaved()` evaluates to: the stored list when it is
      awaited, a pending Promise when the `await` is missing. */
  datatype Loaded = Pending | Resolved(items: seq<Item>)

  function LoadSaved(stored: seq<Item>, awaited: bool): (r: Loaded)
    ensures r.Resolved? <==> awaited
    ensures r.Resolved? ==> r.items == stored
  {
    if awaited then Resolved(stored) else Pending
  }

  /** `applyFiltersAndRender(true)`: the filtered list and the first page.
      `awaited` says whether `loadSaved()` is awaited; in the page as written
      it is not, the Promise has no `sort`, and the call throws. */
  function ApplyFiltersAndRender(stored: seq<Item>, awaited: bool, sortValue: string, query: string, year: string, month: string): (r: Completion<(seq<Item>, Page)>)
    requires DatesValid(stored, ItemDate)
    ensures r.Threw? <==> !awaited
    ensures r.Normal? ==> forall it :: it in r.value.0 <==> it in stored && Matches(it, query, year, month)
    ensures r.Normal? ==> forall i, j :: 0 <= i < j < |r.value.0| ==> ViewOrder(sortValue, r.value.0[i], r.value.0[j])
    ensures r.Normal? ==> r.value.1.first == 0 && (r.value.1.loadMore <==> PageSize < |r.value.0|)
  {
    match LoadSaved(stored, awaited)
    case Pending => Threw
    case Resolved(items) =>
      var filtered := View(items, sortValue, query, year, month);
      Normal((filtered, RenderNextPage(0, |filtered|)))
  }

  /** The "delete selected" handler; as written `loadSaved()` is not awaited
      and `all.filter` throws once the user has confirmed. */
  function DeleteSelectedHandler(stored: seq<Item>, awaited: bool, selected: set<string>, confirmed: bool): (r: Completion<Deletion>)
    ensures r.Threw? <==> !awaited && |selected| > 0 && confirmed
    ensures r.Normal? ==> r.value == DeleteSelected(stored, selected, confirmed)
  {
    if |selected| == 0 || !confirmed then Normal(DeleteSelected(stored, selected, confirmed))
    else
      match LoadSaved(stored, awaited)
      case Pending => Threw
      case Resolved(all) => Normal(DeleteSelected(all, selected, confirmed))
  }

  /** The preview delete handler; as written `loadSaved()` is not awaited and
      `all.findIndex` throws once the user has confirmed. */
  function PreviewDeleteHandler(stored: seq<Item>, awaited: bool, filtered: seq<Item>, index: int, confirmed: bool): (r: Completion<Option<seq<Item>>>)
    ensures r.Threw? <==> !awaited && 0 <= index && confirmed
    ensures r.Normal? ==> r.value == PreviewDelete(stored, filtered, index, confirmed)
  {
    if index < 0 || !confirmed then Normal(PreviewDelete(stored, filtered, index, confirmed))
    else
      match LoadSaved(stored, awaited)
      case Pending => Threw
      case Resolved(all) => Normal(PreviewDelete(all, filtered, index, confirmed))
  }

  /** As written, filtering fails on every call, so the page never lists a
      stored item; with the `await` it lists the matching ones. */
  lemma FiltersAsWrittenThrow(stored: seq<Item>, sortValue: string, query: string, year: string, month: string)
    requires DatesValid(stored, ItemDate)
    ensures ApplyFiltersAndRender(stored, false, sortValue, query, year, month) == Threw
    ensures ApplyFiltersAndRender(stored, true, sortValue, query, year, month) == Normal(
              var f := View(stored, sortValue, query, year, month); (f, RenderNextPage(0, |f|)))
  {
  }

  /** One selected picture: as written the confirmed deletion throws and the
      picture stays stored; with the `await` the empty list is saved. */
  lemma DeleteSelectedAsWrittenKeeps()
    ensures DeleteSelectedHandler([Item("a.jpg", "2024-05-01", "")], false, {"a.jpg"}, true) == Threw
    ensures DeleteSelectedHandler([Item("a.jpg", "2024-05-01", "")], true, {"a.jpg"}, true) == Normal(Deletion(Some([]), {}))
  {
    var all := [Item("a.jpg", "2024-05-01", "")];
    assert Filter(all, Unselected({"a.jpg"})) == [] by {
      assert !Unselected({"a.jpg"})(all[0]);
      assert all[1..] == [];
    }
  }

  /** One previewed picture: as written the confirmed deletion throws; with
      the `await` the picture is removed. */
  lemma PreviewDeleteAsWrittenKeeps()
    ensures PreviewDeleteHandler([Item("a.jpg", "2024-05-01", "")], false, [Item("a.jpg", "2024-05-01", "")], 0, true) == Threw
    ensures PreviewDeleteHandler([Item("a.jpg", "2024-05-01", "")], true, [Item("a.jpg", "2024-05-01", "")], 0, true) == Normal(Some([]))
  {
    var all := [Item("a.jpg", "2024-05-01", "")];
    var r := PreviewDelete(all, all, 0, true);
    assert SameSrcAndDate(all[0])(all[0]);
    assert r.Some?;
    assert |r.value| == 0;
  }
}
