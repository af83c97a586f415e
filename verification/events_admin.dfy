/** The events admin page: adding an event from the form, deleting one from
    its card (by id) or from the preview (by title, as written), the newest
    first admin list, and clearing everything. */
module EventsAdmin {
  import opened Wrappers
  import opened JsValues
  import opened Strings
  import opened Seqs
  import opened Content
  import Storage

  const StorageKey: string := "alpha_events_v1"

  /** The raw values of the form's inputs. */
  datatype Form = Form(title: string, start: string, end: string, desc: string)

  /** What pressing "add" leads to: one of the three alerts for missing
      input, the image alert when compressing the first file failed, or the
      list that is saved. */
  datatype AddResult = NoTitle | NoStart | NoFiles | ImageFailed | Added(events: seq<Event>)

  /** The add handler. `fileCount` is the number of chosen files, `thumb` the
      data URL compressing the first one gave (None when that rejected), and
      `now` the value of `Date.now()`. */
  function AddEvent(all: seq<Event>, form: Form, fileCount: nat, thumb: Option<string>, now: nat): (r: AddResult)
    ensures r.NoTitle? <==> Trim(form.title) == ""
    ensures r.NoStart? <==> Trim(form.title) != "" && form.start == ""
    ensures r.NoFiles? <==> Trim(form.title) != "" && form.start != "" && fileCount == 0
    ensures r.Added? <==> Trim(form.title) != "" && form.start != "" && fileCount > 0 && thumb.Some?
    ensures r.Added? ==> |r.events| == |all| + 1 && r.events[..|all|] == all
    ensures r.Added? ==>
              var ev := r.events[|all|];
              && ev.id == "evt-" + NatToString(now)
              && ev.title == Trim(form.title) && ev.desc == Trim(form.desc)
              && ev.start == form.start
              && (ev.end.None? <==> form.end == "")
              && (ev.end.Some? ==> ev.end.value == form.end)
              && ev.thumb == thumb.value
  {
    var title := Trim(form.title);
    if title == "" then NoTitle
    else if form.start == "" then NoStart
    else if fileCount == 0 then NoFiles
    else match thumb
      case None => ImageFailed
      case Some(url) =>
        var ev := Event("evt-" + NatToString(now), title, Trim(form.desc), form.start,
                        if form.end == "" then None else Some(form.end), url);
        assert (all + [ev])[..|all|] == all;
        Added(all + [ev])
  }

  /** An added event's title has no whitespace at either end. */
  lemma AddedTitleTrimmed(all: seq<Event>, form: Form, fileCount: nat, thumb: Option<string>, now: nat)
    requires AddEvent(all, form, fileCount, thumb, now).Added?
    ensures var t := AddEvent(all, form, fileCount, thumb, now).events[|all|].title;
              0 < |t| && !IsJsSpace(t[0]) && !IsJsSpace(t[|t| - 1])
  {
  }

  function HasId(id: string): Event -> bool {
    (e: Event) => e.id == id
  }

  /** The delete button of a card: after the confirmation, the first stored
      event with the card's id is removed and the list saved; nothing is
      saved when it was declined or no event has that id. */
  function DeleteById(all: seq<Event>, id: string, confirmed: bool): (r: Option<seq<Event>>)
    ensures r.Some? ==> confirmed
    ensures confirmed ==> (r.None? <==> forall i :: 0 <= i < |all| ==> all[i].id != id)
    ensures r.Some? ==> |r.value| == |all| - 1 && exists i :: FirstMatchRemoved(all, HasId(id), i, r.value)
  {
    if !confirmed then None else RemoveFirst(all, HasId(id))
  }

  /** Deleting the event just added, by its fresh id, gives back the list as
      it was. */
  lemma AddThenDelete(all: seq<Event>, form: Form, fileCount: nat, thumb: Option<string>, now: nat)
    requires AddEvent(all, form, fileCount, thumb, now).Added?
    requires forall i :: 0 <= i < |all| ==> all[i].id != "evt-" + NatToString(now)
    ensures DeleteById(AddEvent(all, form, fileCount, thumb, now).events, "evt-" + NatToString(now), true) == Some(all)
  {
    var s := AddEvent(all, form, fileCount, thumb, now).events;
    var p := HasId("evt-" + NatToString(now));
    var t := DeleteById(s, "evt-" + NatToString(now), true);
    assert p(s[|all|]);
    assert t.Some?;
    var i: nat :| FirstMatchRemoved(s, p, i, t.value);
    assert i == |all|;
    assert s[..i] == all;
    assert s[i + 1..] == [];
    assert t.value == all;
  }

  /** `ev.end ? ' 〜 ' + ev.end : ''` after the start: the range text of the
      card and the preview. */
  function RangeText(ev: Event): (r: string)
    ensures ev.end.None? || ev.end == Some("") ==> r == ev.start
    ensures ev.end.Some? && ev.end.value != "" ==> r == ev.start + " 〜 " + ev.end.value
  {
    ev.start + (if ev.end.Some? && ev.end.value != "" then " 〜 " + ev.end.value else "")
  }

  /** The preview's text: title, a dash, the range, and the description on
      the next line. */
  function MetaText(ev: Event): string {
    ev.title + " — " + RangeText(ev) + "\n" + ev.desc
  }

  /** The title the preview delete handler reads back from the preview text. */
  function PreviewTitle(ev: Event): string {
    Trim(BeforeFirst(MetaText(ev), '—'))
  }

  /** For a title without a dash and without whitespace at its ends (every
      title the add handler stores) the preview gives the title back. */
  lemma PreviewTitleOfPlainTitle(ev: Event)
    requires '—' !in ev.title
    requires |ev.title| == 0 || (!IsJsSpace(ev.title[0]) && !IsJsSpace(ev.title[|ev.title| - 1]))
    ensures PreviewTitle(ev) == ev.title
  {
    var rest := " " + RangeText(ev) + "\n" + ev.desc;
    assert MetaText(ev) == (ev.title + " ") + ['—'] + rest;
    BeforeFirstConcat(ev.title + " ", '—', rest);
    TrimPadded(ev.title);
  }

  function HasTitle(title: string): Event -> bool {
    (e: Event) => e.title == title
  }

  /** The preview's delete button as written: it removes the first stored
      event whose title equals the text before the first dash of the
      preview, which need not be the previewed event. */
  function PreviewDeleteByTitle(all: seq<Event>, previewed: Event, confirmed: bool): (r: Option<seq<Event>>)
    ensures r.Some? ==> confirmed
    ensures confirmed ==> (r.None? <==> forall i :: 0 <= i < |all| ==> all[i].title != PreviewTitle(previewed))
    ensures r.Some? ==> exists i :: FirstMatchRemoved(all, HasTitle(PreviewTitle(previewed)), i, r.value)
  {
    if !confirmed then None else RemoveFirst(all, HasTitle(PreviewTitle(previewed)))
  }

  /** A title that contains a dash reads back as the part before it. */
  lemma DashedTitleCut(ev: Event, head: string, tail: string)
    requires ev.title == head + " — " + tail
    requires '—' !in head && 0 < |head| && !IsJsSpace(head[0]) && !IsJsSpace(head[|head| - 1])
    ensures PreviewTitle(ev) == head
  {
    var rest := " " + tail + " — " + RangeText(ev) + "\n" + ev.desc;
    assert MetaText(ev) == (head + " ") + ['—'] + rest;
    BeforeFirstConcat(head + " ", '—', rest);
    TrimPadded(head);
  }

  /** An event titled, say, "Live — Tokyo" stored before one titled "Live":
      deleting the first from its preview removes the second and keeps the
      previewed one. */
  lemma PreviewDeleteByTitleWrongEvent(a: Event, b: Event, head: string, tail: string)
    requires a.title == head + " — " + tail && b.title == head
    requires '—' !in head && 0 < |head| && !IsJsSpace(head[0]) && !IsJsSpace(head[|head| - 1])
    ensures PreviewDeleteByTitle([a, b], a, true) == Some([a])
  {
    DashedTitleCut(a, head, tail);
    var p := HasTitle(head);
    assert |a.title| > |head|;
    assert !p(a) && p(b);
    assert [a, b][1..] == [b];
    assert FindFirst([b], p) == Some(0);
    assert FindFirst([a, b], p) == Some(1);
    assert [a, b][..1] + [a, b][2..] == [a];
    assert RemoveFirst([a, b], p) == Some([a, b][..1] + [a, b][2..]);
    assert HasTitle(PreviewTitle(a)) == p;
    assert PreviewDeleteByTitle([a, b], a, true) == RemoveFirst([a, b], p);
  }

  /** The preview delete as intended: the previewed event, by its id. */
  function PreviewDelete(all: seq<Event>, previewed: Event, confirmed: bool): (r: Option<seq<Event>>)
    ensures confirmed && previewed in all ==> r.Some?
    ensures r.Some? ==> |r.value| == |all| - 1 && exists i :: FirstMatchRemoved(all, HasId(previewed.id), i, r.value)
  {
    assert previewed in all ==> exists i :: 0 <= i < |all| && all[i] == previewed && HasId(previewed.id)(all[i]);
    DeleteById(all, previewed.id, confirmed)
  }

  /** With distinct ids, the intended preview delete removes exactly the
      previewed event. */
  lemma PreviewDeleteRemovesPreviewed(all: seq<Event>, previewed: Event)
    requires previewed in all
    requires forall i, j :: 0 <= i < j < |all| ==> all[i].id != all[j].id
    ensures PreviewDelete(all, previewed, true).Some?
    ensures multiset(PreviewDelete(all, previewed, true).value) + multiset{previewed} == multiset(all)
  {
    var p := HasId(previewed.id);
    var k :| 0 <= k < |all| && all[k] == previewed;
    assert p(all[k]);
    assert PreviewDelete(all, previewed, true) == RemoveFirst(all, p);
    RemoveFirstMultiset(all, p);
    var i :| 0 <= i < |all| && p(all[i]) && multiset(RemoveFirst(all, p).value) + multiset{all[i]} == multiset(all);
    assert all[i].id == all[k].id;
    assert i == k;
  }

  /** `renderAdminList`: the stored events, last added first. */
  function AdminList(got: Completion<Option<seq<Event>>>): (r: seq<Event>)
    ensures |r| == |LoadOrEmpty(got)|
    ensures forall i :: 0 <= i < |r| ==> r[i] == LoadOrEmpty(got)[|r| - 1 - i]
  {
    Reverse(LoadOrEmpty(got))
  }

  /** The event just added heads the admin list. */
  lemma AddedEventListedFirst(all: seq<Event>, form: Form, fileCount: nat, thumb: Option<string>, now: nat)
    requires AddEvent(all, form, fileCount, thumb, now).Added?
    ensures var s := AddEvent(all, form, fileCount, thumb, now).events;
              AdminList(Normal(Some(s)))[0] == s[|all|]
              && AdminList(Normal(Some(s)))[1..] == AdminList(Normal(Some(all)))
  {
    var s := AddEvent(all, form, fileCount, thumb, now).events;
    assert s == all + [s[|all|]] by {
      assert s[..|all|] == all;
    }
    ReverseSnoc(all, s[|all|]);
  }

  /** Clearing: once the stored file is deleted, the next listing that
      reaches GitHub is empty. */
  lemma ClearEmptiesList(st: Storage.Store, read: Storage.Env, write: Storage.Env, next: Storage.Env,
                         parse: string -> Option<seq<Event>>)
    requires !st.fallback && Storage.FilePath(StorageKey) in st.remote
    requires write.read == Storage.Reached && write.write == Storage.Reached && next.read == Storage.Reached
    ensures var cleared := Storage.ApiRemoveItem(st, StorageKey, read, write).store;
              AdminList(Storage.GetJSON(cleared, StorageKey, next, parse).result) == []
  {
    var g := Storage.GetItem(st, StorageKey, read);
    Storage.RemoveThenGet(g.store, StorageKey, write, next);
  }
}
