/** The two kinds of content record the site stores as JSON arrays. */
module Content {
  import opened Wrappers
  import opened JsValues

  /** A gallery entry as read back from storage: `{src, date, desc}`, where
      `date` and `desc` may be missing (None stands for undefined or null). */
  datatype RawItem = RawItem(src: string, date: Option<string>, desc: Option<string>)

  /** A gallery entry in the shape the admin page normalises it to. */
  datatype Item = Item(src: string, date: string, desc: string)

  /** An event as the admin page creates it; `end` is None for null. */
  datatype Event = Event(id: string, title: string, desc: string, start: string, end: Option<string>, thumb: string)

  /** `loadSaved` / `loadEvents` on the admin pages: the list `getJSON`
      gave, the empty list when it gave null or threw. */
  function LoadOrEmpty<T>(got: Completion<Option<seq<T>>>): (r: seq<T>)
    ensures got.Normal? && got.value.Some? ==> r == got.value.value
    ensures got.Threw? || got.value.None? ==> r == []
  {
    match got
    case Threw => []
    case Normal(v) => v.GetOr([])
  }

  function ItemDate(it: Item): string {
    it.date
  }

  /** `items.map(i => i.src)` */
  function Srcs(items: seq<Item>): (r: seq<string>)
    ensures |r| == |items|
    ensures forall i :: 0 <= i < |items| ==> r[i] == items[i].src
  {
    seq(|items|, i requires 0 <= i < |items| => items[i].src)
  }

  /** The `date` field of each item, in order. */
  function DatesOf(items: seq<Item>): (r: seq<string>)
    ensures |r| == |items|
    ensures forall i :: 0 <= i < |items| ==> r[i] == items[i].date
  {
    seq(|items|, i requires 0 <= i < |items| => items[i].date)
  }
}
