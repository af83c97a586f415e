/** The home page: `escapeHtml`, the first few events and pictures it shows,
    and its slideshow. */
module Home {
  import opened JsValues
  import opened Seqs
  import Cyclic

  /** The characters `escapeHtml` replaces. */
  predicate Special(c: char) {
    c == '&' || c == '<' || c == '>' || c == '"' || c == '\''
  }

  /** The characters that may not appear in escaped text. */
  predicate Unsafe(c: char) {
    c == '<' || c == '>' || c == '"' || c == '\''
  }

  /** The replacement table of `escapeHtml`: each of the five characters
      becomes its entity, every other character stays. */
  function EscapeChar(c: char): (r: string)
    ensures 1 <= |r|
    ensures forall i :: 0 <= i < |r| ==> !Unsafe(r[i])
    ensures !Special(c) ==> r == [c]
    ensures Special(c) ==> r[0] == '&' && r[|r| - 1] == ';'
    ensures c == '&' ==> r == "&amp;"
    ensures c == '<' ==> r == "&lt;"
    ensures c == '>' ==> r == "&gt;"
    ensures c == '"' ==> r == "&quot;"
    ensures c == '\'' ==> r == "&#39;"
  {
    if c == '&' then "&amp;"
    else if c == '<' then "&lt;"
    else if c == '>' then "&gt;"
    else if c == '"' then "&quot;"
    else if c == '\'' then "&#39;"
    else [c]
  }

  /** `String(s).replace(/[&<>"']/g, ...)`, one character at a time. */
  function Escape(s: string): (r: string)
    ensures |r| >= |s|
    ensures forall i :: 0 <= i < |r| ==> !Unsafe(r[i])
  {
    if |s| == 0 then [] else EscapeChar(s[0]) + Escape(s[1..])
  }

  /** `escapeHtml(s)`: the empty string for a falsy argument. */
  function EscapeHtml(v: Val): (r: string)
    ensures !Truthy(v) ==> r == ""
    ensures forall i :: 0 <= i < |r| ==> !Unsafe(r[i])
    ensures Truthy(v) ==> r == Escape(ToStr(v))
  {
    if !Truthy(v) then "" else Escape(ToStr(v))
  }

  /** Escaping works character by character: escaping a concatenation is
      concatenating the escaped parts. */
  lemma {:induction false} EscapeConcat(a: string, b: string)
    ensures Escape(a + b) == Escape(a) + Escape(b)
    decreases |a|
  {
    if |a| > 0 {
      var ab := a + b;
      assert ab[0] == a[0];
      assert ab[1..] == a[1..] + b;
      EscapeConcat(a[1..], b);
      calc {
        Escape(ab);
        EscapeChar(a[0]) + Escape(a[1..] + b);
        EscapeChar(a[0]) + (Escape(a[1..]) + Escape(b));
        (EscapeChar(a[0]) + Escape(a[1..])) + Escape(b);
      }
    } else {
      assert a + b == b;
    }
  }

  /** Text with none of the five characters is left as it is. */
  lemma {:induction false} EscapePlain(s: string)
    requires forall i :: 0 <= i < |s| ==> !Special(s[i])
    ensures Escape(s) == s
    decreases |s|
  {
    if |s| > 0 {
      EscapePlain(s[1..]);
    }
  }

  /** What a browser reads back from escaped text: the five entities become
      their characters again; any other character stands for itself. */
  function Unescape(s: string): string {
    if |s| == 0 then []
    else if s[0] != '&' || |s| < 4 then [s[0]] + Unescape(s[1..])
    else if s[1] == 'l' && s[2] == 't' && s[3] == ';' then "<" + Unescape(s[4..])
    else if s[1] == 'g' && s[2] == 't' && s[3] == ';' then ">" + Unescape(s[4..])
    else if |s| < 5 then [s[0]] + Unescape(s[1..])
    else if s[1] == 'a' && s[2] == 'm' && s[3] == 'p' && s[4] == ';' then "&" + Unescape(s[5..])
    else if s[1] == '#' && s[2] == '3' && s[3] == '9' && s[4] == ';' then "'" + Unescape(s[5..])
    else if |s| < 6 then [s[0]] + Unescape(s[1..])
    else if s[1] == 'q' && s[2] == 'u' && s[3] == 'o' && s[4] == 't' && s[5] == ';' then "\"" + Unescape(s[6..])
    else [s[0]] + Unescape(s[1..])
  }

  /** Escaping loses nothing: reading the entities back gives the text. */
  lemma {:induction false} UnescapeEscape(s: string)
    ensures Unescape(Escape(s)) == s
    decreases |s|
  {
    if |s| > 0 {
      UnescapeEscape(s[1..]);
      UnescapeHead(s[0], Escape(s[1..]));
      assert s == [s[0]] + s[1..];
    }
  }

  /** Reading back the escaped form of one character yields that character. */
  lemma UnescapeHead(c: char, t: string)
    ensures Unescape(EscapeChar(c) + t) == [c] + Unescape(t)
  {
    var u := EscapeChar(c) + t;
    assert u[|EscapeChar(c)|..] == t;
    if c == '&' {
      assert u[..5] == "&amp;";
    } else if c == '<' {
      assert u[..4] == "&lt;";
    } else if c == '>' {
      assert u[..4] == "&gt;";
    } else if c == '"' {
      assert u[..6] == "&quot;";
    } else if c == '\'' {
      assert u[..5] == "&#39;";
    } else {
      assert u[0] == c;
    }
  }

  /** `events.slice(0, 3)`: the home page lists at most the first three
      events, in stored order. */
  function FirstEvents<T>(events: seq<T>): (r: seq<T>)
    ensures |r| <= 3 && |r| <= |events|
    ensures |events| >= 3 ==> |r| == 3
    ensures |events| < 3 ==> r == events
    ensures r == events[..|r|]
  {
    Take(events, 3)
  }

  /** `gallery.slice(0, 5)`: the slideshow holds at most the first five
      pictures, in stored order. */
  function FirstPictures<T>(gallery: seq<T>): (r: seq<T>)
    ensures |r| <= 5 && |r| <= |gallery|
    ensures |gallery| >= 5 ==> |r| == 5
    ensures |gallery| < 5 ==> r == gallery
    ensures r == gallery[..|r|]
  {
    Take(gallery, 5)
  }

  /** Nothing is lost or reordered: what the page shows, followed by what it
      leaves out, is the whole list, and what it leaves out only exists
      beyond the limit. */
  lemma ShownThenRest<T>(events: seq<T>, gallery: seq<T>)
    ensures FirstEvents(events) + events[|FirstEvents(events)|..] == events
    ensures |events[|FirstEvents(events)|..]| > 0 ==> |FirstEvents(events)| == 3
    ensures FirstPictures(gallery) + gallery[|FirstPictures(gallery)|..] == gallery
    ensures |gallery[|FirstPictures(gallery)|..]| > 0 ==> |FirstPictures(gallery)| == 5
  {
    assert FirstEvents(events) == events[..|FirstEvents(events)|];
    assert FirstPictures(gallery) == gallery[..|FirstPictures(gallery)|];
  }

  /** Which slideshow images carry the `active` class: only the one at `idx`. */
  function ActiveOnly(count: nat, idx: nat): (r: seq<bool>)
    ensures |r| == count
    ensures forall i :: 0 <= i < count ==> (r[i] <==> i == idx)
  {
    seq(count, i requires 0 <= i < count => i == idx)
  }

  /** Milliseconds between slideshow ticks. */
  const SlideInterval := 4000

  /** A slideshow: the `active` flags of its images and the index `idx`. */
  datatype Slideshow = Slideshow(active: seq<bool>, idx: nat)

  predicate ShowsOne(s: Slideshow) {
    (|s.active| == 0 && s.idx == 0) || (s.idx < |s.active| && s.active == ActiveOnly(|s.active|, s.idx))
  }

  /** The slideshow as built: the first image active, `idx` 0. */
  function Start(count: nat): (r: Slideshow)
    ensures ShowsOne(r) && |r.active| == count && r.idx == 0
  {
    Slideshow(ActiveOnly(count, 0), 0)
  }

  /** One interval tick: nothing without images; otherwise the active class
      moves from image `idx` to image `(idx + 1) % count`. */
  function Tick(s: Slideshow): (r: Slideshow)
    requires s.idx < |s.active| || |s.active| == 0
    ensures |r.active| == |s.active|
    ensures |s.active| == 0 ==> r == s
    ensures |s.active| > 0 ==> r.idx == Cyclic.Next(s.idx, |s.active|)
  {
    if |s.active| == 0 then s
    else
      var next := (s.idx + 1) % |s.active|;
      Slideshow(s.active[s.idx := false][next := true], next)
  }

  /** A tick keeps exactly one image active, the one at the new index. */
  lemma TickShowsOne(s: Slideshow)
    requires ShowsOne(s)
    ensures ShowsOne(Tick(s))
  {
    if |s.active| > 0 {
      var r := Tick(s);
      assert r.active == ActiveOnly(|s.active|, r.idx);
    }
  }

  function After(count: nat, k: nat): (r: Slideshow)
    ensures ShowsOne(r) && |r.active| == count
  {
    if k == 0 then Start(count)
    else
      TickShowsOne(After(count, k - 1));
      Tick(After(count, k - 1))
  }

  /** After `k` ticks image `k % count` is the active one. */
  lemma {:induction false} AfterTicks(count: nat, k: nat)
    requires count > 0
    ensures After(count, k) == Slideshow(ActiveOnly(count, k % count), k % count)
  {
    IndexAfter(count, k);
    Cyclic.AfterSteps(0, count, k);
  }

  lemma {:induction false} IndexAfter(count: nat, k: nat)
    requires count > 0
    ensures After(count, k).idx == Cyclic.After(0, count, k)
  {
    if k > 0 {
      IndexAfter(count, k - 1);
    }
  }
}
