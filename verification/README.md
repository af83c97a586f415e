# Gallery and events site: a Dafny model

This project models the logic of a static event and photo-gallery site and
its browser admin pages. The Dafny code covers the following.

- **Storage wrapper** (`js/github-storage.js`). A key/value store with three layers:
  - an in-memory cache with a five-minute lifetime;
  - JSON files `data/<key>.json` in a GitHub repository;
  - the browser's localStorage, which mirrors every write and stands in when GitHub fails.

  It also covers the `githubStorageAPI` wrapper, which emulates `storage` events.
- **Gallery admin page** (`js/gallery-admin.js`):
  - normalising stored items;
  - the search, year and month filter and the sort;
  - the year and month options;
  - paging 24 cards at a time;
  - select-all, invert and delete-selected;
  - deleting from the preview;
  - adding uploaded files.
- **Public gallery** (`js/gallery.js`):
  - the newest-first list;
  - the de-duplicated hero rotation;
  - month groups;
  - the enlarged-picture modal with previous, next and swipe.
- **Events admin page** (`js/events-admin.js`):
  - add validation and the new record;
  - delete by id;
  - deleting from the preview;
  - the reversed admin list;
  - clearing.
- **Public events page** (`js/events.js`):
  - reading the localStorage mirror;
  - the past/upcoming split and the two sort orders;
  - the hero line;
  - date text and month index keys;
  - the past-section toggle.
- **Home page** (`js/main.js`): `escapeHtml`, the first three events and first five pictures, and the slideshow rotation.

Everything is a pure function over immutable values:

- The storage layers are a `Storage.Store` record.
- Each wrapper call is one step from a store to a new store, a completion (a value, or a thrown exception) and the HTTP requests it issued.
- The outside world is passed in as an `Env` value: the clock, whether each request reaches GitHub, and whether localStorage accepts access.
- JSON parsing and serialising are passed in as functions.
- Dates are the `YYYY-MM-DD` strings the pages store. `Dates.ParseIsoDate` reads them; the model treats every other string as an invalid date.

Helper modules:

| module | contents |
|---|---|
| `Wrappers` | `Option` |
| `JsValues` | JavaScript values, truthiness and completions |
| `Strings` | digits, `trim`, ASCII lower case, `includes`, `split` |
| `Seqs` | filter, first-match removal, take, reverse, de-duplication, a stable insertion sort |
| `Dates` | parsing and printing dates, month keys, instants within a day |
| `DateSort` | the date-keyed sorts |
| `Content` | the stored records |
| `Cyclic` | modular stepping |

## Model

| member | source | states |
|---|---|---|
| Storage.FilePath | js/github-storage.js:71-73 | a key is stored in `data/<key>.json` |
| Storage.FilePathInjective | js/github-storage.js:71-73 | two keys that share a file path are the same key |
| Storage.GitHubToken | js/github-storage.js:39-54 | with `process` undefined, or with a `process.env` to read, the token is the non-empty `GITHUB_TOKEN`, otherwise null, and the lookup does not throw |
| Storage.Init | js/github-storage.js:27-37 | fallback mode is on exactly when the token lookup threw; the cache starts empty |
| Storage.NeverFallsBack | js/github-storage.js:27-54 | since the token lookup cannot throw, the wrapper never enters fallback mode |
| Storage.Headers | js/github-storage.js:57-68 | the Accept and Content-Type headers are always sent; `Authorization: token …` is sent exactly when a token is set |
| Storage.LocalGet | js/github-storage.js:78 | localStorage answers with the stored string for a stored key and null otherwise |
| Storage.RemoveLocal | js/github-storage.js:235-239 | removing a key from localStorage touches no other key, and a failed removal is ignored |
| Storage.GetItem | js/github-storage.js:76-117 | it reads from the cache, the repository or localStorage. Only a fetched text is cached, stamped with the current time. It throws only when fallback-mode localStorage throws |
| Storage.SetItem | js/github-storage.js:120-191 | it writes the value to localStorage whenever localStorage accepts it. The repository changes only to the new file at the key's path. It throws only in fallback mode |
| Storage.RemoveItem | js/github-storage.js:194-251 | the repository and the cache lose at most the key's entry, and other localStorage keys are untouched |
| Storage.GetJSON | js/github-storage.js:254-264 | it has the same effects as `getItem`. A parsed result comes only from a non-empty stored text |
| Storage.SetJSON | js/github-storage.js:267-275 | it never throws. A value that cannot be serialised writes nothing and gives false. Otherwise it has the effects of `setItem` on the JSON text and its result, except that where `setItem` would throw it gives false |
| Storage.ApiSetItem | js/github-storage.js:301-308 | at most one event is dispatched, and only for a truthy result. It carries the value read before the write and the new value |
| Storage.ApiRemoveItem | js/github-storage.js:310-314 | it resolves to undefined and dispatches one event whose old value is the earlier read and whose new value is null |
| Storage.ApiSetJSON | js/github-storage.js:320-328 | it throws exactly when the read of the old value throws. It dispatches at most one event, only for a truthy result, and the new value is the JSON text |
| Storage.FallbackTouchesOnlyLocal | js/github-storage.js:77-79 | in fallback mode, get, set and remove send no request and touch only localStorage |
| Storage.CacheServedIffFresh | js/github-storage.js:82-85 | a read sends no request exactly when the key's cache entry is under five minutes old, and then it returns that entry |
| Storage.GetItemOnMiss | js/github-storage.js:87-116 | a cache miss fetches the raw file once. A found file is returned and cached at the current time. A 404 gives null. A failure falls back to localStorage, or to null |
| Storage.PutCarriesKnownSha | js/github-storage.js:131-160 | a write sends a GET and then a PUT. The PUT carries a sha exactly when the GET succeeded and reported one |
| Storage.SetItemOutcomes | js/github-storage.js:162-190 | a PUT that succeeds updates the cache, the repository and localStorage and gives true. One that fails writes only localStorage and gives true, or false if localStorage throws |
| Storage.SetThenGet | js/github-storage.js:76-179 | a successful write is read back, from the cache while it is fresh and from the repository afterwards |
| Storage.RemoveItemOutcomes | js/github-storage.js:208-241 | a 404 on the info GET leaves everything unchanged. A successful DELETE drops the file, the cache entry and the localStorage copy, and gives true |
| Storage.RemoveThenGet | js/github-storage.js:194-241 | after a successful delete, a read that reaches GitHub gives null |
| Storage.GetJSONNull | js/github-storage.js:254-264 | a missing, empty or unparsable text gives null |
| Storage.JsonRoundTrip | js/github-storage.js:254-275 | `getJSON` after a successful `setJSON` returns the object, given that parsing inverts serialising |
| Storage.FallbackSetNeverNotifies | js/github-storage.js:121-123 | in fallback mode `setItem` resolves to undefined, so the wrapper never dispatches an event even though the value was stored |
| Storage.ApiSetItemNotifies | js/github-storage.js:301-308 | outside fallback mode, an event is dispatched exactly when the PUT or the localStorage fallback succeeds |
| Storage.FailedPutHiddenByMissingFile | js/github-storage.js:89-94 | a write whose PUT fails resolves to true with the value in localStorage, yet a read that reaches GitHub and finds no file gives null |
| Storage.Dispatch | js/github-storage.js:278-289 | a dispatched event reaches the listeners only when `storageArea` is a Storage object; otherwise nothing is delivered |
| Storage.WrapperEventNeverDelivered | js/github-storage.js:278-289 | as written, a write outside fallback mode that reaches GitHub logs one event, and no listener receives it |
| Storage.StorageAreaEventDelivered | js/github-storage.js:278-289 | with a Storage object or null as `storageArea`, the listeners receive the key, the old value and the new value |
| Content.LoadOrEmpty | js/gallery-admin.js:56-61 | a thrown read or a null result becomes the empty list, and any other result is the stored list |
| GalleryAdmin.Normalise | js/gallery-admin.js:120 | each item keeps its src. An empty or missing date becomes today's and a missing description becomes empty, so no item is left without a date |
| GalleryAdmin.NormaliseIdempotent | js/gallery-admin.js:120 | normalising an already normalised list changes nothing |
| GalleryAdmin.NormalisedDefaultDateIsValid | js/gallery-admin.js:120 | the default date `toISOString().slice(0,10)` parses back to today |
| GalleryAdmin.ApplyFilter | js/gallery-admin.js:164-175 | an item stays exactly when it passes the search, year and month tests |
| GalleryAdmin.Matches | js/gallery-admin.js:160-176 | with no query, year or month every item passes. A passing item contains the query in its description and, when a year or month is selected, has a valid date with that year or month |
| GalleryAdmin.MatchesIff | js/gallery-admin.js:160-173 | an item passes exactly when three tests hold. The trimmed, lower-cased query is empty or occurs in the lower-cased description. The year is unset or equals the date's year. The month is unset or equals the date's two-digit month |
| GalleryAdmin.InvalidDatesExcluded | js/gallery-admin.js:166-173 | with a year or month filter set, no item with an unparsable date passes |
| GalleryAdmin.NoCriteriaKeepsAll | js/gallery-admin.js:160-175 | with no query, year or month, the filter keeps every item in order |
| GalleryAdmin.ApplyFilterConcat | js/gallery-admin.js:164-175 | filtering works item by item, so it keeps relative order |
| GalleryAdmin.ApplyFilterIdempotent | js/gallery-admin.js:164-175 | filtering a filtered list changes nothing |
| GalleryAdmin.SortView | js/gallery-admin.js:155-158 | the sort is a permutation, newest first, or oldest first for "old" |
| GalleryAdmin.View | js/gallery-admin.js:153-175 | the filtered view holds exactly the matching stored items, each as often as it is stored, oldest first for "old" and newest first otherwise |
| GalleryAdmin.YearOptions | js/gallery-admin.js:134-144 | the year options are the years of the parsable dates, each once, in decreasing order |
| GalleryAdmin.InsertYear | js/gallery-admin.js:138-141 | adding a year to the set keeps the options strictly decreasing and adds exactly that year |
| GalleryAdmin.MonthOptions | js/gallery-admin.js:145-149 | the month options are "01" to "12" |
| GalleryAdmin.YearOptionsNonEmpty | js/gallery-admin.js:141-143 | every offered year selects at least one item |
| GalleryAdmin.RenderNextPage | js/gallery-admin.js:182-198 | a page renders up to 24 cards from `renderedCount` without passing the list end. "Load more" shows exactly when cards remain |
| GalleryAdmin.RenderedAfterPages | js/gallery-admin.js:13 | after k pages, min(24k, total) cards are rendered |
| GalleryAdmin.SelectAll | js/gallery-admin.js:309-312 | the selection grows to include every filtered src and nothing else |
| GalleryAdmin.CheckboxChange | js/gallery-admin.js:216-218 | a checkbox puts its src in the selection exactly when it is checked, and leaves other srcs alone |
| GalleryAdmin.Invert | js/gallery-admin.js:313-319 | a src changes state exactly when it appears an odd number of times among the filtered items |
| GalleryAdmin.InvertTwice | js/gallery-admin.js:313-319 | inverting twice restores the selection |
| GalleryAdmin.InvertDistinct | js/gallery-admin.js:313-319 | with distinct srcs, inverting is the symmetric difference with the filtered srcs |
| GalleryAdmin.DeleteSelected | js/gallery-admin.js:320-329 | nothing happens unless something is selected and the user confirms. Then the saved list is the stored items whose src is unselected, each kept as often as it was stored, and the selection is emptied |
| GalleryAdmin.PreviewDelete | js/gallery-admin.js:281-294 | nothing is saved unless a preview is open and confirmed. Then the first stored item with the previewed src and date is removed, or nothing is saved if none matches |
| GalleryAdmin.ReadUrls | js/gallery-admin.js:380-393 | each readable file contributes its data URL, and unreadable files are skipped |
| GalleryAdmin.ReadUrlsConcat | js/gallery-admin.js:380-391 | each compressed or as-is file contributes its URL and an unreadable one nothing, and the URLs of two batches of files are those of the first followed by those of the second, so the URLs come one per readable file in file order |
| GalleryAdmin.AddItems | js/gallery-admin.js:368-395 | no file means no change. Otherwise one item per readable file is appended in order, after the unchanged stored list. Each has the chosen date, today when none is chosen, and the trimmed description |
| GalleryAdmin.LoadSaved | js/gallery-admin.js:56-61 | awaited, the call gives the stored list; without `await` it is a pending Promise |
| GalleryAdmin.ApplyFiltersAndRender | js/gallery-admin.js:153-179 | as written, without `await`, the handler throws. Awaited, it shows exactly the matching items, in the selected date order, from the first page |
| GalleryAdmin.DeleteSelectedHandler | js/gallery-admin.js:320-329 | as written, the handler throws once the user confirms a non-empty selection; awaited, it is `DeleteSelected` |
| GalleryAdmin.PreviewDeleteHandler | js/gallery-admin.js:281-294 | as written, the handler throws once the user confirms; awaited, it is `PreviewDelete` |
| GalleryAdmin.FiltersAsWrittenThrow | js/gallery-admin.js:153-158 | every filter, sort, init or add render throws before anything is filtered |
| GalleryAdmin.DeleteSelectedAsWrittenKeeps | js/gallery-admin.js:320-325 | a confirmed deletion of the one stored picture throws before saving, where the intended handler saves an empty list |
| GalleryAdmin.PreviewDeleteAsWrittenKeeps | js/gallery-admin.js:281-289 | a confirmed preview deletion throws before saving, where the intended handler saves an empty list |
| Gallery.GetAllItems | js/gallery.js:34-38 | the gallery is a permutation of the stored list with dates non-increasing; a failed or empty read gives no items |
| Gallery.GetAllItemsStable | js/gallery.js:36 | items with the same date keep their stored order |
| Gallery.BuildHeroList | js/gallery.js:40-43 | the hero list holds every src once, in order of first appearance |
| Gallery.StartHero | js/gallery.js:46-54 | no srcs means the placeholder; otherwise the hero starts at a valid index |
| Gallery.HeroImage | js/gallery.js:49-57 | the hero shows the placeholder when there are no pictures, otherwise the picture at the current index |
| Gallery.HeroTick | js/gallery.js:55-58 | each tick moves the index to (idx + 1) mod count |
| Gallery.HeroAfterTicks | js/gallery.js:53-58 | after k ticks the index is (start + k) mod count |
| Gallery.HeroImageAfterTicks | js/gallery.js:49-58 | after k ticks the picture on show is the one (start + k) mod count |
| Gallery.GroupByMonth | js/gallery.js:61-72 | the keys are strictly decreasing. Each group holds, in input order, exactly the positions of the items in its month |
| Gallery.GroupByMonthCovers | js/gallery.js:63-70 | a key exists exactly for the months of parsable dates, and no group is empty |
| Gallery.GroupMembers | js/gallery.js:63-69 | a position belongs to a group exactly when its item's month is that group's key |
| Gallery.GroupsDisjoint | js/gallery.js:63-69 | no item belongs to two groups |
| Gallery.OpenModal | js/gallery.js:159-161 | an index outside the list leaves the modal as it was |
| Gallery.CloseModal | js/gallery.js:172-178 | closing resets the index to the closed state |
| Gallery.CloseThenOpen | js/gallery.js:159-182 | after a close, any position can be opened, and "previous" does nothing |
| Gallery.ShowPrev | js/gallery.js:180-183 | it does nothing at the first picture or when closed, and from an index more than one past the list's end; otherwise it moves back one. A valid index stays valid |
| Gallery.ShowNext | js/gallery.js:184-187 | it does nothing at or past the last picture; otherwise it moves forward one. A valid index stays valid |
| Gallery.PrevNextInverse | js/gallery.js:180-187 | previous undoes next, and next undoes previous |
| Gallery.Swipe | js/gallery.js:220-228 | a swipe of 40 pixels or less does nothing. Further right shows the previous picture, further left the next |
| Gallery.Rerender | js/gallery.js:90-92 | a re-render keeps the modal index, which stays valid exactly when it lies inside the new list |
| Gallery.StaleIndexAfterRerender | js/gallery.js:90-92 | after a re-render leaves the index past the new list's end, "next" does nothing, "previous" returns into the list only from just past its end, and closing always recovers |
| Gallery.SwipeBack | js/gallery.js:220-228 | a long swipe right, then the same swipe left, returns to the picture it started from, and the other way round, away from the ends of the list |
| EventsAdmin.AddEvent | js/events-admin.js:161-193 | the title, start and file checks reject the add in that order. A failed image keeps the list. Otherwise exactly one event is appended, with id `evt-<ms>`, the trimmed title and description, and a null end when none is given |
| EventsAdmin.AddedTitleTrimmed | js/events-admin.js:163 | the stored title has no surrounding white space and is not empty |
| EventsAdmin.DeleteById | js/events-admin.js:112-122 | a confirmed delete removes the first event with the id and only it; an absent id saves nothing |
| EventsAdmin.AddThenDelete | js/events-admin.js:112-179 | deleting a just-added event by its fresh id restores the list |
| EventsAdmin.RangeText | js/events-admin.js:97 | the range is the start, plus " 〜 " and the end only when an end is set |
| EventsAdmin.PreviewTitleOfPlainTitle | js/events-admin.js:138-147 | a title without "—" and without surrounding white space is read back exactly |
| EventsAdmin.PreviewDeleteByTitle | js/events-admin.js:145-158 | as written, it removes the first event whose title equals the text before the first "—" |
| EventsAdmin.DashedTitleCut | js/events-admin.js:138-147 | a title `head — tail` reads back as `head` |
| EventsAdmin.PreviewDeleteByTitleWrongEvent | js/events-admin.js:145-153 | previewing "X — Y" stored before "X" deletes "X" and keeps the previewed event |
| EventsAdmin.PreviewDelete | js/events-admin.js:136-158 | the corrected handler deletes the first event with the previewed event's id |
| EventsAdmin.PreviewDeleteRemovesPreviewed | js/events-admin.js:145-153 | with distinct ids, the corrected handler removes exactly the previewed event |
| EventsAdmin.AdminList | js/events-admin.js:80-81 | the admin list is the stored list reversed |
| EventsAdmin.AddedEventListedFirst | js/events-admin.js:179-187 | a newly added event is listed first |
| EventsAdmin.ClearEmptiesList | js/events-admin.js:196-199 | after a successful clear, the list shown reads as empty |
| Events.LoadEvents | js/events.js:25-31 | a missing, empty, unreadable or unparsable mirror entry gives no events |
| Events.PageSeesAdminWrite | js/events.js:25-31 | a list saved by the admin page reaches the localStorage mirror and is read back by the events page |
| Events.IsPast | js/events.js:37-44 | an event is past only when its end date, or its start date without an end, parses and has begun; without an end, the start day is not today |
| Events.IsPastByDay | js/events.js:37-44 | an event without an end is past when its start day is before today. One with an end is past when the end day is before today, or is today and the day has begun. An unparsable date is never past |
| Events.EndingTodayIsPast | js/events.js:39-43 | with the local zone taken as UTC, an event ending today counts as past, while one starting today without an end does not |
| Events.Partition | js/events.js:60-61 | at one moment, each event lands in exactly one of the upcoming and past lists |
| Events.IsPastMonotone | js/events.js:37-44 | an event past at some moment is past at every later moment |
| Events.PartitionTwoClocks | js/events.js:38-61 | with the upcoming list filtered first and the past list at a moment no earlier, no event is lost, and an event is in both lists exactly when it turned past in between |
| Events.Upcoming | js/events.js:60 | upcoming holds exactly the events that are not past, soonest start first |
| Events.PastEvents | js/events.js:61 | past holds exactly the past events, latest end (or start) first |
| Events.HeroFor | js/events.js:64-71 | the hero is the first upcoming event, shown as its title and dates, or the placeholder when nothing is upcoming |
| Events.BuildLists | js/events.js:57-93 | the two lists split the events, the hero follows the upcoming list, and the past section starts hidden |
| Events.HeroIsSoonest | js/events.js:63-66 | no upcoming event starts before the featured one |
| Events.FormatDates | js/events.js:95-104 | the dates are the start, plus " 〜 " and the end only when an end is set |
| Events.DayTextOfIso | js/events.js:96-97 | a stored date prints as YYYY/MM/DD, and an invalid one as "NaN/NaN/NaN" |
| Events.TocKeys | js/events.js:141-150 | the index keys are the distinct `YYYY-MM` months of parsable starts, newest first |
| Events.TocKeysUnique | js/events.js:141-150 | any strictly decreasing list of exactly those months equals the computed keys |
| Events.TogglePast | js/events.js:189-198 | the toggle flips the section's visibility and keeps the button text in step |
| Events.ToggleTwice | js/events.js:189-198 | toggling twice restores the section |
| Home.EscapeChar | js/main.js:39 | `&`, `<`, `>`, `"` and `'` become `&amp;`, `&lt;`, `&gt;`, `&quot;` and `&#39;`; any other character is kept; the result never holds `<`, `>` or a quote |
| Home.Escape | js/main.js:39 | the escaped text contains no `<`, `>`, `"` or `'` and is at least as long as the input |
| Home.EscapeHtml | js/main.js:39 | a falsy argument gives the empty string; otherwise the result is the argument's string form escaped character by character, with no `<`, `>` or quote left |
| Home.EscapeConcat | js/main.js:39 | escaping works character by character |
| Home.EscapePlain | js/main.js:39 | text without the five characters is unchanged |
| Home.UnescapeEscape | js/main.js:39 | decoding the entities gives back the original text, so escaping loses nothing |
| Home.FirstEvents | js/main.js:8 | the home page shows the first three events, or all of them if fewer |
| Home.FirstPictures | js/main.js:19 | the slideshow holds the first five pictures, or all of them if fewer |
| Home.ShownThenRest | js/main.js:8-19 | the shown events or pictures followed by the rest give back the whole list, and some are left out only when the limit is reached |
| Home.Start | js/main.js:20-27 | only the first image starts active, at index 0 |
| Home.Tick | js/main.js:28-34 | a tick with no images does nothing; otherwise the index becomes (idx + 1) mod count |
| Home.TickShowsOne | js/main.js:31-33 | after a tick exactly one image, the one at the new index, is active |
| Home.AfterTicks | js/main.js:27-34 | after k ticks exactly image k mod count is active |
| DateSort.SortByDate | js/gallery.js:36 | the date sort is a permutation in date order |
| DateSort.SortByDateStable | js/gallery.js:36 | the date sort keeps the relative order of items with equal dates |
| Dates.ParseIsoDate | js/gallery-admin.js:167-172 | a parsed date is a real calendar date with a four-digit year, read from a ten-character text |
| Dates.ParseIsoDateOfIsoDate | js/gallery-admin.js:120 | a printed date parses back to itself |
| Dates.IsoDateOfParseIsoDate | js/gallery-admin.js:167-172 | a parsed date prints back to the text it came from |
| Dates.MonthKeys | js/gallery.js:66-70 | the month keys are strictly decreasing and hold exactly the months present |
| Strings.Trim | js/gallery-admin.js:160 | trimming removes exactly the leading and trailing white space |
| Strings.TrimIdempotent | js/events-admin.js:163 | trimming twice is trimming once |
| Strings.BeforeFirst | js/events-admin.js:147 | `split(c)[0]` is the longest prefix without `c` |
| Strings.IncludesIffOccurs | js/gallery-admin.js:165 | `includes` holds exactly when the query occurs at some position |

## Left out

- DOM work is not modelled, because it is presentation only. This covers element creation, `innerHTML`, focus, scrolling, CSS classes and the thumbnail-size and grid/list controls.
- Canvas compression (`imageFileToCompressedDataURL`) and `FileReader` are reduced to outcomes. They rely on the canvas, `FileReader` and floating-point aspect ratios. The gallery models each file as compressed, read as-is or unreadable; the events page models the thumbnail as present or failed.
- `js/admin.js` and `fetch` are not modelled. Each HTTP request's result is an `Env` parameter, and `js/admin.js` is not part of this model.
- `JSON.parse`, `JSON.stringify` and the base64 encoding of PUT bodies are parameters or are left out. They are library code; PUT bodies carry the plain value.
- The storage wrapper reads the clock once per call. The source reads `Date.now()` separately before and after each fetch.
- The wrapper's events are a log of attempted dispatches (`ApiStep.events`); `Storage.Dispatch` says which of them reach a listener. The `storage` listener that reloads the gallery admin page is left out.
- Read-after-write is idealised: a GET that reaches GitHub sees the latest PUT. The CDN caching of `raw.githubusercontent.com` is not modelled, so `Storage.SetThenGet`, `Storage.RemoveThenGet`, `Storage.JsonRoundTrip` and `EventsAdmin.ClearEmptiesList` hold only under that assumption.
- Whether a PUT or DELETE reaches GitHub is a free parameter (`Env.write`), even without a token. In a browser `process` is undefined, so the token is always null and GitHub would refuse an unauthenticated write; the writes that reach GitHub are the ones a token would allow.
- Events.Partition: the lemma uses one clock reading for both filters, while each `isPast` call reads `new Date()` itself. `Events.PartitionTwoClocks` covers two readings, where an event turning past between the filters is listed twice.
- Time zones are not modelled: the model takes the local zone to be UTC. JavaScript reads a date-only `YYYY-MM-DD` string as midnight UTC, and the model's `now` is a day plus milliseconds into it, so the two agree only in UTC. East of UTC (UTC+9 for this site) an event ending today turns past at the local hour of UTC midnight (09:00), not from the first millisecond of the day, as `Events.EndingTodayIsPast` and `Events.IsPastByDay` state it. West of UTC, `getFullYear`, `getMonth`, `getDate` and `toDateString` read a stored date as the previous day, which shifts the month keys, year and month filters, day texts and the start-today test of `isPast` (`js/events.js`, `js/gallery.js`, `js/gallery-admin.js`).
- `Date` parsing accepts only the `YYYY-MM-DD` form the pages store. Every other string is treated as an invalid date, and other `Date` formats are not modelled.
- The sorts require every date to parse. Sorting with a NaN comparator has no defined order, so the sort members (`DateSort.SortByDate`, `GalleryAdmin.SortView`, `Gallery.GetAllItems`, `Events.Upcoming`) and the members built on them (`GalleryAdmin.View`, `GalleryAdmin.ApplyFiltersAndRender`, `GalleryAdmin.FiltersAsWrittenThrow`, `Events.BuildLists`, `Events.HeroIsSoonest`) do not cover lists with invalid dates. The as-written throw of `FiltersAsWrittenThrow` happens for any stored list; only the lemma is limited to valid dates.
- Storage.GitHubToken: a `process` that is defined but has no `env` makes `process.env.GITHUB_TOKEN` throw, and `init` then turns fallback mode on. The token input cannot express that case, so `Storage.NeverFallsBack` holds only where `process` is undefined or has an `env`.
- `toLowerCase` is modelled for ASCII letters only.
- `localeCompare` on month keys is taken as code-unit order, which is the same order for `YYYY-MM` keys.
- `Math.random` and `setInterval` are parameters. The hero start index is a parameter, and each timer firing is one call of a tick function.
- `isUpcoming` in `js/events.js` is never called, so it is left out.
- The month-index buttons' scroll-into-view is left out, because it is DOM searching.
- The month-index button text is left out, because it is presentation only.
- The Escape key, arrow keys and the events page's modal are left out. The keys call the modelled close, previous and next; the modal only displays an event.
- The gallery page's rendering of groups and the table of contents is left out, because it is DOM only.
- A stored value that parses to something other than a list is left out; stored values are taken to be lists of records.
- The admin-list, events-page and gallery-page `storage` listeners and `alphaGalleryRefresh` are left out as event plumbing: they re-run the modelled builds. On the gallery page that re-run replaces the list without resetting the modal index, which `Gallery.Rerender` and `Gallery.StaleIndexAfterRerender` model.

## Findings

| source | as written | input that shows it | evidently intended | confidence | as-written member | corrected member |
|---|---|---|---|---|---|---|
| js/gallery-admin.js:153-158 | `loadSaved()` is async and is called without `await`, so `items` is a Promise and `items.sort` throws | any stored list, on every filter, sort, init or add | the stored list is loaded first, then sorted and filtered | not executed | GalleryAdmin.FiltersAsWrittenThrow | GalleryAdmin.View |
| js/gallery-admin.js:320-329 | `loadSaved()` is called without `await`, so `all.filter` throws before saving | one stored picture `a.jpg` dated 2024-05-01, selected, with the delete confirmed | the stored pictures minus the selected ones are saved | not executed | GalleryAdmin.DeleteSelectedAsWrittenKeeps | GalleryAdmin.DeleteSelected |
| js/gallery-admin.js:281-294 | `loadSaved()` is called without `await`, so `all.findIndex` throws before saving | the same picture previewed, with the delete confirmed | the first stored picture with the previewed src and date is removed | not executed | GalleryAdmin.PreviewDeleteAsWrittenKeeps | GalleryAdmin.PreviewDelete |
| js/events-admin.js:145-153 | the event to delete is found by the title text before the first "—" of the preview text | events titled "Live — Tokyo" and then "Live", with "Live — Tokyo" previewed and the delete confirmed | the previewed event is deleted | not executed | EventsAdmin.PreviewDeleteByTitleWrongEvent | EventsAdmin.PreviewDelete |
| js/github-storage.js:278-289 | the event is built with `storageArea: this`, the wrapper itself, which is not a Storage object, so the `StorageEvent` constructor rejects it and the `catch` drops the event | a `setItem` outside fallback mode whose PUT reaches GitHub | the `storage` listeners hear of the write, with the key, old value and new value | not executed; rests on `storageArea` accepting only a Storage object or null | Storage.WrapperEventNeverDelivered | Storage.StorageAreaEventDelivered |
