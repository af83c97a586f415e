/** The key/value store the admin and public pages save through: an
    in-memory cache with a five-minute lifetime, files `data/<key>.json` in a
    GitHub repository, and the browser's localStorage, which mirrors every
    successful remote write and stands in when the remote fails (or for
    everything, in fallback mode).

    Each operation is one step from a `Store` to a `Step`: the new store,
    how the call completes, and the HTTP requests it issued. What the
    outside world does during the call (the clock, whether each request
    reaches GitHub, whether localStorage accepts the access) comes in as an
    `Env`. */
module Storage {
  import opened Wrappers
  import opened JsValues

  const Repo: string := "cocoa-cn-mc/alpha-storage"
  const ApiBase: string := "https://api.github.com/repos"
  const RawBase: string := "https://raw.githubusercontent.com/cocoa-cn-mc/alpha-storage/main"

  /** Five minutes, in milliseconds. */
  const CacheDuration: int := 5 * 60 * 1000

  datatype CacheEntry = CacheEntry(data: string, timestamp: int)

  /** A file of the repository: its text and the blob sha GitHub reports. */
  datatype RemoteFile = RemoteFile(content: string, sha: string)

  /** `cache` is keyed by storage key, `remote` by file path. */
  datatype Store = Store(
    fallback: bool,
    cache: map<string, CacheEntry>,
    local: map<string, string>,
    remote: map<string, RemoteFile>)

  /** Whether a request got GitHub's answer (whose status then follows from
      the repository's contents: success, or 404 for a missing file) or
      failed (a network error, or any other error status). */
  datatype Reach = Reached | Failed

  /** The outside world during one call: the clock, the fate of the reading
      request (GET) and of the writing request (PUT or DELETE), the sha GitHub
      gives a file it stores, and whether localStorage accesses succeed. */
  datatype Env = Env(now: int, read: Reach, write: Reach, newSha: string, localOk: bool)

  /** The JSON body of a PUT; `content` stands for the base64 text of the value. */
  datatype PutBody = PutBody(message: string, content: string, sha: Option<string>)

  datatype Request =
    | Get(url: string)
    | Put(url: string, body: PutBody)
    | Delete(url: string, message: string, sha: string)

  datatype Step<+T> = Step(store: Store, result: Completion<T>, requests: seq<Request>)

  /** `getGitHubToken()`: the `GITHUB_TOKEN` of the process environment when
      it is a non-empty string (`processToken` is None in a browser, where
      there is no `process`); null otherwise, whether or not `storage.json`
      loads. Both of its failure paths are caught, so it never throws. */
  function GitHubToken(processToken: Option<string>): (r: Completion<Option<string>>)
    ensures r.Normal?
    ensures r.value.Some? <==> processToken.Some? && processToken.value != ""
    ensures r.value.Some? ==> r.value == processToken
  {
    match processToken
    case Some(t) => if t != "" then Normal(Some(t)) else Normal(None)
    case None => Normal(None)
  }

  /** The store once `init()` has settled: fallback mode exactly when the
      token lookup threw; the cache starts empty. */
  function Init(token: Completion<Option<string>>, local: map<string, string>, remote: map<string, RemoteFile>): (r: Store)
    ensures r.fallback <==> token.Threw?
    ensures r.cache == map[] && r.local == local && r.remote == remote
  {
    Store(token.Threw?, map[], local, remote)
  }

  /** Since the token lookup cannot fail, the wrapper never enters fallback
      mode: every call goes through the cache and the repository. */
  lemma NeverFallsBack(processToken: Option<string>, local: map<string, string>, remote: map<string, RemoteFile>)
    ensures !Init(GitHubToken(processToken), local, remote).fallback
  {
  }

  /** `getHeaders()`: the two fixed headers, plus `Authorization` exactly
      when a token is set. */
  function Headers(token: Option<string>): (r: seq<(string, string)>)
    ensures |r| >= 2 && r[0].0 == "Accept" && r[1].0 == "Content-Type"
    ensures (exists i :: 0 <= i < |r| && r[i].0 == "Authorization") <==> token.Some? && token.value != ""
    ensures token.Some? && token.value != "" ==> r[|r| - 1] == ("Authorization", "token " + token.value)
  {
    var base := [("Accept", "application/vnd.github.v3+json"), ("Content-Type", "application/json")];
    if token.Some? && token.value != "" then
      var r := base + [("Authorization", "token " + token.value)];
      assert r[2].0 == "Authorization";
      r
    else
      assert |base[0].0| != |"Authorization"| && |base[1].0| != |"Authorization"|;
      base
  }

  /** `getFilePath(key)` */
  function FilePath(key: string): (p: string)
    ensures |p| == |key| + 10
    ensures p[..5] == "data/" && p[5..|p| - 5] == key && p[|p| - 5..] == ".json"
  {
    "data/" + key + ".json"
  }

  /** Distinct keys live in distinct files. */
  lemma FilePathInjective(k1: string, k2: string)
    requires FilePath(k1) == FilePath(k2)
    ensures k1 == k2
  {
    var p := FilePath(k1);
    assert k1 == p[5..|p| - 5];
  }

  function RawUrl(key: string): string {
    RawBase + "/" + FilePath(key)
  }

  function ApiUrl(key: string): string {
    ApiBase + "/" + Repo + "/contents/" + FilePath(key)
  }

  /** `localStorage.getItem(key)` */
  function LocalGet(local: map<string, string>, key: string): (v: Val)
    ensures v == Null || v.Str?
    ensures v.Str? <==> key in local
    ensures key in local ==> v == Str(local[key])
  {
    if key in local then Str(local[key]) else Null
  }

  /** A cache entry is served while strictly less than five minutes old. */
  predicate IsFresh(e: CacheEntry, now: int) {
    now - e.timestamp < CacheDuration
  }

  predicate CacheHit(st: Store, key: string, now: int) {
    key in st.cache && IsFresh(st.cache[key], now)
  }

  /** `localStorage.removeItem(key)` inside a try whose failure is ignored. */
  function RemoveLocal(st: Store, key: string, localOk: bool): (r: Store)
    ensures r.fallback == st.fallback && r.cache == st.cache && r.remote == st.remote
    ensures localOk ==> key !in r.local
    ensures forall k :: k != key ==> (k in r.local <==> k in st.local)
    ensures forall k :: k != key && k in st.local ==> r.local[k] == st.local[k]
  {
    if localOk then st.(local := st.local - {key}) else st
  }

  /** `getItem(key)`: no layer but the cache is ever written, and the cache
      only at `key`, with the text just fetched. */
  function GetItem(st: Store, key: string, env: Env): (r: Step<Val>)
    ensures r.store.fallback == st.fallback && r.store.local == st.local && r.store.remote == st.remote
    ensures r.store.cache.Keys == st.cache.Keys + (if r.store.cache == st.cache then {} else {key})
    ensures forall k :: k in st.cache && k != key ==> r.store.cache[k] == st.cache[k]
    ensures r.store.cache != st.cache ==> r.result == Normal(Str(r.store.cache[key].data)) && r.store.cache[key].timestamp == env.now
    ensures r.result.Normal? ==> r.result.value == Null || r.result.value.Str?
    ensures r.result.Threw? <==> st.fallback && !env.localOk
  {
    if st.fallback then
      if env.localOk then Step(st, Normal(LocalGet(st.local, key)), []) else Step(st, Threw, [])
    else if CacheHit(st, key, env.now) then
      Step(st, Normal(Str(st.cache[key].data)), [])
    else
      var p := FilePath(key);
      var reqs := [Get(RawUrl(key))];
      match env.read
      case Reached =>
        if p in st.remote then
          var text := st.remote[p].content;
          Step(st.(cache := st.cache[key := CacheEntry(text, env.now)]), Normal(Str(text)), reqs)
        else
          Step(st, Normal(Null), reqs)
      case Failed =>
        Step(st, Normal(if env.localOk then LocalGet(st.local, key) else Null), reqs)
  }

  /** The sha the PUT carries: only one the preceding GET actually returned. */
  function PriorSha(st: Store, key: string, read: Reach): Option<string> {
    var p := FilePath(key);
    if read == Reached && p in st.remote && st.remote[p].sha != "" then Some(st.remote[p].sha) else None
  }

  /** `setItem(key, value)` */
  function SetItem(st: Store, key: string, value: string, env: Env): (r: Step<Val>)
    ensures r.store.fallback == st.fallback
    ensures r.result.Threw? <==> st.fallback && !env.localOk
    ensures forall k :: k != key ==> (k in r.store.local <==> k in st.local)
    ensures forall k :: k != key && k in st.local ==> r.store.local[k] == st.local[k]
    ensures env.localOk ==> key in r.store.local && r.store.local[key] == value
    ensures r.store.remote != st.remote ==> r.store.remote == st.remote[FilePath(key) := RemoteFile(value, env.newSha)]
    ensures r.store.cache != st.cache ==> r.store.cache == st.cache[key := CacheEntry(value, env.now)]
  {
    if st.fallback then
      if env.localOk then Step(st.(local := st.local[key := value]), Normal(Undefined), []) else Step(st, Threw, [])
    else
      var url := ApiUrl(key);
      var body := PutBody("Update " + key, value, PriorSha(st, key, env.read));
      var reqs := [Get(url), Put(url, body)];
      match env.write
      case Reached =>
        var written := Store(
          false,
          st.cache[key := CacheEntry(value, env.now)],
          if env.localOk then st.local[key := value] else st.local,
          st.remote[FilePath(key) := RemoteFile(value, env.newSha)]);
        Step(written, Normal(Bool(true)), reqs)
      case Failed =>
        if env.localOk then Step(st.(local := st.local[key := value]), Normal(Bool(true)), reqs)
        else Step(st, Normal(Bool(false)), reqs)
  }

  /** `removeItem(key)` */
  function RemoveItem(st: Store, key: string, env: Env): (r: Step<Val>)
    ensures r.store.fallback == st.fallback
    ensures r.result.Threw? <==> st.fallback && !env.localOk
    ensures forall k :: k != key ==> (k in r.store.local <==> k in st.local)
    ensures forall k :: k != key && k in st.local ==> r.store.local[k] == st.local[k]
    ensures r.store.remote == st.remote || r.store.remote == st.remote - {FilePath(key)}
    ensures r.store.cache == st.cache || r.store.cache == st.cache - {key}
    ensures r.store.cache != st.cache ==> r.store.remote != st.remote
  {
    if st.fallback then
      if env.localOk then Step(st.(local := st.local - {key}), Normal(Undefined), []) else Step(st, Threw, [])
    else
      var url := ApiUrl(key);
      var p := FilePath(key);
      match env.read
      case Failed =>
        Step(RemoveLocal(st, key, env.localOk), Normal(Undefined), [Get(url)])
      case Reached =>
        if p !in st.remote then
          Step(st, Normal(Undefined), [Get(url)])
        else
          var reqs := [Get(url), Delete(url, "Delete " + key, st.remote[p].sha)];
          match env.write
          case Reached =>
            var removed := Store(
              false,
              st.cache - {key},
              if env.localOk then st.local - {key} else st.local,
              st.remote - {p});
            Step(removed, Normal(Bool(true)), reqs)
          case Failed =>
            Step(RemoveLocal(st, key, env.localOk), Normal(Undefined), reqs)
  }

  /** `getJSON(key)`: None (null) for missing or empty text and for text the
      parser rejects; `parse` stands for JSON.parse, None for a SyntaxError. */
  function GetJSON<J>(st: Store, key: string, env: Env, parse: string -> Option<J>): (r: Step<Option<J>>)
    ensures r.store == GetItem(st, key, env).store
    ensures r.result.Threw? <==> GetItem(st, key, env).result.Threw?
    ensures r.result.Normal? && r.result.value.Some? ==>
              var v := GetItem(st, key, env).result.value;
              v.Str? && v.s != "" && parse(v.s) == r.result.value
  {
    var g := GetItem(st, key, env);
    match g.result
    case Threw => Step(g.store, Threw, g.requests)
    case Normal(v) =>
      match v
      case Str(text) => Step(g.store, Normal(if text == "" then None else parse(text)), g.requests)
      case _ => Step(g.store, Normal(None), g.requests)
  }

  /** `setJSON(key, obj)`; `stringify` stands for JSON.stringify, None when it
      throws. Both the serialisation and the `setItem` call sit inside one
      `try`, so whatever throws, the call resolves to false instead. */
  function SetJSON<J>(st: Store, key: string, obj: J, env: Env, stringify: J -> Option<string>): (r: Step<Val>)
    ensures r.result.Normal?
    ensures stringify(obj).None? ==> r.store == st && r.result == Normal(Bool(false)) && r.requests == []
    ensures stringify(obj).Some? ==>
              var w := SetItem(st, key, stringify(obj).value, env);
              && r.store == w.store && r.requests == w.requests
              && (st.fallback && !env.localOk ==> r.result == Normal(Bool(false)))
              && (!st.fallback || env.localOk ==> r.result == w.result)
  {
    match stringify(obj)
    case None => Step(st, Normal(Bool(false)), [])
    case Some(text) =>
      var w := SetItem(st, key, text, env);
      if w.result.Threw? then Step(w.store, Normal(Bool(false)), w.requests) else w
  }

  /** The emulated `storage` event. */
  datatype StorageEvent = StorageEvent(key: string, oldValue: Val, newValue: Val)

  datatype ApiStep<+T> = ApiStep(store: Store, result: Completion<T>, events: seq<StorageEvent>)

  /** `githubStorageAPI.setItem(key, value)`: reads the old value first
      (`read` is the environment of that read), writes, and dispatches an
      event only when the write resolved to a truthy value. */
  function ApiSetItem(st: Store, key: string, value: string, read: Env, write: Env): (r: ApiStep<Val>)
    ensures |r.events| <= 1
    ensures |r.events| == 1 ==> r.result.Normal? && Truthy(r.result.value)
    ensures r.result.Normal? ==> GetItem(st, key, read).result.Normal?
    ensures r.result.Normal? && Truthy(r.result.value) ==>
              r.events == [StorageEvent(key, GetItem(st, key, read).result.value, Str(value))]
  {
    var g := GetItem(st, key, read);
    match g.result
    case Threw => ApiStep(g.store, Threw, [])
    case Normal(prior) =>
      var s := SetItem(g.store, key, value, write);
      match s.result
      case Threw => ApiStep(s.store, Threw, [])
      case Normal(res) =>
        ApiStep(s.store, Normal(res), if Truthy(res) then [StorageEvent(key, prior, Str(value))] else [])
  }

  /** `githubStorageAPI.removeItem(key)`: dispatches whatever the removal did,
      with `newValue` null; nothing when a step threw. */
  function ApiRemoveItem(st: Store, key: string, read: Env, write: Env): (r: ApiStep<Val>)
    ensures r.result.Normal? ==> r.result.value == Undefined
    ensures r.result.Normal? ==> GetItem(st, key, read).result.Normal?
    ensures r.result.Normal? ==> r.events == [StorageEvent(key, GetItem(st, key, read).result.value, Null)]
    ensures r.result.Threw? ==> r.events == []
  {
    var g := GetItem(st, key, read);
    match g.result
    case Threw => ApiStep(g.store, Threw, [])
    case Normal(prior) =>
      var s := RemoveItem(g.store, key, write);
      match s.result
      case Threw => ApiStep(s.store, Threw, [])
      case Normal(_) => ApiStep(s.store, Normal(Undefined), [StorageEvent(key, prior, Null)])
  }

  /** `githubStorageAPI.setJSON(key, obj)`: only the read of the old value,
      which sits outside `setJSON`'s `try`, can make it throw. */
  function ApiSetJSON<J>(st: Store, key: string, obj: J, read: Env, write: Env, stringify: J -> Option<string>): (r: ApiStep<Val>)
    ensures |r.events| <= 1
    ensures |r.events| == 1 ==> r.result.Normal? && Truthy(r.result.value)
    ensures r.result.Threw? <==> GetItem(st, key, read).result.Threw?
    ensures r.result.Normal? && Truthy(r.result.value) ==> stringify(obj).Some?
    ensures r.result.Normal? && Truthy(r.result.value) ==>
              r.events == [StorageEvent(key, GetItem(st, key, read).result.value, Str(stringify(obj).value))]
  {
    var g := GetItem(st, key, read);
    match g.result
    case Threw => ApiStep(g.store, Threw, [])
    case Normal(prior) =>
      var s := SetJSON(g.store, key, obj, write, stringify);
      var res := s.result.value;
      if Truthy(res) then
        ApiStep(s.store, Normal(res), [StorageEvent(key, prior, Str(stringify(obj).value))])
      else
        ApiStep(s.store, Normal(res), [])
  }

  /** In fallback mode every operation goes to localStorage alone: no
      request, and neither the cache nor the remote files change. */
  lemma FallbackTouchesOnlyLocal(st: Store, key: string, value: string, env: Env)
    requires st.fallback
    ensures var g := GetItem(st, key, env);
              g.requests == [] && g.store == st
              && g.result == (if env.localOk then Normal(LocalGet(st.local, key)) else Threw)
    ensures var w := SetItem(st, key, value, env);
              w.requests == [] && w.store.cache == st.cache && w.store.remote == st.remote
              && w.store.local == (if env.localOk then st.local[key := value] else st.local)
    ensures var d := RemoveItem(st, key, env);
              d.requests == [] && d.store.cache == st.cache && d.store.remote == st.remote
              && d.store.local == (if env.localOk then st.local - {key} else st.local)
  {
  }

  /** Outside fallback mode, `getItem` answers without any request exactly
      when the key has a cache entry younger than five minutes, and then
      answers with that entry. */
  lemma CacheServedIffFresh(st: Store, key: string, env: Env)
    requires !st.fallback
    ensures GetItem(st, key, env).requests == [] <==> CacheHit(st, key, env.now)
    ensures CacheHit(st, key, env.now) ==> GetItem(st, key, env) == Step(st, Normal(Str(st.cache[key].data)), [])
  {
  }

  /** A cache miss goes to the raw file: found, its text is returned and
      cached with the current time; 404 gives null; any other failure gives
      the localStorage copy, or null when localStorage throws. */
  lemma GetItemOnMiss(st: Store, key: string, env: Env)
    requires !st.fallback && !CacheHit(st, key, env.now)
    ensures GetItem(st, key, env).requests == [Get(RawUrl(key))]
    ensures env.read == Reached && FilePath(key) in st.remote ==>
              var text := st.remote[FilePath(key)].content;
              GetItem(st, key, env).result == Normal(Str(text))
              && GetItem(st, key, env).store.cache == st.cache[key := CacheEntry(text, env.now)]
    ensures env.read == Reached && FilePath(key) !in st.remote ==>
              GetItem(st, key, env) == Step(st, Normal(Null), [Get(RawUrl(key))])
    ensures env.read == Failed ==>
              GetItem(st, key, env).store == st
              && GetItem(st, key, env).result == Normal(if env.localOk then LocalGet(st.local, key) else Null)
  {
  }

  /** The PUT always follows a GET of the file's metadata, and carries a sha
      exactly when that GET succeeded and reported a non-empty one. */
  lemma PutCarriesKnownSha(st: Store, key: string, value: string, env: Env)
    requires !st.fallback
    ensures var reqs := SetItem(st, key, value, env).requests;
              |reqs| == 2 && reqs[0] == Get(ApiUrl(key)) && reqs[1].Put?
              && reqs[1].body.message == "Update " + key && reqs[1].body.content == value
              && (reqs[1].body.sha.Some? <==>
                    env.read == Reached && FilePath(key) in st.remote && st.remote[FilePath(key)].sha != "")
  {
  }

  /** A successful PUT updates the remote file, the cache (with the current
      time) and, when it accepts the write, the localStorage mirror, and
      resolves to true. A failed PUT writes only localStorage and resolves to
      whether that write succeeded. */
  lemma SetItemOutcomes(st: Store, key: string, value: string, env: Env)
    requires !st.fallback
    ensures var r := SetItem(st, key, value, env);
              env.write == Reached ==>
                && r.result == Normal(Bool(true))
                && r.store.cache == st.cache[key := CacheEntry(value, env.now)]
                && r.store.remote == st.remote[FilePath(key) := RemoteFile(value, env.newSha)]
                && r.store.local == (if env.localOk then st.local[key := value] else st.local)
    ensures var r := SetItem(st, key, value, env);
              env.write == Failed ==>
                && r.result == Normal(Bool(env.localOk))
                && r.store.cache == st.cache && r.store.remote == st.remote
                && r.store.local == (if env.localOk then st.local[key := value] else st.local)
  {
  }

  /** After a successful remote write, reading the key gives the value back:
      from the cache while it is fresh, from the repository otherwise. */
  lemma {:induction false} SetThenGet(st: Store, key: string, value: string, w: Env, g: Env)
    requires !st.fallback && w.write == Reached
    requires g.read == Reached || g.now - w.now < CacheDuration
    ensures GetItem(SetItem(st, key, value, w).store, key, g).result == Normal(Str(value))
  {
    var s := SetItem(st, key, value, w).store;
    assert s.cache[key] == CacheEntry(value, w.now);
    assert s.remote[FilePath(key)] == RemoteFile(value, w.newSha);
  }

  /** `removeItem` stops at a 404 without changing anything; when the DELETE
      succeeds the key leaves the remote, the cache and (if it accepts the
      access) localStorage, and the call resolves to true. */
  lemma RemoveItemOutcomes(st: Store, key: string, env: Env)
    requires !st.fallback
    ensures env.read == Reached && FilePath(key) !in st.remote ==>
              RemoveItem(st, key, env) == Step(st, Normal(Undefined), [Get(ApiUrl(key))])
    ensures var r := RemoveItem(st, key, env);
              env.read == Reached && FilePath(key) in st.remote && env.write == Reached ==>
                && r.result == Normal(Bool(true))
                && r.store.remote == st.remote - {FilePath(key)}
                && r.store.cache == st.cache - {key}
                && (env.localOk ==> key !in r.store.local)
    ensures var r := RemoveItem(st, key, env);
              env.read == Failed || (FilePath(key) in st.remote && env.write == Failed) ==>
                && r.result == Normal(Undefined)
                && r.store.remote == st.remote && r.store.cache == st.cache
                && (env.localOk ==> key !in r.store.local)
  {
  }

  /** Once the file is deleted, a read that reaches GitHub finds nothing. */
  lemma {:induction false} RemoveThenGet(st: Store, key: string, w: Env, g: Env)
    requires !st.fallback && w.read == Reached && w.write == Reached && FilePath(key) in st.remote
    requires g.read == Reached
    ensures GetItem(RemoveItem(st, key, w).store, key, g).result == Normal(Null)
  {
    var s := RemoveItem(st, key, w).store;
    assert key !in s.cache;
    assert FilePath(key) !in s.remote;
  }

  /** `getJSON` yields null when the text is missing or empty, or does not
      parse. */
  lemma GetJSONNull<J>(st: Store, key: string, env: Env, parse: string -> Option<J>)
    requires GetItem(st, key, env).result.Normal?
    ensures var v := GetItem(st, key, env).result.value;
              !Truthy(v) || parse(v.s).None? ==> GetJSON(st, key, env, parse).result == Normal(None)
  {
  }

  /** What `setJSON` stores, `getJSON` reads back, when `parse` inverts
      `stringify` on it. */
  lemma {:induction false} JsonRoundTrip<J>(st: Store, key: string, obj: J, w: Env, g: Env,
                                            parse: string -> Option<J>, stringify: J -> Option<string>)
    requires !st.fallback && w.write == Reached
    requires g.read == Reached || g.now - w.now < CacheDuration
    requires stringify(obj).Some? && stringify(obj).value != "" && parse(stringify(obj).value) == Some(obj)
    ensures GetJSON(SetJSON(st, key, obj, w, stringify).store, key, g, parse).result == Normal(Some(obj))
  {
    SetThenGet(st, key, stringify(obj).value, w, g);
  }

  /** In fallback mode `setItem` resolves to localStorage.setItem's
      `undefined`, so the wrapper never dispatches a storage event, even when
      the value was stored. */
  lemma FallbackSetNeverNotifies(st: Store, key: string, value: string, read: Env, write: Env)
    requires st.fallback
    ensures ApiSetItem(st, key, value, read, write).events == []
    ensures read.localOk && write.localOk ==>
              ApiSetItem(st, key, value, read, write).result == Normal(Undefined)
              && ApiSetItem(st, key, value, read, write).store.local[key] == value
  {
  }

  /** Outside fallback mode the wrapper's write always notifies, unless both
      the PUT and the localStorage fallback fail. */
  lemma ApiSetItemNotifies(st: Store, key: string, value: string, read: Env, write: Env)
    requires !st.fallback
    ensures var r := ApiSetItem(st, key, value, read, write);
              (|r.events| == 1 <==> write.write == Reached || write.localOk)
  {
  }

  /** A write whose PUT fails still resolves to true once localStorage holds
      the value. A later read that reaches GitHub and finds no file gives
      null, though: the locally kept value is consulted only when the fetch
      itself fails. */
  lemma FailedPutHiddenByMissingFile(st: Store, key: string, value: string, w: Env, g: Env)
    requires !st.fallback && w.write == Failed && w.localOk
    requires FilePath(key) !in st.remote && !CacheHit(st, key, g.now)
    requires g.read == Reached
    ensures SetItem(st, key, value, w).result == Normal(Bool(true))
    ensures SetItem(st, key, value, w).store.local[key] == value
    ensures GetItem(SetItem(st, key, value, w).store, key, g).result == Normal(Null)
  {
  }

  /** What `dispatchStorageEvent` hands to the page's `storage` listeners.
      The `storageArea` member of `new StorageEvent('storage', init)` takes
      only a Storage object or null; `areaIsStorage` says whether the object
      passed is one. Anything else makes the constructor throw, and the
      `catch` around it drops the event. */
  function Dispatch(logged: seq<StorageEvent>, areaIsStorage: bool): (r: seq<StorageEvent>)
    ensures |r| <= |logged|
    ensures areaIsStorage ==> r == logged
    ensures !areaIsStorage ==> r == []
  {
    if areaIsStorage then logged else []
  }

  /** As written the wrapper passes itself as `storageArea`, which is not a
      Storage object: a write the wrapper means to announce reaches no
      listener. */
  lemma WrapperEventNeverDelivered(st: Store, key: string, value: string, read: Env, write: Env)
    requires !st.fallback && write.write == Reached
    ensures |ApiSetItem(st, key, value, read, write).events| == 1
    ensures Dispatch(ApiSetItem(st, key, value, read, write).events, false) == []
  {
    ApiSetItemNotifies(st, key, value, read, write);
  }

  /** With `storageArea` left null, or set to a real Storage object, the
      listeners receive the announced write: the key, the value read before
      it and the new value. */
  lemma StorageAreaEventDelivered(st: Store, key: string, value: string, read: Env, write: Env)
    requires !st.fallback && write.write == Reached
    ensures GetItem(st, key, read).result.Normal?
    ensures Dispatch(ApiSetItem(st, key, value, read, write).events, true)
            == [StorageEvent(key, GetItem(st, key, read).result.value, Str(value))]
  {
    ApiSetItemNotifies(st, key, value, read, write);
  }
}
