/** The reconciliation sweep of llama-service (`RequestAnalyzer` in
    llama-service.py): per entry a safety gate, a retention verdict, the short
    TTL for stale single-use entries, and for POST entries the removal of older
    duplicates and the marking of related GET entries for refresh. */
module LlamaService {
  import opened Base
  import opened Text
  import opened Redis
  import opened LlamaModel

  /** The TTL given to a stale single-use entry: one hour. */
  const ShortTtl: int := 3600

  /** `compare_urls`: equality of the lower-cased URLs. */
  function CompareUrls(url1: string, url2: string): (r: bool)
    ensures url1 == url2 ==> r
    ensures r ==> |url1| == |url2|
  {
    Lower(url1) == Lower(url2)
  }

  /** Two URLs compare equal exactly when they have the same length and agree
      letter by letter up to ASCII case; hence the comparison is reflexive,
      symmetric and transitive. */
  lemma CompareUrlsCharwise(url1: string, url2: string)
    ensures CompareUrls(url1, url2) <==>
      |url1| == |url2| && forall i :: 0 <= i < |url1| ==> LowerChar(url1[i]) == LowerChar(url2[i])
  {
  }

  // ---------------------------------------------------------------------
  // delete_old_requests

  /** The entry's `request_url` is exactly `u`. */
  predicate HasUrl(h: Hash, u: string) {
    "request_url" in h && h["request_url"] == u
  }

  /** The entry's `last_used` time, where it reads as a number. */
  function Time(h: Hash): real {
    match LastUsed(h)
    case Ok(t) => t
    case Err(_) => 0.0
  }

  /** One iteration of the first loop of `delete_old_requests` on the entry
      `h` at `key`, given the newest match so far. */
  function ScanStep(newest: Option<(string, real)>, key: string, h: Hash, u: string): Result<Option<(string, real)>> {
    if "request_url" !in h then Err(KeyError("request_url"))
    else if h["request_url"] != u then Ok(newest)
    else match LastUsed(h)
      case Err(e) => Err(e)
      case Ok(t) => if newest.None? || t > newest.value.1 then Ok(Some((key, t))) else Ok(newest)
  }

  /** The first loop of `delete_old_requests` over the keys `ks`: the key and
      time of the newest entry with URL `u` (`newest_key`, `newest_time`), or
      the exception the loop raises. */
  function Scan(db: Db, ks: seq<string>, u: string): Result<Option<(string, real)>>
    decreases |ks|
  {
    if ks == [] then Ok(None)
    else match Scan(db, ks[..|ks| - 1], u)
      case Err(e) => Err(e)
      case Ok(newest) => ScanStep(newest, ks[|ks| - 1], HGetAll(db, ks[|ks| - 1]), u)
  }

  /** The entries with URL `u` that are older than `t`. */
  function OlderThan(db: Db, u: string, t: real): set<string> {
    set k | k in db.hashes && HasUrl(db.hashes[k], u) && Time(db.hashes[k]) < t
  }

  /** What `delete_old_requests(u)` does: the first loop finds the newest entry
      with URL `u`; when the key found is truthy (not empty), every entry with
      URL `u` older than it is deleted. */
  function DeleteOldRequestsSpec(db: Db, u: string): Run {
    match Scan(db, db.keys, u)
    case Err(e) => Run(db, Some(e))
    case Ok(None) => Run(db, None)
    case Ok(Some(newest)) =>
      if newest.0 == "" then Run(db, None)
      else Run(RemoveAll(db, OlderThan(db, u, newest.1)), None)
  }

  // ---------------------------------------------------------------------
  // mark_related_get_as_refresh

  /** A GET entry whose URL equals `u` ignoring case. */
  predicate IsRelatedGet(h: Hash, u: string) {
    && "request_method" in h && h["request_method"] == "GET"
    && "request_url" in h && CompareUrls(h["request_url"], u)
  }

  /** Reading this entry in `mark_related_get_as_refresh` raises KeyError. */
  predicate MarkFails(h: Hash) {
    "request_method" !in h || (h["request_method"] == "GET" && "request_url" !in h)
  }

  function MarkError(h: Hash): Error {
    if "request_method" !in h then KeyError("request_method") else KeyError("request_url")
  }

  /** One iteration of the loop of `mark_related_get_as_refresh(u)` on `key`,
      after the iterations before it ended in `r`. */
  function MarkStep(r: Run, key: string, u: string): Run {
    var h := HGetAll(r.db, key);
    if r.error.Some? then r
    else if MarkFails(h) then Run(r.db, Some(MarkError(h)))
    else if IsRelatedGet(h, u) then Run(HSet(r.db, key, "purpose", "refresh"), None)
    else Run(r.db, None)
  }

  /** The loop of `mark_related_get_as_refresh(u)` over the keys `ks`: each
      entry is read from the current store; a related GET entry gets
      `purpose=refresh`; an entry that raises KeyError stops the loop. */
  function MarkLoop(db: Db, ks: seq<string>, u: string): Run
    decreases |ks|
  {
    if ks == [] then Run(db, None)
    else MarkStep(MarkLoop(db, ks[..|ks| - 1], u), ks[|ks| - 1], u)
  }

  /** What `mark_related_get_as_refresh(u)` does: the loop over all keys. */
  function MarkRelatedSpec(db: Db, u: string): Run {
    MarkLoop(db, db.keys, u)
  }

  /** The store with `purpose=refresh` written into every related GET entry
      among the keys `among`. */
  function MarkAmong(db: Db, among: set<string>, u: string): (r: Db)
    ensures r.keys == db.keys && r.ttl == db.ttl && r.hashes.Keys == db.hashes.Keys
    ensures db.Valid() ==> r.Valid()
  {
    db.(hashes := map k | k in db.hashes ::
      if k in among && IsRelatedGet(db.hashes[k], u) then db.hashes[k]["purpose" := "refresh"]
      else db.hashes[k])
  }

  /** The position of the first of the keys `ks` whose entry makes the loop
      of `mark_related_get_as_refresh` raise, or `|ks|` when there is none. */
  function FirstMarkFailure(db: Db, ks: seq<string>): (j: nat)
    ensures j <= |ks|
    ensures forall i :: 0 <= i < j ==> !MarkFails(HGetAll(db, ks[i]))
    ensures j < |ks| ==> MarkFails(HGetAll(db, ks[j]))
    decreases |ks|
  {
    if ks == [] then 0
    else
      var init := ks[..|ks| - 1];
      var j := FirstMarkFailure(db, init);
      assert forall i :: 0 <= i < |init| ==> ks[i] == init[i];
      if j < |init| then j
      else if MarkFails(HGetAll(db, ks[|ks| - 1])) then |init|
      else |ks|
  }

  // ---------------------------------------------------------------------
  // analyze_requests

  /** The verdict step of `analyze_requests`: a `delete` verdict deletes the
      entry, any other verdict is written into the `purpose` field. */
  function ApplyVerdict(db: Db, key: string, action: Verdict): (r: Db)
    ensures db.Valid() ==> r.Valid()
    ensures action == Delete ==> r.hashes == db.hashes - {key} && r.ttl == db.ttl - {key}
    ensures action != Delete ==>
      && r.hashes == db.hashes[key := HGetAll(db, key)["purpose" := PurposeOf(action)]]
      && r.ttl == db.ttl
      && (key in db.hashes ==> r.keys == db.keys)
  {
    match action
    case Delete => Del(db, key)
    case Refresh => HSet(db, key, "purpose", "refresh")
    case Keep => HSet(db, key, "purpose", "keep")
  }

  /** The TTL rule of `analyze_requests`: used once, and last used more than
      72 hours before the sweep started. */
  predicate TtlDue(count: int, lastUsed: real, now: real) {
    count == 1 && now - lastUsed > ThreeDays
  }

  /** The one-hour TTL `analyze_requests` gives an entry used once and last
      used more than 72 hours before the sweep. */
  function TtlStep(db: Db, key: string, count: int, lastUsed: real, now: real): (r: Db)
    ensures db.Valid() ==> r.Valid()
    ensures r.keys == db.keys && r.hashes == db.hashes
    ensures key in db.hashes ==> r.ttl == if TtlDue(count, lastUsed, now) then db.ttl[key := ShortTtl] else db.ttl
    ensures key !in db.hashes ==> r == db
  {
    if TtlDue(count, lastUsed, now) then Expire(db, key, ShortTtl) else db
  }

  /** What `analyze_requests` does for a POST: deduplication, then
      propagation; an exception of the first stops the second. */
  function PostEffects(db: Db, u: string): Run {
    var d := DeleteOldRequestsSpec(db, u);
    if d.error.Some? then d else MarkRelatedSpec(d.db, u)
  }

  /** The end of the `analyze_requests` body for one key: the count is
      incremented, then `update_cache` is called on `LlamaModel`, which
      defines no such method, so AttributeError is raised. The step always
      raises: ResponseError when the stored count is not an integer. */
  function IncrementThenUpdate(db: Db, key: string): (r: Run)
    ensures r.error.Some?
    ensures RequestCount(HGetAll(db, key)).Err? ==> r == Run(db, Some(ResponseError))
    ensures RequestCount(HGetAll(db, key)).Ok? ==>
      var c := RequestCount(HGetAll(db, key)).value;
      && r.error == Some(AttributeError("update_cache"))
      && r.db.hashes == db.hashes[key := HGetAll(db, key)["request_count" := Show(c + 1)]]
      && r.db.ttl == db.ttl
      && RequestCount(HGetAll(r.db, key)) == Ok(c + 1)
  {
    match HIncrBy(db, key, "request_count", 1)
    case Err(e) => Run(db, Some(e))
    case Ok(db') =>
      if RequestCount(HGetAll(db, key)).Ok? then
        IncrementCount(db, key, RequestCount(HGetAll(db, key)).value);
        Run(db', Some(AttributeError("update_cache")))
      else Run(db', Some(AttributeError("update_cache")))
  }

  /** The rest of the `analyze_requests` body for one key after the verdict
      has been applied (`db1`); `data` is the entry as read at the start. */
  function AfterVerdict(db1: Db, key: string, data: Hash, now: real): Run
    requires "request_method" in data && "request_url" in data
  {
    match RequestCount(HGetAll(db1, key))
    case Err(e) => Run(db1, Some(e))
    case Ok(count) =>
      match LastUsed(data)
      case Err(e) => Run(db1, Some(e))
      case Ok(lastUsed) =>
        var db2 := TtlStep(db1, key, count, lastUsed, now);
        var p := if data["request_method"] == "POST" then PostEffects(db2, data["request_url"]) else Run(db2, None);
        if p.error.Some? then p else IncrementThenUpdate(p.db, key)
  }

  /** The body of the `try` block of `analyze_requests` for one key, with the
      guard's and the analysis model's replies for that key. */
  function EntryEffect(db: Db, key: string, now: real, guard: Reply, reply: Reply): Run {
    var data := HGetAll(db, key);
    if "request_url" !in data then Run(db, Some(KeyError("request_url")))
    else match CheckInappropriateContent(guard)
      case Err(e) => Run(db, Some(e))
      case Ok(allowed) =>
        if !allowed then Run(db, None)
        else match AnalyzeRequest(data, reply)
          case Err(e) => Run(db, Some(e))
          case Ok(action) => AfterVerdict(ApplyVerdict(db, key, action), key, data, now)
  }

  /** One sweep over the key snapshot `ks`: each key's exception is caught and
      the sweep goes on with the next key. */
  function SweepEffect(db: Db, ks: seq<string>, now: real, guard: string -> Reply, reply: string -> Reply): Db
    decreases |ks|
  {
    if ks == [] then db
    else
      var last := ks[|ks| - 1];
      EntryEffect(SweepEffect(db, ks[..|ks| - 1], now, guard, reply), last, now, guard(last), reply(last)).db
  }

  /** `RequestAnalyzer` of llama-service.py. The model's answers are passed to
      `AnalyzeRequests` as one reply per key (`guard` for the safety check,
      `reply` for the retention analysis); `now` is `time.time()` at the start
      of the sweep. */
  class RequestAnalyzer {
    const redis: Store

    constructor (store: Store)
      ensures redis == store
    {
      redis := store;
    }

    method AnalyzeRequests(now: real, guard: string -> Reply, reply: string -> Reply)
      requires redis.Valid()
      modifies redis
      ensures redis.Valid()
      ensures redis.State() == SweepEffect(old(redis.State()), old(redis.keys), now, guard, reply)
    {
      var keys := redis.GetAllKeys();
      ghost var db0 := redis.State();
      for i := 0 to |keys|
        invariant redis.Valid()
        invariant redis.State() == SweepEffect(db0, keys[..i], now, guard, reply)
      {
        var key := keys[i];
        // try: ... except Exception: the exception is logged and dropped
        var _ := AnalyzeEntry(key, now, guard(key), reply(key));
        assert keys[..i + 1][..i] == keys[..i];
      }
      assert keys[..|keys|] == keys;
    }

    /** The try block for one key; returns the exception it raises. */
    method AnalyzeEntry(key: string, now: real, guard: Reply, reply: Reply) returns (err: Option<Error>)
      requires redis.Valid()
      modifies redis
      ensures redis.Valid()
      ensures Run(redis.State(), err) == EntryEffect(old(redis.State()), key, now, guard, reply)
    {
      var data := redis.GetRequestData(key);
      if "request_url" !in data {
        return Some(KeyError("request_url"));
      }
      var allowed := CheckInappropriateContent(guard);
      if allowed.Err? {
        return Some(allowed.error);
      }
      if !allowed.value {
        return None;
      }
      var action := AnalyzeRequest(data, reply);
      if action.Err? {
        return Some(action.error);
      }
      ghost var db1 := ApplyVerdict(redis.State(), key, action.value);
      match action.value {
        case Delete => redis.DeleteRequest(key);
        case Refresh => redis.SetField(key, "purpose", "refresh");
        case Keep => redis.SetField(key, "purpose", "keep");
      }
      assert redis.State() == db1;
      var count := redis.GetRequestCount(key);
      if count.Err? {
        return Some(count.error);
      }
      var lastUsed := LastUsed(data);
      if lastUsed.Err? {
        return Some(lastUsed.error);
      }
      if count.value == 1 && now - lastUsed.value > ThreeDays {
        redis.SetTtl(key, ShortTtl);
      }
      assert "request_method" in PromptFields;
      if data["request_method"] == "POST" {
        err := DeleteOldRequests(data["request_url"]);
        if err.Some? {
          return;
        }
        err := MarkRelatedGetAsRefresh(data["request_url"]);
        if err.Some? {
          return;
        }
      }
      err := redis.IncrementRequestCount(key);
      if err.Some? {
        return;
      }
      // self.llama.update_cache(request_data): LlamaModel has no update_cache
      err := Some(AttributeError("update_cache"));
    }

    /** The first loop of `delete_old_requests`: the newest entry with URL `u`. */
    method FindNewest(u: string) returns (r: Result<Option<(string, real)>>)
      ensures r == Scan(redis.State(), redis.keys, u)
    {
      var allKeys := redis.GetAllKeys();
      var newestTime: real := 0.0;
      var newestKey: Option<string> := None;
      for i := 0 to |allKeys|
        invariant Scan(redis.State(), allKeys[..i], u) == Ok(if newestKey.None? then None else Some((newestKey.value, newestTime)))
      {
        var key := allKeys[i];
        assert allKeys[..i + 1][..i] == allKeys[..i];
        var data := redis.GetRequestData(key);
        if "request_url" !in data {
          ScanErrorStops(redis.State(), allKeys, i + 1, u);
          return Err(KeyError("request_url"));
        }
        if data["request_url"] == u {
          var requestTime := LastUsed(data);
          if requestTime.Err? {
            ScanErrorStops(redis.State(), allKeys, i + 1, u);
            return Err(requestTime.error);
          }
          if newestKey.None? || requestTime.value > newestTime {
            newestTime := requestTime.value;
            newestKey := Some(key);
          }
        }
      }
      assert allKeys[..|allKeys|] == allKeys;
      r := Ok(if newestKey.None? then None else Some((newestKey.value, newestTime)));
    }

    method DeleteOldRequests(u: string) returns (err: Option<Error>)
      requires redis.Valid()
      modifies redis
      ensures redis.Valid()
      ensures Run(redis.State(), err) == DeleteOldRequestsSpec(old(redis.State()), u)
    {
      var newest := FindNewest(u);
      if newest.Err? {
        return Some(newest.error);
      }
      var allKeys := redis.GetAllKeys();
      ghost var db0 := redis.State();
      var newestKey, newestTime := if newest.value.Some? then Some(newest.value.value.0) else None, if newest.value.Some? then newest.value.value.1 else 0.0;
      if newestKey.Some? && newestKey.value != "" {
        ScanRaisesOnBadEntry(db0, allKeys, u);
        DeleteOlderThan(u, newestTime);
      }
      return None;
    }

    /** The second loop of `delete_old_requests`: every entry with URL `u`
        whose time is below `newestTime` is deleted. */
    method DeleteOlderThan(u: string, newestTime: real)
      requires redis.Valid() && ScanClean(redis.State(), redis.keys, u)
      modifies redis
      ensures redis.Valid()
      ensures redis.State() == RemoveAll(old(redis.State()), OlderThan(old(redis.State()), u, newestTime))
    {
      var allKeys := redis.GetAllKeys();
      ghost var db0 := redis.State();
      ghost var older := OlderThan(db0, u, newestTime);
      RemoveNothing(db0);
      assert older * Elems(allKeys[..0]) == {};
      for i := 0 to |allKeys|
        invariant redis.State() == RemoveAll(db0, older * Elems(allKeys[..i]))
      {
        var key := allKeys[i];
        assert key in allKeys && key !in Elems(allKeys[..i]);
        DeleteStep(db0, older, Elems(allKeys[..i]), key);
        ElemsPrefix(allKeys, i);
        var data := redis.GetRequestData(key);
        // the first loop has read every entry: these lookups cannot raise
        if data["request_url"] == u {
          var requestTime := LastUsed(data).value;
          if requestTime < newestTime {
            redis.DeleteRequest(key);
          }
        }
      }
      assert older * Elems(allKeys[..|allKeys|]) == older;
    }

    method MarkRelatedGetAsRefresh(u: string) returns (err: Option<Error>)
      requires redis.Valid()
      modifies redis
      ensures redis.Valid()
      ensures Run(redis.State(), err) == MarkRelatedSpec(old(redis.State()), u)
    {
      var allKeys := redis.GetAllKeys();
      ghost var db0 := redis.State();
      for i := 0 to |allKeys|
        invariant redis.Valid()
        invariant MarkLoop(db0, allKeys[..i], u) == Run(redis.State(), None)
      {
        var key := allKeys[i];
        MarkLoopExtend(db0, allKeys, i, redis.State(), u);
        var data := redis.GetRequestData(key);
        // `request_data["request_method"]`, and for a GET `request_data["request_url"]`
        if MarkFails(data) {
          MarkErrorStops(db0, allKeys, i + 1, u);
          return Some(MarkError(data));
        }
        if data["request_method"] == "GET" && CompareUrls(data["request_url"], u) {
          redis.SetField(key, "purpose", "refresh");
        }
      }
      assert allKeys[..|allKeys|] == allKeys;
      return None;
    }
  }

  // ---------------------------------------------------------------------
  // Lemmas the methods rely on

  lemma RemoveNothing(db: Db)
    ensures RemoveAll(db, {}) == db
  {
    FilterOutNothing(db.keys);
  }

  /** One iteration of the second loop of `delete_old_requests`: the entry is
      read as it was, and deleted exactly when it is among the older ones. */
  lemma DeleteStep(db: Db, older: set<string>, done: set<string>, key: string)
    requires key in db.hashes && key !in done
    ensures HGetAll(RemoveAll(db, older * done), key) == db.hashes[key]
    ensures key in older ==> Del(RemoveAll(db, older * done), key) == RemoveAll(db, older * (done + {key}))
    ensures key !in older ==> RemoveAll(db, older * done) == RemoveAll(db, older * (done + {key}))
  {
    DelAfterRemoveAll(db, older * done, key);
    assert key in older ==> older * (done + {key}) == older * done + {key};
    assert key !in older ==> older * (done + {key}) == older * done;
  }

  /** One more iteration of the loop of `mark_related_get_as_refresh`. */
  lemma MarkLoopExtend(db0: Db, ks: seq<string>, i: nat, cur: Db, u: string)
    requires i < |ks| && MarkLoop(db0, ks[..i], u) == Run(cur, None)
    ensures MarkLoop(db0, ks[..i + 1], u) == MarkStep(Run(cur, None), ks[i], u)
  {
    assert ks[..i + 1][..i] == ks[..i];
  }

  /** Once a prefix of the listing raises, the whole loop raises the same exception. */
  lemma {:induction false} MarkErrorStops(db: Db, ks: seq<string>, i: nat, u: string)
    requires i <= |ks| && MarkLoop(db, ks[..i], u).error.Some?
    ensures MarkLoop(db, ks, u) == MarkLoop(db, ks[..i], u)
    decreases |ks|
  {
    if i < |ks| {
      var init := ks[..|ks| - 1];
      assert init[..i] == ks[..i];
      MarkErrorStops(db, init, i, u);
    } else {
      assert ks[..i] == ks;
    }
  }

  /** Once a prefix of the listing raises, the whole first loop raises the same exception. */
  lemma {:induction false} ScanErrorStops(db: Db, ks: seq<string>, i: nat, u: string)
    requires i <= |ks| && Scan(db, ks[..i], u).Err?
    ensures Scan(db, ks, u) == Scan(db, ks[..i], u)
    decreases |ks|
  {
    if i < |ks| {
      var init := ks[..|ks| - 1];
      assert init[..i] == ks[..i];
      ScanErrorStops(db, init, i, u);
    } else {
      assert ks[..i] == ks;
    }
  }

  // ---------------------------------------------------------------------
  // Properties

  /** The entry at `k` has URL `u`. */
  predicate Matches(db: Db, k: string, u: string) {
    HasUrl(HGetAll(db, k), u)
  }

  /** Every entry the scan reads has a URL, and every entry with URL `u` a readable time. */
  predicate ScanClean(db: Db, ks: seq<string>, u: string) {
    forall k :: k in ks ==>
      "request_url" in HGetAll(db, k) && (HasUrl(HGetAll(db, k), u) ==> LastUsed(HGetAll(db, k)).Ok?)
  }

  /** The first loop of `delete_old_requests` raises exactly when some entry
      lacks a URL or an entry with URL `u` has an unreadable time. */
  lemma {:induction false} ScanRaisesOnBadEntry(db: Db, ks: seq<string>, u: string)
    decreases |ks|
    ensures Scan(db, ks, u).Ok? <==> ScanClean(db, ks, u)
  {
    if ks != [] {
      var init, last := ks[..|ks| - 1], ks[|ks| - 1];
      ScanRaisesOnBadEntry(db, init, u);
      assert ks == init + [last];
      assert forall k :: k in ks <==> k in init || k == last;
    }
  }

  /** One iteration either keeps the newest match so far or replaces it by a
      strictly newer entry with URL `u`. */
  lemma ScanStepCases(newest: Option<(string, real)>, key: string, h: Hash, u: string)
    requires ScanStep(newest, key, h, u).Ok?
    ensures var r := ScanStep(newest, key, h, u).value;
      || (r == newest && (HasUrl(h, u) ==> newest.Some? && Time(h) <= newest.value.1))
      || (r == Some((key, Time(h))) && HasUrl(h, u) && (newest.Some? ==> newest.value.1 < Time(h)))
  {
  }

  /** Without an exception, the first loop finds no entry exactly when no
      entry has URL `u`. */
  lemma {:induction false} ScanFindsNoneWithoutMatch(db: Db, ks: seq<string>, u: string)
    decreases |ks|
    requires Scan(db, ks, u).Ok?
    ensures Scan(db, ks, u).value.None? <==> forall k :: k in ks ==> !Matches(db, k, u)
  {
    if ks != [] {
      var init, last := ks[..|ks| - 1], ks[|ks| - 1];
      assert Scan(db, init, u).Ok?;
      var prev := Scan(db, init, u).value;
      assert Scan(db, ks, u) == ScanStep(prev, last, HGetAll(db, last), u);
      ScanFindsNoneWithoutMatch(db, init, u);
      ScanStepCases(prev, last, HGetAll(db, last), u);
      assert ks == init + [last];
      assert forall k :: k in ks <==> k in init || k == last;
      assert Matches(db, last, u) == HasUrl(HGetAll(db, last), u);
    }
  }

  /** The last step of the first loop, unfolded. */
  lemma ScanUnfold(db: Db, ks: seq<string>, u: string)
    requires Scan(db, ks, u).Ok? && ks != []
    ensures Scan(db, ks[..|ks| - 1], u).Ok?
    ensures Scan(db, ks, u) == ScanStep(Scan(db, ks[..|ks| - 1], u).value, ks[|ks| - 1], HGetAll(db, ks[|ks| - 1]), u)
  {
  }

  /** The entry the first loop finds is listed and has URL `u` and the time found. */
  lemma {:induction false} ScanFindsMatch(db: Db, ks: seq<string>, u: string)
    decreases |ks|
    requires Scan(db, ks, u).Ok? && Scan(db, ks, u).value.Some?
    ensures var newest := Scan(db, ks, u).value.value;
      newest.0 in ks && Matches(db, newest.0, u) && Time(HGetAll(db, newest.0)) == newest.1
  {
    var init, last := ks[..|ks| - 1], ks[|ks| - 1];
    ScanUnfold(db, ks, u);
    var prev := Scan(db, init, u).value;
    ScanStepCases(prev, last, HGetAll(db, last), u);
    assert ks == init + [last];
    if prev.Some? && Scan(db, ks, u).value == prev {
      ScanFindsMatch(db, init, u);
    }
  }

  /** The time the first loop finds is the greatest time of an entry with URL `u`. */
  lemma {:induction false} ScanFindsMaximum(db: Db, ks: seq<string>, u: string)
    decreases |ks|
    requires Scan(db, ks, u).Ok? && Scan(db, ks, u).value.Some?
    ensures forall k :: k in ks && Matches(db, k, u) ==> Time(HGetAll(db, k)) <= Scan(db, ks, u).value.value.1
  {
    var init, last := ks[..|ks| - 1], ks[|ks| - 1];
    ScanUnfold(db, ks, u);
    var prev := Scan(db, init, u).value;
    ScanStepCases(prev, last, HGetAll(db, last), u);
    assert ks == init + [last];
    if prev.Some? {
      ScanFindsMaximum(db, init, u);
    } else {
      ScanFindsNoneWithoutMatch(db, init, u);
    }
    forall k | k in ks && Matches(db, k, u)
      ensures Time(HGetAll(db, k)) <= Scan(db, ks, u).value.value.1
    {
      if k != last {
        assert k in init;
      }
    }
  }

  /** `key` is listed no later than any entry with URL `u` and time `t`. */
  predicate FirstWithTime(db: Db, ks: seq<string>, u: string, key: string, t: real) {
    forall j :: 0 <= j < |ks| && Matches(db, ks[j], u) && Time(HGetAll(db, ks[j])) == t ==> key in ks[..j + 1]
  }

  /** Appending a key that does not match with time `t` keeps `key` first. */
  lemma FirstWithTimeExtend(db: Db, ks: seq<string>, u: string, key: string, t: real)
    requires ks != [] && key in ks[..|ks| - 1]
    requires FirstWithTime(db, ks[..|ks| - 1], u, key, t)
    ensures FirstWithTime(db, ks, u, key, t)
  {
    var init := ks[..|ks| - 1];
    forall j | 0 <= j < |ks| && Matches(db, ks[j], u) && Time(HGetAll(db, ks[j])) == t
      ensures key in ks[..j + 1]
    {
      if j < |init| {
        assert ks[j] == init[j] && ks[..j + 1] == init[..j + 1];
      } else {
        assert init == ks[..j] && ks[..j] <= ks[..j + 1];
      }
    }
  }

  /** The last key is first with time `t` when no earlier entry matches with
      a time as great. */
  lemma FirstWithTimeLast(db: Db, ks: seq<string>, u: string, t: real)
    requires ks != []
    requires forall k :: k in ks[..|ks| - 1] && Matches(db, k, u) ==> Time(HGetAll(db, k)) < t
    ensures FirstWithTime(db, ks, u, ks[|ks| - 1], t)
  {
    var init := ks[..|ks| - 1];
    forall j | 0 <= j < |ks| && Matches(db, ks[j], u) && Time(HGetAll(db, ks[j])) == t
      ensures ks[|ks| - 1] in ks[..j + 1]
    {
      if j == |init| {
        assert ks[..j + 1] == ks;
      }
    }
  }

  /** No entry listed before the one the first loop finds has the time found:
      of several newest entries, the first listed is the one found. */
  lemma {:induction false} ScanFindsFirstNewest(db: Db, ks: seq<string>, u: string)
    decreases |ks|
    requires Scan(db, ks, u).Ok? && Scan(db, ks, u).value.Some?
    ensures var newest := Scan(db, ks, u).value.value;
      forall j :: 0 <= j < |ks| && Matches(db, ks[j], u) && Time(HGetAll(db, ks[j])) == newest.1 ==>
        newest.0 in ks[..j + 1]
  {
    var init, last := ks[..|ks| - 1], ks[|ks| - 1];
    ScanUnfold(db, ks, u);
    var prev := Scan(db, init, u).value;
    var newest := Scan(db, ks, u).value.value;
    ScanStepCases(prev, last, HGetAll(db, last), u);
    if prev.Some? && newest == prev.value {
      ScanFindsFirstNewest(db, init, u);
      ScanFindsMatch(db, init, u);
      FirstWithTimeExtend(db, ks, u, newest.0, newest.1);
    } else if prev.Some? {
      ScanFindsMaximum(db, init, u);
      FirstWithTimeLast(db, ks, u, newest.1);
    } else {
      ScanFindsNoneWithoutMatch(db, init, u);
      FirstWithTimeLast(db, ks, u, newest.1);
    }
    assert FirstWithTime(db, ks, u, newest.0, newest.1);
  }

  // ---------------------------------------------------------------------
  // Properties of mark_related_get_as_refresh

  /** Writing `purpose` changes neither the method nor the URL of an entry. */
  lemma MarkKeepsRequest(db: Db, among: set<string>, u: string, k: string)
    requires k in db.hashes
    ensures var h := MarkAmong(db, among, u).hashes[k];
      && (MarkFails(h) <==> MarkFails(db.hashes[k]))
      && (IsRelatedGet(h, u) <==> IsRelatedGet(db.hashes[k], u))
      && MarkError(h) == MarkError(db.hashes[k])
  {
  }

  /** Adding one unvisited key to the marked ones is one HSET, or none. */
  lemma MarkAmongAdd(db: Db, among: set<string>, u: string, k: string)
    requires k in db.hashes && k !in among
    ensures HGetAll(MarkAmong(db, among, u), k) == db.hashes[k]
    ensures MarkAmong(db, among + {k}, u) ==
      if IsRelatedGet(db.hashes[k], u) then HSet(MarkAmong(db, among, u), k, "purpose", "refresh")
      else MarkAmong(db, among, u)
  {
    var m, m' := MarkAmong(db, among, u), MarkAmong(db, among + {k}, u);
    if IsRelatedGet(db.hashes[k], u) {
      assert m'.hashes == m.hashes[k := m.hashes[k]["purpose" := "refresh"]];
    } else {
      assert m'.hashes == m.hashes;
    }
  }

  /** One iteration on an unvisited key of a store marked among `among`. */
  lemma MarkStepOnMarked(db: Db, among: set<string>, key: string, u: string)
    requires key in db.hashes && key !in among
    ensures var h := db.hashes[key];
      MarkStep(Run(MarkAmong(db, among, u), None), key, u) ==
        if MarkFails(h) then Run(MarkAmong(db, among, u), Some(MarkError(h)))
        else Run(MarkAmong(db, among + {key}, u), None)
  {
    MarkAmongAdd(db, among, u, key);
  }

  /** One step of the loop, once every earlier key has been visited without
      an exception. */
  lemma MarkLoopStep(db: Db, ks: seq<string>, u: string)
    requires ks != [] && ks[|ks| - 1] in db.hashes && ks[|ks| - 1] !in ks[..|ks| - 1]
    requires MarkLoop(db, ks[..|ks| - 1], u) == Run(MarkAmong(db, Elems(ks[..|ks| - 1]), u), None)
    ensures var h := db.hashes[ks[|ks| - 1]];
      MarkLoop(db, ks, u) ==
        if MarkFails(h) then Run(MarkAmong(db, Elems(ks[..|ks| - 1]), u), Some(MarkError(h)))
        else Run(MarkAmong(db, Elems(ks), u), None)
  {
    ElemsPrefix(ks, |ks| - 1);
    assert ks[..|ks|] == ks;
    MarkStepOnMarked(db, Elems(ks[..|ks| - 1]), ks[|ks| - 1], u);
  }

  lemma DistinctInit(ks: seq<string>)
    requires ks != [] && Distinct(ks)
    ensures Distinct(ks[..|ks| - 1]) && ks[|ks| - 1] !in ks[..|ks| - 1]
    ensures forall k :: k in ks[..|ks| - 1] ==> k in ks
  {
  }

  /** What the loop over `ks` leaves: the related GET entries before the
      first failing entry marked, and that entry's KeyError. */
  function MarkOutcome(db: Db, ks: seq<string>, u: string): Run {
    var j := FirstMarkFailure(db, ks);
    Run(MarkAmong(db, Elems(ks[..j]), u), if j == |ks| then None else Some(MarkError(HGetAll(db, ks[j]))))
  }

  /** The induction step when an earlier entry has already raised. */
  lemma MarkOutcomeAfterFailure(db: Db, ks: seq<string>, u: string)
    requires ks != []
    requires FirstMarkFailure(db, ks[..|ks| - 1]) < |ks| - 1
    requires MarkLoop(db, ks[..|ks| - 1], u) == MarkOutcome(db, ks[..|ks| - 1], u)
    ensures MarkLoop(db, ks, u) == MarkOutcome(db, ks, u)
  {
    var init := ks[..|ks| - 1];
    var j := FirstMarkFailure(db, init);
    assert MarkOutcome(db, ks, u) == MarkOutcome(db, init, u) by {
      assert FirstMarkFailure(db, ks) == j;
      assert ks[..j] == init[..j] && ks[j] == init[j];
    }
    assert MarkLoop(db, ks, u) == MarkLoop(db, init, u) by {
      assert MarkLoop(db, init, u).error.Some?;
      assert MarkLoop(db, ks, u) == MarkStep(MarkLoop(db, init, u), ks[|ks| - 1], u);
    }
  }

  /** The induction step when no earlier entry has raised. */
  lemma MarkOutcomeWithoutFailure(db: Db, ks: seq<string>, u: string)
    requires ks != [] && ks[|ks| - 1] in db.hashes && ks[|ks| - 1] !in ks[..|ks| - 1]
    requires FirstMarkFailure(db, ks[..|ks| - 1]) == |ks| - 1
    requires MarkLoop(db, ks[..|ks| - 1], u) == MarkOutcome(db, ks[..|ks| - 1], u)
    ensures MarkLoop(db, ks, u) == MarkOutcome(db, ks, u)
  {
    var init, last := ks[..|ks| - 1], ks[|ks| - 1];
    assert init[..|init|] == init;
    MarkLoopStep(db, ks, u);
    if MarkFails(db.hashes[last]) {
      assert FirstMarkFailure(db, ks) == |init| && ks[..|init|] == init;
    } else {
      assert FirstMarkFailure(db, ks) == |ks| && ks[..|ks|] == ks;
    }
  }

  /** The loop over distinct stored keys `ks` marks every related GET entry
      listed before the first entry that raises, and raises on that entry's
      missing field; without such an entry it marks all of them. */
  lemma {:induction false} MarkLoopMarksPrefix(db: Db, ks: seq<string>, u: string)
    requires Distinct(ks) && forall k :: k in ks ==> k in db.hashes
    ensures MarkLoop(db, ks, u) == MarkOutcome(db, ks, u)
    decreases |ks|
  {
    if ks == [] {
      assert MarkAmong(db, {}, u) == db;
    } else {
      DistinctInit(ks);
      MarkLoopMarksPrefix(db, ks[..|ks| - 1], u);
      if FirstMarkFailure(db, ks[..|ks| - 1]) < |ks| - 1 {
        MarkOutcomeAfterFailure(db, ks, u);
      } else {
        MarkOutcomeWithoutFailure(db, ks, u);
      }
    }
  }

  /** The loop over all keys runs to the end exactly when no entry makes it raise. */
  lemma MarkFailureFound(db: Db)
    requires db.Valid()
    ensures FirstMarkFailure(db, db.keys) == |db.keys| <==> forall k :: k in db.hashes ==> !MarkFails(db.hashes[k])
  {
    var j := FirstMarkFailure(db, db.keys);
    if j < |db.keys| {
      assert db.keys[j] in db.hashes && MarkFails(db.hashes[db.keys[j]]);
    } else {
      forall k | k in db.hashes ensures !MarkFails(db.hashes[k]) {
        var i :| 0 <= i < |db.keys| && db.keys[i] == k;
      }
    }
  }

  /** `mark_related_get_as_refresh(u)` changes no key and no TTL, only
      entries that are related GET entries, and keeps the store valid. */
  lemma MarkRelatedKeepsKeys(db: Db, u: string)
    requires db.Valid()
    ensures var r := MarkRelatedSpec(db, u);
      && r.db.Valid() && r.db.keys == db.keys && r.db.ttl == db.ttl && r.db.hashes.Keys == db.hashes.Keys
      && (forall k :: k in db.hashes && !IsRelatedGet(db.hashes[k], u) ==> r.db.hashes[k] == db.hashes[k])
  {
    MarkLoopMarksPrefix(db, db.keys, u);
  }

  /** `mark_related_get_as_refresh(u)` raises exactly when some entry lacks
      `request_method`, or is a GET lacking `request_url`. */
  lemma MarkRelatedRaises(db: Db, u: string)
    requires db.Valid()
    ensures MarkRelatedSpec(db, u).error.None? <==> forall k :: k in db.hashes ==> !MarkFails(db.hashes[k])
  {
    MarkLoopMarksPrefix(db, db.keys, u);
    MarkFailureFound(db);
  }

  /** When it does not raise, `mark_related_get_as_refresh(u)` writes
      `purpose=refresh` into exactly the GET entries whose URL equals `u`
      ignoring case. */
  lemma MarkRelatedTouchesRelatedGets(db: Db, u: string)
    requires db.Valid() && MarkRelatedSpec(db, u).error.None?
    ensures var r := MarkRelatedSpec(db, u);
      forall k :: k in db.hashes ==>
        && k in r.db.hashes
        && r.db.hashes[k] == if IsRelatedGet(db.hashes[k], u) then db.hashes[k]["purpose" := "refresh"] else db.hashes[k]
  {
    assert MarkRelatedSpec(db, u).db == MarkAmong(db, Elems(db.keys), u) by {
      MarkLoopMarksPrefix(db, db.keys, u);
      assert FirstMarkFailure(db, db.keys) == |db.keys|;
      assert db.keys[..|db.keys|] == db.keys;
    }
    MarkAmongAllKeys(db, u);
  }

  lemma MarkAmongAllKeys(db: Db, u: string)
    requires db.Valid()
    ensures var m := MarkAmong(db, Elems(db.keys), u);
      forall k :: k in db.hashes ==>
        && k in m.hashes
        && m.hashes[k] == if IsRelatedGet(db.hashes[k], u) then db.hashes[k]["purpose" := "refresh"] else db.hashes[k]
  {
  }

  /** Marking keeps what decides whether the loop raises, and where. */
  lemma MarkAmongKeepsFailures(db: Db, among: set<string>, u: string)
    ensures var m := MarkAmong(db, among, u);
      forall k :: k in db.hashes ==>
        (MarkFails(m.hashes[k]) <==> MarkFails(db.hashes[k])) && MarkError(m.hashes[k]) == MarkError(db.hashes[k])
  {
    forall k | k in db.hashes
      ensures var m := MarkAmong(db, among, u);
        (MarkFails(m.hashes[k]) <==> MarkFails(db.hashes[k])) && MarkError(m.hashes[k]) == MarkError(db.hashes[k])
    {
      MarkKeepsRequest(db, among, u, k);
    }
  }

  /** Marking the same keys twice is marking them once. */
  lemma MarkAmongTwice(db: Db, among: set<string>, u: string)
    ensures MarkAmong(MarkAmong(db, among, u), among, u) == MarkAmong(db, among, u)
  {
    var m := MarkAmong(db, among, u);
    forall k | k in db.hashes ensures MarkAmong(m, among, u).hashes[k] == m.hashes[k] {
      MarkKeepsRequest(db, among, u, k);
    }
  }

  /** Marking twice is marking once, whether or not the loop raises: the
      second pass finds the same entries, writes the same values and stops at
      the same entry. */
  lemma MarkRelatedIdempotent(db: Db, u: string)
    requires db.Valid()
    ensures MarkRelatedSpec(MarkRelatedSpec(db, u).db, u) == MarkRelatedSpec(db, u)
  {
    var among := Elems(db.keys[..FirstMarkFailure(db, db.keys)]);
    var m := MarkAmong(db, among, u);
    MarkLoopMarksPrefix(db, db.keys, u);
    MarkAmongKeepsFailures(db, among, u);
    FirstMarkFailureStable(db, m, db.keys);
    MarkLoopMarksPrefix(m, m.keys, u);
    MarkAmongTwice(db, among, u);
  }

  /** The first failing entry depends only on what `MarkFails` sees. */
  lemma {:induction false} FirstMarkFailureStable(db: Db, db': Db, ks: seq<string>)
    requires forall k :: k in ks ==> k in db.hashes && k in db'.hashes
    requires forall k :: k in db.hashes && k in db'.hashes ==> (MarkFails(db'.hashes[k]) <==> MarkFails(db.hashes[k]))
    ensures FirstMarkFailure(db', ks) == FirstMarkFailure(db, ks)
    decreases |ks|
  {
    if ks != [] {
      var init := ks[..|ks| - 1];
      assert forall k :: k in init ==> k in ks;
      FirstMarkFailureStable(db, db', init);
    }
  }

  // ---------------------------------------------------------------------
  // Properties of delete_old_requests

  /** Given the newest time `t` of the entries with URL `u`, the entries older
      than `t` are exactly those with URL `u` for which some entry with URL `u`
      is newer. */
  lemma OlderThanNewest(db: Db, u: string, newest: string, t: real)
    requires newest in db.hashes && HasUrl(db.hashes[newest], u) && Time(db.hashes[newest]) == t
    requires forall k :: k in db.hashes && HasUrl(db.hashes[k], u) ==> Time(db.hashes[k]) <= t
    ensures forall k :: k in db.hashes ==>
      (k in OlderThan(db, u, t) <==>
        HasUrl(db.hashes[k], u) && exists m :: m in db.hashes && HasUrl(db.hashes[m], u) && Time(db.hashes[k]) < Time(db.hashes[m]))
  {
  }

  /** The listed keys are exactly the stored ones. */
  lemma ListedKeys(db: Db)
    requires db.Valid()
    ensures forall k :: k in db.keys ==> HGetAll(db, k) == db.hashes[k]
  {
  }

  /** `delete_old_requests(u)` on a store without the empty key: it raises
      (and then changes nothing) exactly when some entry has no URL or some
      entry with URL `u` has an unreadable time. Otherwise it deletes exactly
      the entries with URL `u` for which another entry with URL `u` is
      strictly newer, so that every entry of the newest time survives, and it
      leaves every other entry and TTL as it was. */
  lemma DeleteOldRequestsKeepsNewest(db: Db, u: string)
    requires db.Valid() && "" !in db.hashes
    ensures var r := DeleteOldRequestsSpec(db, u);
      && r.db.Valid()
      && (r.error.None? <==> ScanClean(db, db.keys, u))
      && (r.error.Some? ==> r.db == db)
      && r.db.hashes.Keys <= db.hashes.Keys
      && (forall k :: k in r.db.hashes ==> r.db.hashes[k] == db.hashes[k])
      && (forall k :: k in r.db.ttl <==> k in db.ttl && k in r.db.hashes)
      && (forall k :: k in r.db.ttl ==> r.db.ttl[k] == db.ttl[k])
      && (r.error.None? ==> forall k :: k in db.hashes ==>
            (k !in r.db.hashes <==>
              HasUrl(db.hashes[k], u) && exists m :: m in db.hashes && HasUrl(db.hashes[m], u) && Time(db.hashes[k]) < Time(db.hashes[m])))
  {
    ScanRaisesOnBadEntry(db, db.keys, u);
    ListedKeys(db);
    var scan := Scan(db, db.keys, u);
    if scan.Ok? {
      if scan.value.None? {
        ScanFindsNoneWithoutMatch(db, db.keys, u);
        forall k | k in db.hashes ensures !HasUrl(db.hashes[k], u) {
          assert k in db.keys && !Matches(db, k, u);
        }
      } else {
        var newest := scan.value.value;
        ScanFindsMatch(db, db.keys, u);
        ScanFindsMaximum(db, db.keys, u);
        forall k | k in db.hashes && HasUrl(db.hashes[k], u) ensures Time(db.hashes[k]) <= newest.1 {
          assert k in db.keys && Matches(db, k, u);
        }
        OlderThanNewest(db, u, newest.0, newest.1);
      }
    }
  }

  /** When some entry has URL `u` and the first loop does not raise, an entry
      with URL `u` survives: the newest one found. */
  lemma DeleteOldRequestsKeepsOne(db: Db, u: string, k: string)
    requires db.Valid() && ScanClean(db, db.keys, u)
    requires k in db.hashes && HasUrl(db.hashes[k], u)
    ensures var r := DeleteOldRequestsSpec(db, u);
      r.error.None? && exists m :: m in r.db.hashes && HasUrl(r.db.hashes[m], u)
  {
    ScanRaisesOnBadEntry(db, db.keys, u);
    ListedKeys(db);
    assert k in db.keys && Matches(db, k, u);
    ScanFindsNoneWithoutMatch(db, db.keys, u);
    ScanFindsMatch(db, db.keys, u);
    var newest := Scan(db, db.keys, u).value.value;
    if newest.0 == "" {
      assert DeleteOldRequestsSpec(db, u).db == db;
      assert k in DeleteOldRequestsSpec(db, u).db.hashes;
    } else {
      assert newest.0 !in OlderThan(db, u, newest.1);
      assert newest.0 in DeleteOldRequestsSpec(db, u).db.hashes;
    }
  }

  /** `if newest_key:` tests truthiness, so when the newest entry for the URL
      is stored under the empty key nothing is deleted, although an older
      entry with the same URL exists. */
  lemma EmptyNewestKeyDeletesNothing()
    ensures var db := Db(["", "a"],
        map["" := map["request_url" := "u", "last_used" := "2"], "a" := map["request_url" := "u", "last_used" := "1"]],
        map[]);
      && db.Valid()
      && Time(db.hashes["a"]) < Time(db.hashes[""])
      && DeleteOldRequestsSpec(db, "u") == Run(db, None)
  {
    var db := Db(["", "a"],
        map["" := map["request_url" := "u", "last_used" := "2"], "a" := map["request_url" := "u", "last_used" := "1"]],
        map[]);
    assert ParseInt("1") == Some(1) && ParseInt("2") == Some(2);
    ParseDecimalOfInt("1", 1);
    ParseDecimalOfInt("2", 2);
    assert db.keys[..1] == [""];
    assert Scan(db, [""], "u") == Ok(Some(("", 2.0)));
    assert Scan(db, db.keys, "u") == Ok(Some(("", 2.0)));
  }

  // ---------------------------------------------------------------------
  // Properties of analyze_requests

  /** The value a verdict other than `delete` writes into `purpose`. */
  function PurposeOf(v: Verdict): string {
    if v == Refresh then "refresh" else "keep"
  }

  /** An entry without a URL, an entry the guard fails on and an entry the
      guard rejects are left as they are; only the first two raise. */
  lemma EntrySkips(db: Db, key: string, now: real, guard: Reply, reply: Reply)
    ensures var data := HGetAll(db, key);
      var r := EntryEffect(db, key, now, guard, reply);
      && ("request_url" !in data ==> r == Run(db, Some(KeyError("request_url"))))
      && ("request_url" in data && guard.Raised? ==> r == Run(db, Some(InferenceError)))
      && ("request_url" in data && guard.Generated? && Contains(Lower(guard.text), "no") ==> r == Run(db, None))
      && ("request_url" in data && guard.Generated? && !Contains(Lower(guard.text), "no") && MissingField(data).Some? ==>
            r == Run(db, Some(KeyError(MissingField(data).value))))
  {
  }

  /** An allowed entry with all the fields the prompt needs gets its verdict
      applied, and the rest of the pass runs on the entry as first read. */
  lemma EntryReachesVerdict(db: Db, key: string, now: real, guard: Reply, reply: Reply)
    requires MissingField(HGetAll(db, key)).None?
    requires guard.Generated? && !Contains(Lower(guard.text), "no")
    ensures var data := HGetAll(db, key);
      EntryEffect(db, key, now, guard, reply) ==
        AfterVerdict(ApplyVerdict(db, key, AnalyzeRequest(data, reply).value), key, data, now)
  {
  }

  /** After the verdict, an entry that is not a POST goes through the TTL
      rule and the increment only. */
  lemma AfterVerdictNotPost(db1: Db, key: string, data: Hash, now: real, c: int, t: real)
    requires "request_method" in data && "request_url" in data && data["request_method"] != "POST"
    requires RequestCount(HGetAll(db1, key)) == Ok(c) && LastUsed(data) == Ok(t)
    ensures AfterVerdict(db1, key, data, now) == IncrementThenUpdate(TtlStep(db1, key, c, t, now), key)
  {
  }

  /** A complete pass over an allowed entry that is not a POST and whose
      verdict is not `delete`: the verdict is written into `purpose`, the count
      goes up by one, the one-hour TTL is set exactly when the entry was used
      once and last more than 72 hours ago, nothing else changes, and the
      final `update_cache` call raises AttributeError. */
  lemma EntryKeptOrRefreshed(db: Db, key: string, now: real, guard: Reply, reply: Reply, c: int, t: real)
    requires db.Valid() && key in db.hashes
    requires MissingField(db.hashes[key]).None? && db.hashes[key]["request_method"] != "POST"
    requires guard.Generated? && !Contains(Lower(guard.text), "no")
    requires AnalyzeRequest(db.hashes[key], reply) != Ok(Delete)
    requires RequestCount(db.hashes[key]) == Ok(c) && LastUsed(db.hashes[key]) == Ok(t)
    ensures var data := db.hashes[key];
      var v := AnalyzeRequest(data, reply).value;
      var r := EntryEffect(db, key, now, guard, reply);
      && r.error == Some(AttributeError("update_cache"))
      && r.db.keys == db.keys
      && r.db.hashes == db.hashes[key := data["purpose" := PurposeOf(v)]["request_count" := Show(c + 1)]]
      && RequestCount(r.db.hashes[key]) == Ok(c + 1)
      && r.db.ttl == if TtlDue(c, t, now) then db.ttl[key := ShortTtl] else db.ttl
  {
    EntryReachesVerdict(db, key, now, guard, reply);
    AfterVerdictKeptOrRefreshed(db, key, db.hashes[key], AnalyzeRequest(db.hashes[key], reply).value, now, c, t);
  }

  /** The part of `EntryKeptOrRefreshed` after the verdict `v`. */
  lemma AfterVerdictKeptOrRefreshed(db: Db, key: string, data: Hash, v: Verdict, now: real, c: int, t: real)
    requires key in db.hashes && data == db.hashes[key] && v != Delete
    requires "request_method" in data && "request_url" in data && data["request_method"] != "POST"
    requires RequestCount(data) == Ok(c) && LastUsed(data) == Ok(t)
    ensures var r := AfterVerdict(ApplyVerdict(db, key, v), key, data, now);
      && r.error == Some(AttributeError("update_cache"))
      && r.db.keys == db.keys
      && r.db.hashes == db.hashes[key := data["purpose" := PurposeOf(v)]["request_count" := Show(c + 1)]]
      && RequestCount(r.db.hashes[key]) == Ok(c + 1)
      && r.db.ttl == if TtlDue(c, t, now) then db.ttl[key := ShortTtl] else db.ttl
  {
    var db1 := ApplyVerdict(db, key, v);
    assert db1 == HSet(db, key, "purpose", PurposeOf(v));
    assert RequestCount(db1.hashes[key]) == Ok(c);
    AfterVerdictNotPost(db1, key, data, now, c, t);
    var db2 := TtlStep(db1, key, c, t, now);
    assert HGetAll(db2, key) == db1.hashes[key];
  }

  /** A `delete` verdict on an entry that is not a POST deletes the entry, but
      the increment that follows recreates the key with the single field
      `request_count` = 1 and no TTL. */
  lemma EntryDeletedLeavesStub(db: Db, key: string, now: real, guard: Reply, reply: Reply)
    requires db.Valid() && key in db.hashes
    requires "request_method" in db.hashes[key] && db.hashes[key]["request_method"] != "POST"
    requires LastUsed(db.hashes[key]).Ok?
    requires guard.Generated? && !Contains(Lower(guard.text), "no")
    requires AnalyzeRequest(db.hashes[key], reply) == Ok(Delete)
    ensures var r := EntryEffect(db, key, now, guard, reply);
      && r.error == Some(AttributeError("update_cache"))
      && r.db.hashes == (db.hashes - {key})[key := map["request_count" := "1"]]
      && r.db.ttl == db.ttl - {key}
      && key in r.db.keys
  {
    var db1 := Del(db, key);
    assert key !in db1.hashes;
    assert Show(1) == "1";
  }

  /** For a POST entry, after the verdict and the TTL rule, the duplicates of
      its URL are removed first, the related GET entries are marked next and
      the count is incremented last; an exception in one step skips the
      later ones and keeps what the earlier ones wrote. */
  lemma EntryPostOrder(db: Db, key: string, now: real, guard: Reply, reply: Reply, c: int, t: real)
    requires key in db.hashes && MissingField(db.hashes[key]).None? && db.hashes[key]["request_method"] == "POST"
    requires guard.Generated? && !Contains(Lower(guard.text), "no")
    requires AnalyzeRequest(db.hashes[key], reply) != Ok(Delete)
    requires RequestCount(db.hashes[key]) == Ok(c) && LastUsed(db.hashes[key]) == Ok(t)
    ensures var data := db.hashes[key];
      var u := data["request_url"];
      var db1 := HSet(db, key, "purpose", PurposeOf(AnalyzeRequest(data, reply).value));
      var db2 := TtlStep(db1, key, c, t, now);
      var d := DeleteOldRequestsSpec(db2, u);
      var m := MarkRelatedSpec(d.db, u);
      var r := EntryEffect(db, key, now, guard, reply);
      && (d.error.Some? ==> r == d)
      && (d.error.None? && m.error.Some? ==> r == m)
      && (d.error.None? && m.error.None? ==> r == IncrementThenUpdate(m.db, key))
  {
    var data := db.hashes[key];
    var v := AnalyzeRequest(data, reply).value;
    assert ApplyVerdict(db, key, v) == HSet(db, key, "purpose", PurposeOf(v));
  }

  /** For a POST entry whose verdict is `delete`, the entry is deleted first;
      the count then reads 0, so no TTL is set, and the same three steps
      follow on the store without it. */
  lemma EntryPostDeleteOrder(db: Db, key: string, now: real, guard: Reply, reply: Reply)
    requires key in db.hashes && MissingField(db.hashes[key]).None? && db.hashes[key]["request_method"] == "POST"
    requires guard.Generated? && !Contains(Lower(guard.text), "no")
    requires AnalyzeRequest(db.hashes[key], reply) == Ok(Delete)
    requires LastUsed(db.hashes[key]).Ok?
    ensures var u := db.hashes[key]["request_url"];
      var d := DeleteOldRequestsSpec(Del(db, key), u);
      var m := MarkRelatedSpec(d.db, u);
      var r := EntryEffect(db, key, now, guard, reply);
      && (d.error.Some? ==> r == d)
      && (d.error.None? && m.error.Some? ==> r == m)
      && (d.error.None? && m.error.None? ==> r == IncrementThenUpdate(m.db, key))
  {
    var db1 := Del(db, key);
    assert HGetAll(db1, key) == map[];
    assert TtlStep(db1, key, 0, LastUsed(db.hashes[key]).value, now) == db1;
  }

  /** A sweep in which the guard rejects every entry, or fails on it, changes
      nothing. */
  lemma {:induction false} SweepRejectedChangesNothing(db: Db, ks: seq<string>, now: real, guard: string -> Reply, reply: string -> Reply)
    requires forall k :: k in ks ==> guard(k).Raised? || Contains(Lower(guard(k).text), "no")
    ensures SweepEffect(db, ks, now, guard, reply) == db
    decreases |ks|
  {
    if ks != [] {
      var init, last := ks[..|ks| - 1], ks[|ks| - 1];
      assert forall k :: k in init ==> k in ks;
      SweepRejectedChangesNothing(db, init, now, guard, reply);
      EntrySkips(db, last, now, guard(last), reply(last));
    }
  }
}
