/** The proxy analyzer's pass (`ProxyRequestAnalyzer.analyze_and_set_ttl`):
    every `proxy:` entry that is not marked for refreshing and was last used
    more than 72 hours ago gets the TTL the model integration chooses. The
    pass writes no field and deletes nothing; nothing catches an exception,
    so the first failure ends it. */
module ProxyAnalyzer {
  import opened Base
  import opened Redis
  import opened LlamaModel

  /** The pattern `proxy:*` the pass lists keys with. */
  const ProxyPrefix: string := "proxy:"

  /** What `determine_ttl` returns once the model call has succeeded. */
  const DeterminedTtl: int := 72 * 3600

  /** `request_data.get("purpose", "empty")`. */
  function Purpose(h: Hash): string {
    if "purpose" in h then h["purpose"] else "empty"
  }

  /** `last_used and current_time - last_used > 72 * 3600`: a missing, empty
      or zero timestamp is falsy. */
  predicate Stale(lastUsed: Option<real>, now: real) {
    lastUsed.Some? && lastUsed.value != 0.0 && now - lastUsed.value > ThreeDays
  }

  /** `LlamaModel.determine_ttl`: the model is asked about the entry and its
      answer is not used; the TTL is always 72 hours. The model call may raise. */
  function DetermineTtl(data: Hash, reply: Reply): (r: Result<int>)
    ensures r.Ok? <==> reply.Generated?
    ensures r.Ok? ==> r.value == DeterminedTtl > 0
  {
    if reply.Raised? then Err(InferenceError) else Ok(DeterminedTtl)
  }

  /** One iteration of the loop of `analyze_and_set_ttl` on `key`, after the
      iterations before it ended in `r`; `reply` is the model's reply for this entry. */
  function ProxyStep(r: Run, key: string, now: real, reply: Reply): Run {
    if r.error.Some? then r
    else
      var data := HGetAll(r.db, key);
      if Purpose(data) == "refresh" then r
      else match LastUsedTime(data)
        case Err(e) => Run(r.db, Some(e))
        case Ok(lastUsed) =>
          if !Stale(lastUsed, now) then r
          else match DetermineTtl(data, reply)
            case Err(e) => Run(r.db, Some(e))
            case Ok(ttl) => Run(Expire(r.db, key, ttl), None)
  }

  /** The loop over the keys `ks`. */
  function ProxyLoop(db: Db, ks: seq<string>, now: real, reply: string -> Reply): Run
    decreases |ks|
  {
    if ks == [] then Run(db, None)
    else ProxyStep(ProxyLoop(db, ks[..|ks| - 1], now, reply), ks[|ks| - 1], now, reply(ks[|ks| - 1]))
  }

  /** `ProxyRequestAnalyzer`; `reply` gives the model's reply per key and
      `now` is `time.time()` at the start of the pass. */
  class ProxyRequestAnalyzer {
    const redis: Store

    constructor (store: Store)
      ensures redis == store
    {
      redis := store;
    }

    /** The pass; the exception that ends it early is returned. */
    method AnalyzeAndSetTtl(now: real, reply: string -> Reply) returns (err: Option<Error>)
      requires redis.Valid()
      modifies redis
      ensures redis.Valid()
      ensures Run(redis.State(), err) == ProxyLoop(old(redis.State()), WithPrefix(old(redis.keys), ProxyPrefix), now, reply)
    {
      var keys := redis.GetKeys(ProxyPrefix);
      ghost var db0 := redis.State();
      for i := 0 to |keys|
        invariant redis.Valid()
        invariant ProxyLoop(db0, keys[..i], now, reply) == Run(redis.State(), None)
      {
        var key := keys[i];
        ProxyLoopExtend(db0, keys, i, redis.State(), now, reply);
        var requestData := redis.GetRequestData(key);
        var purpose := if "purpose" in requestData then requestData["purpose"] else "empty";
        if purpose == "refresh" {
          continue;
        }
        var lastUsed := redis.GetLastUsedTime(key);
        if lastUsed.Err? {
          ProxyErrorStops(db0, keys, i + 1, now, reply);
          return Some(lastUsed.error);
        }
        if lastUsed.value.Some? && lastUsed.value.value != 0.0 && now - lastUsed.value.value > ThreeDays {
          var ttl := DetermineTtl(requestData, reply(key));
          if ttl.Err? {
            ProxyErrorStops(db0, keys, i + 1, now, reply);
            return Some(ttl.error);
          }
          redis.SetTtl(key, ttl.value);
        }
      }
      assert keys[..|keys|] == keys;
      return None;
    }
  }

  // ---------------------------------------------------------------------
  // Lemmas the method relies on

  lemma ProxyLoopExtend(db0: Db, ks: seq<string>, i: nat, cur: Db, now: real, reply: string -> Reply)
    requires i < |ks| && ProxyLoop(db0, ks[..i], now, reply) == Run(cur, None)
    ensures ProxyLoop(db0, ks[..i + 1], now, reply) == ProxyStep(Run(cur, None), ks[i], now, reply(ks[i]))
  {
    assert ks[..i + 1][..i] == ks[..i];
  }

  /** Once an iteration raises, the rest of the pass does not run. */
  lemma {:induction false} ProxyErrorStops(db: Db, ks: seq<string>, i: nat, now: real, reply: string -> Reply)
    requires i <= |ks| && ProxyLoop(db, ks[..i], now, reply).error.Some?
    ensures ProxyLoop(db, ks, now, reply) == ProxyLoop(db, ks[..i], now, reply)
    decreases |ks|
  {
    if i < |ks| {
      var init := ks[..|ks| - 1];
      assert init[..i] == ks[..i];
      ProxyErrorStops(db, init, i, now, reply);
    } else {
      assert ks[..i] == ks;
    }
  }

  // ---------------------------------------------------------------------
  // Properties

  /** The entry `h` gets a TTL when the pass visits it: it is not marked for
      refreshing (a missing purpose reads "empty") and its timestamp is
      present, non-zero and more than 72 hours old. */
  predicate ExpiryDue(h: Hash, now: real) {
    Purpose(h) != "refresh" && LastUsedTime(h).Ok? && Stale(LastUsedTime(h).value, now)
  }

  /** The iteration on `h` raises: its timestamp is not a number, or the
      model call for an entry due for a TTL raises. */
  predicate ProxyFails(h: Hash, now: real, reply: Reply) {
    Purpose(h) != "refresh" && (LastUsedTime(h).Err? || (Stale(LastUsedTime(h).value, now) && reply.Raised?))
  }

  function ProxyError(h: Hash): Error {
    if LastUsedTime(h).Err? then LastUsedTime(h).error else InferenceError
  }

  /** The entries among `among` that are due for a TTL. */
  function ExpiringAmong(db: Db, among: set<string>, now: real): (r: set<string>)
    ensures r <= db.hashes.Keys
  {
    set k | k in among && k in db.hashes && ExpiryDue(db.hashes[k], now)
  }

  /** The store after every entry among `among` has been through one
      iteration: the due ones have the 72-hour TTL, nothing else changed. */
  function ExpireAll(db: Db, among: set<string>, now: real): (r: Db)
    ensures r.keys == db.keys && r.hashes == db.hashes
    ensures db.Valid() ==> r.Valid()
  {
    Db(db.keys, db.hashes, db.ttl + map k | k in ExpiringAmong(db, among, now) :: DeterminedTtl)
  }

  lemma ExpiringAmongAdd(db: Db, among: set<string>, key: string, now: real)
    requires key in db.hashes
    ensures ExpiringAmong(db, among + {key}, now) ==
      if ExpiryDue(db.hashes[key], now) then ExpiringAmong(db, among, now) + {key} else ExpiringAmong(db, among, now)
  {
  }

  /** Expiring one more, unvisited, key. */
  lemma ExpireAllAdd(db: Db, among: set<string>, key: string, now: real)
    requires key in db.hashes
    ensures var c := ExpireAll(db, among, now);
      ExpireAll(db, among + {key}, now) ==
        if ExpiryDue(db.hashes[key], now) then c.(ttl := c.ttl[key := DeterminedTtl]) else c
  {
    ExpiringAmongAdd(db, among, key, now);
    TtlUnionAdd(db.ttl, ExpiringAmong(db, among, now), key, DeterminedTtl);
  }

  /** One iteration on a key of a store expired among `among`. */
  lemma ProxyStepOnExpired(db: Db, among: set<string>, key: string, now: real, reply: Reply)
    requires key in db.hashes
    ensures var h := db.hashes[key];
      ProxyStep(Run(ExpireAll(db, among, now), None), key, now, reply) ==
        if ProxyFails(h, now, reply) then Run(ExpireAll(db, among, now), Some(ProxyError(h)))
        else Run(ExpireAll(db, among + {key}, now), None)
  {
    ExpireAllAdd(db, among, key, now);
  }

  /** The position of the first of the keys `ks` whose iteration raises, or
      `|ks|` when there is none. */
  function FirstProxyFailure(db: Db, ks: seq<string>, now: real, reply: string -> Reply): (j: nat)
    ensures j <= |ks|
    ensures forall i :: 0 <= i < j ==> !ProxyFails(HGetAll(db, ks[i]), now, reply(ks[i]))
    ensures j < |ks| ==> ProxyFails(HGetAll(db, ks[j]), now, reply(ks[j]))
    decreases |ks|
  {
    if ks == [] then 0
    else
      var init := ks[..|ks| - 1];
      var j := FirstProxyFailure(db, init, now, reply);
      assert forall i :: 0 <= i < |init| ==> ks[i] == init[i];
      if j < |init| then j
      else if ProxyFails(HGetAll(db, ks[|ks| - 1]), now, reply(ks[|ks| - 1])) then |init|
      else |ks|
  }

  /** What the pass over `ks` leaves: every due entry before the first
      failing one has its TTL, and that entry's exception is raised. */
  function ProxyOutcome(db: Db, ks: seq<string>, now: real, reply: string -> Reply): Run {
    var j := FirstProxyFailure(db, ks, now, reply);
    Run(ExpireAll(db, Elems(ks[..j]), now),
      if j == |ks| then None else Some(ProxyError(HGetAll(db, ks[j]))))
  }

  lemma ProxyOutcomeAfterFailure(db: Db, ks: seq<string>, now: real, reply: string -> Reply)
    requires ks != []
    requires FirstProxyFailure(db, ks[..|ks| - 1], now, reply) < |ks| - 1
    requires ProxyLoop(db, ks[..|ks| - 1], now, reply) == ProxyOutcome(db, ks[..|ks| - 1], now, reply)
    ensures ProxyLoop(db, ks, now, reply) == ProxyOutcome(db, ks, now, reply)
  {
    var init := ks[..|ks| - 1];
    var j := FirstProxyFailure(db, init, now, reply);
    assert ProxyOutcome(db, ks, now, reply) == ProxyOutcome(db, init, now, reply) by {
      assert FirstProxyFailure(db, ks, now, reply) == j;
      assert ks[..j] == init[..j] && ks[j] == init[j];
    }
    assert ProxyLoop(db, ks, now, reply) == ProxyLoop(db, init, now, reply) by {
      assert ProxyLoop(db, init, now, reply).error.Some?;
      assert ProxyLoop(db, ks, now, reply) == ProxyStep(ProxyLoop(db, init, now, reply), ks[|ks| - 1], now, reply(ks[|ks| - 1]));
    }
  }

  lemma ProxyOutcomeWithoutFailure(db: Db, ks: seq<string>, now: real, reply: string -> Reply)
    requires ks != [] && ks[|ks| - 1] in db.hashes
    requires FirstProxyFailure(db, ks[..|ks| - 1], now, reply) == |ks| - 1
    requires ProxyLoop(db, ks[..|ks| - 1], now, reply) == ProxyOutcome(db, ks[..|ks| - 1], now, reply)
    ensures ProxyLoop(db, ks, now, reply) == ProxyOutcome(db, ks, now, reply)
  {
    var init, last := ks[..|ks| - 1], ks[|ks| - 1];
    assert init[..|init|] == init;
    ElemsPrefix(ks, |ks| - 1);
    ProxyStepOnExpired(db, Elems(init), last, now, reply(last));
    if ProxyFails(db.hashes[last], now, reply(last)) {
      assert FirstProxyFailure(db, ks, now, reply) == |init| && ks[..|init|] == init;
    } else {
      assert FirstProxyFailure(db, ks, now, reply) == |ks| && ks[..|ks|] == ks;
    }
  }

  /** The pass over stored keys gives every due entry before the first
      failing one its TTL, and raises that entry's exception. */
  lemma {:induction false} ProxyExpiresPrefix(db: Db, ks: seq<string>, now: real, reply: string -> Reply)
    requires forall k :: k in ks ==> k in db.hashes
    ensures ProxyLoop(db, ks, now, reply) == ProxyOutcome(db, ks, now, reply)
    decreases |ks|
  {
    if ks == [] {
      assert ExpireAll(db, {}, now) == db;
    } else {
      var init := ks[..|ks| - 1];
      assert forall k :: k in init ==> k in ks;
      ProxyExpiresPrefix(db, init, now, reply);
      if FirstProxyFailure(db, init, now, reply) < |init| {
        ProxyOutcomeAfterFailure(db, ks, now, reply);
      } else {
        ProxyOutcomeWithoutFailure(db, ks, now, reply);
      }
    }
  }

  /** The keys the pass visits. */
  function ProxyKeys(db: Db): (ks: seq<string>)
    ensures forall k :: k in ks <==> k in db.keys && ProxyPrefix <= k
  {
    WithPrefix(db.keys, ProxyPrefix)
  }

  /** Only the TTL of a visited, due entry can change, and only to 72 hours. */
  lemma ExpireAllOnlyDue(db: Db, among: set<string>, now: real)
    ensures var r := ExpireAll(db, among, now);
      && (forall k :: k in db.ttl ==> k in r.ttl)
      && (forall k :: k in r.ttl ==>
            (k in db.ttl && r.ttl[k] == db.ttl[k]) ||
            (k in among && k in db.hashes && ExpiryDue(db.hashes[k], now) && r.ttl[k] == DeterminedTtl))
  {
  }

  /** Whatever the pass ends in, it deletes no entry, writes no field, keeps
      every TTL already set, and changes a TTL only of a `proxy:` entry due
      for one, and then to 72 hours. */
  lemma ProxyPassOnlySetsTtls(db: Db, now: real, reply: string -> Reply)
    requires db.Valid()
    ensures var r := ProxyLoop(db, ProxyKeys(db), now, reply).db;
      && r.keys == db.keys && r.hashes == db.hashes
      && (forall k :: k in db.ttl ==> k in r.ttl)
      && (forall k :: k in r.ttl ==>
            (k in db.ttl && r.ttl[k] == db.ttl[k]) ||
            (ProxyPrefix <= k && k in db.hashes && ExpiryDue(db.hashes[k], now) && r.ttl[k] == DeterminedTtl))
  {
    var ks := ProxyKeys(db);
    var j := FirstProxyFailure(db, ks, now, reply);
    assert ProxyLoop(db, ks, now, reply).db == ExpireAll(db, Elems(ks[..j]), now) by {
      ProxyExpiresPrefix(db, ks, now, reply);
    }
    ExpireAllOnlyDue(db, Elems(ks[..j]), now);
  }

  /** An entry marked for refreshing keeps its TTL, or its lack of one. */
  lemma RefreshKeepsTtl(db: Db, now: real, reply: string -> Reply, key: string)
    requires db.Valid() && key in db.hashes && Purpose(db.hashes[key]) == "refresh"
    ensures var r := ProxyLoop(db, ProxyKeys(db), now, reply).db;
      (key in r.ttl <==> key in db.ttl) && (key in r.ttl ==> r.ttl[key] == db.ttl[key])
  {
    ProxyPassOnlySetsTtls(db, now, reply);
  }

  /** An entry outside `proxy:` keeps its TTL, or its lack of one. */
  lemma OtherKeysKeepTtl(db: Db, now: real, reply: string -> Reply, key: string)
    requires db.Valid() && !(ProxyPrefix <= key)
    ensures var r := ProxyLoop(db, ProxyKeys(db), now, reply).db;
      (key in r.ttl <==> key in db.ttl) && (key in r.ttl ==> r.ttl[key] == db.ttl[key])
  {
    ProxyPassOnlySetsTtls(db, now, reply);
  }

  /** A pass that does not raise gives the 72-hour TTL to exactly the
      `proxy:` entries due for one, and leaves every other TTL as it was. */
  lemma ProxyPassSetsTtl(db: Db, now: real, reply: string -> Reply)
    requires db.Valid() && ProxyLoop(db, ProxyKeys(db), now, reply).error.None?
    ensures var r := ProxyLoop(db, ProxyKeys(db), now, reply).db;
      && r.keys == db.keys && r.hashes == db.hashes
      && (forall k :: k in r.ttl <==> k in db.ttl || (k in db.hashes && ProxyPrefix <= k && ExpiryDue(db.hashes[k], now)))
      && (forall k :: k in r.ttl ==>
            r.ttl[k] == if ProxyPrefix <= k && ExpiryDue(db.hashes[k], now) then DeterminedTtl else db.ttl[k])
  {
    var ks := ProxyKeys(db);
    assert ProxyLoop(db, ks, now, reply).db == ExpireAll(db, Elems(ks), now) by {
      ProxyExpiresPrefix(db, ks, now, reply);
      assert ks[..|ks|] == ks;
    }
  }

  /** A pass that raises stops at a `proxy:` entry whose iteration fails:
      every due entry listed before it has its TTL, and it and every entry
      listed after it keep theirs. */
  lemma ProxyPassAbortsOnFailure(db: Db, now: real, reply: string -> Reply)
    requires db.Valid() && ProxyLoop(db, ProxyKeys(db), now, reply).error.Some?
    ensures var ks, r := ProxyKeys(db), ProxyLoop(db, ProxyKeys(db), now, reply);
      exists j ::
        && 0 <= j < |ks| && ProxyFails(db.hashes[ks[j]], now, reply(ks[j]))
        && r.error == Some(ProxyError(db.hashes[ks[j]]))
        && r.db.keys == db.keys && r.db.hashes == db.hashes
        && (forall i :: 0 <= i < j && ExpiryDue(db.hashes[ks[i]], now) ==>
              ks[i] in r.db.ttl && r.db.ttl[ks[i]] == DeterminedTtl)
        && (forall i :: j <= i < |ks| ==>
              (ks[i] in r.db.ttl <==> ks[i] in db.ttl) && (ks[i] in r.db.ttl ==> r.db.ttl[ks[i]] == db.ttl[ks[i]]))
  {
    var ks := ProxyKeys(db);
    ProxyStops(db, now, reply);
    ExpirePrefix(db, ks, FirstProxyFailure(db, ks, now, reply), now);
  }

  /** A pass that raises stops at the first failing entry. */
  lemma ProxyStops(db: Db, now: real, reply: string -> Reply)
    requires db.Valid() && ProxyLoop(db, ProxyKeys(db), now, reply).error.Some?
    ensures var ks := ProxyKeys(db);
      var j := FirstProxyFailure(db, ks, now, reply);
      && Distinct(ks) && j < |ks| && ks[j] in db.hashes
      && ProxyLoop(db, ks, now, reply) == Run(ExpireAll(db, Elems(ks[..j]), now), Some(ProxyError(db.hashes[ks[j]])))
  {
    ProxyExpiresPrefix(db, ProxyKeys(db), now, reply);
  }

  /** Expiring the first `j` of distinct stored keys affects only those. */
  lemma ExpirePrefix(db: Db, ks: seq<string>, j: nat, now: real)
    requires Distinct(ks) && j <= |ks| && forall k :: k in ks ==> k in db.hashes
    ensures var c := ExpireAll(db, Elems(ks[..j]), now);
      && (forall i :: 0 <= i < j && ExpiryDue(db.hashes[ks[i]], now) ==>
            ks[i] in c.ttl && c.ttl[ks[i]] == DeterminedTtl)
      && (forall i :: j <= i < |ks| ==>
            (ks[i] in c.ttl <==> ks[i] in db.ttl) && (ks[i] in c.ttl ==> c.ttl[ks[i]] == db.ttl[ks[i]]))
  {
    forall i | j <= i < |ks| ensures ks[i] !in Elems(ks[..j]) {
    }
  }
}
