/** The reduced sweep of llama_analysis.py (`RequestAnalyzer` there): every
    listed entry is shown to the model, whose answer is not used, gets the
    one-hour TTL when it was used once and last more than 72 hours ago, and
    has its count incremented. Nothing catches an exception, so the first
    failure ends the pass. */
module LlamaAnalysis {
  import opened Base
  import opened Text
  import opened Redis
  import opened LlamaModel
  import LlamaService

  /** The entry reads whose failure ends the pass: the model call, the count
      and `float(request_data.get('last_used', 0))`. */
  predicate PassFails(h: Hash, reply: Reply) {
    reply.Raised? || RequestCount(h).Err? || LastUsed(h).Err?
  }

  function PassError(h: Hash, reply: Reply): Error {
    if reply.Raised? then InferenceError
    else if RequestCount(h).Err? then RequestCount(h).error
    else if LastUsed(h).Err? then LastUsed(h).error
    else ResponseError
  }

  /** One iteration of the loop of `analyze_requests` on `key`, after the
      iterations before it ended in `r`; `reply` is the model's reply for this entry. */
  function PassStep(r: Run, key: string, now: real, reply: Reply): Run {
    var data := HGetAll(r.db, key);
    if r.error.Some? then r
    else if reply.Raised? then Run(r.db, Some(InferenceError))
    else match RequestCount(HGetAll(r.db, key))
      case Err(e) => Run(r.db, Some(e))
      case Ok(count) =>
        match LastUsed(data)
        case Err(e) => Run(r.db, Some(e))
        case Ok(lastUsed) =>
          var db2 := LlamaService.TtlStep(r.db, key, count, lastUsed, now);
          match HIncrBy(db2, key, "request_count", 1)
          case Err(e) => Run(db2, Some(e))
          case Ok(db3) => Run(db3, None)
  }

  /** The loop over the keys `ks`. */
  function PassLoop(db: Db, ks: seq<string>, now: real, reply: string -> Reply): Run
    decreases |ks|
  {
    if ks == [] then Run(db, None)
    else PassStep(PassLoop(db, ks[..|ks| - 1], now, reply), ks[|ks| - 1], now, reply(ks[|ks| - 1]))
  }

  /** `RequestAnalyzer` of llama_analysis.py; `reply` gives the model's reply
      per key and `now` is `time.time()` at the start of the pass. */
  class RequestAnalyzer {
    const redis: Store

    constructor (store: Store)
      ensures redis == store
    {
      redis := store;
    }

    /** The pass; the exception that ends it early is returned. */
    method AnalyzeRequests(now: real, reply: string -> Reply) returns (err: Option<Error>)
      requires redis.Valid()
      modifies redis
      ensures redis.Valid()
      ensures Run(redis.State(), err) == PassLoop(old(redis.State()), old(redis.keys), now, reply)
    {
      var keys := redis.GetAllKeys();
      ghost var db0 := redis.State();
      for i := 0 to |keys|
        invariant redis.Valid()
        invariant PassLoop(db0, keys[..i], now, reply) == Run(redis.State(), None)
      {
        var key := keys[i];
        PassLoopExtend(db0, keys, i, redis.State(), now, reply);
        var requestData := redis.GetRequestData(key);
        // the model's answer is computed and discarded
        if reply(key).Raised? {
          PassErrorStops(db0, keys, i + 1, now, reply);
          return Some(InferenceError);
        }
        var requestCount := redis.GetRequestCount(key);
        if requestCount.Err? {
          PassErrorStops(db0, keys, i + 1, now, reply);
          return Some(requestCount.error);
        }
        var lastUsedTime := LastUsed(requestData);
        if lastUsedTime.Err? {
          PassErrorStops(db0, keys, i + 1, now, reply);
          return Some(lastUsedTime.error);
        }
        if requestCount.value == 1 && now - lastUsedTime.value > ThreeDays {
          redis.SetTtl(key, LlamaService.ShortTtl);
        }
        err := redis.IncrementRequestCount(key);
        if err.Some? {
          PassErrorStops(db0, keys, i + 1, now, reply);
          return;
        }
      }
      assert keys[..|keys|] == keys;
      return None;
    }
  }

  // ---------------------------------------------------------------------
  // Lemmas the method relies on

  lemma PassLoopExtend(db0: Db, ks: seq<string>, i: nat, cur: Db, now: real, reply: string -> Reply)
    requires i < |ks| && PassLoop(db0, ks[..i], now, reply) == Run(cur, None)
    ensures PassLoop(db0, ks[..i + 1], now, reply) == PassStep(Run(cur, None), ks[i], now, reply(ks[i]))
  {
    assert ks[..i + 1][..i] == ks[..i];
  }

  /** Once an iteration raises, the rest of the pass does not run. */
  lemma {:induction false} PassErrorStops(db: Db, ks: seq<string>, i: nat, now: real, reply: string -> Reply)
    requires i <= |ks| && PassLoop(db, ks[..i], now, reply).error.Some?
    ensures PassLoop(db, ks, now, reply) == PassLoop(db, ks[..i], now, reply)
    decreases |ks|
  {
    if i < |ks| {
      var init := ks[..|ks| - 1];
      assert init[..i] == ks[..i];
      PassErrorStops(db, init, i, now, reply);
    } else {
      assert ks[..i] == ks;
    }
  }

  // ---------------------------------------------------------------------
  // Properties

  /** The TTL rule is due for the entry `h`. */
  predicate DueFor(h: Hash, now: real) {
    RequestCount(h).Ok? && LastUsed(h).Ok? && LlamaService.TtlDue(RequestCount(h).value, LastUsed(h).value, now)
  }

  /** The entry with its count incremented. */
  function Counted(h: Hash): Hash {
    if RequestCount(h).Ok? then h["request_count" := Show(RequestCount(h).value + 1)] else h
  }

  /** The store after every entry among `among` has been through one
      iteration: its count is incremented and, where the rule is due, its TTL
      becomes one hour. */
  function CountAll(db: Db, among: set<string>, now: real): (r: Db)
    ensures r.keys == db.keys && r.hashes.Keys == db.hashes.Keys
    ensures db.Valid() ==> r.Valid()
  {
    Db(db.keys,
       map k | k in db.hashes :: if k in among then Counted(db.hashes[k]) else db.hashes[k],
       db.ttl + map k | k in DueAmong(db, among, now) :: LlamaService.ShortTtl)
  }

  /** The entries among `among` for which the TTL rule is due. */
  function DueAmong(db: Db, among: set<string>, now: real): (r: set<string>)
    ensures r <= db.hashes.Keys
  {
    set k | k in among && k in db.hashes && DueFor(db.hashes[k], now)
  }

  /** Counting one more, unvisited, key: its count. */
  lemma CountAllAddHashes(db: Db, among: set<string>, key: string, now: real)
    requires key in db.hashes && key !in among
    ensures var c, c' := CountAll(db, among, now), CountAll(db, among + {key}, now);
      c.hashes[key] == db.hashes[key] && c'.hashes == c.hashes[key := Counted(db.hashes[key])]
  {
  }

  /** Visiting one more key adds it to the due entries exactly when the rule
      is due for it. */
  lemma DueAmongAdd(db: Db, among: set<string>, key: string, now: real)
    requires key in db.hashes
    ensures DueAmong(db, among + {key}, now) ==
      if DueFor(db.hashes[key], now) then DueAmong(db, among, now) + {key} else DueAmong(db, among, now)
  {
  }

  /** Counting one more, unvisited, key: its TTL. */
  lemma CountAllAddTtl(db: Db, among: set<string>, key: string, now: real)
    requires key in db.hashes && key !in among
    ensures var c, c' := CountAll(db, among, now), CountAll(db, among + {key}, now);
      c'.ttl == if DueFor(db.hashes[key], now) then c.ttl[key := LlamaService.ShortTtl] else c.ttl
  {
    DueAmongAdd(db, among, key, now);
    TtlUnionAdd(db.ttl, DueAmong(db, among, now), key, LlamaService.ShortTtl);
  }

  /** Counting one more, unvisited, key. */
  lemma CountAllAdd(db: Db, among: set<string>, key: string, now: real)
    requires key in db.hashes && key !in among
    ensures var c, c' := CountAll(db, among, now), CountAll(db, among + {key}, now);
      && c.hashes[key] == db.hashes[key]
      && c'.hashes == c.hashes[key := Counted(db.hashes[key])]
      && c'.ttl == if DueFor(db.hashes[key], now) then c.ttl[key := LlamaService.ShortTtl] else c.ttl
  {
    CountAllAddHashes(db, among, key, now);
    CountAllAddTtl(db, among, key, now);
  }

  /** One iteration on an unvisited key of a store counted among `among`. */
  lemma PassStepOnCounted(db: Db, among: set<string>, key: string, now: real, reply: Reply)
    requires key in db.hashes && key !in among
    ensures var h := db.hashes[key];
      PassStep(Run(CountAll(db, among, now), None), key, now, reply) ==
        if PassFails(h, reply) then Run(CountAll(db, among, now), Some(PassError(h, reply)))
        else Run(CountAll(db, among + {key}, now), None)
  {
    CountAllAdd(db, among, key, now);
  }

  /** The position of the first of the keys `ks` whose iteration raises, or
      `|ks|` when there is none. */
  function FirstPassFailure(db: Db, ks: seq<string>, reply: string -> Reply): (j: nat)
    ensures j <= |ks|
    ensures forall i :: 0 <= i < j ==> !PassFails(HGetAll(db, ks[i]), reply(ks[i]))
    ensures j < |ks| ==> PassFails(HGetAll(db, ks[j]), reply(ks[j]))
    decreases |ks|
  {
    if ks == [] then 0
    else
      var init := ks[..|ks| - 1];
      var j := FirstPassFailure(db, init, reply);
      assert forall i :: 0 <= i < |init| ==> ks[i] == init[i];
      if j < |init| then j
      else if PassFails(HGetAll(db, ks[|ks| - 1]), reply(ks[|ks| - 1])) then |init|
      else |ks|
  }

  /** What the pass over `ks` leaves: every entry before the first failing one
      counted, and that entry's exception. */
  function PassOutcome(db: Db, ks: seq<string>, now: real, reply: string -> Reply): Run {
    var j := FirstPassFailure(db, ks, reply);
    Run(CountAll(db, Elems(ks[..j]), now),
      if j == |ks| then None else Some(PassError(HGetAll(db, ks[j]), reply(ks[j]))))
  }

  lemma PassOutcomeAfterFailure(db: Db, ks: seq<string>, now: real, reply: string -> Reply)
    requires ks != []
    requires FirstPassFailure(db, ks[..|ks| - 1], reply) < |ks| - 1
    requires PassLoop(db, ks[..|ks| - 1], now, reply) == PassOutcome(db, ks[..|ks| - 1], now, reply)
    ensures PassLoop(db, ks, now, reply) == PassOutcome(db, ks, now, reply)
  {
    var init := ks[..|ks| - 1];
    var j := FirstPassFailure(db, init, reply);
    assert PassOutcome(db, ks, now, reply) == PassOutcome(db, init, now, reply) by {
      assert FirstPassFailure(db, ks, reply) == j;
      assert ks[..j] == init[..j] && ks[j] == init[j];
    }
    assert PassLoop(db, ks, now, reply) == PassLoop(db, init, now, reply) by {
      assert PassLoop(db, init, now, reply).error.Some?;
      assert PassLoop(db, ks, now, reply) == PassStep(PassLoop(db, init, now, reply), ks[|ks| - 1], now, reply(ks[|ks| - 1]));
    }
  }

  lemma PassOutcomeWithoutFailure(db: Db, ks: seq<string>, now: real, reply: string -> Reply)
    requires db.Valid() && ks != [] && ks[|ks| - 1] in db.hashes && ks[|ks| - 1] !in ks[..|ks| - 1]
    requires FirstPassFailure(db, ks[..|ks| - 1], reply) == |ks| - 1
    requires PassLoop(db, ks[..|ks| - 1], now, reply) == PassOutcome(db, ks[..|ks| - 1], now, reply)
    ensures PassLoop(db, ks, now, reply) == PassOutcome(db, ks, now, reply)
  {
    var init, last := ks[..|ks| - 1], ks[|ks| - 1];
    assert PassLoop(db, init, now, reply) == Run(CountAll(db, Elems(init), now), None) by {
      assert init[..|init|] == init;
    }
    PassStepOnCounted(db, Elems(init), last, now, reply(last));
    if PassFails(db.hashes[last], reply(last)) {
      assert FirstPassFailure(db, ks, reply) == |init| && ks[..|init|] == init;
    } else {
      assert FirstPassFailure(db, ks, reply) == |ks|;
      assert Elems(ks[..|ks|]) == Elems(init) + {last} by {
        ElemsPrefix(ks, |ks| - 1);
      }
    }
  }

  /** The pass over distinct stored keys counts every entry before the first
      one whose iteration raises, and raises that entry's exception. */
  lemma {:induction false} PassCountsPrefix(db: Db, ks: seq<string>, now: real, reply: string -> Reply)
    requires db.Valid() && Distinct(ks) && forall k :: k in ks ==> k in db.hashes
    ensures PassLoop(db, ks, now, reply) == PassOutcome(db, ks, now, reply)
    decreases |ks|
  {
    if ks == [] {
      assert CountAll(db, {}, now) == db;
    } else {
      var init := ks[..|ks| - 1];
      assert Distinct(init) && ks[|ks| - 1] !in init && forall k :: k in init ==> k in ks;
      PassCountsPrefix(db, init, now, reply);
      if FirstPassFailure(db, init, reply) < |init| {
        PassOutcomeAfterFailure(db, ks, now, reply);
      } else {
        PassOutcomeWithoutFailure(db, ks, now, reply);
      }
    }
  }

  /** Every entry counted, when every entry can be read. */
  lemma CountEvery(db: Db, now: real)
    requires db.ttl.Keys <= db.hashes.Keys
    requires forall k :: k in db.hashes ==> RequestCount(db.hashes[k]).Ok?
    ensures var r := CountAll(db, db.hashes.Keys, now);
      && (forall k :: k in db.hashes ==>
            && r.hashes[k] == db.hashes[k]["request_count" := Show(RequestCount(db.hashes[k]).value + 1)]
            && RequestCount(r.hashes[k]) == Ok(RequestCount(db.hashes[k]).value + 1))
      && (forall k :: k in r.ttl <==> k in db.ttl || (k in db.hashes && DueFor(db.hashes[k], now)))
      && (forall k :: k in r.ttl ==> r.ttl[k] == if DueFor(db.hashes[k], now) then 3600 else db.ttl[k])
  {
    forall k | k in db.hashes
      ensures RequestCount(Counted(db.hashes[k])) == Ok(RequestCount(db.hashes[k]).value + 1)
    {
      ParseShowRoundTrip(RequestCount(db.hashes[k]).value + 1);
    }
  }

  /** A pass over the whole store that does not raise increments the count of
      every entry by exactly one (a missing count reads 0), sets the one-hour
      TTL on exactly the entries used once and last more than 72 hours before
      the pass, keeps every other TTL, writes no other field and deletes
      nothing. */
  lemma PassCountsEveryEntryOnce(db: Db, now: real, reply: string -> Reply)
    requires db.Valid() && PassLoop(db, db.keys, now, reply).error.None?
    ensures var r := PassLoop(db, db.keys, now, reply).db;
      && r.keys == db.keys && r.hashes.Keys == db.hashes.Keys
      && (forall k :: k in db.hashes ==> RequestCount(db.hashes[k]).Ok? && LastUsed(db.hashes[k]).Ok?)
      && (forall k :: k in db.hashes ==>
            && r.hashes[k] == db.hashes[k]["request_count" := Show(RequestCount(db.hashes[k]).value + 1)]
            && RequestCount(r.hashes[k]) == Ok(RequestCount(db.hashes[k]).value + 1))
      && (forall k :: k in r.ttl <==> k in db.ttl || (k in db.hashes && DueFor(db.hashes[k], now)))
      && (forall k :: k in r.ttl ==> r.ttl[k] == if DueFor(db.hashes[k], now) then 3600 else db.ttl[k])
  {
    PassCompletes(db, now, reply);
    NoPassFailure(db, reply);
    CountEvery(db, now);
  }

  /** A pass over the whole store that does not raise counts every entry. */
  lemma PassCompletes(db: Db, now: real, reply: string -> Reply)
    requires db.Valid() && PassLoop(db, db.keys, now, reply).error.None?
    ensures FirstPassFailure(db, db.keys, reply) == |db.keys|
    ensures PassLoop(db, db.keys, now, reply).db == CountAll(db, db.hashes.Keys, now)
  {
    PassCountsPrefix(db, db.keys, now, reply);
    AllListed(db);
  }

  lemma AllListed(db: Db)
    requires db.Valid()
    ensures Elems(db.keys[..|db.keys|]) == db.hashes.Keys
  {
    assert db.keys[..|db.keys|] == db.keys;
  }

  /** When the pass runs to the end, no entry's reads failed. */
  lemma NoPassFailure(db: Db, reply: string -> Reply)
    requires db.Valid() && FirstPassFailure(db, db.keys, reply) == |db.keys|
    ensures forall k :: k in db.hashes ==> RequestCount(db.hashes[k]).Ok? && LastUsed(db.hashes[k]).Ok?
  {
    forall k | k in db.hashes
      ensures RequestCount(db.hashes[k]).Ok? && LastUsed(db.hashes[k]).Ok?
    {
      var i :| 0 <= i < |db.keys| && db.keys[i] == k;
      assert !PassFails(HGetAll(db, db.keys[i]), reply(db.keys[i]));
    }
  }

  /** When the pass raises, it raises on some entry: every entry listed
      before it has been counted, and it and every entry listed after it
      are as they were. */
  lemma PassAbortsOnFailure(db: Db, now: real, reply: string -> Reply)
    requires db.Valid() && PassLoop(db, db.keys, now, reply).error.Some?
    ensures var r := PassLoop(db, db.keys, now, reply);
      && r.db.keys == db.keys && r.db.hashes.Keys == db.hashes.Keys
      && exists j ::
        && 0 <= j < |db.keys| && PassFails(db.hashes[db.keys[j]], reply(db.keys[j]))
        && r.error == Some(PassError(db.hashes[db.keys[j]], reply(db.keys[j])))
        && (forall i :: 0 <= i < j ==> r.db.hashes[db.keys[i]] == Counted(db.hashes[db.keys[i]]))
        && (forall i :: 0 <= i < j ==>
              && (db.keys[i] in r.db.ttl <==> db.keys[i] in db.ttl || DueFor(db.hashes[db.keys[i]], now))
              && (db.keys[i] in r.db.ttl ==>
                    r.db.ttl[db.keys[i]] == if DueFor(db.hashes[db.keys[i]], now) then 3600 else db.ttl[db.keys[i]]))
        && (forall i :: j <= i < |db.keys| ==> r.db.hashes[db.keys[i]] == db.hashes[db.keys[i]])
        && (forall i :: j <= i < |db.keys| ==>
              && (db.keys[i] in r.db.ttl <==> db.keys[i] in db.ttl)
              && (db.keys[i] in r.db.ttl ==> r.db.ttl[db.keys[i]] == db.ttl[db.keys[i]]))
  {
    PassAbortsAtFirstFailure(db, now, reply);
  }

  /** The same, at the first failing entry. */
  lemma PassAbortsAtFirstFailure(db: Db, now: real, reply: string -> Reply)
    requires db.Valid() && PassLoop(db, db.keys, now, reply).error.Some?
    ensures var r, j := PassLoop(db, db.keys, now, reply), FirstPassFailure(db, db.keys, reply);
      && r.db.keys == db.keys && r.db.hashes.Keys == db.hashes.Keys
      && 0 <= j < |db.keys| && PassFails(db.hashes[db.keys[j]], reply(db.keys[j]))
      && r.error == Some(PassError(db.hashes[db.keys[j]], reply(db.keys[j])))
      && (forall i :: 0 <= i < j ==> r.db.hashes[db.keys[i]] == Counted(db.hashes[db.keys[i]]))
      && (forall i :: 0 <= i < j ==>
            && (db.keys[i] in r.db.ttl <==> db.keys[i] in db.ttl || DueFor(db.hashes[db.keys[i]], now))
            && (db.keys[i] in r.db.ttl ==>
                  r.db.ttl[db.keys[i]] == if DueFor(db.hashes[db.keys[i]], now) then 3600 else db.ttl[db.keys[i]]))
      && (forall i :: j <= i < |db.keys| ==> r.db.hashes[db.keys[i]] == db.hashes[db.keys[i]])
      && (forall i :: j <= i < |db.keys| ==>
            && (db.keys[i] in r.db.ttl <==> db.keys[i] in db.ttl)
            && (db.keys[i] in r.db.ttl ==> r.db.ttl[db.keys[i]] == db.ttl[db.keys[i]]))
  {
    PassStops(db, now, reply);
    CountPrefix(db, db.keys, FirstPassFailure(db, db.keys, reply), now);
  }

  /** A pass over the whole store that raises stops at the first failing entry. */
  lemma PassStops(db: Db, now: real, reply: string -> Reply)
    requires db.Valid() && PassLoop(db, db.keys, now, reply).error.Some?
    ensures var j := FirstPassFailure(db, db.keys, reply);
      && j < |db.keys| && db.keys[j] in db.hashes
      && PassLoop(db, db.keys, now, reply) ==
           Run(CountAll(db, Elems(db.keys[..j]), now), Some(PassError(db.hashes[db.keys[j]], reply(db.keys[j]))))
  {
    PassCountsPrefix(db, db.keys, now, reply);
  }

  /** Counting the first `j` of distinct stored keys changes exactly those. */
  lemma CountPrefix(db: Db, ks: seq<string>, j: nat, now: real)
    requires Distinct(ks) && j <= |ks| && forall k :: k in ks ==> k in db.hashes
    ensures var c := CountAll(db, Elems(ks[..j]), now);
      && (forall i :: 0 <= i < j ==> c.hashes[ks[i]] == Counted(db.hashes[ks[i]]))
      && (forall i :: 0 <= i < j ==>
            && (ks[i] in c.ttl <==> ks[i] in db.ttl || DueFor(db.hashes[ks[i]], now))
            && (ks[i] in c.ttl ==> c.ttl[ks[i]] == if DueFor(db.hashes[ks[i]], now) then 3600 else db.ttl[ks[i]]))
      && (forall i :: j <= i < |ks| ==> c.hashes[ks[i]] == db.hashes[ks[i]])
      && (forall i :: j <= i < |ks| ==>
            && (ks[i] in c.ttl <==> ks[i] in db.ttl)
            && (ks[i] in c.ttl ==> c.ttl[ks[i]] == db.ttl[ks[i]]))
  {
    forall i | j <= i < |ks| ensures ks[i] !in Elems(ks[..j]) {
    }
  }
}
