/** The Redis store the analyzers share: one hash of string fields per key,
    plus an optional time-to-live per key.

    The store's client wrapper is not part of this model; its operations are
    given the semantics of the Redis commands they stand for:
    `get_all_keys` is KEYS (in the order `keys` lists them), `get_request_data`
    is HGETALL (an empty hash for a missing key), `delete_request` is DEL,
    `set_ttl` is EXPIRE, `get_request_count` reads the `request_count` field as
    an integer (missing means 0) and `increment_request_count` is
    HINCRBY request_count 1. */
module Redis {
  import opened Base
  import opened Text

  type Hash = map<string, string>

  /** A snapshot of the whole store. `keys` is the order in which KEYS lists
      the keys; `ttl` holds the keys that have an expiry scheduled. */
  datatype Db = Db(keys: seq<string>, hashes: map<string, Hash>, ttl: map<string, int>) {
    /** Every stored key is listed exactly once, and only stored keys have a TTL. */
    ghost predicate Valid() {
      && Distinct(keys)
      && (forall k :: k in hashes <==> k in keys)
      && ttl.Keys <= hashes.Keys
    }
  }

  ghost predicate Distinct(s: seq<string>) {
    forall i, j :: 0 <= i < j < |s| ==> s[i] != s[j]
  }

  /** The elements of a key listing, as a set. */
  function Elems(s: seq<string>): (r: set<string>)
    ensures forall x :: x in r <==> x in s
  {
    set x | x in s
  }

  lemma ElemsPrefix(s: seq<string>, i: nat)
    requires i < |s|
    ensures Elems(s[..i + 1]) == Elems(s[..i]) + {s[i]}
  {
    assert s[..i + 1] == s[..i] + [s[i]];
  }

  /** `s` without the elements of `drop`, order kept. */
  function FilterOut(s: seq<string>, drop: set<string>): (r: seq<string>)
    ensures forall x :: x in r <==> x in s && x !in drop
    ensures Distinct(s) ==> Distinct(r)
  {
    if s == [] then []
    else
      var rest := FilterOut(s[1..], drop);
      assert Distinct(s) ==> Distinct(s[1..]) && s[0] !in rest;
      if s[0] in drop then rest else [s[0]] + rest
  }

  lemma FilterOutNothing(s: seq<string>)
    ensures FilterOut(s, {}) == s
  {
  }

  lemma FilterOutTwice(s: seq<string>, a: set<string>, b: set<string>)
    ensures FilterOut(FilterOut(s, a), b) == FilterOut(s, a + b)
  {
  }

  /** The keys of `s` that start with `prefix`, order kept (KEYS `prefix*`). */
  function WithPrefix(s: seq<string>, prefix: string): (r: seq<string>)
    ensures forall x :: x in r <==> x in s && prefix <= x
    ensures Distinct(s) ==> Distinct(r)
  {
    if s == [] then []
    else
      var rest := WithPrefix(s[1..], prefix);
      assert Distinct(s) ==> Distinct(s[1..]) && s[0] !in rest;
      if prefix <= s[0] then [s[0]] + rest else rest
  }

  /** HGETALL: the fields of `key`, or the empty hash when the key does not exist. */
  function HGetAll(db: Db, key: string): Hash {
    if key in db.hashes then db.hashes[key] else map[]
  }

  /** HSET: writes one field; a missing key is created, with no TTL. */
  function HSet(db: Db, key: string, field: string, value: string): (r: Db)
    ensures db.Valid() ==> r.Valid()
    ensures r.hashes == db.hashes[key := HGetAll(db, key)[field := value]]
    ensures r.ttl == db.ttl
    ensures key in db.hashes ==> r.keys == db.keys
  {
    if key in db.hashes then Db(db.keys, db.hashes[key := db.hashes[key][field := value]], db.ttl)
    else Db(db.keys + [key], db.hashes[key := map[field := value]], db.ttl)
  }

  /** DEL: the key, its fields and its TTL are gone; nothing else changes. */
  function Del(db: Db, key: string): (r: Db)
    ensures db.Valid() ==> r.Valid()
    ensures r.hashes == db.hashes - {key} && r.ttl == db.ttl - {key}
  {
    Db(FilterOut(db.keys, {key}), db.hashes - {key}, db.ttl - {key})
  }

  /** EXPIRE: schedules expiry of an existing key; a non-positive TTL deletes
      the key at once, and a missing key is left alone. */
  function Expire(db: Db, key: string, seconds: int): (r: Db)
    ensures db.Valid() ==> r.Valid()
    ensures key in db.hashes && seconds > 0 ==> r == db.(ttl := db.ttl[key := seconds])
    ensures key !in db.hashes ==> r == db
  {
    if key !in db.hashes then db
    else if seconds <= 0 then Del(db, key)
    else db.(ttl := db.ttl[key := seconds])
  }

  /** HINCRBY: adds `n` to an integer field (a missing field counts as 0, a
      missing key is created); fails on a field that is not an integer. */
  function HIncrBy(db: Db, key: string, field: string, n: int): (r: Result<Db>)
    ensures db.Valid() && r.Ok? ==> r.value.Valid()
  {
    var h := HGetAll(db, key);
    if field !in h then Ok(HSet(db, key, field, Show(n)))
    else match ParseInt(h[field])
      case None => Err(ResponseError)
      case Some(c) => Ok(HSet(db, key, field, Show(c + n)))
  }

  /** The `request_count` field read as an integer; a missing field is 0. */
  function RequestCount(h: Hash): Result<int> {
    if "request_count" !in h then Ok(0)
    else match ParseInt(h["request_count"])
      case None => Err(ValueError(h["request_count"]))
      case Some(c) => Ok(c)
  }

  /** Incrementing the count of an entry whose count reads `c` leaves a count
      that reads `c + 1`, and changes no other field and no TTL. */
  lemma IncrementCount(db: Db, key: string, c: int)
    requires RequestCount(HGetAll(db, key)) == Ok(c)
    ensures HIncrBy(db, key, "request_count", 1).Ok?
    ensures var r := HIncrBy(db, key, "request_count", 1).value;
      && r.hashes == db.hashes[key := HGetAll(db, key)["request_count" := Show(c + 1)]]
      && r.ttl == db.ttl
      && RequestCount(HGetAll(r, key)) == Ok(c + 1)
  {
    ParseShowRoundTrip(c + 1);
  }

  /** 72 hours, in seconds: the age beyond which both analyzers treat an
      entry as stale. */
  const ThreeDays: real := 259200.0

  /** `float(h.get('last_used', 0))`: a missing field is 0, a field that is
      not a number raises ValueError. */
  function LastUsed(h: Hash): (r: Result<real>)
    ensures "last_used" !in h ==> r == Ok(0.0)
    ensures "last_used" in h ==>
      (r.Err? <==> ParseDecimal(h["last_used"]).None?) &&
      (r.Ok? ==> ParseDecimal(h["last_used"]) == Some(r.value))
  {
    if "last_used" !in h then Ok(0.0)
    else match ParseDecimal(h["last_used"])
      case None => Err(ValueError(h["last_used"]))
      case Some(t) => Ok(t)
  }

  /** `get_last_used_time`: HGET of `last_used`, read as a number when it is
      present and not empty, and `None` otherwise; a field that is not a
      number raises ValueError. */
  function LastUsedTime(h: Hash): (r: Result<Option<real>>)
    ensures r == Ok(None) <==> "last_used" !in h || h["last_used"] == ""
    ensures r.Err? <==> "last_used" in h && h["last_used"] != "" && ParseDecimal(h["last_used"]).None?
    ensures r.Ok? && r.value.Some? ==> ParseDecimal(h["last_used"]) == Some(r.value.value)
  {
    if "last_used" !in h || h["last_used"] == "" then Ok(None)
    else match ParseDecimal(h["last_used"])
      case None => Err(ValueError(h["last_used"]))
      case Some(t) => Ok(Some(t))
  }

  /** The state a piece of code leaves the store in, with the exception it
      raised, if any. */
  datatype Run = Run(db: Db, error: Option<Error>)

  /** The store without the keys in `drop`: DEL of each of them. */
  function RemoveAll(db: Db, drop: set<string>): (r: Db)
    ensures db.Valid() ==> r.Valid()
    ensures r.hashes == db.hashes - drop && r.ttl == db.ttl - drop
  {
    Db(FilterOut(db.keys, drop), db.hashes - drop, db.ttl - drop)
  }

  /** Giving one more key the same TTL as a set of keys. */
  lemma TtlUnionAdd(t: map<string, int>, due: set<string>, key: string, v: int)
    ensures t + (map k | k in due + {key} :: v) == (t + map k | k in due :: v)[key := v]
  {
  }

  /** Deleting keys one at a time is deleting the set of them. */
  lemma DelAfterRemoveAll(db: Db, drop: set<string>, key: string)
    ensures Del(RemoveAll(db, drop), key) == RemoveAll(db, drop + {key})
  {
    FilterOutTwice(db.keys, drop, {key});
  }

  /** A client connected to the store. Its fields are the store's state; the
      methods are the client wrapper's operations. */
  class Store {
    var keys: seq<string>
    var hashes: map<string, Hash>
    var ttl: map<string, int>

    function State(): Db
      reads this
    {
      Db(keys, hashes, ttl)
    }

    ghost predicate Valid()
      reads this
    {
      State().Valid()
    }

    constructor (db: Db)
      ensures State() == db
    {
      keys, hashes, ttl := db.keys, db.hashes, db.ttl;
    }

    method GetAllKeys() returns (ks: seq<string>)
      ensures ks == keys
    {
      ks := keys;
    }

    method GetKeys(prefix: string) returns (ks: seq<string>)
      ensures ks == WithPrefix(keys, prefix)
    {
      ks := WithPrefix(keys, prefix);
    }

    method GetRequestData(key: string) returns (h: Hash)
      ensures h == HGetAll(State(), key)
    {
      h := HGetAll(State(), key);
    }

    method SetField(key: string, field: string, value: string)
      modifies this
      ensures State() == HSet(old(State()), key, field, value)
    {
      var r := HSet(State(), key, field, value);
      keys, hashes, ttl := r.keys, r.hashes, r.ttl;
    }

    method DeleteRequest(key: string)
      modifies this
      ensures State() == Del(old(State()), key)
    {
      var r := Del(State(), key);
      keys, hashes, ttl := r.keys, r.hashes, r.ttl;
    }

    method SetTtl(key: string, seconds: int)
      modifies this
      ensures State() == Expire(old(State()), key, seconds)
    {
      var r := Expire(State(), key, seconds);
      keys, hashes, ttl := r.keys, r.hashes, r.ttl;
    }

    method GetRequestCount(key: string) returns (r: Result<int>)
      ensures r == RequestCount(HGetAll(State(), key))
    {
      r := RequestCount(HGetAll(State(), key));
    }

    method GetLastUsedTime(key: string) returns (r: Result<Option<real>>)
      ensures r == LastUsedTime(HGetAll(State(), key))
    {
      r := LastUsedTime(HGetAll(State(), key));
    }

    /** On failure the store is unchanged and the error is returned. */
    method IncrementRequestCount(key: string) returns (err: Option<Error>)
      modifies this
      ensures var r := HIncrBy(old(State()), key, "request_count", 1);
        match r
        case Ok(db) => err == None && State() == db
        case Err(e) => err == Some(e) && State() == old(State())
    {
      match HIncrBy(State(), key, "request_count", 1)
      case Ok(db) =>
        keys, hashes, ttl := db.keys, db.hashes, db.ttl;
        err := None;
      case Err(e) =>
        err := Some(e);
    }
  }
}
