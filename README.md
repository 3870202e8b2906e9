# Cache reconciliation sweeps of edge_proxy, in Dafny

edge_proxy caches HTTP exchanges in Redis. Each exchange is one hash per
key, with fields `request_method`, `request_url`, `request_headers`,
`response`, `purpose`, `request_count` and `last_used`. Background analyzers
sweep this cache. They ask a language model about each entry, then delete
entries, re-mark them, count their uses and schedule their expiry. This
project models three of those sweeps and proves what each does to the store:

- **llama-service** (`RequestAnalyzer` in `llama-service.py`). For each
  entry, a guard model can veto the entry. A second model's answer is
  reduced to `delete`, `refresh` or `keep`. A stale single-use entry gets a
  one-hour TTL. For a POST entry, older duplicates of its URL are deleted
  and related GET entries are marked `refresh`. Finally the use count is
  incremented. An exception on one entry is caught and the sweep continues.
- **llama_analysis** (`RequestAnalyzer` in `llama_analysis.py`). The same
  TTL rule and increment, with the model's answer ignored. Nothing catches
  an exception, so the first failure ends the pass.
- **proxy_analyzer** (`ProxyRequestAnalyzer.analyze_and_set_ttl`). Every
  `proxy:` entry that is not marked `refresh` and was last used more than
  72 hours ago gets the TTL chosen by `determine_ttl`, which is always 72
  hours.

Files. Each module is declared once and imported by the ones after it.

- `base.dfy`: `Option`, `Result` and the Python exceptions that can occur.
- `text.dfy`: ASCII lower-casing, substring containment, the decimal
  integers stored in hash fields, with a parse/print round trip, and the
  decimal numbers `float` reads timestamps from.
- `redis.dfy`: the store. `Db` is a snapshot: key listing, hashes and TTLs.
  The functions give the Redis commands (HGETALL, HSET, DEL, EXPIRE,
  HINCRBY) their semantics, except for the differences listed under
  "Left out" (integer syntax and bounds, expiry). `Store` is the client, a class whose fields are
  the store's state.
- `llama_model.dfy`: `check_inappropriate_content` and `analyze_request`.
  Model output is a parameter (`Reply`).
- `llama_service.dfy`: the llama-service sweep. Its four loops are
  imperative methods: the sweep of `analyze_requests`, the two loops of
  `delete_old_requests` and the loop of `mark_related_get_as_refresh`. The
  sweep, the first loop of `delete_old_requests` and the marking loop are
  proved equal to recursive specification functions (`SweepEffect`,
  `Scan`, `MarkLoop`); the second loop of `delete_old_requests` is proved
  equal to the closed form `RemoveAll(db, OlderThan(...))`. The properties
  are lemmas about those functions.
- `llama_analysis.dfy` and `proxy_analyzer.dfy`: the other two passes,
  built the same way. For each, a closed form (`CountAll`, `ExpireAll`)
  says what a pass leaves after the first k entries, and the loop is proved
  equal to it.

## Model

| member | source | states |
|---|---|---|
| LlamaModel.GuardAllows | llama-service/llama-service.py:111-117 | the guard allows a request exactly when its lower-cased answer does not contain "no"; the separate "not allowed" test is subsumed |
| LlamaModel.CheckInappropriateContent | llama-service/llama-service.py:96-117 | an exception of the guard model reaches the caller; otherwise the result is True exactly when the lower-cased answer lacks "no" |
| LlamaModel.ReduceVerdict | llama-service/llama-service.py:142-152 | the verdict is `delete` iff the lower-cased answer contains "delete"; `refresh` iff it contains "refresh" but not "delete"; `keep` otherwise |
| LlamaModel.ReduceVerdictIgnoresCase | llama-service/llama-service.py:142-150 | a keyword found in any letter case still yields its verdict |
| LlamaModel.MissingField | llama-service/llama-service.py:131-134 | reports the first of the four prompt fields absent from the entry, and reports none exactly when all four are present |
| LlamaModel.AnalyzeRequest | llama-service/llama-service.py:119-152 | a missing prompt field raises KeyError (prompt building is outside the try block); a failing model call gives `keep`; otherwise the verdict is the reduction of the answer; `delete` happens only when the answer contains "delete" |
| LlamaService.CompareUrls | llama-service/llama-service.py:232-234 | equal URLs compare equal, and URLs that compare equal have the same length |
| LlamaService.CompareUrlsCharwise | llama-service/llama-service.py:232-234 | two URLs compare equal iff they have the same length and agree letter by letter up to ASCII case (so the comparison is reflexive and symmetric) |
| LlamaService.RequestAnalyzer.AnalyzeRequests | llama-service/llama-service.py:159-200 | visits the key snapshot in order; the store afterwards is the specification sweep, in which each key's exception is caught and the sweep goes on |
| LlamaService.RequestAnalyzer.AnalyzeEntry | llama-service/llama-service.py:164-197 | the try block for one key: the new store and the exception raised match the per-entry specification, step by step |
| LlamaService.RequestAnalyzer.FindNewest | llama-service/llama-service.py:203-213 | the first loop (`newest_time`, `newest_key`) computes the specification scan, including the KeyError or ValueError it raises |
| LlamaService.RequestAnalyzer.DeleteOldRequests | llama-service/llama-service.py:202-222 | the store afterwards and the exception raised equal the specification of `delete_old_requests` |
| LlamaService.RequestAnalyzer.DeleteOlderThan | llama-service/llama-service.py:215-222 | the second loop deletes exactly the entries with the URL whose time is below the newest time |
| LlamaService.RequestAnalyzer.MarkRelatedGetAsRefresh | llama-service/llama-service.py:224-230 | the store afterwards and the KeyError raised equal the loop specification over all keys |
| LlamaService.ScanRaisesOnBadEntry | llama-service/llama-service.py:207-210 | the first loop raises iff some entry lacks `request_url`, or some entry with the URL has an unreadable `last_used` |
| LlamaService.ScanFindsNoneWithoutMatch | llama-service/llama-service.py:207-213 | when the first loop does not raise, it finds no entry iff no entry has the URL |
| LlamaService.ScanFindsMatch | llama-service/llama-service.py:207-213 | the entry found is listed, has the URL, and has the time found |
| LlamaService.ScanFindsMaximum | llama-service/llama-service.py:211-213 | the time found is at least the time of every entry with the URL |
| LlamaService.ScanFindsFirstNewest | llama-service/llama-service.py:211 | the strict `>` keeps the first listed of several newest entries |
| LlamaService.DeleteOldRequestsKeepsNewest | llama-service/llama-service.py:202-222 | raises iff an entry lacks a URL or a matching entry has an unreadable time, and then changes nothing; otherwise deletes exactly the matching entries for which a strictly newer matching entry exists, so all entries tied at the maximum survive; other entries, fields and TTLs are unchanged |
| LlamaService.DeleteOldRequestsKeepsOne | llama-service/llama-service.py:202-222 | when some entry has the URL and the first loop does not raise, at least one entry with the URL survives |
| LlamaService.EmptyNewestKeyDeletesNothing | llama-service/llama-service.py:215 | `if newest_key:` is a truthiness test: when the newest entry is stored under the empty key, an older duplicate is not deleted |
| LlamaService.MarkRelatedKeepsKeys | llama-service/llama-service.py:224-230 | no key or TTL changes, and every entry that is not a related GET keeps its fields, whether or not the loop raises |
| LlamaService.MarkRelatedRaises | llama-service/llama-service.py:227-228 | the loop raises iff some entry lacks `request_method`, or is a GET without `request_url` |
| LlamaService.MarkRelatedTouchesRelatedGets | llama-service/llama-service.py:224-230 | without an exception, exactly the GET entries whose URL equals the given one ignoring case get `purpose=refresh`, and nothing else changes |
| LlamaService.MarkRelatedIdempotent | llama-service/llama-service.py:224-230 | running the marking twice leaves the same store and the same exception as running it once |
| LlamaService.EntrySkips | llama-service/llama-service.py:165-171 | an entry without URL raises KeyError; a failing guard raises; a rejecting guard skips the entry; an allowed entry missing a prompt field raises KeyError for that field; in all four cases the store is unchanged |
| LlamaService.ApplyVerdict | llama-service/llama-service.py:173-181 | a `delete` verdict removes the entry's fields and TTL; any other verdict writes `purpose` (`refresh` or `keep`) and changes no other field, key or TTL |
| LlamaService.TtlStep | llama-service/llama-service.py:185-187 | keys and fields are unchanged; a stored entry gets the one-hour TTL exactly when its count is 1 and it was last used more than 72 hours before the sweep, otherwise its TTL is kept |
| LlamaService.IncrementThenUpdate | llama-service/llama-service.py:194-197 | the step always raises: ResponseError with the store unchanged when the count is not an integer; otherwise the count that read c reads c + 1, no TTL changes, and `update_cache` raises AttributeError |
| LlamaService.EntryKeptOrRefreshed | llama-service/llama-service.py:164-197 | for an allowed non-POST entry with a keep or refresh verdict: the verdict is written to `purpose`, the count rises by one, the TTL rule applies, and nothing else changes |
| LlamaService.EntryDeletedLeavesStub | llama-service/llama-service.py:173-175 | a `delete` verdict removes the entry and its TTL, but the increment that follows recreates the key holding only `request_count=1` |
| LlamaService.EntryPostOrder | llama-service/llama-service.py:189-194 | for a POST entry with a keep or refresh verdict, deduplication runs first, marking second and the increment last; an exception skips the later steps and keeps what the earlier ones wrote |
| LlamaService.EntryPostDeleteOrder | llama-service/llama-service.py:173-194 | for a POST entry with a `delete` verdict, the entry is deleted, no TTL is set, and deduplication, marking and the increment follow in that order on the store without it, an exception skipping the later steps |
| LlamaService.SweepRejectedChangesNothing | llama-service/llama-service.py:163-169 | a sweep in which the guard rejects every entry, or fails on it, leaves the store unchanged |
| LlamaAnalysis.RequestAnalyzer.AnalyzeRequests | llama-service/llama_analysis.py:10-30 | the pass leaves the store and raises the exception that the loop specification gives; the first exception ends it |
| LlamaAnalysis.PassCountsPrefix | llama-service/llama_analysis.py:14-30 | over distinct stored keys, the pass counts every entry before the first failing one and raises that entry's exception |
| LlamaAnalysis.PassCountsEveryEntryOnce | llama-service/llama_analysis.py:12-30 | a pass that does not raise: every count goes up by exactly one (a missing count reads 0); the one-hour TTL goes to exactly the entries used once and last more than 72 hours before the pass (a missing `last_used` reads 0); every other TTL is kept; no field is written and no entry deleted |
| LlamaAnalysis.PassAbortsOnFailure | llama-service/llama_analysis.py:14-30 | a pass that raises stops at an entry whose model call, count or timestamp fails; no key is added or removed; entries listed before it are counted and get the one-hour TTL exactly when used once and last more than 72 hours before the pass, keeping their TTL otherwise; it and later entries keep their fields and their TTL |
| ProxyAnalyzer.DetermineTtl | proxy_analyzer/script/llama_integration.py:8-19 | succeeds exactly when the model call does, and then returns 72 hours |
| Redis.LastUsed | llama-service/llama-service.py:184 | `float(request_data.get('last_used', 0))`, as also on lines 210 and 219 and in llama_analysis.py:24: a missing field reads 0; the read raises ValueError exactly when the field is not a decimal number; otherwise it gives the number's exact value |
| Redis.LastUsedTime | proxy_analyzer/models/redis_manager.py:15-18 | a missing or empty `last_used` gives None; a value that is not a number raises ValueError; otherwise gives its value |
| ProxyAnalyzer.ProxyRequestAnalyzer.AnalyzeAndSetTtl | proxy_analyzer/script/analyze_request.py:10-31 | visits the keys starting with `proxy:`; the store afterwards and the exception raised equal the loop specification |
| ProxyAnalyzer.ProxyExpiresPrefix | proxy_analyzer/script/analyze_request.py:15-31 | the pass gives each due entry before the first failing one its TTL, and raises that entry's exception |
| ProxyAnalyzer.ProxyPassOnlySetsTtls | proxy_analyzer/script/analyze_request.py:15-31 | whatever the outcome: no entry deleted, no field written, no TTL removed; a TTL changes only on a due `proxy:` entry, and only to 72 hours |
| ProxyAnalyzer.RefreshKeepsTtl | proxy_analyzer/script/analyze_request.py:18-22 | an entry marked `refresh` keeps its TTL, or its lack of one |
| ProxyAnalyzer.OtherKeysKeepTtl | proxy_analyzer/script/analyze_request.py:12 | an entry whose key does not start with `proxy:` keeps its TTL, or its lack of one |
| ProxyAnalyzer.ProxyPassSetsTtl | proxy_analyzer/script/analyze_request.py:12-31 | a pass that does not raise gives the 72-hour TTL to exactly the due `proxy:` entries: purpose not `refresh` (a missing purpose reads "empty"), `last_used` present, non-empty, nonzero and more than 72 hours old; no request-count condition; every other TTL kept |
| ProxyAnalyzer.ProxyPassAbortsOnFailure | proxy_analyzer/script/analyze_request.py:15-31 | a pass that raises stops at a `proxy:` entry with an unreadable timestamp or a failing model call: due entries listed before it have their TTL, and it and later entries keep theirs |
| Redis.IncrementCount | llama-service/llama_analysis.py:30 | incrementing a count that reads c leaves a count that reads c + 1, and changes nothing else |
| Text.ParseDecimalOfInt | llama-service/llama-service.py:184 | `float` reads an integer text as that integer |
| Text.ParseDecimalFraction | proxy_analyzer/models/redis_manager.py:18 | every timestamp of the form digits, point, digits (the form `time.time()` is stored in by `update_last_used_time`) is read by `float` as its whole part plus its fraction |
| Text.ParseShowRoundTrip | llama-service/llama_analysis.py:21 | reading back a stored integer gives the integer stored |

## Left out

- Language-model inference: generation, sampling, tokenisation and fine-tuning (`LlamaTrainer`). Every model call is a parameter, given per key as the text it generated or as an exception.
- The endless `run()` loops, `time.sleep(600)` and the threads: the model is one sweep. `time.time()` is the parameter `now`.
- `print` logging.
- The Redis client wrappers: `redis_client` is not part of this model. Its methods are given the semantics of the Redis commands they stand for: KEYS, HGETALL, DEL, EXPIRE, and HINCRBY on `request_count`. `get_request_count` reads that field as an integer, with a missing field meaning 0. KEYS lists keys in an unspecified order; the model fixes the order as the `keys` sequence of the snapshot. This fixes the later KEYS calls of a sweep too (those of `delete_old_requests` and `mark_related_get_as_refresh`): they list the remaining keys in their earlier relative order, with a key recreated by HSET or HINCRBY last. That order decides which related GET entries `MarkRelatedSpec` has marked before a KeyError on such a recreated entry stops it.
- Timestamps and `now` are exact reals: `float(...)` of `last_used` reads an optional sign, digits and an optional fraction (the form `str(time.time())` takes), at its exact value. Binary floating-point rounding of the values and of `current_time - last_used` is not modelled. Exponents, `inf`/`nan`, digit-separating underscores and surrounding spaces, which Python's `float` accepts, raise ValueError in the model.
- `str.lower()` is modelled on ASCII letters only.
- Redis.HIncrBy: increments any count `ParseInt` reads, leading zeros and "-0" included, and counts without bound. Redis answers "hash value is not an integer" for text that is not a canonical signed 64-bit integer (such as "007" or "-0") and an overflow error past 64 bits. Neither error is modelled.
- Redis.IncrementCount and LlamaService.IncrementThenUpdate: state the increment under that reading of the count, so a count such as "007" is incremented where Redis would raise.
- LlamaService.EntryKeptOrRefreshed, LlamaService.EntryDeletedLeavesStub, LlamaService.EntryPostOrder, LlamaService.EntryPostDeleteOrder, LlamaAnalysis.PassCountsPrefix, LlamaAnalysis.PassCountsEveryEntryOnce and LlamaAnalysis.PassAbortsOnFailure: their increments hold under the same reading of the count; no 64-bit overflow error is modelled.
- Expiry during a sweep: the store never lets a TTL run out while a sweep runs. In Redis, a key that expires between KEYS and HGETALL reads as `{}`. llama-service then raises KeyError on `request_url` and skips the key. llama_analysis goes on with a count of 0, and HINCRBY recreates the key as a `request_count` = 1 stub.
- LlamaService.RequestAnalyzer.AnalyzeRequests, LlamaAnalysis.RequestAnalyzer.AnalyzeRequests, LlamaAnalysis.PassCountsPrefix, LlamaAnalysis.PassCountsEveryEntryOnce, LlamaAnalysis.PassAbortsOnFailure, ProxyAnalyzer.ProxyRequestAnalyzer.AnalyzeAndSetTtl, ProxyAnalyzer.ProxyPassSetsTtl and ProxyAnalyzer.ProxyPassAbortsOnFailure: hold only for sweeps in which no TTL runs out.
- Concurrency with the proxy writing the same keys during a sweep.
- llama_proxy, go-proxy, response-service and the settings module: HTTP and file plumbing outside the sweeps.
- LlamaService.DeleteOldRequestsKeepsNewest: requires that no entry is stored under the empty key, because `if newest_key:` then skips the deletions; that one case is shown separately by `LlamaService.EmptyNewestKeyDeletesNothing`, and `LlamaService.DeleteOldRequestsKeepsOne` covers it too.
- LlamaService.MarkRelatedTouchesRelatedGets: states the exact result only for a run that does not raise; a run that raises is covered by `LlamaService.MarkRelatedKeepsKeys`.
