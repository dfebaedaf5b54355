/** The result cache and configuration of `BackgroundAnalyzer`
    (background/background.js:163-227, 402-418) and the badge table of
    `BackgroundController.updateBadge` (background/background.js:150-157).
    The cache is a JavaScript `Map`, which remembers insertion order: it is
    modelled as the sequence of its keys in that order together with a map
    from key to value. Storage reads, the clock and the reply of the language
    service are parameters. */
module Background {
  import opened Wrappers
  import opened JsText
  import opened ResponseParser
  import opened AnalysisClient

  // ------------------------------------------------------------------
  // Cache entries and keys

  /** A cached value. `cleanupCache` reads `value.timestamp`; the values the
      analyzer stores are reports, which have no such field, so it is `None`
      for every entry the analyzer creates. */
  datatype CacheValue = CacheValue(report: AnalysisReport, timestamp: Option<int>)

  const MaxCacheSize: nat := 100
  /** Thirty minutes in milliseconds. */
  const MaxAge: int := 30 * 60 * 1000
  const ConfigErrorMessage: string := "API configuration error. Please check extension settings."
  const PreferredApi: string := "claude"

  /** `${content.url}-${content.timestamp}` for a page timestamp in
      milliseconds. */
  function CacheKey(url: string, timestamp: nat): (key: string)
    ensures |key| > |url| + 1 && key[..|url|] == url && key[|url|] == '-'
    ensures AllDigits(key[|url| + 1..]) && DigitsValue(key[|url| + 1..]) == timestamp
  {
    var key := url + "-" + NatToString(timestamp);
    assert key[|url| + 1..] == NatToString(timestamp);
    NatToStringRoundTrip(timestamp);
    key
  }

  /** Two pages share a cache entry only when they agree on both the address
      and the timestamp: the digits of the timestamp never hold a `-`, so the
      last `-` of the key is the one the key was built with. */
  lemma CacheKeyInjective(url1: string, t1: nat, url2: string, t2: nat)
    requires CacheKey(url1, t1) == CacheKey(url2, t2)
    ensures url1 == url2 && t1 == t2
  {
    var d1, d2 := NatToString(t1), NatToString(t2);
    var key := CacheKey(url1, t1);
    assert key == url1 + "-" + d1 == url2 + "-" + d2;
    assert |url1| == |url2|;
    assert url1 == key[..|url1|] == url2;
    assert d1 == key[|url1| + 1..] == d2;
    NatToStringInjective(t1, t2);
  }

  // ------------------------------------------------------------------
  // The cleanup, as functions of the cache before it

  /** `now - value.timestamp > MAX_AGE`; with no timestamp the difference is
      `NaN` and the comparison is false. */
  predicate Expired(now: int, timestamp: Option<int>): (b: bool)
    ensures timestamp.None? ==> !b
    ensures timestamp.Some? ==> (b <==> timestamp.value < now - MaxAge)
  {
    timestamp.Some? && now - timestamp.value > MaxAge
  }

  /** Once an entry is older than the limit it stays expired. */
  lemma ExpiredStaysExpired(now: int, later: int, timestamp: Option<int>)
    requires Expired(now, timestamp) && now <= later
    ensures Expired(later, timestamp)
  {
  }

  ghost predicate Distinct<K>(s: seq<K>) {
    forall i, j :: 0 <= i < j < |s| ==> s[i] != s[j]
  }

  /** The keys of `order` are the keys of `cache`. */
  ghost predicate SameKeys<K(!new)>(order: seq<K>, cache: map<K, CacheValue>) {
    forall k :: k in cache <==> k in order
  }

  /** The keys of `order` whose entries have not expired, in order: the
      `for...of` walk over `entries()` deleting as it goes. The order is
      generic in the key type so that its proofs stay small. */
  function SweepExpired<K>(order: seq<K>, cache: map<K, CacheValue>, now: int): (kept: seq<K>)
    ensures |kept| <= |order|
  {
    if order == [] then []
    else
      var last := order[|order| - 1];
      SweepExpired(order[..|order| - 1], cache, now)
        + (if last in cache && Expired(now, cache[last].timestamp) then [] else [last])
  }

  /** What `cleanupCache` leaves of the key order: the sweep, then the
      earliest key dropped if more than `MaxCacheSize` remain. */
  function CleanedOrder<K>(order: seq<K>, cache: map<K, CacheValue>, now: int): (r: seq<K>)
    ensures |r| <= |order| && |r| <= |SweepExpired(order, cache, now)|
    ensures IsSubsequence(r, order)
    ensures |SweepExpired(order, cache, now)| <= MaxCacheSize + 1 ==> |r| <= MaxCacheSize
    // of the keys the sweep leaves, only the earliest can go, and it goes
    // exactly when more than `MaxCacheSize` are left
    ensures |SweepExpired(order, cache, now)| - 1 <= |r|
    ensures |r| < |SweepExpired(order, cache, now)| <==> |SweepExpired(order, cache, now)| > MaxCacheSize
    ensures r == SweepExpired(order, cache, now)[|SweepExpired(order, cache, now)| - |r|..]
  {
    var kept := SweepExpired(order, cache, now);
    SweepIsSubsequence(order, cache, now);
    if |kept| > MaxCacheSize then
      SubsequenceWeaken(kept, order);
      kept[1..]
    else kept
  }

  /** The entries of `cache` whose keys are listed in `order`. */
  function Restrict<K(!new)>(cache: map<K, CacheValue>, order: seq<K>): (r: map<K, CacheValue>)
    ensures forall k :: k in r <==> k in cache && k in order
    ensures forall k :: k in r ==> r[k] == cache[k]
  {
    map k | k in cache && k in order :: cache[k]
  }

  /** The sweep keeps exactly the listed keys that have not expired. */
  lemma {:induction false} SweepKeepsExactlyLive<K>(order: seq<K>, cache: map<K, CacheValue>, now: int, k: K)
    requires forall x :: x in order ==> x in cache
    ensures k in SweepExpired(order, cache, now) <==> k in order && !Expired(now, cache[k].timestamp)
  {
    if order != [] {
      var init := order[..|order| - 1];
      assert order == init + [order[|order| - 1]];
      SweepKeepsExactlyLive(init, cache, now, k);
    }
  }

  /** The sweep keeps the surviving keys in their relative order. */
  lemma {:induction false} SweepIsSubsequence<K>(order: seq<K>, cache: map<K, CacheValue>, now: int)
    ensures IsSubsequence(SweepExpired(order, cache, now), order)
  {
    if order == [] {
    } else {
      var init := order[..|order| - 1];
      var last := order[|order| - 1];
      assert order == init + [last];
      SweepIsSubsequence(init, cache, now);
      var swept := SweepExpired(init, cache, now);
      if last in cache && Expired(now, cache[last].timestamp) {
        assert SweepExpired(order, cache, now) == swept + [] == swept;
        SubsequenceExtend(swept, init, [last]);
      } else {
        SubsequenceAppend(swept, init, [last]);
      }
    }
  }

  /** Without timestamps nothing is swept. */
  lemma {:induction false} SweepWithoutTimestamps<K>(order: seq<K>, cache: map<K, CacheValue>, now: int)
    requires forall x :: x in order ==> x in cache && cache[x].timestamp.None?
    ensures SweepExpired(order, cache, now) == order
  {
    if order != [] {
      var init := order[..|order| - 1];
      assert order == init + [order[|order| - 1]];
      SweepWithoutTimestamps(init, cache, now);
    }
  }

  /** A cache of at most `MaxCacheSize` entries still has at most that many
      after one insertion and a cleanup. */
  lemma InsertKeepsBound<K>(order: seq<K>, cache: map<K, CacheValue>, now: int)
    requires |order| <= MaxCacheSize + 1
    ensures |CleanedOrder(order, cache, now)| <= MaxCacheSize
  {
  }

  /** The age test never fires for the entries the analyzer stores, so once
      the cache is full each insertion evicts exactly the earliest entry. */
  lemma {:induction false} FullCacheEvictsOldest<K>(order: seq<K>, cache: map<K, CacheValue>, now: int)
    requires forall x :: x in order ==> x in cache && cache[x].timestamp.None?
    requires |order| == MaxCacheSize + 1
    ensures CleanedOrder(order, cache, now) == order[1..]
  {
    SweepWithoutTimestamps(order, cache, now);
  }

  /** Below the limit and without timestamps, cleanup changes nothing. */
  lemma {:induction false} CleanupKeepsSmallCache<K>(order: seq<K>, cache: map<K, CacheValue>, now: int)
    requires forall x :: x in order ==> x in cache && cache[x].timestamp.None?
    requires |order| <= MaxCacheSize
    ensures CleanedOrder(order, cache, now) == order
  {
    SweepWithoutTimestamps(order, cache, now);
  }

  /** No entry of `cache` carries a timestamp. */
  ghost predicate Untimed<K>(cache: map<K, CacheValue>) {
    forall k :: k in cache ==> cache[k].timestamp.None?
  }

  /** Adding an entry without a timestamp, or keeping only some entries,
      leaves a cache without timestamps. */
  lemma UntimedStaysUntimed<K(!new)>(cache: map<K, CacheValue>, key: K, v: CacheValue, order: seq<K>)
    requires Untimed(cache) && v.timestamp.None?
    ensures Untimed(cache[key := v])
    ensures Untimed(Restrict(cache[key := v], order))
  {
    var added := cache[key := v];
    assert forall k :: k in added ==> added[k].timestamp.None?;
  }

  /** Inserting an entry without a timestamp into a cache of at most
      `MaxCacheSize` entries none of which has one, then cleaning up, appends
      the key and evicts the earliest key exactly when the cache was full. */
  lemma InsertIsFirstInFirstOut<K(!new)>(order: seq<K>, cache: map<K, CacheValue>, key: K, v: CacheValue, now: int)
    requires SameKeys(order, cache) && |order| <= MaxCacheSize
    requires Untimed(cache) && v.timestamp.None?
    ensures |CleanedOrder(order + [key], cache[key := v], now)| <= MaxCacheSize
    ensures CleanedOrder(order + [key], cache[key := v], now)
              == if |order| == MaxCacheSize then (order + [key])[1..] else order + [key]
  {
    var added := cache[key := v];
    assert forall x :: x in order + [key] ==> x in added && added[x].timestamp.None?;
    if |order| == MaxCacheSize {
      FullCacheEvictsOldest(order + [key], added, now);
    } else {
      CleanupKeepsSmallCache(order + [key], added, now);
    }
  }

  /** A distinct key order lists as many keys as its map holds. */
  lemma {:induction false} DistinctCount<K(!new)>(order: seq<K>, cache: map<K, CacheValue>)
    requires Distinct(order) && SameKeys(order, cache)
    ensures |cache| == |order|
  {
    if order == [] {
      assert cache.Keys == {};
    } else {
      var last := order[|order| - 1];
      DropLast(order, cache);
      DistinctCount(order[..|order| - 1], cache - {last});
      assert cache.Keys == (cache - {last}).Keys + {last};
    }
  }

  /** Removing the last key from the order and its entry from the map keeps
      the two in step. */
  lemma DropLast<K(!new)>(order: seq<K>, cache: map<K, CacheValue>)
    requires order != [] && Distinct(order) && SameKeys(order, cache)
    ensures Distinct(order[..|order| - 1])
    ensures SameKeys(order[..|order| - 1], cache - {order[|order| - 1]})
    ensures order[|order| - 1] in cache && order[|order| - 1] !in order[..|order| - 1]
  {
    var init := order[..|order| - 1];
    var last := order[|order| - 1];
    assert order == init + [last];
    forall k
      ensures k in cache - {last} <==> k in init
    {
      assert k in order <==> k in init || k == last;
    }
  }

  /** The loop of `cleanupCache` over a `Map` given as its key order and
      its entries: walks the keys in insertion order, deleting each expired
      entry as it is reached. */
  method SweepEntries<K(!new)>(order0: seq<K>, cache0: map<K, CacheValue>, now: int)
    returns (order: seq<K>, cache: map<K, CacheValue>)
    requires Distinct(order0) && SameKeys(order0, cache0)
    ensures order == SweepExpired(order0, cache0, now)
    ensures cache == Restrict(cache0, order)
    ensures Distinct(order) && SameKeys(order, cache) && |cache| == |order|
  {
    order, cache := order0, cache0;
    var keys := order0;
    var i := 0;
    while i < |keys|
      invariant 0 <= i <= |keys|
      invariant order == SweepExpired(keys[..i], cache0, now) + keys[i..]
      invariant cache == SweepMap(keys[..i], cache0, now)
    {
      var key := keys[i];
      SweepWalk(keys, i, cache0, now, order);
      SweepMapStep(keys, i, cache0, now);
      if Expired(now, cache[key].timestamp) {
        // `delete(key)`: the key sits just before the part not yet walked
        var at := |order| - (|keys| - i);
        cache := cache - {key};
        order := order[..at] + order[at + 1..];
      }
      i := i + 1;
    }
    assert keys[..i] == order0 && keys[i..] == [];
    assert order == SweepExpired(order0, cache0, now) + [];
    SweepDone(order0, cache0, now);
  }

  /** Once every key has been walked, the order and the entries left are in
      step and the entries are those of the first map for the keys kept. */
  lemma SweepDone<K(!new)>(order0: seq<K>, cache0: map<K, CacheValue>, now: int)
    requires Distinct(order0) && SameKeys(order0, cache0)
    ensures var order, cache := SweepExpired(order0, cache0, now), SweepMap(order0, cache0, now);
      && cache == Restrict(cache0, order)
      && Distinct(order) && SameKeys(order, cache) && |cache| == |order|
  {
    var order, cache := SweepExpired(order0, cache0, now), SweepMap(order0, cache0, now);
    assert order0 + [] == order0;
    assert order + [] == order;
    SweepState(order0, [], cache0, now);
    SweepValues(order0, cache0, now);
    RestrictOfAgreeing(cache, cache0, order);
    DistinctCount(order, cache);
  }

  /** The entries left once the keys of `order` have been walked. */
  function SweepMap<K>(order: seq<K>, cache: map<K, CacheValue>, now: int): map<K, CacheValue> {
    if order == [] then cache
    else
      var last := order[|order| - 1];
      var m := SweepMap(order[..|order| - 1], cache, now);
      if last in cache && Expired(now, cache[last].timestamp) then m - {last} else m
  }

  /** Halfway through the walk, the keys walked and kept followed by the
      keys still to walk are distinct and are the keys of the entries
      left. */
  lemma {:induction false} SweepState<K(!new)>(prefix: seq<K>, rest: seq<K>, cache: map<K, CacheValue>, now: int)
    requires Distinct(prefix + rest) && SameKeys(prefix + rest, cache)
    ensures Distinct(SweepExpired(prefix, cache, now) + rest)
    ensures SameKeys(SweepExpired(prefix, cache, now) + rest, SweepMap(prefix, cache, now))
  {
    if prefix != [] {
      var init := prefix[..|prefix| - 1];
      var last := prefix[|prefix| - 1];
      assert prefix + rest == init + ([last] + rest);
      SweepState(init, [last] + rest, cache, now);
      var kept := SweepExpired(init, cache, now);
      if last in cache && Expired(now, cache[last].timestamp) {
        SweepDeleteState(kept, last, rest, SweepMap(init, cache, now));
        assert SweepExpired(prefix, cache, now) == kept + [] == kept;
        assert SweepMap(prefix, cache, now) == SweepMap(init, cache, now) - {last};
      } else {
        assert SweepExpired(prefix, cache, now) + rest == kept + ([last] + rest);
      }
    }
  }

  /** The deleting step of `SweepState`. */
  lemma SweepDeleteState<K(!new)>(kept: seq<K>, last: K, rest: seq<K>, m: map<K, CacheValue>)
    requires Distinct(kept + ([last] + rest)) && SameKeys(kept + ([last] + rest), m)
    ensures Distinct(kept + rest) && SameKeys(kept + rest, m - {last})
  {
    var order := kept + ([last] + rest);
    assert order[..|kept|] + order[|kept| + 1..] == kept + rest;
    DeleteAt(order, |kept|, m);
  }

  /** The entries the walk leaves keep their first values. */
  lemma {:induction false} SweepValues<K>(prefix: seq<K>, cache: map<K, CacheValue>, now: int)
    ensures forall k :: k in SweepMap(prefix, cache, now) ==> k in cache && SweepMap(prefix, cache, now)[k] == cache[k]
  {
    if prefix != [] {
      SweepValues(prefix[..|prefix| - 1], cache, now);
    }
  }

  /** One step of the walk over the entries: the key reached is still
      present with its first value. */
  lemma SweepMapStep<K(!new)>(keys: seq<K>, i: nat, cache: map<K, CacheValue>, now: int)
    requires i < |keys| && Distinct(keys) && SameKeys(keys, cache)
    ensures keys[i] in SweepMap(keys[..i], cache, now)
    ensures SweepMap(keys[..i], cache, now)[keys[i]] == cache[keys[i]]
    ensures SweepMap(keys[..i + 1], cache, now)
              == if Expired(now, cache[keys[i]].timestamp)
                 then SweepMap(keys[..i], cache, now) - {keys[i]}
                 else SweepMap(keys[..i], cache, now)
  {
    SweepReaches(keys, i, cache, now);
    SweepValues(keys[..i], cache, now);
    assert keys[..i + 1][..i] == keys[..i];
  }

  /** The key reached by the walk has not been deleted. */
  lemma SweepReaches<K(!new)>(keys: seq<K>, i: nat, cache: map<K, CacheValue>, now: int)
    requires i < |keys| && Distinct(keys) && SameKeys(keys, cache)
    ensures keys[i] in SweepMap(keys[..i], cache, now)
  {
    assert keys == keys[..i] + keys[i..];
    SweepState(keys[..i], keys[i..], cache, now);
    assert keys[i] in keys[i..];
  }

  /** Walking one more key extends the sweep by that key unless it has
      expired. */
  lemma SweepExpiredStep<K>(keys: seq<K>, i: nat, cache: map<K, CacheValue>, now: int)
    requires i < |keys| && keys[i] in cache
    ensures SweepExpired(keys[..i + 1], cache, now)
              == SweepExpired(keys[..i], cache, now) + (if Expired(now, cache[keys[i]].timestamp) then [] else [keys[i]])
  {
    assert keys[..i + 1][..i] == keys[..i];
    assert keys[..i + 1][i] == keys[i];
  }

  /** One step of the walk: the key at index `i` of the walked order sits
      just before the part not yet walked; deleting it, or keeping it,
      extends the sweep by that key. */
  lemma SweepWalk<K>(keys: seq<K>, i: nat, cache: map<K, CacheValue>, now: int, order: seq<K>)
    requires i < |keys| && keys[i] in cache
    requires order == SweepExpired(keys[..i], cache, now) + keys[i..]
    ensures |keys| - i <= |order|
    ensures order[|order| - (|keys| - i)] == keys[i]
    ensures Expired(now, cache[keys[i]].timestamp) ==>
              order[..|order| - (|keys| - i)] + order[|order| - (|keys| - i) + 1..]
                == SweepExpired(keys[..i + 1], cache, now) + keys[i + 1..]
    ensures !Expired(now, cache[keys[i]].timestamp) ==>
              order == SweepExpired(keys[..i + 1], cache, now) + keys[i + 1..]
  {
    SweepExpiredStep(keys, i, cache, now);
    var kept := SweepExpired(keys[..i], cache, now);
    var at := |order| - (|keys| - i);
    assert at == |kept|;
    assert keys[i..] == [keys[i]] + keys[i + 1..];
    assert order[..at] == kept;
    assert order[at + 1..] == keys[i + 1..];
    assert kept + [keys[i]] + keys[i + 1..] == kept + keys[i..];
  }

  /** Deleting the key at index `at` from the map and from the order keeps
      the two in step. */
  lemma DeleteAt<K(!new)>(order: seq<K>, at: nat, cache: map<K, CacheValue>)
    requires at < |order| && Distinct(order) && SameKeys(order, cache)
    ensures Distinct(order[..at] + order[at + 1..])
    ensures SameKeys(order[..at] + order[at + 1..], cache - {order[at]})
  {
    var rest := order[..at] + order[at + 1..];
    forall i, j | 0 <= i < j < |rest|
      ensures rest[i] != rest[j]
    {
      var i' := if i < at then i else i + 1;
      var j' := if j < at then j else j + 1;
      assert rest[i] == order[i'] && rest[j] == order[j'];
    }
    forall k
      ensures k in cache - {order[at]} <==> k in rest
    {
      if k in rest {
        var i :| 0 <= i < |rest| && rest[i] == k;
        var i' := if i < at then i else i + 1;
        assert order[i'] == k;
      }
      if k in order && k != order[at] {
        var i :| 0 <= i < |order| && order[i] == k;
        assert i != at;
        var i' := if i < at then i else i - 1;
        assert rest[i'] == k;
      }
    }
  }

  /** A map that agrees with `cache` and holds exactly the keys of `order`
      is the restriction of `cache` to `order`. */
  lemma RestrictOfAgreeing<K(!new)>(m: map<K, CacheValue>, cache: map<K, CacheValue>, order: seq<K>)
    requires SameKeys(order, m)
    requires forall k :: k in m ==> k in cache && m[k] == cache[k]
    ensures m == Restrict(cache, order)
  {
  }

  // ------------------------------------------------------------------
  // Reading the key and handling a page

  /** What `chrome.storage.local.get(['apiKey'])` gives: a failed read, or
      the stored key, where `""` also stands for an absent key. */
  datatype StorageRead = ReadFailed | Read(apiKey: string)

  /** The configuration `initializeAPI` sets from a storage read. */
  function ConfigFrom(stored: StorageRead): (config: Option<ApiConfig>)
    ensures HasKey(config) <==> stored.Read? && stored.apiKey != []
    ensures HasKey(config) ==> config == Some(ApiConfig(stored.apiKey, PreferredApi))
    ensures !HasKey(config) ==> config == None
  {
    match stored
    case ReadFailed => None
    case Read(key) => if key == [] then None else Some(ApiConfig(key, PreferredApi))
  }

  /** The error mapping of `handleContentAnalysis`: any failure whose message
      mentions `401` is reported as an invalid key. */
  function Remap(r: Result<AnalysisReport, string>): (out: Result<AnalysisReport, string>)
    ensures out.Success? <==> r.Success?
    ensures r.Success? ==> out == r
    ensures r.Failure? && Contains(r.error, "401") ==> out == Failure(InvalidKeyMessage)
    ensures r.Failure? && !Contains(r.error, "401") ==> out == r
  {
    if r.Failure? && Contains(r.error, "401") then Failure(InvalidKeyMessage) else r
  }

  /** An unknown status whose body mentions `401` (a gateway page quoting it,
      say) is reported to the user as an invalid key. */
  lemma UnknownStatusMentioning401(config: Option<ApiConfig>, status: nat, body: string, json: Result<JsValue, string>)
    requires HasKey(config) && !IsOk(status) && status !in {401, 403, 429, 500}
    requires Contains(body, "401")
    ensures Remap(AnalyzePolarization(config, Received(status, body, json))) == Failure(InvalidKeyMessage)
  {
    UnknownMessageMentionsBody(status, body, "401");
  }

  /** An unknown status whose message does not mention `401` reaches the
      user unchanged, status and body included. */
  lemma UnknownStatusPassesThrough(config: Option<ApiConfig>, status: nat, body: string, json: Result<JsValue, string>)
    requires HasKey(config) && !IsOk(status) && status !in {401, 403, 429, 500}
    requires !Contains(Message(Unknown(status, body)), "401")
    ensures Remap(AnalyzePolarization(config, Received(status, body, json))).Failure?
    ensures UnknownOfMessage(Remap(AnalyzePolarization(config, Received(status, body, json))).error)
              == Some((status, body))
  {
    UnknownMessageRoundTrip(status, body);
  }

  /** The analyzer of the background page. */
  class BackgroundAnalyzer {
    /** Keys of `analysisCache` in insertion order. */
    var cacheOrder: seq<string>
    /** Entries of `analysisCache`. */
    var cache: map<string, CacheValue>
    var apiConfig: Option<ApiConfig>

    ghost predicate Valid()
      reads this
    {
      Distinct(cacheOrder) && SameKeys(cacheOrder, cache) && |cacheOrder| <= MaxCacheSize &&
      // the analyzer stores every entry without a `timestamp`
      Untimed(cache)
    }

    /** The constructor starts an `initializeAPI` it does not await, so the
        analyzer begins with no configuration; `InitializeAPI` is the read
        completing. */
    constructor()
      ensures Valid() && cacheOrder == [] && cache == map[] && apiConfig == None
    {
      cacheOrder := [];
      cache := map[];
      apiConfig := None;
    }

    /** `initializeAPI`: a failed read or a missing key clears the
        configuration. */
    method InitializeAPI(stored: StorageRead)
      modifies this`apiConfig
      ensures apiConfig == ConfigFrom(stored)
    {
      match stored
      case ReadFailed =>
        apiConfig := None;
      case Read(key) =>
        if key == [] {
          apiConfig := None;
        } else {
          apiConfig := Some(ApiConfig(key, PreferredApi));
        }
    }

    /** `cleanupCache` at time `now`: drops the expired entries while
        walking the map in insertion order, then the earliest entry if more
        than `MaxCacheSize` remain. */
    method CleanupCache(now: int)
      requires Distinct(cacheOrder) && SameKeys(cacheOrder, cache)
      modifies this`cacheOrder, this`cache
      ensures cacheOrder == CleanedOrder(old(cacheOrder), old(cache), now)
      ensures cache == Restrict(old(cache), cacheOrder)
      ensures Distinct(cacheOrder) && SameKeys(cacheOrder, cache)
    {
      cacheOrder, cache := SweepEntries(cacheOrder, cache, now);
      if |cache| > MaxCacheSize {
        // `keys().next().value` is the earliest key still present
        DropFirst(cacheOrder, cache, old(cache));
        cache := cache - {cacheOrder[0]};
        cacheOrder := cacheOrder[1..];
      }
    }

    /** `analysisCache.set(cacheKey, analysis)` for a key not yet present,
        followed by `cleanupCache()`. */
    method StoreAnalysis(key: string, report: AnalysisReport, now: int)
      requires Valid() && key !in cache
      modifies this`cacheOrder, this`cache
      ensures Valid()
      ensures cacheOrder == CleanedOrder(old(cacheOrder) + [key], old(cache)[key := CacheValue(report, None)], now)
      ensures cache == Restrict(old(cache)[key := CacheValue(report, None)], cacheOrder)
      // no entry ever expires, so the cache is first-in first-out
      ensures cacheOrder == if |old(cacheOrder)| == MaxCacheSize then (old(cacheOrder) + [key])[1..]
                            else old(cacheOrder) + [key]
    {
      AppendKey(cacheOrder, cache, key, CacheValue(report, None));
      cache := cache[key := CacheValue(report, None)];
      cacheOrder := cacheOrder + [key];
      InsertIsFirstInFirstOut(old(cacheOrder), old(cache), key, CacheValue(report, None), now);
      CleanupCache(now);
      UntimedStaysUntimed(old(cache), key, CacheValue(report, None), cacheOrder);
    }

    /** `handleContentAnalysis` for the page `url` captured at `timestamp`:
        `stored` is what a storage read gives if the configuration has to be
        read again, `reply` the outcome of the request `analyzePolarization`
        makes, `now` the clock during the cleanup. */
    method HandleContentAnalysis(url: string, timestamp: nat, stored: StorageRead, reply: Reply, now: int)
      returns (r: Result<AnalysisReport, string>)
      requires Valid()
      modifies this
      ensures Valid()
      ensures apiConfig == if HasKey(old(apiConfig)) then old(apiConfig) else ConfigFrom(stored)
      ensures !HasKey(apiConfig) ==> r == Failure(ConfigErrorMessage)
      ensures HasKey(apiConfig) && CacheKey(url, timestamp) in old(cache) ==>
                r == Success(old(cache)[CacheKey(url, timestamp)].report)
      ensures HasKey(apiConfig) && CacheKey(url, timestamp) !in old(cache) ==>
                r == Remap(AnalyzePolarization(apiConfig, reply))
      ensures r.Failure? || CacheKey(url, timestamp) in old(cache) ==>
                cacheOrder == old(cacheOrder) && cache == old(cache)
      ensures r.Success? && CacheKey(url, timestamp) !in old(cache) ==>
                var added := old(cache)[CacheKey(url, timestamp) := CacheValue(r.value, None)];
                cacheOrder == CleanedOrder(old(cacheOrder) + [CacheKey(url, timestamp)], added, now) &&
                cache == Restrict(added, cacheOrder)
    {
      if !HasKey(apiConfig) {
        InitializeAPI(stored);
        if !HasKey(apiConfig) {
          return Failure(ConfigErrorMessage);
        }
      }
      r := LookupOrStore(CacheKey(url, timestamp), Remap(AnalyzePolarization(apiConfig, reply)), now);
    }

    /** The part of `handleContentAnalysis` after the configuration check:
        a cached report for `key` is returned as it is; otherwise `analysis`,
        the outcome of analyzing the page with its errors remapped, is
        returned and, when it is a report, stored under `key`. */
    method LookupOrStore(key: string, analysis: Result<AnalysisReport, string>, now: int)
      returns (r: Result<AnalysisReport, string>)
      requires Valid()
      modifies this`cacheOrder, this`cache
      ensures Valid()
      ensures key in old(cache) ==> r == Success(old(cache)[key].report)
      ensures key !in old(cache) ==> r == analysis
      ensures r.Failure? || key in old(cache) ==> cacheOrder == old(cacheOrder) && cache == old(cache)
      ensures r.Success? && key !in old(cache) ==>
                cacheOrder == CleanedOrder(old(cacheOrder) + [key], old(cache)[key := CacheValue(r.value, None)], now) &&
                cache == Restrict(old(cache)[key := CacheValue(r.value, None)], cacheOrder)
    {
      if key in cache {
        return Success(cache[key].report);
      }
      r := analysis;
      if r.Success? {
        StoreAnalysis(key, r.value, now);
      }
    }
  }

  /** Appending a new key to the order and its entry to the map keeps the
      two in step. */
  lemma AppendKey<K(!new)>(order: seq<K>, cache: map<K, CacheValue>, key: K, v: CacheValue)
    requires Distinct(order) && SameKeys(order, cache) && key !in cache
    ensures Distinct(order + [key]) && SameKeys(order + [key], cache[key := v])
  {
  }

  /** Deleting the earliest key keeps the order and the map in step. */
  lemma DropFirst<K(!new)>(order: seq<K>, cache: map<K, CacheValue>, cache0: map<K, CacheValue>)
    requires order != [] && Distinct(order) && SameKeys(order, cache) && cache == Restrict(cache0, order)
    ensures Distinct(order[1..]) && SameKeys(order[1..], cache - {order[0]})
    ensures cache - {order[0]} == Restrict(cache0, order[1..])
  {
    DeleteAt(order, 0, cache);
    assert order[..0] + order[1..] == order[1..];
  }

  // ------------------------------------------------------------------
  // Badge

  datatype Badge = Badge(text: string, color: string)

  const WarningThreshold: int := 70

  /** `badges[status]` of `updateBadge`; a status outside the table has no
      badge (reading its text then throws). */
  function BadgeFor(status: string, score: int): (b: Option<Badge>)
    ensures b.Some? <==> status in {"analyzing", "ready", "error"}
    ensures status == "ready" ==> b.Some? && (b.value.text == "!" <==> score > WarningThreshold)
    ensures status == "ready" ==> b.Some? && (b.value.color == "#FFB100" <==> score > WarningThreshold)
    ensures status == "ready" && score <= WarningThreshold ==> b == Some(Badge("\U{2713}", "#8BC34A"))
    ensures status == "analyzing" ==> b == Some(Badge("...", "#808080"))
    ensures status == "error" ==> b == Some(Badge("\U{D7}", "#FF4444"))
  {
    if status == "analyzing" then Some(Badge("...", "#808080"))
    else if status == "ready" then
      if score > WarningThreshold then Some(Badge("!", "#FFB100")) else Some(Badge("\U{2713}", "#8BC34A"))
    else if status == "error" then Some(Badge("\U{D7}", "#FF4444"))
    else None
  }
}
