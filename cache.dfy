/**
 * The expiring bucketed cache of src/cache.rs: a map from key to a bounded
 * deque of timestamped entries, trimmed from the front on insert and popped
 * from the back with lazy expiry.
 *
 * The monotonic clock (`Instant`) is an explicit `now: nat` argument and the
 * time-to-live a `nat` in the same unit.  An entry is live iff its age is
 * strictly below the time-to-live.
 */
module Cache {
  import opened Wrappers

  /** One cached value and the clock reading at which it was inserted. */
  datatype Entry<V> = Entry(value: V, insertedAt: nat)

  /** Time elapsed since insertion; saturates at zero, like `Instant::elapsed`. */
  function Age<V>(e: Entry<V>, now: nat): (age: nat)
    ensures now >= e.insertedAt ==> e.insertedAt + age == now
    ensures now <= e.insertedAt ==> age == 0
  {
    if now >= e.insertedAt then now - e.insertedAt else 0
  }

  /** The liveness test used by `pop`, `len_for`, `total_len` and `clean_expired`. */
  predicate IsLive<V>(e: Entry<V>, now: nat, ttl: nat)
    // A reading taken before the insertion counts as age zero.
    ensures now <= e.insertedAt ==> (IsLive(e, now, ttl) <==> ttl > 0)
    ensures ttl == 0 ==> !IsLive(e, now, ttl)
  {
    Age(e, now) < ttl
  }

  lemma LiveIsStrict<V>(e: Entry<V>, now: nat, ttl: nat)
    requires now >= e.insertedAt
    ensures IsLive(e, now, ttl) <==> now < e.insertedAt + ttl
    ensures now == e.insertedAt + ttl ==> !IsLive(e, now, ttl)
  {
  }

  // ---------------------------------------------------------------------------
  // Buckets: insertion and trimming
  // ---------------------------------------------------------------------------

  /** The last `n` entries of `s` (all of `s` when it is short enough). */
  function KeepNewest<V>(s: seq<Entry<V>>, n: nat): (r: seq<Entry<V>>)
    ensures |r| == if |s| <= n then |s| else n
    ensures r == s[|s| - |r|..]
  {
    if |s| <= n then s else s[|s| - n..]
  }

  /** The bucket after `insert`: `e` pushed at the back, then the front dropped
    * while the bucket is longer than `maxLen`. */
  function Inserted<V>(b: seq<Entry<V>>, e: Entry<V>, maxLen: nat): (r: seq<Entry<V>>)
    ensures |r| <= maxLen
    ensures maxLen > 0 ==> |r| > 0 && r[|r| - 1] == e
  {
    KeepNewest(b + [e], maxLen)
  }

  /** The bucket a key maps to; an absent key behaves as an empty bucket
    * (`or_insert_with(VecDeque::new)`). */
  function BucketOf<K, V>(m: map<K, seq<Entry<V>>>, key: K): seq<Entry<V>> {
    if key in m then m[key] else []
  }

  lemma InsertedShape<V>(b: seq<Entry<V>>, e: Entry<V>, maxLen: nat)
    ensures |Inserted(b, e, maxLen)| <= maxLen
    ensures |b| < maxLen ==> Inserted(b, e, maxLen) == b + [e]
    ensures maxLen > 0 ==> |Inserted(b, e, maxLen)| > 0 && Inserted(b, e, maxLen)[|Inserted(b, e, maxLen)| - 1] == e
    ensures |b| >= maxLen ==> Inserted(b, e, maxLen) == (b + [e])[|b| + 1 - maxLen..]
  {
  }

  /** Trimming a suffix that is at least as long as the target keeps the same
    * newest entries as trimming the whole sequence. */
  lemma KeepNewestOfSuffix<V>(w: seq<Entry<V>>, u: seq<Entry<V>>, n: nat)
    requires |u| <= |w| && u == w[|w| - |u|..]
    requires |u| >= n || |u| == |w|
    ensures KeepNewest(u, n) == KeepNewest(w, n)
  {
    if |u| == |w| {
      assert u == w;
    } else {
      assert KeepNewest(u, n) == u[|u| - n..];
      assert KeepNewest(w, n) == w[|w| - n..];
      forall i | |u| - n <= i < |u| ensures u[i] == w[|w| - |u| + i] {
      }
      assert u[|u| - n..] == w[|w| - n..];
    }
  }

  /** Dropping from the front until at most `n` remain leaves `KeepNewest`. */
  lemma FrontTrimmed<V>(full: seq<Entry<V>>, dropped: nat, n: nat)
    requires dropped <= |full| && |full| - dropped <= n
    requires dropped == 0 || |full| - dropped >= n
    ensures full[dropped..] == KeepNewest(full, n)
  {
  }

  /** Inserting the entries of `es` one at a time, in order. */
  function InsertAll<V>(b: seq<Entry<V>>, es: seq<Entry<V>>, maxLen: nat): seq<Entry<V>>
    decreases |es|
  {
    if es == [] then b else InsertAll(Inserted(b, es[0], maxLen), es[1..], maxLen)
  }

  /** Trimming before appending more entries keeps the same newest ones as
    * trimming once at the end. */
  lemma KeepNewestAppend<V>(w: seq<Entry<V>>, u: seq<Entry<V>>, n: nat)
    ensures KeepNewest(KeepNewest(w, n) + u, n) == KeepNewest(w + u, n)
  {
    var k := KeepNewest(w, n);
    var whole, tail := w + u, k + u;
    assert tail == whole[|whole| - |tail|..] by {
      forall i | 0 <= i < |tail| ensures tail[i] == whole[|whole| - |tail| + i] {
        if i < |k| {
          assert tail[i] == w[|w| - |k| + i];
        } else {
          assert tail[i] == u[i - |k|];
        }
      }
    }
    KeepNewestOfSuffix(whole, tail, n);
  }

  /** Depth property: after any sequence of inserts into a bucket that starts
    * within bounds, the bucket holds exactly the `maxLen` most recently
    * inserted entries, oldest first. */
  lemma {:induction false} InsertAllKeepsNewest<V>(b: seq<Entry<V>>, es: seq<Entry<V>>, maxLen: nat)
    requires |b| <= maxLen
    ensures InsertAll(b, es, maxLen) == KeepNewest(b + es, maxLen)
    decreases |es|
  {
    if es == [] {
      assert b + es == b;
    } else {
      InsertAllKeepsNewest(Inserted(b, es[0], maxLen), es[1..], maxLen);
      KeepNewestAppend(b + [es[0]], es[1..], maxLen);
      assert b + [es[0]] + es[1..] == b + es;
    }
  }

  // ---------------------------------------------------------------------------
  // Buckets: ordering by insertion time
  // ---------------------------------------------------------------------------

  /** Oldest entry first: what a bucket looks like under a non-decreasing clock. */
  predicate OldestFirst<V>(b: seq<Entry<V>>) {
    forall i, j :: 0 <= i < j < |b| ==> b[i].insertedAt <= b[j].insertedAt
  }

  /** Every entry of the bucket was inserted no later than `now`. */
  predicate NotAfter<V>(b: seq<Entry<V>>, now: nat) {
    forall i :: 0 <= i < |b| ==> b[i].insertedAt <= now
  }

  /** With a non-decreasing clock, `insert` keeps a bucket oldest-first. */
  lemma InsertKeepsOldestFirst<V>(b: seq<Entry<V>>, v: V, now: nat, maxLen: nat)
    requires OldestFirst(b) && NotAfter(b, now)
    ensures OldestFirst(Inserted(b, Entry(v, now), maxLen))
    ensures NotAfter(Inserted(b, Entry(v, now), maxLen), now)
  {
    var full := b + [Entry(v, now)];
    assert OldestFirst(full);
    var r := Inserted(b, Entry(v, now), maxLen);
    assert r == full[|full| - |r|..];
    forall i, j | 0 <= i < j < |r| ensures r[i].insertedAt <= r[j].insertedAt {
      assert r[i] == full[|full| - |r| + i] && r[j] == full[|full| - |r| + j];
    }
    forall i | 0 <= i < |r| ensures r[i].insertedAt <= now {
      assert r[i] == full[|full| - |r| + i];
    }
  }

  /** In an oldest-first bucket, an entry newer than a live one is live. */
  lemma LiveIsUpwardClosed<V>(b: seq<Entry<V>>, now: nat, ttl: nat, i: nat, j: nat)
    requires OldestFirst(b) && i <= j < |b| && IsLive(b[i], now, ttl)
    ensures IsLive(b[j], now, ttl)
  {
  }

  // ---------------------------------------------------------------------------
  // Buckets: lazy expiry
  // ---------------------------------------------------------------------------

  /** The live entries of a bucket, in bucket order (`retain`, `filter`). */
  function LiveEntries<V>(b: seq<Entry<V>>, now: nat, ttl: nat): (r: seq<Entry<V>>)
    ensures |r| <= |b|
    ensures forall i :: 0 <= i < |r| ==> IsLive(r[i], now, ttl)
    decreases |b|
  {
    if b == [] then []
    else
      var last := b[|b| - 1];
      LiveEntries(b[..|b| - 1], now, ttl) + (if IsLive(last, now, ttl) then [last] else [])
  }

  /** The positions of the live entries of a bucket: an independent way to
    * count them. */
  ghost function LiveIndices<V>(b: seq<Entry<V>>, now: nat, ttl: nat): set<nat> {
    set i: nat | i < |b| && IsLive(b[i], now, ttl)
  }

  lemma LiveIndicesSnoc<V>(b: seq<Entry<V>>, now: nat, ttl: nat)
    requires b != []
    ensures LiveIndices(b, now, ttl)
            == LiveIndices(b[..|b| - 1], now, ttl) + (if IsLive(b[|b| - 1], now, ttl) then {|b| - 1} else {})
    ensures |b| - 1 !in LiveIndices(b[..|b| - 1], now, ttl)
  {
    var init := b[..|b| - 1];
    forall i: nat | i < |init| ensures b[i] == init[i] { }
  }

  lemma {:induction false} LiveEntriesCount<V>(b: seq<Entry<V>>, now: nat, ttl: nat)
    ensures |LiveEntries(b, now, ttl)| == |LiveIndices(b, now, ttl)|
    decreases |b|
  {
    if b != [] {
      var init := b[..|b| - 1];
      LiveEntriesCount(init, now, ttl);
      LiveIndicesSnoc(b, now, ttl);
    }
  }

  /** A bucket whose entries are all live is left as it is by the sweep. */
  lemma {:induction false} LiveEntriesOfLive<V>(b: seq<Entry<V>>, now: nat, ttl: nat)
    requires forall i :: 0 <= i < |b| ==> IsLive(b[i], now, ttl)
    ensures LiveEntries(b, now, ttl) == b
    decreases |b|
  {
    if b != [] {
      LiveEntriesOfLive(b[..|b| - 1], now, ttl);
      assert b[..|b| - 1] + [b[|b| - 1]] == b;
    }
  }

  /** Sweeping twice is sweeping once. */
  lemma LiveEntriesIdempotent<V>(b: seq<Entry<V>>, now: nat, ttl: nat)
    ensures LiveEntries(LiveEntries(b, now, ttl), now, ttl) == LiveEntries(b, now, ttl)
  {
    LiveEntriesOfLive(LiveEntries(b, now, ttl), now, ttl);
  }

  /** A bucket with no live entry sweeps to nothing. */
  lemma {:induction false} LiveEntriesOfExpired<V>(b: seq<Entry<V>>, now: nat, ttl: nat)
    requires forall i :: 0 <= i < |b| ==> !IsLive(b[i], now, ttl)
    ensures LiveEntries(b, now, ttl) == []
    decreases |b|
  {
    if b != [] {
      var init := b[..|b| - 1];
      assert forall i :: 0 <= i < |init| ==> init[i] == b[i];
      LiveEntriesOfExpired(init, now, ttl);
    }
  }

  /** In an oldest-first bucket the expired entries form a prefix: the sweep
    * keeps exactly a suffix, and everything before it is expired. */
  lemma {:induction false} ExpiredFormPrefix<V>(b: seq<Entry<V>>, now: nat, ttl: nat)
    requires OldestFirst(b)
    ensures LiveEntries(b, now, ttl) == b[|b| - |LiveEntries(b, now, ttl)|..]
    ensures forall j :: 0 <= j < |b| - |LiveEntries(b, now, ttl)| ==> !IsLive(b[j], now, ttl)
    decreases |b|
  {
    if b != [] {
      var init := b[..|b| - 1];
      var last := b[|b| - 1];
      assert OldestFirst(init);
      if IsLive(last, now, ttl) {
        ExpiredFormPrefix(init, now, ttl);
        var k := |init| - |LiveEntries(init, now, ttl)|;
        assert forall j :: 0 <= j < k ==> b[j] == init[j];
        assert init[k..] + [last] == b[k..];
      } else {
        forall j | 0 <= j < |b| ensures !IsLive(b[j], now, ttl) {
          if IsLive(b[j], now, ttl) {
            LiveIsUpwardClosed(b, now, ttl, j, |b| - 1);
          }
        }
        LiveEntriesOfExpired(b, now, ttl);
      }
    }
  }

  /** `pop` on one bucket: scan from the back, discarding expired entries,
    * and stop at the first live one.  Returns the popped value and the bucket
    * left behind. */
  function PopBucket<V>(b: seq<Entry<V>>, now: nat, ttl: nat): (r: (Option<V>, seq<Entry<V>>))
    // The bucket left behind is a prefix of the original one.
    ensures |r.1| <= |b| && r.1 == b[..|r.1|]
    // Nothing live: the bucket is emptied and nothing is returned.
    ensures r.0 == None <==> forall j :: 0 <= j < |b| ==> !IsLive(b[j], now, ttl)
    ensures r.0 == None ==> r.1 == []
    // Otherwise the newest live entry is returned, it and every newer
    // (expired) entry are gone, and every older entry stays in place.
    ensures r.0 != None ==>
              |r.1| < |b| && IsLive(b[|r.1|], now, ttl) && r.0 == Some(b[|r.1|].value)
              && forall j :: |r.1| < j < |b| ==> !IsLive(b[j], now, ttl)
    decreases |b|
  {
    if b == [] then (None, [])
    else if IsLive(b[|b| - 1], now, ttl) then (Some(b[|b| - 1].value), b[..|b| - 1])
    else PopBucket(b[..|b| - 1], now, ttl)
  }

  /** TTL property: a bucket holding only an entry inserted at `t0` yields it
    * at every `t < t0 + ttl` and never at `t >= t0 + ttl`. */
  lemma PopSingleEntry<V>(v: V, t0: nat, t: nat, ttl: nat)
    requires t >= t0
    ensures PopBucket([Entry(v, t0)], t, ttl).0 == (if t < t0 + ttl then Some(v) else None)
    ensures PopBucket([Entry(v, t0)], t, ttl).1 == []
  {
  }

  /** `pop` at the level of the whole map of buckets. */
  function PopFrom<K, V>(m: map<K, seq<Entry<V>>>, key: K, now: nat, ttl: nat): (r: (Option<V>, map<K, seq<Entry<V>>>))
    ensures r.1.Keys == m.Keys
    ensures forall k :: k in m && k != key ==> r.1[k] == m[k]
    ensures key !in m ==> r == (None, m)
    ensures key in m ==> (r.0, r.1[key]) == PopBucket(m[key], now, ttl)
  {
    if key in m then
      var (v, rest) := PopBucket(m[key], now, ttl);
      (v, m[key := rest])
    else (None, m)
  }

  /** A popped bucket stays oldest-first. */
  lemma PopKeepsOldestFirst<V>(b: seq<Entry<V>>, now: nat, ttl: nat)
    requires OldestFirst(b)
    ensures OldestFirst(PopBucket(b, now, ttl).1)
  {
    var rest := PopBucket(b, now, ttl).1;
    forall i, j | 0 <= i < j < |rest| ensures rest[i].insertedAt <= rest[j].insertedAt {
      assert rest[i] == b[i] && rest[j] == b[j];
    }
  }

  // ---------------------------------------------------------------------------
  // Sums over all buckets
  // ---------------------------------------------------------------------------

  /** The sum of `m[k]` over the keys `k` in `keys` (the order of summation
    * is immaterial, see SumOverRemove). */
  ghost function SumOver<K>(m: map<K, nat>, keys: set<K>): nat
    requires keys <= m.Keys
    decreases keys
  {
    if keys == {} then 0
    else
      var k := Pick(keys);
      m[k] + SumOver(m, keys - {k})
  }

  /** Some element of a non-empty set. */
  ghost function Pick<K>(keys: set<K>): (k: K)
    requires keys != {}
    ensures k in keys
  {
    var k :| k in keys; k
  }

  /** The sum of all the values of a map of counts. */
  ghost function Sum<K>(m: map<K, nat>): nat {
    SumOver(m, m.Keys)
  }

  /** Any key can be summed first. */
  lemma {:induction false} SumOverRemove<K>(m: map<K, nat>, keys: set<K>, k: K)
    requires keys <= m.Keys && k in keys
    ensures SumOver(m, keys) == m[k] + SumOver(m, keys - {k})
    decreases keys
  {
    var j := Pick(keys);
    if j != k {
      SumOverRemove(m, keys - {j}, k);
      SumOverRemove(m, keys - {k}, j);
      assert keys - {j} - {k} == keys - {k} - {j};
    }
  }

  /** Number of entries of each bucket, expired or not. */
  function Sizes<K, V>(m: map<K, seq<Entry<V>>>): map<K, nat> {
    map k | k in m :: |m[k]|
  }

  /** Number of live entries of each bucket. */
  function LiveCounts<K, V>(m: map<K, seq<Entry<V>>>, now: nat, ttl: nat): map<K, nat> {
    map k | k in m :: |LiveEntries(m[k], now, ttl)|
  }

  /** Every bucket swept of its expired entries; no key is removed. */
  function Cleaned<K, V>(m: map<K, seq<Entry<V>>>, now: nat, ttl: nat): (r: map<K, seq<Entry<V>>>)
    ensures r.Keys == m.Keys
    ensures forall k, i :: k in r && 0 <= i < |r[k]| ==> IsLive(r[k][i], now, ttl)
  {
    map k | k in m :: LiveEntries(m[k], now, ttl)
  }

  /** After a sweep every remaining entry is live, so the live count equals
    * the entry count, and sweeping again changes nothing. */
  lemma CleanedIsFixed<K, V>(m: map<K, seq<Entry<V>>>, now: nat, ttl: nat)
    ensures LiveCounts(Cleaned(m, now, ttl), now, ttl) == Sizes(Cleaned(m, now, ttl))
    ensures Cleaned(Cleaned(m, now, ttl), now, ttl) == Cleaned(m, now, ttl)
    ensures Sizes(Cleaned(m, now, ttl)) == LiveCounts(m, now, ttl)
  {
    var c := Cleaned(m, now, ttl);
    CleanedBucketsStay(m, now, ttl);
    CleanedLiveCounts(c, now, ttl);
    CleanedAgain(c, now, ttl);
    CleanedSizes(m, now, ttl);
  }

  /** Every bucket left by a sweep is all live. */
  lemma CleanedBucketsStay<K, V>(m: map<K, seq<Entry<V>>>, now: nat, ttl: nat)
    ensures forall k :: k in Cleaned(m, now, ttl) ==>
              LiveEntries(Cleaned(m, now, ttl)[k], now, ttl) == Cleaned(m, now, ttl)[k]
  {
    var c := Cleaned(m, now, ttl);
    forall k | k in c ensures LiveEntries(c[k], now, ttl) == c[k] {
      LiveEntriesOfLive(c[k], now, ttl);
    }
  }

  lemma CleanedLiveCounts<K, V>(c: map<K, seq<Entry<V>>>, now: nat, ttl: nat)
    requires forall k :: k in c ==> LiveEntries(c[k], now, ttl) == c[k]
    ensures LiveCounts(c, now, ttl) == Sizes(c)
  {
    var l, z := LiveCounts(c, now, ttl), Sizes(c);
    assert l.Keys == z.Keys;
    forall k | k in l ensures l[k] == z[k] {
    }
  }

  lemma CleanedAgain<K, V>(c: map<K, seq<Entry<V>>>, now: nat, ttl: nat)
    requires forall k :: k in c ==> LiveEntries(c[k], now, ttl) == c[k]
    ensures Cleaned(c, now, ttl) == c
  {
    var d := Cleaned(c, now, ttl);
    assert d.Keys == c.Keys;
    forall k | k in d ensures d[k] == c[k] {
    }
  }

  lemma CleanedSizes<K, V>(m: map<K, seq<Entry<V>>>, now: nat, ttl: nat)
    ensures Sizes(Cleaned(m, now, ttl)) == LiveCounts(m, now, ttl)
  {
    var z, l := Sizes(Cleaned(m, now, ttl)), LiveCounts(m, now, ttl);
    assert z.Keys == l.Keys;
    forall k | k in z ensures z[k] == l[k] {
    }
  }

  // ---------------------------------------------------------------------------
  // The cache object
  // ---------------------------------------------------------------------------

  /** `ExpiringCache<K, V>`: `ttl` and `maxLen` are fixed at construction; the
    * buckets are updated in place. */
  class ExpiringCache<K(==), V> {
    const ttl: nat
    const maxLen: nat
    var buckets: map<K, seq<Entry<V>>>

    /** No bucket is ever longer than `maxLen`. */
    ghost predicate Valid()
      reads this
    {
      forall k :: k in buckets ==> |buckets[k]| <= maxLen
    }

    constructor (ttl: nat, maxLen: nat)
      ensures Valid()
      ensures this.ttl == ttl && this.maxLen == maxLen && buckets == map[]
    {
      this.ttl := ttl;
      this.maxLen := maxLen;
      buckets := map[];
    }

    /** Push a timestamped entry at the back of the key's bucket, then drop
      * from the front until the bucket fits.  Only that key's bucket changes. */
    method Insert(key: K, value: V, now: nat)
      requires Valid()
      modifies this
      ensures Valid()
      ensures buckets == old(buckets)[key := Inserted(BucketOf(old(buckets), key), Entry(value, now), maxLen)]
    {
      var bucket := if key in buckets then buckets[key] else [];
      bucket := bucket + [Entry(value, now)];
      ghost var full, dropped := bucket, 0;
      while |bucket| > maxLen
        invariant dropped <= |full| && bucket == full[dropped..]
        invariant dropped == 0 || |bucket| >= maxLen
        decreases |bucket|
      {
        bucket := bucket[1..];
        dropped := dropped + 1;
      }
      FrontTrimmed(full, dropped, maxLen);
      buckets := buckets[key := bucket];
    }

    /** Scan the key's bucket from the back, discarding expired entries, and
      * return the first live one (removed too).  An absent key changes nothing. */
    method Pop(key: K, now: nat) returns (r: Option<V>)
      requires Valid()
      modifies this
      ensures Valid()
      ensures (r, buckets) == PopFrom(old(buckets), key, now, ttl)
    {
      if key in buckets {
        while buckets[key] != []
          invariant key in buckets && buckets == old(buckets)[key := buckets[key]]
          invariant PopBucket(buckets[key], now, ttl) == PopBucket(old(buckets)[key], now, ttl)
          invariant Valid()
          decreases |buckets[key]|
        {
          var b := buckets[key];
          var entry := b[|b| - 1];
          buckets := buckets[key := b[..|b| - 1]];
          if IsLive(entry, now, ttl) {
            assert PopBucket(b, now, ttl) == (Some(entry.value), b[..|b| - 1]);
            assert buckets == old(buckets)[key := b[..|b| - 1]];
            return Some(entry.value);
          }
        }
      }
      return None;
    }

    /** Number of live entries for `key` (0 for an absent key); reads only. */
    function LenFor(key: K, now: nat): (n: nat)
      reads this
      ensures key !in buckets ==> n == 0
      ensures key in buckets ==> n <= |buckets[key]| && n == |LiveIndices(buckets[key], now, ttl)|
    {
      if key in buckets then
        LiveEntriesCount(buckets[key], now, ttl);
        |LiveEntries(buckets[key], now, ttl)|
      else 0
    }

    /** Number of live entries over all keys; reads only. */
    method TotalLen(now: nat) returns (n: nat)
      ensures n == Sum(LiveCounts(buckets, now, ttl))
    {
      ghost var counts := LiveCounts(buckets, now, ttl);
      assert counts.Keys == buckets.Keys;
      n := 0;
      var todo := buckets.Keys;
      while todo != {}
        invariant todo <= buckets.Keys
        invariant n + SumOver(counts, todo) == Sum(counts)
        decreases todo
      {
        var k :| k in todo;
        SumOverRemove(counts, todo, k);
        n := n + LenFor(k, now);
        todo := todo - {k};
      }
    }

    /** Sweep every bucket, keeping only live entries.  Returns how many
      * entries were removed and how many remain; keys are never removed. */
    method CleanExpired(now: nat) returns (removed: nat, remaining: nat)
      requires Valid()
      modifies this
      ensures Valid()
      ensures buckets == Cleaned(old(buckets), now, ttl)
      ensures removed + remaining == Sum(Sizes(old(buckets)))
      ensures remaining == Sum(Sizes(buckets))
    {
      ghost var start := buckets;
      ghost var before := Sizes(start);
      ghost var after := Sizes(Cleaned(start, now, ttl));
      assert before.Keys == after.Keys == start.Keys;
      removed, remaining := 0, 0;
      var todo := buckets.Keys;
      assert buckets == Swept(start, todo, now, ttl);
      while todo != {}
        invariant todo <= start.Keys
        invariant buckets == Swept(start, todo, now, ttl)
        invariant removed + remaining + SumOver(before, todo) == Sum(before)
        invariant remaining + SumOver(after, todo) == Sum(after)
        decreases todo
      {
        var k :| k in todo;
        SumOverRemove(before, todo, k);
        SumOverRemove(after, todo, k);
        var bucket := buckets[k];
        var kept := LiveEntries(bucket, now, ttl);
        removed := removed + (|bucket| - |kept|);
        remaining := remaining + |kept|;
        SweptStep(start, todo, k, now, ttl);
        buckets := buckets[k := kept];
        todo := todo - {k};
      }
      assert Swept(start, {}, now, ttl) == Cleaned(start, now, ttl);
    }
  }

  /** The map of buckets part-way through the sweep: the keys in `todo` are
    * not swept yet. */
  function Swept<K, V>(m: map<K, seq<Entry<V>>>, todo: set<K>, now: nat, ttl: nat): map<K, seq<Entry<V>>> {
    map k | k in m :: if k in todo then m[k] else LiveEntries(m[k], now, ttl)
  }

  lemma SweptStep<K, V>(m: map<K, seq<Entry<V>>>, todo: set<K>, k: K, now: nat, ttl: nat)
    requires k in todo && todo <= m.Keys
    ensures Swept(m, todo, now, ttl)[k := LiveEntries(m[k], now, ttl)] == Swept(m, todo - {k}, now, ttl)
  {
  }

  // ---------------------------------------------------------------------------
  // The scenarios of tests/cache_tests.rs
  // ---------------------------------------------------------------------------

  /** Three inserts under `max_len` 2 keep the newest two; popping yields the
    * newest first, then the older one, then nothing. */
  method TruncateThenPopScenario() returns (len: nat, first: Option<int>, second: Option<int>, third: Option<int>)
    ensures len == 2
    ensures first == Some(3) && second == Some(2) && third == None
  {
    var cache := new ExpiringCache<string, int>(1000, 2);
    cache.Insert("size", 1, 0);
    cache.Insert("size", 2, 0);
    cache.Insert("size", 3, 0);
    assert cache.buckets["size"] == [Entry(2, 0), Entry(3, 0)];
    len := cache.LenFor("size", 0);
    assert LiveEntries(cache.buckets["size"], 0, 1000) == cache.buckets["size"] by {
      LiveEntriesOfLive(cache.buckets["size"], 0, 1000);
    }
    first := cache.Pop("size", 0);
    second := cache.Pop("size", 0);
    third := cache.Pop("size", 0);
  }

  /** An entry is found just after insertion; a second pop after the
    * time-to-live finds nothing (the first pop has already taken the entry). */
  method RespectsTtlScenario() returns (early: Option<int>, late: Option<int>)
    ensures early == Some(42) && late == None
  {
    var cache := new ExpiringCache<string, int>(50, 10);
    cache.Insert("test", 42, 0);
    early := cache.Pop("test", 0);
    late := cache.Pop("test", 60);
  }

  /** Expiry on its own: an entry popped one tick before its time-to-live
    * runs out is returned, and an entry of another cache, inserted at the
    * same time and never popped before, is not returned once the
    * time-to-live has passed. */
  method TtlAloneScenario() returns (before: Option<int>, after: Option<int>)
    ensures before == Some(42) && after == None
  {
    var live := new ExpiringCache<string, int>(50, 10);
    live.Insert("test", 42, 0);
    before := live.Pop("test", 49);
    var stale := new ExpiringCache<string, int>(50, 10);
    stale.Insert("test", 42, 0);
    after := stale.Pop("test", 60);
  }
}
