/**
 * `PuzzleGenerator` of src/generator/mod.rs: the per-size puzzle cache, the
 * solution store keyed by challenge id, and the cache-first path of
 * `get_puzzle`.
 *
 * The background dispatcher (queue, admission limiter, worker tasks) is not
 * modelled; what a cache miss eventually delivers is a parameter of
 * `GetPuzzle`.
 */
module Generator {
  import opened Wrappers
  import opened Cache
  import opened Puzzle

  /** A pending solution: the expected `x`, the expiry in Unix seconds and the
    * number of wrong submissions so far. */
  datatype CachedSolution = CachedSolution(solution: real, expiresAt: nat, attempts: nat)

  /** A generated puzzle: the two encoded images and the puzzle they show. */
  datatype PuzzleImages = PuzzleImages(puzzleB64: string, pieceB64: string, slider: SliderPuzzle)

  /** The stored entry for `id`, if any. */
  function Lookup(store: map<string, CachedSolution>, id: string): (r: Option<CachedSolution>)
    ensures r.Some? <==> id in store
    ensures r.Some? ==> r.value == store[id]
  {
    if id in store then Some(store[id]) else None
  }

  class PuzzleGenerator {
    const cache: ExpiringCache<(nat, nat), PuzzleImages>
    var solutions: map<string, CachedSolution>

    ghost predicate Valid()
      reads this, cache
    {
      cache.Valid()
    }

    /** `PuzzleGenerator::new`: an empty cache with the puzzle TTL and the
      * per-size capacity, and an empty solution store. */
    constructor (puzzleTtl: nat, cacheMaxPerSize: nat)
      ensures Valid() && fresh(cache)
      ensures cache.ttl == puzzleTtl && cache.maxLen == cacheMaxPerSize && cache.buckets == map[]
      ensures solutions == map[]
    {
      cache := new ExpiringCache(puzzleTtl, cacheMaxPerSize);
      solutions := map[];
    }

    /** `get_puzzle` at time `now`.  A live cached puzzle of that size is
      * popped and returned without a generation request.  Otherwise a
      * request is enqueued (`enqueued`), and the generated puzzle, when
      * generation succeeds, is put into the cache and also returned. */
    method GetPuzzle(width: nat, height: nat, now: nat, generated: Option<PuzzleImages>)
      returns (r: Option<PuzzleImages>, enqueued: bool)
      requires Valid()
      modifies cache
      ensures Valid()
      ensures var (hit, rest) := PopFrom(old(cache.buckets), (width, height), now, cache.ttl);
              && (hit.Some? ==> r == hit && !enqueued && cache.buckets == rest)
              && (hit.None? && generated.None? ==> r == None && enqueued && cache.buckets == rest)
              && (hit.None? && generated.Some? ==>
                    && r == generated && enqueued
                    && cache.buckets == rest[(width, height) :=
                         Inserted(BucketOf(rest, (width, height)), Entry(generated.value, now), cache.maxLen)])
    {
      r := cache.Pop((width, height), now);
      enqueued := false;
      if r.Some? {
        return;
      }
      enqueued := true;
      if generated.Some? {
        cache.Insert((width, height), generated.value, now);
        r := generated;
      }
    }

    /** `cache_solution`: store a fresh entry with no attempts, replacing any
      * previous entry for `id`. */
    method CacheSolution(id: string, solution: real, expiresAt: nat)
      modifies this
      ensures solutions == old(solutions)[id := CachedSolution(solution, expiresAt, 0)]
    {
      solutions := solutions[id := CachedSolution(solution, expiresAt, 0)];
    }

    /** `get_solution`: a copy of the stored entry; nothing changes. */
    method GetSolution(id: string) returns (r: Option<CachedSolution>)
      ensures r == Lookup(solutions, id)
    {
      if id in solutions {
        r := Some(solutions[id]);
      } else {
        r := None;
      }
    }

    /** `increment_attempts`: one more wrong submission for `id`, returning
      * the new count; an unknown id changes nothing. */
    method IncrementAttempts(id: string) returns (r: Option<nat>)
      modifies this
      ensures id !in old(solutions) ==> r == None && solutions == old(solutions)
      ensures id in old(solutions) ==>
                && r == Some(old(solutions)[id].attempts + 1)
                && solutions == old(solutions)[id := old(solutions)[id].(attempts := old(solutions)[id].attempts + 1)]
    {
      if id in solutions {
        var entry := solutions[id];
        entry := entry.(attempts := entry.attempts + 1);
        solutions := solutions[id := entry];
        r := Some(entry.attempts);
      } else {
        r := None;
      }
    }

    /** `remove_solution`: drop `id`, returning what was stored. */
    method RemoveSolution(id: string) returns (r: Option<CachedSolution>)
      modifies this
      ensures r == Lookup(old(solutions), id)
      ensures solutions == old(solutions) - {id}
    {
      r := Lookup(solutions, id);
      solutions := solutions - {id};
    }

    /** `take_solution`: the same as `remove_solution`. */
    method TakeSolution(id: string) returns (r: Option<CachedSolution>)
      modifies this
      ensures r == Lookup(old(solutions), id)
      ensures solutions == old(solutions) - {id}
    {
      r := RemoveSolution(id);
    }

    /** `cache_len`: the cache's live count for one size. */
    method CacheLen(key: (nat, nat), now: nat) returns (n: nat)
      ensures n == cache.LenFor(key, now)
    {
      n := cache.LenFor(key, now);
    }

    /** `total_cached`: the cache's live count over all sizes. */
    method TotalCached(now: nat) returns (n: nat)
      ensures n == Sum(LiveCounts(cache.buckets, now, cache.ttl))
    {
      n := cache.TotalLen(now);
    }

    /** `cleanup`: sweep the cache; the solution store is not touched. */
    method Cleanup(now: nat) returns (removed: nat, remaining: nat)
      requires Valid()
      modifies cache
      ensures Valid()
      ensures cache.buckets == Cleaned(old(cache.buckets), now, cache.ttl)
      ensures removed + remaining == Sum(Sizes(old(cache.buckets)))
      ensures remaining == Sum(Sizes(cache.buckets))
      ensures solutions == old(solutions)
    {
      removed, remaining := cache.CleanExpired(now);
    }
  }
}
