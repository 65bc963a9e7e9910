# Slider captcha server: cache, solution store and verification, in Dafny

This project models the core of `slider_captcha_server`, a service that hands
out slider puzzles and checks answers to them. A puzzle is a background image
with a rectangular piece cut out, plus the horizontal offset `x` where the
piece belongs. The model covers these parts:

- **The expiring cache** (`Cache`, from `src/cache.rs`). Each puzzle size has
  a bucket of timestamped entries, oldest first.
  - `insert` appends and then evicts from the front down to `max_len`.
  - `pop` scans from the back, discarding expired entries, and returns the
    newest live one.
  - `len_for` and `total_len` count live entries.
  - `clean_expired` removes every expired entry and returns
    `(removed, remaining)`.
- **The puzzle geometry** (`Puzzle`, from `src/puzzle.rs`): `verify_puzzle`,
  the integer geometry and random-start ranges of `from_dimensions`, and its
  two pixel-copy loops.
- **Configuration parsing** (`Config`, from `src/config.rs`):
  `parse_prefill_dimensions`, and the "missing, unparsable or zero means
  default" rule of `AppConfig::from_env`.
- **The puzzle generator** (`Generator`, from `src/generator/mod.rs`):
  - the solution store, a map from challenge id to `CachedSolution`
  - the cache-first path of `get_puzzle`
  - the three cache delegations
- **The HTTP handlers' decision logic** (`Server`, from `src/server.rs`):
  - the verification state machine of `verify_handler`
  - the size defaults, the clamp and the solution registration of
    `puzzle_handler`
  - one tick of the cleanup loop

How the model is built:

- Time is an explicit parameter, and the two clocks are kept apart:
  - the cache's monotonic clock (`Instant`) ages cached puzzles;
  - Unix seconds (`SystemTime`) give solution expiry. `PuzzleHandler`
    takes one reading of each (`cacheNow`, `unixNow`).
- The process environment is a `map<string, string>`.
- The CPU count, the random background image, the random start coordinates
  and the fresh challenge id are parameters.
- `ExpiringCache` and `PuzzleGenerator` are classes whose fields are updated
  in place. Each state-changing method is specified by a pure function
  (`PopFrom`, `Inserted`, `Cleaned`, `Verify`), and the properties are proved
  about that function.

The fifth wrong answer's response reports `attempts: 5` and has no
`remaining` field (`src/server.rs:135-139`), so the model's outcome is
`TooManyAttempts(5)`.

## Model

| member | source | states |
|---|---|---|
| Cache.Age | src/cache.rs:54 | the time since insertion, `now - t0`; a reading before `t0` gives 0, as the saturating `Instant::elapsed` does |
| Cache.IsLive | src/cache.rs:54 | the test `elapsed() < ttl` shared by `pop`, `len_for`, `total_len` and `clean_expired`; a reading at or before insertion is live iff `ttl > 0`, and a zero TTL makes every entry expired |
| Cache.LiveIsStrict | src/cache.rs:54 | an entry inserted at `t0` is live exactly while `now < t0 + ttl`; the boundary is expired |
| Cache.KeepNewest | src/cache.rs:46-48 | evicting from the front keeps exactly the `min(len, n)` newest entries, as a suffix |
| Cache.Inserted | src/cache.rs:45-48 | the bucket after `push_back` then `pop_front` while too long; it never exceeds `max_len`, and the new entry is last when `max_len > 0` |
| Cache.InsertedShape | src/cache.rs:37-49 | after insert, the bucket has at most `max_len` entries; below capacity it is the old bucket plus the new entry; the new entry is always last when `max_len > 0` |
| Cache.InsertAllKeepsNewest | src/cache.rs:37-49 | after any sequence of inserts, the bucket is exactly the `max_len` most recently inserted entries, oldest first |
| Cache.InsertKeepsOldestFirst | src/cache.rs:37-49 | with a non-decreasing clock, insert keeps the bucket ordered by insertion time |
| Cache.LiveEntries | src/cache.rs:93 | the retained entries are all live and no more numerous than before |
| Cache.LiveEntriesCount | src/cache.rs:66-69 | the number of retained entries equals the number of live positions in the bucket |
| Cache.LiveEntriesOfLive | src/cache.rs:93 | retaining the live entries of an all-live bucket changes nothing |
| Cache.LiveEntriesIdempotent | src/cache.rs:93 | retaining twice is the same as retaining once |
| Cache.LiveEntriesOfExpired | src/cache.rs:93 | an all-expired bucket retains nothing |
| Cache.ExpiredFormPrefix | src/cache.rs:53-57 | in an oldest-first bucket, the live entries are a suffix and everything before them is expired |
| Cache.PopBucket | src/cache.rs:51-60 | pop returns the newest live entry and drops it together with every newer expired entry, keeping the older ones; it returns None iff nothing is live, and then the bucket is emptied |
| Cache.PopSingleEntry | src/cache.rs:51-60 | a single entry inserted at `t0` is popped at every `t < t0 + ttl` and never at `t >= t0 + ttl` |
| Cache.PopFrom | src/cache.rs:51-60 | pop changes only the popped key's bucket, keeps the key set, and returns None for an absent key |
| Cache.PopKeepsOldestFirst | src/cache.rs:53-56 | popping keeps a bucket ordered by insertion time |
| Cache.SumOverRemove | src/cache.rs:83 | a sum over buckets does not depend on the order in which they are visited |
| Cache.Cleaned | src/cache.rs:90-96 | the sweep keeps every key and leaves only live entries |
| Cache.CleanedIsFixed | src/cache.rs:86-99 | after a sweep, live count equals size for every bucket; sweeping again changes nothing; the new sizes are the old live counts |
| Cache.SweptStep | src/cache.rs:90-96 | sweeping one more bucket advances the per-key sweep by exactly that key |
| Cache.ExpiringCache.constructor | src/cache.rs:29-35 | a new cache has the given `ttl` and `max_len` and no buckets |
| Cache.ExpiringCache.Insert | src/cache.rs:37-49 | the key's bucket (empty if absent) becomes `Inserted(...)`; other buckets are unchanged; every bucket stays within `max_len` |
| Cache.ExpiringCache.Pop | src/cache.rs:51-60 | the result and the new buckets are `PopFrom` of the old buckets |
| Cache.ExpiringCache.LenFor | src/cache.rs:62-72 | 0 for an absent key, otherwise the number of live entries of its bucket |
| Cache.ExpiringCache.TotalLen | src/cache.rs:74-84 | the sum over all buckets of their live counts |
| Cache.ExpiringCache.CleanExpired | src/cache.rs:86-99 | buckets become `Cleaned`; `removed + remaining` is the old total size, and `remaining` is the new total size |
| Cache.TruncateThenPopScenario | tests/cache_tests.rs:16-29 | inserting 1, 2, 3 with `max_len` 2 leaves 2 live entries; pops yield 3, then 2, then nothing |
| Cache.RespectsTtlScenario | tests/cache_tests.rs:5-14 | a value is popped just after insert; the second pop, after the TTL, finds nothing (the first pop took the entry) |
| Cache.TtlAloneScenario | src/cache.rs:51-60 | with TTL 50 an entry inserted at 0 is popped at 49, and an entry never popped before is not returned at 60: expiry alone hides it |
| Puzzle.VerifyPuzzle | src/puzzle.rs:125-127 | `abs(solution - submission) < margin`, strict: accepted iff the difference lies in the open interval `(-margin, margin)`; a non-positive margin accepts nothing |
| Puzzle.VerifyPuzzleSymmetric | src/puzzle.rs:125-127 | acceptance does not depend on which argument is the solution |
| Puzzle.VerifyPuzzleOffset | src/puzzle.rs:125-127 | `S ± e` is accepted iff `abs(e) < margin`; `abs(e) == margin` is rejected |
| Puzzle.PieceWidth | src/puzzle.rs:83 | `width / 5` rounded down: `5 * pw <= width < 5 * pw + 5` |
| Puzzle.PieceHeight | src/puzzle.rs:84 | `height / 5` rounded down: `5 * ph <= height < 5 * ph + 5` |
| Puzzle.MinStartX | src/puzzle.rs:87 | `min(pw, width.saturating_sub(pw))`, which always equals `pw` |
| Puzzle.ValidStart | src/puzzle.rs:88-89 | the two `gen_range` ranges `[min_start_x, width - pw)` and `[ph, 2 * ph)`; a valid start exists only when width ≥ 1 and height ≥ 5 |
| Puzzle.StartRangesNonEmpty | src/puzzle.rs:83-89 | `min_start_x` is the piece width; both `gen_range` ranges are non-empty iff width ≥ 1 and height ≥ 5 |
| Puzzle.RectangleInBounds | src/puzzle.rs:87-94 | every start drawn from the ranges puts the whole piece strictly inside the image |
| Puzzle.ExtractPiece | src/puzzle.rs:91-98 | the piece has the piece's size, and each pixel is the background pixel at the offset, stored as RGB (opaque) |
| Puzzle.CutOut | src/puzzle.rs:100-114 | the cropped image keeps every colour channel; alpha is 0 inside the rectangle and unchanged outside it |
| Puzzle.FractionBelowOne | src/puzzle.rs:119-120 | a start coordinate divided by a larger size lies in `[0, 1)` |
| Puzzle.FromDimensions | src/puzzle.rs:80-122 | `x`, `y` are the start fractions, both in `[0, 1)`; piece and cropped image have the contents above; a cropped pixel keeps its colour; its alpha is 0 inside the rectangle and unchanged outside it; both images are new arrays |
| Config.TrimStart | src/config.rs:103 | the start of `str::trim`: never longer than the input, and the result does not begin with whitespace |
| Config.TrimEnd | src/config.rs:103 | the end of `str::trim`: never longer than the input, and the result does not end with whitespace |
| Config.Trim | src/config.rs:103-109 | `str::trim`, applied to each part and to each piece of a part; never longer than the input, and the result does not end with whitespace (`TrimShape` gives the rest) |
| Config.TrimStartSpec | src/config.rs:103 | trimming the start removes exactly the leading whitespace |
| Config.TrimEndSpec | src/config.rs:103 | trimming the end removes exactly the trailing whitespace |
| Config.TrimShape | src/config.rs:103-106 | the trimmed part is a slice of the input with no whitespace at either end; it is empty iff the input is all whitespace |
| Config.Split | src/config.rs:101 | splitting gives at least one piece |
| Config.SplitPiecesFree | src/config.rs:101 | no piece contains the separator |
| Config.JoinSplit | src/config.rs:101 | joining the pieces with the separator gives back the input |
| Config.SplitJoin | src/config.rs:101 | splitting a join of separator-free pieces gives back the pieces |
| Config.SplitConcat | src/config.rs:101 | splitting `a , b` is splitting `a` followed by splitting `b` |
| Config.ParseUnsigned | src/config.rs:108-109 | a parsed u16/u32/u64 value is below the type's bound |
| Config.ParseDecimal | src/config.rs:108-109 | every value below the bound parses back from its decimal form |
| Config.ParseBool | src/config.rs:80 | only `true` and `false` parse, to the matching value |
| Config.AtLeastOne | src/config.rs:110 | the clamped side is at least 1, and unchanged when already positive |
| Config.ParseDimension | src/config.rs:102-111 | a parsed part has both sides in `1 .. 2^32` |
| Config.ParsePieces | src/config.rs:107-110 | a result from the `x`-pieces has both sides in `1 .. 2^32` |
| Config.FilterMap | src/config.rs:101-112 | filter_map never yields more items than it visits |
| Config.FilterMapProduced | src/config.rs:101-112 | every kept item is the parse of some part |
| Config.FilterMapConcat | src/config.rs:101-112 | filter_map distributes over concatenation |
| Config.ParsePrefillDimensions | src/config.rs:100-113 | there are no more sizes than comma-separated parts |
| Config.PrefillDimensionsPositive | src/config.rs:108-110 | every listed size has both sides in `1 .. 2^32` |
| Config.ParsePrefillConcat | src/config.rs:100-113 | parts are parsed independently and in order, so a bad part drops only itself |
| Config.BlankPartSkipped | src/config.rs:103-106 | an empty or whitespace-only part yields nothing |
| Config.PartWithoutSeparatorDropped | src/config.rs:107-109 | a part without `x` yields nothing, because the height is missing |
| Config.PiecesRoundTrip | src/config.rs:107-110 | two decimal pieces yield their values clamped to at least 1, whatever follows them |
| Config.DimensionRoundTrip | src/config.rs:100-113 | `WxH` yields `(max(W,1), max(H,1))` for all u32 `W`, `H` |
| Config.ExtraPiecesIgnored | src/config.rs:107-110 | anything after a second `x` is ignored |
| Config.EnvVar | src/config.rs:21-22 | `env::var(name).ok()`: the value exactly when the variable is set |
| Config.PositiveSetting | src/config.rs:27-70 | the setting is the parsed value when it is positive, and the default when it is missing, unparsable or zero |
| Config.FromEnv | src/config.rs:20-97 | with at least one CPU, every duration and count, `workers` included, is positive; the port fits in u16; immediate cleanup is on unless the variable is exactly `false` |
| Config.DefaultPrefill | src/config.rs:72-74 | the default prefill list is the single size 500x300 |
| Config.DefaultConfig | src/config.rs:20-97 | with an empty environment every setting takes its default (600 s, 300 s, 8, 32, 300 s, `max(cpus, 2)`, 500x300, immediate cleanup on) |
| Generator.Lookup | src/generator/mod.rs:116-118 | the entry for an id is returned exactly when the id is stored |
| Generator.PuzzleGenerator.constructor | src/generator/mod.rs:25-26 | the cache has the puzzle TTL and the per-size capacity and is empty; no solutions are stored |
| Generator.PuzzleGenerator.GetPuzzle | src/generator/mod.rs:85-103 | on a hit, the popped value is returned and nothing is enqueued; on a miss, a request is enqueued, and a generated puzzle is inserted into the cache and returned |
| Generator.PuzzleGenerator.CacheSolution | src/generator/mod.rs:105-114 | the id maps to the given solution and expiry with 0 attempts, replacing any earlier entry; other ids are unchanged |
| Generator.PuzzleGenerator.GetSolution | src/generator/mod.rs:116-118 | returns the stored entry or None, and changes nothing |
| Generator.PuzzleGenerator.IncrementAttempts | src/generator/mod.rs:120-127 | a present id gets attempts + 1, which is returned, with solution and expiry kept; an absent id gives None and no change |
| Generator.PuzzleGenerator.RemoveSolution | src/generator/mod.rs:129-131 | returns the prior entry; afterwards the id is absent and all other ids are unchanged |
| Generator.PuzzleGenerator.TakeSolution | src/generator/mod.rs:134-136 | behaves exactly like remove_solution |
| Generator.PuzzleGenerator.CacheLen | src/generator/mod.rs:138-140 | is the cache's `len_for` |
| Generator.PuzzleGenerator.TotalCached | src/generator/mod.rs:142-144 | is the cache's `total_len` |
| Generator.PuzzleGenerator.Cleanup | src/generator/mod.rs:146-148 | is the cache's `clean_expired`, and the solution store is untouched |
| Server.Verify | src/server.rs:102-156 | unknown id → InvalidId, store unchanged; `expires_at <= now` → Expired, id removed; within 0.015 → Success, id removed iff immediate cleanup; otherwise attempts + 1, which gives TooManyAttempts with the id removed at 5 and otherwise Failed with `remaining = 5 - attempts ≥ 1`; no id is added and other ids are untouched |
| Server.VerifyHandler | src/server.rs:93-157 | the outcome and the new store are `Verify` of the old store |
| Server.VerifyKeepsAttemptsBelowLimit | src/server.rs:127-139 | every stored attempt count stays below 5, so the u32 counter cannot overflow |
| Server.RegisterKeepsAttemptsBelowLimit | src/generator/mod.rs:105-114 | registering a challenge keeps every attempt count below 5 |
| Server.Run | src/server.rs:102-156 | a sequence of submissions has one outcome each and never adds an id |
| Server.AbsentStaysInvalid | src/server.rs:150-155 | an id not in the store gets InvalidId on every later submission |
| Server.FinalOutcomeIsFinal | src/server.rs:109-139 | after Expired, TooManyAttempts, or Success with immediate cleanup, every later submission for that id gets InvalidId |
| Server.RepeatedWrongAnswers | src/server.rs:127-155 | from any attempt count below 5, repeating a wrong answer reports each further failure with the matching remaining count, then exhaustion, then an unknown id |
| Server.FiveWrongAnswers | src/server.rs:127-147 | five wrong answers give Failed(1,4), Failed(2,3), Failed(3,2), Failed(4,1), TooManyAttempts(5); a sixth gives InvalidId |
| Server.CorrectAnswerAccepted | src/server.rs:115 | an answer within 0.015 of an unexpired challenge succeeds whatever the attempt count |
| Server.Side | src/server.rs:47-48 | each side is the query value or its default, raised to at least 100 |
| Server.RequestedSize | src/server.rs:18-32 | a query without sizes asks for 500x300; both sides are at least 100 |
| Server.ServedSizeHasStart | src/server.rs:47-51 | every size passed to the generator leaves `from_dimensions` a valid start position |
| Server.PuzzleHandler | src/server.rs:40-91 | fetches the clamped size at cache time `cacheNow`: a live cached puzzle is popped (the cache becomes `PopFrom`'s rest), otherwise the generated puzzle, if any, is inserted into that size's bucket; when a puzzle is available, registers its `x` under the fresh id with `expires_at = unixNow + solution_ttl` and 0 attempts and returns the images, `y` and id; otherwise answers busy and leaves the store unchanged |
| Server.CleanupTick | src/server.rs:179-193 | one tick sweeps only the puzzle cache; pending solutions are untouched |

## Left out

- The generation dispatcher is not modelled: the bounded `mpsc` queue, the admission `Semaphore`, `spawn` and `spawn_blocking` (`src/generator/mod.rs:25-83`, `90-102`). This is concurrency.
  - What a miss delivers is a parameter of `GetPuzzle`.
  - A delivered puzzle is inserted into the cache before it is returned, with the same clock reading.
  - Enqueueing cannot fail: `send().await` only fails on a closed channel.
- `fill_cache` (called at `src/server.rs:169`) is not part of this model.
- The random background image (`generate_random_image`) and the random draws are not modelled. `FromDimensions` takes the image and both start coordinates as arguments.
- `image_to_base64` is not modelled: it is PNG encoding and base64 library calls. The encoded images are opaque strings in `PuzzleImages`.
- Actix routing, JSON bodies, logging, `run_server` and the binary entry point are not modelled.
- The cleanup loop's interval timer is not modelled; `CleanupTick` is one iteration.
- The example servers and benchmarks outside `src/` are not modelled.
- The wall clock, `Instant`, uuid generation and the process environment are parameters.
- `f64` is modelled as `real`: there is no rounding in `x = start_x / width` or in the tolerance comparison.
- Puzzle.FromDimensions: `requires ValidStart` leaves out the sizes at which `gen_range` panics on an empty range, width 0 or height below 5 (`src/puzzle.rs:88-89`, see `StartRangesNonEmpty`). `Server.ServedSizeHasStart` shows that `puzzle_handler` never asks for such a size.
- Cache.ExpiringCache.Pop: every entry is tested against one clock reading. The source calls `elapsed()` afresh for each entry it inspects.
- Server.PuzzleHandler: `unixNow + solution_ttl` is unbounded. The `u64` overflow of that addition is not modelled.
- Server.PuzzleHandler: the query's `w` and `h` are unbounded naturals. A value that does not fit in `u32` is rejected by deserialization before the handler runs.
- Server.VerifyHandler: modelled as one atomic step. The source makes separate map calls (`src/server.rs:102,111,120,129,134`), and two requests for the same id can interleave between them. So two concurrent correct submissions can both succeed, and `FinalOutcomeIsFinal` does not hold under concurrency. After a concurrent removal, `increment_attempts` returns `None`, and `unwrap_or(0)` (`src/server.rs:129`) answers "Verification failed" with attempts 0 and remaining 5. That branch cannot be reached in the model.
- Generator.PuzzleGenerator.IncrementAttempts: `attempts` is unbounded. `Server.VerifyKeepsAttemptsBelowLimit` shows that the `u32` counter stays below 5.
- Config.FromEnv: `usize` settings are parsed as 64-bit.
- Cache.ExpiringCache.TotalLen and Cache.ExpiringCache.CleanExpired: per-bucket locking under concurrent access is not modelled. Each operation is atomic in the model.
