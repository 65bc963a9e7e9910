/**
 * The decision logic of src/server.rs: the verification state machine of
 * `verify_handler`, the size defaults, clamp and solution registration of
 * `puzzle_handler`, and the periodic cleanup tick.
 *
 * The wall clock (Unix seconds) and the fresh challenge id are parameters;
 * HTTP routing and JSON bodies are not modelled.
 */
module Server {
  import opened Wrappers
  import opened Cache
  import opened Puzzle
  import opened Generator
  import Config

  /** Accepted distance between the submitted and the stored `x`. */
  const Tolerance: real := 0.015

  /** Wrong submissions after which a challenge is discarded. */
  const MaxAttempts: nat := 5

  /** Default requested size when the query leaves it out, and the least
    * size served in each direction. */
  const DefaultWidth: nat := 500
  const DefaultHeight: nat := 300
  const MinSide: nat := 100

  /** The answer of `verify_handler`. */
  datatype VerifyOutcome =
    | InvalidId
    | Expired
    | Success
    | TooManyAttempts(attempts: nat)
    | Failed(attempts: nat, remaining: nat)

  /** Outcomes after which the challenge has left the store (when the
    * solution was accepted, only with immediate cleanup). */
  predicate Final(o: VerifyOutcome, immediate: bool) {
    o == Expired || o.TooManyAttempts? || (o == Success && immediate)
  }

  // ---------------------------------------------------------------------------
  // verify_handler
  // ---------------------------------------------------------------------------

  /** One submission `x` for challenge `id` at time `now`: the outcome and the
    * solution store afterwards. */
  function Verify(store: map<string, CachedSolution>, id: string, x: real, now: nat, immediate: bool)
    : (r: (VerifyOutcome, map<string, CachedSolution>))
    // No id is ever added, and other ids are untouched.
    ensures r.1.Keys <= store.Keys
    ensures forall k :: k in store && k != id ==> k in r.1 && r.1[k] == store[k]
    // The entry that stays keeps its solution and expiry; attempts only grow.
    ensures id in r.1 ==> && r.1[id].solution == store[id].solution
                          && r.1[id].expiresAt == store[id].expiresAt
                          && store[id].attempts <= r.1[id].attempts <= store[id].attempts + 1
    // Which outcome happens.
    ensures r.0 == InvalidId <==> id !in store
    ensures r.0 == Expired <==> id in store && store[id].expiresAt <= now
    ensures r.0 == Success <==>
              id in store && now < store[id].expiresAt && VerifyPuzzle(store[id].solution, x, Tolerance)
    // What each outcome does to the store.
    ensures r.0 == InvalidId ==> r.1 == store
    ensures r.0 == Expired ==> id !in r.1
    ensures r.0 == Success ==> r.1 == if immediate then store - {id} else store
    ensures r.0.TooManyAttempts? ==> r.0.attempts == store[id].attempts + 1 >= MaxAttempts && id !in r.1
    ensures r.0.Failed? ==> && r.0.attempts == store[id].attempts + 1 < MaxAttempts
                            && r.0.remaining == MaxAttempts - r.0.attempts >= 1
                            && id in r.1 && r.1[id].attempts == r.0.attempts
  {
    match Lookup(store, id)
    case None => (InvalidId, store)
    case Some(entry) =>
      if entry.expiresAt <= now then (Expired, store - {id})
      else if VerifyPuzzle(entry.solution, x, Tolerance) then
        (Success, if immediate then store - {id} else store)
      else
        var attempts := entry.attempts + 1;
        var bumped := store[id := entry.(attempts := attempts)];
        if attempts >= MaxAttempts then (TooManyAttempts(attempts), bumped - {id})
        else (Failed(attempts, MaxAttempts - attempts), bumped)
  }

  /** `verify_handler` against the generator's store. */
  method VerifyHandler(generator: PuzzleGenerator, id: string, x: real, now: nat, immediate: bool)
    returns (outcome: VerifyOutcome)
    modifies generator
    ensures (outcome, generator.solutions) == Verify(old(generator.solutions), id, x, now, immediate)
  {
    var found := generator.GetSolution(id);
    match found
    case None =>
      outcome := InvalidId;
    case Some(entry) =>
      if entry.expiresAt <= now {
        var _ := generator.RemoveSolution(id);
        outcome := Expired;
      } else if VerifyPuzzle(entry.solution, x, Tolerance) {
        if immediate {
          var _ := generator.RemoveSolution(id);
        }
        outcome := Success;
      } else {
        var bumped := generator.IncrementAttempts(id);
        var attempts := bumped.GetOr(0);
        if attempts >= MaxAttempts {
          var _ := generator.RemoveSolution(id);
          outcome := TooManyAttempts(attempts);
        } else {
          outcome := Failed(attempts, MaxAttempts - attempts);
        }
      }
  }

  /** Every stored challenge has fewer than `MaxAttempts` wrong submissions. */
  ghost predicate AttemptsBelowLimit(store: map<string, CachedSolution>) {
    forall id :: id in store ==> store[id].attempts < MaxAttempts
  }

  /** A submission keeps every stored attempt count below the limit, so the
    * count (a `u32` in the source) never exceeds `MaxAttempts`. */
  lemma VerifyKeepsAttemptsBelowLimit(store: map<string, CachedSolution>, id: string, x: real, now: nat, immediate: bool)
    requires AttemptsBelowLimit(store)
    ensures AttemptsBelowLimit(Verify(store, id, x, now, immediate).1)
  {
    var after := Verify(store, id, x, now, immediate).1;
    forall k | k in after ensures after[k].attempts < MaxAttempts {
      if k == id {
        var o := Verify(store, id, x, now, immediate).0;
        assert o.Failed? || o == Success;
      }
    }
  }

  /** Registering a new challenge keeps the attempt counts below the limit. */
  lemma RegisterKeepsAttemptsBelowLimit(store: map<string, CachedSolution>, id: string, solution: real, expiresAt: nat)
    requires AttemptsBelowLimit(store)
    ensures AttemptsBelowLimit(store[id := CachedSolution(solution, expiresAt, 0)])
  {
  }

  // ---------------------------------------------------------------------------
  // Sequences of submissions
  // ---------------------------------------------------------------------------

  /** One verification request. */
  datatype Submission = Submission(id: string, x: real, now: nat)

  /** The outcomes of a sequence of submissions, and the final store. */
  function Run(store: map<string, CachedSolution>, subs: seq<Submission>, immediate: bool)
    : (r: (seq<VerifyOutcome>, map<string, CachedSolution>))
    ensures |r.0| == |subs|
    ensures r.1.Keys <= store.Keys
    decreases |subs|
  {
    if subs == [] then ([], store)
    else
      var (o, next) := Verify(store, subs[0].id, subs[0].x, subs[0].now, immediate);
      var (rest, last) := Run(next, subs[1..], immediate);
      ([o] + rest, last)
  }

  /** A challenge that is not in the store is rejected as unknown by every
    * later submission, whatever else happens in between. */
  lemma {:induction false} AbsentStaysInvalid(store: map<string, CachedSolution>, id: string, subs: seq<Submission>, immediate: bool)
    requires id !in store
    ensures forall k :: 0 <= k < |subs| && subs[k].id == id ==> Run(store, subs, immediate).0[k] == InvalidId
    decreases |subs|
  {
    if subs != [] {
      var next := Verify(store, subs[0].id, subs[0].x, subs[0].now, immediate).1;
      AbsentStaysInvalid(next, id, subs[1..], immediate);
      forall k | 0 <= k < |subs| && subs[k].id == id
        ensures Run(store, subs, immediate).0[k] == InvalidId
      {
        if k > 0 {
          assert subs[1..][k - 1] == subs[k];
        }
      }
    }
  }

  /** After an expired result, an exhausted result, or a success with
    * immediate cleanup, every later submission for that challenge is
    * rejected as unknown. */
  lemma FinalOutcomeIsFinal(store: map<string, CachedSolution>, id: string, x: real, now: nat, immediate: bool,
                            later: seq<Submission>)
    requires Final(Verify(store, id, x, now, immediate).0, immediate)
    ensures forall k :: 0 <= k < |later| && later[k].id == id ==>
              Run(Verify(store, id, x, now, immediate).1, later, immediate).0[k] == InvalidId
  {
    AbsentStaysInvalid(Verify(store, id, x, now, immediate).1, id, later, immediate);
  }

  /** The first outcome of a run is that of its first submission. */
  lemma RunCons(store: map<string, CachedSolution>, s: Submission, rest: seq<Submission>, immediate: bool)
    ensures var (o, next) := Verify(store, s.id, s.x, s.now, immediate);
            Run(store, [s] + rest, immediate).0 == [o] + Run(next, rest, immediate).0
  {
    assert ([s] + rest)[1..] == rest;
  }

  /** `n` copies of one submission. */
  function Repeat(s: Submission, n: nat): (subs: seq<Submission>)
    ensures |subs| == n
    ensures forall i :: 0 <= i < n ==> subs[i] == s
  {
    if n == 0 then [] else [s] + Repeat(s, n - 1)
  }

  /** What repeated wrong answers report, starting from `a` used attempts:
    * the failures up to the limit, exhaustion, then an unknown id. */
  function WrongAnswerOutcomes(a: nat): seq<VerifyOutcome>
    requires a < MaxAttempts
    decreases MaxAttempts - a
  {
    if a + 1 >= MaxAttempts then [TooManyAttempts(a + 1), InvalidId]
    else [Failed(a + 1, MaxAttempts - (a + 1))] + WrongAnswerOutcomes(a + 1)
  }

  /** The same wrong answer, submitted until the challenge is gone and once
    * more, gives `WrongAnswerOutcomes` of the current attempt count. */
  lemma {:induction false} RepeatedWrongAnswers(store: map<string, CachedSolution>, id: string, x: real, now: nat,
                                                immediate: bool)
    requires id in store && store[id].attempts < MaxAttempts && now < store[id].expiresAt
    requires !VerifyPuzzle(store[id].solution, x, Tolerance)
    ensures Run(store, Repeat(Submission(id, x, now), MaxAttempts - store[id].attempts + 1), immediate).0
            == WrongAnswerOutcomes(store[id].attempts)
    decreases MaxAttempts - store[id].attempts
  {
    var s := Submission(id, x, now);
    var a := store[id].attempts;
    var subs := Repeat(s, MaxAttempts - a + 1);
    var (o, next) := Verify(store, id, x, now, immediate);
    RunCons(store, s, subs[1..], immediate);
    assert [s] + subs[1..] == subs;
    if a + 1 >= MaxAttempts {
      assert subs[1..] == [s];
      RunCons(next, s, [], immediate);
    } else {
      assert subs[1..] == Repeat(s, MaxAttempts - (a + 1) + 1);
      RepeatedWrongAnswers(next, id, x, now, immediate);
    }
  }

  /** Five wrong answers to a fresh, unexpired challenge report 1 to 4 used
    * attempts and then exhaustion; a sixth submission finds no challenge. */
  lemma FiveWrongAnswers(store: map<string, CachedSolution>, id: string, x: real, now: nat, immediate: bool)
    requires id in store && store[id].attempts == 0 && now < store[id].expiresAt
    requires !VerifyPuzzle(store[id].solution, x, Tolerance)
    ensures var s := Submission(id, x, now);
            Run(store, [s, s, s, s, s, s], immediate).0 ==
              [Failed(1, 4), Failed(2, 3), Failed(3, 2), Failed(4, 1), TooManyAttempts(5), InvalidId]
  {
    var s := Submission(id, x, now);
    RepeatedWrongAnswers(store, id, x, now, immediate);
    assert Repeat(s, 6) == [s, s, s, s, s, s];
    assert WrongAnswerOutcomes(0) ==
      [Failed(1, 4), Failed(2, 3), Failed(3, 2), Failed(4, 1), TooManyAttempts(5), InvalidId];
  }

  /** A correct answer succeeds at any attempt count below the limit, as long
    * as the challenge has not expired. */
  lemma CorrectAnswerAccepted(store: map<string, CachedSolution>, id: string, x: real, now: nat, immediate: bool)
    requires id in store && now < store[id].expiresAt
    requires Abs(store[id].solution - x) < Tolerance
    ensures Verify(store, id, x, now, immediate).0 == Success
  {
  }

  // ---------------------------------------------------------------------------
  // puzzle_handler
  // ---------------------------------------------------------------------------

  /** One side of the requested size: the query value or the default, and
    * never below `MinSide`. */
  function Side(requested: Option<nat>, default: nat): (side: nat)
    ensures side >= MinSide
    ensures requested.None? ==> side == Config.Max(default, MinSide)
    ensures requested.Some? && requested.value >= MinSide ==> side == requested.value
    ensures requested.Some? && requested.value < MinSide ==> side == MinSide
  {
    var v := requested.GetOr(default);
    if v >= MinSide then v else MinSide
  }

  /** The size served for a query: 500 by 300 when nothing is asked. */
  function RequestedSize(w: Option<nat>, h: Option<nat>): (size: (nat, nat))
    ensures size.0 >= MinSide && size.1 >= MinSide
    ensures w.None? && h.None? ==> size == (DefaultWidth, DefaultHeight)
  {
    (Side(w, DefaultWidth), Side(h, DefaultHeight))
  }

  /** Every size the handler asks the generator for is large enough for
    * `from_dimensions` to pick a start position. */
  lemma ServedSizeHasStart(w: Option<nat>, h: Option<nat>)
    ensures var size := RequestedSize(w, h);
            ValidStart(size.0, size.1, PieceWidth(size.0), PieceHeight(size.1))
  {
    var size := RequestedSize(w, h);
    StartRangesNonEmpty(size.0, size.1);
  }

  /** The answer of `puzzle_handler`. */
  datatype PuzzleResponse =
    | Served(puzzleImage: string, pieceImage: string, id: string, y: real)
    | Busy

  /** `puzzle_handler` with the fresh challenge id `id`.  Two clocks are read:
    * `cacheNow` is the monotonic instant the puzzle cache ages its entries by,
    * `unixNow` the wall-clock seconds the solution's expiry is counted from.
    * The handler fetches a puzzle of the clamped size and, when one is
    * available, registers its solution `x` to expire `solutionTtl` seconds
    * after `unixNow`. */
  method PuzzleHandler(generator: PuzzleGenerator, solutionTtl: nat, w: Option<nat>, h: Option<nat>,
                       cacheNow: nat, unixNow: nat, id: string, generated: Option<PuzzleImages>)
    returns (response: PuzzleResponse, images: Option<PuzzleImages>)
    requires generator.Valid()
    modifies generator, generator.cache
    ensures generator.Valid()
    ensures var size := RequestedSize(w, h);
            var (hit, rest) := PopFrom(old(generator.cache.buckets), size, cacheNow, generator.cache.ttl);
            && images == (if hit.Some? then hit else generated)
            && (hit.Some? || generated.None? ==> generator.cache.buckets == rest)
            && (hit.None? && generated.Some? ==>
                  generator.cache.buckets == rest[size :=
                    Inserted(BucketOf(rest, size), Entry(generated.value, cacheNow), generator.cache.maxLen)])
    ensures images.None? ==> response == Busy && generator.solutions == old(generator.solutions)
    ensures images.Some? ==>
              && response == Served(images.value.puzzleB64, images.value.pieceB64, id, images.value.slider.y)
              && generator.solutions ==
                   old(generator.solutions)[id := CachedSolution(images.value.slider.x, unixNow + solutionTtl, 0)]
  {
    var size := RequestedSize(w, h);
    var enqueued;
    images, enqueued := generator.GetPuzzle(size.0, size.1, cacheNow, generated);
    match images
    case None =>
      response := Busy;
    case Some(p) =>
      generator.CacheSolution(id, p.slider.x, unixNow + solutionTtl);
      response := Served(p.puzzleB64, p.pieceB64, id, p.slider.y);
  }

  // ---------------------------------------------------------------------------
  // The cleanup loop
  // ---------------------------------------------------------------------------

  /** One tick of the periodic cleanup: sweep the puzzle cache; pending
    * solutions are left alone. */
  method CleanupTick(generator: PuzzleGenerator, now: nat) returns (removed: nat, remaining: nat)
    requires generator.Valid()
    modifies generator.cache
    ensures generator.Valid()
    ensures generator.cache.buckets == Cleaned(old(generator.cache.buckets), now, generator.cache.ttl)
    ensures removed + remaining == Sum(Sizes(old(generator.cache.buckets)))
    ensures generator.solutions == old(generator.solutions)
  {
    removed, remaining := generator.Cleanup(now);
  }
}
