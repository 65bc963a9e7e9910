/**
 * Configuration parsing of src/config.rs: the prefill-dimension list parser
 * and the "missing, unparsable or zero means default" rule applied to each
 * numeric setting of `AppConfig::from_env`.
 *
 * The process environment is a map from variable name to value; the number
 * of CPUs is a parameter.
 */
module Config {
  import opened Wrappers

  // ---------------------------------------------------------------------------
  // Whitespace and trimming (`str::trim`)
  // ---------------------------------------------------------------------------

  /** `char::is_whitespace`: the Unicode White_Space property. */
  predicate IsWhitespace(c: char) {
    || ('\t' <= c <= '\r') || c == ' '
    || c == '\U{0085}' || c == '\U{00A0}' || c == '\U{1680}'
    || ('\U{2000}' <= c <= '\U{200A}')
    || c == '\U{2028}' || c == '\U{2029}' || c == '\U{202F}' || c == '\U{205F}' || c == '\U{3000}'
  }

  /** `s` without its leading whitespace. */
  function TrimStart(s: string): (r: string)
    ensures |r| <= |s|
    ensures r == [] || !IsWhitespace(r[0])
    decreases |s|
  {
    if s != [] && IsWhitespace(s[0]) then TrimStart(s[1..]) else s
  }

  /** `TrimStart` drops exactly the leading whitespace. */
  lemma {:induction false} TrimStartSpec(s: string)
    ensures |TrimStart(s)| <= |s| && TrimStart(s) == s[|s| - |TrimStart(s)|..]
    ensures TrimStart(s) == [] || !IsWhitespace(TrimStart(s)[0])
    ensures forall i :: 0 <= i < |s| - |TrimStart(s)| ==> IsWhitespace(s[i])
    decreases |s|
  {
    if s != [] && IsWhitespace(s[0]) {
      TrimStartSpec(s[1..]);
    }
  }

  /** `s` without its trailing whitespace. */
  function TrimEnd(s: string): (r: string)
    ensures |r| <= |s|
    ensures r == [] || !IsWhitespace(r[|r| - 1])
    decreases |s|
  {
    if s != [] && IsWhitespace(s[|s| - 1]) then TrimEnd(s[..|s| - 1]) else s
  }

  /** `TrimEnd` drops exactly the trailing whitespace. */
  lemma {:induction false} TrimEndSpec(s: string)
    ensures |TrimEnd(s)| <= |s| && TrimEnd(s) == s[..|TrimEnd(s)|]
    ensures TrimEnd(s) == [] || !IsWhitespace(TrimEnd(s)[|TrimEnd(s)| - 1])
    ensures forall i :: |TrimEnd(s)| <= i < |s| ==> IsWhitespace(s[i])
    decreases |s|
  {
    if s != [] && IsWhitespace(s[|s| - 1]) {
      TrimEndSpec(s[..|s| - 1]);
    }
  }

  /** `str::trim`. */
  function Trim(s: string): (r: string)
    ensures |r| <= |s|
    ensures r == [] || !IsWhitespace(r[|r| - 1])
  {
    TrimEnd(TrimStart(s))
  }

  /** Trimming removes exactly the whitespace at both ends: the result is a
    * contiguous piece of the input that neither starts nor ends with
    * whitespace, and it is empty iff the input is all whitespace. */
  lemma TrimShape(s: string)
    ensures exists i, j :: 0 <= i <= j <= |s| && Trim(s) == s[i..j]
    ensures Trim(s) != [] ==> !IsWhitespace(Trim(s)[0]) && !IsWhitespace(Trim(s)[|Trim(s)| - 1])
    ensures Trim(s) == [] <==> forall i :: 0 <= i < |s| ==> IsWhitespace(s[i])
  {
    var t := TrimStart(s);
    TrimStartSpec(s);
    var k := |s| - |t|;
    var r := TrimEnd(t);
    TrimEndSpec(t);
    assert r == s[k..k + |r|];
    if r == [] {
      assert t == [];
    } else {
      assert r[0] == t[0];
    }
  }

  /** Trailing whitespace after a piece that ends in a non-space is what
    * `TrimEnd` removes. */
  lemma {:induction false} TrimEndAppend(a: string, b: string)
    requires a != [] && !IsWhitespace(a[|a| - 1])
    ensures TrimEnd(a + b) == a + TrimEnd(b)
    decreases |b|
  {
    if b == [] {
      assert a + b == a;
    } else if IsWhitespace(b[|b| - 1]) {
      assert (a + b)[..|a + b| - 1] == a + b[..|b| - 1];
      TrimEndAppend(a, b[..|b| - 1]);
    }
  }

  // ---------------------------------------------------------------------------
  // Splitting on a separator (`str::split`)
  // ---------------------------------------------------------------------------

  /** The pieces of `s` between occurrences of `sep`; there is always at least
    * one piece, and two adjacent separators give an empty piece. */
  function Split(s: string, sep: char): (parts: seq<string>)
    ensures |parts| >= 1
    decreases |s|
  {
    if s == [] then [[]]
    else
      var rest := Split(s[1..], sep);
      if s[0] == sep then [[]] + rest else [[s[0]] + rest[0]] + rest[1..]
  }

  /** No piece contains the separator. */
  lemma {:induction false} SplitPiecesFree(s: string, sep: char)
    ensures forall i :: 0 <= i < |Split(s, sep)| ==> sep !in Split(s, sep)[i]
    decreases |s|
  {
    if s != [] {
      SplitPiecesFree(s[1..], sep);
    }
  }

  /** Gluing pieces back together with the separator. */
  function Join(parts: seq<string>, sep: char): string
    requires |parts| >= 1
    decreases |parts|
  {
    if |parts| == 1 then parts[0] else parts[0] + [sep] + Join(parts[1..], sep)
  }

  /** Splitting loses nothing: joining the pieces gives back the input. */
  lemma {:induction false} JoinSplit(s: string, sep: char)
    ensures Join(Split(s, sep), sep) == s
    decreases |s|
  {
    if s != [] {
      var rest := Split(s[1..], sep);
      JoinSplit(s[1..], sep);
      if s[0] == sep {
        assert Split(s, sep)[1..] == rest;
      } else {
        var parts := Split(s, sep);
        assert parts[1..] == rest[1..];
        if |rest| > 1 {
          assert Join(rest, sep) == rest[0] + [sep] + Join(rest[1..], sep);
        }
      }
    }
  }

  /** Splitting a joined list of separator-free pieces gives the pieces back. */
  lemma {:induction false} SplitJoin(parts: seq<string>, sep: char)
    requires |parts| >= 1
    requires forall i :: 0 <= i < |parts| ==> sep !in parts[i]
    ensures Split(Join(parts, sep), sep) == parts
    decreases |parts|
  {
    if |parts| == 1 {
      SplitFree(parts[0], sep);
    } else {
      SplitJoin(parts[1..], sep);
      SplitConcat(parts[0], Join(parts[1..], sep), sep);
      SplitFree(parts[0], sep);
      assert [parts[0]] + parts[1..] == parts;
    }
  }

  /** A separator-free string is a single piece. */
  lemma {:induction false} SplitFree(s: string, sep: char)
    requires sep !in s
    ensures Split(s, sep) == [s]
    decreases |s|
  {
    if s != [] {
      SplitFree(s[1..], sep);
      assert [s[0]] + s[1..] == s;
    }
  }

  /** Splitting `a + [sep] + b` splits `a` and `b` independently. */
  lemma {:induction false} SplitConcat(a: string, b: string, sep: char)
    ensures Split(a + [sep] + b, sep) == Split(a, sep) + Split(b, sep)
    decreases |a|
  {
    if a == [] {
      assert a + [sep] + b == [sep] + b;
      assert ([sep] + b)[1..] == b;
    } else {
      var s := a + [sep] + b;
      assert s[1..] == a[1..] + [sep] + b;
      SplitConcat(a[1..], b, sep);
    }
  }

  // ---------------------------------------------------------------------------
  // Unsigned integer parsing (`str::parse::<u16 | u32 | u64 | usize>`)
  // ---------------------------------------------------------------------------

  const U16Bound: nat := 0x1_0000
  const U32Bound: nat := 0x1_0000_0000
  const U64Bound: nat := 0x1_0000_0000_0000_0000

  predicate IsDigit(c: char) {
    '0' <= c <= '9'
  }

  function DigitValue(c: char): nat
    requires IsDigit(c)
  {
    (c as int - '0' as int) as nat
  }

  predicate AllDigits(s: string) {
    forall i :: 0 <= i < |s| ==> IsDigit(s[i])
  }

  /** The decimal value of a string of digits, most significant first. */
  function DigitsValue(s: string): nat
    requires AllDigits(s)
    decreases |s|
  {
    if s == [] then 0 else 10 * DigitsValue(s[..|s| - 1]) + DigitValue(s[|s| - 1])
  }

  /** Parsing an unsigned integer of the width whose values are below
    * `bound`: an optional `+`, then one or more ASCII digits, and a value
    * that fits.  Anything else (empty, a sign alone, `-`, spaces, other
    * characters, overflow) is an error. */
  function ParseUnsigned(s: string, bound: nat): (r: Option<nat>)
    ensures r.Some? ==> r.value < bound
  {
    var digits := if |s| > 0 && s[0] == '+' then s[1..] else s;
    if digits == [] || !AllDigits(digits) then None
    else if DigitsValue(digits) < bound then Some(DigitsValue(digits))
    else None
  }

  /** The decimal rendering of `n`, without sign or leading zeros. */
  function Decimal(n: nat): (s: string)
    ensures |s| >= 1 && AllDigits(s)
    decreases n
  {
    var d := ['0' + ((n % 10) as char)];
    if n < 10 then d else Decimal(n / 10) + d
  }

  lemma {:induction false} DecimalValue(n: nat)
    ensures DigitsValue(Decimal(n)) == n
    decreases n
  {
    if n >= 10 {
      DecimalValue(n / 10);
      var s := Decimal(n);
      assert s[..|s| - 1] == Decimal(n / 10);
    }
  }

  /** Round trip: every value that fits parses back from its decimal form. */
  lemma ParseDecimal(n: nat, bound: nat)
    requires n < bound
    ensures ParseUnsigned(Decimal(n), bound) == Some(n)
  {
    DecimalValue(n);
  }

  /** `str::parse::<bool>`: exactly `true` or `false`. */
  function ParseBool(s: string): (r: Option<bool>)
    ensures r.Some? <==> s == "true" || s == "false"
    ensures r == Some(true) <==> s == "true"
  {
    if s == "true" then Some(true) else if s == "false" then Some(false) else None
  }

  // ---------------------------------------------------------------------------
  // parse_prefill_dimensions
  // ---------------------------------------------------------------------------

  function AtLeastOne(n: nat): (r: nat)
    ensures r >= 1 && (n >= 1 ==> r == n)
  {
    if n >= 1 then n else 1
  }

  /** One comma-separated part: trimmed, skipped when empty, then split on
    * `x`.  Any failure drops the part. */
  function ParseDimension(part: string): (r: Option<(nat, nat)>)
    ensures r.Some? ==> 1 <= r.value.0 < U32Bound && 1 <= r.value.1 < U32Bound
  {
    var trimmed := Trim(part);
    if trimmed == [] then None else ParsePieces(Split(trimmed, 'x'))
  }

  /** The first two `x`-separated pieces, each trimmed, parsed as u32 and
    * clamped to at least 1; later pieces are never looked at. */
  function ParsePieces(pieces: seq<string>): (r: Option<(nat, nat)>)
    requires |pieces| >= 1
    ensures r.Some? ==> 1 <= r.value.0 < U32Bound && 1 <= r.value.1 < U32Bound
  {
    match ParseUnsigned(Trim(pieces[0]), U32Bound)
    case None => None
    case Some(width) =>
      if |pieces| < 2 then None
      else
        match ParseUnsigned(Trim(pieces[1]), U32Bound)
        case None => None
        case Some(height) => Some((AtLeastOne(width), AtLeastOne(height)))
  }

  /** `Iterator::filter_map`: the `Some` values of `f` over `xs`, in order. */
  function FilterMap<A, B>(f: A -> Option<B>, xs: seq<A>): (ys: seq<B>)
    ensures |ys| <= |xs|
    decreases |xs|
  {
    if xs == [] then []
    else
      match f(xs[0])
      case Some(y) => [y] + FilterMap(f, xs[1..])
      case None => FilterMap(f, xs[1..])
  }

  /** Every value `FilterMap` keeps is one that `f` produced. */
  lemma {:induction false} FilterMapProduced<A, B>(f: A -> Option<B>, xs: seq<A>, k: nat)
    requires k < |FilterMap(f, xs)|
    ensures exists i :: 0 <= i < |xs| && f(xs[i]) == Some(FilterMap(f, xs)[k])
    decreases |xs|
  {
    var rest := FilterMap(f, xs[1..]);
    match f(xs[0])
    case Some(y) =>
      if k > 0 {
        FilterMapProduced(f, xs[1..], k - 1);
        var i :| 0 <= i < |xs[1..]| && f(xs[1..][i]) == Some(rest[k - 1]);
        assert f(xs[i + 1]) == Some(FilterMap(f, xs)[k]);
      } else {
        assert f(xs[0]) == Some(FilterMap(f, xs)[k]);
      }
    case None =>
      FilterMapProduced(f, xs[1..], k);
      var i :| 0 <= i < |xs[1..]| && f(xs[1..][i]) == Some(rest[k]);
      assert f(xs[i + 1]) == Some(FilterMap(f, xs)[k]);
  }

  /** `FilterMap` distributes over concatenation. */
  lemma {:induction false} FilterMapConcat<A, B>(f: A -> Option<B>, p: seq<A>, q: seq<A>)
    ensures FilterMap(f, p + q) == FilterMap(f, p) + FilterMap(f, q)
    decreases |p|
  {
    if p == [] {
      assert p + q == q;
    } else {
      assert (p + q)[0] == p[0];
      assert (p + q)[1..] == p[1..] + q;
      FilterMapConcat(f, p[1..], q);
    }
  }

  /** `parse_prefill_dimensions`: split on commas and keep the parts that
    * parse. */
  function ParsePrefillDimensions(raw: string): (dims: seq<(nat, nat)>)
    ensures |dims| <= |Split(raw, ',')|
  {
    FilterMap(ParseDimension, Split(raw, ','))
  }

  /** Every listed size has both sides in `1..2^32`. */
  lemma PrefillDimensionsPositive(raw: string)
    ensures forall k :: 0 <= k < |ParsePrefillDimensions(raw)| ==>
              1 <= ParsePrefillDimensions(raw)[k].0 < U32Bound && 1 <= ParsePrefillDimensions(raw)[k].1 < U32Bound
  {
    forall k | 0 <= k < |ParsePrefillDimensions(raw)|
      ensures 1 <= ParsePrefillDimensions(raw)[k].0 < U32Bound && 1 <= ParsePrefillDimensions(raw)[k].1 < U32Bound
    {
      FilterMapProduced(ParseDimension, Split(raw, ','), k);
    }
  }

  /** Parts are handled independently and in order: the dimensions of
    * `a,b` are those of `a` followed by those of `b`, so an unparsable part
    * drops only itself. */
  lemma ParsePrefillConcat(a: string, b: string)
    ensures ParsePrefillDimensions(a + "," + b) == ParsePrefillDimensions(a) + ParsePrefillDimensions(b)
  {
    SplitConcat(a, b, ',');
    assert a + "," + b == a + [','] + b;
    FilterMapConcat(ParseDimension, Split(a, ','), Split(b, ','));
  }

  /** Empty and whitespace-only parts yield nothing. */
  lemma BlankPartSkipped(part: string)
    requires forall i :: 0 <= i < |part| ==> IsWhitespace(part[i])
    ensures ParseDimension(part) == None
  {
    TrimShape(part);
  }

  /** A part without an `x` yields nothing. */
  lemma PartWithoutSeparatorDropped(part: string)
    requires 'x' !in part
    ensures ParseDimension(part) == None
  {
    var trimmed := Trim(part);
    TrimShape(part);
    var i, j :| 0 <= i <= j <= |part| && trimmed == part[i..j];
    assert forall k :: 0 <= k < |trimmed| ==> trimmed[k] == part[i + k];
    if trimmed != [] {
      SplitFree(trimmed, 'x');
    }
  }

  /** Two decimal pieces parse to their values, clamped to at least 1,
    * whatever pieces follow them. */
  lemma PiecesRoundTrip(w: nat, h: nat, more: seq<string>)
    requires w < U32Bound && h < U32Bound
    ensures ParsePieces([Decimal(w), Decimal(h)] + more) == Some((AtLeastOne(w), AtLeastOne(h)))
  {
    DigitsAreNotSpace(Decimal(w));
    DigitsAreNotSpace(Decimal(h));
    ParseDecimal(w, U32Bound);
    ParseDecimal(h, U32Bound);
  }

  /** A string with no whitespace at either end is its own trim. */
  lemma TrimKeeps(s: string)
    requires s != [] && !IsWhitespace(s[0]) && !IsWhitespace(s[|s| - 1])
    ensures Trim(s) == s
  {
    assert TrimStart(s) == s;
  }

  /** A part with no whitespace at either end goes straight to the split. */
  lemma ParseDimensionUntrimmed(s: string)
    requires s != [] && !IsWhitespace(s[0]) && !IsWhitespace(s[|s| - 1])
    ensures ParseDimension(s) == ParsePieces(Split(s, 'x'))
  {
    TrimKeeps(s);
  }

  /** `WxH` yields `(max(W, 1), max(H, 1))` for every pair of u32 values. */
  lemma DimensionRoundTrip(w: nat, h: nat)
    requires w < U32Bound && h < U32Bound
    ensures ParseDimension(Decimal(w) + "x" + Decimal(h)) == Some((AtLeastOne(w), AtLeastOne(h)))
  {
    var dw, dh := Decimal(w), Decimal(h);
    var s := dw + "x" + dh;
    assert s == dw + ['x'] + dh;
    assert s[0] == dw[0] && s[|s| - 1] == dh[|dh| - 1];
    ParseDimensionUntrimmed(s);
    SplitConcat(dw, dh, 'x');
    NoSeparatorInDigits(dw);
    NoSeparatorInDigits(dh);
    SplitFree(dw, 'x');
    SplitFree(dh, 'x');
    assert Split(s, 'x') == [dw, dh] + [];
    PiecesRoundTrip(w, h, []);
  }

  /** Trimming a string that starts with a non-space prefix ending in a
    * non-space trims only the tail. */
  lemma TrimAfterHead(head: string, rest: string)
    requires head != [] && !IsWhitespace(head[0]) && !IsWhitespace(head[|head| - 1])
    ensures Trim(head + rest) == head + TrimEnd(rest)
  {
    assert (head + rest)[0] == head[0];
    assert TrimStart(head + rest) == head + rest;
    TrimEndAppend(head, rest);
  }

  /** A separator-free piece in front of a tail splits off as it is. */
  lemma SplitOnePiece(a: string, tail: string)
    requires 'x' !in a
    ensures Split(a + ['x'] + tail, 'x') == [a] + Split(tail, 'x')
  {
    SplitConcat(a, tail, 'x');
    SplitFree(a, 'x');
  }

  lemma TwoPiecesRegroup(a: string, b: string, tail: string)
    ensures a + "x" + b + "x" + tail == a + ['x'] + (b + ['x'] + tail)
  {
  }

  /** Two separator-free pieces in front of a tail split off as they are. */
  lemma SplitTwoPieces(a: string, b: string, tail: string)
    requires 'x' !in a && 'x' !in b
    ensures Split(a + "x" + b + "x" + tail, 'x') == [a, b] + Split(tail, 'x')
  {
    TwoPiecesRegroup(a, b, tail);
    SplitOnePiece(b, tail);
    SplitOnePiece(a, b + ['x'] + tail);
  }

  /** The pieces of `W x H x rest` after trimming. */
  lemma ExtraPiecesSplit(dw: string, dh: string, rest: string)
    requires |dw| >= 1 && AllDigits(dw) && |dh| >= 1 && AllDigits(dh)
    ensures Trim(dw + "x" + dh + "x" + rest) != []
    ensures Split(Trim(dw + "x" + dh + "x" + rest), 'x') == [dw, dh] + Split(TrimEnd(rest), 'x')
  {
    var head := dw + "x" + dh + "x";
    assert head[0] == dw[0] && head[|head| - 1] == 'x';
    assert dw + "x" + dh + "x" + rest == head + rest;
    TrimAfterHead(head, rest);
    NoSeparatorInDigits(dw);
    NoSeparatorInDigits(dh);
    SplitTwoPieces(dw, dh, TrimEnd(rest));
  }

  /** Anything after a second `x` is ignored. */
  lemma ExtraPiecesIgnored(w: nat, h: nat, rest: string)
    requires w < U32Bound && h < U32Bound
    ensures ParseDimension(Decimal(w) + "x" + Decimal(h) + "x" + rest) == Some((AtLeastOne(w), AtLeastOne(h)))
  {
    ExtraPiecesSplit(Decimal(w), Decimal(h), rest);
    PiecesRoundTrip(w, h, Split(TrimEnd(rest), 'x'));
  }

  lemma DigitsAreNotSpace(s: string)
    requires |s| >= 1 && AllDigits(s)
    ensures TrimStart(s) == s && TrimEnd(s) == s && !IsWhitespace(s[|s| - 1]) && !IsWhitespace(s[0])
  {
  }

  lemma NoSeparatorInDigits(s: string)
    requires AllDigits(s)
    ensures 'x' !in s && ',' !in s
  {
  }

  // ---------------------------------------------------------------------------
  // from_env
  // ---------------------------------------------------------------------------

  /** `env::var(name).ok()`. */
  function EnvVar(env: map<string, string>, name: string): (r: Option<string>)
    ensures r.Some? <==> name in env
    ensures r.Some? ==> r.value == env[name]
  {
    if name in env then Some(env[name]) else None
  }

  /** `.and_then(|raw| raw.parse().ok()).filter(|v| *v > 0).unwrap_or(default)`. */
  function PositiveSetting(raw: Option<string>, bound: nat, default: nat): (v: nat)
    // The setting is the parsed value when that value is positive...
    ensures raw.Some? && ParseUnsigned(raw.value, bound).Some? && ParseUnsigned(raw.value, bound).value > 0
            ==> v == ParseUnsigned(raw.value, bound).value
    // ...and the default when the variable is missing, unparsable or zero.
    ensures raw.None? || ParseUnsigned(raw.value, bound).None? || ParseUnsigned(raw.value, bound) == Some(0)
            ==> v == default
    ensures default > 0 ==> v > 0
  {
    match raw
    case None => default
    case Some(s) =>
      match ParseUnsigned(s, bound)
      case Some(n) => if n > 0 then n else default
      case None => default
  }

  /** The configuration the core reads; durations are whole seconds. */
  datatype AppConfig = AppConfig(
    host: string,
    port: nat,
    workers: nat,
    solutionTtlSecs: nat,
    puzzleTtlSecs: nat,
    cachePrefillPerSize: nat,
    cacheMaxPerSize: nat,
    generatorConcurrency: nat,
    cleanupIntervalSecs: nat,
    prefillDimensions: seq<(nat, nat)>,
    logLevel: string,
    immediateCacheCleanup: bool)

  function Max(a: nat, b: nat): nat {
    if a >= b then a else b
  }

  /** `AppConfig::from_env`, given the environment and the CPU count. */
  function FromEnv(env: map<string, string>, cpus: nat): (c: AppConfig)
    requires cpus >= 1
    ensures c.workers > 0 && c.solutionTtlSecs > 0 && c.puzzleTtlSecs > 0 && c.cachePrefillPerSize > 0
    ensures c.cacheMaxPerSize > 0 && c.cleanupIntervalSecs > 0 && c.generatorConcurrency >= 1
    ensures c.port < U16Bound
    ensures "IMMEDIATE_CACHE_CLEANUP" !in env ==> c.immediateCacheCleanup
    ensures "IMMEDIATE_CACHE_CLEANUP" in env ==>
              c.immediateCacheCleanup == (env["IMMEDIATE_CACHE_CLEANUP"] != "false")
  {
    AppConfig(
      host := EnvVar(env, "SERVER_HOST").GetOr("0.0.0.0"),
      port := (match EnvVar(env, "SERVER_PORT")
               case Some(raw) => ParseUnsigned(raw, U16Bound).GetOr(8080)
               case None => 8080),
      workers := PositiveSetting(EnvVar(env, "SERVER_WORKERS"), U64Bound, cpus),
      solutionTtlSecs := PositiveSetting(EnvVar(env, "PUZZLE_SOLUTION_TTL_SECS"), U64Bound, 600),
      puzzleTtlSecs := PositiveSetting(EnvVar(env, "PUZZLE_CACHE_TTL_SECS"), U64Bound, 300),
      cachePrefillPerSize := PositiveSetting(EnvVar(env, "PUZZLE_CACHE_PREFILL"), U64Bound, 8),
      cacheMaxPerSize := PositiveSetting(EnvVar(env, "PUZZLE_CACHE_MAX"), U64Bound, 32),
      generatorConcurrency := PositiveSetting(EnvVar(env, "PUZZLE_GENERATOR_CONCURRENCY"), U64Bound, Max(cpus, 2)),
      cleanupIntervalSecs := PositiveSetting(EnvVar(env, "CLEANUP_INTERVAL_SECS"), U64Bound, 300),
      prefillDimensions := ParsePrefillDimensions(EnvVar(env, "PUZZLE_PREFILL_DIMENSIONS").GetOr("500x300")),
      logLevel := EnvVar(env, "RUST_LOG").GetOr("info"),
      immediateCacheCleanup := (match EnvVar(env, "IMMEDIATE_CACHE_CLEANUP")
                                case Some(raw) => ParseBool(raw).GetOr(true)
                                case None => true))
  }

  lemma DefaultSizeDigits()
    ensures "500x300" == Decimal(500) + "x" + Decimal(300)
  {
    assert Decimal(5) == "5" && Decimal(50) == "50" && Decimal(500) == "500";
    assert Decimal(3) == "3" && Decimal(30) == "30" && Decimal(300) == "300";
  }

  /** The default prefill list is the single size 500x300. */
  lemma DefaultPrefill()
    ensures ParsePrefillDimensions("500x300") == [(500, 300)]
  {
    DefaultSizeDigits();
    DimensionRoundTrip(500, 300);
    SplitFree("500x300", ',');
    var parts := Split("500x300", ',');
    assert FilterMap(ParseDimension, parts) == [(500, 300)] + FilterMap(ParseDimension, parts[1..]);
  }

  /** With nothing set, every setting takes its default. */
  lemma DefaultConfig(cpus: nat)
    requires cpus >= 1
    ensures FromEnv(map[], cpus) == AppConfig("0.0.0.0", 8080, cpus, 600, 300, 8, 32, Max(cpus, 2), 300,
                                              [(500, 300)], "info", true)
  {
    DefaultPrefill();
  }
}
