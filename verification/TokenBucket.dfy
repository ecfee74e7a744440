/** The token bucket of src/http/hardening.rs, with its saturating 128-bit arithmetic. */
module TokenBucket {

  const NANOS_PER_SEC: nat := 1_000_000_000
  const U64_MAX: nat := 0xFFFF_FFFF_FFFF_FFFF
  const U128_MAX: nat := 0xFFFF_FFFF_FFFF_FFFF_FFFF_FFFF_FFFF_FFFF

  type U64 = n: nat | n <= U64_MAX
  /** A reading of the monotonic clock, in nanoseconds. */
  type Instant = nat

  datatype Spec = Spec(capacity: U64, refillPerSec: U64)

  datatype Bucket = Bucket(tokens: nat, lastRefill: Instant, remNanos: nat)

  predicate Valid(b: Bucket, spec: Spec) {
    b.tokens <= spec.capacity && b.remNanos < NANOS_PER_SEC
  }

  function Min(a: nat, b: nat): nat {
    if a <= b then a else b
  }

  function SaturatingMul128(a: nat, b: nat): nat {
    Min(a * b, U128_MAX)
  }

  function SaturatingAdd128(a: nat, b: nat): nat {
    Min(a + b, U128_MAX)
  }

  function SaturatingAdd64(a: nat, b: nat): nat {
    Min(a + b, U64_MAX)
  }

  function New(spec: Spec, now: Instant): Bucket {
    Bucket(spec.capacity, now, 0)
  }

  function Elapsed(b: Bucket, now: Instant): nat {
    if now < b.lastRefill then 0 else now - b.lastRefill
  }

  /** The first half of `take`. */
  function Refill(b: Bucket, spec: Spec, now: Instant): Bucket {
    var refillNanos := SaturatingAdd128(SaturatingMul128(Elapsed(b, now), spec.refillPerSec), b.remNanos);
    var produced := Min(refillNanos / NANOS_PER_SEC, U64_MAX);
    Bucket(Min(SaturatingAdd64(b.tokens, produced), spec.capacity), now, refillNanos % NANOS_PER_SEC)
  }

  function Spend(b: Bucket): (Bucket, bool) {
    if b.tokens >= 1 then (b.(tokens := b.tokens - 1), true) else (b, false)
  }

  function Take(b: Bucket, spec: Spec, now: Instant): (Bucket, bool) {
    Spend(Refill(b, spec, now))
  }

  // ---------------------------------------------------------------- the ideal bucket

  /** Refilling over unbounded integers: whole tokens are added, the rest of a token is carried. */
  function IdealRefill(b: Bucket, spec: Spec, now: Instant): Bucket {
    var nanos := Elapsed(b, now) * spec.refillPerSec + b.remNanos;
    Bucket(Min(b.tokens + nanos / NANOS_PER_SEC, spec.capacity), now, nanos % NANOS_PER_SEC)
  }

  predicate Saturates(b: Bucket, spec: Spec, now: Instant) {
    Elapsed(b, now) * spec.refillPerSec + b.remNanos > U128_MAX
  }

  /** Whole tokens a saturated product stands for: more than any capacity. */
  lemma SaturatedProduce()
    ensures U128_MAX / NANOS_PER_SEC > U64_MAX
  {
  }

  /**
   The bucket refines the ideal one. While nothing saturates they agree completely; when the
   product saturates, the token counts still agree, and both are the capacity.
   */
  lemma RefillRefinesIdeal(b: Bucket, spec: Spec, now: Instant)
    requires Valid(b, spec)
    ensures !Saturates(b, spec, now) ==> Refill(b, spec, now) == IdealRefill(b, spec, now)
    ensures Refill(b, spec, now).tokens == IdealRefill(b, spec, now).tokens
    ensures Saturates(b, spec, now) ==> Refill(b, spec, now).tokens == spec.capacity
    ensures Valid(Refill(b, spec, now), spec)
  {
    var nanos := Elapsed(b, now) * spec.refillPerSec + b.remNanos;
    if Saturates(b, spec, now) {
      SaturatedProduce();
      assert nanos / NANOS_PER_SEC >= U128_MAX / NANOS_PER_SEC;
    }
  }

  // ---------------------------------------------------------------- refilling in pieces

  lemma SplitProduct(a: nat, b: nat, rate: nat)
    ensures (a + b) * rate == a * rate + b * rate
  {
  }

  lemma CarryOver(x: nat, y: nat)
    ensures (x + y) / NANOS_PER_SEC == x / NANOS_PER_SEC + (x % NANOS_PER_SEC + y) / NANOS_PER_SEC
    ensures (x + y) % NANOS_PER_SEC == (x % NANOS_PER_SEC + y) % NANOS_PER_SEC
  {
  }

  /** Refilling twice is refilling once, carried remainder included. */
  lemma RefillInPieces(b: Bucket, spec: Spec, mid: Instant, now: Instant)
    requires Valid(b, spec) && b.lastRefill <= mid <= now && !Saturates(b, spec, now)
    ensures Refill(Refill(b, spec, mid), spec, now) == Refill(b, spec, now)
    ensures !Saturates(b, spec, mid) && !Saturates(Refill(b, spec, mid), spec, now)
  {
    var first, second := (mid - b.lastRefill) * spec.refillPerSec, (now - mid) * spec.refillPerSec;
    SplitProduct(mid - b.lastRefill, now - mid, spec.refillPerSec);
    assert (now - b.lastRefill) * spec.refillPerSec == first + second;
    var half := IdealRefill(b, spec, mid);
    assert half.remNanos <= first + b.remNanos;
    RefillRefinesIdeal(b, spec, mid);
    RefillRefinesIdeal(b, spec, now);
    RefillRefinesIdeal(half, spec, now);
    IdealInPieces(b, spec, mid, now);
  }

  /** A reading before the last one brings nothing and takes nothing, but refills count from it again. */
  lemma EarlierReading(b: Bucket, spec: Spec, now: Instant)
    requires Valid(b, spec) && now <= b.lastRefill
    ensures Refill(b, spec, now) == b.(lastRefill := now)
  {
  }

  /** Saturation included, the tokens of the two ways are the same; only the part of a token may differ. */
  lemma TokensInPieces(b: Bucket, spec: Spec, mid: Instant, now: Instant)
    requires Valid(b, spec) && b.lastRefill <= mid <= now
    ensures Refill(Refill(b, spec, mid), spec, now).tokens == Refill(b, spec, now).tokens
  {
    RefillRefinesIdeal(b, spec, mid);
    RefillRefinesIdeal(b, spec, now);
    RefillRefinesIdeal(Refill(b, spec, mid), spec, now);
    if Saturates(b, spec, mid) {
      SaturatesLater(b, spec, mid, now);
      FullStaysFull(Refill(b, spec, mid), spec, now);
    } else {
      IdealInPieces(b, spec, mid, now);
    }
  }

  lemma SaturatesLater(b: Bucket, spec: Spec, mid: Instant, now: Instant)
    requires b.lastRefill <= mid <= now && Saturates(b, spec, mid)
    ensures Saturates(b, spec, now)
  {
    SplitProduct(mid - b.lastRefill, now - mid, spec.refillPerSec);
  }

  lemma FullStaysFull(b: Bucket, spec: Spec, now: Instant)
    requires b.tokens == spec.capacity
    ensures Refill(b, spec, now).tokens == spec.capacity
  {
  }

  lemma IdealInPieces(b: Bucket, spec: Spec, mid: Instant, now: Instant)
    requires Valid(b, spec) && b.lastRefill <= mid <= now
    ensures IdealRefill(IdealRefill(b, spec, mid), spec, now) == IdealRefill(b, spec, now)
  {
    var first, second := (mid - b.lastRefill) * spec.refillPerSec, (now - mid) * spec.refillPerSec;
    SplitProduct(mid - b.lastRefill, now - mid, spec.refillPerSec);
    assert (now - b.lastRefill) * spec.refillPerSec == first + second;
    CarryOver(first + b.remNanos, second);
  }

  // ---------------------------------------------------------------- runs

  /** Which of the takes are admitted. */
  function Outcomes(b: Bucket, spec: Spec, times: seq<Instant>): (admitted: seq<bool>)
    ensures |admitted| == |times|
    decreases |times|
  {
    if times == [] then []
    else
      var (next, ok) := Take(b, spec, times[0]);
      [ok] + Outcomes(next, spec, times[1..])
  }

  predicate Ordered(times: seq<Instant>, from: Instant) {
    times == [] || (from <= times[0] && Ordered(times[1..], times[0]))
  }

  /** Entries that are not marked for deletion. */
  function Keep<T>(items: seq<T>, deleted: seq<bool>): seq<T>
    requires |items| == |deleted|
  {
    if items == [] then []
    else if deleted[0] then Keep(items[1..], deleted[1..])
    else [items[0]] + Keep(items[1..], deleted[1..])
  }

  /** From the later bucket's time on, the two refill alike, so no take can tell them apart. */
  ghost predicate Alike(early: Bucket, late: Bucket, spec: Spec) {
    && Valid(early, spec) && Valid(late, spec) && early.lastRefill <= late.lastRefill
    && forall now: Instant :: late.lastRefill <= now ==> Refill(early, spec, now) == Refill(late, spec, now)
  }

  /** A take is denied exactly when not one whole token is there, old or refilled. */
  lemma DeniedWhenEmpty(b: Bucket, spec: Spec, now: Instant)
    requires Valid(b, spec) && spec.capacity > 0
    ensures !Take(b, spec, now).1
       <==> b.tokens == 0 && Elapsed(b, now) * spec.refillPerSec + b.remNanos < NANOS_PER_SEC
  {
    RefillRefinesIdeal(b, spec, now);
  }

  lemma SaturateTwice(first: nat, second: nat, rem: nat)
    ensures SaturatingAdd128(Min(second, U128_MAX), first + rem)
         == SaturatingAdd128(Min(first + second, U128_MAX), rem)
  {
  }

  /**
   What a denied take leaves refills as if it had never been, saturation included: there was less than one
   token, so the take itself cannot have saturated.
   */
  lemma DeniedRefill(b: Bucket, spec: Spec, mid: Instant, now: Instant)
    requires Valid(b, spec) && spec.capacity > 0 && b.lastRefill <= mid <= now
    requires !Take(b, spec, mid).1
    ensures Refill(Take(b, spec, mid).0, spec, now) == Refill(b, spec, now)
    ensures Valid(Take(b, spec, mid).0, spec) && Take(b, spec, mid).0.lastRefill == mid
  {
    DeniedWhenEmpty(b, spec, mid);
    RefillRefinesIdeal(b, spec, mid);
    var first, second := (mid - b.lastRefill) * spec.refillPerSec, (now - mid) * spec.refillPerSec;
    assert Take(b, spec, mid).0 == Bucket(0, mid, first + b.remNanos);
    SplitProduct(mid - b.lastRefill, now - mid, spec.refillPerSec);
    assert (now - b.lastRefill) * spec.refillPerSec == first + second;
    SaturateTwice(first, second, b.remNanos);
  }

  lemma {:induction false} OrderedBelow(times: seq<Instant>, from: Instant)
    requires Ordered(times, from) && times != []
    ensures from <= times[0] <= times[|times| - 1]
    decreases |times|
  {
    if |times| > 1 {
      OrderedBelow(times[1..], times[0]);
    }
  }

  lemma DeniedStaysAlike(early: Bucket, late: Bucket, spec: Spec, now: Instant)
    requires Alike(early, late, spec) && spec.capacity > 0 && late.lastRefill <= now && !Take(late, spec, now).1
    ensures Alike(early, Take(late, spec, now).0, spec)
  {
    DeniedRefill(late, spec, now, now);
    forall later: Instant | now <= later
      ensures Refill(early, spec, later) == Refill(Take(late, spec, now).0, spec, later)
    {
      DeniedRefill(late, spec, now, later);
    }
  }

  /** With no room for a token nothing is ever admitted. */
  lemma {:induction false} NoRoom(b: Bucket, spec: Spec, times: seq<Instant>)
    requires Valid(b, spec) && spec.capacity == 0
    ensures Outcomes(b, spec, times) == seq(|times|, _ => false)
    decreases |times|
  {
    if times != [] {
      RefillRefinesIdeal(b, spec, times[0]);
      NoRoom(Take(b, spec, times[0]).0, spec, times[1..]);
    }
  }

  lemma {:induction false} KeepDenials(times: seq<Instant>, deleted: seq<bool>)
    requires |deleted| == |times|
    ensures Keep(seq(|times|, _ => false), deleted) == seq(|Keep(times, deleted)|, _ => false)
    decreases |times|
  {
    if times != [] {
      KeepDenials(times[1..], deleted[1..]);
      assert seq(|times|, _ => false)[1..] == seq(|times| - 1, _ => false);
    }
  }

  lemma {:induction false} DeletedTakes(
      early: Bucket, late: Bucket, spec: Spec, times: seq<Instant>, deleted: seq<bool>)
    requires Alike(early, late, spec) && Ordered(times, late.lastRefill)
    requires |deleted| == |times|
    requires forall i :: 0 <= i < |times| && deleted[i] ==> !Outcomes(late, spec, times)[i]
    ensures Outcomes(early, spec, Keep(times, deleted)) == Keep(Outcomes(late, spec, times), deleted)
    decreases |times|
  {
    if spec.capacity == 0 {
      NoRoom(late, spec, times);
      NoRoom(early, spec, Keep(times, deleted));
      KeepDenials(times, deleted);
    } else if times != [] {
      var now, rest := times[0], times[1..];
      var (next, ok) := Take(late, spec, now);
      assert Take(early, spec, now) == (next, ok);
      AfterTake(late, spec, times);
      forall i | 0 <= i < |rest| && deleted[1..][i] ensures !Outcomes(next, spec, rest)[i] {
        assert deleted[i + 1];
        assert Outcomes(late, spec, times)[i + 1] == Outcomes(next, spec, rest)[i];
      }
      if deleted[0] {
        assert !Outcomes(late, spec, times)[0];
        DeniedStaysAlike(early, late, spec, now);
        DeletedTakes(early, next, spec, rest, deleted[1..]);
      } else {
        DeletedTakes(next, next, spec, rest, deleted[1..]);
        assert ([now] + Keep(rest, deleted[1..]))[1..] == Keep(rest, deleted[1..]);
      }
    }
  }

  lemma AfterTake(b: Bucket, spec: Spec, times: seq<Instant>)
    requires Valid(b, spec) && times != [] && Ordered(times, b.lastRefill)
    ensures var next := Take(b, spec, times[0]).0;
            && Valid(next, spec) && Ordered(times[1..], next.lastRefill)
            && Outcomes(b, spec, times)[1..] == Outcomes(next, spec, times[1..])
  {
    RefillRefinesIdeal(b, spec, times[0]);
  }

  /** Denied takes leave no trace: deleting any of them from any run changes no other answer. */
  lemma DeniedTakesLeaveNoTrace(b: Bucket, spec: Spec, times: seq<Instant>, deleted: seq<bool>)
    requires Valid(b, spec) && Ordered(times, b.lastRefill)
    requires |deleted| == |times|
    requires forall i :: 0 <= i < |times| && deleted[i] ==> !Outcomes(b, spec, times)[i]
    ensures Outcomes(b, spec, Keep(times, deleted)) == Keep(Outcomes(b, spec, times), deleted)
  {
    DeletedTakes(b, b, spec, times, deleted);
  }

  // ---------------------------------------------------------------- at one instant

  /** So many tokens are there to be taken at `now`. */
  predicate HoldsAt(b: Bucket, spec: Spec, now: Instant, tokens: nat) {
    Valid(b, spec) && Refill(b, spec, now).tokens == tokens
  }

  /** A new bucket is full, and stays so. */
  lemma NewIsFull(spec: Spec, start: Instant, now: Instant)
    ensures HoldsAt(New(spec, start), spec, now, spec.capacity)
  {
    FullStaysFull(New(spec, start), spec, now);
  }

  /** At one instant nothing is refilled: each take has one token less. */
  lemma TakeAtOnce(b: Bucket, spec: Spec, now: Instant, tokens: nat)
    requires HoldsAt(b, spec, now, tokens)
    ensures Take(b, spec, now).1 <==> tokens > 0
    ensures HoldsAt(Take(b, spec, now).0, spec, now, if tokens > 0 then tokens - 1 else 0)
  {
    RefillRefinesIdeal(b, spec, now);
    EarlierReading(Take(b, spec, now).0, spec, now);
  }

  // ---------------------------------------------------------------- how much gets through

  function Admitted(outcomes: seq<bool>): nat {
    if outcomes == [] then 0 else (if outcomes[0] then 1 else 0) + Admitted(outcomes[1..])
  }

  /** Tokens and parts of a token in hand, in nanotokens. */
  function Credit(b: Bucket): nat {
    b.tokens * NANOS_PER_SEC + b.remNanos
  }

  lemma RefillCredit(b: Bucket, spec: Spec, now: Instant)
    requires Valid(b, spec) && b.lastRefill <= now
    ensures Credit(Refill(b, spec, now)) <= Credit(b) + (now - b.lastRefill) * spec.refillPerSec
    ensures Valid(Refill(b, spec, now), spec)
    ensures Credit(Refill(b, spec, now)) <= spec.capacity * NANOS_PER_SEC + NANOS_PER_SEC - 1
  {
    RefillRefinesIdeal(b, spec, now);
    var nanos := Elapsed(b, now) * spec.refillPerSec + b.remNanos;
    var capped := Min(nanos, U128_MAX);
    assert Refill(b, spec, now).remNanos == capped % NANOS_PER_SEC;
    assert Refill(b, spec, now).tokens <= b.tokens + capped / NANOS_PER_SEC;
  }

  /** The refill fits: it is not cut off at the capacity. */
  predicate Fits(b: Bucket, spec: Spec, now: Instant) {
    b.tokens + (Elapsed(b, now) * spec.refillPerSec + b.remNanos) / NANOS_PER_SEC <= spec.capacity
  }

  predicate AllFit(b: Bucket, spec: Spec, times: seq<Instant>)
    decreases |times|
  {
    times == [] || (Fits(b, spec, times[0]) && AllFit(Take(b, spec, times[0]).0, spec, times[1..]))
  }

  /** The bucket a run of takes leaves. */
  function After(b: Bucket, spec: Spec, times: seq<Instant>): Bucket
    decreases |times|
  {
    if times == [] then b else After(Take(b, spec, times[0]).0, spec, times[1..])
  }

  lemma FittingRefill(b: Bucket, spec: Spec, now: Instant)
    requires Valid(b, spec) && b.lastRefill <= now && Fits(b, spec, now)
    ensures Credit(Refill(b, spec, now)) == Credit(b) + (now - b.lastRefill) * spec.refillPerSec
    ensures Refill(b, spec, now).lastRefill == now && Valid(Refill(b, spec, now), spec)
  {
    SaturatedProduce();
    RefillRefinesIdeal(b, spec, now);
    var nanos := Elapsed(b, now) * spec.refillPerSec + b.remNanos;
    assert nanos == (nanos / NANOS_PER_SEC) * NANOS_PER_SEC + nanos % NANOS_PER_SEC;
    assert !Saturates(b, spec, now);
  }

  lemma SpendCredit(b: Bucket)
    ensures var (next, ok) := Spend(b); Credit(next) + (if ok then NANOS_PER_SEC else 0) == Credit(b)
  {
  }

  /** The credit that admissions use up. */
  function Cost(outcomes: seq<bool>): nat {
    Admitted(outcomes) * NANOS_PER_SEC
  }

  lemma CostCons(ok: bool, rest: seq<bool>)
    ensures Cost([ok] + rest) == (if ok then NANOS_PER_SEC else 0) + Cost(rest)
  {
    assert ([ok] + rest)[1..] == rest;
    assert (1 + Admitted(rest)) * NANOS_PER_SEC == NANOS_PER_SEC + Admitted(rest) * NANOS_PER_SEC;
  }

  /**
   Conservation: while nothing is cut off at the capacity, what is left and what was admitted add up to
   exactly what was there and what time has brought, to the last billionth of a token.
   */
  lemma {:induction false} CreditConserved(b: Bucket, spec: Spec, times: seq<Instant>)
    requires Valid(b, spec) && Ordered(times, b.lastRefill) && AllFit(b, spec, times)
    ensures var end := After(b, spec, times);
            && b.lastRefill <= end.lastRefill
            && Credit(end) + Cost(Outcomes(b, spec, times))
               == Credit(b) + (end.lastRefill - b.lastRefill) * spec.refillPerSec
    decreases |times|
  {
    if times != [] {
      var now, rest := times[0], times[1..];
      var (next, ok) := Take(b, spec, now);
      FittingRefill(b, spec, now);
      SpendCredit(Refill(b, spec, now));
      CreditConserved(next, spec, rest);
      CostCons(ok, Outcomes(next, spec, rest));
      SplitProduct(now - b.lastRefill, After(next, spec, rest).lastRefill - now, spec.refillPerSec);
    }
  }

  /** Every admission is paid for by credit. */
  lemma {:induction false} PaidFor(b: Bucket, spec: Spec, times: seq<Instant>)
    requires Valid(b, spec) && Ordered(times, b.lastRefill)
    ensures var end := if times == [] then b.lastRefill else times[|times| - 1];
            Admitted(Outcomes(b, spec, times)) * NANOS_PER_SEC
              <= Credit(b) + (end - b.lastRefill) * spec.refillPerSec
    decreases |times|
  {
    if times != [] {
      var now, rest := times[0], times[1..];
      OrderedBelow(times, b.lastRefill);
      var (next, ok) := Take(b, spec, now);
      RefillCredit(b, spec, now);
      PaidFor(next, spec, rest);
      var end := times[|times| - 1];
      SplitProduct(now - b.lastRefill, end - now, spec.refillPerSec);
      assert Outcomes(b, spec, times)[1..] == Outcomes(next, spec, rest);
    }
  }

  /** The most that a window of `nanos` nanoseconds lets through. */
  function WindowLimit(spec: Spec, nanos: nat): nat {
    spec.capacity + (nanos * spec.refillPerSec + NANOS_PER_SEC - 1) / NANOS_PER_SEC
  }

  predicate AdmittedWithin(outcomes: seq<bool>, spec: Spec, nanos: nat) {
    Admitted(outcomes) <= WindowLimit(spec, nanos)
  }

  lemma WindowArithmetic(n: nat, capacity: nat, product: nat)
    requires n * NANOS_PER_SEC <= capacity * NANOS_PER_SEC + NANOS_PER_SEC - 1 + product
    ensures n <= capacity + (product + NANOS_PER_SEC - 1) / NANOS_PER_SEC
  {
  }

  /** Time from the first take of a run to its last. */
  function Span(times: seq<Instant>): nat
    requires times != []
  {
    if times[|times| - 1] < times[0] then 0 else times[|times| - 1] - times[0]
  }

  lemma FirstTakePaidFor(b: Bucket, spec: Spec, times: seq<Instant>)
    requires Valid(b, spec) && times != [] && Ordered(times, b.lastRefill)
    ensures Admitted(Outcomes(b, spec, times)) * NANOS_PER_SEC
              <= spec.capacity * NANOS_PER_SEC + NANOS_PER_SEC - 1 + Span(times) * spec.refillPerSec
  {
    var now, rest := times[0], times[1..];
    OrderedBelow(times, b.lastRefill);
    var (next, ok) := Take(b, spec, now);
    RefillCredit(b, spec, now);
    SpendCredit(Refill(b, spec, now));
    PaidFor(next, spec, rest);
    assert (if rest == [] then now else rest[|rest| - 1]) - now == Span(times);
    CostCons(ok, Outcomes(next, spec, rest));
    assert Cost(Outcomes(b, spec, times)) == (if ok then NANOS_PER_SEC else 0) + Cost(Outcomes(next, spec, rest));
  }

  /**
   Window bound, saturation included: from one take through another of the same bucket, at most
   the capacity plus what the time between them refills is admitted.
   */
  lemma WindowBound(b: Bucket, spec: Spec, times: seq<Instant>)
    requires Valid(b, spec) && times != [] && Ordered(times, b.lastRefill)
    ensures Admitted(Outcomes(b, spec, times)) <= WindowLimit(spec, Span(times))
  {
    FirstTakePaidFor(b, spec, times);
    CreditBoundsCount(Admitted(Outcomes(b, spec, times)), spec, Span(times));
  }

  lemma CreditBoundsCount(n: nat, spec: Spec, nanos: nat)
    requires n * NANOS_PER_SEC <= spec.capacity * NANOS_PER_SEC + NANOS_PER_SEC - 1 + nanos * spec.refillPerSec
    ensures n <= WindowLimit(spec, nanos)
  {
    WindowArithmetic(n, spec.capacity, nanos * spec.refillPerSec);
  }

  lemma {:induction false} OutcomesPrefix(b: Bucket, spec: Spec, times: seq<Instant>, n: nat)
    requires n <= |times|
    ensures Outcomes(b, spec, times[..n]) == Outcomes(b, spec, times)[..n]
    decreases |times|
  {
    if 0 < n {
      OutcomesPrefix(Take(b, spec, times[0]).0, spec, times[1..], n - 1);
      assert times[..n][1..] == times[1..][..n - 1];
    }
  }

  lemma {:induction false} OrderedPrefix(times: seq<Instant>, from: Instant, n: nat)
    requires Ordered(times, from) && n <= |times|
    ensures Ordered(times[..n], from)
    decreases |times|
  {
    if 0 < n {
      OrderedPrefix(times[1..], times[0], n - 1);
      assert times[..n][1..] == times[1..][..n - 1];
    }
  }

  lemma SliceOfTail(outcomes: seq<bool>, rest: seq<bool>, i: nat, j: nat)
    requires 0 < i <= j < |outcomes| && outcomes[1..] == rest
    ensures outcomes[i..j + 1] == rest[i - 1..j]
  {
  }

  /** The window bound for any two takes of a run, the `i`-th through the `j`-th. */
  lemma {:induction false} AnyWindowBound(b: Bucket, spec: Spec, times: seq<Instant>, i: nat, j: nat)
    requires Valid(b, spec) && Ordered(times, b.lastRefill) && i <= j < |times|
    ensures times[i] <= times[j]
    ensures AdmittedWithin(Outcomes(b, spec, times)[i..j + 1], spec, times[j] - times[i])
    decreases i
  {
    if i == 0 {
      WindowFromStart(b, spec, times, j);
    } else {
      var next, rest := Take(b, spec, times[0]).0, times[1..];
      AfterTake(b, spec, times);
      AnyWindowBound(next, spec, rest, i - 1, j - 1);
      SliceOfTail(Outcomes(b, spec, times), Outcomes(next, spec, rest), i, j);
    }
  }

  lemma {:induction false} WindowFromStart(b: Bucket, spec: Spec, times: seq<Instant>, j: nat)
    requires Valid(b, spec) && Ordered(times, b.lastRefill) && j < |times|
    ensures times[0] <= times[j]
    ensures AdmittedWithin(Outcomes(b, spec, times)[..j + 1], spec, times[j] - times[0])
  {
    var window := times[..j + 1];
    OrderedPrefix(times, b.lastRefill, j + 1);
    OrderedBelow(window, b.lastRefill);
    WindowBound(b, spec, window);
    OutcomesPrefix(b, spec, times, j + 1);
  }
}
