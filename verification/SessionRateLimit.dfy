/** The limiter for session creation of src/http/hardening.rs: one global bucket, one per client key. */
module SessionRateLimit {
  import opened Wrappers
  import opened TokenBucket

  datatype Limits = Limits(global: Option<Spec>, perIp: Option<Spec>)

  /** The global bucket means nothing where the limits name none. */
  datatype Limiter = Limiter(global: Bucket, perIp: map<string, Bucket>)

  /** A request with the clock readings its two takes and a newly made bucket may make. */
  datatype Request = Request(key: Option<string>, globalAt: Instant, createdAt: Instant, keyAt: Instant)

  const UNKNOWN_PEER := "unknown-peer"

  function KeyOf(request: Request): string {
    match request.key case None => UNKNOWN_PEER case Some(key) => key
  }

  function BucketFor(perIp: map<string, Bucket>, key: string, spec: Spec, createdAt: Instant): Bucket {
    if key in perIp then perIp[key] else New(spec, createdAt)
  }

  function AllowKey(perIp: map<string, Bucket>, spec: Spec, request: Request): (map<string, Bucket>, bool) {
    var key := KeyOf(request);
    var (bucket, ok) := Take(BucketFor(perIp, key, spec, request.createdAt), spec, request.keyAt);
    (perIp[key := bucket], ok)
  }

  /** allow_with_key. */
  function Allow(limits: Limits, l: Limiter, request: Request): (Limiter, bool) {
    var (global, passed) :=
      match limits.global
      case None => (l.global, true)
      case Some(spec) => Take(l.global, spec, request.globalAt);
    if !passed then (l.(global := global), false)
    else match limits.perIp
      case None => (l.(global := global), true)
      case Some(spec) =>
        var (perIp, ok) := AllowKey(l.perIp, spec, request);
        (Limiter(global, perIp), ok)
  }

  /** The limiter as the source keeps it: buckets updated in place under their locks. */
  class SessionCreationRateLimiter {
    const limits: Limits
    var global: Bucket
    var perIp: map<string, Bucket>

    ghost function View(): Limiter
      reads this
    {
      Limiter(global, perIp)
    }

    constructor (limits: Limits, now: Instant)
      ensures this.limits == limits && View() == Initial(limits, now)
    {
      this.limits := limits;
      global := match limits.global case None => New(Spec(0, 0), now) case Some(spec) => New(spec, now);
      perIp := map[];
    }

    method TakeGlobal(spec: Spec, now: Instant) returns (ok: bool)
      modifies this`global
      ensures (global, ok) == Take(old(global), spec, now)
    {
      var elapsedNanos := if now < global.lastRefill then 0 else now - global.lastRefill;
      var refillNanos := SaturatingAdd128(SaturatingMul128(elapsedNanos, spec.refillPerSec), global.remNanos);
      var produced := Min(refillNanos / NANOS_PER_SEC, U64_MAX);
      global := global.(lastRefill := now, remNanos := refillNanos % NANOS_PER_SEC);
      global := global.(tokens := Min(SaturatingAdd64(global.tokens, produced), spec.capacity));
      if global.tokens >= 1 {
        global := global.(tokens := global.tokens - 1);
        return true;
      }
      return false;
    }

    method AllowWithKey(request: Request) returns (ok: bool)
      modifies this
      ensures (View(), ok) == Allow(limits, old(View()), request)
    {
      if limits.global.Some? {
        ok := TakeGlobal(limits.global.value, request.globalAt);
        if !ok {
          return false;
        }
      }
      if limits.perIp.Some? {
        var spec := limits.perIp.value;
        var key := match request.key case None => UNKNOWN_PEER case Some(key) => key;
        if key !in perIp {
          perIp := perIp[key := New(spec, request.createdAt)];
        }
        var bucket, took := Take(perIp[key], spec, request.keyAt).0, Take(perIp[key], spec, request.keyAt).1;
        perIp := perIp[key := bucket];
        assert perIp == AllowKey(old(perIp), spec, request).0;
        if !took {
          return false;
        }
      }
      return true;
    }
  }

  function Initial(limits: Limits, now: Instant): Limiter {
    Limiter(match limits.global case None => New(Spec(0, 0), now) case Some(spec) => New(spec, now), map[])
  }

  // ---------------------------------------------------------------- runs

  function Answers(limits: Limits, l: Limiter, run: seq<Request>): (answers: seq<bool>)
    ensures |answers| == |run|
    decreases |run|
  {
    if run == [] then []
    else
      var (next, ok) := Allow(limits, l, run[0]);
      [ok] + Answers(limits, next, run[1..])
  }

  function AnswersFor(limits: Limits, l: Limiter, run: seq<Request>, key: string): seq<bool>
    decreases |run|
  {
    if run == [] then []
    else
      var (next, ok) := Allow(limits, l, run[0]);
      var rest := AnswersFor(limits, next, run[1..], key);
      if KeyOf(run[0]) == key then [ok] + rest else rest
  }

  function Restrict(run: seq<Request>, key: string): seq<Request> {
    if run == [] then []
    else if KeyOf(run[0]) == key then [run[0]] + Restrict(run[1..], key)
    else Restrict(run[1..], key)
  }

  /** Every client key gets the answers it would get alone. */
  ghost predicate Isolated(limits: Limits) {
    forall run, key, start :: Clocked(run, start) ==>
      AnswersFor(limits, Initial(limits, start), run, key)
        == Answers(limits, Initial(limits, start), Restrict(run, key))
  }

  /** The monotonic clock: readings only grow, within a request and from one request to the next. */
  predicate Clocked(run: seq<Request>, from: Instant) {
    run == [] ||
    (from <= run[0].globalAt <= run[0].createdAt <= run[0].keyAt && Clocked(run[1..], run[0].keyAt))
  }

  lemma {:induction false} SameBucketSameAnswers(limits: Limits, a: Limiter, b: Limiter, run: seq<Request>, key: string)
    requires limits.global.None?
    requires key in a.perIp <==> key in b.perIp
    requires key in a.perIp ==> a.perIp[key] == b.perIp[key]
    ensures AnswersFor(limits, a, run, key) == Answers(limits, b, Restrict(run, key))
    decreases |run|
  {
    if run != [] {
      var a' := Allow(limits, a, run[0]).0;
      if KeyOf(run[0]) == key {
        SameBucketSameAnswers(limits, a', Allow(limits, b, run[0]).0, run[1..], key);
        assert ([run[0]] + Restrict(run[1..], key))[1..] == Restrict(run[1..], key);
      } else {
        SameBucketSameAnswers(limits, a', b, run[1..], key);
      }
    }
  }

  /** Without a global bucket no key ever notices another. */
  lemma PerKeyIsolation(limits: Limits)
    requires limits.global.None?
    ensures Isolated(limits)
  {
    forall run, key, start | Clocked(run, start)
      ensures AnswersFor(limits, Initial(limits, start), run, key)
           == Answers(limits, Initial(limits, start), Restrict(run, key))
    {
      SameBucketSameAnswers(limits, Initial(limits, start), Initial(limits, start), run, key);
    }
  }

  // ---------------------------------------------------------------- isolation, exactly

  /** No request gets through at all. */
  predicate Blocks(limits: Limits) {
    || (limits.global.Some? && limits.global.value.capacity == 0)
    || (limits.perIp.Some? && limits.perIp.value.capacity == 0)
  }

  function Denials(n: nat): seq<bool> {
    seq(n, _ => false)
  }

  lemma {:induction false} BlockedAnswers(limits: Limits, l: Limiter, run: seq<Request>, key: string)
    requires Blocks(limits)
    ensures Answers(limits, l, run) == Denials(|run|)
    ensures AnswersFor(limits, l, run, key) == Denials(|Restrict(run, key)|)
    decreases |run|
  {
    if run != [] {
      var next := Allow(limits, l, run[0]).0;
      assert !Allow(limits, l, run[0]).1;
      BlockedAnswers(limits, next, run[1..], key);
    }
  }

  /** `n` requests of another client at time zero. */
  function Burst(n: nat): seq<Request> {
    seq(n, _ => Request(Some("b"), 0, 0, 0))
  }

  const PROBE := Request(Some("a"), 0, 0, 0)

  lemma {:induction false} BurstClocked(n: nat)
    ensures Clocked(Burst(n) + [PROBE], 0)
    ensures Restrict(Burst(n) + [PROBE], "a") == [PROBE]
  {
    if 0 < n {
      BurstClocked(n - 1);
      assert (Burst(n) + [PROBE])[1..] == Burst(n - 1) + [PROBE];
    } else {
      assert Burst(0) + [PROBE] == [PROBE];
      assert [PROBE][1..] == [];
    }
  }

  /** At one instant nothing is refilled: each request of the burst takes one token. */
  lemma BurstTakes(limits: Limits, l: Limiter, n: nat)
    requires limits.global.Some? && l.global == Bucket(n, 0, 0) && 0 < n <= limits.global.value.capacity
    ensures Allow(limits, l, Burst(n)[0]).0.global == Bucket(n - 1, 0, 0)
  {
  }

  lemma {:induction false} BurstDrains(limits: Limits, l: Limiter, n: nat)
    requires limits.global.Some? && l.global == Bucket(n, 0, 0) && n <= limits.global.value.capacity
    ensures AnswersFor(limits, l, Burst(n) + [PROBE], "a") == [false]
    decreases n
  {
    var run := Burst(n) + [PROBE];
    var next := Allow(limits, l, run[0]).0;
    if 0 < n {
      assert run[0] == Burst(n)[0] && KeyOf(run[0]) != "a";
      assert run[1..] == Burst(n - 1) + [PROBE];
      BurstTakes(limits, l, n);
      BurstDrains(limits, next, n - 1);
    } else {
      assert run == [PROBE];
      assert AnswersFor(limits, next, [], "a") == [];
    }
  }

  /** With a global bucket that lets anything through, one client can use up another's turn. */
  lemma GlobalBucketLeaks(limits: Limits)
    requires limits.global.Some? && !Blocks(limits)
    ensures !Isolated(limits)
  {
    var n := limits.global.value.capacity;
    var run := Burst(n) + [PROBE];
    var start := Initial(limits, 0);
    BurstClocked(n);
    BurstDrains(limits, start, n);
    assert Allow(limits, start, PROBE).1;
    assert Answers(limits, start, [PROBE])[0] == true;
    assert AnswersFor(limits, start, run, "a") != Answers(limits, start, Restrict(run, "a"));
  }

  /** The exact condition for isolation between client keys. */
  lemma IsolationExactly(limits: Limits)
    ensures Isolated(limits) <==> limits.global.None? || Blocks(limits)
  {
    if limits.global.None? {
      PerKeyIsolation(limits);
    } else if Blocks(limits) {
      forall run, key, start | Clocked(run, start)
        ensures AnswersFor(limits, Initial(limits, start), run, key)
             == Answers(limits, Initial(limits, start), Restrict(run, key))
      {
        BlockedAnswers(limits, Initial(limits, start), run, key);
        BlockedAnswers(limits, Initial(limits, start), Restrict(run, key), key);
      }
    } else {
      GlobalBucketLeaks(limits);
    }
  }

  // ---------------------------------------------------------------- a burst of one client

  function AtOnce(key: Option<string>, now: Instant, n: nat): seq<Request> {
    seq(n, _ => Request(key, now, now, now))
  }

  /** So many tokens are there for `key` at `now`, in the global bucket and in its own. */
  predicate RoomAt(limits: Limits, l: Limiter, key: string, now: Instant, inGlobal: nat, inOwn: nat) {
    && (limits.global.Some? ==> HoldsAt(l.global, limits.global.value, now, inGlobal))
    && (limits.perIp.Some? ==>
          HoldsAt(BucketFor(l.perIp, key, limits.perIp.value, now), limits.perIp.value, now, inOwn))
  }

  function OneLess(n: nat): nat {
    if n > 0 then n - 1 else 0
  }

  /** One request takes one token from each bucket it comes to, if there is one. */
  lemma TakesRoom(limits: Limits, l: Limiter, request: Request, now: Instant, inGlobal: nat, inOwn: nat)
    requires request.globalAt == request.createdAt == request.keyAt == now
    requires RoomAt(limits, l, KeyOf(request), now, inGlobal, inOwn)
    requires (limits.global.None? ==> 0 < inGlobal) && (limits.perIp.None? ==> 0 < inOwn)
    ensures Allow(limits, l, request).1 <==> 0 < inGlobal && 0 < inOwn
    ensures RoomAt(
      limits, Allow(limits, l, request).0, KeyOf(request), now, OneLess(inGlobal),
      if 0 < inGlobal then OneLess(inOwn) else inOwn)
  {
    if limits.global.Some? {
      TakeAtOnce(l.global, limits.global.value, now, inGlobal);
    }
    if limits.perIp.Some? {
      TakeAtOnce(BucketFor(l.perIp, KeyOf(request), limits.perIp.value, now), limits.perIp.value, now, inOwn);
    }
  }

  lemma {:induction false} AdmitsRoom(
      limits: Limits, l: Limiter, key: Option<string>, now: Instant, inGlobal: nat, inOwn: nat, n: nat)
    requires RoomAt(limits, l, if key.None? then UNKNOWN_PEER else key.value, now, inGlobal, inOwn)
    requires (limits.global.None? ==> n <= inGlobal) && (limits.perIp.None? ==> n <= inOwn)
    ensures Admitted(Answers(limits, l, AtOnce(key, now, n))) == Min(n, Min(inGlobal, inOwn))
    decreases n
  {
    if n > 0 {
      var run := AtOnce(key, now, n);
      var (next, ok) := Allow(limits, l, run[0]);
      var leftInOwn := if 0 < inGlobal then OneLess(inOwn) else inOwn;
      assert run[1..] == AtOnce(key, now, n - 1);
      TakesRoom(limits, l, run[0], now, inGlobal, inOwn);
      AdmitsRoom(limits, next, key, now, OneLess(inGlobal), leftInOwn, n - 1);
      AdmittedCons(ok, Answers(limits, next, run[1..]));
    }
  }

  /**
   Of any number of requests that one client makes at one instant, a new limiter admits as many as its buckets
   hold tokens, no more and no fewer. Clients that cannot be told apart count as one, named "unknown-peer".
   */
  lemma BurstAdmitted(limits: Limits, key: Option<string>, start: Instant, now: Instant, n: nat)
    ensures
      var inGlobal := if limits.global.Some? then limits.global.value.capacity else n;
      var inOwn := if limits.perIp.Some? then limits.perIp.value.capacity else n;
      Admitted(Answers(limits, Initial(limits, start), AtOnce(key, now, n))) == Min(n, Min(inGlobal, inOwn))
    ensures key.None? ==>
      Answers(limits, Initial(limits, start), AtOnce(key, now, n))
      == Answers(limits, Initial(limits, start), AtOnce(Some("unknown-peer"), now, n))
  {
    var inGlobal := if limits.global.Some? then limits.global.value.capacity else n;
    var inOwn := if limits.perIp.Some? then limits.perIp.value.capacity else n;
    if limits.global.Some? {
      NewIsFull(limits.global.value, start, now);
    }
    if limits.perIp.Some? {
      NewIsFull(limits.perIp.value, now, now);
    }
    AdmitsRoom(limits, Initial(limits, start), key, now, inGlobal, inOwn, n);
    if key.None? {
      NamelessAnswers(limits, Initial(limits, start), now, n);
    }
  }

  lemma {:induction false} NamelessAnswers(limits: Limits, l: Limiter, now: Instant, n: nat)
    ensures Answers(limits, l, AtOnce(None, now, n)) == Answers(limits, l, AtOnce(Some("unknown-peer"), now, n))
    decreases n
  {
    if n > 0 {
      var run, named := AtOnce(None, now, n), AtOnce(Some("unknown-peer"), now, n);
      assert run[1..] == AtOnce(None, now, n - 1) && named[1..] == AtOnce(Some("unknown-peer"), now, n - 1);
      NamelessAnswers(limits, Allow(limits, l, run[0]).0, now, n - 1);
    }
  }

  // ---------------------------------------------------------------- both window bounds

  function GlobalTimes(run: seq<Request>): (times: seq<Instant>)
    ensures |times| == |run|
  {
    seq(|run|, i requires 0 <= i < |run| => run[i].globalAt)
  }

  lemma GlobalTimesTail(run: seq<Request>)
    requires run != []
    ensures GlobalTimes(run)[1..] == GlobalTimes(run[1..])
  {
  }

  /** An admitted request has taken a token from the global bucket. */
  lemma {:induction false} AdmittedTookGlobal(limits: Limits, l: Limiter, run: seq<Request>, spec: Spec)
    requires limits.global == Some(spec)
    ensures forall i :: 0 <= i < |run| && Answers(limits, l, run)[i] ==>
              Outcomes(l.global, spec, GlobalTimes(run))[i]
    decreases |run|
  {
    if run != [] {
      var next := Allow(limits, l, run[0]).0;
      AdmittedTookGlobal(limits, next, run[1..], spec);
      GlobalTimesTail(run);
      assert Outcomes(l.global, spec, GlobalTimes(run))[1..]
          == Outcomes(next.global, spec, GlobalTimes(run[1..]));
      assert Answers(limits, l, run)[1..] == Answers(limits, next, run[1..]);
    }
  }

  lemma {:induction false} FewerAdmitted(a: seq<bool>, b: seq<bool>)
    requires |a| == |b| && forall i :: 0 <= i < |a| && a[i] ==> b[i]
    ensures Admitted(a) <= Admitted(b)
  {
    if a != [] {
      FewerAdmitted(a[1..], b[1..]);
    }
  }

  lemma {:induction false} GlobalTimesOrdered(run: seq<Request>, from: Instant)
    requires Clocked(run, from)
    ensures Ordered(GlobalTimes(run), from)
    decreases |run|
  {
    if run != [] {
      GlobalTimesTail(run);
      GlobalTimesOrdered(run[1..], run[0].keyAt);
    }
  }

  /** Which requests took a token from the global bucket: all that were admitted, and within its bound. */
  lemma TakesWithin(limits: Limits, l: Limiter, run: seq<Request>, spec: Spec, i: nat, j: nat)
    returns (taken: seq<bool>)
    requires limits.global == Some(spec) && Valid(l.global, spec)
    requires Clocked(run, l.global.lastRefill) && i <= j < |run|
    ensures |taken| == |run| && forall k :: 0 <= k < |run| && Answers(limits, l, run)[k] ==> taken[k]
    ensures run[i].globalAt <= run[j].globalAt
    ensures AdmittedWithin(taken[i..j + 1], spec, run[j].globalAt - run[i].globalAt)
  {
    taken := Outcomes(l.global, spec, GlobalTimes(run));
    AdmittedTookGlobal(limits, l, run, spec);
    GlobalTimesOrdered(run, l.global.lastRefill);
    AnyWindowBound(l.global, spec, GlobalTimes(run), i, j);
  }

  /** In every window of a run, admitted requests obey the bound of the global bucket. */
  lemma {:induction false} GlobalWindow(limits: Limits, l: Limiter, run: seq<Request>, spec: Spec, i: nat, j: nat)
    requires limits.global == Some(spec) && Valid(l.global, spec)
    requires Clocked(run, l.global.lastRefill) && i <= j < |run|
    ensures run[i].globalAt <= run[j].globalAt
    ensures AdmittedWithin(Answers(limits, l, run)[i..j + 1], spec, run[j].globalAt - run[i].globalAt)
  {
    var taken := TakesWithin(limits, l, run, spec, i, j);
    SliceWithin(Answers(limits, l, run), taken, i, j, spec, run[j].globalAt - run[i].globalAt);
  }

  lemma SliceWithin(a: seq<bool>, b: seq<bool>, i: nat, j: nat, spec: Spec, nanos: nat)
    requires |a| == |b| && i <= j < |a| && forall k :: 0 <= k < |a| && a[k] ==> b[k]
    requires AdmittedWithin(b[i..j + 1], spec, nanos)
    ensures AdmittedWithin(a[i..j + 1], spec, nanos)
  {
    FewerAdmitted(a[i..j + 1], b[i..j + 1]);
  }

  /** The request gets as far as its key's bucket. */
  predicate Reaches(limits: Limits, l: Limiter, request: Request) {
    limits.global.None? || Take(l.global, limits.global.value, request.globalAt).1
  }

  /** When the bucket of `key` is asked during a run. */
  function KeyTimes(limits: Limits, l: Limiter, run: seq<Request>, key: string): seq<Instant>
    decreases |run|
  {
    if run == [] then []
    else
      var rest := KeyTimes(limits, Allow(limits, l, run[0]).0, run[1..], key);
      if KeyOf(run[0]) == key && Reaches(limits, l, run[0]) then [run[0].keyAt] + rest else rest
  }

  /** The bucket that serves `key` during a run: the one at hand, or the one its first request makes. */
  function ServingBucket(limits: Limits, l: Limiter, run: seq<Request>, key: string, spec: Spec): Bucket
    decreases |run|
  {
    if key in l.perIp then l.perIp[key]
    else if run == [] then New(spec, 0)
    else if KeyOf(run[0]) == key && Reaches(limits, l, run[0]) then New(spec, run[0].createdAt)
    else ServingBucket(limits, Allow(limits, l, run[0]).0, run[1..], key, spec)
  }

  /** How many requests of `key` a run admits. */
  function AdmittedFor(limits: Limits, l: Limiter, run: seq<Request>, key: string): nat
    decreases |run|
  {
    if run == [] then 0
    else
      var (next, ok) := Allow(limits, l, run[0]);
      (if KeyOf(run[0]) == key && ok then 1 else 0) + AdmittedFor(limits, next, run[1..], key)
  }

  lemma {:induction false} AdmittedByBucket(limits: Limits, l: Limiter, run: seq<Request>, key: string, spec: Spec)
    requires limits.perIp == Some(spec)
    ensures AdmittedFor(limits, l, run, key)
         == Admitted(Outcomes(ServingBucket(limits, l, run, key, spec), spec, KeyTimes(limits, l, run, key)))
    decreases |run|
  {
    if run != [] {
      var next := Allow(limits, l, run[0]).0;
      AdmittedByBucket(limits, next, run[1..], key, spec);
      if KeyOf(run[0]) == key && Reaches(limits, l, run[0]) {
        var bucket := ServingBucket(limits, l, run, key, spec);
        var rest := KeyTimes(limits, next, run[1..], key);
        assert next.perIp[key] == Take(bucket, spec, run[0].keyAt).0;
        assert ([run[0].keyAt] + rest)[1..] == rest;
        AdmittedCons(Take(bucket, spec, run[0].keyAt).1, Outcomes(next.perIp[key], spec, rest));
      }
    }
  }

  lemma AdmittedCons(ok: bool, rest: seq<bool>)
    ensures Admitted([ok] + rest) == (if ok then 1 else 0) + Admitted(rest)
  {
    assert ([ok] + rest)[1..] == rest;
  }

  predicate KeyBucketOk(l: Limiter, key: string, spec: Spec, now: Instant) {
    key in l.perIp ==> Valid(l.perIp[key], spec) && l.perIp[key].lastRefill <= now
  }

  lemma {:induction false} KeyTimesOrdered(
      limits: Limits, l: Limiter, run: seq<Request>, key: string, spec: Spec, from: Instant)
    requires limits.perIp == Some(spec) && Clocked(run, from) && KeyBucketOk(l, key, spec, from)
    ensures var times := KeyTimes(limits, l, run, key);
            var bucket := ServingBucket(limits, l, run, key, spec);
            && Ordered(times, from) && Valid(bucket, spec)
            && (times != [] ==> bucket.lastRefill <= times[0])
            && (times != [] ==> run[0].keyAt <= times[0] && times[|times| - 1] <= run[|run| - 1].keyAt)
    decreases |run|
  {
    if run != [] {
      var next := Allow(limits, l, run[0]).0;
      if KeyOf(run[0]) == key && Reaches(limits, l, run[0]) {
        RefillRefinesIdeal(BucketFor(l.perIp, key, spec, run[0].createdAt), spec, run[0].keyAt);
      }
      KeyTimesOrdered(limits, next, run[1..], key, spec, run[0].keyAt);
      LastKeyAt(run, from);
    }
  }

  lemma {:induction false} LastKeyAt(run: seq<Request>, from: Instant)
    requires Clocked(run, from) && run != []
    ensures run[0].keyAt <= run[|run| - 1].keyAt
    ensures |run| > 1 ==> run[0].keyAt <= run[1].keyAt
    decreases |run|
  {
    if |run| > 1 {
      LastKeyAt(run[1..], run[0].keyAt);
    }
  }

  lemma WindowGrows(spec: Spec, short: nat, long: nat)
    requires short <= long
    ensures WindowLimit(spec, short) <= WindowLimit(spec, long)
  {
    SplitProduct(short, long - short, spec.refillPerSec);
  }

  /** The requests of one key obey the bound of its own bucket, whatever the global one does. */
  lemma KeyWindow(limits: Limits, l: Limiter, run: seq<Request>, key: string, spec: Spec, from: Instant)
    requires limits.perIp == Some(spec) && Clocked(run, from) && KeyBucketOk(l, key, spec, from)
    requires run != []
    ensures run[0].keyAt <= run[|run| - 1].keyAt
    ensures AdmittedFor(limits, l, run, key) <= WindowLimit(spec, run[|run| - 1].keyAt - run[0].keyAt)
  {
    var bucket, times := ServingBucket(limits, l, run, key, spec), KeyTimes(limits, l, run, key);
    KeyTimesOrdered(limits, l, run, key, spec, from);
    AdmittedByBucket(limits, l, run, key, spec);
    LastKeyAt(run, from);
    if times != [] {
      WithinSpan(bucket, spec, times, from, run[0].keyAt, run[|run| - 1].keyAt);
    }
  }

  /** What a bucket admits between `first` and `last`. */
  lemma WithinSpan(bucket: Bucket, spec: Spec, times: seq<Instant>, from: Instant, first: Instant, last: Instant)
    requires Valid(bucket, spec) && times != [] && Ordered(times, from) && bucket.lastRefill <= times[0]
    requires first <= times[0] && times[|times| - 1] <= last && first <= last
    ensures Admitted(Outcomes(bucket, spec, times)) <= WindowLimit(spec, last - first)
  {
    OrderedFromFirst(times, from, bucket.lastRefill);
    WindowBound(bucket, spec, times);
    WindowGrows(spec, Span(times), last - first);
  }

  lemma OrderedFromFirst(times: seq<Instant>, from: Instant, start: Instant)
    requires times != [] && Ordered(times, from) && start <= times[0]
    ensures Ordered(times, start)
  {
  }

  // ---------------------------------------------------------------- any window of one key

  /** How many of these requests of `key` were admitted. */
  function AdmittedOf(run: seq<Request>, answers: seq<bool>, key: string): nat
    requires |run| == |answers|
    decreases |run|
  {
    if run == [] then 0
    else (if KeyOf(run[0]) == key && answers[0] then 1 else 0) + AdmittedOf(run[1..], answers[1..], key)
  }

  lemma {:induction false} CountedByAnswers(limits: Limits, l: Limiter, run: seq<Request>, key: string)
    ensures AdmittedFor(limits, l, run, key) == AdmittedOf(run, Answers(limits, l, run), key)
    decreases |run|
  {
    if run != [] {
      var next := Allow(limits, l, run[0]).0;
      CountedByAnswers(limits, next, run[1..], key);
      AnswersTail(limits, l, run);
    }
  }

  lemma AnswersTail(limits: Limits, l: Limiter, run: seq<Request>)
    requires run != []
    ensures Answers(limits, l, run)[0] == Allow(limits, l, run[0]).1
    ensures Answers(limits, l, run)[1..] == Answers(limits, Allow(limits, l, run[0]).0, run[1..])
  {
  }

  lemma {:induction false} AnswersPrefix(limits: Limits, l: Limiter, run: seq<Request>, n: nat)
    requires n <= |run|
    ensures Answers(limits, l, run[..n]) == Answers(limits, l, run)[..n]
    decreases |run|
  {
    if n > 0 {
      var next := Allow(limits, l, run[0]).0;
      AnswersPrefix(limits, next, run[1..], n - 1);
      assert run[..n][1..] == run[1..][..n - 1];
      AnswersTail(limits, l, run);
      AnswersTail(limits, l, run[..n]);
      FirstAndRest(Answers(limits, l, run), Answers(limits, l, run[..n]), n);
    }
  }

  lemma FirstAndRest(whole: seq<bool>, part: seq<bool>, n: nat)
    requires 0 < n <= |whole| && |part| == n
    requires whole[0] == part[0] && part[1..] == whole[1..][..n - 1]
    ensures part == whole[..n]
  {
    forall k | 0 <= k < n ensures part[k] == whole[k] {
      if k > 0 {
        assert part[1..][k - 1] == whole[1..][k - 1];
      }
    }
  }

  lemma {:induction false} ClockedPrefix(run: seq<Request>, from: Instant, n: nat)
    requires Clocked(run, from) && n <= |run|
    ensures Clocked(run[..n], from)
    decreases |run|
  {
    if n > 0 {
      ClockedPrefix(run[1..], run[0].keyAt, n - 1);
      assert run[..n][1..] == run[1..][..n - 1];
    }
  }

  /** Serving a request leaves every key's bucket in order. */
  lemma KeyBucketStays(limits: Limits, l: Limiter, request: Request, key: string, spec: Spec, from: Instant)
    requires limits.perIp == Some(spec) && KeyBucketOk(l, key, spec, from)
    requires from <= request.createdAt <= request.keyAt
    ensures KeyBucketOk(Allow(limits, l, request).0, key, spec, request.keyAt)
  {
    if KeyOf(request) == key && Reaches(limits, l, request) {
      RefillRefinesIdeal(BucketFor(l.perIp, key, spec, request.createdAt), spec, request.keyAt);
    }
  }

  /** The requests of one key among these obey the bound for this long. */
  predicate KeyWithin(run: seq<Request>, answers: seq<bool>, key: string, spec: Spec, nanos: nat)
    requires |run| == |answers|
  {
    AdmittedOf(run, answers, key) <= WindowLimit(spec, nanos)
  }

  lemma {:induction false} KeyWindowFromFirst(
      limits: Limits, l: Limiter, run: seq<Request>, key: string, spec: Spec, from: Instant, j: nat)
    requires limits.perIp == Some(spec) && Clocked(run, from) && KeyBucketOk(l, key, spec, from)
    requires j < |run|
    ensures run[0].keyAt <= run[j].keyAt
    ensures KeyWithin(run[..j + 1], Answers(limits, l, run)[..j + 1], key, spec, run[j].keyAt - run[0].keyAt)
  {
    var window := run[..j + 1];
    ClockedPrefix(run, from, j + 1);
    KeyWindow(limits, l, window, key, spec, from);
    CountedByAnswers(limits, l, window, key);
    AnswersPrefix(limits, l, run, j + 1);
  }

  lemma SlicesOfTail<T>(whole: seq<T>, rest: seq<T>, i: nat, j: nat)
    requires 0 < i <= j < |whole| && whole[1..] == rest
    ensures whole[i..j + 1] == rest[i - 1..j] && whole[i] == rest[i - 1] && whole[j] == rest[j - 1]
  {
  }

  lemma {:induction false} KeyWindowFrom(
      limits: Limits, l: Limiter, run: seq<Request>, key: string, spec: Spec, from: Instant, i: nat, j: nat)
    requires limits.perIp == Some(spec) && Clocked(run, from) && KeyBucketOk(l, key, spec, from)
    requires i <= j < |run|
    ensures run[i].keyAt <= run[j].keyAt
    ensures KeyWithin(
      run[i..j + 1], Answers(limits, l, run)[i..j + 1], key, spec, run[j].keyAt - run[i].keyAt)
    decreases i
  {
    if i == 0 {
      KeyWindowFromFirst(limits, l, run, key, spec, from, j);
    } else {
      var next, rest := Allow(limits, l, run[0]).0, run[1..];
      KeyBucketStays(limits, l, run[0], key, spec, from);
      KeyWindowFrom(limits, next, rest, key, spec, run[0].keyAt, i - 1, j - 1);
      AnswersTail(limits, l, run);
      SlicesOfTail(run, rest, i, j);
      SlicesOfTail(Answers(limits, l, run), Answers(limits, next, rest), i, j);
      SameKeyWindow(
        run[i..j + 1], Answers(limits, l, run)[i..j + 1], rest[i - 1..j], Answers(limits, next, rest)[i - 1..j],
        key, spec, run[j].keyAt - run[i].keyAt);
    }
  }

  lemma SameKeyWindow(
      run: seq<Request>, answers: seq<bool>, same: seq<Request>, sameAnswers: seq<bool>, key: string, spec: Spec,
      nanos: nat)
    requires run == same && answers == sameAnswers && |same| == |sameAnswers|
    requires KeyWithin(same, sameAnswers, key, spec, nanos)
    ensures KeyWithin(run, answers, key, spec, nanos)
  {
  }

  /** Between any two requests of any run of a new limiter, each key obeys the bound of its own bucket. */
  lemma {:induction false} AnyKeyWindow(
      limits: Limits, run: seq<Request>, key: string, spec: Spec, start: Instant, i: nat, j: nat)
    requires limits.perIp == Some(spec) && Clocked(run, start) && i <= j < |run|
    ensures run[i].keyAt <= run[j].keyAt
    ensures KeyWithin(
      run[i..j + 1], Answers(limits, Initial(limits, start), run)[i..j + 1], key, spec,
      run[j].keyAt - run[i].keyAt)
  {
    KeyWindowFrom(limits, Initial(limits, start), run, key, spec, start, i, j);
  }
}
