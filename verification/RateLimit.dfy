/**
 The in-process fixed-window limiter: one map of buckets shared by every key,
 pruned lazily. Time is an integer count of nanoseconds; each call carries the
 instant it reads under the lock, and those instants never decrease.
 */
module RateLimit {
  import opened Wrappers

  const PRUNE_SIZE: nat := 1024

  datatype Bucket = Bucket(count: int, reset: int)

  datatype Call = Call(key: string, max: int, window: int, now: int) {
    predicate Tracked() {
      max > 0 && window > 0
    }
  }

  /** A run of the limiter: the calls made so far, the latest outermost. */
  datatype Calls = NoCalls | Then(past: Calls, call: Call)

  ghost predicate ClockReached(h: Calls, now: int) {
    h.NoCalls? || h.call.now <= now
  }

  ghost predicate ClockOrdered(h: Calls) {
    h.NoCalls? || (ClockOrdered(h.past) && ClockReached(h.past, h.call.now))
  }

  /** The calls made for one key, in order. */
  function Project(h: Calls, key: string): Calls {
    match h
    case NoCalls => NoCalls
    case Then(past, c) => if c.key == key then Then(Project(past, key), c) else Project(past, key)
  }

  // ---------------------------------------------------------------- one key

  /** One hit on a limiter that serves a single key and never forgets a bucket. */
  function KeyAllow(b: Option<Bucket>, c: Call): (Option<Bucket>, bool) {
    if !c.Tracked() then (b, true)
    else if b.None? || c.now > b.value.reset then (Some(Bucket(1, c.now + c.window)), true)
    else if b.value.count >= c.max then (b, false)
    else (Some(Bucket(b.value.count + 1, b.value.reset)), true)
  }

  function KeyRun(h: Calls): Option<Bucket> {
    if h.NoCalls? then None else KeyAllow(KeyRun(h.past), h.call).0
  }

  function KeyRetryAfter(b: Option<Bucket>, now: int): int {
    if b.None? || b.value.reset < now then 0 else b.value.reset - now
  }

  // ------------------------------------------------------------ shared state

  function Lookup(m: map<string, Bucket>, key: string): Option<Bucket> {
    if key in m then Some(m[key]) else None
  }

  function Live(m: map<string, Bucket>, now: int): map<string, Bucket> {
    map k | k in m && now <= m[k].reset :: m[k]
  }

  /** One hit on the shared map, pruning first when the map is full. */
  function Step(m: map<string, Bucket>, c: Call): (map<string, Bucket>, bool) {
    if !c.Tracked() then (m, true)
    else
      var m1 := if |m| >= PRUNE_SIZE then Live(m, c.now) else m;
      var (b, ok) := KeyAllow(Lookup(m1, c.key), c);
      (if b.Some? then m1[c.key := b.value] else m1, ok)
  }

  function Run(h: Calls): map<string, Bucket> {
    if h.NoCalls? then map[] else Step(Run(h.past), h.call).0
  }

  /** The answer the run's latest call got. */
  predicate Answer(h: Calls)
    requires h.Then?
  {
    Step(Run(h.past), h.call).1
  }

  // ------------------------------------------------- refinement of one key

  /** The shared entry is the key's own bucket, except that an expired one may be gone. */
  ghost predicate Agrees(shared: Option<Bucket>, own: Option<Bucket>, now: int) {
    shared == own || (shared.None? && own.Some? && own.value.reset < now)
  }

  lemma StepAgrees(m: map<string, Bucket>, own: Option<Bucket>, c: Call, key: string)
    requires Agrees(Lookup(m, key), own, c.now)
    ensures c.key == key ==> Step(m, c).1 == KeyAllow(own, c).1
    ensures Agrees(Lookup(Step(m, c).0, key), if c.key == key then KeyAllow(own, c).0 else own, c.now)
  {
  }

  /** Pruning and other keys' traffic are unobservable: the shared limiter tracks the key's own. */
  lemma {:induction false} RunRefinesKeyRun(h: Calls, key: string, now: int)
    requires ClockOrdered(h) && ClockReached(h, now)
    ensures Agrees(Lookup(Run(h), key), KeyRun(Project(h, key)), now)
  {
    if h.Then? {
      RunRefinesKeyRun(h.past, key, h.call.now);
      StepAgrees(Run(h.past), KeyRun(Project(h.past, key)), h.call, key);
    }
  }

  /** Every answer equals that of a never-pruning limiter fed only this key's calls. */
  lemma AnswerRefinesKeyAnswer(h: Calls)
    requires ClockOrdered(h) && h.Then?
    ensures Answer(h) == KeyAllow(KeyRun(Project(h.past, h.call.key)), h.call).1
  {
    RunRefinesKeyRun(h.past, h.call.key, h.call.now);
    StepAgrees(Run(h.past), KeyRun(Project(h.past, h.call.key)), h.call, h.call.key);
  }

  /** After a tracked call the map exceeds the ceiling only if every bucket in it is live. */
  lemma PruneCeiling(m: map<string, Bucket>, c: Call)
    requires c.Tracked()
    ensures |Step(m, c).0| > PRUNE_SIZE ==> forall k :: k in Step(m, c).0 ==> c.now <= Step(m, c).0[k].reset
  {
  }

  // ------------------------------------------- how many hits a window admits

  /** Admitted hits of a single-key run in the closed interval from `lo` to `hi`. */
  function KeyHits(h: Calls, lo: int, hi: int): nat {
    match h
    case NoCalls => 0
    case Then(past, c) => KeyHits(past, lo, hi) + if KeyAllow(KeyRun(past), c).1 && lo <= c.now <= hi then 1 else 0
  }

  /** Admitted hits for `key` in a run of the shared limiter. */
  function Hits(h: Calls, key: string, lo: int, hi: int): nat {
    match h
    case NoCalls => 0
    case Then(past, c) =>
      Hits(past, key, lo, hi) + if c.key == key && Answer(h) && lo <= c.now <= hi then 1 else 0
  }

  ghost predicate Fixed(h: Calls, max: int, window: int) {
    max > 0 && window > 0 && (h.Then? ==> h.call.max == max && h.call.window == window && Fixed(h.past, max, window))
  }

  lemma {:induction false} ProjectKeepsClock(h: Calls, key: string, now: int)
    requires ClockOrdered(h) && ClockReached(h, now)
    ensures ClockOrdered(Project(h, key)) && ClockReached(Project(h, key), now)
  {
    if h.Then? {
      ProjectKeepsClock(h.past, key, h.call.now);
    }
  }

  lemma {:induction false} HitsAreKeyHits(h: Calls, key: string, lo: int, hi: int)
    requires ClockOrdered(h)
    ensures Hits(h, key, lo, hi) == KeyHits(Project(h, key), lo, hi)
  {
    if h.Then? {
      HitsAreKeyHits(h.past, key, lo, hi);
      AnswerRefinesKeyAnswer(h);
    }
  }

  lemma {:induction false} NoHitsBefore(h: Calls, lo: int, hi: int)
    requires ClockOrdered(h) && ClockReached(h, lo - 1)
    ensures KeyHits(h, lo, hi) == 0
  {
    if h.Then? {
      NoHitsBefore(h.past, lo, hi);
    }
  }

  lemma {:induction false} HitsSplit(h: Calls, lo: int, mid: int, hi: int)
    requires lo <= mid <= hi + 1
    ensures KeyHits(h, lo, hi) == KeyHits(h, lo, mid - 1) + KeyHits(h, mid, hi)
  {
    if h.Then? {
      HitsSplit(h.past, lo, mid, hi);
    }
  }

  lemma {:induction false} HitsWiden(h: Calls, lo: int, hi: int, hi': int)
    requires hi <= hi'
    ensures KeyHits(h, lo, hi) <= KeyHits(h, lo, hi')
  {
    if h.Then? {
      HitsWiden(h.past, lo, hi, hi');
    }
  }

  /** The current bucket covers the latest call. */
  lemma {:induction false} BucketCovers(h: Calls, max: int, window: int)
    requires h.Then? && ClockOrdered(h) && Fixed(h, max, window)
    ensures KeyRun(h).Some?
    ensures var b := KeyRun(h).value; 1 <= b.count <= max && b.reset - window <= h.call.now <= b.reset
  {
    if h.past.Then? {
      BucketCovers(h.past, max, window);
    }
  }

  /** The counter is exact: it is the number of hits since the bucket opened. */
  lemma {:induction false} HitsSinceOpening(h: Calls, max: int, window: int, lo: int, hi: int)
    requires h.Then? && ClockOrdered(h) && Fixed(h, max, window)
    requires KeyRun(h).Some? && KeyRun(h).value.reset - window <= lo && KeyRun(h).value.reset <= hi
    ensures var b := KeyRun(h).value;
      if lo == b.reset - window then KeyHits(h, lo, hi) == b.count else KeyHits(h, lo, hi) <= b.count - 1
  {
    BucketCovers(h, max, window);
    if h.past.Then? {
      BucketCovers(h.past, max, window);
      if h.call.now > KeyRun(h.past).value.reset {
        NoHitsBefore(h.past, lo, hi);
      } else {
        HitsSinceOpening(h.past, max, window, lo, hi);
      }
    }
  }

  /** Fewer than `max` hits fall in the `window` just before the current bucket opened. */
  lemma {:induction false} HitsBeforeOpening(h: Calls, max: int, window: int, lo: int)
    requires h.Then? && ClockOrdered(h) && Fixed(h, max, window)
    requires KeyRun(h).Some?
    requires var start := KeyRun(h).value.reset - window; start - window <= lo <= start
    ensures KeyHits(h, lo, KeyRun(h).value.reset - window - 1) <= max - 1
  {
    var hi := KeyRun(h).value.reset - window - 1;
    BucketCovers(h, max, window);
    if h.past.Then? {
      BucketCovers(h.past, max, window);
      var b := KeyRun(h.past).value;
      if h.call.now > b.reset {
        HitsSinceOpening(h.past, max, window, lo, h.call.now);
        HitsWiden(h.past, lo, hi, h.call.now);
      } else {
        HitsBeforeOpening(h.past, max, window, lo);
      }
    }
  }

  lemma {:induction false} KeyWindowBound(h: Calls, max: int, window: int, lo: int)
    requires ClockOrdered(h) && Fixed(h, max, window)
    ensures KeyHits(h, lo, lo + window) <= 2 * max - 1
  {
    if h.Then? {
      BucketCovers(h, max, window);
      var reset := KeyRun(h).value.reset;
      var start := reset - window;
      if start <= lo {
        HitsSinceOpening(h, max, window, lo, lo + window);
      } else if start - window <= lo {
        HitsSplit(h, lo, start, lo + window);
        HitsBeforeOpening(h, max, window, lo);
        HitsSinceOpening(h, max, window, start, reset);
        HitsWiden(h, start, lo + window, reset);
      } else {
        KeyWindowBound(h.past, max, window, lo);
      }
    }
  }

  /**
   The "2x at the edge" slop, exactly: with one `max` and `window` for a key, no closed
   interval of length `window` holds more than 2*max - 1 of its admitted hits.
   */
  lemma WindowBound(h: Calls, key: string, max: int, window: int, lo: int)
    requires ClockOrdered(h) && Fixed(Project(h, key), max, window)
    ensures Hits(h, key, lo, lo + window) <= 2 * max - 1
  {
    ProjectKeepsClock(h, key, if h.NoCalls? then 0 else h.call.now);
    HitsAreKeyHits(h, key, lo, lo + window);
    KeyWindowBound(Project(h, key), max, window, lo);
  }

  /** Each bucket's own window admits exactly what its counter says, at most `max`. */
  lemma BucketBound(h: Calls, key: string, max: int, window: int)
    requires ClockOrdered(h) && Fixed(Project(h, key), max, window) && key in Run(h)
    ensures var b := Run(h)[key]; Hits(h, key, b.reset - window, b.reset) == b.count <= max
  {
    var own, b, now := Project(h, key), Run(h)[key], if h.NoCalls? then 0 else h.call.now;
    ProjectKeepsClock(h, key, now);
    RunRefinesKeyRun(h, key, now);
    HitsAreKeyHits(h, key, b.reset - window, b.reset);
    BucketCovers(own, max, window);
    HitsSinceOpening(own, max, window, b.reset - window, b.reset);
  }

  /** Why a call is admitted: no bucket, an expired one, or fewer than `max` hits in its own window. */
  lemma AdmittedIff(h: Calls, c: Call, max: int, window: int)
    requires ClockOrdered(Then(h, c)) && Fixed(Project(Then(h, c), c.key), max, window)
    ensures Answer(Then(h, c)) <==>
            var b := Lookup(Run(h), c.key);
            b.None? || c.now > b.value.reset || Hits(h, c.key, b.value.reset - window, b.value.reset) < max
  {
    if c.key in Run(h) {
      BucketBound(h, c.key, max, window);
    }
  }

  function Repeat(h: Calls, c: Call, n: nat): Calls {
    if n == 0 then h else Then(Repeat(h, c, n - 1), c)
  }

  lemma {:induction false} Burst(h: Calls, c: Call, n: nat, lo: int, hi: int)
    requires c.Tracked() && KeyRun(h).Some?
    requires c.now <= KeyRun(h).value.reset && KeyRun(h).value.count + n <= c.max
    ensures var b := KeyRun(h).value; KeyRun(Repeat(h, c, n)) == Some(Bucket(b.count + n, b.reset))
    ensures KeyHits(Repeat(h, c, n), lo, hi) == KeyHits(h, lo, hi) + if lo <= c.now <= hi then n else 0
  {
    if n > 0 {
      Burst(h, c, n - 1, lo, hi);
    }
  }

  lemma OpeningCall(c: Call, lo: int, hi: int)
    requires c.Tracked()
    ensures var h := Then(NoCalls, c);
      && ClockOrdered(h) && ClockReached(h, c.now) && Fixed(h, c.max, c.window) && Project(h, c.key) == h
      && KeyRun(h) == Some(Bucket(1, c.now + c.window)) && KeyHits(h, lo, hi) == if lo <= c.now <= hi then 1 else 0
  {
    assert ClockOrdered(NoCalls) && Fixed(NoCalls, c.max, c.window) && Project(NoCalls, c.key) == NoCalls;
    assert KeyRun(NoCalls) == None && KeyHits(NoCalls, lo, hi) == 0;
  }

  lemma {:induction false} RepeatKeeps(h: Calls, c: Call, n: nat)
    requires ClockOrdered(h) && ClockReached(h, c.now) && Fixed(h, c.max, c.window) && Project(h, c.key) == h
    ensures var r := Repeat(h, c, n);
      ClockOrdered(r) && ClockReached(r, c.now) && Fixed(r, c.max, c.window) && Project(r, c.key) == r
  {
    if n > 0 {
      RepeatKeeps(h, c, n - 1);
    }
  }

  /** One hit opens a bucket and the rest of its budget falls on its last instant. */
  function EdgeStart(key: string, max: int, window: int): Calls
    requires max > 0
  {
    Repeat(Then(NoCalls, Call(key, max, window, 0)), Call(key, max, window, window), max - 1)
  }

  /** Right after that bucket, a fresh budget. */
  function EdgeRun(key: string, max: int, window: int): Calls
    requires max > 0
  {
    var next := Call(key, max, window, window + 1);
    Repeat(Then(EdgeStart(key, max, window), next), next, max - 1)
  }

  lemma EdgeStartFills(key: string, max: int, window: int)
    requires max > 0 && window > 0
    ensures var h := EdgeStart(key, max, window);
      && ClockOrdered(h) && ClockReached(h, window) && Fixed(h, max, window) && Project(h, key) == h
      && KeyRun(h) == Some(Bucket(max, window)) && KeyHits(h, 1, 1 + window) == max - 1
  {
    var opening, late := Then(NoCalls, Call(key, max, window, 0)), Call(key, max, window, window);
    OpeningCall(opening.call, 1, 1 + window);
    RepeatKeeps(opening, late, max - 1);
    Burst(opening, late, max - 1, 1, 1 + window);
  }

  /** The bound is attained for every `max` and `window`. */
  lemma WindowBoundAttained(key: string, max: int, window: int)
    requires max > 0 && window > 0
    ensures var h := EdgeRun(key, max, window);
      && ClockOrdered(h) && Fixed(Project(h, key), max, window)
      && Hits(h, key, 1, 1 + window) == 2 * max - 1
  {
    var first, next := EdgeStart(key, max, window), Call(key, max, window, window + 1);
    EdgeStartFills(key, max, window);
    RepeatKeeps(Then(first, next), next, max - 1);
    Burst(Then(first, next), next, max - 1, 1, 1 + window);
    HitsAreKeyHits(EdgeRun(key, max, window), key, 1, 1 + window);
  }

  // ------------------------------------------------------- after a denial

  function After(h: Calls, later: Calls): Calls {
    if later.NoCalls? then h else Then(After(h, later.past), later.call)
  }

  /** When the caller of the run's latest call is told to come back. */
  function RetryAt(h: Calls): int
    requires h.Then?
  {
    h.call.now + KeyRetryAfter(Lookup(Run(h), h.call.key), h.call.now)
  }

  /** `later` never tries the denied key after `RetryAt`. */
  ghost predicate OnlyEarlyRetries(h: Calls, later: Calls)
    requires h.Then?
  {
    later.NoCalls? ||
    (&& OnlyEarlyRetries(h, later.past)
     && (later.call.key == h.call.key ==> later.call.now <= RetryAt(h)))
  }

  lemma {:induction false} StaysFull(h: Calls, later: Calls)
    requires h.Then? && !Answer(h) && ClockOrdered(After(h, later)) && OnlyEarlyRetries(h, later)
    ensures var b := KeyRun(Project(After(h, later), h.call.key));
      b.Some? && b.value.count >= h.call.max && b.value.reset == RetryAt(h)
  {
    if later.NoCalls? {
      AnswerRefinesKeyAnswer(h);
      RunRefinesKeyRun(h, h.call.key, h.call.now);
    } else {
      StaysFull(h, later.past);
    }
  }

  /**
   After a denial and any number of early retries, a call asking for no higher `max` is admitted
   exactly when it comes strictly later than the announced instant, whatever other keys do and
   however often they prune.
   */
  lemma {:induction false} RetryAfterDenial(h: Calls, later: Calls, c: Call)
    requires h.Then? && !Answer(h) && ClockOrdered(Then(After(h, later), c)) && OnlyEarlyRetries(h, later)
    requires c.key == h.call.key && 0 < c.max <= h.call.max && c.window > 0
    ensures Answer(Then(After(h, later), c)) <==> c.now > RetryAt(h)
  {
    StaysFull(h, later);
    AnswerRefinesKeyAnswer(Then(After(h, later), c));
  }

  /**
   The exact condition after a denial, late calls in between or not: with one `max` and `window`
   for the key, a later call is admitted if and only if the key has no live bucket or the open
   bucket's own window holds fewer than `max` hits.
   */
  lemma {:induction false} AdmittedAfterDenialIff(h: Calls, later: Calls, c: Call, max: int, window: int)
    requires h.Then? && !Answer(h) && c.key == h.call.key && ClockOrdered(Then(After(h, later), c))
    requires Fixed(Project(Then(After(h, later), c), c.key), max, window)
    ensures Answer(Then(After(h, later), c)) <==>
            var b := Lookup(Run(After(h, later)), c.key);
            || b.None? || c.now > b.value.reset
            || Hits(After(h, later), c.key, b.value.reset - window, b.value.reset) < max
  {
    AdmittedIff(After(h, later), c, max, window);
  }

  function Min(a: int, b: int): int {
    if a < b then a else b
  }

  /** Repeating a call inside one window fills its bucket and then leaves it full. */
  lemma {:induction false} Saturates(h: Calls, c: Call, n: nat)
    requires c.Tracked() && KeyRun(h).Some? && c.now <= KeyRun(h).value.reset && KeyRun(h).value.count <= c.max
    ensures var b := KeyRun(h).value; KeyRun(Repeat(h, c, n)) == Some(Bucket(Min(b.count + n, c.max), b.reset))
  {
    if n > 0 {
      Saturates(h, c, n - 1);
    }
  }

  /** `max + 1` calls at one instant, the last of which is denied. */
  function DeniedRun(key: string, max: int, window: int, now: int): Calls
    requires max > 0
  {
    var c := Call(key, max, window, now);
    Repeat(Then(NoCalls, c), c, max)
  }

  lemma DeniedRunEnds(key: string, max: int, window: int, now: int)
    requires max > 0 && window > 0
    ensures var h := DeniedRun(key, max, window, now);
      && ClockOrdered(h) && ClockReached(h, now) && Fixed(h, max, window) && Project(h, key) == h
      && h.Then? && !Answer(h) && KeyRun(h) == Some(Bucket(max, now + window)) && RetryAt(h) == now + window
  {
    var c := Call(key, max, window, now);
    var opening, h := Then(NoCalls, c), DeniedRun(key, max, window, now);
    OpeningCall(c, now, now);
    RepeatKeeps(opening, c, max);
    RepeatKeeps(opening, c, max - 1);
    Saturates(opening, c, max);
    Saturates(opening, c, max - 1);
    AnswerRefinesKeyAnswer(h);
    RunRefinesKeyRun(h, key, now);
  }

  /** For every `max`: of the calls made together after the announced instant, exactly the first `max` are admitted. */
  lemma LateRetriesAdmittedIff(key: string, max: int, window: int, now: int, late: int, n: nat)
    requires max > 0 && window > 0 && late > now + window && n > 0
    ensures var denied := DeniedRun(key, max, window, now);
      var h := Repeat(denied, Call(key, max, window, late), n);
      && ClockOrdered(h) && !Answer(denied) && late > RetryAt(denied)
      && (Answer(h) <==> n <= max)
  {
    var denied, c := DeniedRun(key, max, window, now), Call(key, max, window, late);
    DeniedRunEnds(key, max, window, now);
    RepeatKeeps(denied, c, n);
    RepeatKeeps(denied, c, n - 1);
    var h := Repeat(denied, c, n);
    AnswerRefinesKeyAnswer(h);
    if n > 1 {
      RepeatFromFirst(denied, c, n - 1);
      Saturates(Then(denied, c), c, n - 2);
    }
  }

  lemma {:induction false} RepeatFromFirst(h: Calls, c: Call, n: nat)
    requires n > 0
    ensures Repeat(h, c, n) == Repeat(Then(h, c), c, n - 1)
  {
    if n > 1 {
      RepeatFromFirst(h, c, n - 1);
    }
  }

  // --------------------------------------------------------- the limiter

  class RateLimiter {
    var buckets: map<string, Bucket>
    ghost var calls: Calls

    ghost predicate Valid()
      reads this
    {
      ClockOrdered(calls) && buckets == Run(calls)
    }

    constructor ()
      ensures Valid() && calls == NoCalls
    {
      buckets := map[];
      calls := NoCalls;
    }

    method Allow(key: string, max: int, window: int, now: int) returns (ok: bool)
      requires Valid() && ClockReached(calls, now)
      modifies this
      ensures Valid() && calls == Then(old(calls), Call(key, max, window, now))
      ensures ok == KeyAllow(KeyRun(Project(old(calls), key)), Call(key, max, window, now)).1
      ensures max > 0 && window > 0 && |buckets| > 1024 ==> forall k :: k in buckets ==> now <= buckets[k].reset
      ensures max <= 0 || window <= 0 ==> ok && buckets == old(buckets)
    {
      ghost var c := Call(key, max, window, now);
      AnswerRefinesKeyAnswer(Then(calls, c));
      calls := Then(calls, c);
      if max <= 0 || window <= 0 {
        return true;
      }
      PruneCeiling(buckets, c);
      if |buckets| >= PRUNE_SIZE {
        PruneLocked(now);
      }
      if key !in buckets || now > buckets[key].reset {
        buckets := buckets[key := Bucket(1, now + window)];
        return true;
      }
      var b := buckets[key];
      if b.count >= max {
        assert buckets[key := b] == buckets;
        return false;
      }
      buckets := buckets[key := Bucket(b.count + 1, b.reset)];
      return true;
    }

    method RetryAfter(key: string, now: int) returns (wait: int)
      requires Valid() && ClockReached(calls, now)
      ensures wait == KeyRetryAfter(KeyRun(Project(calls, key)), now)
      ensures wait >= 0
      ensures key in buckets && now <= buckets[key].reset ==> now + wait == buckets[key].reset
      ensures key !in buckets || buckets[key].reset < now ==> wait == 0
    {
      RunRefinesKeyRun(calls, key, now);
      if key !in buckets {
        return 0;
      }
      var rem := buckets[key].reset - now;
      if rem < 0 {
        return 0;
      }
      return rem;
    }

    method PruneLocked(now: int)
      modifies this`buckets
      ensures buckets == Live(old(buckets), now)
    {
      var todo := buckets.Keys;
      while todo != {}
        invariant todo <= old(buckets).Keys
        invariant buckets.Keys == todo + Live(old(buckets), now).Keys
        invariant forall k :: k in buckets ==> buckets[k] == old(buckets)[k]
        decreases todo
      {
        var k :| k in todo;
        if now > buckets[k].reset {
          buckets := buckets - {k};
        }
        todo := todo - {k};
      }
    }
  }
}
