// IsAllowed one call at a time: the method, what blocking guarantees over a
// run of calls, and how many grants fit in a minute.
module RateLimiting {
  import opened Wrappers
  import opened Clock
  import opened RateLimitStore
  import opened RateLimitProtocol

  datatype Decision = Granted | Blocked | Denied | StoreError

  /** Which round trip of one call fails, and what it did all the same. */
  datatype Fault = NoFault | ExistsFails | GetFails | BlockFails(applied: bool) | IncrementFails(effect: Effect)

  datatype Request = Request(now: int, client: string, endpoint: Endpoint, fault: Fault)

  function IncrementEffect(f: Fault): Effect {
    match f
    case IncrementFails(effect) => if effect == Applied then AppliedButFailed else effect
    case _ => Applied
  }

  function BucketOf(r: Request): Bucket { Bucket(r.client, r.endpoint, Window(r.now)) }

  /** What one call of `IsAllowed` answers and leaves in the store. */
  function Call(s: Store, limits: Limits, r: Request): (Store, Decision) {
    var c := limits(r.endpoint);
    if !Limited(c) then (s, Granted)
    else if r.fault.ExistsFails? then (s, StoreError)
    else if Live(s, BlockKey(r.client, r.endpoint), r.now) then (s, Blocked)
    else if r.fault.GetFails? then (s, StoreError)
    else if Value(s, CountKey(BucketOf(r)), r.now) >= Limit(c) then
      if r.fault.BlockFails? && !r.fault.applied then (s, StoreError)
      else
        (Set(s, BlockKey(r.client, r.endpoint), 1, c.blockDuration, r.now),
         if r.fault.BlockFails? then StoreError else Denied)
    else
      var effect := IncrementEffect(r.fault);
      (AfterIncrement(s, BucketOf(r), r.now, effect), if effect == Applied then Granted else StoreError)
  }

  /** The client is blocked: its block key is there and has not expired. */
  ghost predicate IsBlocked(s: Store, r: Request) {
    var k := BlockKey(r.client, r.endpoint);
    k in s && (s[k].expires.None? || r.now < s[k].expires.value)
  }

  /** What a client's counter for this minute reads; nothing and an expired one read as zero. */
  ghost function CountOf(s: Store, r: Request): nat {
    var k := CountKey(Bucket(r.client, r.endpoint, Window(r.now)));
    if k in s && (s[k].expires.None? || r.now < s[k].expires.value) then s[k].value else 0
  }

  /** What one call decides. Without a limit every call is granted. Else it is
      blocked when a block is found; granted when there is none, the count is below
      requests per minute plus burst, and nothing fails; denied when the count is
      not, and the block could be set; and a failing command that it gets to,
      whatever it did all the same, is an error. */
  lemma CallDecides(s: Store, limits: Limits, r: Request)
    ensures var c, d, f := limits(r.endpoint), Call(s, limits, r).1, r.fault;
            var full := CountOf(s, r) >= c.requestsPerMinute + c.burstAllowance;
            if c.requestsPerMinute == 0 then d == Granted
            else if f.ExistsFails? then d == StoreError
            else if IsBlocked(s, r) then d == Blocked
            else if f.GetFails? then d == StoreError
            else if full then d == if f.BlockFails? then StoreError else Denied
            else d == if f.IncrementFails? then StoreError else Granted
  {
    hide Window, AfterIncrement, Set;
  }

  /** What one call leaves. A grant raises the counter by one and gives it a
      minute from now; a denial sets the block for the block duration; nothing
      else moves, and a blocked call moves nothing. */
  lemma CallLeaves(s: Store, limits: Limits, r: Request)
    requires limits(r.endpoint).requestsPerMinute != 0
    ensures var (t, d) := Call(s, limits, r);
            var count, block := CountKey(Bucket(r.client, r.endpoint, Window(r.now))), BlockKey(r.client, r.endpoint);
            var duration := limits(r.endpoint).blockDuration;
            && (d == Granted ==> t == s[count := Entry(CountOf(s, r) + 1, Some(r.now + 60_000_000_000))])
            && (d == Denied ==> t == s[block := Entry(1, if duration > 0 then Some(r.now + duration) else None)])
            && (d == Blocked || r.fault.ExistsFails? || r.fault.GetFails? ==> t == s)
  {
    hide Window;
  }

  /** A failing increment still counts the request when Redis did that much: the
      counter is raised by one or stays, and a counter that was alive keeps its
      expiry or gets a minute from now. */
  lemma FailedIncrement(s: Store, limits: Limits, r: Request)
    requires limits(r.endpoint).requestsPerMinute != 0 && r.fault.IncrementFails? && !IsBlocked(s, r)
    requires CountOf(s, r) < limits(r.endpoint).requestsPerMinute + limits(r.endpoint).burstAllowance
    ensures var t := Call(s, limits, r).0;
            var k, n := CountKey(Bucket(r.client, r.endpoint, Window(r.now))), CountOf(s, r) + 1;
            var kept := if k in s && (s[k].expires.None? || r.now < s[k].expires.value) then s[k].expires else None;
            match r.fault.effect
            case NothingApplied => t == s
            case IncrApplied => t == s[k := Entry(n, kept)]
            case _ => t == s[k := Entry(n, Some(r.now + 60_000_000_000))]
  {
    hide Window;
  }

  /** The default table: how many requests a minute each kind of endpoint takes
      from one client, and for how many seconds a denial blocks. */
  lemma DefaultDecisions(s: Store, r: Request)
    requires r.fault == NoFault && !IsBlocked(s, r)
    ensures var (t, d) := Call(s, DefaultLimits, r);
            var k := BlockKey(r.client, r.endpoint);
            var (most, seconds) := match r.endpoint
              case Auth => (13, 300)
              case Data => (70, 60)
              case Upload => (25, 120)
              case Admin => (35, 60)
              case Public => (120, 30)
              case Internal => (250, 30)
              case Health => (0, 0);
            if r.endpoint.Health? then d == Granted && t == s
            else && d == (if CountOf(s, r) < most then Granted else Denied)
                 && (d == Denied ==> k in t && t[k].expires == Some(r.now + seconds * 1_000_000_000))
  {
    CallDecides(s, DefaultLimits, r);
    if !r.endpoint.Health? { CallLeaves(s, DefaultLimits, r); }
    hide Call, Window, CountOf;
  }

  class RateLimiter {
    var store: Store
    const limits: Limits

    constructor (limits: Limits)
      ensures store == map[] && this.limits == limits
    {
      this.limits := limits;
      store := map[];
    }

    method IsAllowed(r: Request) returns (decision: Decision)
      modifies this
      ensures (store, decision) == Call(old(store), limits, r)
    {
      var config := limits(r.endpoint);
      if config.requestsPerMinute == 0 { return Granted; }
      var countKey := CountKey(Bucket(r.client, r.endpoint, Window(r.now)));
      var blockKey := BlockKey(r.client, r.endpoint);
      if r.fault.ExistsFails? { return StoreError; }
      if Live(store, blockKey, r.now) { return Blocked; }
      if r.fault.GetFails? { return StoreError; }
      var currentCount := Value(store, countKey, r.now);
      var limit := config.requestsPerMinute + config.burstAllowance;
      if currentCount >= limit {
        if !r.fault.BlockFails? || r.fault.applied {
          store := Set(store, blockKey, 1, config.blockDuration, r.now);
        }
        return if r.fault.BlockFails? then StoreError else Denied;
      }
      if IncrementEffect(r.fault) != NothingApplied {
        store := Incr(store, countKey, r.now);
        if IncrementEffect(r.fault) != IncrApplied {
          store := Expire(store, countKey, MINUTE, r.now);
        }
      }
      return if IncrementEffect(r.fault) == Applied then Granted else StoreError;
    }
  }

  lemma IdleSteps(s: Sys, limits: Limits, step: Step)
    requires |s.callers| >= 1 && s.callers[0].Idle?
    requires !step.Tick? && !step.Arrive? && step.id == 0
    ensures Next(s, limits, step) == s
  {
  }

  function AfterCall(s: Sys, limits: Limits, r: Request): Sys {
    var (store, decision) := Call(s.store, limits, r);
    s.(store := store, grants := if decision == Granted then s.grants + multiset{BucketOf(r)} else s.grants)
  }

  /** The steps of a call that gets past the block check. */
  lemma UnblockedCall(s: Sys, limits: Limits, r: Request, s1: Sys) returns (last: Step)
    requires |s.callers| >= 1 && s.callers[0].Idle? && r.now == s.now
    requires Limited(limits(r.endpoint)) && !r.fault.ExistsFails?
             && !Live(s.store, BlockKey(r.client, r.endpoint), r.now)
    requires s1 == s.(callers := s.callers[0 := Unblocked(BucketOf(r))])
    ensures Next(Next(s1, limits, ReadCount(0, !r.fault.GetFails?)), limits, last) == AfterCall(s, limits, r)
    ensures !last.Tick?
  {
    hide Value, AfterIncrement, Set, Window, Live;
    var s2 := Next(s1, limits, ReadCount(0, !r.fault.GetFails?));
    assert s.callers[0 := Idle] == s.callers;
    if s2.callers[0].Idle? {
      last := Increment(0, NothingApplied);
      assert s2.callers == s.callers;
      IdleSteps(s2, limits, last);
    } else if s2.callers[0].Over? {
      last := SetBlock(0, !r.fault.BlockFails? || r.fault.applied);
      assert s2.callers[0 := Idle] == s.callers;
    } else {
      last := Increment(0, IncrementEffect(r.fault));
      assert s2.callers[0 := Idle] == s.callers;
    }
  }

  /** What the first two steps of a call come to. */
  lemma EnterCall(s: Sys, limits: Limits, r: Request)
    requires |s.callers| >= 1 && s.callers[0].Idle? && r.now == s.now
    ensures Next(Next(s, limits, Arrive(0, r.client, r.endpoint)), limits, CheckBlock(0, !r.fault.ExistsFails?))
         == if !Limited(limits(r.endpoint)) || r.fault.ExistsFails?
               || Live(s.store, BlockKey(r.client, r.endpoint), r.now)
            then AfterCall(s, limits, r)
            else s.(callers := s.callers[0 := Unblocked(BucketOf(r))])
  {
    hide Value, AfterIncrement, Set, Window, Live;
    assert s.callers[0 := Idle] == s.callers;
  }

  /** An atomic call is a run of one caller's steps with no time between them. */
  lemma CallIsARun(s: Sys, limits: Limits, r: Request) returns (steps: seq<Step>)
    requires |s.callers| >= 1 && s.callers[0].Idle? && r.now == s.now
    ensures Run(s, limits, steps) == AfterCall(s, limits, r) && AtOnce(steps)
  {
    hide Call, Live, Run, Next;
    var arrive, check := Arrive(0, r.client, r.endpoint), CheckBlock(0, !r.fault.ExistsFails?);
    EnterCall(s, limits, r);
    RunTwo(s, limits, arrive, check);
    steps := [arrive, check];
    if Limited(limits(r.endpoint)) && !r.fault.ExistsFails? && !Live(s.store, BlockKey(r.client, r.endpoint), r.now) {
      var s1 := s.(callers := s.callers[0 := Unblocked(BucketOf(r))]);
      var read := ReadCount(0, !r.fault.GetFails?);
      var last := UnblockedCall(s, limits, r, s1);
      RunTwo(s1, limits, read, last);
      RunAppend(s, limits, steps, [read, last]);
      steps := steps + [read, last];
    }
  }

  // ----- runs of calls -----

  ghost predicate InOrder(rs: seq<Request>) {
    forall i, j :: 0 <= i < j < |rs| ==> rs[i].now <= rs[j].now
  }

  /** The store after the calls, starting from an empty one. */
  function After(limits: Limits, rs: seq<Request>): Store
    decreases |rs|
  {
    if rs == [] then map[]
    else Call(After(limits, rs[..|rs| - 1]), limits, rs[|rs| - 1]).0
  }

  function DecisionAt(limits: Limits, rs: seq<Request>, i: nat): Decision
    requires i < |rs|
  {
    Call(After(limits, rs[..i]), limits, rs[i]).1
  }

  lemma AfterNext(limits: Limits, rs: seq<Request>, i: nat)
    requires i < |rs|
    ensures After(limits, rs[..i + 1]) == Call(After(limits, rs[..i]), limits, rs[i]).0
  {
    assert rs[..i + 1][..i] == rs[..i];
    hide Call;
  }

  predicate SameClient(a: Request, b: Request) {
    a.client == b.client && a.endpoint == b.endpoint
  }

  /** The instant before which nobody blocked at `t` is served; None is never. */
  function BlockEnd(c: LimitConfig, t: int): Option<int> {
    if c.blockDuration > 0 then Some(t + c.blockDuration) else None
  }

  predicate Before(t: int, end: Option<int>) {
    end.None? || t < end.value
  }

  /** The client's block and counters are the same in both stores. */
  ghost predicate SameCounters(s: Store, t: Store, client: string, endpoint: Endpoint) {
    forall w :: var k := CountKey(Bucket(client, endpoint, w));
      (k in s <==> k in t) && (k in s ==> s[k] == t[k])
  }

  /** What holds from a denial at `rs[i]` on, before the call at `rs[j]`. */
  ghost predicate StillBlocked(limits: Limits, rs: seq<Request>, i: nat, j: nat)
    requires i < j <= |rs|
  {
    var s, r := After(limits, rs[..j]), rs[i];
    var k := BlockKey(r.client, r.endpoint);
    && k in s && s[k].expires == BlockEnd(limits(r.endpoint), r.now)
    && SameCounters(s, After(limits, rs[..i]), r.client, r.endpoint)
  }

  /** A call of another client, or of a blocked one, leaves a client's block and
      counters alone, and a blocked call is not granted. */
  lemma CallWhileBlocked(s: Store, limits: Limits, r: Request, client: string, endpoint: Endpoint)
    requires r.client == client && r.endpoint == endpoint ==>
               Live(s, BlockKey(client, endpoint), r.now) || !Limited(limits(endpoint))
    ensures var (t, d) := Call(s, limits, r);
            var k := BlockKey(client, endpoint);
            && (k in s ==> k in t && t[k] == s[k])
            && SameCounters(t, s, client, endpoint)
            && (r.client == client && r.endpoint == endpoint && Limited(limits(endpoint)) ==>
                  d.Blocked? || d.StoreError?)
  {
    hide Window;
  }

  lemma DenialBlocks(s: Store, limits: Limits, r: Request)
    requires Call(s, limits, r).1 == Denied
    ensures var t := Call(s, limits, r).0;
            var k := BlockKey(r.client, r.endpoint);
            && Limited(limits(r.endpoint)) && k in t && t[k].expires == BlockEnd(limits(r.endpoint), r.now)
            && SameCounters(t, s, r.client, r.endpoint)
  {
    hide Window, AfterIncrement, Value;
  }

  lemma CountersChain(s: Store, t: Store, u: Store, client: string, endpoint: Endpoint)
    requires SameCounters(s, t, client, endpoint) && SameCounters(t, u, client, endpoint)
    ensures SameCounters(s, u, client, endpoint)
  {
  }

  /** A limit denial blocks its client: no call before the block ends is
      granted, no later denial moves the end, and the counters stand still. */
  lemma {:induction false} BlockHolds(limits: Limits, rs: seq<Request>, i: nat, j: nat)
    requires InOrder(rs) && i < j <= |rs|
    requires DecisionAt(limits, rs, i) == Denied
    requires forall k :: i < k < j && SameClient(rs[k], rs[i]) ==>
               Before(rs[k].now, BlockEnd(limits(rs[i].endpoint), rs[i].now))
    ensures StillBlocked(limits, rs, i, j)
    ensures forall k :: i < k < j && SameClient(rs[k], rs[i]) ==>
              DecisionAt(limits, rs, k) == Blocked || DecisionAt(limits, rs, k) == StoreError
    decreases j
  {
    AfterNext(limits, rs, j - 1);
    DenialBlocks(After(limits, rs[..i]), limits, rs[i]);
    hide After, Call, SameCounters, InOrder;
    if j > i + 1 {
      BlockHolds(limits, rs, i, j - 1);
      var s := After(limits, rs[..j - 1]);
      CallWhileBlocked(s, limits, rs[j - 1], rs[i].client, rs[i].endpoint);
      CountersChain(After(limits, rs[..j]), s, After(limits, rs[..i]), rs[i].client, rs[i].endpoint);
    }
  }

  /** Counters of every bucket keep their minute, at every point of a run. */
  lemma {:induction false} RunOutlasts(limits: Limits, rs: seq<Request>, now: int)
    requires InOrder(rs) && (rs != [] ==> rs[|rs| - 1].now <= now)
    ensures CountersOutlast(After(limits, rs), now)
    decreases |rs|
  {
    if rs != [] {
      var n := |rs| - 1;
      RunOutlasts(limits, rs[..n], rs[n].now);
    }
  }

  lemma LaterMinute(t: int, u: int)
    requires t <= u && Window(t) != Window(u)
    ensures t < Window(u)
  {
  }

  lemma DeniedOverLimit(s: Store, limits: Limits, r: Request)
    requires Call(s, limits, r).1 == Denied
    ensures Limited(limits(r.endpoint)) && Value(s, CountKey(BucketOf(r)), r.now) >= Limit(limits(r.endpoint))
  {
    hide Window;
  }

  lemma CallWhenFree(s: Store, limits: Limits, r: Request)
    requires Limited(limits(r.endpoint)) && r.fault == NoFault && !Live(s, BlockKey(r.client, r.endpoint), r.now)
    ensures Call(s, limits, r).1
         == if Value(s, CountKey(BucketOf(r)), r.now) >= Limit(limits(r.endpoint)) then Denied else Granted
  {
    hide Window;
  }

  /** `rs[i]` is denied and `rs[j]` is the same client's first call after its block. */
  ghost predicate FirstAfter(limits: Limits, rs: seq<Request>, i: nat, j: nat) {
    && InOrder(rs) && i < j < |rs| && SameClient(rs[i], rs[j]) && rs[j].fault == NoFault
    && DecisionAt(limits, rs, i) == Denied
    && (forall k :: i < k < j && SameClient(rs[k], rs[i]) ==>
          Before(rs[k].now, BlockEnd(limits(rs[i].endpoint), rs[i].now)))
    && !Before(rs[j].now, BlockEnd(limits(rs[i].endpoint), rs[i].now))
  }

  /** The first call once the block is over is granted exactly when its minute
      is not the minute of the denial any more. */
  lemma FirstAfterBlock(limits: Limits, rs: seq<Request>, i: nat, j: nat)
    requires FirstAfter(limits, rs, i, j) && Limit(limits(rs[i].endpoint)) >= 1
    ensures DecisionAt(limits, rs, j) == Granted <==> Window(rs[j].now) != Window(rs[i].now)
    ensures DecisionAt(limits, rs, j) != Granted ==> DecisionAt(limits, rs, j) == Denied
  {
    hide After, Call, Window;
    BlockHolds(limits, rs, i, j);
    RunOutlasts(limits, rs[..i], rs[i].now);
    var before, s := After(limits, rs[..i]), After(limits, rs[..j]);
    DeniedOverLimit(before, limits, rs[i]);
    CallWhenFree(s, limits, rs[j]);
    var k := CountKey(BucketOf(rs[j]));
    assert k in s <==> k in before;
    if Window(rs[j].now) == Window(rs[i].now) {
      assert Value(before, k, rs[i].now) >= Limit(limits(rs[i].endpoint));
      assert Value(s, k, rs[j].now) == Value(before, k, rs[i].now);
    } else {
      LaterMinute(rs[i].now, rs[j].now);
      assert k !in before;
    }
  }

  /** A block of at least a minute therefore always ends in a grant. */
  lemma LongBlockThenGrant(limits: Limits, rs: seq<Request>, i: nat, j: nat)
    requires FirstAfter(limits, rs, i, j) && Limit(limits(rs[i].endpoint)) >= 1
    requires limits(rs[i].endpoint).blockDuration >= MINUTE
    ensures DecisionAt(limits, rs, j) == Granted
  {
    hide DecisionAt, InOrder;
    FirstAfterBlock(limits, rs, i, j);
  }

  /** `n` calls of one client at time zero. */
  function Burst(client: string, endpoint: Endpoint, n: nat): seq<Request> {
    seq(n, i => Request(0, client, endpoint, NoFault))
  }

  lemma {:induction false} BurstCounts(limits: Limits, client: string, endpoint: Endpoint, n: nat)
    requires Limited(limits(endpoint)) && n <= Quota(limits(endpoint))
    ensures After(limits, Burst(client, endpoint, n))
         == if n == 0 then map[] else map[CountKey(Bucket(client, endpoint, 0)) := Entry(n, Some(MINUTE))]
  {
    if n > 0 {
      BurstCounts(limits, client, endpoint, n - 1);
      assert Burst(client, endpoint, n)[..n - 1] == Burst(client, endpoint, n - 1);
      assert Window(0) == 0;
    }
  }

  /** With a block shorter than a minute the first call after the block may be
      denied again, and is blocked anew. */
  lemma ShortBlockDeniesAgain(limits: Limits, client: string, endpoint: Endpoint) returns (rs: seq<Request>)
    requires Limited(limits(endpoint)) && Limit(limits(endpoint)) >= 1 && 0 < limits(endpoint).blockDuration < MINUTE
    ensures |rs| == Quota(limits(endpoint)) + 2 && forall r :: r in rs ==> r.client == client && r.endpoint == endpoint
    ensures FirstAfter(limits, rs, |rs| - 2, |rs| - 1) && DecisionAt(limits, rs, |rs| - 1) == Denied
  {
    var q := Quota(limits(endpoint));
    rs := Burst(client, endpoint, q + 1) + [Request(limits(endpoint).blockDuration, client, endpoint, NoFault)];
    assert rs[..q] == Burst(client, endpoint, q);
    BurstCounts(limits, client, endpoint, q);
    assert Window(0) == 0 && Window(limits(endpoint).blockDuration) == 0;
    assert DecisionAt(limits, rs, q) == Denied by { hide After; }
    hide After, Call, Window;
    FirstAfterBlock(limits, rs, q, q + 1);
  }

  /** In every run the first call after a block is granted. */
  ghost predicate GrantsAfterBlocks(limits: Limits, endpoint: Endpoint) {
    forall rs: seq<Request>, i: nat, j: nat ::
      FirstAfter(limits, rs, i, j) && rs[i].endpoint == endpoint ==> DecisionAt(limits, rs, j) == Granted
  }

  /** That is so exactly when the block lasts a minute or more, or for ever. */
  lemma GrantsAfterBlocksIff(limits: Limits, endpoint: Endpoint)
    requires Limited(limits(endpoint)) && Limit(limits(endpoint)) >= 1
    ensures GrantsAfterBlocks(limits, endpoint) <==> !(0 < limits(endpoint).blockDuration < MINUTE)
  {
    hide DecisionAt, InOrder;
    if 0 < limits(endpoint).blockDuration < MINUTE {
      var rs := ShortBlockDeniesAgain(limits, "", endpoint);
      assert rs[|rs| - 2] in rs;
    } else {
      forall rs: seq<Request>, i: nat, j: nat | FirstAfter(limits, rs, i, j) && rs[i].endpoint == endpoint
        ensures DecisionAt(limits, rs, j) == Granted
      {
        LongBlockThenGrant(limits, rs, i, j);
      }
    }
  }

  /** In the default table it fails for public and internal endpoints, and for
      no other that is limited. */
  lemma DefaultsGrantAfterBlocks(endpoint: Endpoint)
    requires Limited(DefaultLimits(endpoint))
    ensures GrantsAfterBlocks(DefaultLimits, endpoint) <==> !endpoint.Public? && !endpoint.Internal?
  {
    hide GrantsAfterBlocks;
    GrantsAfterBlocksIff(DefaultLimits, endpoint);
  }

  // ----- grants per minute -----

  /** Grants to one client for one endpoint type with lo <= time < hi. */
  function Grants(limits: Limits, rs: seq<Request>, client: string, endpoint: Endpoint, lo: int, hi: int): nat
    decreases |rs|
  {
    if rs == [] then 0
    else
      var n := |rs| - 1;
      var r := rs[n];
      Grants(limits, rs[..n], client, endpoint, lo, hi)
      + if r.client == client && r.endpoint == endpoint && lo <= r.now < hi && DecisionAt(limits, rs, n) == Granted
        then 1 else 0
  }

  /** Within its minute a bucket's counter never falls, and a grant raises it
      from below the limit. */
  lemma CallCounts(s: Store, limits: Limits, r: Request, b: Bucket)
    requires CountersOutlast(s, r.now) && Limited(limits(b.endpoint))
    ensures var (s', d) := Call(s, limits, r);
            && (r.now < b.window + MINUTE ==> Stored(s, b) <= Stored(s', b))
            && (d == Granted && BucketOf(r) == b ==>
                  Stored(s, b) < Stored(s', b) && Stored(s, b) < Limit(limits(b.endpoint)))
  {
    hide Window;
    assert Window(r.now) <= r.now < Window(r.now) + MINUTE;
  }

  lemma {:induction false} MinuteQuota(limits: Limits, rs: seq<Request>, b: Bucket, now: int)
    requires InOrder(rs) && (rs != [] ==> rs[|rs| - 1].now <= now)
    requires Limited(limits(b.endpoint)) && b.window % MINUTE == 0
    ensures Grants(limits, rs, b.client, b.endpoint, b.window, b.window + MINUTE) <= Quota(limits(b.endpoint))
    ensures now < b.window + MINUTE ==>
              Grants(limits, rs, b.client, b.endpoint, b.window, b.window + MINUTE) <= Stored(After(limits, rs), b)
    decreases |rs|
  {
    hide Window, After, Call, Stored, CountersOutlast;
    if rs != [] {
      var n := |rs| - 1;
      var r := rs[n];
      MinuteQuota(limits, rs[..n], b, r.now);
      RunOutlasts(limits, rs[..n], r.now);
      CallCounts(After(limits, rs[..n]), limits, r, b);
      AfterNext(limits, rs, n);
      assert rs[..n + 1] == rs;
      if b.window <= r.now < b.window + MINUTE { WindowOf(b.window, r.now); }
    }
  }

  lemma WindowOf(w: int, t: int)
    requires w % MINUTE == 0 && w <= t < w + MINUTE
    ensures Window(t) == w
  {
  }

  lemma {:induction false} GrantsSplit(limits: Limits, rs: seq<Request>, client: string, endpoint: Endpoint,
                                       lo: int, mid: int, hi: int, from: int, to: int)
    requires lo <= from && to <= hi && lo <= mid <= hi
    ensures Grants(limits, rs, client, endpoint, from, to)
         <= Grants(limits, rs, client, endpoint, lo, mid) + Grants(limits, rs, client, endpoint, mid, hi)
    decreases |rs|
  {
    hide DecisionAt;
    if rs != [] {
      GrantsSplit(limits, rs[..|rs| - 1], client, endpoint, lo, mid, hi, from, to);
    }
  }

  /** Any sixty seconds, wherever they start, hold at most twice the limit in grants. */
  lemma SpanQuota(limits: Limits, rs: seq<Request>, client: string, endpoint: Endpoint, start: int)
    requires InOrder(rs) && Limited(limits(endpoint))
    ensures Grants(limits, rs, client, endpoint, start, start + MINUTE) <= 2 * Quota(limits(endpoint))
  {
    var w := Window(start);
    var now := if rs == [] then 0 else rs[|rs| - 1].now;
    MinuteQuota(limits, rs, Bucket(client, endpoint, w), now);
    MinuteQuota(limits, rs, Bucket(client, endpoint, w + MINUTE), now);
    GrantsSplit(limits, rs, client, endpoint, w, w + MINUTE, w + 2 * MINUTE, start, start + MINUTE);
  }

  /** `n` calls of one client at one instant. */
  function CallsAt(now: int, client: string, endpoint: Endpoint, n: nat): (rs: seq<Request>)
    ensures |rs| == n && forall i :: 0 <= i < n ==> rs[i] == Request(now, client, endpoint, NoFault)
  {
    seq(n, i => Request(now, client, endpoint, NoFault))
  }

  lemma GrantedCall(s: Store, limits: Limits, r: Request)
    requires Limited(limits(r.endpoint)) && r.fault == NoFault && BlockKey(r.client, r.endpoint) !in s
    requires Value(s, CountKey(BucketOf(r)), r.now) < Limit(limits(r.endpoint))
    ensures var (t, d) := Call(s, limits, r);
            && d == Granted && BlockKey(r.client, r.endpoint) !in t
            && Value(t, CountKey(BucketOf(r)), r.now) == Value(s, CountKey(BucketOf(r)), r.now) + 1
            && forall w :: w != Window(r.now) ==>
                 (CountKey(Bucket(r.client, r.endpoint, w)) in t <==> CountKey(Bucket(r.client, r.endpoint, w)) in s)
  {
    hide Window;
  }

  lemma LastGrant(limits: Limits, rs: seq<Request>, r: Request, lo: int, hi: int)
    requires lo <= r.now < hi && Call(After(limits, rs), limits, r).1 == Granted
    ensures After(limits, rs + [r]) == Call(After(limits, rs), limits, r).0
    ensures Grants(limits, rs + [r], r.client, r.endpoint, lo, hi)
         == Grants(limits, rs, r.client, r.endpoint, lo, hi) + 1
  {
    assert (rs + [r])[..|rs|] == rs;
    hide Call;
  }

  /** Up to the limit, calls in a fresh minute of a client not blocked are all granted. */
  lemma {:induction false} FreshMinute(limits: Limits, rs: seq<Request>, now: int, client: string, endpoint: Endpoint,
                                       n: nat, lo: int, hi: int)
    requires Limited(limits(endpoint)) && n <= Quota(limits(endpoint)) && lo <= now < hi
    requires BlockKey(client, endpoint) !in After(limits, rs)
    requires Value(After(limits, rs), CountKey(Bucket(client, endpoint, Window(now))), now) == 0
    ensures var all := rs + CallsAt(now, client, endpoint, n);
            var t := After(limits, all);
            && BlockKey(client, endpoint) !in t
            && Value(t, CountKey(Bucket(client, endpoint, Window(now))), now) == n
            && (forall w :: w != Window(now) ==>
                 (CountKey(Bucket(client, endpoint, w)) in t <==>
                   CountKey(Bucket(client, endpoint, w)) in After(limits, rs)))
            && Grants(limits, all, client, endpoint, lo, hi) == Grants(limits, rs, client, endpoint, lo, hi) + n
  {
    hide After, Call, Value, Window, Grants;
    if n == 0 {
      assert rs + CallsAt(now, client, endpoint, 0) == rs;
    } else {
      var r := Request(now, client, endpoint, NoFault);
      var before := rs + CallsAt(now, client, endpoint, n - 1);
      FreshMinute(limits, rs, now, client, endpoint, n - 1, lo, hi);
      GrantedCall(After(limits, before), limits, r);
      LastGrant(limits, before, r, lo, hi);
      assert rs + CallsAt(now, client, endpoint, n) == before + [r];
    }
  }

  lemma NothingYet(limits: Limits, client: string, endpoint: Endpoint)
    ensures After(limits, []) == map[] && Grants(limits, [], client, endpoint, MINUTE - 1, 2 * MINUTE - 1) == 0
  {
  }

  lemma NotStored(s: Store, k: Key, now: int)
    requires k !in s
    ensures Value(s, k, now) == 0
  {
  }

  /** That is reached: a full minute's grants in the last instant of one minute,
      and again in the first of the next. */
  lemma SpanQuotaReached(limits: Limits, client: string, endpoint: Endpoint) returns (rs: seq<Request>, start: int)
    requires Limited(limits(endpoint))
    ensures InOrder(rs)
    ensures Grants(limits, rs, client, endpoint, start, start + MINUTE) == 2 * Quota(limits(endpoint))
  {
    var q := Quota(limits(endpoint));
    start := MINUTE - 1;
    assert Window(MINUTE - 1) == 0 && Window(MINUTE) == MINUTE;
    hide Window, After, Call, Value, Grants;
    var first, second := CallsAt(MINUTE - 1, client, endpoint, q), CallsAt(MINUTE, client, endpoint, q);
    NothingYet(limits, client, endpoint);
    NotStored(map[], CountKey(Bucket(client, endpoint, 0)), MINUTE - 1);
    FreshMinute(limits, [], MINUTE - 1, client, endpoint, q, MINUTE - 1, 2 * MINUTE - 1);
    assert [] + first == first;
    NotStored(After(limits, first), CountKey(Bucket(client, endpoint, MINUTE)), MINUTE);
    FreshMinute(limits, first, MINUTE, client, endpoint, q, MINUTE - 1, 2 * MINUTE - 1);
    rs := first + second;
  }
}
