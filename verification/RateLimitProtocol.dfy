// IsAllowed as several callers run it at once: reading the clock and each Redis
// round trip are one step each, and the steps of different callers interleave
// in any order, with any time between them.
module RateLimitProtocol {
  import opened Wrappers
  import opened Clock
  import opened RateLimitStore

  /** Where one caller stands inside `IsAllowed`: the clock gave it its bucket,
      no block was found, the count was below the limit, the count was not. */
  datatype Caller =
    | Idle
    | Arrived(bucket: Bucket)
    | Unblocked(bucket: Bucket)
    | Passed(bucket: Bucket)
    | Over(bucket: Bucket)

  datatype Sys = Sys(now: int, store: Store, callers: seq<Caller>, grants: multiset<Bucket>)

  /** What a failing increment pipeline may have done. */
  datatype Effect = Applied | NothingApplied | IncrApplied | AppliedButFailed

  datatype Step =
    | Tick(d: nat)
    | Arrive(id: nat, client: string, endpoint: Endpoint)
    | CheckBlock(id: nat, ok: bool)
    | ReadCount(id: nat, ok: bool)
    | Increment(id: nat, effect: Effect)
    | SetBlock(id: nat, applied: bool)

  /** The pipeline INCR, EXPIRE 1m on a bucket's counter. */
  function AfterIncrement(s: Store, b: Bucket, now: int, effect: Effect): Store {
    match effect
    case NothingApplied => s
    case IncrApplied => Incr(s, CountKey(b), now)
    case _ => Expire(Incr(s, CountKey(b), now), CountKey(b), MINUTE, now)
  }

  function Next(s: Sys, limits: Limits, step: Step): Sys {
    match step
    case Tick(d) => s.(now := s.now + d)
    case Arrive(id, client, endpoint) =>
      var b := Bucket(client, endpoint, Window(s.now));
      if id >= |s.callers| || !s.callers[id].Idle? then s
      else if !Limited(limits(endpoint)) then s.(grants := s.grants + multiset{b})
      else s.(callers := s.callers[id := Arrived(b)])
    case CheckBlock(id, ok) =>
      if id >= |s.callers| || !s.callers[id].Arrived? then s
      else
        var b := s.callers[id].bucket;
        var free := ok && !Live(s.store, BlockKey(b.client, b.endpoint), s.now);
        s.(callers := s.callers[id := if free then Unblocked(b) else Idle])
    case ReadCount(id, ok) =>
      if id >= |s.callers| || !s.callers[id].Unblocked? then s
      else
        var b := s.callers[id].bucket;
        var caller :=
          if !ok then Idle
          else if Value(s.store, CountKey(b), s.now) >= Limit(limits(b.endpoint)) then Over(b)
          else Passed(b);
        s.(callers := s.callers[id := caller])
    case Increment(id, effect) =>
      if id >= |s.callers| || !s.callers[id].Passed? then s
      else
        var b := s.callers[id].bucket;
        s.(store := AfterIncrement(s.store, b, s.now, effect),
           callers := s.callers[id := Idle],
           grants := if effect == Applied then s.grants + multiset{b} else s.grants)
    case SetBlock(id, applied) =>
      if id >= |s.callers| || !s.callers[id].Over? then s
      else
        var b := s.callers[id].bucket;
        s.(store := if applied then Set(s.store, BlockKey(b.client, b.endpoint), 1,
                                       limits(b.endpoint).blockDuration, s.now)
                    else s.store,
           callers := s.callers[id := Idle])
  }

  function Run(s: Sys, limits: Limits, steps: seq<Step>): Sys
    decreases |steps|
  {
    if steps == [] then s else Run(Next(s, limits, steps[0]), limits, steps[1..])
  }

  function Init(k: nat, now: int): Sys {
    Sys(now, map[], seq(k, i => Idle), multiset{})
  }

  // ----- the overshoot bound -----

  function Stored(s: Store, b: Bucket): nat {
    if CountKey(b) in s then s[CountKey(b)].value else 0
  }

  /** A counter cannot expire inside its own minute. */
  ghost predicate CountersOutlast(s: Store, now: int) {
    forall b :: CountKey(b) in s ==>
      b.window <= now && (s[CountKey(b)].expires.Some? ==> b.window + MINUTE <= s[CountKey(b)].expires.value)
  }

  ghost predicate WellTimed(s: Sys) {
    && CountersOutlast(s.store, s.now)
    && forall i :: 0 <= i < |s.callers| && !s.callers[i].Idle? ==> s.callers[i].bucket.window <= s.now
  }

  ghost function Passing(s: Sys, b: Bucket): nat { multiset(s.callers)[Passed(b)] }

  /** Callers with this bucket that have not read its counter yet. */
  ghost function Waiting(s: Sys, b: Bucket): nat {
    multiset(s.callers)[Arrived(b)] + multiset(s.callers)[Unblocked(b)]
  }

  predicate InMinute(now: int, b: Bucket) { now < b.window + MINUTE }

  /** Grants, with those on the way, stay within limit + k - 1, and within their
      minute the counter has them all. */
  ghost predicate Tight(s: Sys, limits: Limits, b: Bucket) {
    && s.grants[b] + Passing(s, b) <= Quota(limits(b.endpoint)) + |s.callers| - 1
    && (InMinute(s.now, b) ==> s.grants[b] <= Stored(s.store, b))
  }

  /** Once the minute is over, callers held up before reading may add k more. */
  ghost predicate Loose(s: Sys, limits: Limits, b: Bucket) {
    && s.grants[b] + Passing(s, b) + Waiting(s, b) <= Quota(limits(b.endpoint)) + 2 * |s.callers| - 1
    && (InMinute(s.now, b) ==> Tight(s, limits, b))
  }

  lemma {:induction false} CountsAtMost<T>(s: seq<T>, x: T, y: T, z: T)
    requires x != y && y != z && x != z
    ensures multiset(s)[x] + multiset(s)[y] + multiset(s)[z] <= |s|
  {
    if s != [] {
      CountsAtMost(s[1..], x, y, z);
      assert s == [s[0]] + s[1..];
    }
  }

  lemma {:induction false} CountAtMost<T>(s: seq<T>, x: T)
    ensures multiset(s)[x] <= |s|
  {
    if s != [] {
      CountAtMost(s[1..], x);
      assert s == [s[0]] + s[1..];
    }
  }

  lemma OthersAtMost<T>(s: seq<T>, i: nat, x: T)
    requires i < |s| && s[i] != x
    ensures multiset(s)[x] <= |s| - 1
  {
    var others := s[..i] + s[i + 1..];
    assert s == s[..i] + [s[i]] + s[i + 1..];
    CountAtMost(others, x);
  }

  lemma CountAfterUpdate<T>(s: seq<T>, i: nat, y: T, x: T)
    requires i < |s|
    ensures multiset(s[i := y])[x] == multiset(s)[x] - (if s[i] == x then 1 else 0) + (if y == x then 1 else 0)
  {
    assert s == s[..i] + [s[i]] + s[i + 1..];
    assert s[i := y] == s[..i] + [y] + s[i + 1..];
  }

  lemma StepKeepsTimes(s: Sys, limits: Limits, step: Step)
    requires WellTimed(s)
    ensures WellTimed(Next(s, limits, step))
    ensures |Next(s, limits, step).callers| == |s.callers|
    ensures Next(s, limits, step).now >= s.now
  {
  }

  /** No caller reads a counter after the minute the clock gave it. */
  ghost predicate Timely(s: Sys, step: Step) {
    step.ReadCount? && step.id < |s.callers| && s.callers[step.id].Unblocked? ==>
      InMinute(s.now, s.callers[step.id].bucket)
  }

  lemma ReadKeepsTight(s: Sys, limits: Limits, id: nat, ok: bool, b: Bucket)
    requires WellTimed(s) && Tight(s, limits, b) && Limited(limits(b.endpoint))
    requires id < |s.callers| && s.callers[id].Unblocked? && InMinute(s.now, s.callers[id].bucket)
    ensures Tight(Next(s, limits, ReadCount(id, ok)), limits, b)
  {
    hide Window;
    var n := Next(s, limits, ReadCount(id, ok));
    CountAfterUpdate(s.callers, id, n.callers[id], Passed(b));
    OthersAtMost(s.callers, id, Passed(b));
    if n.callers[id] == Passed(b) {
      assert Value(s.store, CountKey(b), s.now) == Stored(s.store, b);
    }
  }

  lemma IncrementKeepsTight(s: Sys, limits: Limits, id: nat, effect: Effect, b: Bucket)
    requires WellTimed(s) && Tight(s, limits, b)
    requires id < |s.callers| && s.callers[id].Passed?
    ensures Tight(Next(s, limits, Increment(id, effect)), limits, b)
  {
    hide Window;
    CountAfterUpdate(s.callers, id, Idle, Passed(b));
  }

  lemma StepKeepsTight(s: Sys, limits: Limits, step: Step, b: Bucket)
    requires WellTimed(s) && Tight(s, limits, b) && Limited(limits(b.endpoint)) && Timely(s, step)
    ensures Tight(Next(s, limits, step), limits, b)
  {
    hide Window;
    if !step.Tick? && step.id < |s.callers| {
      match step
      case Increment(id, effect) => if s.callers[id].Passed? { IncrementKeepsTight(s, limits, id, effect, b); }
      case ReadCount(id, ok) => if s.callers[id].Unblocked? { ReadKeepsTight(s, limits, id, ok, b); }
      case _ => OtherKeepsTight(s, limits, step, b);
    }
  }

  lemma OtherKeepsTight(s: Sys, limits: Limits, step: Step, b: Bucket)
    requires Tight(s, limits, b) && Limited(limits(b.endpoint))
    requires (step.Arrive? || step.CheckBlock? || step.SetBlock?) && step.id < |s.callers|
    ensures Tight(Next(s, limits, step), limits, b)
  {
    hide Window, Live;
    CountAfterUpdate(s.callers, step.id, Next(s, limits, step).callers[step.id], Passed(b));
  }

  predicate Engaged(c: Caller, b: Bucket) { c == Passed(b) || c == Arrived(b) || c == Unblocked(b) }

  lemma CallerMoves(s: Sys, n: Sys, i: nat, caller: Caller, b: Bucket)
    requires i < |s.callers| && n.callers == s.callers[i := caller]
    ensures Passing(n, b) + Waiting(n, b)
         == Passing(s, b) + Waiting(s, b)
            - (if Engaged(s.callers[i], b) then 1 else 0) + (if Engaged(caller, b) then 1 else 0)
  {
    CountAfterUpdate(s.callers, i, caller, Passed(b));
    CountAfterUpdate(s.callers, i, caller, Arrived(b));
    CountAfterUpdate(s.callers, i, caller, Unblocked(b));
  }

  /** Once its minute is over a bucket gets no new callers, and a caller is granted once. */
  lemma LateStep(s: Sys, limits: Limits, step: Step, b: Bucket)
    requires !InMinute(s.now, b) && Limited(limits(b.endpoint))
    ensures var n := Next(s, limits, step);
            n.grants[b] + Passing(n, b) + Waiting(n, b) <= s.grants[b] + Passing(s, b) + Waiting(s, b)
  {
    hide Next, Passing, Waiting, Engaged;
    var n := Next(s, limits, step);
    LateCaller(s, limits, step, b);
    if !step.Tick? && step.id < |s.callers| {
      CallerMoves(s, n, step.id, n.callers[step.id], b);
    } else {
      SameCallers(s, n, b);
    }
  }

  lemma LateCaller(s: Sys, limits: Limits, step: Step, b: Bucket)
    requires !InMinute(s.now, b) && Limited(limits(b.endpoint))
    ensures var n := Next(s, limits, step);
            if step.Tick? || step.id >= |s.callers| then n.callers == s.callers && n.grants == s.grants
            else && |n.callers| == |s.callers| && n.callers == s.callers[step.id := n.callers[step.id]]
                 && n.grants[b] + (if Engaged(n.callers[step.id], b) then 1 else 0)
                    <= s.grants[b] + if Engaged(s.callers[step.id], b) then 1 else 0
  {
    assert Window(s.now) != b.window;
    hide Window, AfterIncrement, Set, Value, Live;
  }

  lemma SameCallers(s: Sys, n: Sys, b: Bucket)
    requires n.callers == s.callers
    ensures Passing(n, b) == Passing(s, b) && Waiting(n, b) == Waiting(s, b)
  {
  }

  lemma StepKeepsLoose(s: Sys, limits: Limits, step: Step, b: Bucket)
    requires WellTimed(s) && Loose(s, limits, b) && Limited(limits(b.endpoint))
    ensures Loose(Next(s, limits, step), limits, b)
  {
    var n := Next(s, limits, step);
    StepKeepsTimes(s, limits, step);
    if !InMinute(s.now, b) {
      LateStep(s, limits, step, b);
    } else if Timely(s, step) {
      StepKeepsTight(s, limits, step, b);
      hide Next;
      CountsAtMost(n.callers, Passed(b), Arrived(b), Unblocked(b));
    } else {
      LateReadOfAnother(s, limits, step, b);
    }
  }

  lemma LateReadOfAnother(s: Sys, limits: Limits, step: Step, b: Bucket)
    requires WellTimed(s) && Loose(s, limits, b) && InMinute(s.now, b) && !Timely(s, step)
    ensures Loose(Next(s, limits, step), limits, b)
  {
    hide Window, Value;
    var caller := Next(s, limits, step).callers[step.id];
    CountAfterUpdate(s.callers, step.id, caller, Passed(b));
    CountAfterUpdate(s.callers, step.id, caller, Arrived(b));
    CountAfterUpdate(s.callers, step.id, caller, Unblocked(b));
  }

  lemma {:induction false} RunKeepsLoose(s: Sys, limits: Limits, steps: seq<Step>, b: Bucket)
    requires WellTimed(s) && Loose(s, limits, b) && Limited(limits(b.endpoint))
    ensures Loose(Run(s, limits, steps), limits, b)
    ensures |Run(s, limits, steps).callers| == |s.callers|
    decreases |steps|
  {
    hide Next, WellTimed, Loose;
    if steps != [] {
      StepKeepsTimes(s, limits, steps[0]);
      StepKeepsLoose(s, limits, steps[0], b);
      RunKeepsLoose(Next(s, limits, steps[0]), limits, steps[1..], b);
    }
  }

  ghost predicate TimelyRun(s: Sys, limits: Limits, steps: seq<Step>)
    decreases |steps|
  {
    steps != [] ==> Timely(s, steps[0]) && TimelyRun(Next(s, limits, steps[0]), limits, steps[1..])
  }

  lemma {:induction false} RunKeepsTight(s: Sys, limits: Limits, steps: seq<Step>, b: Bucket)
    requires WellTimed(s) && Tight(s, limits, b) && Limited(limits(b.endpoint)) && TimelyRun(s, limits, steps)
    ensures Tight(Run(s, limits, steps), limits, b)
    ensures |Run(s, limits, steps).callers| == |s.callers|
    decreases |steps|
  {
    hide Next, WellTimed, Tight, Timely;
    if steps != [] {
      StepKeepsTimes(s, limits, steps[0]);
      StepKeepsTight(s, limits, steps[0], b);
      RunKeepsTight(Next(s, limits, steps[0]), limits, steps[1..], b);
    }
  }

  lemma InitLoose(k: nat, start: int, limits: Limits, b: Bucket)
    requires k >= 1
    ensures WellTimed(Init(k, start)) && Loose(Init(k, start), limits, b) && Tight(Init(k, start), limits, b)
  {
    var callers := Init(k, start).callers;
    assert Passed(b) !in callers && Arrived(b) !in callers && Unblocked(b) !in callers;
  }

  /** With k callers inside `IsAllowed` in any interleaving, whatever the store
      fails at, one client gets at most limit + k - 1 grants for one endpoint
      type in one minute, provided each caller reads the counter in the minute
      its clock reading gave it; alone it gets at most the limit. */
  lemma OvershootBound(k: nat, start: int, limits: Limits, steps: seq<Step>, b: Bucket)
    requires k >= 1 && Limited(limits(b.endpoint)) && TimelyRun(Init(k, start), limits, steps)
    ensures Run(Init(k, start), limits, steps).grants[b] <= Quota(limits(b.endpoint)) + k - 1
  {
    InitLoose(k, start, limits, b);
    RunKeepsTight(Init(k, start), limits, steps, b);
  }

  /** However long callers are held up between their steps, at most k more. */
  lemma OvershootBoundAlways(k: nat, start: int, limits: Limits, steps: seq<Step>, b: Bucket)
    requires k >= 1 && Limited(limits(b.endpoint))
    ensures Run(Init(k, start), limits, steps).grants[b] <= Quota(limits(b.endpoint)) + 2 * k - 1
  {
    InitLoose(k, start, limits, b);
    RunKeepsLoose(Init(k, start), limits, steps, b);
  }

  // ----- the bounds are reached -----

  lemma {:induction false} RunAppend(s: Sys, limits: Limits, xs: seq<Step>, ys: seq<Step>)
    ensures Run(s, limits, xs + ys) == Run(Run(s, limits, xs), limits, ys)
    decreases |xs|
  {
    hide Next;
    if xs == [] {
      assert xs + ys == ys;
    } else {
      assert (xs + ys)[0] == xs[0] && (xs + ys)[1..] == xs[1..] + ys;
      RunAppend(Next(s, limits, xs[0]), limits, xs[1..], ys);
    }
  }

  lemma RunSnoc(s: Sys, limits: Limits, xs: seq<Step>, x: Step)
    ensures Run(s, limits, xs + [x]) == Next(Run(s, limits, xs), limits, x)
  {
    RunAppend(s, limits, xs, [x]);
    assert [x][1..] == [];
    hide Next;
  }

  lemma RunTwo(s: Sys, limits: Limits, x: Step, y: Step)
    ensures Run(s, limits, [x, y]) == Next(Next(s, limits, x), limits, y)
  {
    hide Next;
    RunSnoc(s, limits, [x], y);
    RunSnoc(s, limits, [], x);
    assert [x] + [y] == [x, y] && [] + [x] == [x];
  }

  /** No caller holds a bucket of another minute than the present one. */
  ghost predicate Current(s: Sys) {
    forall i :: 0 <= i < |s.callers| && !s.callers[i].Idle? ==> s.callers[i].bucket.window == Window(s.now)
  }

  predicate AtOnce(steps: seq<Step>) { forall x :: x in steps ==> !x.Tick? }

  lemma CurrentStep(s: Sys, limits: Limits, step: Step)
    requires Current(s) && !step.Tick?
    ensures Current(Next(s, limits, step)) && Timely(s, step)
  {
    assert s.now < Window(s.now) + MINUTE;
    hide Window, AfterIncrement, Set, Value, Live;
  }

  /** When no time passes, every read is timely. */
  lemma {:induction false} AtOnceIsTimely(s: Sys, limits: Limits, steps: seq<Step>)
    requires Current(s) && AtOnce(steps)
    ensures TimelyRun(s, limits, steps)
    decreases |steps|
  {
    hide Next, Current, Timely;
    if steps != [] {
      assert steps[0] in steps;
      CurrentStep(s, limits, steps[0]);
      assert forall x :: x in steps[1..] ==> x in steps;
      AtOnceIsTimely(Next(s, limits, steps[0]), limits, steps[1..]);
    }
  }

  /** The first p of k callers are at `x`, the others at `y`; g grants so far. */
  function Crowd(k: nat, now: int, store: Store, p: nat, x: Caller, y: Caller, b: Bucket, g: nat): Sys {
    Sys(now, store, seq(k, i => if i < p then x else y), multiset{}[b := g])
  }

  /** The store after m increments at `now`. */
  function Counted(store: Store, b: Bucket, now: int, m: nat): Store {
    if m == 0 then store else AfterIncrement(Counted(store, b, now, m - 1), b, now, Applied)
  }

  lemma {:induction false} CountedValue(store: Store, b: Bucket, now: int, m: nat)
    ensures var c := Counted(store, b, now, m);
            && Value(c, CountKey(b), now) == Value(store, CountKey(b), now) + m
            && (m > 0 ==> CountKey(b) in c && c[CountKey(b)].expires == Some(now + MINUTE))
            && (BlockKey(b.client, b.endpoint) !in store ==> BlockKey(b.client, b.endpoint) !in c)
  {
    if m > 0 { CountedValue(store, b, now, m - 1); }
  }

  lemma {:induction false} CountedSum(store: Store, b: Bucket, now: int, m: nat, n: nat)
    ensures Counted(Counted(store, b, now, m), b, now, n) == Counted(store, b, now, m + n)
  {
    hide AfterIncrement;
    if n > 0 {
      CountedSum(store, b, now, m, n - 1);
      assert m + n - 1 == m + (n - 1);
    }
  }

  lemma MoveOne(k: nat, now: int, store: Store, p: nat, x: Caller, y: Caller, b: Bucket, g: nat)
    requires p < k
    ensures Crowd(k, now, store, p, x, y, b, g).callers[p := x] == Crowd(k, now, store, p + 1, x, y, b, g).callers
  {
  }

  /** Callers arrive one after another and find no block. */
  lemma {:induction false} Gather(k: nat, limits: Limits, store: Store, p: nat, b: Bucket, g: nat)
    returns (steps: seq<Step>)
    requires p <= k && b.window == 0 && Limited(limits(b.endpoint)) && BlockKey(b.client, b.endpoint) !in store
    ensures Run(Crowd(k, 0, store, 0, Unblocked(b), Idle, b, g), limits, steps)
         == Crowd(k, 0, store, p, Unblocked(b), Idle, b, g)
    ensures AtOnce(steps)
  {
    hide Crowd;
    if p == 0 {
      steps := [];
    } else {
      var prev := Gather(k, limits, store, p - 1, b, g);
      var more := [Arrive(p - 1, b.client, b.endpoint), CheckBlock(p - 1, true)];
      GatherOne(k, limits, store, p - 1, b, g);
      hide Next;
      RunAppend(Crowd(k, 0, store, 0, Unblocked(b), Idle, b, g), limits, prev, more);
      RunTwo(Crowd(k, 0, store, p - 1, Unblocked(b), Idle, b, g), limits, more[0], more[1]);
      steps := prev + more;
    }
  }

  lemma GatherOne(k: nat, limits: Limits, store: Store, p: nat, b: Bucket, g: nat)
    requires p < k && b.window == 0 && Limited(limits(b.endpoint)) && BlockKey(b.client, b.endpoint) !in store
    ensures var s := Crowd(k, 0, store, p, Unblocked(b), Idle, b, g);
            Next(Next(s, limits, Arrive(p, b.client, b.endpoint)), limits, CheckBlock(p, true))
            == Crowd(k, 0, store, p + 1, Unblocked(b), Idle, b, g)
  {
    var s := Crowd(k, 0, store, p, Unblocked(b), Idle, b, g);
    assert Window(0) == 0;
    assert Next(s, limits, Arrive(p, b.client, b.endpoint)) == s.(callers := s.callers[p := Arrived(b)]);
    MoveOne(k, 0, store, p, Unblocked(b), Idle, b, g);
  }

  /** They all read the same count, below the limit. */
  lemma {:induction false} ReadAll(k: nat, now: int, limits: Limits, store: Store, p: nat, b: Bucket, g: nat)
    returns (steps: seq<Step>)
    requires p <= k && Value(store, CountKey(b), now) < Limit(limits(b.endpoint))
    ensures Run(Crowd(k, now, store, 0, Passed(b), Unblocked(b), b, g), limits, steps)
         == Crowd(k, now, store, p, Passed(b), Unblocked(b), b, g)
    ensures AtOnce(steps)
  {
    if p == 0 {
      steps := [];
    } else {
      var prev := ReadAll(k, now, limits, store, p - 1, b, g);
      MoveOne(k, now, store, p - 1, Passed(b), Unblocked(b), b, g);
      RunSnoc(Crowd(k, now, store, 0, Passed(b), Unblocked(b), b, g), limits, prev, ReadCount(p - 1, true));
      steps := prev + [ReadCount(p - 1, true)];
    }
  }

  /** They all increment and are granted. */
  lemma {:induction false} Leave(k: nat, now: int, limits: Limits, store: Store, p: nat, b: Bucket, g: nat)
    returns (steps: seq<Step>)
    requires p <= k
    ensures Run(Crowd(k, now, store, 0, Idle, Passed(b), b, g), limits, steps)
         == Crowd(k, now, Counted(store, b, now, p), p, Idle, Passed(b), b, g + p)
    ensures AtOnce(steps)
  {
    hide Crowd, Next, AfterIncrement;
    if p == 0 {
      steps := [];
    } else {
      var prev := Leave(k, now, limits, store, p - 1, b, g);
      LeaveOne(k, now, limits, store, p - 1, b, g);
      RunSnoc(Crowd(k, now, store, 0, Idle, Passed(b), b, g), limits, prev, Increment(p - 1, Applied));
      steps := prev + [Increment(p - 1, Applied)];
    }
  }

  lemma LeaveOne(k: nat, now: int, limits: Limits, store: Store, p: nat, b: Bucket, g: nat)
    requires p < k
    ensures Next(Crowd(k, now, Counted(store, b, now, p), p, Idle, Passed(b), b, g + p), limits, Increment(p, Applied))
         == Crowd(k, now, Counted(store, b, now, p + 1), p + 1, Idle, Passed(b), b, g + p + 1)
  {
    hide AfterIncrement;
    var c := Counted(store, b, now, p);
    MoveOne(k, now, c, p, Idle, Passed(b), b, g + p);
    assert Counted(store, b, now, p + 1) == AfterIncrement(c, b, now, Applied);
    assert multiset{}[b := g + p] + multiset{b} == multiset{}[b := g + p + 1];
  }

  /** All k callers in one state are the same crowd however it is counted. */
  lemma SameCrowd(k: nat, now: int, store: Store, x: Caller, y: Caller, z: Caller, b: Bucket, g: nat)
    ensures Crowd(k, now, store, k, x, y, b, g) == Crowd(k, now, store, 0, z, x, b, g)
  {
    assert Crowd(k, now, store, k, x, y, b, g).callers == Crowd(k, now, store, 0, z, x, b, g).callers;
  }

  /** k callers that found no block read the counter and are all granted. */
  lemma Rush(k: nat, now: int, limits: Limits, store: Store, b: Bucket, g: nat) returns (steps: seq<Step>)
    requires Value(store, CountKey(b), now) < Limit(limits(b.endpoint))
    ensures Run(Crowd(k, now, store, k, Unblocked(b), Idle, b, g), limits, steps)
         == Crowd(k, now, Counted(store, b, now, k), 0, Unblocked(b), Idle, b, g + k)
    ensures AtOnce(steps)
  {
    hide Crowd, Next, Counted, Value;
    SameCrowd(k, now, store, Unblocked(b), Idle, Passed(b), b, g);
    var enter := ReadAll(k, now, limits, store, k, b, g);
    SameCrowd(k, now, store, Passed(b), Unblocked(b), Idle, b, g);
    var leaves := Leave(k, now, limits, store, k, b, g);
    SameCrowd(k, now, Counted(store, b, now, k), Idle, Passed(b), Unblocked(b), b, g + k);
    RunAppend(Crowd(k, now, store, k, Unblocked(b), Idle, b, g), limits, enter, leaves);
    steps := enter + leaves;
  }

  /** One caller alone is granted n times, up to the limit. */
  lemma {:induction false} Serial(k: nat, limits: Limits, b: Bucket, n: nat) returns (steps: seq<Step>)
    requires k >= 1 && b.window == 0 && Limited(limits(b.endpoint)) && n <= Limit(limits(b.endpoint))
    ensures Run(Init(k, 0), limits, steps) == Crowd(k, 0, Counted(map[], b, 0, n), 0, Unblocked(b), Idle, b, n)
    ensures AtOnce(steps)
  {
    if n == 0 {
      steps := [];
      assert Init(k, 0).callers == Crowd(k, 0, map[], 0, Unblocked(b), Idle, b, 0).callers;
    } else {
      var prev := Serial(k, limits, b, n - 1);
      hide Crowd, Next, Counted;
      var more := SerialOne(k, limits, b, n - 1);
      RunAppend(Init(k, 0), limits, prev, more);
      steps := prev + more;
    }
  }

  lemma SerialOne(k: nat, limits: Limits, b: Bucket, n: nat) returns (steps: seq<Step>)
    requires k >= 1 && b.window == 0 && Limited(limits(b.endpoint)) && n < Limit(limits(b.endpoint))
    ensures Run(Crowd(k, 0, Counted(map[], b, 0, n), 0, Unblocked(b), Idle, b, n), limits, steps)
         == Crowd(k, 0, Counted(map[], b, 0, n + 1), 0, Unblocked(b), Idle, b, n + 1)
    ensures AtOnce(steps)
  {
    hide Next, Crowd, Counted, Value;
    var store := Counted(map[], b, 0, n);
    CountedValue(map[], b, 0, n);
    NothingStored(b, 0);
    var s := Crowd(k, 0, store, 0, Unblocked(b), Idle, b, n);
    var s2 := Crowd(k, 0, store, 1, Unblocked(b), Idle, b, n);
    var first, last := [Arrive(0, b.client, b.endpoint), CheckBlock(0, true)],
                       [ReadCount(0, true), Increment(0, Applied)];
    GatherOne(k, limits, store, 0, b, n);
    RushOne(k, limits, store, b, n);
    CountedSum(map[], b, 0, n, 1);
    RunTwo(s, limits, first[0], first[1]);
    RunTwo(s2, limits, last[0], last[1]);
    RunAppend(s, limits, first, last);
    steps := first + last;
  }

  lemma RushOne(k: nat, limits: Limits, store: Store, b: Bucket, n: nat)
    requires k >= 1 && Value(store, CountKey(b), 0) < Limit(limits(b.endpoint))
    ensures var s := Crowd(k, 0, store, 1, Unblocked(b), Idle, b, n);
            Next(Next(s, limits, ReadCount(0, true)), limits, Increment(0, Applied))
            == Crowd(k, 0, Counted(store, b, 0, 1), 0, Unblocked(b), Idle, b, n + 1)
  {
    hide Value;
    var s := Crowd(k, 0, store, 1, Unblocked(b), Idle, b, n);
    var s1 := Next(s, limits, ReadCount(0, true));
    assert s1 == s.(callers := s.callers[0 := Passed(b)]);
    var s2 := Next(s1, limits, Increment(0, Applied));
    assert s2.callers == Crowd(k, 0, store, 0, Unblocked(b), Idle, b, n).callers;
    assert Counted(store, b, 0, 1) == AfterIncrement(Counted(store, b, 0, 0), b, 0, Applied);
    assert s2.grants == multiset{}[b := n + 1];
  }

  lemma FillUp(k: nat, limits: Limits, b: Bucket) returns (steps: seq<Step>)
    requires k >= 1 && b.window == 0 && Limited(limits(b.endpoint)) && Limit(limits(b.endpoint)) >= 1
    ensures var g := Quota(limits(b.endpoint)) + k - 1;
            Run(Init(k, 0), limits, steps) == Crowd(k, 0, Counted(map[], b, 0, g), 0, Unblocked(b), Idle, b, g)
    ensures AtOnce(steps)
  {
    hide Crowd, Next, Counted, Value;
    var n := Quota(limits(b.endpoint)) - 1;
    var store := Counted(map[], b, 0, n);
    CountedValue(map[], b, 0, n);
    NothingStored(b, 0);
    var first := Serial(k, limits, b, n);
    var gather := Gather(k, limits, store, k, b, n);
    var rush := Rush(k, 0, limits, store, b, n);
    CountedSum(map[], b, 0, n, k);
    RunAppend(Init(k, 0), limits, first, gather);
    RunAppend(Init(k, 0), limits, first + gather, rush);
    steps := first + gather + rush;
  }

  lemma NothingStored(b: Bucket, now: int)
    ensures Value(map[], CountKey(b), now) == 0
  {
  }

  /** The first bound is exact: some timely interleaving of k callers gets
      limit + k - 1 grants within one minute. */
  lemma OvershootReached(k: nat, limits: Limits, client: string, endpoint: Endpoint) returns (steps: seq<Step>)
    requires k >= 1 && Limited(limits(endpoint)) && Limit(limits(endpoint)) >= 1
    ensures TimelyRun(Init(k, 0), limits, steps)
    ensures Run(Init(k, 0), limits, steps).grants[Bucket(client, endpoint, 0)] == Quota(limits(endpoint)) + k - 1
  {
    steps := FillUp(k, limits, Bucket(client, endpoint, 0));
    AtOnceIsTimely(Init(k, 0), limits, steps);
  }

  /** So is the second: after those grants all k callers arrive again before the
      minute is over, and read the counter once it has expired. */
  lemma OvershootReachedLate(k: nat, limits: Limits, client: string, endpoint: Endpoint) returns (steps: seq<Step>)
    requires k >= 1 && Limited(limits(endpoint)) && Limit(limits(endpoint)) >= 1
    ensures Run(Init(k, 0), limits, steps).grants[Bucket(client, endpoint, 0)] == Quota(limits(endpoint)) + 2 * k - 1
  {
    hide Crowd, Next, Counted, Value, AtOnce;
    var b := Bucket(client, endpoint, 0);
    var g := Quota(limits(endpoint)) + k - 1;
    var store := Counted(map[], b, 0, g);
    CountedValue(map[], b, 0, g);
    ExpiredValue(store, b);
    var first := FillUp(k, limits, b);
    var gather := Gather(k, limits, store, k, b, g);
    var rush := Rush(k, MINUTE, limits, store, b, g);
    TickCrowd(k, limits, store, b, g);
    RunAppend(Init(k, 0), limits, first, gather);
    RunSnoc(Init(k, 0), limits, first + gather, Tick(MINUTE));
    RunAppend(Init(k, 0), limits, first + gather + [Tick(MINUTE)], rush);
    steps := first + gather + [Tick(MINUTE)] + rush;
    CrowdGrants(k, MINUTE, Counted(store, b, MINUTE, k), b, g + k);
  }

  lemma ExpiredValue(store: Store, b: Bucket)
    requires CountKey(b) in store && store[CountKey(b)].expires == Some(MINUTE)
    ensures Value(store, CountKey(b), MINUTE) == 0
  {
  }

  lemma CrowdGrants(k: nat, now: int, store: Store, b: Bucket, g: nat)
    ensures Crowd(k, now, store, 0, Unblocked(b), Idle, b, g).grants[b] == g
  {
  }

  lemma TickCrowd(k: nat, limits: Limits, store: Store, b: Bucket, g: nat)
    ensures Next(Crowd(k, 0, store, k, Unblocked(b), Idle, b, g), limits, Tick(MINUTE))
         == Crowd(k, MINUTE, store, k, Unblocked(b), Idle, b, g)
  {
  }
}
