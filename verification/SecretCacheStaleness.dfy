// The same cache with callers interleaving and the backend rotated from outside.
module SecretCacheStaleness {
  import opened SecretCache

  /** Where a caller stands: a Get that missed and then read the backend at
      `at`, or a Set that wrote it at `at`, and has not stored its entry yet. */
  datatype Caller =
    | Idle
    | Missed(path: string)
    | Fetched(path: string, value: string, at: int)
    | Wrote(path: string, value: string, at: int)

  /** What the backend held from `time` on. */
  datatype Snapshot = Snapshot(time: int, values: Values)

  datatype Served = Served(path: string, value: string, time: int, hit: bool)

  datatype Sys = Sys(now: int, history: seq<Snapshot>, entries: Entries, callers: map<nat, Caller>, served: seq<Served>)

  datatype Step =
    | Tick(d: nat)
    | Rotate(values: Values)
    | Read(id: nat, path: string)
    | Fetch(id: nat, ok: bool)
    | Write(id: nat, path: string, value: string, ok: bool)
    | Keep(id: nat)

  function At(s: Sys, id: nat): Caller {
    if id in s.callers then s.callers[id] else Idle
  }

  function Inner(s: Sys): Values
    requires s.history != []
  {
    s.history[|s.history| - 1].values
  }

  function Replace(s: Sys, values: Values): Sys {
    s.(history := s.history + [Snapshot(s.now, values)])
  }

  /** `gap` bounds the time a caller takes from touching the backend to `store`:
      a Keep that comes later does not happen. */
  function Next(s: Sys, ttl: int, gap: nat, step: Step): (n: Sys)
    requires s.history != []
    ensures n.history != []
  {
    match step
    case Tick(d) => s.(now := s.now + d)
    case Rotate(values) => Replace(s, values)
    case Read(id, path) =>
      if !At(s, id).Idle? then s
      else if Hit(s.entries, path, s.now) then
        s.(served := s.served + [Served(path, s.entries[path].value, s.now, true)])
      else s.(callers := s.callers[id := Missed(path)])
    case Fetch(id, ok) =>
      if !At(s, id).Missed? then s
      else
        var path := At(s, id).path;
        s.(callers := s.callers[id := if ok && path in Inner(s) then Fetched(path, Inner(s)[path], s.now) else Idle])
    case Write(id, path, value, ok) =>
      if !At(s, id).Idle? || !ok then s
      else Replace(s, Inner(s)[path := value]).(callers := s.callers[id := Wrote(path, value, s.now)])
    case Keep(id) =>
      var c := At(s, id);
      if !(c.Fetched? || c.Wrote?) || s.now > c.at + gap then s
      else s.(entries := Store(s.entries, ttl, c.path, c.value, s.now),
              callers := s.callers[id := Idle],
              served := if c.Fetched? then s.served + [Served(c.path, c.value, s.now, false)] else s.served)
  }

  function Run(s: Sys, ttl: int, gap: nat, steps: seq<Step>): (r: Sys)
    requires s.history != []
    ensures r.history != []
    decreases |steps|
  {
    if steps == [] then s else Run(Next(s, ttl, gap, steps[0]), ttl, gap, steps[1..])
  }

  function Init(values: Values, now: int): Sys {
    Sys(now, [Snapshot(now, values)], map[], map[], [])
  }

  // ----- what the backend held, and when -----

  /** The last instant at which snapshot `i` was in force. */
  function Until(s: Sys, i: nat): int
    requires i < |s.history|
  {
    if i + 1 < |s.history| then s.history[i + 1].time else s.now
  }

  ghost predicate HeldBy(s: Sys, i: nat, path: string, value: string, lo: int, hi: int) {
    && i < |s.history| && path in s.history[i].values && s.history[i].values[path] == value
    && s.history[i].time <= hi && lo <= Until(s, i)
  }

  /** The backend held this value at some instant between `lo` and `hi`. */
  ghost predicate Held(s: Sys, path: string, value: string, lo: int, hi: int) {
    lo <= hi && exists i :: HeldBy(s, i, path, value, lo, hi)
  }

  ghost predicate CallerFresh(s: Sys, c: Caller) {
    c.Fetched? || c.Wrote? ==> c.at <= s.now && Held(s, c.path, c.value, c.at, c.at)
  }

  ghost predicate EntryFresh(s: Sys, ttl: int, gap: nat, path: string) {
    path in s.entries ==>
      s.entries[path].expires - ttl <= s.now
      && Held(s, path, s.entries[path].value, s.entries[path].expires - ttl - gap, s.entries[path].expires - ttl)
  }

  /** A value served from the cache at t was held later than t - ttl - gap; one
      served after reading the backend, no earlier than t - gap. */
  ghost predicate ServedFresh(s: Sys, ttl: int, gap: nat, v: Served) {
    && v.time <= s.now
    && (v.hit ==> Held(s, v.path, v.value, v.time - ttl - gap + 1, v.time))
    && (!v.hit ==> Held(s, v.path, v.value, v.time - gap, v.time))
  }

  ghost predicate Valid(s: Sys, ttl: int, gap: nat) {
    && s.history != []
    && (forall i :: 0 <= i < |s.history| ==> s.history[i].time <= s.now)
    && (forall id :: id in s.callers ==> CallerFresh(s, s.callers[id]))
    && (forall p :: p in s.entries ==> EntryFresh(s, ttl, gap, p))
    && (forall i :: 0 <= i < |s.served| ==> ServedFresh(s, ttl, gap, s.served[i]))
  }

  lemma HeldPersists(s: Sys, ttl: int, gap: nat, step: Step, path: string, value: string, lo: int, hi: int)
    requires s.history != [] && lo <= s.now && Held(s, path, value, lo, hi)
    ensures Held(Next(s, ttl, gap, step), path, value, lo, hi)
  {
    var i :| HeldBy(s, i, path, value, lo, hi);
    assert HeldBy(Next(s, ttl, gap, step), i, path, value, lo, hi);
  }

  lemma HeldNow(s: Sys, path: string, value: string)
    requires s.history != [] && s.history[|s.history| - 1].time <= s.now
    requires path in Inner(s) && Inner(s)[path] == value
    ensures Held(s, path, value, s.now, s.now)
  {
    assert HeldBy(s, |s.history| - 1, path, value, s.now, s.now);
  }

  lemma HeldWider(s: Sys, path: string, value: string, lo: int, hi: int, lo': int, hi': int)
    requires Held(s, path, value, lo, hi) && lo' <= lo && hi <= hi'
    ensures Held(s, path, value, lo', hi')
  {
    var i :| HeldBy(s, i, path, value, lo, hi);
    assert HeldBy(s, i, path, value, lo', hi');
  }

  lemma OldStaysFresh(s: Sys, ttl: int, gap: nat, step: Step)
    requires Valid(s, ttl, gap)
    ensures var n := Next(s, ttl, gap, step);
            && n.now >= s.now && n.history != []
            && (forall i :: 0 <= i < |n.history| ==> n.history[i].time <= n.now)
            && (forall id :: id in s.callers ==> CallerFresh(n, s.callers[id]))
            && (forall p :: p in s.entries && p in n.entries && n.entries[p] == s.entries[p] ==>
                  EntryFresh(n, ttl, gap, p))
            && (forall i :: 0 <= i < |s.served| ==> ServedFresh(n, ttl, gap, s.served[i]))
  {
    hide Held;
    var n := Next(s, ttl, gap, step);
    forall id | id in s.callers
      ensures CallerFresh(n, s.callers[id])
    {
      var c := s.callers[id];
      assert CallerFresh(s, c);
      if c.Fetched? || c.Wrote? { HeldPersists(s, ttl, gap, step, c.path, c.value, c.at, c.at); }
    }
    forall p | p in s.entries && p in n.entries && n.entries[p] == s.entries[p]
      ensures EntryFresh(n, ttl, gap, p)
    {
      var e := s.entries[p];
      assert EntryFresh(s, ttl, gap, p);
      HeldPersists(s, ttl, gap, step, p, e.value, e.expires - ttl - gap, e.expires - ttl);
    }
    forall i | 0 <= i < |s.served|
      ensures ServedFresh(n, ttl, gap, s.served[i])
    {
      var v := s.served[i];
      assert ServedFresh(s, ttl, gap, v);
      if v.hit {
        HeldLow(s, v.path, v.value, v.time - ttl - gap + 1, v.time);
        HeldPersists(s, ttl, gap, step, v.path, v.value, v.time - ttl - gap + 1, v.time);
      } else {
        HeldPersists(s, ttl, gap, step, v.path, v.value, v.time - gap, v.time);
      }
    }
  }

  lemma HeldLow(s: Sys, path: string, value: string, lo: int, hi: int)
    requires Held(s, path, value, lo, hi)
    ensures lo <= hi
  {
  }

  lemma StepKeepsFresh(s: Sys, ttl: int, gap: nat, step: Step)
    requires Valid(s, ttl, gap)
    ensures Valid(Next(s, ttl, gap, step), ttl, gap)
  {
    hide Held;
    var n := Next(s, ttl, gap, step);
    OldStaysFresh(s, ttl, gap, step);
    match step
    case Read(id, path) =>
      if At(s, id).Idle? && Hit(s.entries, path, s.now) {
        var e := s.entries[path];
        assert EntryFresh(s, ttl, gap, path) && EntryFresh(n, ttl, gap, path);
        HeldWider(n, path, e.value, e.expires - ttl - gap, e.expires - ttl, s.now - ttl - gap + 1, s.now) by {
          if e.expires - ttl > s.now { assert false; }
        }
      }
    case Fetch(id, ok) =>
      if At(s, id).Missed? && At(s, id).path in Inner(s) {
        HeldNow(n, At(s, id).path, Inner(s)[At(s, id).path]);
      }
    case Write(id, path, value, ok) =>
      if At(s, id).Idle? && ok { HeldNow(n, path, value); }
    case Keep(id) =>
      var c := At(s, id);
      if (c.Fetched? || c.Wrote?) && s.now <= c.at + gap {
        assert CallerFresh(s, c) && CallerFresh(n, c);
        HeldWider(n, c.path, c.value, c.at, c.at, s.now - gap, s.now);
      }
    case _ =>
  }

  lemma {:induction false} RunKeepsFresh(s: Sys, ttl: int, gap: nat, steps: seq<Step>)
    requires Valid(s, ttl, gap)
    ensures Valid(Run(s, ttl, gap, steps), ttl, gap)
    decreases |steps|
  {
    hide Next;
    if steps != [] {
      StepKeepsFresh(s, ttl, gap, steps[0]);
      hide Valid;
      RunKeepsFresh(Next(s, ttl, gap, steps[0]), ttl, gap, steps[1..]);
    }
  }

  /** Over every interleaving of Get, Set and outside rotation, a value served
      from the cache at t was held by the backend at some instant after
      t - ttl - gap and no later than t. */
  lemma StalenessBound(values: Values, start: int, ttl: int, gap: nat, steps: seq<Step>, i: nat)
    requires i < |Run(Init(values, start), ttl, gap, steps).served|
    ensures var r := Run(Init(values, start), ttl, gap, steps);
            var v := r.served[i];
            Held(r, v.path, v.value, if v.hit then v.time - ttl - gap + 1 else v.time - gap, v.time)
  {
    hide Run, Held;
    RunKeepsFresh(Init(values, start), ttl, gap, steps);
    var r := Run(Init(values, start), ttl, gap, steps);
    assert ServedFresh(r, ttl, gap, r.served[i]);
  }

  /** A run passes through the states its steps lead to. */
  lemma {:induction false} RunTrace(ttl: int, gap: nat, steps: seq<Step>, states: seq<Sys>)
    requires |states| == |steps| + 1 && forall i :: 0 <= i < |states| ==> states[i].history != []
    requires forall i :: 0 <= i < |steps| ==> states[i + 1] == Next(states[i], ttl, gap, steps[i])
    ensures Run(states[0], ttl, gap, steps) == states[|steps|]
    decreases |steps|
  {
    hide Next;
    if steps != [] {
      forall i | 0 <= i < |steps| - 1
        ensures states[1..][i + 1] == Next(states[1..][i], ttl, gap, steps[1..][i])
      {
        assert states[i + 2] == Next(states[i + 1], ttl, gap, steps[i + 1]);
      }
      RunTrace(ttl, gap, steps[1..], states[1..]);
    }
  }

  /** A Get that nobody overlaps is a run of one caller's steps: looking for an
      entry, asking the backend, and, a while later, storing what it answered.
      It leaves the entries, and serves the value, that `Apply` says. */
  lemma GetIsARun(s: Sys, ttl: int, gap: nat, id: nat, path: string, up: bool, wait: nat) returns (steps: seq<Step>)
    requires s.history != [] && At(s, id).Idle? && wait <= gap
    ensures var r := Run(s, ttl, gap, steps);
            var (c, answer) := Apply(Cache(Inner(s), s.entries), ttl, Get(path, s.now, up, s.now + wait));
            && Inner(r) == c.inner && r.entries == c.entries && At(r, id).Idle?
            && r.served == s.served + (if answer.Found? then
                  [Served(path, answer.value, r.now, Hit(s.entries, path, s.now))] else [])
  {
    hide Run;
    var a := [Read(id, path), Fetch(id, up), Tick(wait), Keep(id)];
    steps := if Hit(s.entries, path, s.now) then a[..1] else a;
    var s1 := Next(s, ttl, gap, a[0]);
    if Hit(s.entries, path, s.now) {
      RunTrace(ttl, gap, steps, [s, s1]);
    } else {
      var s2 := Next(s1, ttl, gap, a[1]);
      var s3 := Next(s2, ttl, gap, a[2]);
      var s4 := Next(s3, ttl, gap, a[3]);
      RunTrace(ttl, gap, steps, [s, s1, s2, s3, s4]);
      assert s.served + [] == s.served;
    }
  }

  /** So is a Set. */
  lemma SetIsARun(s: Sys, ttl: int, gap: nat, id: nat, path: string, value: string, accepted: bool, wait: nat)
    returns (steps: seq<Step>)
    requires s.history != [] && At(s, id).Idle? && wait <= gap
    ensures var r := Run(s, ttl, gap, steps);
            var (c, answer) := Apply(Cache(Inner(s), s.entries), ttl, Set(path, value, accepted, s.now + wait));
            Inner(r) == c.inner && r.entries == c.entries && At(r, id).Idle? && r.served == s.served
  {
    hide Run;
    steps := [Write(id, path, value, accepted), Tick(wait), Keep(id)];
    var s1 := Next(s, ttl, gap, steps[0]);
    var s2 := Next(s1, ttl, gap, steps[1]);
    var s3 := Next(s2, ttl, gap, steps[2]);
    RunTrace(ttl, gap, steps, [s, s1, s2, s3]);
  }

  /** The TTL alone bounds nothing: a value rotated out right after it was read
      is still served ttl + gap - 1 later, and at no later instant than the
      rotation was it held. The bound above is therefore exact. */
  lemma TtlAloneIsNoBound(path: string, stale: string, rotated: string, ttl: nat, gap: nat) returns (steps: seq<Step>)
    requires ttl >= 1 && gap >= 1 && stale != rotated
    ensures var r := Run(Init(map[path := stale], 0), ttl, gap, steps);
            && r.served != [] && r.served[|r.served| - 1] == Served(path, stale, ttl + gap - 1, true)
            && forall lo, hi :: Held(r, path, stale, lo, hi) ==> lo <= 0
  {
    hide Run;
    var s0 := Init(map[path := stale], 0);
    var a := [Read(0, path), Fetch(0, true), Rotate(map[path := rotated]), Tick(gap),
              Keep(0), Tick(ttl - 1), Read(0, path)];
    steps := a;
    var s1 := Next(s0, ttl, gap, a[0]);
    var s2 := Next(s1, ttl, gap, a[1]);
    var s3 := Next(s2, ttl, gap, a[2]);
    var s4 := Next(s3, ttl, gap, a[3]);
    var s5 := Next(s4, ttl, gap, a[4]);
    var s6 := Next(s5, ttl, gap, a[5]);
    var s7 := Next(s6, ttl, gap, a[6]);
    assert s2.callers[0] == Fetched(path, stale, 0);
    assert s5.entries == map[path := Entry(stale, gap + ttl)];
    assert s7.served == s6.served + [Served(path, stale, ttl + gap - 1, true)];
    assert s7.history == [Snapshot(0, map[path := stale]), Snapshot(0, map[path := rotated])];
    RunTrace(ttl, gap, a, [s0, s1, s2, s3, s4, s5, s6, s7]);
    forall lo, hi | Held(s7, path, stale, lo, hi)
      ensures lo <= 0
    {
      var i :| HeldBy(s7, i, path, stale, lo, hi);
      assert i == 0;
    }
  }

  // ----- reading what was written -----

  /** A caller about to store another value than `value` under `path`. */
  ghost predicate Pending(s: Sys, gap: nat, path: string, value: string, id: nat) {
    var c := At(s, id);
    (c.Fetched? || c.Wrote?) && c.path == path && c.value != value && s.now <= c.at + gap
  }

  /** The backend and whatever the cache would serve hold `value`. */
  ghost predicate Settled(s: Sys, path: string, value: string)
    requires s.history != []
  {
    && path in Inner(s) && Inner(s)[path] == value
    && (Hit(s.entries, path, s.now) ==> s.entries[path].value == value)
  }

  /** A step that writes or rotates nothing else under `path`. */
  predicate Quiet(step: Step, path: string, value: string) {
    match step
    case Rotate(values) => path in values && values[path] == value
    case Write(_, p, v, ok) => ok && p == path ==> v == value
    case _ => true
  }

  ghost predicate ServesOnly(served: seq<Served>, start: nat, path: string, value: string) {
    forall i :: start <= i < |served| && served[i].path == path ==> served[i].value == value
  }

  /** If no other value comes to the backend, this run serves no other. */
  ghost predicate Consistent(s: Sys, ttl: int, gap: nat, path: string, value: string, steps: seq<Step>)
    requires s.history != []
  {
    (forall x :: x in steps ==> Quiet(x, path, value)) ==>
      ServesOnly(Run(s, ttl, gap, steps).served, |s.served|, path, value)
  }

  lemma QuietStep(s: Sys, ttl: int, gap: nat, path: string, value: string, step: Step)
    requires s.history != [] && Settled(s, path, value) && Quiet(step, path, value)
    requires forall id :: !Pending(s, gap, path, value, id)
    ensures var n := Next(s, ttl, gap, step);
            && Settled(n, path, value) && (forall id :: !Pending(n, gap, path, value, id))
            && |s.served| <= |n.served| && n.served[..|s.served|] == s.served
            && ServesOnly(n.served, |s.served|, path, value)
  {
    var n := Next(s, ttl, gap, step);
    assert !step.Tick? && !step.Rotate? ==> !Pending(s, gap, path, value, step.id);
    forall id
      ensures !Pending(n, gap, path, value, id)
    {
      assert !Pending(s, gap, path, value, id);
    }
  }

  lemma {:induction false} QuietRun(s: Sys, ttl: int, gap: nat, path: string, value: string, steps: seq<Step>)
    requires s.history != [] && Settled(s, path, value) && forall id :: !Pending(s, gap, path, value, id)
    requires forall x :: x in steps ==> Quiet(x, path, value)
    ensures ServesOnly(Run(s, ttl, gap, steps).served, |s.served|, path, value)
    ensures |s.served| <= |Run(s, ttl, gap, steps).served| && Run(s, ttl, gap, steps).served[..|s.served|] == s.served
    decreases |steps|
  {
    hide Next, Pending, Quiet;
    if steps != [] {
      assert steps[0] in steps;
      var n := Next(s, ttl, gap, steps[0]);
      QuietStep(s, ttl, gap, path, value, steps[0]);
      assert forall x :: x in steps[1..] ==> x in steps;
      QuietRun(n, ttl, gap, path, value, steps[1..]);
      var r := Run(s, ttl, gap, steps);
      assert r == Run(n, ttl, gap, steps[1..]);
      assert r.served[..|s.served|] == r.served[..|n.served|][..|s.served|];
      forall i | |s.served| <= i < |r.served| && r.served[i].path == path
        ensures r.served[i].value == value
      {
        if i < |n.served| { assert r.served[i] == r.served[..|n.served|][i] == n.served[i]; }
      }
    }
  }

  /** A pending caller stores its value, and its next Get is served it. */
  lemma PendingIsServed(s: Sys, ttl: int, gap: nat, path: string, value: string, id: nat) returns (steps: seq<Step>)
    requires s.history != [] && ttl >= 1 && Pending(s, gap, path, value, id)
    ensures !Consistent(s, ttl, gap, path, value, steps)
  {
    steps := [Keep(id), Read(id, path)];
    var s1 := Next(s, ttl, gap, steps[0]);
    var s2 := Next(s1, ttl, gap, steps[1]);
    RunTrace(ttl, gap, steps, [s, s1, s2]);
    var last := |s2.served| - 1;
    assert s2.served[last] == Served(path, At(s, id).value, s.now, true);
    assert last >= |s.served|;
  }

  /** Once the backend and the cache hold a value, every continuation in which no
      other value reaches the backend serves that value and no other, if and
      only if no caller is about to store another one. */
  lemma ServesWhatIsHeld(s: Sys, ttl: int, gap: nat, path: string, value: string)
    requires s.history != [] && Settled(s, path, value) && ttl >= 1
    ensures (forall steps :: Consistent(s, ttl, gap, path, value, steps))
       <==> (forall id :: !Pending(s, gap, path, value, id))
  {
    hide Run, Pending, Settled;
    if id: nat :| Pending(s, gap, path, value, id) {
      var steps := PendingIsServed(s, ttl, gap, path, value, id);
      assert !Consistent(s, ttl, gap, path, value, steps);
    } else {
      forall steps
        ensures Consistent(s, ttl, gap, path, value, steps)
      {
        if forall x :: x in steps ==> Quiet(x, path, value) { QuietRun(s, ttl, gap, path, value, steps); }
      }
    }
  }

  function AfterSet(s: Sys, ttl: int, gap: nat, id: nat, path: string, value: string): (n: Sys)
    requires s.history != []
    ensures n.history != []
  {
    Next(Next(s, ttl, gap, Write(id, path, value, true)), ttl, gap, Keep(id))
  }

  lemma AfterSetSettled(s: Sys, ttl: int, gap: nat, id: nat, path: string, value: string, other: nat)
    requires s.history != [] && At(s, id).Idle?
    ensures Settled(AfterSet(s, ttl, gap, id, path, value), path, value)
    ensures Pending(AfterSet(s, ttl, gap, id, path, value), gap, path, value, other)
       <==> Pending(s, gap, path, value, other)
  {
    var n := Next(s, ttl, gap, Write(id, path, value, true));
    assert At(n, id) == Wrote(path, value, s.now);
    assert At(AfterSet(s, ttl, gap, id, path, value), other) == At(s, other);
  }

  /** What a Set leaves is what every later Get reads, until the backend
      changes, if and only if no other caller was about to store another value
      for that path when the Set began. */
  lemma SetIsReadIff(s: Sys, ttl: int, gap: nat, id: nat, path: string, value: string)
    requires s.history != [] && ttl >= 1 && At(s, id).Idle?
    ensures (forall steps :: Consistent(AfterSet(s, ttl, gap, id, path, value), ttl, gap, path, value, steps))
       <==> (forall other :: !Pending(s, gap, path, value, other))
  {
    hide Next, Pending, Settled, AfterSet, Consistent;
    forall other: nat
      ensures Pending(AfterSet(s, ttl, gap, id, path, value), gap, path, value, other)
         <==> Pending(s, gap, path, value, other)
    {
      AfterSetSettled(s, ttl, gap, id, path, value, other);
    }
    AfterSetSettled(s, ttl, gap, id, path, value, 0);
    ServesWhatIsHeld(AfterSet(s, ttl, gap, id, path, value), ttl, gap, path, value);
  }

  /** An instance: a Get that read the old value before a Set and stores it
      after undoes what the Set left, and the writer then reads the old value. */
  lemma OverlappedSetIsLost(path: string, before: string, after: string, ttl: nat) returns (steps: seq<Step>)
    requires ttl >= 1
    ensures var r := Run(Init(map[path := before], 0), ttl, 0, steps);
            && Inner(r) == map[path := after] && At(r, 1) == Idle
            && r.served != [] && r.served[|r.served| - 1] == Served(path, before, 0, true)
  {
    hide Run;
    var s0 := Init(map[path := before], 0);
    var a := [Read(0, path), Fetch(0, true), Write(1, path, after, true), Keep(1), Keep(0), Read(1, path)];
    steps := a;
    var s1 := Next(s0, ttl, 0, a[0]);
    var s2 := Next(s1, ttl, 0, a[1]);
    var s3 := Next(s2, ttl, 0, a[2]);
    var s4 := Next(s3, ttl, 0, a[3]);
    var s5 := Next(s4, ttl, 0, a[4]);
    var s6 := Next(s5, ttl, 0, a[5]);
    assert s2.callers[0] == Fetched(path, before, 0);
    assert s3.callers[1] == Wrote(path, after, 0) && At(s3, 0) == Fetched(path, before, 0);
    assert s5.entries[path] == Entry(before, ttl);
    RunTrace(ttl, 0, a, [s0, s1, s2, s3, s4, s5, s6]);
    assert map[path := before][path := after] == map[path := after];
  }
}
