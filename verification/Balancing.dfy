// Fairness of the two counters the cluster adapters balance by.
module Balancing {

  // ----- round robin: a shared ticket counter -----

  lemma DivUnique(x: int, n: nat, q: int, s: int)
    requires n > 0 && x == n * q + s && 0 <= s < n
    ensures x / n == q && x % n == s
  {
    var q', s' := x / n, x % n;
    assert n * (q - q') == s' - s;
    assert n * (q' - q) == -(n * (q - q'));
    if q > q' { Scaled(n, q - q'); }
    if q < q' { Scaled(n, q' - q); }
  }

  lemma Small(k: nat, n: nat)
    requires k < n
    ensures k % n == k
  {
  }

  lemma Scaled(n: nat, d: int)
    requires d >= 1
    ensures n * d >= n
  {
    assert n * d == n * (d - 1) + n;
    assert n * (d - 1) >= 0;
  }

  lemma DivStep(x: int, n: nat)
    requires n > 0
    ensures (x + 1) / n == x / n + if (x + 1) % n == 0 then 1 else 0
  {
    var q, s := x / n, x % n;
    assert x == n * q + s;
    if s + 1 < n {
      DivUnique(x + 1, n, q, s + 1);
    } else {
      assert n * (q + 1) == n * q + n;
      DivUnique(x + 1, n, q + 1, 0);
    }
  }

  /** How many of the tickets a+1 .. a+m fall to node r of n. */
  function TicketsFor(a: int, m: nat, n: nat, r: nat): nat
    requires r < n
  {
    if m == 0 then 0 else TicketsFor(a, m - 1, n, r) + if (a + m) % n == r then 1 else 0
  }

  lemma SameResidue(t: int, n: nat, r: nat)
    requires r < n
    ensures t % n == r <==> (t - r) % n == 0
  {
    if t % n == r {
      assert t == n * (t / n) + r;
      DivUnique(t - r, n, t / n, 0);
    }
    if (t - r) % n == 0 {
      assert t == n * ((t - r) / n) + r;
      DivUnique(t, n, (t - r) / n, r);
    }
  }

  lemma {:induction false} TicketsClosed(a: int, m: nat, n: nat, r: nat)
    requires r < n
    ensures TicketsFor(a, m, n, r) == (a + m - r) / n - (a - r) / n
  {
    if m > 0 {
      TicketsClosed(a, m - 1, n, r);
      DivStep(a + m - 1 - r, n);
      SameResidue(a + m, n, r);
    }
  }

  function Ceil(m: nat, n: nat): nat
    requires n > 0
  {
    if m % n == 0 then m / n else m / n + 1
  }

  lemma DivSpread(x: int, m: nat, n: nat)
    requires n > 0
    ensures m / n <= (x + m) / n - x / n <= Ceil(m, n)
  {
    var q, s, p, t := x / n, x % n, m / n, m % n;
    assert x == n * q + s && m == n * p + t;
    assert n * (q + p) == n * q + n * p;
    if s + t < n {
      DivUnique(x + m, n, q + p, s + t);
    } else {
      assert n * (q + p + 1) == n * (q + p) + n;
      DivUnique(x + m, n, q + p + 1, s + t - n);
    }
  }

  /** Any m consecutive tickets give each of n nodes floor(m/n) or ceil(m/n) turns. */
  lemma RoundRobinFair(a: int, m: nat, n: nat, r: nat)
    requires r < n
    ensures m / n <= TicketsFor(a, m, n, r) <= Ceil(m, n)
  {
    TicketsClosed(a, m, n, r);
    DivSpread(a - r, m, n);
  }

  /** Consecutive tickets reach distinct nodes until all n had a turn. */
  lemma NodesDistinct(t: int, u: int, n: nat)
    requires n > 0 && t < u < t + n
    ensures t % n != u % n
  {
    var q, s := t / n, t % n;
    assert t == n * q + s;
    if s + (u - t) < n {
      DivUnique(u, n, q, s + (u - t));
    } else {
      assert n * (q + 1) == n * q + n;
      DivUnique(u, n, q + 1, s + (u - t) - n);
    }
  }

  // ----- interleaved callers: a ticket is drawn in one step, used in a later one -----

  /** `held` are the tickets drawn and not used yet, `turns` the uses by node. */
  datatype Turnstile = Turnstile(index: int, held: seq<int>, turns: seq<nat>)

  datatype Step = Draw | Use(i: nat)

  function Next(s: Turnstile, step: Step): Turnstile
    requires |s.turns| > 0
  {
    match step
    case Draw => Turnstile(s.index + 1, s.held + [s.index + 1], s.turns)
    case Use(i) =>
      if i >= |s.held| then s
      else
        var node := s.held[i] % |s.turns|;
        Turnstile(s.index, s.held[..i] + s.held[i + 1..], s.turns[node := s.turns[node] + 1])
  }

  function Run(s: Turnstile, steps: seq<Step>): Turnstile
    requires |s.turns| > 0
    decreases |steps|
  {
    if steps == [] then s else Run(Next(s, steps[0]), steps[1..])
  }

  function HeldFor(held: seq<int>, n: nat, r: nat): nat
    requires n > 0
  {
    if held == [] then 0
    else HeldFor(held[..|held| - 1], n, r) + if held[|held| - 1] % n == r then 1 else 0
  }

  lemma {:induction false} HeldRemoved(held: seq<int>, i: nat, n: nat, r: nat)
    requires n > 0 && i < |held|
    ensures HeldFor(held, n, r) == HeldFor(held[..i] + held[i + 1..], n, r) + if held[i] % n == r then 1 else 0
  {
    var last := |held| - 1;
    var less := held[..i] + held[i + 1..];
    if i == last {
      assert less == held[..last];
    } else {
      HeldRemoved(held[..last], i, n, r);
      assert less[..|less| - 1] == held[..last][..i] + held[..last][i + 1..];
      assert less[|less| - 1] == held[last];
    }
  }

  /** Every ticket drawn since `start` is either held or had its turn. */
  ghost predicate Accounted(s: Turnstile, start: int) {
    && start <= s.index
    && forall r :: 0 <= r < |s.turns| ==>
         s.turns[r] + HeldFor(s.held, |s.turns|, r) == TicketsFor(start, s.index - start, |s.turns|, r)
  }

  lemma HeldDrawn(held: seq<int>, ticket: int, n: nat, r: nat)
    requires n > 0
    ensures HeldFor(held + [ticket], n, r) == HeldFor(held, n, r) + if ticket % n == r then 1 else 0
  {
    assert (held + [ticket])[..|held|] == held;
  }

  lemma DrawAccounted(s: Turnstile, start: int, r: nat)
    requires r < |s.turns| && Accounted(s, start)
    ensures var t, n := Next(s, Draw), |s.turns|;
            t.turns[r] + HeldFor(t.held, n, r) == TicketsFor(start, t.index - start, n, r)
  {
    HeldDrawn(s.held, s.index + 1, |s.turns|, r);
    hide HeldFor;
  }

  lemma UseAccounted(s: Turnstile, start: int, i: nat, r: nat)
    requires r < |s.turns| && Accounted(s, start) && i < |s.held|
    ensures var t, n := Next(s, Use(i)), |s.turns|;
            t.turns[r] + HeldFor(t.held, n, r) == TicketsFor(start, t.index - start, n, r)
  {
    hide HeldFor, TicketsFor;
    HeldRemoved(s.held, i, |s.turns|, r);
  }

  lemma StepAccounted(s: Turnstile, start: int, step: Step)
    requires |s.turns| > 0 && Accounted(s, start)
    ensures Accounted(Next(s, step), start) && |Next(s, step).turns| == |s.turns|
  {
    hide HeldFor, TicketsFor;
    var n, t := |s.turns|, Next(s, step);
    forall r | 0 <= r < n
      ensures t.turns[r] + HeldFor(t.held, n, r) == TicketsFor(start, t.index - start, n, r)
    {
      match step
      case Draw => DrawAccounted(s, start, r);
      case Use(i) => if i < |s.held| { UseAccounted(s, start, i, r); }
    }
  }

  lemma {:induction false} RunAccounted(s: Turnstile, start: int, steps: seq<Step>)
    requires |s.turns| > 0 && Accounted(s, start)
    ensures Accounted(Run(s, steps), start) && |Run(s, steps).turns| == |s.turns|
    decreases |steps|
  {
    if steps != [] {
      StepAccounted(s, start, steps[0]);
      hide Accounted, Next;
      RunAccounted(Next(s, steps[0]), start, steps[1..]);
    }
  }

  /** However the callers interleave between drawing a ticket and using it, once
      the m tickets drawn have been used every node had floor(m/n) or ceil(m/n) turns. */
  lemma InterleavedFair(start: int, n: nat, steps: seq<Step>, r: nat)
    requires r < n
    requires Run(Turnstile(start, [], seq(n, i => 0)), steps).held == []
    ensures var s := Run(Turnstile(start, [], seq(n, i => 0)), steps);
            var m := s.index - start;
            m >= 0 && |s.turns| == n && m / n <= s.turns[r] <= Ceil(m, n)
  {
    var s0 := Turnstile(start, [], seq(n, i => 0));
    RunAccounted(s0, start, steps);
    RoundRobinFair(start, Run(s0, steps).index - start, n, r);
  }

  // ----- the nodes behind the places -----

  ghost predicate EachOnce(order: seq<nat>) {
    forall k, l :: 0 <= k < l < |order| ==> order[k] != order[l]
  }

  /** How many of the tickets a+1 .. a+m fall to node `i`, the nodes standing in `order`. */
  function TurnsOf(order: seq<nat>, a: int, m: nat, i: nat): nat
    requires order != []
  {
    if m == 0 then 0 else TurnsOf(order, a, m - 1, i) + if order[(a + m) % |order|] == i then 1 else 0
  }

  lemma NoTurnYet(order: seq<nat>, a: int, i: nat)
    requires order != []
    ensures TurnsOf(order, a, 0, i) == 0
  {
  }

  /** The next ticket, a pick more. */
  lemma OneMorePick(order: seq<nat>, a: int, picks: seq<nat>, i: nat)
    requires order != [] && multiset(picks)[i] == TurnsOf(order, a, |picks|, i)
    ensures var more := picks + [order[(a + |picks| + 1) % |order|]];
            multiset(more)[i] == TurnsOf(order, a, |more|, i)
  {
    var x := order[(a + |picks| + 1) % |order|];
    assert multiset(picks + [x]) == multiset(picks) + multiset{x};
  }

  lemma {:induction false} TurnsByPlace(order: seq<nat>, a: int, m: nat, k: nat)
    requires EachOnce(order) && k < |order|
    ensures TurnsOf(order, a, m, order[k]) == TicketsFor(a, m, |order|, k)
  {
    if m > 0 { TurnsByPlace(order, a, m - 1, k); }
  }

  lemma {:induction false} NoPlaceNoTurn(order: seq<nat>, a: int, m: nat, i: nat)
    requires order != [] && i !in order
    ensures TurnsOf(order, a, m, i) == 0
  {
    if m > 0 { NoPlaceNoTurn(order, a, m - 1, i); }
  }

  /** Any m consecutive tickets give each node of the order floor(m/n) or
      ceil(m/n) turns, and no other node any. */
  lemma NodesFair(order: seq<nat>, a: int, m: nat, i: nat)
    requires order != [] && EachOnce(order)
    ensures if i in order then m / |order| <= TurnsOf(order, a, m, i) <= Ceil(m, |order|)
            else TurnsOf(order, a, m, i) == 0
  {
    hide TurnsOf;
    if i in order {
      var k: nat :| k < |order| && order[k] == i;
      TurnsByPlace(order, a, m, k);
      RoundRobinFair(a, m, |order|, k);
    } else {
      NoPlaceNoTurn(order, a, m, i);
    }
  }

  /** The nodes' own counters, raised by callers that interleave. */
  datatype Stand = Stand(index: int, held: seq<int>, counts: seq<int>)

  ghost predicate Places(order: seq<nat>, n: nat) {
    order != [] && EachOnce(order) && forall k :: 0 <= k < |order| ==> order[k] < n
  }

  function NextAt(order: seq<nat>, s: Stand, step: Step): (t: Stand)
    requires order != [] && forall k :: 0 <= k < |order| ==> order[k] < |s.counts|
    ensures |t.counts| == |s.counts|
  {
    match step
    case Draw => Stand(s.index + 1, s.held + [s.index + 1], s.counts)
    case Use(i) =>
      if i >= |s.held| then s
      else
        var node := order[s.held[i] % |order|];
        Stand(s.index, s.held[..i] + s.held[i + 1..], s.counts[node := s.counts[node] + 1])
  }

  function RunAt(order: seq<nat>, s: Stand, steps: seq<Step>): (t: Stand)
    requires order != [] && forall k :: 0 <= k < |order| ==> order[k] < |s.counts|
    ensures |t.counts| == |s.counts|
    decreases |steps|
  {
    if steps == [] then s else RunAt(order, NextAt(order, s, steps[0]), steps[1..])
  }

  /** The counters are those at the start plus the turns of the places. */
  ghost predicate Mirrors(order: seq<nat>, base: seq<int>, s: Stand, t: Turnstile)
    requires Places(order, |base|)
  {
    && |s.counts| == |base| && |t.turns| == |order| && s.index == t.index && s.held == t.held
    && (forall k :: 0 <= k < |order| ==> s.counts[order[k]] == base[order[k]] + t.turns[k])
    && (forall i :: 0 <= i < |base| && i !in order ==> s.counts[i] == base[i])
  }

  lemma StepMirrors(order: seq<nat>, base: seq<int>, s: Stand, t: Turnstile, step: Step)
    requires Places(order, |base|) && Mirrors(order, base, s, t)
    ensures Mirrors(order, base, NextAt(order, s, step), Next(t, step))
  {
    if step.Use? && step.i < |s.held| {
      var k := s.held[step.i] % |order|;
      assert order[k] in order;
      assert forall l :: 0 <= l < |order| && l != k ==> order[l] != order[k];
    }
  }

  lemma {:induction false} RunMirrors(order: seq<nat>, base: seq<int>, s: Stand, t: Turnstile, steps: seq<Step>)
    requires Places(order, |base|) && Mirrors(order, base, s, t)
    ensures Mirrors(order, base, RunAt(order, s, steps), Run(t, steps))
    decreases |steps|
  {
    hide Mirrors, Next, NextAt;
    MirrorsShape(order, base, s, t);
    if steps != [] {
      StepMirrors(order, base, s, t, steps[0]);
      MirrorsShape(order, base, NextAt(order, s, steps[0]), Next(t, steps[0]));
      RunMirrors(order, base, NextAt(order, s, steps[0]), Next(t, steps[0]), steps[1..]);
    }
  }

  lemma MirrorsShape(order: seq<nat>, base: seq<int>, s: Stand, t: Turnstile)
    requires Places(order, |base|) && Mirrors(order, base, s, t)
    ensures |s.counts| == |base| && |t.turns| == |order|
  {
  }

  /** However callers interleave between drawing a ticket and raising the counter
      of its node, once all m tickets are used the counter of each node of the
      order has grown by floor(m/n) or ceil(m/n), and no other counter at all. */
  lemma InterleavedNodesFair(order: seq<nat>, base: seq<int>, start: int, steps: seq<Step>, i: nat)
    requires Places(order, |base|) && i < |base|
    requires RunAt(order, Stand(start, [], base), steps).held == []
    ensures var s := RunAt(order, Stand(start, [], base), steps);
            var m, n := s.index - start, |order|;
            m >= 0 && if i in order then m / n <= s.counts[i] - base[i] <= Ceil(m, n) else s.counts[i] == base[i]
  {
    hide Run, RunAt;
    var n := |order|;
    var t0 := Turnstile(start, [], seq(n, i => 0));
    RunMirrors(order, base, Stand(start, [], base), t0, steps);
    InterleavedFair(start, n, steps, 0);
    if i in order {
      var k: nat :| k < n && order[k] == i;
      InterleavedFair(start, n, steps, k);
    }
  }

  // ----- least connections -----

  /** The first index holding the least count. */
  ghost predicate FirstLeast(counts: seq<int>, i: nat) {
    && i < |counts|
    && (forall j :: 0 <= j < |counts| ==> counts[i] <= counts[j])
    && (forall j :: 0 <= j < i ==> counts[i] < counts[j])
  }

  function LeastIndex(counts: seq<int>): (i: nat)
    requires counts != []
    ensures FirstLeast(counts, i)
  {
    var last := |counts| - 1;
    if last == 0 then 0
    else
      var i := LeastIndex(counts[..last]);
      if counts[last] < counts[i] then last else i
  }

  lemma LeastIndexUnique(counts: seq<int>, i: nat)
    requires counts != [] && FirstLeast(counts, i)
    ensures i == LeastIndex(counts)
  {
    hide LeastIndex;
    var k := LeastIndex(counts);
    assert FirstLeast(counts, k);
    assert counts[i] <= counts[k] <= counts[i];
  }

  /** One atomic selection: a least loaded of the eligible nodes gets one more. */
  ghost predicate PicksAt(before: seq<int>, after: seq<int>, eligible: set<nat>, i: nat) {
    && i in eligible && (forall j :: j in eligible ==> j < |before|)
    && (forall j :: j in eligible ==> before[i] <= before[j])
    && after == before[i := before[i] + 1]
  }

  ghost predicate Picks(before: seq<int>, after: seq<int>, eligible: set<nat>) {
    exists i :: PicksAt(before, after, eligible, i)
  }

  /** The counts after each of a number of selections. */
  ghost predicate IsRun(run: seq<seq<int>>, eligible: set<nat>) {
    && run != []
    && (forall k :: 0 <= k < |run| - 1 ==> Picks(run[k], run[k + 1], eligible))
  }

  ghost predicate GapAtMost(counts: seq<int>, eligible: set<nat>, g: int) {
    forall i, j :: i in eligible && j in eligible && i < |counts| && j < |counts| ==> counts[i] - counts[j] <= g
  }

  /** The gap between the busiest and the idlest eligible node never grows past
      max(1, the gap at the start). */
  lemma {:induction false} GapNeverGrows(run: seq<seq<int>>, eligible: set<nat>, g: int)
    requires IsRun(run, eligible) && GapAtMost(run[0], eligible, g)
    ensures GapAtMost(run[|run| - 1], eligible, if g > 1 then g else 1)
    decreases |run|
  {
    var m := |run| - 1;
    if m > 0 {
      GapNeverGrows(run[..m], eligible, g);
      assert Picks(run[m - 1], run[m - 1 + 1], eligible);
      var i: nat :| PicksAt(run[m - 1], run[m], eligible, i);
    }
  }

  function Sum(counts: seq<int>): int {
    if counts == [] then 0 else Sum(counts[..|counts| - 1]) + counts[|counts| - 1]
  }

  lemma {:induction false} SumUpdate(counts: seq<int>, i: nat, v: int)
    requires i < |counts|
    ensures Sum(counts[i := v]) == Sum(counts) - counts[i] + v
  {
    var last := |counts| - 1;
    if i == last {
      assert counts[i := v][..last] == counts[..last];
    } else {
      assert counts[i := v][..last] == counts[..last][i := v];
      SumUpdate(counts[..last], i, v);
    }
  }

  lemma {:induction false} SumOverRun(run: seq<seq<int>>, eligible: set<nat>)
    requires IsRun(run, eligible)
    ensures |run[|run| - 1]| == |run[0]| && Sum(run[|run| - 1]) == Sum(run[0]) + |run| - 1
    decreases |run|
  {
    var m := |run| - 1;
    if m > 0 {
      SumOverRun(run[..m], eligible);
      assert Picks(run[m - 1], run[m - 1 + 1], eligible);
      var i: nat :| PicksAt(run[m - 1], run[m], eligible, i);
      SumUpdate(run[m - 1], i, run[m - 1][i] + 1);
    }
  }

  lemma {:induction false} SumBounds(counts: seq<int>, lo: int, hi: int)
    requires forall j :: 0 <= j < |counts| ==> lo <= counts[j] <= hi
    ensures |counts| * lo <= Sum(counts) <= |counts| * hi
  {
    if counts != [] {
      SumBounds(counts[..|counts| - 1], lo, hi);
      assert |counts| * lo == (|counts| - 1) * lo + lo && |counts| * hi == (|counts| - 1) * hi + hi;
    }
  }

  lemma {:induction false} SumZero(n: nat)
    ensures Sum(seq(n, i => 0)) == 0
  {
    if n > 0 {
      SumZero(n - 1);
      assert seq(n, i => 0)[..n - 1] == seq(n - 1, i => 0);
    }
  }

  /** Counts a gap of one apart stay within one of their mean. */
  lemma MeanBounds(c: seq<int>, r: nat)
    requires r < |c| && forall i, j :: 0 <= i < |c| && 0 <= j < |c| ==> c[i] - c[j] <= 1
    ensures |c| * (c[r] - 1) < Sum(c) < |c| * (c[r] + 1)
  {
    var v := c[r];
    SumUpdate(c, r, v + 1);
    SumUpdate(c, r, v - 1);
    SumBounds(c[r := v + 1], v - 1, v + 1);
    SumBounds(c[r := v - 1], v - 1, v + 1);
  }

  lemma Monotone(n: nat, a: int, b: int)
    requires a <= b
    ensures n * a <= n * b
  {
    assert n * b == n * a + n * (b - a);
    assert n * (b - a) >= 0;
  }

  lemma WithinOneOfMean(n: nat, m: nat, v: int)
    requires n > 0 && n * (v - 1) < m < n * (v + 1)
    ensures m / n <= v <= Ceil(m, n)
  {
    var q, t := m / n, m % n;
    assert m == n * q + t && n * (q + 1) == n * q + n;
    if v + 1 <= q { Monotone(n, v + 1, q); }
    if q + 1 <= v - 1 { Monotone(n, q + 1, v - 1); }
    if q <= v - 1 { Monotone(n, q, v - 1); }
  }

  function Indices(n: nat): (all: set<nat>)
    ensures forall i: nat :: i in all <==> i < n
  {
    if n == 0 then {} else Indices(n - 1) + {n - 1}
  }

  /** From zero, m selections among n nodes give each floor(m/n) or ceil(m/n):
      least connections is then as fair as round robin. */
  lemma LeastConnectionsFair(run: seq<seq<int>>, n: nat, r: nat)
    requires r < n && run != [] && run[0] == seq(n, i => 0)
    requires IsRun(run, Indices(n))
    ensures |run[|run| - 1]| == n
    ensures (|run| - 1) / n <= run[|run| - 1][r] <= Ceil(|run| - 1, n)
  {
    var all := Indices(n);
    GapNeverGrows(run, all, 0);
    SumOverRun(run, all);
    SumZero(n);
    var c := run[|run| - 1];
    assert forall i, j :: 0 <= i < n && 0 <= j < n ==> i in all && j in all && c[i] - c[j] <= 1;
    MeanBounds(c, r);
    WithinOneOfMean(n, |run| - 1, c[r]);
  }
}
