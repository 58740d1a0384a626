// How the Postgres cluster manager orders the nodes that may serve reads and
// picks one of them, as functions of the nodes' state, and how the reads of a
// whole run are spread over the nodes.
module PgReaders {
  import opened PgRoles
  import opened Balancing

  // ----- the exchange sort, on positions -----

  predicate Below(s: seq<nat>, n: nat) { forall k :: 0 <= k < |s| ==> s[k] < n }

  /** Positions `i` and `j` trade places when the first holds the larger priority. */
  function Exchange(ps: seq<int>, s: seq<nat>, i: nat, j: nat): (r: seq<nat>)
    requires i < j < |s| && Below(s, |ps|)
    ensures |r| == |s| && Below(r, |ps|)
  {
    if ps[s[i]] > ps[s[j]] then s[i := s[j]][j := s[i]] else s
  }

  function Pass(ps: seq<int>, s: seq<nat>, i: nat, j: nat): (r: seq<nat>)
    requires i < j <= |s| && Below(s, |ps|)
    ensures |r| == |s| && Below(r, |ps|)
    decreases |s| - j
  {
    if j == |s| then s else Pass(ps, Exchange(ps, s, i, j), i, j + 1)
  }

  function ExchangeSort(ps: seq<int>, s: seq<nat>, i: nat): (r: seq<nat>)
    requires Below(s, |ps|)
    ensures |r| == |s| && Below(r, |ps|)
    decreases |s| - i
  {
    if i + 1 >= |s| then s else ExchangeSort(ps, Pass(ps, s, i, i + 1), i + 1)
  }

  lemma ExchangeSortStep(ps: seq<int>, s: seq<nat>, i: nat)
    requires Below(s, |ps|)
    ensures i + 1 < |s| ==> ExchangeSort(ps, s, i) == ExchangeSort(ps, Pass(ps, s, i, i + 1), i + 1)
    ensures i + 1 >= |s| ==> ExchangeSort(ps, s, i) == s
  {
  }

  lemma PassStep(ps: seq<int>, s: seq<nat>, i: nat, j: nat)
    requires i < j <= |s| && Below(s, |ps|)
    ensures Pass(ps, s, i, j) == if j == |s| then s else Pass(ps, Exchange(ps, s, i, j), i, j + 1)
  {
  }

  function Identity(n: nat): (s: seq<nat>)
    ensures |s| == n && Below(s, n) && forall k :: 0 <= k < n ==> s[k] == k
  {
    seq(n, k => k)
  }

  /** Where each place of the sorted list comes from. */
  function SortOrder(ps: seq<int>): (s: seq<nat>)
    ensures |s| == |ps| && Below(s, |ps|)
  {
    ExchangeSort(ps, Identity(|ps|), 0)
  }

  ghost predicate Distinct(s: seq<nat>) { forall k, l :: 0 <= k < l < |s| ==> s[k] != s[l] }

  ghost predicate SameMembers(s: seq<nat>, r: seq<nat>) { forall x :: x in s <==> x in r }

  /** The first `i` places hold the least priorities, in order. */
  ghost predicate SortedUpTo(ps: seq<int>, s: seq<nat>, i: nat)
    requires Below(s, |ps|)
  {
    forall k, l :: 0 <= k < i && k < l < |s| ==> ps[s[k]] <= ps[s[l]]
  }

  lemma ExchangeKeeps(ps: seq<int>, s: seq<nat>, i: nat, j: nat)
    requires i < j < |s| && Below(s, |ps|) && Distinct(s)
    ensures Distinct(Exchange(ps, s, i, j)) && SameMembers(s, Exchange(ps, s, i, j))
  {
    var r := Exchange(ps, s, i, j);
    assert forall k :: 0 <= k < |s| ==> r[k] == s[if r == s then k else if k == i then j else if k == j then i else k];
    assert forall k :: 0 <= k < |s| ==> s[k] == r[if r == s then k else if k == i then j else if k == j then i else k];
  }

  lemma ExchangeSorts(ps: seq<int>, s: seq<nat>, i: nat, j: nat)
    requires i < j < |s| && Below(s, |ps|) && SortedUpTo(ps, s, i)
    requires forall l :: i < l < j ==> ps[s[i]] <= ps[s[l]]
    ensures var r := Exchange(ps, s, i, j);
            SortedUpTo(ps, r, i) && forall l :: i < l <= j ==> ps[r[i]] <= ps[r[l]]
  {
  }

  lemma {:induction false} PassSorts(ps: seq<int>, s: seq<nat>, i: nat, j: nat)
    requires i < j <= |s| && Below(s, |ps|) && Distinct(s) && SortedUpTo(ps, s, i)
    requires forall l :: i < l < j ==> ps[s[i]] <= ps[s[l]]
    ensures var r := Pass(ps, s, i, j);
            SortedUpTo(ps, r, i + 1) && Distinct(r) && SameMembers(s, r)
    decreases |s| - j
  {
    hide Exchange, Distinct;
    if j < |s| {
      ExchangeKeeps(ps, s, i, j);
      ExchangeSorts(ps, s, i, j);
      PassSorts(ps, Exchange(ps, s, i, j), i, j + 1);
    }
  }

  lemma {:induction false} ExchangeSortSorts(ps: seq<int>, s: seq<nat>, i: nat)
    requires Below(s, |ps|) && Distinct(s) && SortedUpTo(ps, s, i)
    ensures var r := ExchangeSort(ps, s, i);
            SortedUpTo(ps, r, |s|) && Distinct(r) && SameMembers(s, r)
    decreases |s| - i
  {
    hide Pass, Distinct;
    if i + 1 < |s| {
      PassSorts(ps, s, i, i + 1);
      ExchangeSortSorts(ps, Pass(ps, s, i, i + 1), i + 1);
    }
  }

  /** The exchange sort yields a permutation that puts the priorities in order. */
  lemma SortOrderSorts(ps: seq<int>)
    ensures var s := SortOrder(ps);
            && (forall k, l :: 0 <= k < l < |s| ==> ps[s[k]] <= ps[s[l]])
            && (forall k, l :: 0 <= k < l < |s| ==> s[k] != s[l])
            && (forall x: nat :: x < |ps| ==> x in s)
  {
    hide ExchangeSort;
    ExchangeSortSorts(ps, Identity(|ps|), 0);
    forall x: nat | x < |ps|
      ensures x in SortOrder(ps)
    {
      assert Identity(|ps|)[x] in Identity(|ps|);
    }
  }

  lemma {:induction false} PassLeavesSorted(ps: seq<int>, s: seq<nat>, i: nat, j: nat)
    requires i < j <= |s| && Below(s, |ps|) && SortedUpTo(ps, s, |s|)
    ensures Pass(ps, s, i, j) == s
    decreases |s| - j
  {
    if j < |s| { PassLeavesSorted(ps, s, i, j + 1); }
  }

  lemma {:induction false} SortLeavesSorted(ps: seq<int>, s: seq<nat>, i: nat)
    requires Below(s, |ps|) && SortedUpTo(ps, s, |s|)
    ensures ExchangeSort(ps, s, i) == s
    decreases |s| - i
  {
    if i + 1 < |s| {
      PassLeavesSorted(ps, s, i, i + 1);
      SortLeavesSorted(ps, s, i + 1);
    }
  }

  /** Nodes whose priorities are in order already, equal ones among them, stay as configured. */
  lemma SortedOrderStays(ps: seq<int>)
    requires forall k, l :: 0 <= k < l < |ps| ==> ps[k] <= ps[l]
    ensures forall k :: 0 <= k < |ps| ==> SortOrder(ps)[k] == k
  {
    SortLeavesSorted(ps, Identity(|ps|), 0);
  }

  // ----- the nodes that may serve reads -----

  predicate Readable(v: NodeView) {
    (v.role == Reader || v.role == Writer) && v.health == Healthy && v.pooled
  }

  /** In configuration order. */
  function ReadableNodes(vs: seq<NodeView>): (rs: seq<nat>)
    ensures Below(rs, |vs|) && forall k :: 0 <= k < |rs| ==> Readable(vs[rs[k]])
    ensures forall i: nat :: i < |vs| && Readable(vs[i]) ==> i in rs
    ensures forall k, l :: 0 <= k < l < |rs| ==> rs[k] < rs[l]
  {
    if vs == [] then []
    else
      var last := |vs| - 1;
      ReadableNodes(vs[..last]) + if Readable(vs[last]) then [last] else []
  }

  function Priorities(vs: seq<NodeView>, rs: seq<nat>): (ps: seq<int>)
    requires Below(rs, |vs|)
    ensures |ps| == |rs| && forall k :: 0 <= k < |rs| ==> ps[k] == vs[rs[k]].priority
  {
    seq(|rs|, k requires 0 <= k < |rs| => vs[rs[k]].priority)
  }

  /** `getHealthyReaders`: the nodes that may serve reads, by priority. */
  function ReaderOrder(vs: seq<NodeView>): (order: seq<nat>)
    ensures |order| == |ReadableNodes(vs)| && Below(order, |vs|)
  {
    var rs := ReadableNodes(vs);
    var s := SortOrder(Priorities(vs, rs));
    seq(|rs|, k requires 0 <= k < |rs| => rs[s[k]])
  }

  /** Exactly the eligible nodes, each once, sorted by priority. */
  lemma ReaderOrderIsSorted(vs: seq<NodeView>)
    ensures var order := ReaderOrder(vs);
            && (forall i: nat :: i in order <==> i < |vs| && Readable(vs[i]))
            && (forall k, l :: 0 <= k < l < |order| ==> order[k] != order[l])
            && (forall k, l :: 0 <= k < l < |order| ==> vs[order[k]].priority <= vs[order[l]].priority)
  {
    hide SortOrder, ReadableNodes, Readable;
    var rs := ReadableNodes(vs);
    var s := SortOrder(Priorities(vs, rs));
    SortOrderSorts(Priorities(vs, rs));
    forall i: nat | i < |vs| && Readable(vs[i])
      ensures i in ReaderOrder(vs)
    {
      var m: nat :| m < |rs| && rs[m] == i;
      assert m in s;
      var k: nat :| k < |s| && s[k] == m;
      assert ReaderOrder(vs)[k] == i;
    }
    forall k, l | 0 <= k < l < |rs|
      ensures rs[s[k]] != rs[s[l]]
    {
      if s[k] < s[l] { assert rs[s[k]] < rs[s[l]]; } else { assert rs[s[l]] < rs[s[k]]; }
    }
  }

  // ----- one read -----

  datatype Strategy = RoundRobin | Random | Priority | LeastConnections

  /** `readCount` of each node, and `readIndex`. */
  datatype Tally = Tally(counts: seq<int>, index: nat)

  function CountsOf(counts: seq<int>, order: seq<nat>): (cs: seq<int>)
    requires Below(order, |counts|)
    ensures |cs| == |order| && forall k :: 0 <= k < |order| ==> cs[k] == counts[order[k]]
  {
    seq(|order|, k requires 0 <= k < |order| => counts[order[k]])
  }

  /** The place in `order` that the strategy picks; `drawn` is the random draw. */
  function Slot(strategy: Strategy, t: Tally, order: seq<nat>, drawn: nat): (k: nat)
    requires order != [] && Below(order, |t.counts|)
    ensures k < |order|
  {
    match strategy
    case Random => drawn % |order|
    case Priority => 0
    case LeastConnections => LeastIndex(CountsOf(t.counts, order))
    case RoundRobin => (t.index + 1) % |order|
  }

  function Raised(counts: seq<int>, i: nat): (cs: seq<int>)
    requires i < |counts|
    ensures |cs| == |counts|
  {
    counts[i := counts[i] + 1]
  }

  /** One served read: the counters after it, and the node that serves. */
  function Serve(strategy: Strategy, vs: seq<NodeView>, t: Tally, drawn: nat): (r: (Tally, nat))
    requires ReaderOrder(vs) != [] && |t.counts| == |vs|
    ensures |r.0.counts| == |vs| && r.1 < |vs|
  {
    var order := ReaderOrder(vs);
    var at := order[Slot(strategy, t, order, drawn)];
    (Tally(Raised(t.counts, at), if strategy == RoundRobin then t.index + 1 else t.index), at)
  }

  ghost function Eligible(vs: seq<NodeView>): set<nat> {
    set i: nat | i < |vs| && Readable(vs[i])
  }

  /** Whatever the strategy, a node that may serve reads does. */
  lemma ServesReadable(strategy: Strategy, vs: seq<NodeView>, t: Tally, drawn: nat)
    requires ReaderOrder(vs) != [] && |t.counts| == |vs|
    ensures Readable(vs[Serve(strategy, vs, t, drawn).1])
  {
    hide Readable;
    ReaderOrderIsSorted(vs);
    var order := ReaderOrder(vs);
    assert order[Slot(strategy, t, order, drawn)] in order;
    hide ReaderOrder, Slot;
  }

  /** With the priority strategy no eligible node has a smaller number than the
      one that serves, and a writer serves whenever one is eligible. */
  lemma PriorityPicksWriter(vs: seq<NodeView>, t: Tally, drawn: nat)
    requires ReaderOrder(vs) != [] && |t.counts| == |vs| && AllSound(vs)
    ensures var at := Serve(Priority, vs, t, drawn).1;
            && (forall i: nat :: i < |vs| && Readable(vs[i]) ==> vs[at].priority <= vs[i].priority)
            && ((exists i: nat :: i < |vs| && Readable(vs[i]) && vs[i].role == Writer) ==> vs[at].role == Writer)
  {
    hide Readable, ReaderOrder;
    ServesReadable(Priority, vs, t, drawn);
    ReaderOrderIsSorted(vs);
    var order := ReaderOrder(vs);
    forall i: nat | i < |vs| && Readable(vs[i])
      ensures vs[order[0]].priority <= vs[i].priority
    {
      var k: nat :| k < |order| && order[k] == i;
    }
  }

  /** Under least connections an eligible node of least count serves. */
  lemma LeastServes(vs: seq<NodeView>, t: Tally, drawn: nat)
    requires ReaderOrder(vs) != [] && |t.counts| == |vs|
    ensures var (n, at) := Serve(LeastConnections, vs, t, drawn);
            PicksAt(t.counts, n.counts, Eligible(vs), at)
  {
    hide Readable, ReaderOrder;
    ServesReadable(LeastConnections, vs, t, drawn);
    ReaderOrderIsSorted(vs);
    var order := ReaderOrder(vs);
    forall i: nat | i < |vs| && Readable(vs[i])
      ensures t.counts[Serve(LeastConnections, vs, t, drawn).1] <= t.counts[i]
    {
      var k: nat :| k < |order| && order[k] == i;
      assert CountsOf(t.counts, order)[k] == t.counts[i];
    }
  }

  /** At random any node that may serve reads may be drawn, and no ticket is taken. */
  lemma AnyReaderDrawn(vs: seq<NodeView>, t: Tally, i: nat) returns (drawn: nat)
    requires |t.counts| == |vs| && i < |vs| && Readable(vs[i])
    ensures ReaderOrder(vs) != [] && Serve(Random, vs, t, drawn).1 == i
            && Serve(Random, vs, t, drawn).0.index == t.index
  {
    hide ReaderOrder, Readable;
    var order := ReaderOrder(vs);
    ReaderOrderIsSorted(vs);
    drawn :| 0 <= drawn < |order| && order[drawn] == i;
    Small(drawn, |order|);
  }

  // ----- runs of reads while no node's state changes -----

  function Reads(strategy: Strategy, vs: seq<NodeView>, t: Tally, draws: seq<nat>): (r: Tally)
    requires ReaderOrder(vs) != [] && |t.counts| == |vs|
    ensures |r.counts| == |vs|
  {
    if draws == [] then t
    else Serve(strategy, vs, Reads(strategy, vs, t, draws[..|draws| - 1]), draws[|draws| - 1]).0
  }

  /** A node's count grows by the tickets that fall to its place in the order. */
  lemma {:induction false} ReadsByTicket(vs: seq<NodeView>, t: Tally, draws: seq<nat>, k: nat)
    requires ReaderOrder(vs) != [] && |t.counts| == |vs| && k < |ReaderOrder(vs)|
    ensures var order, r := ReaderOrder(vs), Reads(RoundRobin, vs, t, draws);
            && r.index == t.index + |draws|
            && r.counts[order[k]] == t.counts[order[k]] + TicketsFor(t.index, |draws|, |order|, k)
            && forall i: nat :: i < |vs| && i !in order ==> r.counts[i] == t.counts[i]
  {
    hide ReaderOrder, TicketsFor, Serve, Readable;
    TicketsAt(t.index, |draws|, |ReaderOrder(vs)|, k);
    if draws != [] {
      var before := Reads(RoundRobin, vs, t, draws[..|draws| - 1]);
      ReadsByTicket(vs, t, draws[..|draws| - 1], k);
      TicketServes(vs, before, draws[|draws| - 1], k);
      ReaderOrderIsSorted(vs);
    }
  }

  lemma TicketsAt(a: int, m: nat, n: nat, r: nat)
    requires r < n
    ensures TicketsFor(a, m, n, r) == if m == 0 then 0
               else TicketsFor(a, m - 1, n, r) + if (a + m) % n == r then 1 else 0
  {
  }

  /** A ticket raises the count of the node at its place and no other. */
  lemma TicketServes(vs: seq<NodeView>, t: Tally, drawn: nat, k: nat)
    requires ReaderOrder(vs) != [] && |t.counts| == |vs| && k < |ReaderOrder(vs)|
    ensures var (n, at), order := Serve(RoundRobin, vs, t, drawn), ReaderOrder(vs);
            && n.index == t.index + 1 && at in order
            && n.counts[order[k]] == t.counts[order[k]] + (if (t.index + 1) % |order| == k then 1 else 0)
            && forall i: nat :: i < |vs| && i != at ==> n.counts[i] == t.counts[i]
  {
    hide ReaderOrder, Readable;
    ReaderOrderIsSorted(vs);
  }

  /** While no node changes, m round-robin reads raise the count of every node
      that may serve by floor(m/n) or ceil(m/n), n being their number, and of no
      other. */
  lemma ReadsFair(vs: seq<NodeView>, t: Tally, draws: seq<nat>, i: nat)
    requires ReaderOrder(vs) != [] && |t.counts| == |vs| && i < |vs|
    ensures var n, m := |ReaderOrder(vs)|, |draws|;
            var growth := Reads(RoundRobin, vs, t, draws).counts[i] - t.counts[i];
            if Readable(vs[i]) then m / n <= growth <= Ceil(m, n) else growth == 0
  {
    hide ReaderOrder, Readable, Reads, TicketsFor;
    var order := ReaderOrder(vs);
    ReaderOrderIsSorted(vs);
    if Readable(vs[i]) {
      var k: nat :| k < |order| && order[k] == i;
      ReadsByTicket(vs, t, draws, k);
      RoundRobinFair(t.index, |draws|, |order|, k);
    } else {
      ReadsByTicket(vs, t, draws, 0);
    }
  }

  /** The same when callers interleave between drawing a ticket and raising the
      count of the node it stands for, once every ticket drawn has been used. */
  lemma InterleavedReadsFair(vs: seq<NodeView>, t: Tally, steps: seq<Balancing.Step>, i: nat)
    requires ReaderOrder(vs) != [] && |t.counts| == |vs| && i < |vs|
    requires RunAt(ReaderOrder(vs), Stand(t.index, [], t.counts), steps).held == []
    ensures var r := RunAt(ReaderOrder(vs), Stand(t.index, [], t.counts), steps);
            var n, m := |ReaderOrder(vs)|, r.index - t.index;
            m >= 0 && if Readable(vs[i]) then m / n <= r.counts[i] - t.counts[i] <= Ceil(m, n)
                      else r.counts[i] == t.counts[i]
  {
    hide ReaderOrder, Readable, RunAt;
    ReaderOrderIsSorted(vs);
    InterleavedNodesFair(ReaderOrder(vs), t.counts, t.index, steps, i);
  }

  ghost function CountsOver(vs: seq<NodeView>, t: Tally, draws: seq<nat>): (run: seq<seq<int>>)
    requires ReaderOrder(vs) != [] && |t.counts| == |vs|
    ensures |run| == |draws| + 1 && run[0] == t.counts
    ensures run[|draws|] == Reads(LeastConnections, vs, t, draws).counts
  {
    if draws == [] then [t.counts]
    else CountsOver(vs, t, draws[..|draws| - 1]) + [Reads(LeastConnections, vs, t, draws).counts]
  }

  lemma {:induction false} CountsOverRun(vs: seq<NodeView>, t: Tally, draws: seq<nat>)
    requires ReaderOrder(vs) != [] && |t.counts| == |vs|
    ensures IsRun(CountsOver(vs, t, draws), Eligible(vs))
  {
    hide PicksAt, Serve;
    if draws != [] {
      var m := |draws| - 1;
      CountsOverRun(vs, t, draws[..m]);
      LeastServes(vs, Reads(LeastConnections, vs, t, draws[..m]), draws[m]);
    }
  }

  /** While no node changes, reads by least connections never widen the gap
      between two nodes that may serve beyond max(1, the widest at the start). */
  lemma LeastReadsFair(vs: seq<NodeView>, t: Tally, draws: seq<nat>, g: int, i: nat, j: nat)
    requires ReaderOrder(vs) != [] && |t.counts| == |vs|
    requires GapAtMost(t.counts, Eligible(vs), g)
    requires i < |vs| && j < |vs| && Readable(vs[i]) && Readable(vs[j])
    ensures var r := Reads(LeastConnections, vs, t, draws);
            r.counts[i] - r.counts[j] <= if g > 1 then g else 1
  {
    hide ReaderOrder, Readable, Reads, IsRun;
    CountsOverRun(vs, t, draws);
    GapNeverGrows(CountsOver(vs, t, draws), Eligible(vs), g);
    assert i in Eligible(vs) && j in Eligible(vs);
    hide CountsOver;
  }
}
