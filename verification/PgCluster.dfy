// The Postgres cluster manager: routing, balancing and the circuit breaker.
module PgCluster {
  import opened Wrappers
  import opened PgRoles
  import opened PgReaders
  import Balancing
  import Backoff

  /** A `*sql.DB`. */
  class Pool {
    constructor () {}
  }

  class DatabaseNode {
    const name: string
    /** The address `extractIPFromURL` finds in the node's URL, or "". */
    const host: string
    var role: Role
    var health: Health
    var priority: int
    var pool: Pool?
    var readCount: int
    var writeCount: int

    constructor (name: string, host: string, role: Role, priority: int)
      ensures this.name == name && this.host == host && pool == null && readCount == 0 && writeCount == 0
      ensures View() == NodeView(role, Healthy, priority, false)
    {
      this.name, this.host, this.role, this.priority := name, host, role, priority;
      health, pool, readCount, writeCount := Healthy, null, 0, 0;
    }

    function View(): NodeView
      reads this`role, this`health, this`priority, this`pool
    {
      NodeView(role, health, priority, pool != null)
    }

    predicate MayRead()
      reads this`role, this`health, this`priority, this`pool
    {
      Readable(View())
    }

    predicate Writable()
      reads this`role, this`health, this`pool
    {
      role == Writer && health == Healthy && pool != null
    }

    /** The retry loop around opening a pool. */
    static method OpenPool(retry: Retry, tries: nat -> OpenTry) returns (r: Opening)
      ensures r == OpenFrom(retry, tries, 0)
    {
      var attempt: nat := 0;
      while attempt < retry.attempts
        invariant OpenFrom(retry, tries, 0) == OpenFrom(retry, tries, attempt)
      {
        var t := tries(attempt);
        if t.ok { return Opened; }
        if attempt < retry.attempts - 1 {
          var wait := Backoff.CalculateBackoff(attempt, retry.base, retry.max, t.jitter);
          if wait.None? { return Panicked; }
        }
        attempt := attempt + 1;
      }
      return GaveUp;
    }

    method ConnectTo(r: ConnectResult)
      modifies this`health, this`pool
      ensures View() == AfterConnect(old(View()), r)
      ensures r.Connected? ==> fresh(pool)
      ensures !r.Connected? ==> pool == old(pool)
    {
      if !r.Connected? {
        health := Failed;
        return;
      }
      pool := new Pool();
      health := Healthy;
    }

    method CheckHealth(c: Check)
      modifies this`health, this`pool
      ensures View() == AfterCheck(old(View()), c)
    {
      if c.TooSoon? { return; }
      if pool == null {
        ConnectTo(c.connect);
        return;
      }
      match c.ping {
        case RetryableError =>
          if health == Healthy { health := Degraded; }
        case PermanentError =>
          health := Failed;
          pool := null;
        case Answered(slow) =>
          if health != Healthy { health := Healthy; }
          if slow && health == Healthy { health := Degraded; }
      }
    }

    method Detected(isPrimary: bool)
      modifies this`role, this`priority
      ensures View() == if isPrimary then AsWriter(old(View())) else AsReader(old(View()))
    {
      if isPrimary {
        if role != Writer {
          role := Writer;
          priority := 0;
        }
      } else if role != Reader {
        role := Reader;
        if priority == 0 { priority := 1; }
      }
    }
  }

  // ----- sorting nodes by priority -----

  function PrioritiesOf(ns: seq<DatabaseNode>): (ps: seq<int>)
    reads ns`priority
    ensures |ps| == |ns| && forall k :: 0 <= k < |ns| ==> ps[k] == ns[k].priority
  {
    if ns == [] then [] else PrioritiesOf(ns[..|ns| - 1]) + [ns[|ns| - 1].priority]
  }

  /** `ns` holds the nodes of `was` at the places `s`. */
  ghost predicate Arranged(ns: seq<DatabaseNode>, was: seq<DatabaseNode>, s: seq<nat>) {
    |ns| == |was| == |s| && Below(s, |was|) && forall k :: 0 <= k < |s| ==> ns[k] == was[s[k]]
  }

  method ExchangeAt(a: array<DatabaseNode>, i: nat, j: nat,
                    ghost was: seq<DatabaseNode>, ghost ps: seq<int>, ghost s: seq<nat>)
    requires i < j < a.Length && Arranged(a[..], was, s) && ps == PrioritiesOf(was)
    modifies a
    ensures Below(s, |ps|) && |s| == a.Length && Arranged(a[..], was, Exchange(ps, s, i, j))
  {
    if a[i].priority > a[j].priority {
      a[i], a[j] := a[j], a[i];
    }
  }

  /** The exchange sort of `getHealthyReaders`, in place: it arranges the nodes
      in the one order that their priorities determine. */
  method SortByPriority(a: array<DatabaseNode>)
    modifies a
    ensures Arranged(a[..], old(a[..]), SortOrder(PrioritiesOf(old(a[..]))))
  {
    hide ExchangeSort, Pass, Exchange, Arranged, PrioritiesOf, Below;
    ghost var was := a[..];
    ghost var ps := PrioritiesOf(was);
    ghost var s := Identity(a.Length);
    IdentityArranges(was);
    var i := 0;
    while i < a.Length - 1
      invariant 0 <= i && |s| == a.Length && Below(s, |ps|) && Arranged(a[..], was, s)
      invariant ExchangeSort(ps, s, i) == SortOrder(ps)
    {
      ExchangeSortStep(ps, s, i);
      PassStep(ps, s, i, i + 1);
      var j := i + 1;
      while j < a.Length
        invariant i + 1 <= j <= a.Length && |s| == a.Length && Below(s, |ps|) && Arranged(a[..], was, s)
        invariant ExchangeSort(ps, Pass(ps, s, i, j), i + 1) == SortOrder(ps)
      {
        ExchangeAt(a, i, j, was, ps, s);
        PassStep(ps, s, i, j);
        s := Exchange(ps, s, i, j);
        j := j + 1;
      }
      PassStep(ps, s, i, j);
      i := i + 1;
    }
    ExchangeSortStep(ps, s, i);
  }

  lemma IdentityArranges(was: seq<DatabaseNode>)
    ensures Arranged(was, was, Identity(|was|))
  {
  }

  datatype Circuit = Circuit(open: bool, since: int)

  class ClusterManager {
    const strategy: Strategy
    const timeout: int
    var nodes: seq<DatabaseNode>
    var readIndex: nat
    var circuitOpen: bool
    var circuitOpenTime: int

    constructor (strategy: Strategy, timeout: int)
      ensures this.strategy == strategy && this.timeout == timeout
      ensures nodes == [] && readIndex == 0 && !circuitOpen
    {
      this.strategy, this.timeout := strategy, timeout;
      nodes, readIndex, circuitOpen, circuitOpenTime := [], 0, false, 0;
    }

    predicate Valid()
      reads this`nodes, nodes`role, nodes`health, nodes`priority, nodes`pool
    {
      && (forall i, j :: 0 <= i < j < |nodes| ==> nodes[i] != nodes[j])
      && (forall i :: 0 <= i < |nodes| ==> Sound(nodes[i].View()))
    }

    function Views(): (vs: seq<NodeView>)
      reads this`nodes, nodes`role, nodes`health, nodes`priority, nodes`pool
      ensures |vs| == |nodes| && forall i :: 0 <= i < |nodes| ==> vs[i] == nodes[i].View()
    {
      ViewsOf(nodes)
    }

    function Hosts(): (hs: seq<string>)
      reads this`nodes
      ensures |hs| == |nodes| && forall i :: 0 <= i < |nodes| ==> hs[i] == nodes[i].host
    {
      HostsOf(nodes)
    }

    /** Adds the writer and the readers, connecting each; fails when none is healthy. */
    method InitializeNodes(names: seq<string>, hosts: seq<string>, connects: seq<ConnectResult>) returns (ok: bool)
      requires nodes == [] && |names| == |hosts| == |connects|
      modifies this`nodes
      ensures |nodes| == |names| && fresh(nodes) && Valid()
      ensures Views() == Initial(connects)
      ensures forall i :: 0 <= i < |nodes| ==>
                nodes[i].name == names[i] && nodes[i].host == hosts[i] && nodes[i].readCount == 0
      ensures ok <==> exists i :: 0 <= i < |nodes| && nodes[i].health == Healthy
    {
      hide Initial, AfterConnect, Sound, ViewsOf;
      ghost var vs := Initial(connects);
      for i := 0 to |names|
        invariant |nodes| == i && fresh(nodes)
        invariant forall k, l :: 0 <= k < l < i ==> nodes[k] != nodes[l]
        invariant forall k :: 0 <= k < i ==>
          nodes[k].View() == vs[k] && nodes[k].name == names[k] && nodes[k].host == hosts[k] && nodes[k].readCount == 0
      {
        var node := new DatabaseNode(names[i], hosts[i], if i == 0 then Writer else Reader, i);
        node.ConnectTo(connects[i]);
        InitialAt(connects, i);
        nodes := nodes + [node];
      }
      assert Views() == vs;
      InitialSound(connects);
      ok := HasHealthyNodes();
    }

    method HasHealthyNodes() returns (ok: bool)
      ensures ok <==> exists i :: 0 <= i < |nodes| && nodes[i].health == Healthy
    {
      for i := 0 to |nodes|
        invariant forall k :: 0 <= k < i ==> nodes[k].health != Healthy
      {
        if nodes[i].health == Healthy { return true; }
      }
      return false;
    }

    // ----- detection and promotion -----

    /** One node answered the detection query. */
    method QueryAnswered(i: nat, isPrimary: bool)
      requires Valid() && i < |nodes|
      modifies nodes`role, nodes`priority
      ensures Valid()
      ensures Views() == Next(old(Views()), Hosts(), QueryResult(i, isPrimary))
    {
      hide ViewsOf, HostsOf, Sound;
      ghost var before := Views();
      nodes[i].Detected(isPrimary);
      NodeUpdated(before, i);
      StepKeepsSound(before, Hosts(), QueryResult(i, isPrimary));
    }

    /** A node accepted a read-write transaction. */
    method ProbeSucceeded(i: nat)
      requires Valid() && i < |nodes|
      modifies nodes`role, nodes`priority
      ensures Valid()
      ensures Views() == Next(old(Views()), Hosts(), ProbeAccepted(i))
    {
      hide ViewsOf, HostsOf, Sound;
      ghost var before := Views();
      nodes[i].Detected(true);
      NodeUpdated(before, i);
      StepKeepsSound(before, Hosts(), ProbeAccepted(i));
    }

    method CheckNodeHealth(i: nat, check: Check)
      requires Valid() && i < |nodes|
      modifies nodes`health, nodes`pool
      ensures Valid()
      ensures Views() == Next(old(Views()), Hosts(), HealthCheck(i, check))
    {
      hide ViewsOf, HostsOf, Sound;
      ghost var before := Views();
      nodes[i].CheckHealth(check);
      NodeUpdated(before, i);
      StepKeepsSound(before, Hosts(), HealthCheck(i, check));
    }

    /** `SetWriterNode`, having locked node `i`. */
    method Promote(i: nat, target: nat)
      requires Valid() && i < |nodes|
      modifies nodes`role, nodes`priority
      ensures Valid()
      ensures Views() == Next(old(Views()), Hosts(), Visit(i, Promotion(target)))
    {
      hide ViewsOf, HostsOf, Sound;
      ghost var before := Views();
      var node := nodes[i];
      if i == target {
        node.role := Writer;
        node.priority := 0;
      } else if node.role == Writer {
        node.role := Reader;
        if node.priority == 0 { node.priority := 1; }
      }
      NodeUpdated(before, i);
      StepKeepsSound(before, Hosts(), Visit(i, Promotion(target)));
    }

    /** `updateWriterByIP` at node `i`; a node without an address is passed over. */
    method FollowAddress(i: nat, ip: string)
      requires Valid() && i < |nodes|
      modifies nodes`role, nodes`priority
      ensures Valid()
      ensures Views() == Next(old(Views()), Hosts(), Visit(i, Resolution(ip)))
    {
      hide ViewsOf, HostsOf, Sound;
      ghost var before := Views();
      if nodes[i].host != "" {
        nodes[i].Detected(nodes[i].host == ip);
      }
      NodeUpdated(before, i);
      StepKeepsSound(before, Hosts(), Visit(i, Resolution(ip)));
    }

    /** What other goroutines do to the nodes before this one goes on. */
    method Meanwhile(steps: seq<Step>)
      requires Valid()
      modifies nodes`role, nodes`priority, nodes`health, nodes`pool
      ensures Valid()
      ensures Views() == Run(old(Views()), Hosts(), steps)
    {
      hide ViewsOf, HostsOf, Views, Valid, Next;
      for k := 0 to |steps|
        invariant Valid()
        invariant Run(old(Views()), Hosts(), steps) == Run(Views(), Hosts(), steps[k..])
      {
        assert steps[k..][1..] == steps[k + 1..];
        if steps[k].i >= |nodes| {
          NoSuchNode(steps[k]);
        } else {
          match steps[k] {
            case QueryResult(i, isPrimary) => QueryAnswered(i, isPrimary);
            case ProbeAccepted(i) => ProbeSucceeded(i);
            case Visit(i, Promotion(target)) => Promote(i, target);
            case Visit(i, Resolution(ip)) => FollowAddress(i, ip);
            case HealthCheck(i, check) => CheckNodeHealth(i, check);
          }
        }
      }
    }

    lemma NoSuchNode(step: Step)
      requires step.i >= |nodes|
      ensures Next(Views(), Hosts(), step) == Views()
    {
    }

    /** Unknown names change nothing; otherwise the first node of that name is
        promoted, the nodes being visited one by one with other goroutines at
        work in between. Undisturbed but for health checks it ends as the only writer. */
    method SetWriterNode(name: string, between: nat -> seq<Step>) returns (ok: bool, ghost target: nat)
      requires Valid()
      modifies nodes`role, nodes`priority, nodes`health, nodes`pool
      ensures Valid()
      ensures ok <==> exists i :: 0 <= i < |nodes| && nodes[i].name == name
      ensures !ok ==> Views() == old(Views())
      ensures ok ==> target < |nodes| && nodes[target].name == name
                     && forall k :: 0 <= k < target ==> nodes[k].name != name
      ensures ok ==> Views() == Run(old(Views()), Hosts(), Swept(Promotion(target), between, |nodes|))
      ensures ok && (forall k, x :: x in between(k) ==> x.HealthCheck?) ==> Writers(Views()) == {target}
    {
      hide Sound, ViewsOf, HostsOf, Views, Valid, Next, Swept, Writers, Run;
      var i := 0;
      while i < |nodes| && nodes[i].name != name
        invariant 0 <= i <= |nodes|
        invariant forall k :: 0 <= k < i ==> nodes[k].name != name
      {
        i := i + 1;
      }
      target := i;
      if i == |nodes| { return false, 0; }
      ghost var before := Views();
      SweepStarts(before, Hosts(), Promotion(i), between);
      for j := 0 to |nodes|
        invariant Valid() && Views() == Run(before, Hosts(), Swept(Promotion(i), between, j))
      {
        Meanwhile(between(j));
        Promote(j, i);
        SweepGoesOn(before, Hosts(), Promotion(i), between, j);
      }
      SweepAlone(before, Hosts(), i, between);
      return true, i;
    }

    /** DNS detection: each node follows its address, others at work in between. */
    method UpdateWriterByIP(ip: string, between: nat -> seq<Step>)
      requires Valid()
      modifies nodes`role, nodes`priority, nodes`health, nodes`pool
      ensures Valid()
      ensures Views() == Run(old(Views()), Hosts(), Swept(Resolution(ip), between, |nodes|))
    {
      hide Sound, ViewsOf, HostsOf, Views, Valid, Next, Swept, Run;
      ghost var before := Views();
      SweepStarts(before, Hosts(), Resolution(ip), between);
      for j := 0 to |nodes|
        invariant Valid() && Views() == Run(before, Hosts(), Swept(Resolution(ip), between, j))
      {
        Meanwhile(between(j));
        FollowAddress(j, ip);
        SweepGoesOn(before, Hosts(), Resolution(ip), between, j);
      }
    }

    /** When only node `i` changed, the views differ at `i` alone. */
    lemma NodeUpdated(before: seq<NodeView>, i: nat)
      requires i < |nodes| == |before|
      requires forall k :: 0 <= k < |nodes| && k != i ==> nodes[k].View() == before[k]
      ensures Views() == before[i := nodes[i].View()]
    {
    }

    // ----- circuit breaker -----

    ghost function TheCircuit(): Circuit
      reads this`circuitOpen, this`circuitOpenTime
    {
      Circuit(circuitOpen, circuitOpenTime)
    }

    /** An open circuit refuses until more than the timeout has passed. */
    ghost predicate Refuses(now: int)
      reads this`circuitOpen, this`circuitOpenTime
    {
      circuitOpen && now - circuitOpenTime <= timeout
    }

    method IsCircuitOpen(now: int) returns (open: bool)
      modifies this`circuitOpen
      ensures open == old(circuitOpen && now - circuitOpenTime <= timeout)
      ensures circuitOpen == open
    {
      if !circuitOpen { return false; }
      if now - circuitOpenTime > timeout {
        circuitOpen := false;
        return false;
      }
      return true;
    }

    method OpenCircuitBreaker(now: int)
      modifies this`circuitOpen, this`circuitOpenTime
      ensures circuitOpen && circuitOpenTime == if old(circuitOpen) then old(circuitOpenTime) else now
    {
      if !circuitOpen {
        circuitOpen := true;
        circuitOpenTime := now;
      }
    }

    // ----- routing -----

    /** The first healthy writer's pool; without one the circuit opens. */
    method GetWriter(now: int) returns (pool: Pool?, ghost at: nat)
      modifies this`circuitOpen, this`circuitOpenTime, nodes`writeCount
      ensures pool != null <==> !old(circuitOpen && now - circuitOpenTime <= timeout)
                                && exists n :: n in nodes && n.role == Writer && n.health == Healthy && n.pool != null
      ensures pool != null ==> FirstWritable(at) && pool == nodes[at].pool && !circuitOpen
      ensures pool != null ==> nodes[at].writeCount == old(nodes[at].writeCount) + 1
      ensures forall n :: n in nodes && (pool == null || n != nodes[at]) ==> n.writeCount == old(n.writeCount)
      ensures old(Refuses(now)) ==> TheCircuit() == old(TheCircuit())
      ensures !old(Refuses(now)) && pool == null ==> TheCircuit() == Circuit(true, now)
    {
      at := 0;
      var open := IsCircuitOpen(now);
      if open { return null, 0; }
      for i := 0 to |nodes|
        invariant forall k :: 0 <= k < i ==> !nodes[k].Writable()
        invariant forall n :: n in nodes ==> n.writeCount == old(n.writeCount)
      {
        var node := nodes[i];
        if node.role == Writer && node.health == Healthy && node.pool != null {
          node.writeCount := node.writeCount + 1;
          assert node in nodes && node.Writable();
          return node.pool, i;
        }
      }
      OpenCircuitBreaker(now);
      return null, 0;
    }

    /** The node `Writer` comes to first. */
    ghost predicate FirstWritable(at: nat)
      reads this`nodes, nodes`role, nodes`health, nodes`pool
    {
      at < |nodes| && nodes[at].Writable() && forall k :: 0 <= k < at ==> !nodes[k].Writable()
    }

    /** `ns` are the nodes at the places `order`. */
    ghost predicate AreNodes(ns: seq<DatabaseNode>, order: seq<nat>)
      reads this`nodes
    {
      |ns| == |order| && Below(order, |nodes|) && forall k :: 0 <= k < |ns| ==> ns[k] == nodes[order[k]]
    }

    method CollectReadable() returns (found: seq<DatabaseNode>)
      ensures AreNodes(found, ReadableNodes(Views()))
    {
      found := [];
      ghost var vs := Views();
      for i := 0 to |nodes|
        invariant AreNodes(found, ReadableNodes(vs[..i]))
      {
        assert vs[..i + 1][..i] == vs[..i];
        if nodes[i].MayRead() { found := found + [nodes[i]]; }
      }
      assert vs[..|nodes|] == vs;
    }

    /** Exactly the eligible nodes, in the order `ReaderOrder` has them. */
    method GetHealthyReaders() returns (readers: seq<DatabaseNode>)
      ensures AreNodes(readers, ReaderOrder(Views()))
    {
      hide ReadableNodes, SortOrder, ReaderOrder, Arranged, AreNodes, PrioritiesOf;
      var found := CollectReadable();
      var a := new DatabaseNode[|found|](i requires 0 <= i < |found| => found[i]);
      assert a[..] == found;
      SortByPriority(a);
      readers := a[..];
      FoundInOrder(found, readers);
    }

    lemma FoundInOrder(found: seq<DatabaseNode>, sorted: seq<DatabaseNode>)
      requires AreNodes(found, ReadableNodes(Views()))
      requires Arranged(sorted, found, SortOrder(PrioritiesOf(found)))
      ensures AreNodes(sorted, ReaderOrder(Views()))
    {
      hide ReadableNodes, SortOrder;
      assert PrioritiesOf(found) == Priorities(Views(), ReadableNodes(Views()));
    }

    method SelectLeastConnectedReader(readers: seq<DatabaseNode>) returns (i: nat)
      requires readers != []
      ensures Balancing.FirstLeast(ReadCountsOf(readers), i)
    {
      i := 0;
      for j := 1 to |readers|
        invariant i < j
        invariant forall k :: 0 <= k < j ==> readers[i].readCount <= readers[k].readCount
        invariant forall k :: 0 <= k < i ==> readers[i].readCount < readers[k].readCount
      {
        if readers[j].readCount < readers[i].readCount { i := j; }
      }
    }

    function ReadCounts(): (cs: seq<int>)
      reads this`nodes, nodes`readCount
      ensures |cs| == |nodes| && forall i :: 0 <= i < |nodes| ==> cs[i] == nodes[i].readCount
    {
      ReadCountsOf(nodes)
    }

    ghost function TheTally(): Tally
      reads this`nodes, this`readIndex, nodes`readCount
    {
      Tally(ReadCounts(), readIndex)
    }

    /** One read, of nodes found as in `vs`, took the counters from `before` to
        where they are, by the node `at`. */
    ghost predicate Served(before: Tally, vs: seq<NodeView>, drawn: nat, at: nat)
      reads this`nodes, this`readIndex, nodes`readCount
    {
      && at < |nodes| == |vs| == |before.counts| && ReaderOrder(vs) != []
      && (TheTally(), at) == Serve(strategy, vs, before, drawn)
    }

    /** The place the strategy picks among the readers. */
    method SelectSlot(readers: seq<DatabaseNode>, ghost order: seq<nat>, drawn: nat) returns (k: nat)
      requires readers != [] && AreNodes(readers, order)
      modifies this`readIndex
      ensures k == Slot(strategy, old(TheTally()), order, drawn)
      ensures readIndex == old(readIndex) + if strategy == RoundRobin then 1 else 0
    {
      hide ReadCountsOf, CountsOf, Balancing.LeastIndex, Balancing.FirstLeast, AreNodes;
      OrderBelow(readers, order);
      match strategy {
        case Random => k := drawn % |readers|;
        case Priority => k := 0;
        case LeastConnections =>
          k := SelectLeastConnectedReader(readers);
          SameCounts(readers, order);
          Balancing.LeastIndexUnique(ReadCountsOf(readers), k);
        case RoundRobin =>
          readIndex := readIndex + 1;
          k := readIndex % |readers|;
      }
    }

    lemma OrderBelow(readers: seq<DatabaseNode>, order: seq<nat>)
      requires AreNodes(readers, order)
      ensures |readers| == |order| && Below(order, |nodes|)
      ensures forall k :: 0 <= k < |order| ==> readers[k] == nodes[order[k]]
    {
    }

    lemma SameCounts(readers: seq<DatabaseNode>, order: seq<nat>)
      requires AreNodes(readers, order)
      ensures Below(order, |ReadCounts()|) && ReadCountsOf(readers) == CountsOf(ReadCounts(), order)
    {
    }

    /** The node in the place the strategy picks is the one that serves. */
    lemma Chosen(readers: seq<DatabaseNode>, vs: seq<NodeView>, t: Tally, drawn: nat)
      requires |vs| == |t.counts| == |nodes| && readers != [] && AreNodes(readers, ReaderOrder(vs))
      ensures ReaderOrder(vs) != []
      ensures var k, (n, at) := Slot(strategy, t, ReaderOrder(vs), drawn), Serve(strategy, vs, t, drawn);
              && k < |readers| && readers[k] == nodes[at]
              && n == Tally(Raised(t.counts, at), if strategy == RoundRobin then t.index + 1 else t.index)
    {
      hide ReaderOrder, Slot, Raised;
    }

    /** `vs` is how the nodes were found; they may have changed since. */
    method ServeFrom(readers: seq<DatabaseNode>, ghost vs: seq<NodeView>, drawn: nat)
      returns (pool: Pool?, ghost at: nat)
      requires Valid() && |vs| == |nodes| && readers != [] && AreNodes(readers, ReaderOrder(vs))
      modifies this`readIndex, nodes`readCount
      ensures Served(old(TheTally()), vs, drawn, at) && pool == nodes[at].pool
    {
      hide ReaderOrder, Slot, Sound, ReadCounts, Valid, AreNodes, Serve, Raised;
      Chosen(readers, vs, TheTally(), drawn);
      at := Serve(strategy, vs, TheTally(), drawn).1;
      var k := SelectSlot(readers, ReaderOrder(vs), drawn);
      RaiseReadCount(readers[k], at);
      return readers[k].pool, at;
    }

    method RaiseReadCount(n: DatabaseNode, ghost j: nat)
      requires Valid() && j < |nodes| && nodes[j] == n
      modifies n`readCount
      ensures ReadCounts() == Raised(old(ReadCounts()), j)
    {
      hide Sound;
      n.readCount := n.readCount + 1;
    }

    /** Other goroutines at work: steps of nodes, and perhaps one that opened the
        circuit at `tripped`. */
    method Disturb(steps: seq<Step>, tripped: Option<int>)
      requires Valid() && !circuitOpen
      modifies this`circuitOpen, this`circuitOpenTime, nodes`role, nodes`priority, nodes`health, nodes`pool
      ensures Valid() && Views() == Run(old(Views()), Hosts(), steps)
      ensures circuitOpen == tripped.Some? && (tripped.Some? ==> circuitOpenTime == tripped.value)
    {
      hide ViewsOf, HostsOf, Views, Valid, Run;
      Meanwhile(steps);
      if tripped.Some? { OpenCircuitBreaker(tripped.value); }
    }

    /** `Reader`, other goroutines being at work between its scan for readers and
        what it does with them. Refused by the circuit, it changes nothing. With
        readers found it serves as `Serve` says, and hands out the pool the node
        has by then. Without, it falls back to `Writer`, and that serves exactly
        when the circuit still lets it and some writer has become healthy.
        `at` is the node that serves, `drawn` the random draw. */
    method GetReader(now: int, later: int, drawn: nat, between: seq<Step>, tripped: Option<int>)
      returns (ok: bool, pool: Pool?, ghost at: nat)
      requires Valid()
      modifies this`readIndex, this`circuitOpen, this`circuitOpenTime
      modifies nodes`role, nodes`priority, nodes`health, nodes`pool, nodes`readCount, nodes`writeCount
      ensures Valid()
      ensures old(Refuses(now)) ==> !ok && Views() == old(Views()) && TheCircuit() == old(TheCircuit())
      ensures !old(Refuses(now)) ==> Views() == Run(old(Views()), Hosts(), between)
      ensures !old(Refuses(now)) && ReaderOrder(old(Views())) != [] ==>
                ok && Served(old(TheTally()), old(Views()), drawn, at) && pool == nodes[at].pool
      ensures !old(Refuses(now)) && ReaderOrder(old(Views())) == [] ==>
                (ok <==> !Blocks(tripped, later) && exists n :: n in nodes && n.Writable())
      ensures ok && ReaderOrder(old(Views())) == [] ==> FirstWritable(at) && pool == nodes[at].pool && pool != null
      ensures !ok || ReaderOrder(old(Views())) == [] ==> TheTally() == old(TheTally())
      ensures !ok ==> pool == null
      ensures !ok && !old(Refuses(now)) && !Blocks(tripped, later) ==> TheCircuit() == Circuit(true, later)
    {
      hide ReaderOrder, Sound, Serve, AreNodes, Valid, Views, TheTally, Run;
      hide DatabaseNode.View, DatabaseNode.Writable, FirstWritable, Served, Blocks, Hosts;
      at := 0;
      var open := IsCircuitOpen(now);
      if open { return false, null, 0; }
      var readers := GetHealthyReaders();
      AsMany(readers);
      if |readers| == 0 {
        ok, pool, at := FallBack(later, between, tripped);
        return ok, pool, at;
      }
      ok := true;
      pool, at := PickAmong(readers, drawn, between, tripped);
    }

    /** The scan found readers: one of them is picked. */
    method PickAmong(readers: seq<DatabaseNode>, drawn: nat, between: seq<Step>, tripped: Option<int>)
      returns (pool: Pool?, ghost at: nat)
      requires Valid() && !circuitOpen && readers != [] && AreNodes(readers, ReaderOrder(Views()))
      modifies this`readIndex, this`circuitOpen, this`circuitOpenTime
      modifies nodes`role, nodes`priority, nodes`health, nodes`pool, nodes`readCount
      ensures Valid() && Views() == Run(old(Views()), Hosts(), between)
      ensures Served(old(TheTally()), old(Views()), drawn, at) && pool == nodes[at].pool
    {
      hide ReaderOrder, Sound, Serve, AreNodes, Valid, Views, TheTally, Run;
      ghost var vs := Views();
      Disturb(between, tripped);
      pool, at := ServeFrom(readers, vs, drawn);
    }

    /** The scan found no readers: `Writer` is asked. */
    method FallBack(later: int, between: seq<Step>, tripped: Option<int>) returns (ok: bool, pool: Pool?, ghost at: nat)
      requires Valid() && !circuitOpen
      modifies this`circuitOpen, this`circuitOpenTime
      modifies nodes`role, nodes`priority, nodes`health, nodes`pool, nodes`writeCount
      ensures Valid() && Views() == Run(old(Views()), Hosts(), between)
      ensures ok <==> !Blocks(tripped, later) && exists n :: n in nodes && n.Writable()
      ensures ok ==> FirstWritable(at) && pool == nodes[at].pool && pool != null
      ensures !ok ==> pool == null
      ensures !ok && !Blocks(tripped, later) ==> TheCircuit() == Circuit(true, later)
    {
      hide Sound, Valid, Views, Run, DatabaseNode.Writable, FirstWritable, Readable, Hosts;
      Disturb(between, tripped);
      WhoMayWrite();
      pool, at := GetWriter(later);
      WriterHasPool(at);
      ok := pool != null;
    }

    /** The circuit, opened at `tripped`, keeps `Writer` from serving at `later`. */
    predicate Blocks(tripped: Option<int>, later: int) { tripped.Some? && later - tripped.value <= timeout }

    lemma WriterHasPool(at: nat)
      ensures FirstWritable(at) ==> at < |nodes| && nodes[at].pool != null
    {
    }

    /** `Reader` with nobody at work in between: it serves exactly when the
        circuit lets it and some reader or writer is healthy with a pool. The
        fallback can then only fail, and leaves the circuit open. */
    method GetReaderUndisturbed(now: int, later: int, drawn: nat) returns (ok: bool, pool: Pool?, ghost at: nat)
      requires Valid()
      modifies this`readIndex, this`circuitOpen, this`circuitOpenTime
      modifies nodes`role, nodes`priority, nodes`health, nodes`pool, nodes`readCount, nodes`writeCount
      ensures Valid() && Views() == old(Views())
      ensures ok <==> !old(circuitOpen && now - circuitOpenTime <= timeout)
                      && exists n :: n in nodes && n.health == Healthy && n.pool != null
                                  && (n.role == Reader || n.role == Writer)
      ensures ok <==> pool != null
      ensures ok ==> Served(old(TheTally()), Views(), drawn, at) && pool == nodes[at].pool
      ensures !ok ==> TheTally() == old(TheTally())
      ensures !ok && !old(Refuses(now)) ==> TheCircuit() == Circuit(true, later)
    {
      hide ReaderOrder, Sound, Serve, AreNodes, Valid, Views, TheTally, Readable;
      hide DatabaseNode.View, DatabaseNode.Writable, DatabaseNode.MayRead, FirstWritable, Served;
      ghost var vs := Views();
      ok, pool, at := GetReader(now, later, drawn, [], None);
      assert Run(vs, Hosts(), []) == vs;
      SomeReadable();
      NoneWritable();
      WhoMayRead();
      if ok { ServedHasPool(old(TheTally()), drawn, at); }
    }

    lemma WhoMayWrite()
      ensures (exists n :: n in nodes && n.Writable())
         <==> exists n :: n in nodes && n.role == Writer && n.health == Healthy && n.pool != null
    {
      assert forall n :: n in nodes ==> (n.Writable() <==> n.role == Writer && n.health == Healthy && n.pool != null);
    }

    lemma WhoMayRead()
      ensures (exists n :: n in nodes && n.MayRead())
         <==> exists n :: n in nodes && n.health == Healthy && n.pool != null && (n.role == Reader || n.role == Writer)
    {
      assert forall n :: n in nodes ==>
        (n.MayRead() <==> n.health == Healthy && n.pool != null && (n.role == Reader || n.role == Writer));
    }

    lemma ServedHasPool(before: Tally, drawn: nat, at: nat)
      ensures Served(before, Views(), drawn, at) ==> nodes[at].pool != null
    {
      hide ReaderOrder;
      if Served(before, Views(), drawn, at) { ServesReadable(strategy, Views(), before, drawn); }
    }

    lemma AsMany(readers: seq<DatabaseNode>)
      requires AreNodes(readers, ReaderOrder(Views()))
      ensures |readers| == |ReaderOrder(Views())|
    {
      hide ReaderOrder;
    }

    lemma SomeReadable()
      ensures ReaderOrder(Views()) != [] <==> exists n :: n in nodes && n.MayRead()
    {
      hide ReaderOrder, Readable;
      ReaderOrderIsSorted(Views());
      var order := ReaderOrder(Views());
      if order != [] {
        assert order[0] in order;
        assert nodes[order[0]].MayRead();
      }
      if n :| n in nodes && n.MayRead() {
        var i: nat :| i < |nodes| && nodes[i] == n;
        assert i in order;
      }
    }

    lemma NoneWritable()
      ensures (exists n :: n in nodes && n.Writable()) ==> exists n :: n in nodes && n.MayRead()
    {
      if n :| n in nodes && n.Writable() {
        assert n.MayRead();
      }
    }
  }

  function HostsOf(ns: seq<DatabaseNode>): (hs: seq<string>)
    ensures |hs| == |ns| && forall i :: 0 <= i < |ns| ==> hs[i] == ns[i].host
  {
    if ns == [] then [] else HostsOf(ns[..|ns| - 1]) + [ns[|ns| - 1].host]
  }

  function ViewsOf(ns: seq<DatabaseNode>): (vs: seq<NodeView>)
    reads ns`role, ns`health, ns`priority, ns`pool
    ensures |vs| == |ns| && forall i :: 0 <= i < |ns| ==> vs[i] == ns[i].View()
  {
    if ns == [] then [] else ViewsOf(ns[..|ns| - 1]) + [ns[|ns| - 1].View()]
  }

  function ReadCountsOf(ns: seq<DatabaseNode>): (cs: seq<int>)
    reads ns`readCount
    ensures |cs| == |ns| && forall i :: 0 <= i < |ns| ==> cs[i] == ns[i].readCount
  {
    if ns == [] then [] else ReadCountsOf(ns[..|ns| - 1]) + [ns[|ns| - 1].readCount]
  }
}
