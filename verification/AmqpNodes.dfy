// Publishing to a RabbitMQ cluster with failover, as values.
module AmqpNodes {
  import opened Wrappers
  import opened Balancing

  datatype State = Healthy | Degraded | Failed

  /** `channel`: whether the node has a publish channel. */
  datatype NodeView = NodeView(state: State, channel: bool, published: nat, errors: nat)

  datatype Strategy = RoundRobin | Random | Hash

  datatype Cluster = Cluster(views: seq<NodeView>, index: nat)

  /** `getHealthyNodes`: the state alone decides, channel or not. */
  function HealthyNodes(vs: seq<NodeView>): (h: seq<nat>)
    ensures forall k :: 0 <= k < |h| ==> h[k] < |vs| && vs[h[k]].state == Healthy
    ensures forall i :: 0 <= i < |vs| && vs[i].state == Healthy ==> i in h
    ensures forall k, l :: 0 <= k < l < |h| ==> h[k] < h[l]
  {
    if vs == [] then []
    else
      var last := |vs| - 1;
      HealthyNodes(vs[..last]) + if vs[last].state == Healthy then [last] else []
  }

  function Select(c: Cluster, strategy: Strategy, key: Option<nat>, drawn: nat): (r: (Cluster, Option<nat>))
    ensures r.0.views == c.views
    ensures r.1.Some? <==> HealthyNodes(c.views) != []
    ensures r.1.Some? ==> r.1.value < |c.views| && c.views[r.1.value].state == Healthy
  {
    var h := HealthyNodes(c.views);
    if h == [] then (c, None)
    else if strategy == Random then (c, Some(h[drawn % |h|]))
    else if strategy == Hash && key.Some? then (c, Some(h[key.value % |h|]))
    else (c.(index := c.index + 1), Some(h[(c.index + 1) % |h|]))
  }

  /** Neither a random draw nor a key decides. */
  predicate UsesTickets(strategy: Strategy, key: Option<nat>) {
    strategy == RoundRobin || (strategy == Hash && key.None?)
  }

  /** With hashing a key stays with its node as long as the healthy nodes are the
      same, whatever tickets and draws there were; like a random draw it takes no ticket. */
  lemma KeyAffinity(c: Cluster, d: Cluster, strategy: Strategy, key: Option<nat>, drawn: nat, drawn': nat)
    requires HealthyNodes(c.views) == HealthyNodes(d.views)
    ensures strategy == Hash && key.Some? ==>
              Select(c, strategy, key, drawn).1 == Select(d, strategy, key, drawn').1
              && Select(c, strategy, key, drawn).0 == c
    ensures strategy == Random ==> Select(c, strategy, key, drawn).0 == c
  {
    hide HealthyNodes;
  }

  /** Any healthy node may be drawn, and any is the node of some key. */
  lemma AnyNodePicked(c: Cluster, strategy: Strategy, i: nat, key: Option<nat>, drawn: nat) returns (k: nat)
    requires i < |c.views| && c.views[i].state == Healthy
    ensures strategy == Random ==> Select(c, strategy, key, k).1 == Some(i)
    ensures strategy == Hash ==> Select(c, strategy, Some(k), drawn).1 == Some(i)
  {
    hide HealthyNodes;
    var h := HealthyNodes(c.views);
    k :| 0 <= k < |h| && h[k] == i;
    Small(k, |h|);
  }

  /** One selection for each draw, no node changing; the nodes picked, in order. */
  function Selections(c: Cluster, strategy: Strategy, key: Option<nat>, draws: seq<nat>): (r: (Cluster, seq<nat>))
    requires HealthyNodes(c.views) != []
    ensures r.0.views == c.views && |r.1| == |draws|
  {
    if draws == [] then (c, [])
    else
      var (d, picks) := Selections(c, strategy, key, draws[..|draws| - 1]);
      var (e, node) := Select(d, strategy, key, draws[|draws| - 1]);
      (e, picks + [node.value])
  }

  lemma SelectTicket(c: Cluster, strategy: Strategy, key: Option<nat>, drawn: nat)
    requires UsesTickets(strategy, key) && HealthyNodes(c.views) != []
    ensures var h := HealthyNodes(c.views);
            Select(c, strategy, key, drawn) == (c.(index := c.index + 1), Some(h[(c.index + 1) % |h|]))
  {
    hide HealthyNodes;
  }

  lemma {:induction false} SelectionsByTicket(c: Cluster, strategy: Strategy, key: Option<nat>, draws: seq<nat>, i: nat)
    requires UsesTickets(strategy, key) && HealthyNodes(c.views) != []
    ensures var (d, picks) := Selections(c, strategy, key, draws);
            && d.index == c.index + |draws|
            && multiset(picks)[i] == TurnsOf(HealthyNodes(c.views), c.index, |draws|, i)
  {
    hide HealthyNodes, Select, TurnsOf, UsesTickets;
    var h := HealthyNodes(c.views);
    NoTurnYet(h, c.index, i);
    if draws != [] {
      var last := |draws| - 1;
      SelectionsByTicket(c, strategy, key, draws[..last], i);
      var (d, picks) := Selections(c, strategy, key, draws[..last]);
      SelectTicket(d, strategy, key, draws[last]);
      OneMorePick(h, c.index, picks, i);
      assert d.index + 1 == c.index + |picks| + 1;
    }
  }

  /** While no node changes, m selections by ticket pick each of the n healthy
      nodes floor(m/n) or ceil(m/n) times, and no other. */
  lemma SelectionsFair(c: Cluster, strategy: Strategy, key: Option<nat>, draws: seq<nat>, i: nat)
    requires UsesTickets(strategy, key) && HealthyNodes(c.views) != [] && i < |c.views|
    ensures var picked := multiset(Selections(c, strategy, key, draws).1)[i];
            var n, m := |HealthyNodes(c.views)|, |draws|;
            if c.views[i].state == Healthy then m / n <= picked <= Ceil(m, n) else picked == 0
  {
    hide HealthyNodes, Selections, TurnsOf, UsesTickets;
    SelectionsByTicket(c, strategy, key, draws, i);
    NodesFair(HealthyNodes(c.views), c.index, |draws|, i);
  }

  predicate Takes(v: NodeView, accepts: bool) { v.channel && accepts }

  /** `publishToNode` and the count its caller keeps: a node without a channel
      stays as it is, one that rejects is counted and degraded. */
  function AfterPublish(v: NodeView, accepts: bool): NodeView {
    if !v.channel then v
    else if accepts then v.(published := v.published + 1)
    else v.(errors := v.errors + 1, state := if v.state == Healthy then Degraded else v.state)
  }

  /** A node takes a message exactly when it has a channel and the broker accepts;
      that counts as published. A rejection counts as an error and degrades a
      healthy node, but makes nothing better of a failed or degraded one; and a
      node without a channel is not asked, nor does it change. */
  lemma AskingMeans(v: NodeView, accepts: bool)
    ensures Takes(v, accepts) <==> v.channel && accepts
    ensures v.channel && accepts ==> AfterPublish(v, accepts) == NodeView(v.state, true, v.published + 1, v.errors)
    ensures v.channel && !accepts ==>
              var w := AfterPublish(v, accepts);
              && w.errors == v.errors + 1 && w.published == v.published && w.channel
              && w.state != Healthy && (v.state != Healthy ==> w.state == v.state)
              && (v.state == Healthy ==> w.state == Degraded)
    ensures !v.channel ==> AfterPublish(v, accepts) == v
  {
  }

  /** The broker's answers to one message: to the node selected first, and to
      each node in the failover loop. */
  datatype Broker = Broker(first: bool, others: seq<bool>)

  /** Which node took the message, if any. */
  function Failover(vs: seq<NodeView>, list: seq<nat>, others: seq<bool>): (r: (seq<NodeView>, Option<nat>))
    requires |others| == |vs| && forall k :: 0 <= k < |list| ==> list[k] < |vs|
    ensures |r.0| == |vs|
    decreases |list|
  {
    if list == [] then (vs, None)
    else
      var i := list[0];
      var ws := vs[i := AfterPublish(vs[i], others[i])];
      if Takes(vs[i], others[i]) then (ws, Some(i)) else Failover(ws, list[1..], others)
  }

  function Publish(c: Cluster, strategy: Strategy, key: Option<nat>, drawn: nat, b: Broker): (r: (Cluster, Option<nat>))
    requires |b.others| == |c.views|
    ensures |r.0.views| == |c.views|
  {
    var (d, node) := Select(c, strategy, key, drawn);
    var tried := if node.None? then d.views
                 else d.views[node.value := AfterPublish(d.views[node.value], b.first)];
    if node.Some? && Takes(d.views[node.value], b.first) then (d.(views := tried), node)
    else
      var (vs, taker) := Failover(tried, HealthyNodes(tried), b.others);
      (d.(views := vs), taker)
  }

  // ----- what Publish guarantees -----

  /** The state of a node that was asked and refused. */
  predicate Refused(before: NodeView, after: NodeView) {
    if before.channel then after == before.(errors := before.errors + 1, state := Degraded) else after == before
  }

  ghost predicate Ascending(list: seq<nat>, n: nat) {
    && (forall k :: 0 <= k < |list| ==> list[k] < n)
    && (forall k, l :: 0 <= k < l < |list| ==> list[k] < list[l])
  }

  /** The nodes of the list up to the one that takes the message are asked. */
  predicate Asked(list: seq<nat>, taker: Option<nat>, i: nat) {
    i in list && (taker.None? || i <= taker.value)
  }

  lemma AscendingTail(list: seq<nat>, n: nat)
    requires list != [] && Ascending(list, n)
    ensures Ascending(list[1..], n)
    ensures forall i :: i in list <==> i == list[0] || i in list[1..]
    ensures forall i :: i in list[1..] ==> list[0] < i < n
  {
  }

  lemma {:induction false} FailoverTaker(vs: seq<NodeView>, list: seq<nat>, others: seq<bool>)
    requires |others| == |vs| && Ascending(list, |vs|)
    ensures var taker := Failover(vs, list, others).1;
            && (taker.None? ==> forall i :: 0 <= i < |vs| && i in list ==> !Takes(vs[i], others[i]))
            && (taker.Some? ==> taker.value < |vs| && taker.value in list && Takes(vs[taker.value], others[taker.value])
                                && forall i :: 0 <= i < taker.value && i in list ==> !Takes(vs[i], others[i]))
    decreases |list|
  {
    hide Takes, AfterPublish;
    if list != [] {
      AscendingTail(list, |vs|);
      var i := list[0];
      if !Takes(vs[i], others[i]) {
        FailoverTaker(vs[i := AfterPublish(vs[i], others[i])], list[1..], others);
      }
      hide Ascending;
    }
  }

  lemma {:induction false} FailoverViews(vs: seq<NodeView>, list: seq<nat>, others: seq<bool>, i: nat)
    requires |others| == |vs| && Ascending(list, |vs|) && i < |vs|
    ensures var (ws, taker) := Failover(vs, list, others);
            ws[i] == if Asked(list, taker, i) then AfterPublish(vs[i], others[i]) else vs[i]
    decreases |list|
  {
    hide Takes, AfterPublish;
    if list != [] {
      AscendingTail(list, |vs|);
      var j := list[0];
      if !Takes(vs[j], others[j]) {
        var us := vs[j := AfterPublish(vs[j], others[j])];
        FailoverViews(us, list[1..], others, i);
        FailoverTaker(us, list[1..], others);
      }
    }
  }

  lemma HealthyAscending(vs: seq<NodeView>)
    ensures Ascending(HealthyNodes(vs), |vs|)
    ensures forall i :: 0 <= i < |vs| ==> (i in HealthyNodes(vs) <==> vs[i].state == Healthy)
  {
    hide HealthyNodes;
  }

  /** What the failover loop does to node `i`, given who takes the message. */
  lemma FailoverOnHealthy(vs: seq<NodeView>, others: seq<bool>, i: nat)
    requires |others| == |vs| && i < |vs|
    ensures var (ws, taker) := Failover(vs, HealthyNodes(vs), others);
            && (taker.Some? ==> taker.value < |vs| && vs[taker.value].state == Healthy
                                && Takes(vs[taker.value], others[taker.value])
                                && ws[taker.value] == vs[taker.value].(published := vs[taker.value].published + 1))
            && (taker.None? && vs[i].state == Healthy ==> !Takes(vs[i], others[i]) && Refused(vs[i], ws[i]))
            && (vs[i].state != Healthy ==> ws[i] == vs[i])
            && (taker.Some? && i != taker.value ==> ws[i] == vs[i] || (vs[i].state == Healthy && Refused(vs[i], ws[i])))
  {
    hide HealthyNodes, Failover;
    HealthyAscending(vs);
    FailoverTaker(vs, HealthyNodes(vs), others);
    FailoverViews(vs, HealthyNodes(vs), others, i);
    var taker := Failover(vs, HealthyNodes(vs), others).1;
    if taker.Some? { FailoverViews(vs, HealthyNodes(vs), others, taker.value); }
  }

  /** The broker's answer to the first request a healthy node gets. */
  predicate WouldTake(c: Cluster, strategy: Strategy, key: Option<nat>, drawn: nat, b: Broker, i: nat)
    requires |b.others| == |c.views| && i < |c.views|
  {
    Takes(c.views[i], if Select(c, strategy, key, drawn).1 == Some(i) then b.first else b.others[i])
  }

  lemma PublishCases(c: Cluster, strategy: Strategy, key: Option<nat>, drawn: nat, b: Broker)
    requires |b.others| == |c.views|
    ensures var (d, node) := Select(c, strategy, key, drawn);
            var (p, taker) := Publish(c, strategy, key, drawn, b);
            && (node.None? ==> (p.views, taker) == Failover(c.views, HealthyNodes(c.views), b.others))
            && (node.Some? ==>
                  var n := node.value;
                  var tried := c.views[n := AfterPublish(c.views[n], b.first)];
                  if Takes(c.views[n], b.first) then p.views == tried && taker == node
                  else (p.views, taker) == Failover(tried, HealthyNodes(tried), b.others))
  {
    hide HealthyNodes, Failover, Select, AfterPublish, Takes;
  }

  /** What Publish does to node `i`, and what its outcome says of it. */
  lemma PublishOn(c: Cluster, strategy: Strategy, key: Option<nat>, drawn: nat, b: Broker, i: nat)
    requires |b.others| == |c.views| && i < |c.views|
    ensures var (d, taker) := Publish(c, strategy, key, drawn, b);
            && (taker.Some? ==> taker.value < |c.views| && c.views[taker.value].state == Healthy
                                && WouldTake(c, strategy, key, drawn, b, taker.value)
                                && d.views[taker.value]
                                     == c.views[taker.value].(published := c.views[taker.value].published + 1))
            && (taker.None? && c.views[i].state == Healthy ==>
                  !WouldTake(c, strategy, key, drawn, b, i) && Refused(c.views[i], d.views[i]))
            && (c.views[i].state != Healthy ==> d.views[i] == c.views[i])
            && (taker.Some? && i != taker.value ==>
                  d.views[i] == c.views[i] || (c.views[i].state == Healthy && Refused(c.views[i], d.views[i])))
  {
    hide HealthyNodes, Failover, Select, Publish;
    PublishCases(c, strategy, key, drawn, b);
    var node := Select(c, strategy, key, drawn).1;
    if node.Some? {
      var n := node.value;
      var tried := c.views[n := AfterPublish(c.views[n], b.first)];
      if !Takes(c.views[n], b.first) { FailoverOnHealthy(tried, b.others, i); }
    } else {
      FailoverOnHealthy(c.views, b.others, i);
    }
  }

  /** Publish fails exactly when every node healthy on entry refuses; each of
      them is then degraded with one more error, or has no channel. */
  lemma PublishFailure(c: Cluster, strategy: Strategy, key: Option<nat>, drawn: nat, b: Broker)
    requires |b.others| == |c.views|
    ensures var (d, taker) := Publish(c, strategy, key, drawn, b);
            && (taker.None? <==> forall i :: 0 <= i < |c.views| && c.views[i].state == Healthy ==>
                                   !WouldTake(c, strategy, key, drawn, b, i))
            && (taker.None? ==> forall i :: 0 <= i < |c.views| ==>
                 if c.views[i].state == Healthy then Refused(c.views[i], d.views[i]) else d.views[i] == c.views[i])
  {
    hide Publish, WouldTake, Refused;
    forall i | 0 <= i < |c.views|
      ensures var (d, taker) := Publish(c, strategy, key, drawn, b);
              && (taker.Some? ==> taker.value < |c.views| && c.views[taker.value].state == Healthy
                                  && WouldTake(c, strategy, key, drawn, b, taker.value))
              && (taker.None? && c.views[i].state == Healthy ==>
                    !WouldTake(c, strategy, key, drawn, b, i) && Refused(c.views[i], d.views[i]))
              && (c.views[i].state != Healthy ==> d.views[i] == c.views[i])
    {
      PublishOn(c, strategy, key, drawn, b, i);
    }
    if |c.views| > 0 { PublishOn(c, strategy, key, drawn, b, 0); } else { NobodyTakes(c, strategy, key, drawn, b); }
  }

  lemma NobodyTakes(c: Cluster, strategy: Strategy, key: Option<nat>, drawn: nat, b: Broker)
    requires c.views == [] && b.others == []
    ensures Publish(c, strategy, key, drawn, b).1 == None
  {
    assert HealthyNodes([]) == [];
  }

  /** Publish succeeds through exactly one node: that node took the message, was
      healthy with a channel, and its counter alone goes up by one. */
  lemma PublishSuccess(c: Cluster, strategy: Strategy, key: Option<nat>, drawn: nat, b: Broker)
    requires |b.others| == |c.views| && Publish(c, strategy, key, drawn, b).1.Some?
    ensures var (d, taker) := Publish(c, strategy, key, drawn, b);
            var n := taker.value;
            && n < |c.views| && c.views[n].state == Healthy && c.views[n].channel
            && WouldTake(c, strategy, key, drawn, b, n)
            && d.views[n] == c.views[n].(published := c.views[n].published + 1)
            && (forall i :: 0 <= i < |c.views| && i != n ==>
                  d.views[i] == c.views[i] || (c.views[i].state == Healthy && Refused(c.views[i], d.views[i])))
  {
    if c.views == [] { NobodyTakes(c, strategy, key, drawn, b); }
    hide Publish, Refused, Select;
    PublishOn(c, strategy, key, drawn, b, 0);
    forall i | 0 <= i < |c.views| && i != Publish(c, strategy, key, drawn, b).1.value
      ensures var (d, taker) := Publish(c, strategy, key, drawn, b);
              d.views[i] == c.views[i] || (c.views[i].state == Healthy && Refused(c.views[i], d.views[i]))
    {
      PublishOn(c, strategy, key, drawn, b, i);
    }
  }
}
