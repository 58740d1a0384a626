// The RabbitMQ cluster adapter as it runs, node objects updated in place.
module AmqpCluster {
  import opened Wrappers
  import opened AmqpNodes

  class Channel {
    constructor () {}
  }

  class Node {
    var publishCh: Channel?
    var state: State
    var publishCount: nat
    var errorCount: nat

    constructor (ch: Channel?, state: State)
      ensures publishCh == ch && this.state == state && publishCount == errorCount == 0
    {
      publishCh, this.state, publishCount, errorCount := ch, state, 0, 0;
    }

    function View(): NodeView
      reads this
    {
      NodeView(state, publishCh != null, publishCount, errorCount)
    }

    /** `accepts` is what the broker answers. */
    method PublishTo(accepts: bool) returns (ok: bool)
      modifies this`state, this`errorCount
      ensures ok == Takes(old(View()), accepts)
      ensures View() == if ok then old(View()) else AfterPublish(old(View()), accepts)
    {
      if publishCh == null { return false; }
      if !accepts {
        errorCount := errorCount + 1;
        if state == Healthy { state := Degraded; }
        return false;
      }
      return true;
    }
  }

  class ClusterAdapter {
    const nodes: seq<Node>
    const strategy: Strategy
    var nodeIndex: nat

    constructor (nodes: seq<Node>, strategy: Strategy)
      requires forall i, j :: 0 <= i < j < |nodes| ==> nodes[i] != nodes[j]
      ensures this.nodes == nodes && this.strategy == strategy && nodeIndex == 0 && Valid()
    {
      this.nodes, this.strategy, nodeIndex := nodes, strategy, 0;
    }

    predicate Valid() {
      forall i, j :: 0 <= i < j < |nodes| ==> nodes[i] != nodes[j]
    }

    function Views(): (vs: seq<NodeView>)
      reads nodes
      ensures |vs| == |nodes| && forall i :: 0 <= i < |nodes| ==> vs[i] == nodes[i].View()
    {
      seq(|nodes|, i requires 0 <= i < |nodes| reads nodes => nodes[i].View())
    }

    function AsCluster(): Cluster
      reads this, nodes
    {
      Cluster(Views(), nodeIndex)
    }

    method GetHealthyNodes() returns (healthy: seq<nat>)
      ensures healthy == HealthyNodes(Views())
    {
      healthy := [];
      ghost var vs := Views();
      for i := 0 to |nodes|
        invariant healthy == HealthyNodes(vs[..i])
      {
        assert vs[..i + 1][..i] == vs[..i];
        if nodes[i].state == Healthy { healthy := healthy + [i]; }
      }
      assert vs[..|nodes|] == vs;
    }

    method SelectNodeForPublish(key: Option<nat>, drawn: nat) returns (node: Option<nat>)
      modifies this`nodeIndex
      ensures (AsCluster(), node) == Select(old(AsCluster()), strategy, key, drawn)
    {
      hide HealthyNodes;
      ghost var before := Views();
      var healthy := GetHealthyNodes();
      if |healthy| == 0 { return None; }
      if strategy == Random { return Some(healthy[drawn % |healthy|]); }
      if strategy == Hash && key.Some? { return Some(healthy[key.value % |healthy|]); }
      nodeIndex := nodeIndex + 1;
      assert Views() == before;
      return Some(healthy[nodeIndex % |healthy|]);
    }

    /** Ask node `i`, counting the message when it takes it. */
    method Ask(i: nat, accepts: bool) returns (ok: bool)
      requires Valid() && i < |nodes|
      modifies nodes
      ensures ok == Takes(old(Views())[i], accepts)
      ensures Views() == old(Views())[i := AfterPublish(old(Views())[i], accepts)]
    {
      ghost var before := Views();
      ok := nodes[i].PublishTo(accepts);
      if ok { nodes[i].publishCount := nodes[i].publishCount + 1; }
      assert forall k :: 0 <= k < |nodes| && k != i ==> nodes[k] != nodes[i];
      assert Views() == before[i := AfterPublish(before[i], accepts)];
    }

    /** Ask the nodes of a list one after another until one takes the message. */
    method AskInTurn(healthy: seq<nat>, others: seq<bool>) returns (taker: Option<nat>)
      requires Valid() && |others| == |nodes| && forall k :: 0 <= k < |healthy| ==> healthy[k] < |nodes|
      modifies nodes
      ensures (Views(), taker) == Failover(old(Views()), healthy, others)
    {
      hide AfterPublish, Takes;
      for k := 0 to |healthy|
        invariant Failover(old(Views()), healthy, others) == Failover(Views(), healthy[k..], others)
      {
        assert healthy[k..][1..] == healthy[k + 1..] && healthy[k..][0] == healthy[k];
        var ok := Ask(healthy[k], others[healthy[k]]);
        if ok { return Some(healthy[k]); }
      }
      return None;
    }

    method Publish(key: Option<nat>, drawn: nat, b: Broker) returns (taker: Option<nat>)
      requires Valid() && |b.others| == |nodes|
      modifies this`nodeIndex, nodes
      ensures (AsCluster(), taker) == AmqpNodes.Publish(old(AsCluster()), strategy, key, drawn, b)
    {
      hide HealthyNodes, Select, AfterPublish, Takes, Failover;
      var node := SelectNodeForPublish(key, drawn);
      if node.Some? {
        var ok := Ask(node.value, b.first);
        if ok { return node; }
      }
      var healthy := GetHealthyNodes();
      taker := AskInTurn(healthy, b.others);
    }
  }
}
