// The Redis cluster adapter as it runs, node objects updated in place. Each
// method is tied to the value step of RedisNodes it performs.
module RedisCluster {
  import opened Wrappers
  import opened RedisNodes
  import Backoff

  /** A `*redis.Client`. */
  class RedisClient {
    constructor () {}
  }

  class RedisNode {
    const url: string
    var client: RedisClient?
    var state: State
    var opsCount: nat
    var errorCount: nat

    /** A node starts failed and without a client. */
    constructor (url: string)
      ensures this.url == url && View() == NodeView(Failed, false, 0, 0)
    {
      this.url := url;
      client, state, opsCount, errorCount := null, Failed, 0, 0;
    }

    function View(): NodeView
      reads this
    {
      NodeView(state, client != null, opsCount, errorCount)
    }

    method ConnectTo(r: ConnectResult)
      modifies this
      ensures View() == AfterConnect(old(View()), r)
    {
      match r {
        case BadUrl => state := Failed;
        case PingFails =>
          state := Failed;
          errorCount := errorCount + 1;
        case Connected =>
          client := new RedisClient();
          state := Healthy;
      }
    }

    method CheckHealth(cfg: Config, c: Check)
      modifies this
      ensures View() == AfterCheck(old(View()), cfg, c)
    {
      if c.TooSoon? { return; }
      if client == null {
        ConnectTo(c.connect);
        return;
      }
      if !c.pingOk {
        errorCount := errorCount + 1;
        if state == Healthy { state := Failed; }
        client := null;
        ConnectTo(c.connect);
        return;
      }
      match state {
        case Degraded =>
          if c.elapsed > cfg.breakerTimeout {
            errorCount := 0;
            state := Healthy;
          }
        case Failed =>
          state := Healthy;
          errorCount := 0;
        case Healthy =>
      }
    }

    method CheckDegradation(cfg: Config)
      modifies this`state
      ensures View() == NodeNext(old(View()), cfg, Degrade)
    {
      if errorCount >= cfg.threshold {
        if state == Healthy { state := Degraded; }
      }
    }

    /** Any one step another goroutine may take on this node. */
    method Take(cfg: Config, step: NodeStep)
      modifies this
      ensures View() == NodeNext(old(View()), cfg, step)
    {
      match step {
        case Succeeded => opsCount := opsCount + 1;
        case CountError => errorCount := errorCount + 1;
        case Degrade => CheckDegradation(cfg);
        case HealthCheck(check) => CheckHealth(cfg, check);
        case Reconnect(connect) => ConnectTo(connect);
        case MarkFailed => state := Failed;
      }
    }
  }

  class ClusterAdapter {
    const nodes: seq<RedisNode>
    const cfg: Config
    var nodeIndex: nat

    constructor (nodes: seq<RedisNode>, cfg: Config)
      requires forall i, j :: 0 <= i < j < |nodes| ==> nodes[i] != nodes[j]
      ensures this.nodes == nodes && this.cfg == cfg && nodeIndex == 0 && Valid()
    {
      this.nodes, this.cfg, nodeIndex := nodes, cfg, 0;
    }

    predicate Valid() {
      forall i, j :: 0 <= i < j < |nodes| ==> nodes[i] != nodes[j]
    }

    function Views(): (vs: seq<NodeView>)
      reads nodes
      ensures |vs| == |nodes| && forall i :: 0 <= i < |nodes| ==> vs[i] == nodes[i].View()
    {
      seq(|nodes|, i requires 0 <= i < |nodes| reads nodes => nodes[i].View())
    }

    function State(): Cluster
      reads this, nodes
    {
      Cluster(Views(), nodeIndex)
    }

    /** One step on one node changes that node's view and no other. */
    method TakeAt(i: nat, step: NodeStep)
      requires Valid() && i < |nodes|
      modifies nodes
      ensures State() == Apply(old(State()), cfg, At(i, step))
    {
      ghost var before := Views();
      nodes[i].Take(cfg, step);
      assert forall k :: 0 <= k < |nodes| && k != i ==> nodes[k] != nodes[i];
      assert Views() == before[i := NodeNext(before[i], cfg, step)];
    }

    /** What other goroutines do before this one goes on. */
    method Meanwhile(os: seq<Outside>)
      requires Valid()
      modifies this, nodes
      ensures State() == ApplyAll(old(State()), cfg, os)
    {
      hide NodeNext;
      for k := 0 to |os|
        invariant State() == ApplyAll(old(State()), cfg, os[..k])
      {
        assert os[..k + 1][..k] == os[..k];
        match os[k] {
          case OtherTicket => nodeIndex := nodeIndex + 1;
          case At(i, step) =>
            if i < |nodes| { TakeAt(i, step); }
        }
      }
      assert os[..|os|] == os;
    }

    method GetHealthyNodes() returns (healthy: seq<nat>)
      ensures healthy == HealthyNodes(Views())
    {
      healthy := [];
      ghost var vs := Views();
      for i := 0 to |nodes|
        invariant healthy == HealthyNodes(vs[..i])
      {
        assert vs[..i + 1][..i] == vs[..i];
        if nodes[i].state == Healthy && nodes[i].client != null { healthy := healthy + [i]; }
      }
      assert vs[..|nodes|] == vs;
    }

    method SelectNode(key: Option<nat>, drawn: nat) returns (node: Option<nat>)
      modifies this`nodeIndex
      ensures (State(), node) == Select(old(State()), cfg, key, drawn)
    {
      hide HealthyNodes;
      ghost var before := Views();
      var healthy := GetHealthyNodes();
      if |healthy| == 0 { return None; }
      if cfg.strategy == Random { return Some(healthy[drawn % |healthy|]); }
      if cfg.strategy == Hash && key.Some? { return Some(healthy[key.value % |healthy|]); }
      nodeIndex := nodeIndex + 1;
      assert Views() == before;
      return Some(healthy[nodeIndex % |healthy|]);
    }

    /** Manually fail the first node with this URL. */
    method MarkNodeFailed(url: string)
      requires Valid()
      modifies nodes
      ensures (forall i :: 0 <= i < |nodes| ==> nodes[i].url != url) ==> State() == old(State())
      ensures forall i: nat ::
                (i < |nodes| && nodes[i].url == url && forall k :: 0 <= k < i ==> nodes[k].url != url) ==>
                  State() == Apply(old(State()), cfg, At(i, MarkFailed))
    {
      for i := 0 to |nodes|
        invariant State() == old(State())
        invariant forall k :: 0 <= k < i ==> nodes[k].url != url
      {
        if nodes[i].url == url {
          TakeAt(i, MarkFailed);
          return;
        }
      }
    }

    lemma Seen()
      ensures |State().views| == |nodes|
      ensures forall i :: 0 <= i < |nodes| ==> (State().views[i].hasClient <==> nodes[i].client != null)
    {
    }

    /** The error path of an attempt. */
    method Fail(i: nat)
      requires Valid() && i < |nodes|
      modifies nodes
      ensures State() == AfterError(old(State()), cfg, i)
    {
      hide NodeNext;
      TakeAt(i, CountError);
      TakeAt(i, Degrade);
    }

    /** The wait after a failed attempt, if there is another one. */
    method BackOff(attempt: nat, r: Round) returns (result: Option<Result>)
      ensures result == AfterFailure(cfg, attempt, r)
    {
      if attempt < cfg.maxRetries {
        var wait := Backoff.CalculateBackoff(attempt, cfg.backoffBase, cfg.backoffMax, r.jitter);
        if wait.None? { return Some(Panicked); }
        if r.done { return Some(Cancelled); }
      }
      return None;
    }

    /** One attempt: `attempted` are the nodes tried so far. */
    method Attempt(key: Option<nat>, r: Round, attempt: nat, attempted: set<RedisNode>, ghost e: Exec)
      returns (result: Option<Result>, attempted': set<RedisNode>, ghost e': Exec)
      requires Valid() && e.cluster == State()
      requires forall i :: 0 <= i < |nodes| ==> (nodes[i] in attempted <==> i in e.attempts)
      modifies this, nodes
      ensures (e', result) == OneRound(e, cfg, key, r, attempt) && e'.cluster == State()
      ensures forall i :: 0 <= i < |nodes| ==> (nodes[i] in attempted' <==> i in e'.attempts)
    {
      hide NodeNext, HealthyNodes, Select, ApplyAll, Apply, AfterError, AfterFailure, State;
      attempted' := attempted;
      Meanwhile(r.before);
      var node := SelectNode(key, r.drawn);
      if node.None? { return Some(NoHealthyNodes), attempted', e.(cluster := State()); }
      var i := node.value;
      Seen();
      if nodes[i] in attempted { return None, attempted', e.(cluster := State()); }
      attempted' := attempted + {nodes[i]};
      Meanwhile(r.between);
      Seen();
      var called := nodes[i].client != null;
      ghost var tried, runs := e.attempts + [i], if called then e.runs + 1 else e.runs;
      if called && r.reply == Ok {
        TakeAt(i, Succeeded);
        return Some(Success), attempted', Exec(State(), tried, runs);
      }
      if called && r.reply == Nil { return Some(CacheMiss), attempted', Exec(State(), tried, runs); }
      Fail(i);
      result := BackOff(attempt, r);
      return result, attempted', Exec(State(), tried, runs);
    }

    /** The whole call does what `Rounds` says, and so keeps what is proved of it. */
    method ExecuteWithRetry(key: Option<nat>, rounds: nat -> Round) returns (result: Result, ghost e: Exec)
      requires Valid()
      modifies this, nodes
      ensures (e, result) == Rounds(Start(old(State())), cfg, key, rounds, 0) && e.cluster == State()
    {
      hide OneRound, State;
      e := Start(State());
      var attempted := {};
      for attempt := 0 to Attempts(cfg)
        invariant e.cluster == State()
        invariant forall i :: 0 <= i < |nodes| ==> (nodes[i] in attempted <==> i in e.attempts)
        invariant Rounds(Start(old(State())), cfg, key, rounds, 0) == Rounds(e, cfg, key, rounds, attempt)
      {
        var r;
        r, attempted, e := Attempt(key, rounds(attempt), attempt, attempted, e);
        if r.Some? { return r.value, e; }
      }
      return Exhausted, e;
    }
  }
}
