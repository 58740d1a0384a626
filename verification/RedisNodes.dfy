// Redis nodes as values: the state each step leaves them in, and what one call
// of ExecuteWithRetry does to the cluster, round by round.
module RedisNodes {
  import opened Wrappers
  import opened Balancing
  import Backoff
  import Clock

  datatype State = Healthy | Degraded | Failed

  datatype NodeView = NodeView(state: State, hasClient: bool, ops: nat, errors: nat)

  datatype ConnectResult = BadUrl | PingFails | Connected

  /** `checkNodeHealth`: `elapsed` is what the clock says since the check began. */
  datatype Check = TooSoon | Due(pingOk: bool, elapsed: int, connect: ConnectResult)

  datatype Strategy = RoundRobin | Random | Hash

  /** `backoffBase` and `backoffMax` are the bounds of the wait between attempts. */
  datatype Config = Config(maxRetries: int, threshold: int, breakerTimeout: int, strategy: Strategy,
                           backoffBase: int, backoffMax: int)

  // ----- one node -----

  datatype NodeStep =
    | Succeeded
    | CountError
    | Degrade
    | HealthCheck(check: Check)
    | Reconnect(connect: ConnectResult)
    | MarkFailed

  function AfterConnect(v: NodeView, r: ConnectResult): NodeView {
    match r
    case BadUrl => v.(state := Failed)
    case PingFails => v.(state := Failed, errors := v.errors + 1)
    case Connected => v.(state := Healthy, hasClient := true)
  }

  function AfterCheck(v: NodeView, cfg: Config, c: Check): NodeView {
    match c
    case TooSoon => v
    case Due(pingOk, elapsed, connect) =>
      if !v.hasClient then AfterConnect(v, connect)
      else if !pingOk then
        AfterConnect(NodeView(if v.state == Healthy then Failed else v.state, false, v.ops, v.errors + 1), connect)
      else match v.state
        case Degraded => if elapsed > cfg.breakerTimeout then v.(errors := 0, state := Healthy) else v
        case Failed => v.(errors := 0, state := Healthy)
        case Healthy => v
  }

  function NodeNext(v: NodeView, cfg: Config, step: NodeStep): NodeView {
    match step
    case Succeeded => v.(ops := v.ops + 1)
    case CountError => v.(errors := v.errors + 1)
    case Degrade => if v.errors >= cfg.threshold && v.state == Healthy then v.(state := Degraded) else v
    case HealthCheck(check) => AfterCheck(v, cfg, check)
    case Reconnect(connect) => AfterConnect(v, connect)
    case MarkFailed => v.(state := Failed)
  }

  predicate Sound(v: NodeView, cfg: Config) {
    && (v.state == Healthy ==> v.hasClient)
    && (v.state == Degraded ==> v.errors >= cfg.threshold)
  }

  predicate AllSound(vs: seq<NodeView>, cfg: Config) {
    forall i :: 0 <= i < |vs| ==> Sound(vs[i], cfg)
  }

  // ----- the cluster -----

  datatype Cluster = Cluster(views: seq<NodeView>, index: nat)

  /** What other goroutines do meanwhile: a step of some node, or a ticket drawn. */
  datatype Outside = At(i: nat, step: NodeStep) | OtherTicket

  function Apply(c: Cluster, cfg: Config, o: Outside): (r: Cluster)
    ensures |r.views| == |c.views|
  {
    match o
    case OtherTicket => c.(index := c.index + 1)
    case At(i, step) => if i >= |c.views| then c else c.(views := c.views[i := NodeNext(c.views[i], cfg, step)])
  }

  function ApplyAll(c: Cluster, cfg: Config, os: seq<Outside>): (r: Cluster)
    ensures |r.views| == |c.views|
  {
    if os == [] then c else Apply(ApplyAll(c, cfg, os[..|os| - 1]), cfg, os[|os| - 1])
  }

  predicate Usable(v: NodeView) { v.state == Healthy && v.hasClient }

  /** `getHealthyNodes`, in configuration order. */
  function HealthyNodes(vs: seq<NodeView>): (h: seq<nat>)
    ensures forall k :: 0 <= k < |h| ==> h[k] < |vs| && vs[h[k]].state == Healthy && vs[h[k]].hasClient
    ensures forall i :: 0 <= i < |vs| && vs[i].state == Healthy && vs[i].hasClient ==> i in h
    ensures forall k, l :: 0 <= k < l < |h| ==> h[k] < h[l]
  {
    if vs == [] then []
    else
      var last := |vs| - 1;
      HealthyNodes(vs[..last]) + if Usable(vs[last]) then [last] else []
  }

  /** `selectNode`; `key` is the hash of the key, if one is given. */
  function Select(c: Cluster, cfg: Config, key: Option<nat>, drawn: nat): (r: (Cluster, Option<nat>))
    ensures r.0.views == c.views
    ensures r.1.Some? <==> HealthyNodes(c.views) != []
    ensures r.1.Some? ==> r.1.value < |c.views| && c.views[r.1.value].state == Healthy && c.views[r.1.value].hasClient
  {
    var h := HealthyNodes(c.views);
    if h == [] then (c, None)
    else if cfg.strategy == Random then (c, Some(h[drawn % |h|]))
    else if cfg.strategy == Hash && key.Some? then (c, Some(h[key.value % |h|]))
    else (c.(index := c.index + 1), Some(h[(c.index + 1) % |h|]))
  }

  /** With hashing a key stays with its node as long as the usable nodes are the
      same, whatever tickets and draws there were; like a random draw it takes no ticket. */
  lemma KeyAffinity(c: Cluster, d: Cluster, cfg: Config, key: Option<nat>, drawn: nat, drawn': nat)
    requires HealthyNodes(c.views) == HealthyNodes(d.views)
    ensures cfg.strategy == Hash && key.Some? ==>
              Select(c, cfg, key, drawn).1 == Select(d, cfg, key, drawn').1 && Select(c, cfg, key, drawn).0 == c
    ensures cfg.strategy == Random ==> Select(c, cfg, key, drawn).0 == c
  {
    hide HealthyNodes;
  }

  /** Any usable node may be drawn, and any is the node of some key. */
  lemma AnyNodePicked(c: Cluster, cfg: Config, i: nat, key: Option<nat>, drawn: nat) returns (k: nat)
    requires i < |c.views| && Usable(c.views[i])
    ensures cfg.strategy == Random ==> Select(c, cfg, key, k).1 == Some(i)
    ensures cfg.strategy == Hash ==> Select(c, cfg, Some(k), drawn).1 == Some(i)
  {
    hide HealthyNodes;
    var h := HealthyNodes(c.views);
    k :| 0 <= k < |h| && h[k] == i;
    Small(k, |h|);
  }

  /** One selection for each draw, no node changing; the nodes picked, in order. */
  function Selections(c: Cluster, cfg: Config, key: Option<nat>, draws: seq<nat>): (r: (Cluster, seq<nat>))
    requires HealthyNodes(c.views) != []
    ensures r.0.views == c.views && |r.1| == |draws|
  {
    if draws == [] then (c, [])
    else
      var (d, picks) := Selections(c, cfg, key, draws[..|draws| - 1]);
      var (e, node) := Select(d, cfg, key, draws[|draws| - 1]);
      (e, picks + [node.value])
  }

  lemma {:induction false} SelectionsByTicket(c: Cluster, cfg: Config, key: Option<nat>, draws: seq<nat>, i: nat)
    requires UsesTickets(cfg, key) && HealthyNodes(c.views) != []
    ensures var (d, picks) := Selections(c, cfg, key, draws);
            && d.index == c.index + |draws|
            && multiset(picks)[i] == TurnsOf(HealthyNodes(c.views), c.index, |draws|, i)
  {
    hide HealthyNodes, Select, TurnsOf;
    var h := HealthyNodes(c.views);
    NoTurnYet(h, c.index, i);
    if draws != [] {
      var last := |draws| - 1;
      SelectionsByTicket(c, cfg, key, draws[..last], i);
      var (d, picks) := Selections(c, cfg, key, draws[..last]);
      SelectTicket(d, cfg, key, draws[last]);
      OneMorePick(h, c.index, picks, i);
      assert d.index + 1 == c.index + |picks| + 1;
    }
  }

  /** While no node changes, m selections by ticket pick each of the n usable
      nodes floor(m/n) or ceil(m/n) times, and no other. */
  lemma SelectionsFair(c: Cluster, cfg: Config, key: Option<nat>, draws: seq<nat>, i: nat)
    requires UsesTickets(cfg, key) && HealthyNodes(c.views) != [] && i < |c.views|
    ensures var picked := multiset(Selections(c, cfg, key, draws).1)[i];
            var n, m := |HealthyNodes(c.views)|, |draws|;
            if Usable(c.views[i]) then m / n <= picked <= Ceil(m, n) else picked == 0
  {
    hide HealthyNodes, Selections, TurnsOf, UsesTickets;
    SelectionsByTicket(c, cfg, key, draws, i);
    NodesFair(HealthyNodes(c.views), c.index, |draws|, i);
  }

  // ----- ExecuteWithRetry -----

  datatype Reply = Ok | Nil | Err

  /** The surroundings of one attempt: other goroutines before the selection
      and between selection and call, the random draw, what the operation
      answers, the draw for the backoff, and whether ctx is done during it. */
  datatype Round = Round(before: seq<Outside>, drawn: nat, between: seq<Outside>, reply: Reply, jitter: nat, done: bool)

  /** The backoff draw panics when its bound is not positive. */
  datatype Result = Success | CacheMiss | NoHealthyNodes | Cancelled | Panicked | Exhausted

  /** `attempts` are the nodes tried, in order; `runs` counts calls of the operation. */
  datatype Exec = Exec(cluster: Cluster, attempts: seq<nat>, runs: nat)

  /** The error path of one attempt on node `i`. */
  function AfterError(c: Cluster, cfg: Config, i: nat): Cluster {
    Apply(Apply(c, cfg, At(i, CountError)), cfg, At(i, Degrade))
  }

  /** One attempt and MaxRetries more. */
  function Attempts(cfg: Config): nat { if cfg.maxRetries < 0 then 0 else cfg.maxRetries + 1 }

  /** Whether the backoff after this attempt gets a wait. */
  predicate HasWait(cfg: Config, attempt: nat, r: Round) {
    Backoff.CalculateBackoff(attempt, cfg.backoffBase, cfg.backoffMax, r.jitter).Some?
  }

  /** How a failed attempt goes on: there is no backoff after the last one. */
  function AfterFailure(cfg: Config, attempt: nat, r: Round): Option<Result> {
    if attempt >= cfg.maxRetries then None
    else if !HasWait(cfg, attempt, r) then Some(Panicked)
    else if r.done then Some(Cancelled)
    else None
  }

  function OneRound(e: Exec, cfg: Config, key: Option<nat>, r: Round, attempt: nat): (Exec, Option<Result>) {
    var (c, node) := Select(ApplyAll(e.cluster, cfg, r.before), cfg, key, r.drawn);
    if node.None? then (e.(cluster := c), Some(NoHealthyNodes))
    else if node.value in e.attempts then (e.(cluster := c), None)
    else
      var i := node.value;
      var d := ApplyAll(c, cfg, r.between);
      var tried := e.attempts + [i];
      var called := d.views[i].hasClient;
      var runs := if called then e.runs + 1 else e.runs;
      if called && r.reply == Ok then (Exec(Apply(d, cfg, At(i, Succeeded)), tried, runs), Some(Success))
      else if called && r.reply == Nil then (Exec(d, tried, runs), Some(CacheMiss))
      else (Exec(AfterError(d, cfg, i), tried, runs), AfterFailure(cfg, attempt, r))
  }

  /** The loop from attempt `k` on; `rounds(k)` is what surrounds that attempt. */
  function Rounds(e: Exec, cfg: Config, key: Option<nat>, rounds: nat -> Round, k: nat): (Exec, Result)
    decreases Attempts(cfg) - k
  {
    if k >= Attempts(cfg) then (e, Exhausted)
    else
      var (n, result) := OneRound(e, cfg, key, rounds(k), k);
      if result.Some? then (n, result.value) else Rounds(n, cfg, key, rounds, k + 1)
  }

  function Start(c: Cluster): Exec { Exec(c, [], 0) }

  // ----- node invariant -----

  lemma StepKeepsSound(v: NodeView, cfg: Config, step: NodeStep)
    requires Sound(v, cfg)
    ensures Sound(NodeNext(v, cfg, step), cfg)
  {
  }

  /** Whatever other goroutines do, in any number and order, a healthy node has
      a client and a degraded one reached the error threshold. */
  lemma {:induction false} OutsideKeepsSound(c: Cluster, cfg: Config, os: seq<Outside>)
    requires AllSound(c.views, cfg)
    ensures AllSound(ApplyAll(c, cfg, os).views, cfg)
  {
    hide NodeNext, Sound;
    if os != [] {
      OutsideKeepsSound(c, cfg, os[..|os| - 1]);
      var d, o := ApplyAll(c, cfg, os[..|os| - 1]), os[|os| - 1];
      if o.At? && o.i < |d.views| { StepKeepsSound(d.views[o.i], cfg, o.step); }
    }
  }

  lemma ApplyKeepsSound(c: Cluster, cfg: Config, o: Outside)
    requires AllSound(c.views, cfg)
    ensures AllSound(Apply(c, cfg, o).views, cfg)
  {
    hide NodeNext, Sound;
    if o.At? && o.i < |c.views| { StepKeepsSound(c.views[o.i], cfg, o.step); }
  }

  lemma RoundKeepsSound(e: Exec, cfg: Config, key: Option<nat>, r: Round, attempt: nat)
    requires AllSound(e.cluster.views, cfg)
    ensures AllSound(OneRound(e, cfg, key, r, attempt).0.cluster.views, cfg)
    ensures |OneRound(e, cfg, key, r, attempt).0.cluster.views| == |e.cluster.views|
  {
    hide AllSound, Apply;
    OutsideKeepsSound(e.cluster, cfg, r.before);
    var (c, node) := Select(ApplyAll(e.cluster, cfg, r.before), cfg, key, r.drawn);
    OutsideKeepsSound(c, cfg, r.between);
    if node.Some? {
      var d := ApplyAll(c, cfg, r.between);
      ApplyKeepsSound(d, cfg, At(node.value, Succeeded));
      ApplyKeepsSound(d, cfg, At(node.value, CountError));
      ApplyKeepsSound(Apply(d, cfg, At(node.value, CountError)), cfg, At(node.value, Degrade));
    }
  }

  lemma {:induction false} ExecuteKeepsSound(e: Exec, cfg: Config, key: Option<nat>, rounds: nat -> Round, k: nat)
    requires AllSound(e.cluster.views, cfg)
    ensures AllSound(Rounds(e, cfg, key, rounds, k).0.cluster.views, cfg)
    ensures |Rounds(e, cfg, key, rounds, k).0.cluster.views| == |e.cluster.views|
    decreases Attempts(cfg) - k
  {
    hide AllSound, OneRound;
    if k < Attempts(cfg) {
      RoundKeepsSound(e, cfg, key, rounds(k), k);
      var (n, result) := OneRound(e, cfg, key, rounds(k), k);
      if result.None? { ExecuteKeepsSound(n, cfg, key, rounds, k + 1); }
    }
  }

  /** Counters only grow, but for one case: a node that answers a health check
      after failing starts again healthy with no errors. */
  lemma CountersOnlyGrow(v: NodeView, cfg: Config, step: NodeStep)
    ensures var w := NodeNext(v, cfg, step);
            && w.ops >= v.ops
            && (w.errors < v.errors ==> step.HealthCheck? && v.state != Healthy && w.state == Healthy && w.errors == 0)
            && (v.state == Failed && w.state == Healthy && step.HealthCheck? && v.hasClient && step.check.pingOk ==>
                  w.errors == 0)
  {
  }

  /** After a due check whose ping fails, a node with a client is usable exactly
      when reconnecting succeeded; if not it is failed and without a client. The
      ping counts as an error, and so does a failing ping of the reconnect. */
  lemma FailedPing(v: NodeView, cfg: Config, elapsed: int, connect: ConnectResult)
    requires v.hasClient
    ensures var w := NodeNext(v, cfg, HealthCheck(Due(false, elapsed, connect)));
            && (w.state == Healthy && w.hasClient <==> connect == Connected)
            && (connect != Connected ==> w.state == Failed && !w.hasClient)
            && w.errors == v.errors + (if connect == PingFails then 2 else 1) && w.ops == v.ops
  {
  }

  /** A due check of a node without a client reconnects; so does `Reconnect`. A
      node is usable afterwards exactly when that succeeded, else it is failed. */
  lemma Connecting(v: NodeView, cfg: Config, step: NodeStep, connect: ConnectResult)
    requires step == Reconnect(connect)
          || (!v.hasClient && step.HealthCheck? && step.check.Due? && step.check.connect == connect)
    ensures var w := NodeNext(v, cfg, step);
            && (connect == Connected ==> w.state == Healthy && w.hasClient && w.errors == v.errors)
            && (connect != Connected ==> w.state == Failed && w.hasClient == v.hasClient
                                         && w.errors == v.errors + if connect == PingFails then 1 else 0)
            && w.ops == v.ops
  {
  }

  /** An answered ping brings a failed node with a client back with no errors,
      leaves a healthy one alone, and a check that is not due does nothing. */
  lemma AnsweredPing(v: NodeView, cfg: Config, elapsed: int, connect: ConnectResult)
    ensures v.hasClient && v.state == Failed ==>
              NodeNext(v, cfg, HealthCheck(Due(true, elapsed, connect))) == NodeView(Healthy, true, v.ops, 0)
    ensures v.hasClient && v.state == Healthy ==> NodeNext(v, cfg, HealthCheck(Due(true, elapsed, connect))) == v
    ensures NodeNext(v, cfg, HealthCheck(TooSoon)) == v
    ensures NodeNext(v, cfg, MarkFailed) == NodeView(Failed, v.hasClient, v.ops, v.errors)
  {
  }

  /** The server of a node answers nothing: neither a ping nor a connection. */
  predicate Dead(step: NodeStep) {
    match step
    case HealthCheck(check) => check.Due? ==> !check.pingOk && check.connect != Connected
    case Reconnect(connect) => connect != Connected
    case _ => true
  }

  /** Once checked, a node whose server is dead is never picked again, whatever
      else happens to the cluster, until the server answers. */
  lemma {:induction false} DeadNodeNotSelected(c: Cluster, cfg: Config, os: seq<Outside>, i: nat,
                                              key: Option<nat>, drawn: nat)
    requires i < |c.views|
    requires forall o :: o in os && o.At? && o.i == i ==> Dead(o.step)
    requires exists o :: o in os && o.At? && o.i == i && o.step.HealthCheck? && o.step.check.Due?
    ensures Select(ApplyAll(c, cfg, os), cfg, key, drawn).1 != Some(i)
  {
    hide NodeNext, HealthyNodes, Dead;
    DeadNodeUnusable(c, cfg, os, i);
  }

  lemma {:induction false} DeadNodeUnusable(c: Cluster, cfg: Config, os: seq<Outside>, i: nat)
    requires i < |c.views|
    requires forall o :: o in os && o.At? && o.i == i ==> Dead(o.step)
    ensures (exists o :: o in os && o.At? && o.i == i && o.step.HealthCheck? && o.step.check.Due?) ==>
              !Usable(ApplyAll(c, cfg, os).views[i])
    ensures !Usable(c.views[i]) ==> !Usable(ApplyAll(c, cfg, os).views[i])
  {
    if os != [] {
      var n := |os| - 1;
      assert os == os[..n] + [os[n]];
      DeadNodeUnusable(c, cfg, os[..n], i);
      var d := ApplyAll(c, cfg, os[..n]);
      assert os[n] in os;
      if os[n].At? && os[n].i == i { DeadStep(d.views[i], cfg, os[n].step); }
      hide NodeNext, Usable, Dead;
    }
  }

  lemma DeadStep(v: NodeView, cfg: Config, step: NodeStep)
    requires Dead(step)
    ensures !Usable(v) || (step.HealthCheck? && step.check.Due?) ==> !Usable(NodeNext(v, cfg, step))
  {
  }

  /** A node that fails an operation gets one error more, and if it was healthy it
      is degraded exactly when its errors then reach the threshold. */
  lemma ErrorDegrades(c: Cluster, cfg: Config, i: nat)
    requires i < |c.views|
    ensures var v, w := c.views[i], AfterError(c, cfg, i).views[i];
            && w.errors == v.errors + 1 && w.hasClient == v.hasClient && w.ops == v.ops
            && w.state == if v.state == Healthy && v.errors + 1 >= cfg.threshold then Degraded else v.state
    ensures forall j :: 0 <= j < |c.views| && j != i ==> AfterError(c, cfg, i).views[j] == c.views[j]
  {
  }

  /** A degraded node with a client comes back through an answered ping exactly
      when the ping took longer than the breaker timeout: the branch meant for
      it measures from the time the same check has just set. */
  lemma AnswerRecovers(v: NodeView, cfg: Config, elapsed: int, connect: ConnectResult)
    requires v.state == Degraded && v.hasClient
    ensures AfterCheck(v, cfg, Due(true, elapsed, connect)).state == Healthy <==> elapsed > cfg.breakerTimeout
    ensures elapsed > cfg.breakerTimeout ==>
              AfterCheck(v, cfg, Due(true, elapsed, connect)) == NodeView(Healthy, true, v.ops, 0)
    ensures elapsed <= cfg.breakerTimeout ==> AfterCheck(v, cfg, Due(true, elapsed, connect)) == v
  {
  }

  /** What a node goes through while its server answers every ping, at any latency. */
  predicate Answering(step: NodeStep) {
    match step
    case HealthCheck(check) => check.TooSoon? || check.pingOk
    case Reconnect(_) => false
    case MarkFailed => false
    case _ => true
  }

  /** A check whose answered ping outlasts the breaker timeout. */
  predicate Late(cfg: Config, step: NodeStep) {
    step.HealthCheck? && step.check.Due? && step.check.pingOk && step.check.elapsed > cfg.breakerTimeout
  }

  function NodeRun(v: NodeView, cfg: Config, steps: seq<NodeStep>): NodeView {
    if steps == [] then v else NodeNext(NodeRun(v, cfg, steps[..|steps| - 1]), cfg, steps[|steps| - 1])
  }

  /** While no ping outlasts the timeout, answers never bring the node back. */
  lemma {:induction false} PromptAnswersKeepDegraded(v: NodeView, cfg: Config, steps: seq<NodeStep>)
    requires v.state == Degraded && v.hasClient
    requires forall s :: s in steps ==> Answering(s) && !Late(cfg, s)
    ensures NodeRun(v, cfg, steps).state == Degraded && NodeRun(v, cfg, steps).hasClient
    ensures NodeRun(v, cfg, steps).errors >= v.errors
  {
    if steps != [] {
      var n := |steps| - 1;
      PromptAnswersKeepDegraded(v, cfg, steps[..n]);
      assert steps[n] in steps;
    }
  }

  /** Over any run in which every ping is answered, a degraded node is healthy
      again at some point exactly when some ping outlasted the breaker timeout. */
  lemma {:induction false} DegradedRecovers(v: NodeView, cfg: Config, steps: seq<NodeStep>)
    requires v.state == Degraded && v.hasClient
    requires forall s :: s in steps ==> Answering(s)
    ensures (exists k: nat :: k <= |steps| && NodeRun(v, cfg, steps[..k]).state == Healthy)
       <==> exists k: nat :: k < |steps| && Late(cfg, steps[k])
  {
    if k: nat :| k < |steps| && Late(cfg, steps[k]) {
      var first := FirstLate(cfg, steps, k);
      PromptAnswersKeepDegraded(v, cfg, steps[..first]);
      assert steps[..first + 1][..first] == steps[..first];
      assert NodeRun(v, cfg, steps[..first + 1]).state == Healthy;
    } else {
      forall k: nat | k <= |steps|
        ensures NodeRun(v, cfg, steps[..k]).state == Degraded
      {
        PromptAnswersKeepDegraded(v, cfg, steps[..k]);
      }
    }
  }

  lemma {:induction false} FirstLate(cfg: Config, steps: seq<NodeStep>, k: nat) returns (first: nat)
    requires k < |steps| && Late(cfg, steps[k])
    ensures first <= k && Late(cfg, steps[first]) && forall j :: 0 <= j < first ==> !Late(cfg, steps[j])
  {
    if j: nat :| j < k && Late(cfg, steps[j]) { first := FirstLate(cfg, steps, j); } else { first := k; }
  }

  // ----- how often the operation runs -----

  ghost predicate DistinctBelow(xs: seq<nat>, n: nat) {
    && (forall k :: 0 <= k < |xs| ==> xs[k] < n)
    && (forall k, l :: 0 <= k < l < |xs| ==> xs[k] != xs[l])
  }

  lemma {:induction false} DistinctCount(xs: seq<nat>, n: nat)
    requires DistinctBelow(xs, n)
    ensures |xs| <= n
    decreases n
  {
    if xs != [] {
      assert xs[0] < n;
      if k :| 0 <= k < |xs| && xs[k] == n - 1 {
        var ys := xs[..k] + xs[k + 1..];
        assert forall j :: 0 <= j < |ys| ==> ys[j] == xs[if j < k then j else j + 1];
        assert forall j :: 0 <= j < |ys| ==> ys[j] != xs[k];
        DistinctCount(ys, n - 1);
      } else {
        DistinctCount(xs, n - 1);
      }
    }
  }

  /** Within one round at most one new node is tried, and the operation runs on
      it at most once; with nothing between selection and call, exactly once. */
  lemma RoundRuns(e: Exec, cfg: Config, key: Option<nat>, r: Round, attempt: nat)
    requires DistinctBelow(e.attempts, |e.cluster.views|)
    ensures var (n, result) := OneRound(e, cfg, key, r, attempt);
            && |n.cluster.views| == |e.cluster.views|
            && DistinctBelow(n.attempts, |n.cluster.views|)
            && |e.attempts| <= |n.attempts| <= |e.attempts| + 1
            && e.runs <= n.runs && n.runs - e.runs <= |n.attempts| - |e.attempts|
            && (r.between == [] ==> n.runs - e.runs == |n.attempts| - |e.attempts|)
  {
    hide NodeNext, HealthyNodes;
  }

  /** ExecuteWithRetry ends after at most MaxRetries + 1 rounds; whatever happens
      around it, it tries no node twice, so it runs the operation at most once
      per node and at most min(MaxRetries + 1, nodes) times. */
  lemma {:induction false} AtMostOncePerNode(e: Exec, cfg: Config, key: Option<nat>, rounds: nat -> Round, k: nat)
    requires DistinctBelow(e.attempts, |e.cluster.views|) && k <= Attempts(cfg)
    ensures var n := Rounds(e, cfg, key, rounds, k).0;
            && |n.cluster.views| == |e.cluster.views|
            && DistinctBelow(n.attempts, |n.cluster.views|)
            && |n.attempts| <= |e.attempts| + (if cfg.maxRetries < k then 0 else cfg.maxRetries + 1 - k)
            && n.runs - e.runs <= |n.attempts| - |e.attempts|
            && n.runs >= e.runs && |n.attempts| <= |n.cluster.views|
            && ((forall j :: rounds(j).between == []) ==> n.runs - e.runs == |n.attempts| - |e.attempts|)
    decreases Attempts(cfg) - k
  {
    hide OneRound;
    DistinctCount(e.attempts, |e.cluster.views|);
    if k < Attempts(cfg) {
      RoundRuns(e, cfg, key, rounds(k), k);
      var (n, result) := OneRound(e, cfg, key, rounds(k), k);
      DistinctCount(n.attempts, |n.cluster.views|);
      if result.None? { AtMostOncePerNode(n, cfg, key, rounds, k + 1); }
      hide DistinctBelow;
    }
  }

  // ----- conservation of the counters -----

  function Total(vs: seq<NodeView>): nat {
    if vs == [] then 0 else Total(vs[..|vs| - 1]) + vs[|vs| - 1].ops + vs[|vs| - 1].errors
  }

  lemma {:induction false} TotalUpdate(vs: seq<NodeView>, i: nat, v: NodeView)
    requires i < |vs|
    ensures Total(vs[i := v]) == Total(vs) - vs[i].ops - vs[i].errors + v.ops + v.errors
  {
    var last := |vs| - 1;
    if i == last {
      assert vs[i := v][..last] == vs[..last];
    } else {
      assert vs[i := v][..last] == vs[..last][i := v];
      TotalUpdate(vs[..last], i, v);
    }
  }

  predicate Alone(r: Round) { r.before == [] && r.between == [] }

  /** What other goroutines add to the counters around one attempt. */
  function RoundDrift(e: Exec, cfg: Config, key: Option<nat>, r: Round): int {
    var a := ApplyAll(e.cluster, cfg, r.before);
    var (c, node) := Select(a, cfg, key, r.drawn);
    Total(a.views) - Total(e.cluster.views)
    + if node.None? || node.value in e.attempts then 0 else Total(ApplyAll(c, cfg, r.between).views) - Total(c.views)
  }

  function Drift(e: Exec, cfg: Config, key: Option<nat>, rounds: nat -> Round, k: nat): int
    decreases Attempts(cfg) - k
  {
    if k >= Attempts(cfg) then 0
    else
      var (n, result) := OneRound(e, cfg, key, rounds(k), k);
      RoundDrift(e, cfg, key, rounds(k)) + if result.Some? then 0 else Drift(n, cfg, key, rounds, k + 1)
  }

  /** The attempts whose node lost its client before the call. */
  function Vanished(e: Exec, cfg: Config, key: Option<nat>, rounds: nat -> Round, k: nat): int
    decreases Attempts(cfg) - k
  {
    if k >= Attempts(cfg) then 0
    else
      var (n, result) := OneRound(e, cfg, key, rounds(k), k);
      var tried := |n.attempts| > |e.attempts| && n.runs == e.runs;
      (if tried then 1 else 0) + if result.Some? then 0 else Vanished(n, cfg, key, rounds, k + 1)
  }

  lemma IncrementTotal(c: Cluster, cfg: Config, i: nat)
    requires i < |c.views|
    ensures Total(Apply(c, cfg, At(i, Succeeded)).views) == Total(c.views) + 1
    ensures Total(AfterError(c, cfg, i).views) == Total(c.views) + 1
  {
    var v := c.views[i];
    TotalUpdate(c.views, i, NodeNext(v, cfg, Succeeded));
    TotalUpdate(c.views, i, NodeNext(v, cfg, CountError));
    var w := c.views[i := NodeNext(v, cfg, CountError)];
    TotalUpdate(w, i, NodeNext(w[i], cfg, Degrade));
  }

  lemma RoundConserves(e: Exec, cfg: Config, key: Option<nat>, r: Round, attempt: nat)
    ensures var (n, result) := OneRound(e, cfg, key, r, attempt);
            && Total(n.cluster.views) - Total(e.cluster.views) - RoundDrift(e, cfg, key, r)
               == |n.attempts| - |e.attempts| - (if result == Some(CacheMiss) then 1 else 0)
            && (Alone(r) ==> RoundDrift(e, cfg, key, r) == 0)
            && |e.attempts| <= |n.attempts| <= |e.attempts| + 1
            && e.runs <= n.runs && n.runs - e.runs <= |n.attempts| - |e.attempts|
            && (Alone(r) ==> n.runs - e.runs == |n.attempts| - |e.attempts|)
  {
    hide HealthyNodes, AfterError, Total, Apply;
    var (c, node) := Select(ApplyAll(e.cluster, cfg, r.before), cfg, key, r.drawn);
    if node.Some? { IncrementTotal(ApplyAll(c, cfg, r.between), cfg, node.value); }
  }

  /** Whatever other goroutines do meanwhile, every attempt of the call is
      counted exactly once, as a success or an error of its node, except a cache
      miss. So the runs of the operation are what the call adds to the counters,
      plus one for a cache miss, less the attempts that found the client gone;
      undisturbed there are none, and the counters move by the call alone. */
  lemma {:induction false} RunsAreCounted(e: Exec, cfg: Config, key: Option<nat>, rounds: nat -> Round, k: nat)
    ensures var (n, result) := Rounds(e, cfg, key, rounds, k);
            var added := Total(n.cluster.views) - Total(e.cluster.views) - Drift(e, cfg, key, rounds, k);
            n.runs - e.runs == added + (if result == CacheMiss then 1 else 0) - Vanished(e, cfg, key, rounds, k)
    ensures (forall j :: Alone(rounds(j))) ==>
              Drift(e, cfg, key, rounds, k) == 0 && Vanished(e, cfg, key, rounds, k) == 0
    decreases Attempts(cfg) - k
  {
    hide OneRound, RoundDrift, Total;
    if k < Attempts(cfg) {
      RoundConserves(e, cfg, key, rounds(k), k);
      var (n, result) := OneRound(e, cfg, key, rounds(k), k);
      if result.None? {
        RunsAreCounted(n, cfg, key, rounds, k + 1);
      }
    }
  }

  // ----- an all-failing call -----

  /** One more error degrades no healthy node that is still to be tried. */
  ghost predicate Steady(vs: seq<NodeView>, tried: seq<nat>, cfg: Config) {
    forall i: nat :: i < |vs| && Usable(vs[i]) && i !in tried ==> vs[i].errors + 1 < cfg.threshold
  }

  ghost predicate Failing(r: Round) { Alone(r) && r.reply == Err && !r.done }

  predicate UsesTickets(cfg: Config, key: Option<nat>) {
    cfg.strategy == RoundRobin || (cfg.strategy == Hash && key.None?)
  }

  /** The attempts of a failing call after k tickets from `first` on. */
  ghost predicate TriedSoFar(attempts: seq<nat>, h: seq<nat>, first: nat, k: nat)
    requires h != []
  {
    && |attempts| == (if k < |h| then k else |h|)
    && forall j :: 0 <= j < |attempts| ==> attempts[j] == h[(first + j) % |h|]
  }

  lemma {:induction false} SameHealthy(vs: seq<NodeView>, ws: seq<NodeView>)
    requires |vs| == |ws| && forall i :: 0 <= i < |vs| ==> Usable(vs[i]) == Usable(ws[i])
    ensures HealthyNodes(vs) == HealthyNodes(ws)
  {
    if vs != [] { SameHealthy(vs[..|vs| - 1], ws[..|vs| - 1]); }
  }

  /** A failing attempt on an untried node leaves the healthy set as it was. */
  lemma ErrorKeepsHealthy(c: Cluster, cfg: Config, i: nat, tried: seq<nat>)
    requires i < |c.views| && Usable(c.views[i]) && i !in tried && Steady(c.views, tried, cfg)
    ensures var d := AfterError(c, cfg, i);
            HealthyNodes(d.views) == HealthyNodes(c.views) && Steady(d.views, tried + [i], cfg) && d.index == c.index
  {
    var d := AfterError(c, cfg, i);
    assert d.views == c.views[i := c.views[i].(errors := c.views[i].errors + 1)];
    SameHealthy(c.views, d.views);
  }

  /** The k-th ticket lands on a node tried before exactly when all were tried. */
  lemma TicketIsNew(attempts: seq<nat>, h: seq<nat>, first: nat, k: nat)
    requires h != [] && TriedSoFar(attempts, h, first, k)
    requires forall a, b :: 0 <= a < b < |h| ==> h[a] != h[b]
    ensures h[(first + k) % |h|] in attempts <==> k >= |h|
  {
    var n := |h|;
    if k < n {
      forall j | 0 <= j < k
        ensures attempts[j] != h[(first + k) % n]
      {
        NodesDistinct(first + j, first + k, n);
      }
    } else {
      var j := TicketSeen(first, k, n);
      assert attempts[j] == h[(first + j) % n];
    }
  }

  lemma TicketSeen(first: nat, k: nat, n: nat) returns (j: nat)
    requires n > 0 && k >= n
    ensures j < n && (first + j) % n == (first + k) % n
  {
    j := k % n;
    var a := first + j;
    assert k == n * (k / n) + j;
    var q, s := a / n, a % n;
    assert a == n * q + s;
    assert first + k == n * (k / n) + n * q + s;
    assert n * (k / n + q) == n * (k / n) + n * q;
    DivUnique(first + k, n, k / n + q, s);
  }

  lemma SelectTicket(c: Cluster, cfg: Config, key: Option<nat>, drawn: nat)
    requires UsesTickets(cfg, key) && HealthyNodes(c.views) != []
    ensures var h := HealthyNodes(c.views);
            Select(c, cfg, key, drawn) == (c.(index := c.index + 1), Some(h[(c.index + 1) % |h|]))
    ensures Select(c, cfg, key, drawn).0 == Apply(c, cfg, OtherTicket)
  {
    hide HealthyNodes;
  }

  lemma TryNext(attempts: seq<nat>, h: seq<nat>, first: nat, k: nat)
    requires h != [] && TriedSoFar(attempts, h, first, k)
    ensures k < |h| ==> TriedSoFar(attempts + [h[(first + k) % |h|]], h, first, k + 1)
    ensures k >= |h| ==> TriedSoFar(attempts, h, first, k + 1)
  {
  }

  lemma FailingRound(e: Exec, cfg: Config, key: Option<nat>, r: Round, h: seq<nat>, first: nat, k: nat)
    requires UsesTickets(cfg, key) && h == HealthyNodes(e.cluster.views) && h != []
    requires Failing(r) && Steady(e.cluster.views, e.attempts, cfg)
    requires e.cluster.index + 1 == first + k && TriedSoFar(e.attempts, h, first, k)
    ensures var (n, result) := OneRound(e, cfg, key, r, k);
            && result == (if k < |h| && k < cfg.maxRetries && !HasWait(cfg, k, r) then Some(Panicked) else None)
            && HealthyNodes(n.cluster.views) == h && Steady(n.cluster.views, n.attempts, cfg)
            && n.cluster.index == first + k && TriedSoFar(n.attempts, h, first, k + 1)
  {
    hide HealthyNodes, Steady, Apply, AfterError, TriedSoFar, Select, UsesTickets, HasWait;
    SelectTicket(e.cluster, cfg, key, r.drawn);
    var c := e.cluster.(index := e.cluster.index + 1);
    var i := h[(first + k) % |h|];
    TicketIsNew(e.attempts, h, first, k);
    TryNext(e.attempts, h, first, k);
    if i !in e.attempts { ErrorKeepsHealthy(c, cfg, i, e.attempts); }
    assert ApplyAll(e.cluster, cfg, []) == e.cluster && ApplyAll(c, cfg, []) == c;
  }

  /** The first attempt from `k` on, below `limit`, whose backoff gets no wait. */
  function FirstPanic(cfg: Config, rounds: nat -> Round, k: nat, limit: nat): (p: nat)
    ensures if k >= limit then p == k else k <= p <= limit
    ensures p < limit ==> !HasWait(cfg, p, rounds(p))
    ensures forall j :: k <= j < p ==> HasWait(cfg, j, rounds(j))
    decreases limit - k
  {
    if k >= limit || !HasWait(cfg, k, rounds(k)) then k else FirstPanic(cfg, rounds, k + 1, limit)
  }

  /** The backoffs of a call that fails on every one of n healthy nodes. */
  function Backoffs(cfg: Config, n: nat): nat {
    if cfg.maxRetries < 0 then 0 else if n < cfg.maxRetries then n else cfg.maxRetries
  }

  lemma {:induction false} FailingRounds(e: Exec, cfg: Config, key: Option<nat>, rounds: nat -> Round,
                                         h: seq<nat>, first: nat, k: nat)
    requires UsesTickets(cfg, key) && h == HealthyNodes(e.cluster.views) && h != []
    requires (forall j :: Failing(rounds(j))) && k <= Attempts(cfg)
    requires Steady(e.cluster.views, e.attempts, cfg)
    requires e.cluster.index + 1 == first + k && TriedSoFar(e.attempts, h, first, k)
    ensures var (n, result) := Rounds(e, cfg, key, rounds, k);
            var p := FirstPanic(cfg, rounds, k, Backoffs(cfg, |h|));
            if p >= Backoffs(cfg, |h|) then result == Exhausted && TriedSoFar(n.attempts, h, first, Attempts(cfg))
            else result == Panicked && TriedSoFar(n.attempts, h, first, p + 1)
    decreases Attempts(cfg) - k
  {
    hide HealthyNodes, Steady, OneRound, TriedSoFar, HasWait;
    if k < Attempts(cfg) {
      FailingRound(e, cfg, key, rounds(k), h, first, k);
      var (n, result) := OneRound(e, cfg, key, rounds(k), k);
      if result.None? { FailingRounds(n, cfg, key, rounds, h, first, k + 1); }
    }
  }

  /** With ticket balancing and no other selector, and as long as one more error
      degrades no healthy node, a call whose operation always fails tries
      min(healthy nodes, MaxRetries + 1) distinct nodes if and only if every
      backoff on the way gets a wait; otherwise it panics in the first that does
      not, having tried one node more than there were backoffs before. */
  lemma FailingCallTriesAll(c: Cluster, cfg: Config, key: Option<nat>, rounds: nat -> Round)
    requires UsesTickets(cfg, key) && HealthyNodes(c.views) != [] && cfg.maxRetries >= 0
    requires forall j :: Failing(rounds(j))
    requires forall i: nat :: i < |c.views| && Usable(c.views[i]) ==> c.views[i].errors + 1 < cfg.threshold
    ensures var (n, result) := Rounds(Start(c), cfg, key, rounds, 0);
            var healthy, retries: nat := |HealthyNodes(c.views)|, cfg.maxRetries;
            && (result == Exhausted <==> forall j: nat :: j < healthy && j < retries ==> HasWait(cfg, j, rounds(j)))
            && (result == Exhausted ==> |n.attempts| == if healthy < retries + 1 then healthy else retries + 1)
            && (result != Exhausted ==> result == Panicked)
            && (result != Exhausted ==> |n.attempts| <= healthy && |n.attempts| <= retries)
            && (result != Exhausted ==> |n.attempts| >= 1 && FirstWithout(cfg, rounds, |n.attempts| - 1))
            && DistinctBelow(n.attempts, |c.views|) && n.runs == |n.attempts|
  {
    hide HealthyNodes, HasWait;
    AtMostOncePerNode(Start(c), cfg, key, rounds, 0);
    FailingRounds(Start(c), cfg, key, rounds, HealthyNodes(c.views), c.index + 1, 0);
    hide Rounds;
    var p := FirstPanic(cfg, rounds, 0, Backoffs(cfg, |HealthyNodes(c.views)|));
    if p < Backoffs(cfg, |HealthyNodes(c.views)|) { assert FirstWithout(cfg, rounds, p); }
  }

  /** The backoff after attempt `p` is the first that gets no wait. */
  ghost predicate FirstWithout(cfg: Config, rounds: nat -> Round, p: nat) {
    !HasWait(cfg, p, rounds(p)) && forall j: nat :: j < p ==> HasWait(cfg, j, rounds(j))
  }

  /** With the default base and cap that is so exactly up to 34 backoffs. */
  lemma FailingCallByDefault(c: Cluster, cfg: Config, key: Option<nat>, rounds: nat -> Round)
    requires UsesTickets(cfg, key) && HealthyNodes(c.views) != []
    requires forall j :: Failing(rounds(j))
    requires forall i: nat :: i < |c.views| && Usable(c.views[i]) ==> c.views[i].errors + 1 < cfg.threshold
    requires cfg.backoffBase == Clock.SECOND && cfg.backoffMax == 30 * Clock.SECOND
    requires cfg.maxRetries >= 0
    ensures var (n, result) := Rounds(Start(c), cfg, key, rounds, 0);
            var healthy := |HealthyNodes(c.views)|;
            && (result == Exhausted <==> healthy <= 34 || cfg.maxRetries <= 34)
            && (result != Exhausted ==> result == Panicked && |n.attempts| == 35)
  {
    hide HealthyNodes, Rounds, FirstWithout, HasWait, UsesTickets;
    FailingCallTriesAll(c, cfg, key, rounds);
    DefaultWaits(cfg, rounds);
    forall p | FirstWithout(cfg, rounds, p)
      ensures p == 34
    {
      FirstIsUnique(cfg, rounds, p, 34);
    }
  }

  lemma DefaultWaits(cfg: Config, rounds: nat -> Round)
    requires cfg.backoffBase == Clock.SECOND && cfg.backoffMax == 30 * Clock.SECOND
    ensures (forall j: nat :: j <= 33 ==> HasWait(cfg, j, rounds(j))) && !HasWait(cfg, 34, rounds(34))
    ensures FirstWithout(cfg, rounds, 34)
  {
    hide Backoff.CalculateBackoff;
    Backoff.DefaultsPanic(0, rounds(34).jitter);
    forall j: nat | j <= 33
      ensures HasWait(cfg, j, rounds(j))
    {
      Backoff.DefaultsPanic(j, rounds(j).jitter);
    }
  }

  lemma FirstIsUnique(cfg: Config, rounds: nat -> Round, p: nat, q: nat)
    requires FirstWithout(cfg, rounds, p) && FirstWithout(cfg, rounds, q)
    ensures p == q
  {
    hide HasWait;
  }

  // ----- how a call ends -----

  /** The state in which attempt `k` of the call begins, or None when it ended before. */
  function Before(c: Cluster, cfg: Config, key: Option<nat>, rounds: nat -> Round, k: nat): Option<Exec> {
    if k == 0 then Some(Start(c))
    else match Before(c, cfg, key, rounds, k - 1)
      case None => None
      case Some(e) =>
        var (n, result) := OneRound(e, cfg, key, rounds(k - 1), k - 1);
        if result.Some? then None else Some(n)
  }

  /** The call ends in attempt `k` with this result. */
  ghost predicate EndsAt(c: Cluster, cfg: Config, key: Option<nat>, rounds: nat -> Round, k: nat, result: Result) {
    var e := Before(c, cfg, key, rounds, k);
    e.Some? && OneRound(e.value, cfg, key, rounds(k), k).1 == Some(result)
  }

  lemma {:induction false} RoundsFrom(c: Cluster, cfg: Config, key: Option<nat>, rounds: nat -> Round, k: nat)
    requires Before(c, cfg, key, rounds, k).Some?
    ensures Rounds(Start(c), cfg, key, rounds, 0) == Rounds(Before(c, cfg, key, rounds, k).value, cfg, key, rounds, k)
         || k > Attempts(cfg)
  {
    hide OneRound;
    if k > 0 { RoundsFrom(c, cfg, key, rounds, k - 1); }
  }

  lemma RoundNotExhausted(e: Exec, cfg: Config, key: Option<nat>, r: Round, attempt: nat)
    ensures OneRound(e, cfg, key, r, attempt).1 != Some(Exhausted)
  {
    hide HealthyNodes, ApplyAll, Apply, HasWait;
  }

  /** A call gives up exactly when none of its attempts 0 to MaxRetries ends it,
      and what one of them ends it with is its result. */
  lemma CallEnds(c: Cluster, cfg: Config, key: Option<nat>, rounds: nat -> Round, k: nat, r: Result)
    requires cfg.maxRetries >= 0
    ensures k <= cfg.maxRetries && EndsAt(c, cfg, key, rounds, k, r) ==> Rounds(Start(c), cfg, key, rounds, 0).1 == r
    ensures Rounds(Start(c), cfg, key, rounds, 0).1 == Exhausted
       <==> Before(c, cfg, key, rounds, cfg.maxRetries + 1).Some?
  {
    hide OneRound;
    if k <= cfg.maxRetries && EndsAt(c, cfg, key, rounds, k, r) { RoundsFrom(c, cfg, key, rounds, k); }
    if Before(c, cfg, key, rounds, cfg.maxRetries + 1).Some? {
      RoundsFrom(c, cfg, key, rounds, cfg.maxRetries + 1);
    } else {
      var j, result := WhereItEnds(c, cfg, key, rounds, cfg.maxRetries + 1);
      RoundsFrom(c, cfg, key, rounds, j);
      RoundNotExhausted(Before(c, cfg, key, rounds, j).value, cfg, key, rounds(j), j);
    }
  }

  lemma {:induction false} WhereItEnds(c: Cluster, cfg: Config, key: Option<nat>, rounds: nat -> Round, k: nat)
    returns (j: nat, result: Result)
    requires Before(c, cfg, key, rounds, k).None?
    ensures j < k && EndsAt(c, cfg, key, rounds, j, result)
  {
    hide OneRound;
    if Before(c, cfg, key, rounds, k - 1).None? {
      j, result := WhereItEnds(c, cfg, key, rounds, k - 1);
    } else {
      j := k - 1;
      result := OneRound(Before(c, cfg, key, rounds, j).value, cfg, key, rounds(j), j).1.value;
    }
  }

  /** How attempt `k` ends a call: with no usable node; else, having picked a node
      not tried before that still has a client, with success or a miss as the
      operation answers; or, after a failure and before the last attempt, in the
      backoff. A node tried before ends nothing. */
  lemma AttemptEnds(e: Exec, cfg: Config, key: Option<nat>, r: Round, k: nat)
    ensures var (c, node) := Select(ApplyAll(e.cluster, cfg, r.before), cfg, key, r.drawn);
            var result := OneRound(e, cfg, key, r, k).1;
            && (node.None? ==> result == Some(NoHealthyNodes))
            && (node.Some? && node.value in e.attempts ==> result == None)
            && (node.Some? && node.value !in e.attempts ==>
                  var called := ApplyAll(c, cfg, r.between).views[node.value].hasClient;
                  if called && r.reply == Ok then result == Some(Success)
                  else if called && r.reply == Nil then result == Some(CacheMiss)
                  else if k >= cfg.maxRetries then result == None
                  else if Backoff.CalculateBackoff(k, cfg.backoffBase, cfg.backoffMax, r.jitter).None?
                    then result == Some(Panicked)
                  else result == if r.done then Some(Cancelled) else None)
  {
    hide HealthyNodes, Apply, Backoff.CalculateBackoff;
  }

  /** What an attempt on a node not tried before leaves: the node is marked as
      tried, the operation ran if the client was there, and a success counts as an
      operation of that node, a miss as nothing, and everything else as an error. */
  lemma AttemptCounts(e: Exec, cfg: Config, key: Option<nat>, r: Round, k: nat, c: Cluster, i: nat)
    requires Select(ApplyAll(e.cluster, cfg, r.before), cfg, key, r.drawn) == (c, Some(i)) && i !in e.attempts
    requires i < |c.views|
    ensures var d, n := ApplyAll(c, cfg, r.between), OneRound(e, cfg, key, r, k).0;
            var v, w, called := d.views[i], n.cluster.views[i], d.views[i].hasClient;
            && n.attempts == e.attempts + [i] && n.runs == e.runs + (if called then 1 else 0)
            && |n.cluster.views| == |d.views| && n.cluster.index == d.index
            && (forall j :: 0 <= j < |d.views| && j != i ==> n.cluster.views[j] == d.views[j])
            && (if called && r.reply == Ok then w == NodeView(v.state, true, v.ops + 1, v.errors)
                else if called && r.reply == Nil then w == v
                else w.ops == v.ops && w.errors == v.errors + 1 && w.hasClient == v.hasClient
                     && w.state == if v.state == Healthy && v.errors + 1 >= cfg.threshold then Degraded else v.state)
  {
    hide HealthyNodes, HasWait, Select, ApplyAll, AfterFailure;
    ErrorDegrades(ApplyAll(c, cfg, r.between), cfg, i);
  }

  /** So a call that gets as far as an attempt k <= MaxRetries in which it picks a
      node it has not tried, which still has a client and answers, succeeds. */
  lemma AnsweredCallSucceeds(c: Cluster, cfg: Config, key: Option<nat>, rounds: nat -> Round, k: nat)
    requires 0 <= k <= cfg.maxRetries && Before(c, cfg, key, rounds, k).Some?
    requires var e := Before(c, cfg, key, rounds, k).value;
             var (d, node) := Select(ApplyAll(e.cluster, cfg, rounds(k).before), cfg, key, rounds(k).drawn);
             node.Some? && node.value !in e.attempts && rounds(k).reply == Ok
             && ApplyAll(d, cfg, rounds(k).between).views[node.value].hasClient
    ensures Rounds(Start(c), cfg, key, rounds, 0).1 == Success
  {
    hide OneRound, Select, Rounds, ApplyAll;
    AttemptEnds(Before(c, cfg, key, rounds, k).value, cfg, key, rounds(k), k);
    CallEnds(c, cfg, key, rounds, k, Success);
  }
}
