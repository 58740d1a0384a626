// The state of each Postgres node as detection, manual promotion and health
// checks change it, and what holds of it over every run.
module PgRoles {
  import opened Wrappers
  import Backoff

  datatype Role = Writer | Reader | Unknown

  datatype Health = Healthy | Degraded | Failed

  datatype NodeView = NodeView(role: Role, health: Health, priority: int, pooled: bool)

  /** What opening and pinging a pool came to. */
  datatype ConnectResult = OpenFails | PingFails | Connected

  datatype PingResult = Answered(slow: bool) | RetryableError | PermanentError

  /** A check within ten seconds of the last one is skipped. */
  datatype Check = TooSoon | Due(connect: ConnectResult, ping: PingResult)

  // ----- one node -----

  /** A detection strategy found the node to be the writer. */
  function AsWriter(v: NodeView): NodeView {
    if v.role != Writer then v.(role := Writer, priority := 0) else v
  }

  /** A detection strategy found the node not to be the writer. */
  function AsReader(v: NodeView): NodeView {
    if v.role != Reader then v.(role := Reader, priority := if v.priority == 0 then 1 else v.priority) else v
  }

  function Promoted(v: NodeView): NodeView { v.(role := Writer, priority := 0) }

  function Demoted(v: NodeView): NodeView {
    if v.role == Writer then v.(role := Reader, priority := if v.priority == 0 then 1 else v.priority) else v
  }

  /** `connectToNode`: a failure leaves the old pool in place. */
  function AfterConnect(v: NodeView, r: ConnectResult): NodeView {
    if r.Connected? then v.(pooled := true, health := Healthy) else v.(health := Failed)
  }

  function AfterPing(v: NodeView, r: PingResult): NodeView {
    match r
    case RetryableError => if v.health == Healthy then v.(health := Degraded) else v
    case PermanentError => v.(health := Failed, pooled := false)
    case Answered(slow) => v.(health := if slow then Degraded else Healthy)
  }

  /** `checkNodeHealth`. */
  function AfterCheck(v: NodeView, c: Check): NodeView {
    match c
    case TooSoon => v
    case Due(connect, ping) => if !v.pooled then AfterConnect(v, connect) else AfterPing(v, ping)
  }

  // ----- opening a pool -----

  /** `RetryAttempts` and the bounds of the waits between them. */
  datatype Retry = Retry(attempts: int, base: int, max: int)

  /** What one attempt to open meets, and the draw for the backoff after it. */
  datatype OpenTry = OpenTry(ok: bool, jitter: nat)

  datatype Opening = Opened | GaveUp | Panicked

  predicate HasWait(retry: Retry, k: nat, t: OpenTry) {
    Backoff.CalculateBackoff(k, retry.base, retry.max, t.jitter).Some?
  }

  /** The loop of `connectToNode` from attempt `k` on. */
  function OpenFrom(retry: Retry, tries: nat -> OpenTry, k: nat): Opening
    decreases retry.attempts - k
  {
    if k >= retry.attempts then GaveUp
    else if tries(k).ok then Opened
    else if k < retry.attempts - 1 && !HasWait(retry, k, tries(k)) then Panicked
    else OpenFrom(retry, tries, k + 1)
  }

  /** Every attempt before `k` fails and gets a wait. */
  ghost predicate GoesOn(retry: Retry, tries: nat -> OpenTry, from: nat, k: nat) {
    forall j: nat :: from <= j < k ==>
      !tries(j).ok && Backoff.CalculateBackoff(j, retry.base, retry.max, tries(j).jitter).Some?
  }

  ghost predicate OpensAt(retry: Retry, tries: nat -> OpenTry, from: nat, k: nat) {
    from <= k < retry.attempts && tries(k).ok && GoesOn(retry, tries, from, k)
  }

  ghost predicate PanicsAt(retry: Retry, tries: nat -> OpenTry, from: nat, k: nat) {
    from <= k < retry.attempts - 1 && !tries(k).ok && GoesOn(retry, tries, from, k)
    && Backoff.CalculateBackoff(k, retry.base, retry.max, tries(k).jitter).None?
  }

  /** The pool is opened by the first attempt that succeeds, if every backoff
      before it gets a wait; the loop panics in the first that gets none; and it
      gives up when neither comes to pass. */
  lemma {:induction false} OpenExactly(retry: Retry, tries: nat -> OpenTry, k: nat)
    ensures OpenFrom(retry, tries, k) == Opened <==> exists j :: OpensAt(retry, tries, k, j)
    ensures OpenFrom(retry, tries, k) == Panicked <==> exists j :: PanicsAt(retry, tries, k, j)
    decreases retry.attempts - k
  {
    hide HasWait;
    if k < retry.attempts && !tries(k).ok && k < retry.attempts - 1 && HasWait(retry, k, tries(k)) {
      OpenExactly(retry, tries, k + 1);
      LaterTry(retry, tries, k, k + 1);
    } else {
      StopsHere(retry, tries, k);
    }
  }

  lemma StopsHere(retry: Retry, tries: nat -> OpenTry, k: nat)
    requires k >= retry.attempts - 1 || tries(k).ok || !HasWait(retry, k, tries(k))
    ensures (exists j :: OpensAt(retry, tries, k, j)) <==> k < retry.attempts && tries(k).ok
    ensures (exists j :: PanicsAt(retry, tries, k, j))
       <==> k < retry.attempts - 1 && !tries(k).ok && !HasWait(retry, k, tries(k))
  {
    hide Backoff.CalculateBackoff;
    if k < retry.attempts && tries(k).ok { assert OpensAt(retry, tries, k, k); }
    if k < retry.attempts - 1 && !tries(k).ok && !HasWait(retry, k, tries(k)) { assert PanicsAt(retry, tries, k, k); }
    forall j: nat | j > k
      ensures !OpensAt(retry, tries, k, j) && !PanicsAt(retry, tries, k, j)
    {
      if k < retry.attempts - 1 { assert GoesOn(retry, tries, k, j) ==> !tries(k).ok && HasWait(retry, k, tries(k)); }
    }
  }

  lemma LaterTry(retry: Retry, tries: nat -> OpenTry, k: nat, next: nat)
    requires next == k + 1 && !tries(k).ok && HasWait(retry, k, tries(k))
    ensures (exists j :: OpensAt(retry, tries, k, j)) <==> exists j :: OpensAt(retry, tries, next, j)
    ensures (exists j :: PanicsAt(retry, tries, k, j)) <==> exists j :: PanicsAt(retry, tries, next, j)
  {
    hide Backoff.CalculateBackoff;
    forall j: nat
      ensures OpensAt(retry, tries, k, j) <==> OpensAt(retry, tries, next, j)
      ensures PanicsAt(retry, tries, k, j) <==> PanicsAt(retry, tries, next, j)
    {
      if j > k {
        assert GoesOn(retry, tries, k, j) <==> GoesOn(retry, tries, next, j);
      }
    }
  }

  // ----- the cluster -----

  /** An operation that goes through the nodes one by one, locking each in turn:
      `SetWriterNode` and `updateWriterByIP`. */
  datatype Sweep = Promotion(target: nat) | Resolution(ip: string)

  /** What happens to node `i` while it is locked. */
  datatype Step =
    | QueryResult(i: nat, isPrimary: bool)
    | ProbeAccepted(i: nat)
    | Visit(i: nat, sweep: Sweep)
    | HealthCheck(i: nat, check: Check)

  function ByAddress(v: NodeView, host: string, ip: string): NodeView {
    if host == "" then v else if host == ip then AsWriter(v) else AsReader(v)
  }

  function Visited(v: NodeView, host: string, i: nat, sweep: Sweep): NodeView {
    match sweep
    case Promotion(target) => if i == target then Promoted(v) else Demoted(v)
    case Resolution(ip) => ByAddress(v, host, ip)
  }

  function AfterStep(v: NodeView, host: string, step: Step): NodeView {
    match step
    case QueryResult(_, isPrimary) => if isPrimary then AsWriter(v) else AsReader(v)
    case ProbeAccepted(_) => AsWriter(v)
    case Visit(i, sweep) => Visited(v, host, i, sweep)
    case HealthCheck(_, check) => AfterCheck(v, check)
  }

  function Next(vs: seq<NodeView>, hosts: seq<string>, step: Step): (r: seq<NodeView>)
    requires |hosts| == |vs|
    ensures |r| == |vs|
  {
    if step.i >= |vs| then vs else vs[step.i := AfterStep(vs[step.i], hosts[step.i], step)]
  }

  function Run(vs: seq<NodeView>, hosts: seq<string>, steps: seq<Step>): (r: seq<NodeView>)
    requires |hosts| == |vs|
    ensures |r| == |vs|
    decreases |steps|
  {
    if steps == [] then vs else Run(Next(vs, hosts, steps[0]), hosts, steps[1..])
  }

  lemma {:induction false} RunAppend(vs: seq<NodeView>, hosts: seq<string>, xs: seq<Step>, ys: seq<Step>)
    requires |hosts| == |vs|
    ensures Run(vs, hosts, xs + ys) == Run(Run(vs, hosts, xs), hosts, ys)
    decreases |xs|
  {
    hide Next;
    if xs == [] {
      assert xs + ys == ys;
    } else {
      assert (xs + ys)[0] == xs[0] && (xs + ys)[1..] == xs[1..] + ys;
      RunAppend(Next(vs, hosts, xs[0]), hosts, xs[1..], ys);
    }
  }

  lemma RunSnoc(vs: seq<NodeView>, hosts: seq<string>, xs: seq<Step>, x: Step)
    requires |hosts| == |vs|
    ensures Run(vs, hosts, xs + [x]) == Next(Run(vs, hosts, xs), hosts, x)
  {
    hide Next;
    RunAppend(vs, hosts, xs, [x]);
    assert [x][1..] == [];
  }

  /** A sweep over the first n nodes; `between(i)` is what other goroutines do
      before it locks node `i`. */
  function Swept(sweep: Sweep, between: nat -> seq<Step>, n: nat): seq<Step> {
    if n == 0 then [] else Swept(sweep, between, n - 1) + between(n - 1) + [Visit(n - 1, sweep)]
  }

  lemma {:induction false} SweepVisitsAll(sweep: Sweep, between: nat -> seq<Step>, n: nat)
    ensures forall k: nat :: k < n ==> Visit(k, sweep) in Swept(sweep, between, n)
  {
    if n > 0 { SweepVisitsAll(sweep, between, n - 1); }
  }

  lemma SweepStarts(vs: seq<NodeView>, hosts: seq<string>, sweep: Sweep, between: nat -> seq<Step>)
    requires |hosts| == |vs|
    ensures Run(vs, hosts, Swept(sweep, between, 0)) == vs
  {
  }

  lemma SweepGoesOn(vs: seq<NodeView>, hosts: seq<string>, sweep: Sweep, between: nat -> seq<Step>, n: nat)
    requires |hosts| == |vs|
    ensures Run(vs, hosts, Swept(sweep, between, n + 1))
         == Next(Run(Run(vs, hosts, Swept(sweep, between, n)), hosts, between(n)), hosts, Visit(n, sweep))
  {
    hide Run, Next;
    RunAppend(vs, hosts, Swept(sweep, between, n), between(n));
    RunSnoc(vs, hosts, Swept(sweep, between, n) + between(n), Visit(n, sweep));
  }

  lemma {:induction false} SweptSteps(sweep: Sweep, between: nat -> seq<Step>, n: nat)
    requires forall k, x :: x in between(k) ==> x.HealthCheck?
    ensures forall x :: x in Swept(sweep, between, n) ==> x.HealthCheck? || (x.Visit? && x.sweep == sweep)
  {
    if n > 0 { SweptSteps(sweep, between, n - 1); }
  }

  /** `initializeNodes`: a writer at priority 0, readers at 1, 2, ... */
  function Initial(connects: seq<ConnectResult>): (vs: seq<NodeView>)
    ensures |vs| == |connects|
  {
    seq(|connects|, i requires 0 <= i < |connects| =>
      AfterConnect(NodeView(if i == 0 then Writer else Reader, Healthy, i, false), connects[i]))
  }

  predicate Sound(v: NodeView) {
    && v.role != Unknown
    && (v.role == Writer <==> v.priority == 0)
    && (v.role == Reader <==> v.priority >= 1)
    && (v.health == Healthy ==> v.pooled)
  }

  predicate AllSound(vs: seq<NodeView>) {
    forall i :: 0 <= i < |vs| ==> Sound(vs[i])
  }

  lemma InitialAt(connects: seq<ConnectResult>, i: nat)
    requires i < |connects|
    ensures Initial(connects)[i]
         == AfterConnect(NodeView(if i == 0 then Writer else Reader, Healthy, i, false), connects[i])
  {
  }

  lemma InitialSound(connects: seq<ConnectResult>)
    ensures AllSound(Initial(connects))
  {
  }

  lemma StepKeepsSound(vs: seq<NodeView>, hosts: seq<string>, step: Step)
    requires |hosts| == |vs| && AllSound(vs)
    ensures AllSound(Next(vs, hosts, step))
  {
  }

  lemma {:induction false} RunKeepsSound(vs: seq<NodeView>, hosts: seq<string>, steps: seq<Step>)
    requires |hosts| == |vs| && AllSound(vs)
    ensures AllSound(Run(vs, hosts, steps))
    decreases |steps|
  {
    if steps != [] {
      StepKeepsSound(vs, hosts, steps[0]);
      hide Next, AllSound;
      RunKeepsSound(Next(vs, hosts, steps[0]), hosts, steps[1..]);
    }
  }

  /** Over every run of detection, promotion and health checks a node is the
      writer exactly when its priority is 0, a reader exactly when it is
      positive, and healthy only with a pool. */
  lemma RolesOverRuns(connects: seq<ConnectResult>, hosts: seq<string>, steps: seq<Step>, i: nat)
    requires |hosts| == |connects| && i < |connects|
    ensures Sound(Run(Initial(connects), hosts, steps)[i])
  {
    RunKeepsSound(Initial(connects), hosts, steps);
  }

  /** A due check of a node with a pool leaves it healthy exactly when the ping is
      answered in time, drops its pool exactly on an error not worth a retry,
      which fails it, and otherwise degrades it, unless it was failed before and
      nothing was answered. */
  lemma PingMeans(v: NodeView, host: string, i: nat, connect: ConnectResult, ping: PingResult)
    requires v.pooled
    ensures var w := AfterStep(v, host, HealthCheck(i, Due(connect, ping)));
            && (w.health == Healthy <==> ping == Answered(false))
            && (!w.pooled <==> ping == PermanentError)
            && (w.health == Failed <==> ping == PermanentError || (ping == RetryableError && v.health == Failed))
            && w.role == v.role && w.priority == v.priority
  {
  }

  /** A due check of a node without a pool connects it, and leaves it healthy with
      a pool or failed without one; a check that is not due does nothing. */
  lemma ConnectMeans(v: NodeView, host: string, i: nat, connect: ConnectResult, ping: PingResult)
    requires !v.pooled
    ensures var w := AfterStep(v, host, HealthCheck(i, Due(connect, ping)));
            && w.pooled == (connect == Connected) && w.health == (if connect == Connected then Healthy else Failed)
            && w.role == v.role && w.priority == v.priority
    ensures AfterStep(v, host, HealthCheck(i, TooSoon)) == v
  {
  }

  /** The server of node `i` answers no ping in time and accepts no connection. */
  predicate Unreachable(step: Step, i: nat) {
    step.HealthCheck? && step.i == i && step.check.Due? ==>
      step.check.ping != Answered(false) && step.check.connect != Connected
  }

  /** Once checked, such a node is not healthy, so neither read from nor written
      to, whatever detection and promotion make of it. */
  lemma {:induction false} UnreachableNotHealthy(vs: seq<NodeView>, hosts: seq<string>, steps: seq<Step>, i: nat)
    requires |hosts| == |vs| && i < |vs| && forall x :: x in steps ==> Unreachable(x, i)
    ensures (exists x :: x in steps && x.HealthCheck? && x.i == i && x.check.Due?) ==>
              Run(vs, hosts, steps)[i].health != Healthy
    ensures vs[i].health != Healthy ==> Run(vs, hosts, steps)[i].health != Healthy
    decreases |steps|
  {
    if steps != [] {
      assert steps[0] in steps;
      UnreachableStep(vs, hosts, steps[0], i);
      hide Next, Unreachable;
      assert forall x :: x in steps ==> x == steps[0] || x in steps[1..];
      UnreachableNotHealthy(Next(vs, hosts, steps[0]), hosts, steps[1..], i);
    }
  }

  lemma UnreachableStep(vs: seq<NodeView>, hosts: seq<string>, step: Step, i: nat)
    requires |hosts| == |vs| && i < |vs| && Unreachable(step, i)
    ensures vs[i].health != Healthy || (step.HealthCheck? && step.i == i && step.check.Due?) ==>
              Next(vs, hosts, step)[i].health != Healthy
  {
  }

  /** A node's priority changes only with its role: a new writer gets 0, and a
      writer that becomes a reader gets 1. A step touches no other node. */
  lemma StepPriority(vs: seq<NodeView>, hosts: seq<string>, step: Step, k: nat)
    requires |hosts| == |vs| && k < |vs| && AllSound(vs)
    ensures var v, w := vs[k], Next(vs, hosts, step)[k];
            && (w.role == v.role ==> w.priority == v.priority)
            && (w.role == Writer && v.role != Writer ==> w.priority == 0)
            && (w.role == Reader && v.role == Writer ==> w.priority == 1)
            && (!step.HealthCheck? ==> w.health == v.health && w.pooled == v.pooled)
            && (k != step.i ==> w == v)
  {
  }

  /** That is so whatever the node was: who is found in the role it has is left
      alone, and who becomes a reader keeps a priority other than 0. A promotion
      sets its target to 0 in any case and leaves alone who is no writer. */
  lemma RoleStep(vs: seq<NodeView>, hosts: seq<string>, step: Step)
    requires |hosts| == |vs| && step.i < |vs| && !step.HealthCheck?
    ensures var v, w := vs[step.i], Next(vs, hosts, step)[step.i];
            var promoted := step.Visit? && step.sweep == Promotion(step.i);
            && (w.role == v.role && !promoted ==> w == v)
            && (w.role == Reader && v.role != Reader ==> w.priority == if v.priority == 0 then 1 else v.priority)
            && (w.role == Writer && (v.role != Writer || promoted) ==> w.priority == 0)
            && (step.Visit? && step.sweep.Promotion? && !promoted && v.role != Writer ==> w == v)
            && (w.role == Unknown ==> w == v)
  {
  }

  // ----- who is writer -----

  /** What a step says of node `k`: writer, not writer, or nothing. */
  function Says(hosts: seq<string>, step: Step, k: nat): Option<bool>
    requires k < |hosts|
  {
    if step.i != k then None
    else match step
      case QueryResult(_, isPrimary) => Some(isPrimary)
      case ProbeAccepted(_) => Some(true)
      case Visit(_, Promotion(target)) => Some(k == target)
      case Visit(_, Resolution(ip)) => if hosts[k] == "" then None else Some(hosts[k] == ip)
      case HealthCheck(_, _) => None
  }

  function LastWord(hosts: seq<string>, steps: seq<Step>, k: nat): Option<bool>
    requires k < |hosts|
    decreases |steps|
  {
    if steps == [] then None
    else
      var later := LastWord(hosts, steps[1..], k);
      if later.Some? then later else Says(hosts, steps[0], k)
  }

  lemma StepDecides(vs: seq<NodeView>, hosts: seq<string>, step: Step, k: nat)
    requires |hosts| == |vs| && k < |vs|
    ensures Next(vs, hosts, step)[k].role == Writer
       <==> match Says(hosts, step, k) case Some(writer) => writer case None => vs[k].role == Writer
  {
  }

  /** After any run of detection, promotion and health checks, a node is writer
      exactly as the last step that said anything of it said; what was said of
      the other nodes does not count. */
  lemma {:induction false} LastWordDecides(vs: seq<NodeView>, hosts: seq<string>, steps: seq<Step>, k: nat)
    requires |hosts| == |vs| && k < |vs|
    ensures Run(vs, hosts, steps)[k].role == Writer
       <==> match LastWord(hosts, steps, k) case Some(writer) => writer case None => vs[k].role == Writer
    decreases |steps|
  {
    hide Next, Says;
    if steps != [] {
      StepDecides(vs, hosts, steps[0], k);
      LastWordDecides(Next(vs, hosts, steps[0]), hosts, steps[1..], k);
    }
  }

  ghost function Writers(vs: seq<NodeView>): set<nat> {
    set k: nat | k < |vs| && vs[k].role == Writer
  }

  lemma DetectionWriters(vs: seq<NodeView>, hosts: seq<string>, i: nat, isPrimary: bool)
    requires |hosts| == |vs| && i < |vs|
    ensures Writers(Next(vs, hosts, QueryResult(i, isPrimary)))
         == if isPrimary then Writers(vs) + {i} else Writers(vs) - {i}
    ensures Writers(Next(vs, hosts, ProbeAccepted(i))) == Writers(vs) + {i}
  {
  }

  /** From one writer w, a detection query leaves one writer exactly when it
      confirms what was known of its node; a primary found elsewhere makes two
      writers, and a writer found to be none leaves no writer at all. */
  lemma WritersAfterQuery(vs: seq<NodeView>, hosts: seq<string>, w: nat, i: nat, isPrimary: bool)
    requires |hosts| == |vs| && i < |vs| && Writers(vs) == {w}
    ensures var after := |Writers(Next(vs, hosts, QueryResult(i, isPrimary)))|;
            && (after == 1 <==> isPrimary == (i == w))
            && (after == 2 <==> isPrimary && i != w)
            && (after == 0 <==> !isPrimary && i == w)
  {
    DetectionWriters(vs, hosts, i, isPrimary);
    hide Next, Writers;
    Cardinalities(w, i);
  }

  /** From one writer w, a probe leaves one writer exactly when w is the node
      that accepted it, and two otherwise: it promotes and never demotes. */
  lemma WritersAfterProbe(vs: seq<NodeView>, hosts: seq<string>, w: nat, i: nat)
    requires |hosts| == |vs| && i < |vs| && Writers(vs) == {w}
    ensures |Writers(Next(vs, hosts, ProbeAccepted(i)))| == if i == w then 1 else 2
  {
    DetectionWriters(vs, hosts, i, true);
    hide Next, Writers;
    Cardinalities(w, i);
  }

  lemma Cardinalities(w: nat, i: nat)
    ensures |{w} + {i}| == (if i == w then 1 else 2) && |{w} - {i}| == if i == w then 0 else 1
  {
    if i == w {
      assert {w} + {i} == {w} && {w} - {i} == {};
    } else {
      assert {w} - {i} == {w};
    }
  }

  /** An instance: from the initial state, one probe accepted by the other node. */
  lemma ProbeLeavesTwoWriters(hosts: seq<string>)
    requires |hosts| == 2
    ensures |Writers(Run(Initial([Connected, Connected]), hosts, [ProbeAccepted(1)]))| == 2
  {
    var vs := Initial([Connected, Connected]);
    assert Writers(vs) == {0};
    WritersAfterProbe(vs, hosts, 0, 1);
    assert [ProbeAccepted(1)][1..] == [];
    assert Run(vs, hosts, [ProbeAccepted(1)]) == Run(Next(vs, hosts, ProbeAccepted(1)), hosts, []);
  }

  lemma {:induction false} SaidIsLast(hosts: seq<string>, steps: seq<Step>, x: Step, k: nat)
    requires k < |hosts| && x in steps && Says(hosts, x, k).Some?
    ensures LastWord(hosts, steps, k).Some?
    decreases |steps|
  {
    hide Says;
    if x in steps[1..] { SaidIsLast(hosts, steps[1..], x, k); }
  }

  /** The last word on node `k` of a run, if any, is to make it writer or not as `writers` has it. */
  ghost predicate Agrees(hosts: seq<string>, steps: seq<Step>, writers: set<nat>, k: nat)
    requires k < |hosts|
  {
    var word := LastWord(hosts, steps, k);
    word.Some? ==> (word.value <==> k in writers)
  }

  /** When some step of a run speaks of every node, or would leave it as it is,
      the run ends with these writers if and only if the last words agree. */
  lemma WritersAre(vs: seq<NodeView>, hosts: seq<string>, steps: seq<Step>, writers: set<nat>)
    requires |hosts| == |vs| && forall k :: k in writers ==> k < |vs|
    requires forall k: nat :: k < |vs| && LastWord(hosts, steps, k).None? ==> (vs[k].role == Writer <==> k in writers)
    ensures Writers(Run(vs, hosts, steps)) == writers
       <==> forall k: nat :: k < |vs| ==> Agrees(hosts, steps, writers, k)
  {
    var ws := Writers(Run(vs, hosts, steps));
    hide Run, LastWord;
    forall k: nat | k < |vs|
      ensures Agrees(hosts, steps, writers, k) <==> (k in ws <==> k in writers)
    {
      LastWordDecides(vs, hosts, steps, k);
    }
    assert forall k :: k in ws ==> k < |vs|;
    if forall k: nat :: k < |vs| ==> Agrees(hosts, steps, writers, k) {
      assert forall k: nat :: k in ws <==> k in writers;
    }
  }

  /** A run in which a promotion visits every node, whatever other goroutines do
      before, between and after the visits and whoever was writer: the target
      ends as the one writer if and only if nobody has a contrary last word. */
  lemma PromotionLeavesOneWriter(vs: seq<NodeView>, hosts: seq<string>, steps: seq<Step>, target: nat)
    requires |hosts| == |vs| && target < |vs|
    requires forall k: nat :: k < |vs| ==> Visit(k, Promotion(target)) in steps
    ensures Writers(Run(vs, hosts, steps)) == {target}
       <==> forall k: nat :: k < |vs| ==> Agrees(hosts, steps, {target}, k)
  {
    hide LastWord, Run, Agrees, Writers;
    forall k: nat | k < |vs|
      ensures LastWord(hosts, steps, k).Some?
    {
      SaidIsLast(hosts, steps, Visit(k, Promotion(target)), k);
    }
    WritersAre(vs, hosts, steps, {target});
  }

  /** With nothing but health checks and its own visits around it a promotion succeeds. */
  lemma PromotionAlone(vs: seq<NodeView>, hosts: seq<string>, steps: seq<Step>, target: nat)
    requires |hosts| == |vs| && target < |vs|
    requires forall k: nat :: k < |vs| ==> Visit(k, Promotion(target)) in steps
    requires forall x :: x in steps ==> x.HealthCheck? || (x.Visit? && x.sweep == Promotion(target))
    ensures Writers(Run(vs, hosts, steps)) == {target}
  {
    hide LastWord, Run, Writers;
    PromotionLeavesOneWriter(vs, hosts, steps, target);
    forall k: nat | k < |vs|
      ensures Agrees(hosts, steps, {target}, k)
    {
      OnlyWord(hosts, steps, k, k == target);
    }
  }

  lemma SweepAlone(vs: seq<NodeView>, hosts: seq<string>, target: nat, between: nat -> seq<Step>)
    requires |hosts| == |vs| && target < |vs|
    ensures (forall k, x :: x in between(k) ==> x.HealthCheck?) ==>
              Writers(Run(vs, hosts, Swept(Promotion(target), between, |vs|))) == {target}
  {
    hide Run, Writers, Swept;
    if forall k, x :: x in between(k) ==> x.HealthCheck? {
      SweepVisitsAll(Promotion(target), between, |vs|);
      SweptSteps(Promotion(target), between, |vs|);
      PromotionAlone(vs, hosts, Swept(Promotion(target), between, |vs|), target);
    }
  }

  /** When all that is said of a node is the same, that is the last word. */
  lemma {:induction false} OnlyWord(hosts: seq<string>, steps: seq<Step>, k: nat, word: bool)
    requires k < |hosts| && forall x :: x in steps ==> Says(hosts, x, k) != Some(!word)
    ensures LastWord(hosts, steps, k) != Some(!word)
    decreases |steps|
  {
    hide Says;
    if steps != [] {
      assert steps[0] in steps;
      OnlyWord(hosts, steps[1..], k, word);
    }
  }

  /** An instance: a probe accepted by node 0 between its visit and that of the
      target, node 1, leaves both writers. */
  lemma ProbeDuringPromotion(vs: seq<NodeView>, hosts: seq<string>)
    requires |hosts| == |vs| == 2
    ensures Writers(Run(vs, hosts, [Visit(0, Promotion(1)), ProbeAccepted(0), Visit(1, Promotion(1))])) == {0, 1}
  {
    var a, b, c := Visit(0, Promotion(1)), ProbeAccepted(0), Visit(1, Promotion(1));
    RunThree(vs, hosts, a, b, c);
    hide Run;
    var s2 := Next(Next(vs, hosts, a), hosts, b);
    assert s2[0].role == Writer;
    var s3 := Next(s2, hosts, c);
    assert s3[0].role == Writer && s3[1].role == Writer;
  }

  lemma RunThree(vs: seq<NodeView>, hosts: seq<string>, a: Step, b: Step, c: Step)
    requires |hosts| == |vs|
    ensures Run(vs, hosts, [a, b, c]) == Next(Next(Next(vs, hosts, a), hosts, b), hosts, c)
  {
    hide Next;
    RunSnoc(vs, hosts, [a, b], c);
    RunSnoc(vs, hosts, [a], b);
    RunSnoc(vs, hosts, [], a);
    assert [a, b] + [c] == [a, b, c] && [a] + [b] == [a, b] && [] + [a] == [a];
  }

  /** The nodes at the address, and those without one that were writers before. */
  ghost function DnsWriters(vs: seq<NodeView>, hosts: seq<string>, ip: string): set<nat>
    requires |hosts| == |vs|
  {
    set k: nat | k < |vs| && if hosts[k] == "" then vs[k].role == Writer else hosts[k] == ip
  }

  /** A run in which DNS detection visits every node, whatever else happens in
      it, ends with the nodes at the address and the old writers without one as
      writers if and only if nobody has a contrary last word. So nodes
      configured by host name lose the role, the true writer included. */
  lemma WritersAfterDns(vs: seq<NodeView>, hosts: seq<string>, ip: string, steps: seq<Step>)
    requires |hosts| == |vs|
    requires forall k: nat :: k < |vs| ==> Visit(k, Resolution(ip)) in steps
    ensures Writers(Run(vs, hosts, steps)) == DnsWriters(vs, hosts, ip)
       <==> forall k: nat :: k < |vs| ==> Agrees(hosts, steps, DnsWriters(vs, hosts, ip), k)
  {
    hide LastWord, Run, Agrees, Writers;
    forall k: nat | k < |vs| && LastWord(hosts, steps, k).None?
      ensures hosts[k] == ""
    {
      if hosts[k] != "" { SaidIsLast(hosts, steps, Visit(k, Resolution(ip)), k); }
    }
    WritersAre(vs, hosts, steps, DnsWriters(vs, hosts, ip));
  }

  /** With nothing but health checks and its own visits around it DNS detection
      makes the nodes at the address writers, and no other node with an address;
      nodes without one keep their role. */
  lemma ResolutionAlone(vs: seq<NodeView>, hosts: seq<string>, ip: string, steps: seq<Step>, k: nat)
    requires |hosts| == |vs| && k < |vs| && Visit(k, Resolution(ip)) in steps
    requires forall x :: x in steps ==> x.HealthCheck? || (x.Visit? && x.sweep == Resolution(ip))
    ensures Run(vs, hosts, steps)[k].role == Writer
       <==> if hosts[k] == "" then vs[k].role == Writer else hosts[k] == ip
    ensures k in DnsWriters(vs, hosts, ip) <==> Run(vs, hosts, steps)[k].role == Writer
  {
    hide LastWord, Run;
    LastWordDecides(vs, hosts, steps, k);
    if hosts[k] == "" {
      OnlyWord(hosts, steps, k, true);
      OnlyWord(hosts, steps, k, false);
    } else {
      SaidIsLast(hosts, steps, Visit(k, Resolution(ip)), k);
      OnlyWord(hosts, steps, k, hosts[k] == ip);
    }
  }

  /** From one writer w, a whole run leaves w as the one writer if and only if
      the last word on w, if any, is yes, and on every other node, if any, no. */
  lemma WriterKept(vs: seq<NodeView>, hosts: seq<string>, steps: seq<Step>, w: nat)
    requires |hosts| == |vs| && Writers(vs) == {w}
    ensures Writers(Run(vs, hosts, steps)) == {w} <==> forall k: nat :: k < |vs| ==> Agrees(hosts, steps, {w}, k)
  {
    hide LastWord, Run, Agrees;
    assert w in Writers(vs);
    assert forall k: nat :: k < |vs| ==> (k in Writers(vs) <==> k == w);
    WritersAre(vs, hosts, steps, {w});
  }
}
