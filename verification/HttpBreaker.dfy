// The HTTP client's circuit breaker and retry loop.
module HttpBreaker {

  datatype State = Closed | Open | HalfOpen

  datatype Breaker = Breaker(state: State, failures: int, lastFailure: int)

  datatype Config = Config(maxFailures: int, resetTimeout: int, maxRetries: int,
                           initialWait: int, maxWait: int, multiplier: real)

  /** `NewCircuitBreaker`; the zero last-failure time is never read while closed. */
  const FRESH := Breaker(Closed, 0, 0)

  function AfterCanExecute(b: Breaker, cfg: Config, now: int): (Breaker, bool) {
    match b.state
    case Closed => (b, true)
    case Open => if now - b.lastFailure > cfg.resetTimeout then (b.(state := HalfOpen), true) else (b, false)
    case HalfOpen => (b, true)
  }

  function AfterSuccess(b: Breaker): Breaker { b.(failures := 0, state := Closed) }

  function AfterFailure(b: Breaker, cfg: Config, now: int): Breaker {
    Breaker(if b.failures + 1 >= cfg.maxFailures then Open else b.state, b.failures + 1, now)
  }

  // ----- waits between attempts -----

  /** Converting a float to a duration drops its fraction. */
  function Truncate(x: real): int { if x >= 0.0 then x.Floor else -((-x).Floor) }

  function NextWait(cfg: Config, wait: int): int {
    var next := Truncate(wait as real * cfg.multiplier);
    if next > cfg.maxWait then cfg.maxWait else next
  }

  /** The wait before attempt k + 1. */
  function Wait(cfg: Config, k: nat): int {
    if k == 0 then cfg.initialWait else NextWait(cfg, Wait(cfg, k - 1))
  }

  function Power(m: nat, k: nat): nat {
    if k == 0 then 1 else m * Power(m, k - 1)
  }

  lemma NextWhole(cfg: Config, m: nat, w: int)
    requires cfg.multiplier == m as real
    ensures NextWait(cfg, w) == if w * m > cfg.maxWait then cfg.maxWait else w * m
  {
    var x := w as real * cfg.multiplier;
    assert x == (w * m) as real;
    assert Truncate(x) == w * m;
  }

  /** With any multiplier the next wait is the product without its fraction of a
      nanosecond, as long as that stays within the cap, and else the cap. */
  lemma NextWaitTruncates(cfg: Config, w: int)
    requires w >= 0 && cfg.multiplier >= 0.0
    ensures var next, exact := NextWait(cfg, w), w as real * cfg.multiplier;
            if exact < cfg.maxWait as real + 1.0 then next as real <= exact < next as real + 1.0
            else next == cfg.maxWait
  {
    assert w as real * cfg.multiplier >= 0.0;
  }

  lemma WaitStep(cfg: Config, k: nat)
    ensures Wait(cfg, 0) == cfg.initialWait && Wait(cfg, k + 1) == NextWait(cfg, Wait(cfg, k))
  {
  }

  /** With a whole multiplier m the k-th wait is min(initial * m^k, max). */
  lemma {:induction false} WaitClosedForm(cfg: Config, m: nat, k: nat)
    requires m >= 1 && cfg.multiplier == m as real && 0 <= cfg.initialWait <= cfg.maxWait
    ensures var full := cfg.initialWait * Power(m, k);
            Wait(cfg, k) == if full > cfg.maxWait then cfg.maxWait else full
  {
    hide NextWait;
    if k > 0 {
      WaitClosedForm(cfg, m, k - 1);
      var p, w := cfg.initialWait * Power(m, k - 1), Wait(cfg, k - 1);
      NextWhole(cfg, m, w);
      Associates(cfg.initialWait, m, Power(m, k - 1));
      Grows(p, m);
      Grows(w, m);
    }
  }

  lemma Associates(a: int, m: int, b: int)
    ensures a * (m * b) == a * b * m
  {
  }

  lemma Grows(a: int, m: nat)
    requires a >= 0 && m >= 1
    ensures a <= a * m
  {
  }

  // ----- one call of Do -----

  datatype Reply = NetworkError | Status(code: int)

  /** One turn of the retry loop: whether ctx is done in the wait before it,
      when the request goes out, and what comes back. */
  datatype Attempt = Attempt(cancelled: bool, sentAt: int, reply: Reply)

  /** `attempts(k)` is what the k-th attempt would meet, were it made. */
  datatype Call = Call(now: int, attempts: nat -> Attempt, endAt: int)

  datatype Outcome = Refused | Answered(code: int) | Cancelled | Exhausted

  predicate Retried(r: Reply) { r.NetworkError? || r.code >= 500 }

  /** 2xx and 4xx close the breaker; other final statuses leave it alone. */
  predicate Healthy(code: int) { 200 <= code < 300 || 400 <= code < 500 }

  /** One attempt and MaxRetries more. */
  function Attempts(cfg: Config): nat { if cfg.maxRetries < 0 then 0 else cfg.maxRetries + 1 }

  /** The loop from attempt `k` on: the breaker after it, the outcome, and when requests were sent. */
  function Loop(b: Breaker, cfg: Config, call: Call, k: nat): (r: (Breaker, Outcome, seq<int>))
    ensures !r.1.Refused?
    decreases Attempts(cfg) - k
  {
    if k >= Attempts(cfg) then (AfterFailure(b, cfg, call.endAt), Exhausted, [])
    else
      var a := call.attempts(k);
      if k > 0 && a.cancelled then (b, Cancelled, [])
      else if Retried(a.reply) then
        var (c, outcome, sent) := Loop(b, cfg, call, k + 1);
        (c, outcome, [a.sentAt] + sent)
      else (if Healthy(a.reply.code) then AfterSuccess(b) else b, Answered(a.reply.code), [a.sentAt])
  }

  function DoCall(b: Breaker, cfg: Config, call: Call): (Breaker, Outcome, seq<int>) {
    var (c, allowed) := AfterCanExecute(b, cfg, call.now);
    if !allowed then (c, Refused, []) else Loop(c, cfg, call, 0)
  }

  lemma LoopStep(b: Breaker, cfg: Config, call: Call, k: nat)
    ensures Loop(b, cfg, call, k)
         == if k >= Attempts(cfg) then (AfterFailure(b, cfg, call.endAt), Exhausted, [])
            else if k > 0 && call.attempts(k).cancelled then (b, Cancelled, [])
            else if Retried(call.attempts(k).reply) then
              var (c, outcome, sent) := Loop(b, cfg, call, k + 1);
              (c, outcome, [call.attempts(k).sentAt] + sent)
            else (if Healthy(call.attempts(k).reply.code) then AfterSuccess(b) else b,
                  Answered(call.attempts(k).reply.code), [call.attempts(k).sentAt])
  {
  }

  // ----- what one call comes to -----

  /** Attempt `k` is made: every reply before it was a network error or a status
      of 500 or more, and ctx was not done in the wait before any up to it. */
  ghost predicate Reached(call: Call, k: nat) {
    && (forall j: nat :: j < k ==> call.attempts(j).reply.NetworkError? || call.attempts(j).reply.code >= 500)
    && (forall j: nat :: 1 <= j <= k ==> !call.attempts(j).cancelled)
  }

  /** Attempt `k` gets a final answer. */
  ghost predicate AnsweredAt(call: Call, k: nat, code: int) {
    Reached(call, k) && call.attempts(k).reply == Status(code) && code < 500
  }

  /** ctx is done in the wait before attempt `k`. */
  ghost predicate CancelledAt(call: Call, k: nat) {
    k >= 1 && Reached(call, k - 1) && call.attempts(k).cancelled
    && (call.attempts(k - 1).reply.NetworkError? || call.attempts(k - 1).reply.code >= 500)
  }

  /** Nothing but network errors and statuses of 500 or more, and nobody cancelled. */
  ghost predicate AllFail(cfg: Config, call: Call) {
    && (forall j: nat :: j <= cfg.maxRetries ==>
          call.attempts(j).reply.NetworkError? || call.attempts(j).reply.code >= 500)
    && (forall j: nat :: 1 <= j <= cfg.maxRetries ==> !call.attempts(j).cancelled)
  }

  lemma {:induction false} LoopToAnswer(b: Breaker, cfg: Config, call: Call, k: nat, code: int, from: nat)
    requires from <= k <= cfg.maxRetries && AnsweredAt(call, k, code)
    ensures Loop(b, cfg, call, from).1 == Answered(code) && |Loop(b, cfg, call, from).2| == k + 1 - from
    decreases k - from
  {
    LoopStep(b, cfg, call, from);
    if from < k { LoopToAnswer(b, cfg, call, k, code, from + 1); }
  }

  lemma {:induction false} LoopToCancel(b: Breaker, cfg: Config, call: Call, k: nat, from: nat)
    requires from <= k <= cfg.maxRetries && CancelledAt(call, k)
    ensures Loop(b, cfg, call, from).1 == Cancelled && |Loop(b, cfg, call, from).2| == k - from
    decreases k - from
  {
    LoopStep(b, cfg, call, from);
    if from < k { LoopToCancel(b, cfg, call, k, from + 1); }
  }

  lemma {:induction false} LoopToEnd(b: Breaker, cfg: Config, call: Call, from: nat)
    requires AllFail(cfg, call) && cfg.maxRetries >= 0 && from <= cfg.maxRetries + 1
    ensures Loop(b, cfg, call, from).1 == Exhausted && |Loop(b, cfg, call, from).2| == cfg.maxRetries + 1 - from
    decreases cfg.maxRetries + 1 - from
  {
    LoopStep(b, cfg, call, from);
    if from <= cfg.maxRetries { LoopToEnd(b, cfg, call, from + 1); }
  }

  /** One of the three happens. */
  lemma {:induction false} SomeEnd(cfg: Config, call: Call, k: nat) returns (j: nat)
    requires Reached(call, k) && k <= cfg.maxRetries
    ensures AllFail(cfg, call)
               || (j <= cfg.maxRetries && (CancelledAt(call, j) || exists code :: AnsweredAt(call, j, code)))
    decreases cfg.maxRetries - k
  {
    j := k;
    var r := call.attempts(k).reply;
    if r.Status? && r.code < 500 {
      assert AnsweredAt(call, k, r.code);
    } else if k < cfg.maxRetries {
      if call.attempts(k + 1).cancelled {
        j := k + 1;
        assert CancelledAt(call, j);
      } else {
        j := SomeEnd(cfg, call, k + 1);
      }
    }
  }

  /** What a call that the breaker admits comes to, from the replies it would
      meet. It is answered by the first reply below 500, if ctx lasts that long;
      it is exhausted exactly when all of the MaxRetries + 1 replies are network
      errors or 500 and more; else ctx was done in a wait. It sends one request
      for every attempt made. */
  lemma LoopExactly(b: Breaker, cfg: Config, call: Call)
    requires cfg.maxRetries >= 0
    ensures var (_, outcome, sent) := Loop(b, cfg, call, 0);
            && (forall code :: outcome == Answered(code) <==>
                  exists k: nat :: k <= cfg.maxRetries && AnsweredAt(call, k, code))
            && (outcome == Cancelled <==> exists k: nat :: k <= cfg.maxRetries && CancelledAt(call, k))
            && (outcome == Exhausted <==> AllFail(cfg, call))
            && (forall k: nat, code :: k <= cfg.maxRetries && AnsweredAt(call, k, code) ==> |sent| == k + 1)
            && (forall k: nat :: k <= cfg.maxRetries && CancelledAt(call, k) ==> |sent| == k)
            && (AllFail(cfg, call) ==> |sent| == cfg.maxRetries + 1)
  {
    assert Reached(call, 0);
    var j := SomeEnd(cfg, call, 0);
    hide Loop, AnsweredAt, CancelledAt, AllFail;
    if AllFail(cfg, call) { LoopToEnd(b, cfg, call, 0); }
    forall k: nat, code | k <= cfg.maxRetries && AnsweredAt(call, k, code)
      ensures Loop(b, cfg, call, 0).1 == Answered(code) && |Loop(b, cfg, call, 0).2| == k + 1
    {
      LoopToAnswer(b, cfg, call, k, code, 0);
    }
    forall k: nat | k <= cfg.maxRetries && CancelledAt(call, k)
      ensures Loop(b, cfg, call, 0).1 == Cancelled && |Loop(b, cfg, call, 0).2| == k
    {
      LoopToCancel(b, cfg, call, k, 0);
    }
  }

  /** What a call does to the breaker that admitted it: an answer of 2xx or 4xx
      closes it with no failures, any other answer and a cancellation leave it,
      and exhaustion counts a failure at the end of the call, which opens it when
      the count reaches the limit. */
  lemma BreakerAfterCall(b: Breaker, cfg: Config, call: Call)
    ensures var (c, outcome, _) := Loop(b, cfg, call, 0);
            match outcome
            case Answered(code) =>
              c == if 200 <= code <= 299 || 400 <= code <= 499 then Breaker(Closed, 0, b.lastFailure) else b
            case Exhausted =>
              && c.failures == b.failures + 1 && c.lastFailure == call.endAt
              && c.state == if b.failures + 1 >= cfg.maxFailures then Open else b.state
            case _ => c == b
  {
    LoopEffect(b, cfg, call, 0);
    hide Loop;
  }

  // ----- runs -----

  /** Calls follow one another, and the clock does not run backwards. */
  ghost predicate Timely(cfg: Config, call: Call) {
    && call.now <= call.endAt
    && forall k: nat :: k < Attempts(cfg) ==> call.now <= call.attempts(k).sentAt <= call.endAt
  }

  ghost predicate Sequential(cfg: Config, calls: seq<Call>) {
    && (forall i :: 0 <= i < |calls| ==> Timely(cfg, calls[i]))
    && (forall i :: 0 <= i < |calls| - 1 ==> calls[i].endAt <= calls[i + 1].now)
  }

  function After(cfg: Config, calls: seq<Call>): Breaker {
    if |calls| == 0 then FRESH else DoCall(After(cfg, calls[..|calls| - 1]), cfg, calls[|calls| - 1]).0
  }

  function OutcomeAt(cfg: Config, calls: seq<Call>, i: nat): Outcome
    requires i < |calls|
  {
    DoCall(After(cfg, calls[..i]), cfg, calls[i]).1
  }

  // ----- the history the breaker stands for -----

  /** Exhausted calls since the last 2xx or 4xx. */
  function FailuresSince(cfg: Config, calls: seq<Call>): nat {
    if |calls| == 0 then 0
    else
      var n := |calls| - 1;
      match OutcomeAt(cfg, calls, n)
      case Exhausted => FailuresSince(cfg, calls[..n]) + 1
      case Answered(code) => if Healthy(code) then 0 else FailuresSince(cfg, calls[..n])
      case _ => FailuresSince(cfg, calls[..n])
  }

  /** The exhausted calls after which none was answered with 2xx or 4xx. */
  ghost function Uncleared(cfg: Config, calls: seq<Call>): set<nat> {
    set i: nat | i < |calls| && OutcomeAt(cfg, calls, i) == Exhausted
                 && forall j: nat :: i < j < |calls| ==> !Clears(OutcomeAt(cfg, calls, j))
  }

  predicate Clears(o: Outcome) { o.Answered? && (200 <= o.code <= 299 || 400 <= o.code <= 499) }

  lemma OutcomeInPrefix(cfg: Config, calls: seq<Call>, n: nat, i: nat)
    requires i < n <= |calls|
    ensures OutcomeAt(cfg, calls[..n], i) == OutcomeAt(cfg, calls, i)
  {
    assert calls[..n][..i] == calls[..i];
    hide DoCall, After;
  }

  /** The count is the number of those calls. */
  lemma {:induction false} CountsUncleared(cfg: Config, calls: seq<Call>)
    ensures FailuresSince(cfg, calls) == |Uncleared(cfg, calls)|
  {
    hide OutcomeAt;
    if |calls| != 0 {
      var n := |calls| - 1;
      CountsUncleared(cfg, calls[..n]);
      forall i: nat | i < n
        ensures OutcomeAt(cfg, calls[..n], i) == OutcomeAt(cfg, calls, i)
      {
        OutcomeInPrefix(cfg, calls, n, i);
      }
      UnclearedStep(cfg, calls);
      hide Uncleared;
    }
  }

  lemma UnclearedStep(cfg: Config, calls: seq<Call>)
    requires |calls| != 0
    requires var n := |calls| - 1;
             forall i: nat :: i < n ==> OutcomeAt(cfg, calls[..n], i) == OutcomeAt(cfg, calls, i)
    ensures var n := |calls| - 1;
            var before := Uncleared(cfg, calls[..n]);
            Uncleared(cfg, calls)
            == if Clears(OutcomeAt(cfg, calls, n)) then {}
               else if OutcomeAt(cfg, calls, n) == Exhausted then before + {n} else before
    ensures |calls| - 1 !in Uncleared(cfg, calls[..|calls| - 1])
  {
    hide OutcomeAt;
  }

  /** When the last exhausted call ended; zero if there was none. */
  function LastExhausted(cfg: Config, calls: seq<Call>): int {
    if |calls| == 0 then 0
    else if OutcomeAt(cfg, calls, |calls| - 1) == Exhausted then calls[|calls| - 1].endAt
    else LastExhausted(cfg, calls[..|calls| - 1])
  }

  /** The failures that open the breaker: a limit below one works as one. */
  function Limit(cfg: Config): nat { if cfg.maxFailures < 1 then 1 else cfg.maxFailures }

  /** The breaker is a summary of the history of outcomes. */
  ghost predicate Summarises(b: Breaker, cfg: Config, calls: seq<Call>) {
    && b.failures == FailuresSince(cfg, calls)
    && b.lastFailure == LastExhausted(cfg, calls)
    && (b.state != Closed <==> b.failures >= Limit(cfg))
    && (b.state == HalfOpen ==> calls != [] && calls[|calls| - 1].endAt - b.lastFailure > cfg.resetTimeout)
  }

  lemma {:induction false} LoopEffect(b: Breaker, cfg: Config, call: Call, k: nat)
    requires k <= Attempts(cfg)
    ensures var (c, outcome, sent) := Loop(b, cfg, call, k);
            && |sent| <= Attempts(cfg) - k
            && (forall s :: s in sent ==> exists j: nat :: k <= j < Attempts(cfg) && call.attempts(j).sentAt == s)
            && c == (match outcome
                     case Exhausted => AfterFailure(b, cfg, call.endAt)
                     case Answered(code) => if Healthy(code) then AfterSuccess(b) else b
                     case _ => b)
            && (outcome.Exhausted? ==> |sent| == Attempts(cfg) - k)
            && (k == 0 < Attempts(cfg) ==> sent != [])
    decreases Attempts(cfg) - k
  {
    LoopStep(b, cfg, call, k);
    hide Loop;
    if k < Attempts(cfg) && !(k > 0 && call.attempts(k).cancelled) {
      assert call.attempts(k).sentAt == call.attempts(k).sentAt;
      if Retried(call.attempts(k).reply) { LoopEffect(b, cfg, call, k + 1); }
    }
  }

  lemma DoSummarises(b: Breaker, cfg: Config, calls: seq<Call>)
    requires Sequential(cfg, calls) && calls != []
    requires b == After(cfg, calls[..|calls| - 1]) && Summarises(b, cfg, calls[..|calls| - 1])
    ensures Summarises(DoCall(b, cfg, calls[|calls| - 1]).0, cfg, calls)
  {
    var n := |calls| - 1;
    var call := calls[n];
    var (c, allowed) := AfterCanExecute(b, cfg, call.now);
    LoopEffect(c, cfg, call, 0);
    hide Loop, After;
    assert Timely(cfg, call);
    if n > 0 { assert calls[..n][n - 1] == calls[n - 1]; assert calls[n - 1].endAt <= calls[n - 1 + 1].now; }
  }

  lemma {:induction false} SequentialPrefix(cfg: Config, calls: seq<Call>)
    requires Sequential(cfg, calls) && calls != []
    ensures Sequential(cfg, calls[..|calls| - 1])
  {
    var p := calls[..|calls| - 1];
    forall i | 0 <= i < |p| - 1 ensures p[i].endAt <= p[i + 1].now { assert calls[i].endAt <= calls[i + 1].now; }
  }

  /** Over every sequential run the breaker holds the number of exhausted calls
      since the last 2xx or 4xx and is not closed exactly when that number has
      reached the limit, or one where the limit is below one. */
  lemma {:induction false} BreakerSummarises(cfg: Config, calls: seq<Call>)
    requires Sequential(cfg, calls)
    ensures Summarises(After(cfg, calls), cfg, calls)
  {
    if |calls| != 0 {
      SequentialPrefix(cfg, calls);
      BreakerSummarises(cfg, calls[..|calls| - 1]);
      DoSummarises(After(cfg, calls[..|calls| - 1]), cfg, calls);
    }
  }

  lemma SequentialTake(cfg: Config, calls: seq<Call>, i: nat)
    requires Sequential(cfg, calls) && i <= |calls|
    ensures Sequential(cfg, calls[..i])
  {
    var p := calls[..i];
    forall k | 0 <= k < |p| - 1 ensures p[k].endAt <= p[k + 1].now { assert calls[k].endAt <= calls[k + 1].now; }
  }

  /** What a call gets is decided by the history alone: it is refused exactly
      when the exhausted calls since the last success reached the limit and the
      last of them ended no longer than the reset timeout ago. */
  lemma RefusedExactly(cfg: Config, calls: seq<Call>, i: nat)
    requires Sequential(cfg, calls) && i < |calls|
    ensures OutcomeAt(cfg, calls, i) == Refused
       <==> FailuresSince(cfg, calls[..i]) >= Limit(cfg)
            && calls[i].now - LastExhausted(cfg, calls[..i]) <= cfg.resetTimeout
  {
    SequentialTake(cfg, calls, i);
    BreakerSummarises(cfg, calls[..i]);
    if i > 0 { assert calls[..i][i - 1] == calls[i - 1]; assert calls[i - 1].endAt <= calls[i - 1 + 1].now; }
    hide After, FailuresSince, LastExhausted, Loop;
  }

  /** While the breaker is not closed no request goes out within the reset
      timeout of the last failure, and no call ever sends more than MaxRetries + 1. */
  lemma NoRequestWhileOpen(cfg: Config, calls: seq<Call>, i: nat, s: int)
    requires Sequential(cfg, calls) && i < |calls|
    requires s in DoCall(After(cfg, calls[..i]), cfg, calls[i]).2
    ensures FailuresSince(cfg, calls[..i]) >= Limit(cfg) ==>
              s - LastExhausted(cfg, calls[..i]) > cfg.resetTimeout
    ensures |DoCall(After(cfg, calls[..i]), cfg, calls[i]).2| <= cfg.maxRetries + 1
  {
    RefusedExactly(cfg, calls, i);
    var b := After(cfg, calls[..i]);
    var c := AfterCanExecute(b, cfg, calls[i].now).0;
    LoopEffect(c, cfg, calls[i], 0);
    hide After, FailuresSince, LastExhausted, Loop;
    assert Timely(cfg, calls[i]);
  }

  /** One exhausted call past the limit reopens the breaker at once: it is open,
      not half open, from the instant the call ended. */
  lemma ExhaustedReopens(cfg: Config, calls: seq<Call>, i: nat)
    requires Sequential(cfg, calls) && i < |calls|
    requires OutcomeAt(cfg, calls, i) == Exhausted && FailuresSince(cfg, calls[..i]) >= Limit(cfg) - 1
    ensures After(cfg, calls[..i + 1]).state == Open && After(cfg, calls[..i + 1]).lastFailure == calls[i].endAt
  {
    SequentialTake(cfg, calls, i);
    BreakerSummarises(cfg, calls[..i]);
    assert calls[..i + 1][..i] == calls[..i];
    LoopEffect(AfterCanExecute(After(cfg, calls[..i]), cfg, calls[i].now).0, cfg, calls[i], 0);
    hide FailuresSince, LastExhausted, Loop;
  }

  /** A call that the open breaker lets through and that proves nothing, being
      answered outside 2xx and 4xx or cancelled, leaves it half open: the next
      call is admitted whenever it comes. */
  lemma StaysHalfOpen(cfg: Config, calls: seq<Call>, i: nat)
    requires Sequential(cfg, calls) && i < |calls| && FailuresSince(cfg, calls[..i]) >= Limit(cfg)
    requires OutcomeAt(cfg, calls, i) != Refused && OutcomeAt(cfg, calls, i) != Exhausted
                 && !Clears(OutcomeAt(cfg, calls, i))
    ensures After(cfg, calls[..i + 1]).state == HalfOpen
    ensures After(cfg, calls[..i + 1]).lastFailure == LastExhausted(cfg, calls[..i])
  {
    SequentialTake(cfg, calls, i);
    BreakerSummarises(cfg, calls[..i]);
    assert calls[..i + 1][..i] == calls[..i];
    LoopEffect(AfterCanExecute(After(cfg, calls[..i]), cfg, calls[i].now).0, cfg, calls[i], 0);
    hide FailuresSince, LastExhausted, Loop;
  }

  // ----- the objects -----

  class CircuitBreaker {
    const cfg: Config
    var failureCount: int
    var lastFailureTime: int
    var state: State

    constructor (cfg: Config)
      ensures this.cfg == cfg && View() == FRESH
    {
      this.cfg, failureCount, lastFailureTime, state := cfg, 0, 0, Closed;
    }

    function View(): Breaker
      reads this
    {
      Breaker(state, failureCount, lastFailureTime)
    }

    method CanExecute(now: int) returns (ok: bool)
      modifies this
      ensures (View(), ok) == AfterCanExecute(old(View()), cfg, now)
    {
      match state {
        case Closed => return true;
        case Open =>
          if now - lastFailureTime > cfg.resetTimeout {
            state := HalfOpen;
            return true;
          }
          return false;
        case HalfOpen => return true;
      }
    }

    method RecordSuccess()
      modifies this
      ensures View() == AfterSuccess(old(View()))
    {
      failureCount := 0;
      state := Closed;
    }

    method RecordFailure(now: int)
      modifies this
      ensures View() == AfterFailure(old(View()), cfg, now)
    {
      failureCount := failureCount + 1;
      lastFailureTime := now;
      if failureCount >= cfg.maxFailures { state := Open; }
    }
  }

  class Client {
    const circuitBreaker: CircuitBreaker

    constructor (circuitBreaker: CircuitBreaker)
      ensures this.circuitBreaker == circuitBreaker
    {
      this.circuitBreaker := circuitBreaker;
    }

    /** The exponential backoff between attempts. */
    method Lengthen(wait: int) returns (waitTime: int)
      ensures waitTime == NextWait(circuitBreaker.cfg, wait)
    {
      waitTime := Truncate(wait as real * circuitBreaker.cfg.multiplier);
      if waitTime > circuitBreaker.cfg.maxWait {
        waitTime := circuitBreaker.cfg.maxWait;
      }
    }

    /** `Do`, its requests and their answers being given. */
    method Do(call: Call) returns (outcome: Outcome, sent: seq<int>, waits: seq<int>)
      modifies circuitBreaker
      ensures (circuitBreaker.View(), outcome, sent) == DoCall(old(circuitBreaker.View()), circuitBreaker.cfg, call)
      ensures circuitBreaker.cfg.maxRetries >= 0 ==> |sent| <= circuitBreaker.cfg.maxRetries + 1
      ensures circuitBreaker.cfg.maxRetries >= 0 && outcome.Exhausted? ==> |sent| == circuitBreaker.cfg.maxRetries + 1
      ensures |waits| == if sent == [] then 0 else |sent| - 1
      ensures forall k :: 0 <= k < |waits| ==> waits[k] == Wait(circuitBreaker.cfg, k)
    {
      hide AfterCanExecute, AfterFailure, AfterSuccess, NextWait, Wait, Loop;
      sent, waits := [], [];
      var allowed := circuitBreaker.CanExecute(call.now);
      if !allowed { return Refused, [], []; }
      WaitStep(circuitBreaker.cfg, 0);
      var waitTime := circuitBreaker.cfg.initialWait;
      ghost var b, cfg := circuitBreaker.View(), circuitBreaker.cfg;
      ghost var all := Loop(b, cfg, call, 0);
      assert DoCall(old(circuitBreaker.View()), cfg, call) == all by { hide Loop; }
      for attempt := 0 to Attempts(circuitBreaker.cfg)
        invariant circuitBreaker.View() == b
        invariant |sent| == attempt && |waits| == (if attempt == 0 then 0 else attempt - 1)
        invariant waitTime == Wait(cfg, |waits|)
        invariant forall k :: 0 <= k < |waits| ==> waits[k] == Wait(cfg, k)
        invariant var rest := Loop(b, cfg, call, attempt);
                  all.0 == rest.0 && all.1 == rest.1 && all.2 == sent + rest.2
      {
        var a := call.attempts(attempt);
        LoopStep(b, cfg, call, attempt);
        assert sent + [] == sent;
        if attempt > 0 {
          if a.cancelled { return Cancelled, sent, waits; }
          WaitStep(cfg, |waits|);
          waits := waits + [waitTime];
          waitTime := Lengthen(waitTime);
        }
        sent := sent + [a.sentAt];
        if a.reply.NetworkError? { continue; }
        if 200 <= a.reply.code < 300 {
          circuitBreaker.RecordSuccess();
          return Answered(a.reply.code), sent, waits;
        }
        if 400 <= a.reply.code < 500 {
          circuitBreaker.RecordSuccess();
          return Answered(a.reply.code), sent, waits;
        }
        if a.reply.code >= 500 { continue; }
        return Answered(a.reply.code), sent, waits;
      }
      LoopStep(b, cfg, call, Attempts(cfg));
      assert sent + [] == sent;
      circuitBreaker.RecordFailure(call.endAt);
      return Exhausted, sent, waits;
    }
  }
}
