// Retrying: the loop that waits for a secret, and its doubling waits.
module SecretRetry {
  import opened Backoff

  datatype Reply = Value(value: string) | NotFound | Unavailable | Terminal(error: string)

  /** One turn of the loop: what the inner store answers, and whether ctx is
      done before the wait is over. */
  datatype Round = Round(reply: Reply, cancelled: bool)

  datatype Outcome = Found(value: string) | Failed(error: string) | Cancelled | StillWaiting

  predicate Retryable(r: Reply) { r.NotFound? || r.Unavailable? }

  /** `backoff *= 2`, clamped. */
  function NextWait(backoff: int, max: int): int {
    var doubled := Wrap64(2 * backoff);
    if doubled > max then max else doubled
  }

  function Wait(initial: int, max: int, k: nat): int {
    if k == 0 then initial else NextWait(Wait(initial, max, k - 1), max)
  }

  lemma WaitSteps(initial: int, max: int, k: nat)
    ensures Wait(initial, max, 0) == initial
    ensures Wait(initial, max, k + 1) == NextWait(Wait(initial, max, k), max)
  {
  }

  predicate Ends(r: Round) { !Retryable(r.reply) || r.cancelled }

  /** The first turn that leaves the loop. */
  function Last(rounds: seq<Round>): (n: nat)
    ensures n <= |rounds|
    ensures n < |rounds| ==> Ends(rounds[n])
    ensures forall i :: 0 <= i < n ==> !Ends(rounds[i])
  {
    if rounds == [] || Ends(rounds[0]) then 0 else 1 + Last(rounds[1..])
  }

  function Verdict(r: Round): Outcome
    requires Ends(r)
  {
    match r.reply
    case Value(v) => Found(v)
    case Terminal(e) => Failed(e)
    case _ => Cancelled
  }

  /** The secret is found when a turn answers with it, every turn before having
      found it missing or the backend down and waited undisturbed; another error
      ends the loop in the same way; and it is cancelled by the first wait in
      which ctx is done. */
  lemma VerdictMeans(rounds: seq<Round>)
    ensures var n := Last(rounds);
            && (forall i :: 0 <= i < n ==>
                  (rounds[i].reply == NotFound || rounds[i].reply == Unavailable) && !rounds[i].cancelled)
            && (n < |rounds| ==>
                  match rounds[n].reply
                  case Value(v) => Verdict(rounds[n]) == Found(v)
                  case Terminal(e) => Verdict(rounds[n]) == Failed(e)
                  case _ => rounds[n].cancelled && Verdict(rounds[n]) == Cancelled)
  {
    forall i | 0 <= i < Last(rounds)
      ensures (rounds[i].reply == NotFound || rounds[i].reply == Unavailable) && !rounds[i].cancelled
    {
      assert !Ends(rounds[i]);
    }
  }

  class RetryingStore {
    const initial: int
    const max: int

    constructor (initial: int, max: int)
      ensures this.initial == initial && this.max == max
    {
      this.initial, this.max := initial, max;
    }

    /** Retries exactly while the secret is missing or the backend down: the
        first other answer decides, and ctx being done stops the loop. */
    method Get(rounds: seq<Round>) returns (outcome: Outcome, waits: seq<int>)
      ensures |waits| == Last(rounds)
      ensures forall k :: 0 <= k < |waits| ==> waits[k] == Wait(initial, max, k)
      ensures outcome == if Last(rounds) == |rounds| then StillWaiting else Verdict(rounds[Last(rounds)])
    {
      hide Wait, Last, Wrap64;
      WaitSteps(initial, max, 0);
      var backoff := initial;
      waits := [];
      for i := 0 to |rounds|
        invariant |waits| == i && backoff == Wait(initial, max, i)
        invariant forall k :: 0 <= k < i ==> waits[k] == Wait(initial, max, k)
        invariant forall k :: 0 <= k < i ==> !Ends(rounds[k])
      {
        match rounds[i].reply {
          case Value(v) => return Found(v), waits;
          case Terminal(e) => return Failed(e), waits;
          case _ =>
        }
        if rounds[i].cancelled { return Cancelled, waits; }
        waits := waits + [backoff];
        WaitSteps(initial, max, i);
        backoff := Wrap64(backoff * 2);
        if backoff > max { backoff := max; }
      }
      return StillWaiting, waits;
    }
  }

  // ----- the closed form -----

  function ClosedForm(initial: int, max: int, k: nat): int { Min(initial * Pow2(k), max) }

  lemma {:induction false} WaitClosedForm(initial: int, max: int, k: nat)
    requires 0 < initial <= max < TWO62
    ensures Wait(initial, max, k) == ClosedForm(initial, max, k)
  {
    if k > 0 {
      WaitClosedForm(initial, max, k - 1);
      var p := initial * Pow2(k - 1);
      assert initial * Pow2(k) == 2 * p;
    }
  }

  lemma {:induction false} CappedFromAbove(initial: int, max: int, k: nat)
    requires 0 <= max < initial < TWO62 && k >= 1
    ensures Wait(initial, max, k) == max
  {
    WaitSteps(initial, max, k - 1);
    if k > 1 { CappedFromAbove(initial, max, k - 1); }
  }

  /** Starting above the cap, every wait but the first is the cap, if and only
      if the first is below 2^62 nanoseconds; else its double wraps around and
      the second wait is negative. */
  lemma WaitFromAboveCap(initial: int, max: int)
    requires 0 <= max < initial < TWO63
    ensures (forall k: nat :: k >= 1 ==> Wait(initial, max, k) == max) <==> initial < TWO62
  {
    if initial < TWO62 {
      forall k: nat | k >= 1
        ensures Wait(initial, max, k) == max
      {
        CappedFromAbove(initial, max, k);
      }
    } else {
      WaitSteps(initial, max, 0);
      assert (2 * initial + TWO63) % TWO64 == 2 * initial - TWO63;
      assert Wait(initial, max, 1) < 0;
    }
  }

  /** The first k at which the doubled wait no longer fits below 2^62. */
  lemma {:induction false} FirstLarge(initial: int, k: nat) returns (j: nat)
    requires 0 < initial < TWO62
    requires initial * Pow2(k) >= TWO62
    ensures initial * Pow2(j) >= TWO62 && j > 0 && initial * Pow2(j - 1) < TWO62
  {
    if initial * Pow2(k - 1) < TWO62 { j := k; } else { j := FirstLarge(initial, k - 1); }
  }

  lemma {:induction false} WaitBelowLarge(initial: int, max: int, k: nat)
    requires 0 < initial <= max && TWO62 <= max < TWO63 && initial * Pow2(k) < TWO63
    ensures Wait(initial, max, k) == ClosedForm(initial, max, k)
  {
    if k > 0 {
      var p := initial * Pow2(k - 1);
      assert initial * Pow2(k) == 2 * p;
      assert p >= 0;
      WaitBelowLarge(initial, max, k - 1);
    }
  }

  lemma WaitOverflows(initial: int, max: int) returns (k: nat)
    requires 0 < initial <= max && TWO62 <= max < TWO63
    ensures Wait(initial, max, k) < 0
  {
    hide NextWait, Wrap64;
    var j: nat := 0;
    if initial < TWO62 {
      PowSixtyThree();
      Product(initial, Pow2(62));
      j := FirstLarge(initial, 62);
      assert initial * Pow2(j) == 2 * (initial * Pow2(j - 1));
    } else {
      assert initial * Pow2(0) == initial;
    }
    WaitBelowLarge(initial, max, j);
    DoublingWraps(Wait(initial, max, j), max);
    k := j + 1;
  }

  lemma DoublingWraps(w: int, max: int)
    requires TWO62 <= w <= max < TWO63
    ensures NextWait(w, max) < 0
  {
    assert (2 * w + TWO63) % TWO64 == 2 * w - TWO63;
  }

  /** The k-th wait is min(initial * 2^k, max), for every k, exactly when the
      cap is below 2^62 nanoseconds; above that the doubling wraps around and
      some wait is negative. */
  lemma WaitsExact(initial: int, max: int)
    requires 0 < initial <= max < TWO63
    ensures (forall k: nat :: Wait(initial, max, k) == ClosedForm(initial, max, k)) <==> max < TWO62
  {
    if max < TWO62 {
      forall k: nat ensures Wait(initial, max, k) == ClosedForm(initial, max, k) {
        WaitClosedForm(initial, max, k);
      }
    } else {
      var k := WaitOverflows(initial, max);
      assert initial * Pow2(k) >= 0;
      assert Wait(initial, max, k) != ClosedForm(initial, max, k);
    }
  }
}
