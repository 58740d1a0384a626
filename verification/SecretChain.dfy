// Chain: lookup through a list of stores.
module SecretChain {

  datatype Error = ErrNotFound | NotFoundAt(detail: string) | ErrReadOnly | Other(detail: string)

  /** `errors.Is(err, ErrNotFound)`. */
  predicate IsNotFound(e: Error) { e.ErrNotFound? || e.NotFoundAt? }

  datatype Reply = Value(value: string) | Failure(error: Error)

  datatype Presence = Present | Absent | Unknown(error: Error)

  /** What one member of the chain answers for one path. */
  datatype Member = Member(get: Reply, has: Presence)

  predicate Misses(r: Reply) { r.Failure? && IsNotFound(r.error) }

  /** The first member that does not miss. */
  function FirstAnswer(ms: seq<Member>): (n: nat)
    ensures n <= |ms|
    ensures n < |ms| ==> !Misses(ms[n].get)
    ensures forall i :: 0 <= i < n ==> Misses(ms[i].get)
  {
    if ms == [] || !Misses(ms[0].get) then 0 else 1 + FirstAnswer(ms[1..])
  }

  /** First-found lookup; when every member misses, the last one's error. */
  function Resolve(ms: seq<Member>): Reply {
    if FirstAnswer(ms) < |ms| then ms[FirstAnswer(ms)].get
    else if ms == [] then Failure(ErrNotFound)
    else ms[|ms| - 1].get
  }

  /** What a chain answers: the reply of the first member that has the value or
      fails with something else than "not found"; when every member reports
      "not found", in either wording, the report of the last; and an empty chain
      reports it itself. */
  lemma ResolveMeans(ms: seq<Member>, i: nat)
    requires forall j :: 0 <= j < i && j < |ms| ==>
               ms[j].get.Failure? && (ms[j].get.error.ErrNotFound? || ms[j].get.error.NotFoundAt?)
    ensures ms == [] ==> Resolve(ms) == Failure(ErrNotFound)
    ensures i < |ms| && (ms[i].get.Value? || ms[i].get.error.ErrReadOnly? || ms[i].get.error.Other?) ==>
              Resolve(ms) == ms[i].get
    ensures ms != [] && i == |ms| ==> Resolve(ms) == ms[|ms| - 1].get
  {
    assert forall j :: 0 <= j < i && j < |ms| ==> Misses(ms[j].get);
  }

  /** Exists answers like the first member that does not say no. */
  lemma {:induction false} ExistsMeans(ms: seq<Member>, i: nat)
    ensures (forall m :: m in ms ==> m.has == Absent) ==> Exists(ms) == Absent
    ensures i < |ms| && (forall j :: 0 <= j < i ==> ms[j].has == Absent) && ms[i].has != Absent ==>
              Exists(ms) == ms[i].has
  {
    if ms != [] { ExistsMeans(ms[1..], if i > 0 then i - 1 else 0); }
  }

  method Get(ms: seq<Member>) returns (r: Reply)
    ensures r == Resolve(ms)
  {
    var lastErr := ErrNotFound;
    for i := 0 to |ms|
      invariant forall j :: 0 <= j < i ==> Misses(ms[j].get)
      invariant lastErr == if i == 0 then ErrNotFound else ms[i - 1].get.error
    {
      var reply := ms[i].get;
      if reply.Value? { return reply; }
      if !IsNotFound(reply.error) { return reply; }
      lastErr := reply.error;
    }
    return Failure(lastErr);
  }

  function Exists(ms: seq<Member>): Presence {
    if ms == [] then Absent
    else if ms[0].has.Absent? then Exists(ms[1..])
    else ms[0].has
  }

  // ----- laws -----

  /** A chain as a member of another chain. */
  function AsMember(ms: seq<Member>): Member { Member(Resolve(ms), Exists(ms)) }

  function Flatten(nested: seq<seq<Member>>): seq<Member> {
    if nested == [] then [] else nested[0] + Flatten(nested[1..])
  }

  function AsMembers(nested: seq<seq<Member>>): (ms: seq<Member>)
    ensures |ms| == |nested|
    ensures forall i :: 0 <= i < |ms| ==> ms[i] == AsMember(nested[i])
  {
    if nested == [] then [] else [AsMember(nested[0])] + AsMembers(nested[1..])
  }

  /** The same value, or the same error, or both "not found". */
  predicate SameAnswer(a: Reply, b: Reply) { a == b || (Misses(a) && Misses(b)) }

  lemma ResolveCons(m: Member, ms: seq<Member>)
    ensures Resolve([m] + ms) == if !Misses(m.get) || ms == [] then m.get else Resolve(ms)
  {
    assert ([m] + ms)[1..] == ms;
  }

  lemma ResolveNothing()
    ensures Resolve([]) == Failure(ErrNotFound)
  {
  }

  lemma {:induction false} ResolveAppend(xs: seq<Member>, ys: seq<Member>)
    ensures Resolve(xs + ys) == if !Misses(Resolve(xs)) || ys == [] then Resolve(xs) else Resolve(ys)
  {
    if xs == [] {
      assert xs + ys == ys;
      if ys == [] { assert Resolve(xs + ys) == Resolve(xs); }
    } else {
      assert xs == [xs[0]] + xs[1..] && xs + ys == [xs[0]] + (xs[1..] + ys);
      ResolveCons(xs[0], xs[1..] + ys);
      ResolveCons(xs[0], xs[1..]);
      ResolveAppend(xs[1..], ys);
      if xs[1..] == [] { assert xs[1..] + ys == ys; }
    }
  }

  lemma {:induction false} ExistsAppend(xs: seq<Member>, ys: seq<Member>)
    ensures Exists(xs + ys) == if Exists(xs).Absent? then Exists(ys) else Exists(xs)
  {
    if xs == [] {
      assert xs + ys == ys;
    } else {
      assert (xs + ys)[1..] == xs[1..] + ys;
      ExistsAppend(xs[1..], ys);
    }
  }

  /** Nesting chains changes nothing: a chain of chains finds, fails and
      reports presence as the one flat chain does. Only the wording of a
      "not found" may differ, and only where some inner chain is empty. */
  lemma {:induction false} ChainFlattens(nested: seq<seq<Member>>)
    ensures SameAnswer(Resolve(AsMembers(nested)), Resolve(Flatten(nested)))
    ensures (forall ms :: ms in nested ==> ms != []) ==> Resolve(AsMembers(nested)) == Resolve(Flatten(nested))
    ensures Exists(AsMembers(nested)) == Exists(Flatten(nested))
    decreases |nested|
  {
    hide FirstAnswer, Resolve;
    ResolveNothing();
    if nested != [] {
      var rest := nested[1..];
      ChainFlattens(rest);
      assert AsMembers(nested) == [AsMember(nested[0])] + AsMembers(rest);
      ResolveCons(AsMember(nested[0]), AsMembers(rest));
      ResolveAppend(nested[0], Flatten(rest));
      ExistsAppend(nested[0], Flatten(rest));
      ExistsAppend([AsMember(nested[0])], AsMembers(rest));
      FlattenEmpty(rest);
      assert [AsMember(nested[0])][1..] == [];
      assert forall ms :: ms in rest ==> ms in nested;
    }
  }

  lemma {:induction false} FlattenEmpty(nested: seq<seq<Member>>)
    ensures Flatten(nested) == [] ==> Misses(Resolve(AsMembers(nested)))
    ensures Flatten(nested) == [] && (forall ms :: ms in nested ==> ms != []) ==> nested == []
    decreases |nested|
  {
    if nested != [] {
      FlattenEmpty(nested[1..]);
      ResolveCons(AsMember(nested[0]), AsMembers(nested[1..]));
      assert nested[0] in nested;
    }
  }

  predicate Agrees(m: Member) {
    match m.get
    case Value(_) => m.has == Present
    case Failure(e) => m.has == if IsNotFound(e) then Absent else Unknown(e)
  }

  /** When Exists agrees with Get in every member, it does in the chain. */
  lemma {:induction false} ChainAgrees(ms: seq<Member>)
    requires forall m :: m in ms ==> Agrees(m)
    ensures Agrees(AsMember(ms))
  {
    if ms != [] {
      ChainAgrees(ms[1..]);
      assert ms == [ms[0]] + ms[1..] && ms[0] in ms;
      ResolveCons(ms[0], ms[1..]);
    }
  }

  // ----- Set -----

  datatype SetResult = Done | Refused(error: Error)

  type Values = map<string, string>

  function Ask(s: Values, path: string): Member {
    if path in s then Member(Value(s[path]), Present) else Member(Failure(ErrNotFound), Absent)
  }

  function AskAll(stores: seq<Values>, path: string): (ms: seq<Member>)
    ensures |ms| == |stores| && forall i :: 0 <= i < |ms| ==> ms[i] == Ask(stores[i], path)
  {
    if stores == [] then [] else [Ask(stores[0], path)] + AskAll(stores[1..], path)
  }

  /** Set goes to the first store, whose answer is `verdict`. Once accepted, the
      chain finds the value whatever the fallbacks hold, and answers for every
      other path as before; refused, nothing changes. An empty chain refuses. */
  method Set(stores: seq<Values>, path: string, value: string, verdict: SetResult)
    returns (after: seq<Values>, r: SetResult)
    ensures r.Done? <==> stores != [] && verdict.Done?
    ensures r.Refused? ==> r.error == (if stores == [] then ErrReadOnly else verdict.error) && after == stores
    ensures r.Done? ==> Resolve(AskAll(after, path)) == Value(value) && Exists(AskAll(after, path)) == Present
    ensures r.Done? ==> forall other :: other != path ==>
              AsMember(AskAll(after, other)) == AsMember(AskAll(stores, other))
    ensures |after| == |stores| && forall i :: 0 < i < |stores| ==> after[i] == stores[i]
  {
    if |stores| == 0 { return stores, Refused(ErrReadOnly); }
    if verdict.Refused? { return stores, verdict; }
    after := stores[0 := stores[0][path := value]];
    SetThenAsk(stores, path, value);
    return after, Done;
  }

  lemma SetThenAsk(stores: seq<Values>, path: string, value: string)
    requires stores != []
    ensures var after := stores[0 := stores[0][path := value]];
            && Resolve(AskAll(after, path)) == Value(value) && Exists(AskAll(after, path)) == Present
            && forall other :: other != path ==> AskAll(after, other) == AskAll(stores, other)
  {
    var after := stores[0 := stores[0][path := value]];
    assert FirstAnswer(AskAll(after, path)) == 0;
    forall other | other != path
      ensures AskAll(after, other) == AskAll(stores, other)
    {
      assert forall i :: 0 <= i < |stores| ==> Ask(after[i], other) == Ask(stores[i], other);
    }
  }
}
