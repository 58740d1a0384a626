// The TTL cache over a secret store, one call at a time: it answers as the
// store it speeds up.
module SecretCache {

  type Values = map<string, string>

  datatype Entry = Entry(value: string, expires: int)

  type Entries = map<string, Entry>

  datatype Answer = Found(value: string) | NotFound | Written | Rejected | Present(there: bool) | Unreachable

  predicate Hit(entries: Entries, path: string, now: int) {
    path in entries && now < entries[path].expires
  }

  function Store(entries: Entries, ttl: int, path: string, value: string, now: int): Entries {
    entries[path := Entry(value, now + ttl)]
  }

  function Lookup(inner: Values, path: string): Answer {
    if path in inner then Found(inner[path]) else NotFound
  }

  // ----- runs of calls -----

  /** Times are the clock readings of the call; `up` says whether the backend
      answers a read, `accepted` what it answers a Set. */
  datatype Op =
    | Get(path: string, readAt: int, up: bool, storeAt: int)
    | Set(path: string, value: string, accepted: bool, storeAt: int)
    | Exists(path: string, readAt: int, up: bool)

  datatype Cache = Cache(inner: Values, entries: Entries)

  function Apply(c: Cache, ttl: int, op: Op): (Cache, Answer) {
    match op
    case Get(path, readAt, up, storeAt) =>
      if Hit(c.entries, path, readAt) then (c, Found(c.entries[path].value))
      else if !up then (c, Unreachable)
      else if path !in c.inner then (c, NotFound)
      else (c.(entries := Store(c.entries, ttl, path, c.inner[path], storeAt)), Found(c.inner[path]))
    case Set(path, value, accepted, storeAt) =>
      if !accepted then (c, Rejected)
      else (Cache(c.inner[path := value], Store(c.entries, ttl, path, value, storeAt)), Written)
    case Exists(path, readAt, up) =>
      (c, if Hit(c.entries, path, readAt) then Present(true) else if up then Present(path in c.inner) else Unreachable)
  }

  /** The same call on the bare store. */
  function Direct(inner: Values, op: Op): (Values, Answer) {
    match op
    case Get(path, _, up, _) => (inner, if up then Lookup(inner, path) else Unreachable)
    case Set(path, value, accepted, _) => if accepted then (inner[path := value], Written) else (inner, Rejected)
    case Exists(path, _, up) => (inner, if up then Present(path in inner) else Unreachable)
  }

  /** The call as it would be with the backend up. */
  function WhenUp(op: Op): Op { if op.Set? then op else op.(up := true) }

  function AllUp(ops: seq<Op>): (us: seq<Op>)
    ensures |us| == |ops| && forall i :: 0 <= i < |ops| ==> us[i] == WhenUp(ops[i])
  {
    seq(|ops|, i requires 0 <= i < |ops| => WhenUp(ops[i]))
  }

  function Answers(c: Cache, ttl: int, ops: seq<Op>): (answers: seq<Answer>)
    ensures |answers| == |ops|
    decreases |ops|
  {
    if ops == [] then [] else
      var (d, a) := Apply(c, ttl, ops[0]);
      [a] + Answers(d, ttl, ops[1..])
  }

  function DirectAnswers(inner: Values, ops: seq<Op>): (answers: seq<Answer>)
    ensures |answers| == |ops|
    decreases |ops|
  {
    if ops == [] then [] else
      var (d, a) := Direct(inner, ops[0]);
      [a] + DirectAnswers(d, ops[1..])
  }

  /** Every entry, expired or not, is what the inner store holds. */
  predicate Coherent(c: Cache) {
    forall p :: p in c.entries ==> p in c.inner && c.inner[p] == c.entries[p].value
  }

  /** The bare store's answer, or a hit where the bare store is unreachable. */
  predicate AsGood(answer: Answer, bare: Answer, whenUp: Answer) {
    answer == bare || (bare == Unreachable && answer == whenUp)
  }

  lemma CallTransparent(c: Cache, ttl: int, op: Op)
    requires Coherent(c)
    ensures Coherent(Apply(c, ttl, op).0)
    ensures Apply(c, ttl, op).0.inner == Direct(c.inner, op).0 == Direct(c.inner, WhenUp(op)).0
    ensures AsGood(Apply(c, ttl, op).1, Direct(c.inner, op).1, Direct(c.inner, WhenUp(op)).1)
  {
  }

  /** As long as the inner store changes only through this cache's Set, every
      call of a run, at any clock readings and for any TTL, gets the answer the
      inner store itself gives, or, where that is unreachable, possibly the one
      it would give if it were not; never any other. */
  lemma {:induction false} CacheTransparent(inner: Values, entries: Entries, ttl: int, ops: seq<Op>, i: nat)
    requires Coherent(Cache(inner, entries)) && i < |ops|
    ensures AsGood(Answers(Cache(inner, entries), ttl, ops)[i],
                   DirectAnswers(inner, ops)[i], DirectAnswers(inner, AllUp(ops))[i])
    decreases |ops|
  {
    hide Apply, Direct, AsGood, Coherent;
    CallTransparent(Cache(inner, entries), ttl, ops[0]);
    assert AllUp(ops)[1..] == AllUp(ops[1..]);
    if i > 0 {
      var c := Apply(Cache(inner, entries), ttl, ops[0]).0;
      CacheTransparent(c.inner, c.entries, ttl, ops[1..], i - 1);
    }
  }

  /** An entry appears only with a value found or written: a miss, a failure,
      a rejected Set and Exists leave the entries as they were. */
  lemma EntriesAppearWithValues(c: Cache, ttl: int, op: Op)
    ensures Apply(c, ttl, op).0.entries != c.entries ==> Apply(c, ttl, op).1.Found? || Apply(c, ttl, op).1.Written?
    ensures forall p :: p in Apply(c, ttl, op).0.entries && p !in c.entries ==> p == op.path
  {
  }

  // ----- what the cache is for -----

  /** The call stores `value` for `path`, reading the clock at `at`: a Get that
      found no live entry and got the value from the backend, or a Set that the
      backend accepted. */
  ghost predicate StoresValue(c: Cache, op: Op, path: string, value: string, at: int) {
    match op
    case Get(p, readAt, up, storeAt) =>
      && p == path && at == storeAt && up && p in c.inner && c.inner[p] == value
      && (p in c.entries ==> c.entries[p].expires <= readAt)
    case Set(p, v, accepted, storeAt) => p == path && v == value && at == storeAt && accepted
    case Exists(_, _, _) => false
  }

  /** No call of the run stores anything for `path`. */
  ghost predicate NoStore(c: Cache, ttl: int, ops: seq<Op>, path: string)
    decreases |ops|
  {
    ops != [] ==>
      && (forall value, at :: !StoresValue(c, ops[0], path, value, at))
      && NoStore(Apply(c, ttl, ops[0]).0, ttl, ops[1..], path)
  }

  function After(c: Cache, ttl: int, ops: seq<Op>): Cache
    decreases |ops|
  {
    if ops == [] then c else After(Apply(c, ttl, ops[0]).0, ttl, ops[1..])
  }

  lemma StoreMakesEntry(c: Cache, ttl: int, op: Op, path: string, value: string, at: int)
    requires StoresValue(c, op, path, value, at)
    ensures var d := Apply(c, ttl, op).0;
            path in d.entries && d.entries[path] == Entry(value, at + ttl)
    ensures Apply(c, ttl, op).1 == if op.Set? then Written else Found(value)
  {
  }

  lemma EntryStays(c: Cache, ttl: int, op: Op, path: string)
    requires path in c.entries && forall value, at :: !StoresValue(c, op, path, value, at)
    ensures var d := Apply(c, ttl, op).0;
            path in d.entries && d.entries[path] == c.entries[path]
  {
    if op.Get? && op.path == path && path in c.inner { assert !StoresValue(c, op, path, c.inner[path], op.storeAt); }
    if op.Set? { assert !StoresValue(c, op, path, op.value, op.storeAt); }
  }

  lemma {:induction false} EntryStaysOverRun(c: Cache, ttl: int, ops: seq<Op>, path: string)
    requires path in c.entries && NoStore(c, ttl, ops, path)
    ensures var d := After(c, ttl, ops);
            path in d.entries && d.entries[path] == c.entries[path]
    decreases |ops|
  {
    hide Apply, StoresValue;
    if ops != [] {
      EntryStays(c, ttl, ops[0], path);
      EntryStaysOverRun(Apply(c, ttl, ops[0]).0, ttl, ops[1..], path);
    }
  }

  /** Once a value was stored at s, and until another is stored for that path,
      every Get of the path before s + ttl is answered with it and every Exists
      with yes, whether or not the backend is up, and neither changes anything;
      from s + ttl on both ask the backend. */
  lemma ServesUntilExpiry(c: Cache, ttl: int, op: Op, ops: seq<Op>, path: string, value: string, at: int,
                          now: int, up: bool, storeAt: int)
    requires StoresValue(c, op, path, value, at) && NoStore(Apply(c, ttl, op).0, ttl, ops, path)
    ensures var d := After(Apply(c, ttl, op).0, ttl, ops);
            var (g, got) := Apply(d, ttl, Get(path, now, up, storeAt));
            var (e, there) := Apply(d, ttl, Exists(path, now, up));
            if now < at + ttl then got == Found(value) && there == Present(true) && g == e == d
            else && got == (if !up then Unreachable else if path in d.inner then Found(d.inner[path]) else NotFound)
                 && there == (if up then Present(path in d.inner) else Unreachable)
                 && g.inner == d.inner && e == d
  {
    hide NoStore, After;
    StoreMakesEntry(c, ttl, op, path, value, at);
    EntryStaysOverRun(Apply(c, ttl, op).0, ttl, ops, path);
  }

  // ----- the store objects -----

  class Backend {
    var values: Values

    constructor (values: Values)
      ensures this.values == values
    {
      this.values := values;
    }
  }

  class CachedStore {
    const inner: Backend
    const ttl: int
    var entries: Entries

    constructor (inner: Backend, ttl: int)
      ensures this.inner == inner && this.ttl == ttl && entries == map[]
    {
      this.inner, this.ttl, entries := inner, ttl, map[];
    }

    function State(): Cache
      reads this, inner
    {
      Cache(inner.values, entries)
    }

    method Get(path: string, readAt: int, up: bool, storeAt: int) returns (a: Answer)
      modifies this
      ensures (State(), a) == Apply(old(State()), ttl, Op.Get(path, readAt, up, storeAt))
    {
      if path in entries && readAt < entries[path].expires {
        return Found(entries[path].value);
      }
      if !up { return Unreachable; }
      if path !in inner.values {
        return NotFound;
      }
      var value := inner.values[path];
      StoreEntry(path, value, storeAt);
      return Found(value);
    }

    method Set(path: string, value: string, accepted: bool, storeAt: int) returns (a: Answer)
      modifies this, inner
      ensures (State(), a) == Apply(old(State()), ttl, Op.Set(path, value, accepted, storeAt))
    {
      if !accepted { return Rejected; }
      inner.values := inner.values[path := value];
      StoreEntry(path, value, storeAt);
      return Written;
    }

    method Exists(path: string, readAt: int, up: bool) returns (a: Answer)
      ensures (State(), a) == Apply(State(), ttl, Op.Exists(path, readAt, up))
    {
      if path in entries && readAt < entries[path].expires {
        return Present(true);
      }
      if !up { return Unreachable; }
      return Present(path in inner.values);
    }

    method StoreEntry(path: string, value: string, now: int)
      modifies this
      ensures entries == Store(old(entries), ttl, path, value, now)
    {
      entries := entries[path := Entry(value, now + ttl)];
    }
  }
}
