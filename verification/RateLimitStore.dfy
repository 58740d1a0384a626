// The keys the rate limiter keeps in Redis, and the four commands it uses on them.
module RateLimitStore {
  import opened Wrappers
  import opened Clock
  import opened Text

  datatype Endpoint = Auth | Data | Upload | Admin | Public | Internal | Health

  function Name(e: Endpoint): (s: string)
    ensures forall c :: c in s ==> c != ':'
  {
    match e
    case Auth => "auth"
    case Data => "data"
    case Upload => "upload"
    case Admin => "admin"
    case Public => "public"
    case Internal => "internal"
    case Health => "health"
  }

  lemma NameInjective(a: Endpoint, b: Endpoint)
    requires Name(a) == Name(b)
    ensures a == b
  {
    assert |"auth"| == |"data"| == 4 && |"admin"| == 5 && |"upload"| == |"public"| == |"health"| == 6
           && |"internal"| == 8;
    assert "auth"[0] == 'a' && "data"[0] == 'd' && "upload"[0] == 'u' && "public"[0] == 'p' && "health"[0] == 'h';
    assert Name(a)[0] == Name(b)[0];
  }

  /** One client's counter for one endpoint type in one minute. */
  datatype Bucket = Bucket(client: string, endpoint: Endpoint, window: int)

  datatype Key = CountKey(bucket: Bucket) | BlockKey(client: string, endpoint: Endpoint)

  /** `now.Truncate(time.Minute)`. */
  function Window(now: int): (w: int)
    ensures w <= now < w + MINUTE && w % MINUTE == 0
  {
    now - now % MINUTE
  }

  // ----- key texts -----

  function KeyText(service: string, key: Key): string {
    match key
    case CountKey(b) =>
      "rate_limit:" + service + ":" + b.client + ":" + Name(b.endpoint) + ":" + Decimal(b.window / SECOND)
    case BlockKey(client, endpoint) =>
      "rate_limit_block:" + service + ":" + client + ":" + Name(endpoint)
  }

  /** The keys as Redis has them: the parts between colons, a counter's last part
      being the second its minute starts at. */
  lemma KeyLayout(service: string, b: Bucket, second: int)
    requires second * 1_000_000_000 <= b.window < (second + 1) * 1_000_000_000
    ensures KeyText(service, CountKey(b))
         == Join(["rate_limit", service, b.client, Name(b.endpoint), Decimal(second)], ":")
    ensures KeyText(service, BlockKey(b.client, b.endpoint))
         == Join(["rate_limit_block", service, b.client, Name(b.endpoint)], ":")
  {
    hide Name, Decimal;
    var name, d := Name(b.endpoint), Decimal(b.window / SECOND);
    assert b.window / SECOND == second;
    JoinFour("rate_limit_block", service, b.client, name);
    JoinFive("rate_limit", service, b.client, name, d);
    hide Join;
    assert "rate_limit:" == "rate_limit" + ":" && "rate_limit_block:" == "rate_limit_block" + ":";
    assert "rate_limit:" + service + ":" + b.client + ":" + name + ":" + d
        == "rate_limit" + ":" + (service + ":" + (b.client + ":" + (name + ":" + d)));
    assert "rate_limit_block:" + service + ":" + b.client + ":" + name
        == "rate_limit_block" + ":" + (service + ":" + (b.client + ":" + name));
  }

  lemma JoinFour(a: string, b: string, c: string, d: string)
    ensures Join([a, b, c, d], ":") == a + ":" + (b + ":" + (c + ":" + d))
  {
    JoinCons(c, [d], ":");
    JoinCons(b, [c, d], ":");
    JoinCons(a, [b, c, d], ":");
    assert [c] + [d] == [c, d] && [b] + [c, d] == [b, c, d] && [a] + [b, c, d] == [a, b, c, d];
    JoinOne(d, ":");
  }

  lemma JoinFive(a: string, b: string, c: string, d: string, e: string)
    ensures Join([a, b, c, d, e], ":") == a + ":" + (b + ":" + (c + ":" + (d + ":" + e)))
  {
    JoinFour(b, c, d, e);
    JoinCons(a, [b, c, d, e], ":");
    assert [a] + [b, c, d, e] == [a, b, c, d, e];
    hide Join;
    var rest := b + ":" + (c + ":" + (d + ":" + e));
    assert (a + ":") + rest == a + ":" + rest;
  }

  predicate AlignedKey(key: Key) {
    key.CountKey? ==> key.bucket.window % MINUTE == 0
  }

  /** What follows the last colon of a text determines what precedes it. */
  lemma LastColon(a: string, x: string, b: string, y: string)
    requires a + ":" + x == b + ":" + y
    requires (forall c :: c in x ==> c != ':') && (forall c :: c in y ==> c != ':')
    ensures a == b && x == y
  {
    var s := a + ":" + x;
    assert s[|a|] == ':' && s[|b|] == ':';
    assert forall i :: 0 <= i < |x| ==> x[i] in x;
    assert forall i :: 0 <= i < |y| ==> y[i] in y;
    assert forall i :: |a| < i < |s| ==> s[i] == x[i - |a| - 1];
    assert forall i :: |b| < i < |s| ==> s[i] == y[i - |b| - 1];
    assert s[..|a|] == a && s[..|b|] == b;
    assert s[|a| + 1..] == x && s[|b| + 1..] == y;
  }

  lemma SamePrefix(p: string, a: string, b: string)
    requires p + a == p + b
    ensures a == b
  {
    assert (p + a)[|p|..] == a && (p + b)[|p|..] == b;
  }

  lemma CountTextInjective(p: string, x: Bucket, y: Bucket)
    requires x.window % MINUTE == 0 && y.window % MINUTE == 0
    requires p + x.client + ":" + Name(x.endpoint) + ":" + Decimal(x.window / SECOND)
          == p + y.client + ":" + Name(y.endpoint) + ":" + Decimal(y.window / SECOND)
    ensures x == y
  {
    hide Name, Decimal;
    LastColon(p + x.client + ":" + Name(x.endpoint), Decimal(x.window / SECOND),
              p + y.client + ":" + Name(y.endpoint), Decimal(y.window / SECOND));
    LastColon(p + x.client, Name(x.endpoint), p + y.client, Name(y.endpoint));
    SamePrefix(p, x.client, y.client);
    NameInjective(x.endpoint, y.endpoint);
    DecimalInjective(x.window / SECOND, y.window / SECOND);
  }

  lemma BlockTextInjective(p: string, c: string, e: Endpoint, c': string, e': Endpoint)
    requires p + c + ":" + Name(e) == p + c' + ":" + Name(e')
    ensures c == c' && e == e'
  {
    hide Name;
    LastColon(p + c, Name(e), p + c', Name(e'));
    SamePrefix(p, c, c');
    NameInjective(e, e');
  }

  lemma KindsDiffer(service: string, b: Bucket, client: string, endpoint: Endpoint)
    ensures KeyText(service, CountKey(b)) != KeyText(service, BlockKey(client, endpoint))
  {
    hide Name, Decimal;
    assert KeyText(service, CountKey(b))[10] == ':';
    assert KeyText(service, BlockKey(client, endpoint))[10] == '_';
  }

  /** No two clients, endpoint types or minutes share a Redis key, even when
      client identifiers hold colons, and no counter shares one with a block. */
  lemma KeyTextInjective(service: string, a: Key, b: Key)
    requires AlignedKey(a) && AlignedKey(b)
    requires KeyText(service, a) == KeyText(service, b)
    ensures a == b
  {
    hide Name, Decimal;
    match (a, b)
    case (CountKey(x), CountKey(y)) => CountTextInjective("rate_limit:" + service + ":", x, y);
    case (BlockKey(c, e), BlockKey(c', e')) => BlockTextInjective("rate_limit_block:" + service + ":", c, e, c', e');
    case (CountKey(x), BlockKey(c, e)) => KindsDiffer(service, x, c, e);
    case (BlockKey(c, e), CountKey(x)) => KindsDiffer(service, x, c, e);
  }

  // ----- entries with an expiry -----

  datatype Entry = Entry(value: nat, expires: Option<int>)

  type Store = map<Key, Entry>

  predicate Live(s: Store, k: Key, now: int) {
    k in s && (s[k].expires.None? || now < s[k].expires.value)
  }

  /** GET as a number: a missing or expired key reads as zero. */
  function Value(s: Store, k: Key, now: int): nat {
    if Live(s, k, now) then s[k].value else 0
  }

  /** SET with a time to live; a duration of zero or less sets none. */
  function Set(s: Store, k: Key, v: nat, ttl: int, now: int): Store {
    s[k := Entry(v, if ttl > 0 then Some(now + ttl) else None)]
  }

  /** INCR: a live key keeps its expiry, a new one has none. */
  function Incr(s: Store, k: Key, now: int): Store {
    s[k := if Live(s, k, now) then s[k].(value := s[k].value + 1) else Entry(1, None)]
  }

  function Expire(s: Store, k: Key, ttl: int, now: int): Store {
    if Live(s, k, now) then s[k := s[k].(expires := Some(now + ttl))] else s
  }

  // ----- configuration -----

  datatype LimitConfig = LimitConfig(requestsPerMinute: int, burstAllowance: int, blockDuration: int)

  type Limits = Endpoint -> LimitConfig

  /** `RateLimitConfigs`. */
  function DefaultLimits(e: Endpoint): LimitConfig {
    match e
    case Auth => LimitConfig(10, 3, 5 * MINUTE)
    case Data => LimitConfig(60, 10, 1 * MINUTE)
    case Upload => LimitConfig(20, 5, 2 * MINUTE)
    case Admin => LimitConfig(30, 5, 1 * MINUTE)
    case Public => LimitConfig(100, 20, 30 * SECOND)
    case Internal => LimitConfig(200, 50, 30 * SECOND)
    case Health => LimitConfig(0, 0, 0)
  }

  function Limit(c: LimitConfig): int { c.requestsPerMinute + c.burstAllowance }

  predicate Limited(c: LimitConfig) { c.requestsPerMinute != 0 }

  /** The grants a single caller can get in one minute. */
  function Quota(c: LimitConfig): nat { if Limit(c) > 0 then Limit(c) else 0 }
}
