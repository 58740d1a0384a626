// Trace contexts: the W3C traceparent header, the service chain header, and
// what both carry across any number of hops.
module Tracing {
  import opened Wrappers
  import opened Text

  datatype TraceContext = TraceContext(
    traceId: string, spanId: string, parentSpanId: string,
    requestId: string, correlationId: string, userId: string, serviceChain: seq<string>)

  /** The tracing headers of a request; a header that is not set reads as "". */
  datatype Headers = Headers(
    traceId: string, spanId: string, parentSpanId: string, requestId: string,
    correlationId: string, userId: string, serviceChain: string, traceparent: string)

  // ----- traceparent -----

  predicate HexChar(c: char) { '0' <= c <= '9' || 'a' <= c <= 'f' }

  /** `isHex`: exactly n lower-case hex digits, not all of them zero. */
  predicate IsHex(s: string, n: nat) {
    |s| == n && (forall c :: c in s ==> HexChar(c)) && exists i :: 0 <= i < |s| && s[i] != '0'
  }

  /** An identifier of n characters as W3C Trace Context has it: lower-case hex
      digits, not all zero. */
  ghost predicate ValidId(s: string, n: nat) {
    |s| == n && (forall i :: 0 <= i < n ==> s[i] in "0123456789abcdef") && exists i :: 0 <= i < n && s[i] != '0'
  }

  lemma HexMeans(s: string, n: nat)
    ensures IsHex(s, n) <==> ValidId(s, n)
  {
    assert forall c :: HexChar(c) <==> c in "0123456789abcdef" by { HexDigits(); }
    if |s| == n {
      if IsHex(s, n) {
        forall i | 0 <= i < n
          ensures s[i] in "0123456789abcdef"
        {
          assert s[i] in s;
        }
      }
    }
  }

  lemma HexDigits()
    ensures forall c :: HexChar(c) <==> c in "0123456789abcdef"
  {
    var digits := "0123456789abcdef";
    forall c | HexChar(c)
      ensures c in digits
    {
      var k := if c <= '9' then c as int - '0' as int else c as int - 'a' as int + 10;
      assert digits[k] == c;
    }
  }

  /** `Traceparent`; the empty string when the identifiers do not fit. */
  function Traceparent(tc: TraceContext): string {
    if !IsHex(tc.traceId, 32) || !IsHex(tc.spanId, 16) then ""
    else "00" + "-" + tc.traceId + "-" + tc.spanId + "-" + "01"
  }

  function ParseTraceparent(value: string): Option<(string, string)> {
    var parts := Split(TrimSpace(value), "-");
    if |parts| < 4 || |parts[0]| != 2 then None
    else if !IsHex(parts[1], 32) || !IsHex(parts[2], 16) then None
    else Some((parts[1], parts[2]))
  }

  /** Version, identifiers and the rest, between dashes. */
  function Fields(version: string, traceId: string, spanId: string, rest: string): string {
    version + "-" + (traceId + "-" + (spanId + "-" + rest))
  }

  lemma HexHasNoDash(s: string, n: nat)
    requires IsHex(s, n)
    ensures !Contains(s, "-")
  {
    forall i | 0 <= i <= |s|
      ensures !HasPrefix(s[i..], "-")
    {
      if i < |s| {
        assert s[i] in s;
        assert s[i..][..1] == [s[i]];
      }
    }
  }

  lemma SplitFirst(name: string, rest: string)
    requires !Contains(name, "-")
    ensures Split(name + "-" + rest, "-") == [name] + Split(rest, "-")
  {
    FirstSeparator(name, "-", rest);
    var s := name + "-" + rest;
    assert s[..|name|] == name && s[|name| + 1..] == rest;
  }

  /** Exactly these values parse: two characters, the identifiers, and at least
      one more field, whatever it holds; blanks around them do not matter. */
  lemma ParseAccepts(value: string, traceId: string, spanId: string)
    ensures ParseTraceparent(value) == Some((traceId, spanId))
       <==> && ValidId(traceId, 32) && ValidId(spanId, 16)
            && exists version, rest :: |version| == 2 && !Contains(version, "-")
                 && TrimSpace(value) == Fields(version, traceId, spanId, rest)
  {
    HexMeans(traceId, 32);
    HexMeans(spanId, 16);
    hide ValidId;
    var v := TrimSpace(value);
    var parts := Split(v, "-");
    if ParseTraceparent(value) == Some((traceId, spanId)) {
      JoinSplit(v, "-");
      SplitPartsClean(v, "-");
      assert parts[0] in parts;
      var rest := Join(parts[3..], "-");
      JoinFour(parts);
      assert |parts[0]| == 2 && !Contains(parts[0], "-")
          && TrimSpace(value) == Fields(parts[0], traceId, spanId, rest);
    }
    if IsHex(traceId, 32) && IsHex(spanId, 16) {
      forall version, rest | |version| == 2 && !Contains(version, "-")
                             && v == Fields(version, traceId, spanId, rest)
        ensures ParseTraceparent(value) == Some((traceId, spanId))
      {
        SplitFields(version, traceId, spanId, rest);
      }
    }
  }

  lemma JoinFour(parts: seq<string>)
    requires |parts| >= 4
    ensures Join(parts, "-") == Fields(parts[0], parts[1], parts[2], Join(parts[3..], "-"))
  {
    hide Join, Fields;
    JoinTail(parts, 0);
    JoinTail(parts, 1);
    JoinTail(parts, 2);
    assert parts[0..] == parts;
    FieldsAre(parts[0], parts[1], parts[2], Join(parts[3..], "-"));
  }

  lemma FieldsAre(a: string, b: string, c: string, d: string)
    ensures Fields(a, b, c, d) == a + "-" + (b + "-" + (c + "-" + d))
  {
  }

  lemma JoinTail(parts: seq<string>, k: nat)
    requires k + 1 < |parts|
    ensures Join(parts[k..], "-") == parts[k] + "-" + Join(parts[k + 1..], "-")
  {
    assert parts[k..][1..] == parts[k + 1..] && parts[k..][0] == parts[k];
  }

  lemma SplitFields(version: string, traceId: string, spanId: string, rest: string)
    requires !Contains(version, "-") && IsHex(traceId, 32) && IsHex(spanId, 16)
    ensures Split(Fields(version, traceId, spanId, rest), "-")
         == [version, traceId, spanId] + Split(rest, "-")
  {
    hide IsHex, Split, Contains;
    var c := spanId + "-" + rest;
    var b := traceId + "-" + c;
    HexHasNoDash(traceId, 32);
    HexHasNoDash(spanId, 16);
    SplitFirst(version, b);
    SplitFirst(traceId, c);
    SplitFirst(spanId, rest);
  }

  lemma TrimNothing(s: string)
    requires s != "" ==> !IsSpace(s[0]) && !IsSpace(s[|s| - 1])
    ensures TrimSpace(s) == s
  {
  }

  /** Valid identifiers are rendered as version 00 with the sampled flag, in 55
      characters; for others nothing is. */
  lemma TraceparentText(tc: TraceContext)
    ensures if ValidId(tc.traceId, 32) && ValidId(tc.spanId, 16)
            then Traceparent(tc) == "00-" + tc.traceId + "-" + tc.spanId + "-01" && |Traceparent(tc)| == 55
            else Traceparent(tc) == ""
  {
    HexMeans(tc.traceId, 32);
    HexMeans(tc.spanId, 16);
    hide IsHex, ValidId;
    HexLength(tc.traceId, 32);
    HexLength(tc.spanId, 16);
  }

  lemma HexLength(s: string, n: nat)
    ensures IsHex(s, n) ==> |s| == n
  {
  }

  /** Parsing inverts rendering for every context with valid identifiers, and
      what was rendered from invalid ones parses as nothing. */
  lemma TraceparentRoundTrip(tc: TraceContext)
    ensures ParseTraceparent(Traceparent(tc))
         == if ValidId(tc.traceId, 32) && ValidId(tc.spanId, 16) then Some((tc.traceId, tc.spanId)) else None
  {
    hide ValidId, IsHex, ParseTraceparent, Traceparent;
    HexMeans(tc.traceId, 32);
    HexMeans(tc.spanId, 16);
    ParseRendered(tc);
  }

  lemma ParseRendered(tc: TraceContext)
    ensures ParseTraceparent(Traceparent(tc))
         == if IsHex(tc.traceId, 32) && IsHex(tc.spanId, 16) then Some((tc.traceId, tc.spanId)) else None
  {
    hide IsHex, Contains, Split, TrimSpace;
    var v := Traceparent(tc);
    if IsHex(tc.traceId, 32) && IsHex(tc.spanId, 16) {
      assert v[0] == '0' && v[|v| - 1] == '1';
      TrimNothing(v);
      assert v == Fields("00", tc.traceId, tc.spanId, "01");
      NoDash("00");
      SplitFields("00", tc.traceId, tc.spanId, "01");
    } else {
      TrimNothing("");
      SplitEmpty();
    }
  }

  lemma SplitEmpty()
    ensures Split("", "-") == [""]
  {
  }

  lemma NoDash(s: string)
    requires s == "00"
    ensures !Contains(s, "-")
  {
    forall i | 0 <= i <= 2
      ensures !HasPrefix(s[i..], "-")
    {
      if i < 2 { assert s[i..][..1] == [s[i]]; }
    }
  }

  // ----- service chain -----

  const ARROW: string := "->"

  /** The chain header, set only for a nonempty chain. */
  function ChainHeader(chain: seq<string>): string { Join(chain, ARROW) }

  /** An empty header is not parsed. */
  function ParseChain(header: string): seq<string> {
    if header == "" then [] else Split(header, ARROW)
  }

  lemma JoinNotEmpty(parts: seq<string>, sep: string)
    requires sep != "" && parts != [] && parts != [""]
    ensures Join(parts, sep) != ""
  {
  }

  /** A chain survives the header exactly when no name in it contains "->" and
      it is not the chain of one empty name. */
  lemma ChainRoundTrip(chain: seq<string>)
    ensures ParseChain(ChainHeader(chain)) == chain
       <==> chain != [""] && forall name :: name in chain ==> !Contains(name, ARROW)
  {
    if chain != [] && chain != [""] {
      JoinNotEmpty(chain, ARROW);
      SplitPartsClean(ChainHeader(chain), ARROW);
      if forall name :: name in chain ==> !Contains(name, ARROW) {
        SplitJoin(chain, ARROW);
      }
    }
  }

  // ----- contexts and headers -----

  function ToHeaders(tc: TraceContext): Headers {
    Headers(tc.traceId, tc.spanId, tc.parentSpanId, tc.requestId, tc.correlationId, tc.userId,
            ChainHeader(tc.serviceChain), Traceparent(tc))
  }

  /** `TraceContextFromHeaders`; `freshSpan` is the random span it may need. */
  function FromHeaders(h: Headers, freshSpan: string): TraceContext {
    var tc := TraceContext(h.traceId, h.spanId, h.parentSpanId, h.requestId, h.correlationId, h.userId,
                           ParseChain(h.serviceChain));
    match ParseTraceparent(h.traceparent)
    case None => tc
    case Some((traceId, parentSpanId)) =>
      tc.(traceId := traceId, parentSpanId := parentSpanId, spanId := if h.spanId == "" then freshSpan else h.spanId)
  }

  /** `NewTraceContext` continuing a trace. */
  function Continue(tc: TraceContext, freshSpan: string): TraceContext {
    tc.(spanId := freshSpan, parentSpanId := tc.spanId)
  }

  function AddToServiceChain(tc: TraceContext, service: string): TraceContext {
    tc.(serviceChain := tc.serviceChain + [service])
  }

  /** One outbound request: the calling service and the span its client draws. */
  datatype Hop = Hop(service: string, span: string)

  /** What the client sends. */
  function Outbound(tc: TraceContext, hop: Hop): TraceContext {
    AddToServiceChain(Continue(tc, hop.span), hop.service)
  }

  /** The context the next service works under: the tracing middleware adopts
      what it is sent unless that has no trace, and would start `other` then. */
  function Receive(h: Headers, freshSpan: string, other: TraceContext): TraceContext {
    if FromHeaders(h, freshSpan).traceId == "" then other else FromHeaders(h, freshSpan)
  }

  function AfterHop(tc: TraceContext, hop: Hop, freshSpan: string, other: TraceContext): TraceContext {
    Receive(ToHeaders(Outbound(tc, hop)), freshSpan, other)
  }

  function AfterHops(tc: TraceContext, hops: seq<Hop>, freshSpan: string, other: TraceContext): TraceContext {
    if hops == [] then tc
    else AfterHop(AfterHops(tc, hops[..|hops| - 1], freshSpan, other), hops[|hops| - 1], freshSpan, other)
  }

  function Services(hops: seq<Hop>): (names: seq<string>)
    ensures |names| == |hops| && forall i :: 0 <= i < |hops| ==> names[i] == hops[i].service
  {
    seq(|hops|, i requires 0 <= i < |hops| => hops[i].service)
  }

  /** The callee sees the same trace. With valid identifiers its parent is the span
      the caller drew; with others, which no traceparent carries, it is the span
      the caller itself worked under. */
  lemma HopKeepsTrace(tc: TraceContext, hop: Hop, freshSpan: string, other: TraceContext)
    requires tc.traceId != ""
    requires ParseChain(ChainHeader(tc.serviceChain + [hop.service])) == tc.serviceChain + [hop.service]
    ensures var parent := if ValidId(tc.traceId, 32) && ValidId(hop.span, 16) then hop.span else tc.spanId;
            AfterHop(tc, hop, freshSpan, other)
            == tc.(spanId := hop.span, parentSpanId := parent, serviceChain := tc.serviceChain + [hop.service])
  {
    hide ParseTraceparent, Traceparent, ParseChain, ChainHeader, ValidId;
    TraceparentRoundTrip(Outbound(tc, hop));
    ValidIsNotEmpty(tc.traceId, 32);
    ValidIsNotEmpty(hop.span, 16);
  }

  lemma ValidIsNotEmpty(s: string, n: nat)
    ensures ValidId(s, n) ==> s != ""
  {
  }

  /** A request without tracing headers starts a trace of its own; one that has
      only a valid traceparent is continued under a fresh span, with the sender's
      span as parent and a chain that starts anew. */
  lemma ForeignRequest(tc: TraceContext, freshSpan: string, other: TraceContext)
    requires ValidId(tc.traceId, 32) && ValidId(tc.spanId, 16)
    ensures Receive(Headers("", "", "", "", "", "", "", ""), freshSpan, other) == other
    ensures Receive(Headers("", "", "", "", "", "", "", Traceparent(tc)), freshSpan, other)
         == TraceContext(tc.traceId, freshSpan, tc.spanId, "", "", "", [])
  {
    TraceparentRoundTrip(tc);
    TrimNothing("");
    SplitEmpty();
    ValidIsNotEmpty(tc.traceId, 32);
    assert ParseTraceparent("") == None by { hide IsHex; }
    hide Traceparent, TrimSpace, Split, ValidId;
  }

  /** Headers bring a context across as it is, but for the parent, which with valid
      identifiers becomes the sender's span. */
  lemma HeadersRoundTrip(tc: TraceContext, freshSpan: string)
    requires ParseChain(ChainHeader(tc.serviceChain)) == tc.serviceChain
    ensures FromHeaders(ToHeaders(tc), freshSpan)
         == if ValidId(tc.traceId, 32) && ValidId(tc.spanId, 16) then tc.(parentSpanId := tc.spanId) else tc
  {
    hide ParseTraceparent, Traceparent, ParseChain, ChainHeader, ValidId;
    TraceparentRoundTrip(tc);
    ValidIsNotEmpty(tc.spanId, 16);
  }

  lemma ChainOk(chain: seq<string>, service: string)
    requires forall name :: name in chain ==> name != "" && !Contains(name, ARROW)
    requires service != "" && !Contains(service, ARROW)
    ensures ParseChain(ChainHeader(chain + [service])) == chain + [service]
  {
    ChainRoundTrip(chain + [service]);
    hide Contains, ParseChain, ChainHeader;
    var c := chain + [service];
    assert c != [""] by { assert c[|chain|] == service; }
    assert forall name :: name in c ==> name in chain || name == service;
  }

  /** Over any number of hops between services with proper names the trace, the
      request, the correlation and the user stay the same, the last service's
      parent is the span of the last caller, and the chain grows by the names of
      the callers in order. */
  lemma {:induction false} TraceOverHops(tc: TraceContext, hops: seq<Hop>, freshSpan: string, other: TraceContext)
    requires ValidId(tc.traceId, 32) && forall name :: name in tc.serviceChain ==> name != "" && !Contains(name, ARROW)
    requires forall h :: h in hops ==> ValidId(h.span, 16) && h.service != "" && !Contains(h.service, ARROW)
    ensures AfterHops(tc, hops, freshSpan, other)
         == if hops == [] then tc
            else tc.(spanId := hops[|hops| - 1].span, parentSpanId := hops[|hops| - 1].span,
                     serviceChain := tc.serviceChain + Services(hops))
  {
    hide ValidId, Contains, AfterHop, ParseChain, ChainHeader;
    if hops != [] {
      var n := |hops| - 1;
      TraceOverHops(tc, hops[..n], freshSpan, other);
      var before := AfterHops(tc, hops[..n], freshSpan, other);
      assert hops[n] in hops;
      assert before.serviceChain == tc.serviceChain + Services(hops[..n]);
      forall name | name in before.serviceChain
        ensures name != "" && !Contains(name, ARROW)
      {
        if name !in tc.serviceChain {
          var i :| 0 <= i < n && Services(hops[..n])[i] == name;
          assert hops[i] in hops;
        }
      }
      ChainOk(before.serviceChain, hops[n].service);
      ValidIsNotEmpty(tc.traceId, 32);
      HopKeepsTrace(before, hops[n], freshSpan, other);
      assert Services(hops) == Services(hops[..n]) + [hops[n].service];
    }
  }
}
