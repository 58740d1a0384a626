// Signing and verifying events over the canonical text of their fields.
module EventSigning {
  import opened Wrappers
  import opened Clock
  import opened Text
  import opened Json
  import opened Sorting
  import opened CanonicalMarshal

  type Bytes = seq<bv8>

  /** HMAC-SHA256 and base64, as one function of key and text. */
  type Mac = (Bytes, string) -> string

  /** No two keys or texts share a signature. */
  ghost predicate Ideal(mac: Mac) {
    forall k, t, k', t' :: mac(k, t) == mac(k', t') ==> k == k' && t == t'
  }

  /** Decoding a number into a float64 and printing it again; None when it is out of range. */
  type FloatCodec = NumberToken -> Option<NumberToken>

  /** The printed form of a float64 decodes to that float64. */
  ghost predicate Stable(conv: FloatCodec) {
    forall t :: conv(t).Some? ==> conv(conv(t).value) == conv(t)
  }

  // ----- instants -----

  /** January 1, year 1, UTC: Go's zero time. */
  const ZERO_TIME: int := -62135596800 * SECOND

  function Unix(t: int): int { t / SECOND }

  /** `t` lies in the second that starts n seconds after the epoch. */
  ghost predicate InSecond(t: int, n: int) {
    n * 1_000_000_000 <= t < (n + 1) * 1_000_000_000
  }

  ghost predicate SameSecond(a: int, b: int) { exists n :: InSecond(a, n) && InSecond(b, n) }

  lemma UnixIsSecond(t: int, n: int)
    ensures Unix(t) == n <==> n * 1_000_000_000 <= t < (n + 1) * 1_000_000_000
  {
  }

  lemma SameUnix(a: int, b: int)
    ensures Unix(a) == Unix(b) <==> SameSecond(a, b)
  {
    UnixIsSecond(a, Unix(a));
    UnixIsSecond(b, Unix(b));
    if n :| InSecond(a, n) && InSecond(b, n) {
      UnixIsSecond(a, n);
      UnixIsSecond(b, n);
    }
    if Unix(a) == Unix(b) { assert InSecond(a, Unix(a)) && InSecond(b, Unix(a)); }
  }

  // ----- entities -----

  /** `data` is a Go map, which may be nil. */
  datatype Event = Event(id: string, typ: string, timestamp: int, source: string, userId: string,
                         data: Option<map<string, Json>>)

  datatype SignedEvent = SignedEvent(event: Event, signature: string, signedAt: int, expiresAt: int)

  datatype Config = Config(key: Bytes, expiryWindow: int, requiredClaims: seq<string>)

  datatype Error = MissingClaim(claim: string) | UnknownClaim(claim: string) | BadData
                   | ShortKey | Expired | BadSignature

  datatype Result<+T> = Success(value: T) | Failure(error: Error)

  // ----- normalisation -----

  predicate Floatable(v: Json, conv: FloatCodec) {
    match v
    case Number(t) => conv(t).Some?
    case Array(items) => forall i :: 0 <= i < |items| ==> Floatable(items[i], conv)
    case Object(fields) => forall k :: k in fields ==> Floatable(fields[k], conv)
    case _ => true
  }

  function Floats(v: Json, conv: FloatCodec): (r: Json)
    requires Floatable(v, conv)
  {
    match v
    case Number(t) => Number(conv(t).value)
    case Array(items) => Array(seq(|items|, i requires 0 <= i < |items| => Floats(items[i], conv)))
    case Object(fields) => Object(map k | k in fields :: Floats(fields[k], conv))
    case _ => v
  }

  lemma {:induction false} FloatsStable(v: Json, conv: FloatCodec)
    requires Stable(conv) && Floatable(v, conv)
    ensures Floatable(Floats(v, conv), conv) && Floats(Floats(v, conv), conv) == Floats(v, conv)
  {
    var w := Floats(v, conv);
    match v
    case Array(items) =>
      forall i | 0 <= i < |items|
        ensures Floatable(w.items[i], conv) && Floats(w.items[i], conv) == w.items[i]
      {
        FloatsStable(items[i], conv);
      }
      assert Floats(w, conv).items == w.items;
    case Object(fields) =>
      forall k | k in fields
        ensures Floatable(w.fields[k], conv) && Floats(w.fields[k], conv) == w.fields[k]
      {
        FloatsStable(fields[k], conv);
      }
      assert Floats(w, conv).fields == w.fields;
    case _ =>
  }

  /** Decode a document into `any`, numbers becoming float64. */
  ghost function Unmarshal(text: string, conv: FloatCodec): Option<Json> {
    match Decode(text)
    case None => None
    case Some(v) => if Floatable(v, conv) then Some(Floats(v, conv)) else None
  }

  /** `normalizeDataStructure`: marshal, then unmarshal. encoding/json also
      prints object keys in order and without blanks, so it prints the canonical text. */
  ghost function Normalize(v: Json, conv: FloatCodec): Option<Json> {
    Unmarshal(Canonical(v), conv)
  }

  lemma NormalizeIsFloats(v: Json, conv: FloatCodec)
    ensures Normalize(v, conv) == if Floatable(v, conv) then Some(Floats(v, conv)) else None
  {
    RoundTrip(v);
  }

  /** Normalising goes through a value part by part: a number becomes what its
      float64 prints as, or fails the whole when it is out of range; arrays and
      objects keep their shape; everything else stays. */
  lemma NormalizeParts(v: Json, conv: FloatCodec)
    ensures v.Number? ==> Normalize(v, conv) == match conv(v.token) case None => None case Some(t) => Some(Number(t))
    ensures v.Null? || v.Bool? || v.String? ==> Normalize(v, conv) == Some(v)
    ensures v.Array? ==>
              var n := Normalize(v, conv);
              && (n.Some? <==> forall i :: 0 <= i < |v.items| ==> Normalize(v.items[i], conv).Some?)
              && (n.Some? ==> n.value.Array? && |n.value.items| == |v.items|
                              && forall i :: 0 <= i < |v.items| ==>
                                   Some(n.value.items[i]) == Normalize(v.items[i], conv))
    ensures v.Object? ==>
              var n := Normalize(v, conv);
              && (n.Some? <==> forall k :: k in v.fields ==> Normalize(v.fields[k], conv).Some?)
              && (n.Some? ==> n.value.Object? && n.value.fields.Keys == v.fields.Keys
                              && forall k :: k in v.fields ==> Some(n.value.fields[k]) == Normalize(v.fields[k], conv))
  {
    hide Normalize;
    NormalizeIsFloats(v, conv);
    if v.Array? {
      forall i | 0 <= i < |v.items|
        ensures Normalize(v.items[i], conv)
             == if Floatable(v.items[i], conv) then Some(Floats(v.items[i], conv)) else None
      {
        NormalizeIsFloats(v.items[i], conv);
      }
    }
    if v.Object? {
      forall k | k in v.fields
        ensures Normalize(v.fields[k], conv)
             == if Floatable(v.fields[k], conv) then Some(Floats(v.fields[k], conv)) else None
      {
        NormalizeIsFloats(v.fields[k], conv);
      }
    }
  }

  /** Normalising once is enough, and what normalising changes is the numbers alone. */
  lemma NormalizeIdempotent(v: Json, conv: FloatCodec)
    requires Stable(conv)
    ensures var n := Normalize(v, conv);
            n.Some? ==> Normalize(n.value, conv) == n
  {
    NormalizeIsFloats(v, conv);
    if Floatable(v, conv) {
      FloatsStable(v, conv);
      NormalizeIsFloats(Floats(v, conv), conv);
    }
  }

  // ----- canonical event data -----

  function DataJson(data: Option<map<string, Json>>): Json {
    match data
    case None => Null
    case Some(fields) => Object(fields)
  }

  const FIELD_NAMES: seq<string> :=
    ["data", "expires_at", "id", "signed_at", "source", "timestamp", "type", "user_id"]

  function UnixNumber(t: int): Json {
    assert forall c :: c in Decimal(Unix(t)) ==> NumberChar(c);
    Number(Decimal(Unix(t)))
  }

  function EventTree(e: Event, data: Json, signedAt: int, expiresAt: int): (tree: Json)
    ensures tree.Object? && tree.fields.Keys == set k | k in FIELD_NAMES
  {
    Object(map[
      "data" := data,
      "expires_at" := UnixNumber(expiresAt),
      "id" := String(e.id),
      "signed_at" := UnixNumber(signedAt),
      "source" := String(e.source),
      "timestamp" := UnixNumber(e.timestamp),
      "type" := String(e.typ),
      "user_id" := String(e.userId)])
  }

  /** `createCanonicalEventData`. */
  ghost function CanonicalEventData(e: Event, signedAt: int, expiresAt: int, conv: FloatCodec): Option<string> {
    match Normalize(DataJson(e.data), conv)
    case None => None
    case Some(data) => Some(Canonical(EventTree(e, data, signedAt, expiresAt)))
  }

  /** Everything the signature covers: the fields, the data once normalised,
      and the three instants to the second. */
  ghost predicate SameUpToSeconds(a: Event, aSigned: int, aExpires: int,
                                  b: Event, bSigned: int, bExpires: int, conv: FloatCodec) {
    && a.id == b.id && a.typ == b.typ && a.source == b.source && a.userId == b.userId
    && SameSecond(a.timestamp, b.timestamp) && SameSecond(aSigned, bSigned) && SameSecond(aExpires, bExpires)
    && Normalize(DataJson(a.data), conv) == Normalize(DataJson(b.data), conv)
  }

  lemma UnixNumberInjective(a: int, b: int)
    requires UnixNumber(a) == UnixNumber(b)
    ensures Unix(a) == Unix(b)
  {
    DecimalInjective(Unix(a), Unix(b));
  }

  lemma EventTreeInjective(a: Event, aData: Json, aSigned: int, aExpires: int,
                           b: Event, bData: Json, bSigned: int, bExpires: int)
    requires EventTree(a, aData, aSigned, aExpires) == EventTree(b, bData, bSigned, bExpires)
    ensures a.id == b.id && a.typ == b.typ && a.source == b.source && a.userId == b.userId && aData == bData
    ensures Unix(a.timestamp) == Unix(b.timestamp) && Unix(aSigned) == Unix(bSigned) && Unix(aExpires) == Unix(bExpires)
  {
    var s, t := EventTree(a, aData, aSigned, aExpires).fields, EventTree(b, bData, bSigned, bExpires).fields;
    assert s["data"] == t["data"];
    assert s["id"] == t["id"];
    assert s["type"] == t["type"];
    assert s["source"] == t["source"];
    assert s["user_id"] == t["user_id"];
    assert s["timestamp"] == t["timestamp"];
    assert s["signed_at"] == t["signed_at"];
    assert s["expires_at"] == t["expires_at"];
    UnixNumberInjective(a.timestamp, b.timestamp);
    UnixNumberInjective(aSigned, bSigned);
    UnixNumberInjective(aExpires, bExpires);
  }

  /** Two events have the same canonical bytes exactly when they agree on
      everything the signature covers. */
  lemma TextsAgree(a: Event, aSigned: int, aExpires: int, b: Event, bSigned: int, bExpires: int, conv: FloatCodec)
    requires CanonicalEventData(a, aSigned, aExpires, conv).Some?
    ensures CanonicalEventData(a, aSigned, aExpires, conv) == CanonicalEventData(b, bSigned, bExpires, conv)
       <==> SameUpToSeconds(a, aSigned, aExpires, b, bSigned, bExpires, conv)
  {
    hide SameSecond, Canonical, Normalize, Unix;
    SameUnix(a.timestamp, b.timestamp);
    SameUnix(aSigned, bSigned);
    SameUnix(aExpires, bExpires);
    var aData, bData := Normalize(DataJson(a.data), conv), Normalize(DataJson(b.data), conv);
    if bData.Some? {
      var aTree, bTree := EventTree(a, aData.value, aSigned, aExpires), EventTree(b, bData.value, bSigned, bExpires);
      if Canonical(aTree) == Canonical(bTree) {
        CanonicalInjective(aTree, bTree);
        EventTreeInjective(a, aData.value, aSigned, aExpires, b, bData.value, bSigned, bExpires);
      }
    }
  }

  lemma FieldNamesSorted()
    ensures Sorted(FIELD_NAMES, KeyLeq)
    ensures forall i, j :: 0 <= i < j < |FIELD_NAMES| ==> FIELD_NAMES[i] != FIELD_NAMES[j]
  {
    forall i, j | 0 <= i < j < 8
      ensures KeyLeq(FIELD_NAMES[i], FIELD_NAMES[j]) && FIELD_NAMES[i] != FIELD_NAMES[j]
    {
      var a, b := FIELD_NAMES[i], FIELD_NAMES[j];
      if a[0] == b[0] {
        assert a[1] != b[1];
        assert KeyLeq(a[1..], b[1..]);
      }
    }
  }

  lemma FieldOrder(keys: set<string>)
    requires forall k :: k in FIELD_NAMES <==> k in keys
    ensures SortedKeys(keys) == FIELD_NAMES
  {
    FieldNamesSorted();
    hide KeyLeq, SortedKeys, FIELD_NAMES;
    DistinctIsSet(FIELD_NAMES, keys);
    SortedIsUnique(FIELD_NAMES, keys);
  }

  lemma TreeFields(e: Event, data: Json, signedAt: int, expiresAt: int)
    ensures var f := EventTree(e, data, signedAt, expiresAt).fields;
            && "data" in f && "expires_at" in f && "id" in f && "signed_at" in f
            && "source" in f && "timestamp" in f && "type" in f && "user_id" in f
            && f["data"] == data && f["expires_at"] == UnixNumber(expiresAt) && f["id"] == String(e.id)
            && f["signed_at"] == UnixNumber(signedAt) && f["source"] == String(e.source)
            && f["timestamp"] == UnixNumber(e.timestamp)
            && f["type"] == String(e.typ) && f["user_id"] == String(e.userId)
  {
    hide UnixNumber;
    assert |"id"| == 2 && |"data"| == |"type"| == 4 && |"source"| == 6 && |"user_id"| == 7 && |"expires_at"| == 10;
    assert |"signed_at"| == |"timestamp"| == 9;
    assert "data"[0] != "type"[0] && "signed_at"[0] != "timestamp"[0];
  }

  function Field(name: string, text: string): string { Quote(name) + ":" + text }

  lemma ValueField(name: string, v: Json)
    requires v.Object? && name in v.fields
    ensures MemberText(name, v) == Field(name, Canonical(v.fields[name]))
  {
    hide Quote, Canonical;
  }

  lemma NumberField(name: string, v: Json, t: int)
    requires v.Object? && name in v.fields && v.fields[name] == UnixNumber(t)
    ensures MemberText(name, v) == Field(name, Decimal(Unix(t)))
  {
    hide Quote, Decimal, Unix;
  }

  lemma TextField(name: string, v: Json, text: string)
    requires v.Object? && name in v.fields && v.fields[name] == String(text)
    ensures MemberText(name, v) == Field(name, Quote(text))
  {
    hide Quote;
  }

  lemma EightParts(v: Json)
    requires v.Object? && v.fields.Keys == set k | k in FIELD_NAMES
    ensures forall k :: k in FIELD_NAMES <==> k in v.fields
    ensures MemberTexts(FIELD_NAMES, v)
         == [MemberText("data", v), MemberText("expires_at", v), MemberText("id", v), MemberText("signed_at", v),
             MemberText("source", v), MemberText("timestamp", v), MemberText("type", v), MemberText("user_id", v)]
  {
    hide MemberText, MemberTexts, Canonical;
  }

  /** The signed bytes, field by field, in the order of the sorted names, the
      times as the whole seconds since the epoch that they lie in. */
  lemma SignedLayout(e: Event, data: Json, signedAt: int, expiresAt: int, created: int, signed: int, expires: int)
    requires created * 1_000_000_000 <= e.timestamp < (created + 1) * 1_000_000_000
    requires signed * 1_000_000_000 <= signedAt < (signed + 1) * 1_000_000_000
    requires expires * 1_000_000_000 <= expiresAt < (expires + 1) * 1_000_000_000
    ensures Canonical(EventTree(e, data, signedAt, expiresAt)) == "{" + Join([
              Field("data", Canonical(data)),
              Field("expires_at", Decimal(expires)),
              Field("id", Quote(e.id)),
              Field("signed_at", Decimal(signed)),
              Field("source", Quote(e.source)),
              Field("timestamp", Decimal(created)),
              Field("type", Quote(e.typ)),
              Field("user_id", Quote(e.userId))], ",") + "}"
  {
    hide EventTree, Canonical, MemberText, MemberTexts, SortedKeys, Field, Join, Quote, Decimal;
    hide Unix, KeyLeq, UnixNumber, FIELD_NAMES;
    UnixIsSecond(e.timestamp, created);
    UnixIsSecond(signedAt, signed);
    UnixIsSecond(expiresAt, expires);
    var v := EventTree(e, data, signedAt, expiresAt);
    TreeFields(e, data, signedAt, expiresAt);
    ValueField("data", v);
    NumberField("expires_at", v, expiresAt);
    NumberField("signed_at", v, signedAt);
    NumberField("timestamp", v, e.timestamp);
    TextField("id", v, e.id);
    TextField("source", v, e.source);
    TextField("type", v, e.typ);
    TextField("user_id", v, e.userId);
    FieldOrder(v.fields.Keys);
    CanonicalObject(v);
    EightParts(v);
  }

  // ----- required claims -----

  predicate Blank(s: string) { TrimSpace(s) == "" }

  function ClaimError(e: Event, claim: string): Option<Error> {
    match claim
    case "id" => if Blank(e.id) then Some(MissingClaim(claim)) else None
    case "type" => if Blank(e.typ) then Some(MissingClaim(claim)) else None
    case "timestamp" => if e.timestamp == ZERO_TIME then Some(MissingClaim(claim)) else None
    case "source" => if Blank(e.source) then Some(MissingClaim(claim)) else None
    case _ => Some(UnknownClaim(claim))
  }

  /** Which claims there are, and when each holds: the three texts when they are
      not blank, the timestamp when it is not Go's zero time. */
  lemma ClaimMeans(e: Event, claim: string)
    ensures ClaimError(e, claim).None?
       <==> || (claim == "id" && TrimSpace(e.id) != "")
            || (claim == "type" && TrimSpace(e.typ) != "")
            || (claim == "timestamp" && e.timestamp != -62_135_596_800 * 1_000_000_000)
            || (claim == "source" && TrimSpace(e.source) != "")
    ensures ClaimError(e, claim).Some? ==>
              ClaimError(e, claim).value
              == if claim == "id" || claim == "type" || claim == "timestamp" || claim == "source"
                 then MissingClaim(claim) else UnknownClaim(claim)
  {
  }

  /** The error of the first claim that does not hold. */
  function ClaimsError(e: Event, claims: seq<string>): (r: Option<Error>)
    ensures r.None? <==> forall c :: c in claims ==> ClaimError(e, c).None?
  {
    if claims == [] then None
    else if ClaimError(e, claims[0]).Some? then ClaimError(e, claims[0])
    else
      assert forall c :: c in claims ==> c == claims[0] || c in claims[1..];
      ClaimsError(e, claims[1..])
  }

  lemma {:induction false} ClaimsErrorAt(e: Event, claims: seq<string>, i: nat)
    requires i < |claims| && ClaimError(e, claims[i]).Some?
    requires forall j :: 0 <= j < i ==> ClaimError(e, claims[j]).None?
    ensures ClaimsError(e, claims) == ClaimError(e, claims[i])
  {
    if i > 0 { ClaimsErrorAt(e, claims[1..], i - 1); }
  }

  /** `validateRequiredClaims`: stops at the first claim that fails. */
  method ValidateRequiredClaims(e: Event, claims: seq<string>) returns (err: Option<Error>)
    ensures err == ClaimsError(e, claims)
  {
    for i := 0 to |claims|
      invariant forall j :: 0 <= j < i ==> ClaimError(e, claims[j]).None?
    {
      err := ClaimError(e, claims[i]);
      if err.Some? {
        ClaimsErrorAt(e, claims, i);
        return;
      }
    }
    return None;
  }

  // ----- sign and verify -----

  /** `generateSignature`. */
  function GenerateSignature(text: string, key: Bytes, mac: Mac): Result<string> {
    if |key| < 16 then Failure(ShortKey) else Success(mac(key, text))
  }

  /** The steps of `SignEvent` after the claims were checked and the text made. */
  function Seal(e: Event, claims: Option<Error>, text: Option<string>, key: Bytes, now: int, expiresAt: int, mac: Mac):
    Result<SignedEvent>
  {
    match claims
    case Some(err) => Failure(err)
    case None =>
      match text
      case None => Failure(BadData)
      case Some(data) =>
        match GenerateSignature(data, key, mac)
        case Failure(err) => Failure(err)
        case Success(signature) => Success(SignedEvent(e, signature, now, expiresAt))
  }

  /** `SignEvent` at the instant `now`. */
  ghost function SignEvent(e: Event, config: Config, now: int, mac: Mac, conv: FloatCodec): Result<SignedEvent> {
    var expiresAt := now + config.expiryWindow;
    Seal(e, ClaimsError(e, config.requiredClaims), CanonicalEventData(e, now, expiresAt, conv),
         config.key, now, expiresAt, mac)
  }

  /** The steps of `VerifyEvent` given the claims check and the recreated text. */
  function Open(s: SignedEvent, claims: Option<Error>, text: Option<string>, key: Bytes,
                  now: int, mac: Mac): Option<Error> {
    if now > s.expiresAt then Some(Expired)
    else match claims
      case Some(err) => Some(err)
      case None =>
        match text
        case None => Some(BadData)
        case Some(data) =>
          match GenerateSignature(data, key, mac)
          case Failure(err) => Some(err)
          case Success(signature) => if s.signature == signature then None else Some(BadSignature)
  }

  /** `VerifyEvent` at the instant `now`; None is acceptance. */
  ghost function VerifyEvent(s: SignedEvent, config: Config, now: int, mac: Mac, conv: FloatCodec): Option<Error> {
    Open(s, ClaimsError(s.event, config.requiredClaims), CanonicalEventData(s.event, s.signedAt, s.expiresAt, conv),
         config.key, now, mac)
  }

  ghost predicate SameSigned(a: SignedEvent, b: SignedEvent, conv: FloatCodec) {
    SameUpToSeconds(a.event, a.signedAt, a.expiresAt, b.event, b.signedAt, b.expiresAt, conv)
  }

  /** Every claim of the list holds. */
  ghost predicate ClaimsHold(e: Event, claims: seq<string>) {
    forall c :: c in claims ==>
      || (c == "id" && TrimSpace(e.id) != "")
      || (c == "type" && TrimSpace(e.typ) != "")
      || (c == "timestamp" && e.timestamp != -62_135_596_800 * 1_000_000_000)
      || (c == "source" && TrimSpace(e.source) != "")
  }

  lemma NoClaimsError(e: Event, claims: seq<string>)
    ensures ClaimsError(e, claims).None? <==> ClaimsHold(e, claims)
  {
    hide ClaimError, ClaimsError, TrimSpace;
    forall c
      ensures ClaimError(e, c).None?
         <==> || (c == "id" && TrimSpace(e.id) != "")
              || (c == "type" && TrimSpace(e.typ) != "")
              || (c == "timestamp" && e.timestamp != -62_135_596_800 * 1_000_000_000)
              || (c == "source" && TrimSpace(e.source) != "")
    {
      ClaimMeans(e, c);
    }
  }

  /** Signing succeeds exactly with claims that hold, data whose numbers fit a
      float64 and a key of at least sixteen bytes; the first of these that is
      missing is the error. The result carries the event, the two instants and
      the MAC of the canonical bytes under the key. */
  lemma SignExactly(e: Event, config: Config, now: int, mac: Mac, conv: FloatCodec)
    ensures var r := SignEvent(e, config, now, mac, conv);
            && (r.Success? <==> ClaimsHold(e, config.requiredClaims)
                                    && Floatable(DataJson(e.data), conv) && |config.key| >= 16)
            && (!ClaimsHold(e, config.requiredClaims) ==>
                  r.Failure? && Some(r.error) == ClaimsError(e, config.requiredClaims))
            && (ClaimsHold(e, config.requiredClaims) && !Floatable(DataJson(e.data), conv) ==> r == Failure(BadData))
            && (r.Success? ==>
                  var text := CanonicalEventData(e, now, now + config.expiryWindow, conv);
                  text.Some? && r.value == SignedEvent(e, mac(config.key, text.value), now, now + config.expiryWindow))
    ensures ClaimsHold(e, config.requiredClaims) && Floatable(DataJson(e.data), conv) && |config.key| < 16 ==>
              SignEvent(e, config, now, mac, conv) == Failure(ShortKey)
  {
    hide ClaimsError, ClaimsHold, Canonical, EventTree, Floatable, Unmarshal;
    NoClaimsError(e, config.requiredClaims);
    NormalizeIsFloats(DataJson(e.data), conv);
  }

  /** Verifying refuses, in this order, an expired event, claims that do not
      hold, data whose numbers fit no float64, a key of less than sixteen bytes,
      and a signature other than the MAC of the canonical bytes. */
  lemma VerifyExactly(s: SignedEvent, config: Config, now: int, mac: Mac, conv: FloatCodec)
    ensures var r, text := VerifyEvent(s, config, now, mac, conv),
                             CanonicalEventData(s.event, s.signedAt, s.expiresAt, conv);
            if now > s.expiresAt then r == Some(Expired)
            else if !ClaimsHold(s.event, config.requiredClaims) then
              r.Some? && r == ClaimsError(s.event, config.requiredClaims)
            else if !Floatable(DataJson(s.event.data), conv) then r == Some(BadData)
            else if |config.key| < 16 then r == Some(ShortKey)
            else text.Some? && r == if s.signature == mac(config.key, text.value) then None else Some(BadSignature)
  {
    hide ClaimsError, ClaimsHold, Canonical, EventTree, Floatable, Unmarshal;
    NoClaimsError(s.event, config.requiredClaims);
    NormalizeIsFloats(DataJson(s.event.data), conv);
  }

  /** What a seal opens, the two texts and claim checks being given. */
  lemma OpenExact(e: Event, text: Option<string>, key: Bytes, signTime: int, expiresAt: int, claims: Option<Error>,
                  received: SignedEvent, claims': Option<Error>, text': Option<string>, key': Bytes, now: int, mac: Mac)
    requires Ideal(mac)
    requires Seal(e, claims, text, key, signTime, expiresAt, mac).Success?
    requires received.signature == Seal(e, claims, text, key, signTime, expiresAt, mac).value.signature
    ensures Open(received, claims', text', key', now, mac).None?
       <==> now <= received.expiresAt && claims'.None? && key' == key && text' == text
  {
    if text'.Some? {
      assert mac(key', text'.value) == mac(key, text.value) <==> key' == key && text'.value == text.value;
    }
  }

  lemma VerifyByText(e: Event, config: Config, signTime: int, mac: Mac, conv: FloatCodec,
                     received: SignedEvent, checker: Config, now: int)
    requires Ideal(mac)
    requires SignEvent(e, config, signTime, mac, conv).Success?
    requires received.signature == SignEvent(e, config, signTime, mac, conv).value.signature
    ensures VerifyEvent(received, checker, now, mac, conv).None?
       <==> && now <= received.expiresAt
            && checker.key == config.key
            && ClaimsError(received.event, checker.requiredClaims).None?
            && CanonicalEventData(received.event, received.signedAt, received.expiresAt, conv)
            == CanonicalEventData(e, signTime, signTime + config.expiryWindow, conv)
  {
    hide CanonicalEventData, ClaimsError;
    OpenExact(e, CanonicalEventData(e, signTime, signTime + config.expiryWindow, conv), config.key,
              signTime, signTime + config.expiryWindow, ClaimsError(e, config.requiredClaims),
              received, ClaimsError(received.event, checker.requiredClaims),
              CanonicalEventData(received.event, received.signedAt, received.expiresAt, conv), checker.key, now, mac);
  }

  lemma SignedHasText(e: Event, config: Config, signTime: int, mac: Mac, conv: FloatCodec)
    requires SignEvent(e, config, signTime, mac, conv).Success?
    ensures CanonicalEventData(e, signTime, signTime + config.expiryWindow, conv).Some?
    ensures ClaimsError(e, config.requiredClaims).None?
    ensures var s := SignEvent(e, config, signTime, mac, conv).value;
            s.event == e && s.signedAt == signTime && s.expiresAt == signTime + config.expiryWindow
  {
  }

  /** A signature opens exactly the events that agree with the signed one on
      what it covers, until the expiry they carry: anything else is refused,
      whatever was changed. */
  lemma VerifyExact(e: Event, config: Config, signTime: int, mac: Mac, conv: FloatCodec,
                    received: SignedEvent, checker: Config, now: int)
    requires Ideal(mac)
    requires SignEvent(e, config, signTime, mac, conv).Success?
    requires received.signature == SignEvent(e, config, signTime, mac, conv).value.signature
    ensures VerifyEvent(received, checker, now, mac, conv).None?
       <==> && now <= received.expiresAt
            && checker.key == config.key
            && ClaimsHold(received.event, checker.requiredClaims)
            && SameSigned(SignEvent(e, config, signTime, mac, conv).value, received, conv)
  {
    hide ClaimsHold, CanonicalEventData, ClaimsError, Normalize, VerifyEvent, SignEvent, SameUpToSeconds;
    NoClaimsError(received.event, checker.requiredClaims);
    VerifyByText(e, config, signTime, mac, conv, received, checker, now);
    SignedHasText(e, config, signTime, mac, conv);
    TextsAgree(e, signTime, signTime + config.expiryWindow,
               received.event, received.signedAt, received.expiresAt, conv);
  }

  /** Whatever a verifier accepts whose signature was issued by some signer
      agrees with one of the events signed with the verifier's own key. */
  lemma AcceptedWasSigned(issued: seq<SignedEvent>, received: SignedEvent, checker: Config, now: int,
                          mac: Mac, conv: FloatCodec)
    returns (i: nat)
    requires Ideal(mac)
    requires forall s :: s in issued ==>
               exists config: Config, t: int :: SignEvent(s.event, config, t, mac, conv) == Success(s)
    requires exists s :: s in issued && s.signature == received.signature
    requires VerifyEvent(received, checker, now, mac, conv).None?
    ensures i < |issued| && SameSigned(issued[i], received, conv)
    ensures exists config: Config, t: int ::
              config.key == checker.key && SignEvent(issued[i].event, config, t, mac, conv) == Success(issued[i])
  {
    i :| 0 <= i < |issued| && issued[i].signature == received.signature;
    var s := issued[i];
    assert s in issued;
    var config: Config, t: int :| SignEvent(s.event, config, t, mac, conv) == Success(s);
    VerifyExact(s.event, config, t, mac, conv, received, checker, now);
  }

  // ----- over the wire -----

  /** The data after one JSON encode and decode of the event. */
  ghost function WireData(data: Option<map<string, Json>>, conv: FloatCodec): Option<Option<map<string, Json>>> {
    match Unmarshal(Canonical(DataJson(data)), conv)
    case Some(Null) => Some(None)
    case Some(Object(fields)) => Some(Some(fields))
    case _ => None
  }

  ghost function Wire(s: SignedEvent, conv: FloatCodec): Option<SignedEvent> {
    match WireData(s.event.data, conv)
    case None => None
    case Some(data) => Some(s.(event := s.event.(data := data)))
  }

  lemma WireDataIsNormal(data: Option<map<string, Json>>, conv: FloatCodec)
    ensures WireData(data, conv).Some? <==> Normalize(DataJson(data), conv).Some?
    ensures WireData(data, conv).Some? ==> DataJson(WireData(data, conv).value) == Normalize(DataJson(data), conv).value
  {
    NormalizeIsFloats(DataJson(data), conv);
  }

  /** Every signed event survives the wire, any number of hops, with its data
      normalised, and is then accepted by any verifier with the same key and claims exactly until it expires. */
  lemma {:induction false} SignedSurvivesWire(e: Event, config: Config, signTime: int, mac: Mac, conv: FloatCodec,
                                              hops: nat, now: int)
    requires Ideal(mac) && Stable(conv)
    requires SignEvent(e, config, signTime, mac, conv).Success?
    ensures var r := Hops(SignEvent(e, config, signTime, mac, conv).value, hops, conv);
            r.Some? && (VerifyEvent(r.value, config, now, mac, conv).None? <==> now <= signTime + config.expiryWindow)
    ensures var r := Hops(SignEvent(e, config, signTime, mac, conv).value, hops, conv);
            hops > 0 ==> r.Some? && Some(DataJson(r.value.event.data)) == Normalize(DataJson(e.data), conv)
  {
    hide VerifyEvent, SignEvent, ClaimsError, ClaimsHold, Normalize, SameUpToSeconds, CanonicalEventData, Hops;
    SignedHasText(e, config, signTime, mac, conv);
    TextNeedsData(e, signTime, signTime + config.expiryWindow, conv);
    var signed := SignEvent(e, config, signTime, mac, conv).value;
    HopsKeepSigned(signed, hops, conv);
    var r := Hops(signed, hops, conv).value;
    SameClaims(e, r.event, config.requiredClaims);
    NoClaimsError(e, config.requiredClaims);
    NoClaimsError(r.event, config.requiredClaims);
    OnlyDataDiffers(signed, r, conv);
    VerifyExact(e, config, signTime, mac, conv, r, config, now);
  }

  lemma TextNeedsData(e: Event, signedAt: int, expiresAt: int, conv: FloatCodec)
    requires CanonicalEventData(e, signedAt, expiresAt, conv).Some?
    ensures Normalize(DataJson(e.data), conv).Some?
  {
  }

  lemma OnlyDataDiffers(a: SignedEvent, b: SignedEvent, conv: FloatCodec)
    requires b == a.(event := a.event.(data := b.event.data))
    requires Normalize(DataJson(a.event.data), conv) == Normalize(DataJson(b.event.data), conv)
    ensures SameSigned(a, b, conv)
  {
    hide SameSecond, Normalize;
    InItsSecond(a.event.timestamp);
    InItsSecond(a.signedAt);
    InItsSecond(a.expiresAt);
  }

  ghost function Hops(s: SignedEvent, hops: nat, conv: FloatCodec): Option<SignedEvent> {
    if hops == 0 then Some(s)
    else match Hops(s, hops - 1, conv)
      case None => None
      case Some(r) => Wire(r, conv)
  }

  lemma WireKeepsSigned(s: SignedEvent, conv: FloatCodec)
    requires Stable(conv) && Normalize(DataJson(s.event.data), conv).Some?
    ensures var r := Wire(s, conv);
            && r.Some? && r.value == s.(event := s.event.(data := r.value.event.data))
            && Some(DataJson(r.value.event.data)) == Normalize(DataJson(s.event.data), conv)
            && Normalize(DataJson(r.value.event.data), conv) == Normalize(DataJson(s.event.data), conv)
  {
    WireDataIsNormal(s.event.data, conv);
    NormalizeIdempotent(DataJson(s.event.data), conv);
  }

  lemma {:induction false} HopsKeepSigned(s: SignedEvent, hops: nat, conv: FloatCodec)
    requires Stable(conv) && Normalize(DataJson(s.event.data), conv).Some?
    ensures var r := Hops(s, hops, conv);
            && r.Some? && r.value == s.(event := s.event.(data := r.value.event.data))
            && (hops > 0 ==> Some(DataJson(r.value.event.data)) == Normalize(DataJson(s.event.data), conv))
            && Normalize(DataJson(r.value.event.data), conv) == Normalize(DataJson(s.event.data), conv)
  {
    hide Wire, Normalize;
    if hops > 0 {
      HopsKeepSigned(s, hops - 1, conv);
      WireKeepsSigned(Hops(s, hops - 1, conv).value, conv);
    }
  }

  lemma {:induction false} SameClaims(a: Event, b: Event, claims: seq<string>)
    requires b == a.(data := b.data)
    ensures ClaimsError(a, claims) == ClaimsError(b, claims)
  {
    if claims != [] { SameClaims(a, b, claims[1..]); }
  }

  // ----- what the signature does not cover -----

  /** The code compares whole seconds, so an expiry may be moved to the end of
      its second without the key: such an event is accepted after the expiry
      that was signed. The slack is less than one second, and no more. */
  lemma ExpirySlack(e: Event, config: Config, signTime: int, mac: Mac, conv: FloatCodec, moved: int, now: int)
    requires Ideal(mac)
    requires SignEvent(e, config, signTime, mac, conv).Success?
    ensures var s := SignEvent(e, config, signTime, mac, conv).value;
            (VerifyEvent(s.(expiresAt := moved), config, now, mac, conv).None?
             <==> now <= moved && exists n :: InSecond(moved, n) && InSecond(s.expiresAt, n))
    ensures var s := SignEvent(e, config, signTime, mac, conv).value;
            VerifyEvent(s.(expiresAt := moved), config, now, mac, conv).None? ==>
              -1_000_000_000 < moved - s.expiresAt < 1_000_000_000
  {
    hide VerifyEvent, SignEvent, CanonicalEventData, ClaimsError, ClaimsHold, Normalize;
    var s := SignEvent(e, config, signTime, mac, conv).value;
    VerifyExact(e, config, signTime, mac, conv, s.(expiresAt := moved), config, now);
    InItsSecond(e.timestamp);
    InItsSecond(signTime);
    SignedHasText(e, config, signTime, mac, conv);
    NoClaimsError(e, config.requiredClaims);
  }

  lemma InItsSecond(t: int)
    ensures SameSecond(t, t)
  {
    SameUnix(t, t);
  }
}
