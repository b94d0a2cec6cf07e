/**
 * Signed artifact capabilities (packages/core/src/artifact-capability.ts): claims, the token
 * they travel in, and what a verifier accepts.
 */
module ArtifactCapability {
  import opened Wrappers
  import opened TextOrder
  import opened TextCodec
  import opened CanonicalJson
  import opened CanonicalLength

  const MAX_LIFETIME_MS: int := 60 * 60 * 1000
  const MAX_FUTURE_MS: int := 5 * 60 * 1000
  const MAX_CALLS: int := 10000
  const MAX_CUMULATIVE_BYTES: int := 64 * 1024 * 1024
  const MAX_BYTES: int := 16 * 1024 * 1024
  const MAX_TOKEN_LENGTH: nat := 8192

  datatype Claims = Claims(
    purpose: Text, audience: Text, methods: seq<Text>, projectId: Text, runId: Text, stepId: Text, prefix: Option<Text>,
    maxBytes: int, maxCalls: int, maxCumulativeBytes: int, expiresAt: Text, notBefore: Text, nonce: Text)

  datatype Key = Key(keyId: Text, secret: Text)

  datatype Expected = Expected(
    purpose: Text, audience: Text, method_: Option<Text>, projectId: Option<Text>, runId: Option<Text>,
        stepId: Option<Text>,
    artifactId: Option<Text>, bytes: Option<int>)

  /**
   * What is taken from outside: the keyed MAC, in base64url; base64url over UTF-8, both ways;
   * JSON.parse; and the printing and reading of ISO-8601 times.
   */
  datatype Primitives = Primitives(
    sign: (Text, Text) -> Text,
    encode: Text -> Text,
    decode: Text -> Option<Text>,
    readJson: Text -> Option<Value>,
    isoText: int -> Text,
    isoTime: Text -> Option<int>)

  const MAC_LENGTH: nat := 43        // SHA-256 in base64url
  const MAX_ISO_LENGTH: nat := 27    // a signed year of six digits
  const MAX_TIME: int := 8_640_000_000_000_000

  // The times a JavaScript date can hold.
  predicate ValidTime(time: int) {
    -MAX_TIME <= time <= MAX_TIME
  }

  // Every number in it is a plain decimal one.
  ghost predicate Decimals(v: Value) {
    match v
    case Num(text) => ReadDecimal(text).Some?
    case Arr(items) => forall i :: 0 <= i < |items| ==> Decimals(items[i])
    case Obj(entries) => forall i :: 0 <= i < |entries| ==> Decimals(entries[i].value)
    case _ => true
  }

  /**
   * Canonical text has no lone surrogate, so UTF-8 carries it whole, and JSON.parse reads it back;
   * base64url has no dots and makes three bytes four characters. Of the MAC only its alphabet
   * and its length matter.
   */
  ghost predicate Lawful(p: Primitives) {
    && (forall v :: WellFormed(v) ==> p.decode(p.encode(Canonical(v))) == Some(Canonical(v)))
    && (forall v :: WellFormed(v) && Decimals(v) ==> p.readJson(Canonical(v)) == Some(Canonicalize(v)))
    && (forall t :: DOT !in p.encode(t))
    && (forall t :: AsciiText(t) ==> |p.encode(t)| <= (4 * |t| + 2) / 3)
    && (forall secret, signed :: DOT !in p.sign(secret, signed) && |p.sign(secret, signed)| == MAC_LENGTH)
    && (forall time :: ValidTime(time) ==> p.isoTime(p.isoText(time)) == Some(time))
    && (forall time :: ValidTime(time) ==> |p.isoText(time)| <= MAX_ISO_LENGTH && PlainText(p.isoText(time)))
  }

  // ----- checks on claims -----

  predicate WordUnit(u: Unit) {
    AlphaNumeric(u) || u == '_' as int || u == '-' as int
  }

  predicate Safe(s: Text) {
    1 <= |s| <= 128 && AlphaNumeric(s[0]) && forall i :: 0 <= i < |s| ==> WordUnit(s[i]) || s[i] == DOT
  }

  predicate SafeClaim(s: Text) {
    Safe(s) && forall i :: 0 <= i < |s| - 1 ==> !(s[i] == DOT && s[i + 1] == DOT)
  }

  predicate Nonce(s: Text) {
    16 <= |s| <= 128 && forall i :: 0 <= i < |s| ==> WordUnit(s[i])
  }

  predicate KnownMethod(m: Text) {
    m == T("artifact.get") || m == T("artifact.put") || m == T("artifact.list")
  }

  // A time in canonical ISO-8601, as milliseconds.
  function Iso(p: Primitives, value: Text): Option<int> {
    var time := p.isoTime(value);
    if time.Some? && ValidTime(time.value) && p.isoText(time.value) == value then time else None
  }

  function Min(a: int, b: int): int {
    if a <= b then a else b
  }

  predicate ValidWindow(p: Primitives, c: Claims, now: int) {
    && Iso(p, c.expiresAt).Some? && Iso(p, c.notBefore).Some?
    && var expires, notBefore := Iso(p, c.expiresAt).value, Iso(p, c.notBefore).value;
       && notBefore <= now + MAX_FUTURE_MS
       && notBefore < expires
       && expires - Min(notBefore, now) <= MAX_LIFETIME_MS
  }

  predicate ValidClaims(p: Primitives, c: Claims, now: int) {
    && SafeClaim(c.audience) && SafeClaim(c.purpose) && SafeClaim(c.projectId) && SafeClaim(c.runId)
        && SafeClaim(c.stepId)
    && (c.prefix.Some? ==> SafeClaim(c.prefix.value))
    && Nonce(c.nonce)
    && 1 <= c.maxBytes <= MAX_BYTES && 1 <= c.maxCalls <= MAX_CALLS && 1 <= c.maxCumulativeBytes <= MAX_CUMULATIVE_BYTES
    && c.methods != [] && (forall i :: 0 <= i < |c.methods| ==> KnownMethod(c.methods[i]))
    && (forall i, j :: 0 <= i < j < |c.methods| ==> c.methods[i] != c.methods[j])
    && ValidWindow(p, c, now)
  }

  // Valid claims come out as they went in: removing repeated methods removes none.
  function NormalizeClaims(p: Primitives, c: Claims, now: int): Option<Claims> {
    if ValidClaims(p, c, now) then Some(c) else None
  }

  // ----- the payload -----

  function MethodValues(methods: seq<Text>): seq<Value> {
    seq(|methods|, i requires 0 <= i < |methods| => Str(methods[i]))
  }

  function Number(n: nat): Value {
    Num(Decimal(n))
  }

  const PURPOSE := T("purpose")
  const AUDIENCE := T("audience")
  const METHODS := T("methods")
  const PROJECT_ID := T("projectId")
  const RUN_ID := T("runId")
  const STEP_ID := T("stepId")
  const MAX_BYTES_KEY := T("maxBytes")
  const MAX_CALLS_KEY := T("maxCalls")
  const MAX_CUMULATIVE_BYTES_KEY := T("maxCumulativeBytes")
  const EXPIRES_AT := T("expiresAt")
  const NOT_BEFORE := T("notBefore")
  const NONCE := T("nonce")
  const PREFIX := T("prefix")
  const VERSION := T("version")
  const ISSUED_AT := T("issuedAt")
  const CLAIMS := T("claims")

  const PAYLOAD_KEYS: seq<Text> := [VERSION, ISSUED_AT, CLAIMS]

  // Names and order do not matter to the printer, which sorts them; the optional one is last here.
  const CLAIM_KEYS: seq<Text> :=
    [PURPOSE, AUDIENCE, METHODS, PROJECT_ID, RUN_ID, STEP_ID, MAX_BYTES_KEY, MAX_CALLS_KEY, MAX_CUMULATIVE_BYTES_KEY,
     EXPIRES_AT, NOT_BEFORE, NONCE, PREFIX]

  function ClaimValues(c: Claims): seq<Value>
    requires c.maxBytes >= 0 && c.maxCalls >= 0 && c.maxCumulativeBytes >= 0
  {
    [Str(c.purpose), Str(c.audience), Arr(MethodValues(c.methods)), Str(c.projectId), Str(c.runId), Str(c.stepId),
     Number(c.maxBytes), Number(c.maxCalls), Number(c.maxCumulativeBytes), Str(c.expiresAt), Str(c.notBefore),
         Str(c.nonce)]
    + if c.prefix.Some? then [Str(c.prefix.value)] else []
  }

  function Record(keys: seq<Text>, values: seq<Value>): seq<Entry<Value>>
    requires |values| <= |keys|
  {
    seq(|values|, i requires 0 <= i < |values| => Entry(keys[i], values[i]))
  }

  function PayloadValue(p: Primitives, c: Claims, now: int): Value
    requires c.maxBytes >= 0 && c.maxCalls >= 0 && c.maxCumulativeBytes >= 0
  {
    Obj(Record(PAYLOAD_KEYS, [Number(1), Str(p.isoText(now)), Obj(Record(CLAIM_KEYS, ClaimValues(c)))]))
  }

  function Field(v: Value, key: Text): Option<Value> {
    if v.Obj? then Lookup(v.entries, key) else None
  }

  function StringField(v: Value, key: Text): Option<Text> {
    var f := Field(v, key);
    if f.Some? && f.value.Str? then Some(f.value.s) else None
  }

  function NumberField(v: Value, key: Text): Option<int> {
    var f := Field(v, key);
    if f.Some? && f.value.Num? && ReadDecimal(f.value.text).Some? then Some(ReadDecimal(f.value.text).value) else None
  }

  function StringItems(items: seq<Value>): Option<seq<Text>> {
    if forall i :: 0 <= i < |items| ==> items[i].Str?
    then Some(seq(|items|, i requires 0 <= i < |items| && items[i].Str? => items[i].s)) else None
  }

  function ClaimsOf(v: Value): Option<Claims> {
    var methods := Field(v, METHODS);
    var prefix := Field(v, PREFIX);
    if methods.None? || !methods.value.Arr? || (prefix.Some? && !prefix.value.Str?) then None
    else
      var a, b, c, d, e := StringField(v, PURPOSE), StringField(v, AUDIENCE), StringField(v, PROJECT_ID),
                           StringField(v, RUN_ID), StringField(v, STEP_ID);
      var f, g, h := NumberField(v, MAX_BYTES_KEY), NumberField(v, MAX_CALLS_KEY),
          NumberField(v, MAX_CUMULATIVE_BYTES_KEY);
      var i, j, k := StringField(v, EXPIRES_AT), StringField(v, NOT_BEFORE), StringField(v, NONCE);
      var m := StringItems(methods.value.items);
      if || a.None? || b.None? || c.None? || d.None? || e.None? || f.None? || g.None? || h.None? || i.None? || j.None?
         || k.None? || m.None?
      then None
      else Some(Claims(a.value, b.value, m.value, c.value, d.value, e.value,
                       if prefix.Some? then Some(prefix.value.s) else None,
                       f.value, g.value, h.value, i.value, j.value, k.value))
  }

  datatype Payload = Payload(issued: int, claims: Claims)

  function ParsePayload(p: Primitives, encoded: Text, now: int): Option<Payload> {
    var text := p.decode(encoded);
    if text.None? || p.readJson(text.value).None? then None
    else
      var v := p.readJson(text.value).value;
      var issuedAt := StringField(v, ISSUED_AT);
      var claims := Field(v, CLAIMS);
      if || Field(v, VERSION) != Some(Number(1)) || issuedAt.None? || Iso(p, issuedAt.value).None?
         || claims.None? || ClaimsOf(claims.value).None?
      then None
      else
        var issued := Iso(p, issuedAt.value).value;
        if issued > now + MAX_FUTURE_MS then None
        else
          var normalized := NormalizeClaims(p, ClaimsOf(claims.value).value, issued);
          if normalized.None? then None else Some(Payload(issued, normalized.value))
  }

  // ----- tokens -----

  function Signed(keyId: Text, encoded: Text): Text {
    T("aoc1") + [DOT] + keyId + [DOT] + encoded
  }

  // None where the issuer throws: for its key id, for a claim, or for a clock no date can show.
  function Issue(p: Primitives, key: Key, c: Claims, now: int): Option<Text> {
    if !Safe(key.keyId) || NormalizeClaims(p, c, now).None? || !ValidTime(now) then None
    else
      var signed := Signed(key.keyId, p.encode(Canonical(PayloadValue(p, c, now))));
      Some(signed + [DOT] + p.sign(key.secret, signed))
  }

  predicate Grants(c: Claims, e: Expected) {
    && c.purpose == e.purpose && c.audience == e.audience
    && (e.method_.Some? ==> e.method_.value in c.methods)
    && (e.projectId.Some? ==> c.projectId == e.projectId.value)
    && (e.runId.Some? ==> c.runId == e.runId.value)
    && (e.stepId.Some? ==> c.stepId == e.stepId.value)
    && (e.artifactId.Some? && c.prefix.Some? ==> c.prefix.value <= e.artifactId.value)
    && (e.bytes.Some? ==> 0 <= e.bytes.value <= c.maxBytes)
  }

  function Verify(p: Primitives, keys: map<Text, Text>, token: Text, e: Expected, now: int): Option<Claims> {
    if |token| > MAX_TOKEN_LENGTH then None
    else
      var parts := Split(token, DOT);
      if |parts| != 4 || parts[0] != T("aoc1") || parts[1] !in keys then None
      else if parts[3] != p.sign(keys[parts[1]], Join(parts[..3], DOT)) then None
      else
        var payload := ParsePayload(p, parts[2], now);
        if payload.None? then None
        else
          var c := payload.value.claims;
          if now < Iso(p, c.notBefore).GetOr(0) || now >= Iso(p, c.expiresAt).GetOr(0) || !Grants(c, e) then None
          else Some(c)
  }

  predicate ValidKey(key: Key) {
    Safe(key.keyId) && |key.secret| >= 32
  }

  /** The verifier's keys: at least one, each well formed, no id twice. */
  method ConfigureKeys(inputs: seq<Key>) returns (keys: Option<map<Text, Text>>)
    ensures keys.Some? <==>
              inputs != [] && (forall i :: 0 <= i < |inputs| ==> ValidKey(inputs[i]))
              && forall i, j :: 0 <= i < j < |inputs| ==> inputs[i].keyId != inputs[j].keyId
    ensures keys.Some? ==> forall i :: 0 <= i < |inputs| ==>
        inputs[i].keyId in keys.value && keys.value[inputs[i].keyId] == inputs[i].secret
    ensures keys.Some? ==> forall id :: id in keys.value ==> exists i :: 0 <= i < |inputs| && inputs[i].keyId == id
  {
    hide ValidKey;
    if |inputs| < 1 { return None; }
    var collected: map<Text, Text> := map[];
    for n := 0 to |inputs|
      invariant forall i :: 0 <= i < n ==> ValidKey(inputs[i])
      invariant forall i, j :: 0 <= i < j < n ==> inputs[i].keyId != inputs[j].keyId
      invariant forall i :: 0 <= i < n ==>
          inputs[i].keyId in collected && collected[inputs[i].keyId] == inputs[i].secret
      invariant forall id :: id in collected ==> exists i :: 0 <= i < n && inputs[i].keyId == id
    {
      var key := inputs[n];
      if !ValidKey(key) { return None; }
      if key.keyId in collected { return None; }
      collected := collected[key.keyId := key.secret];
    }
    return Some(collected);
  }

  // ----- reading a payload back -----

  // Sorting an object's keys moves no field.
  lemma CanonicalField(entries: seq<Entry<Value>>, i: nat)
    requires DistinctKeys(entries) && i < |entries|
    ensures Field(Canonicalize(Obj(entries)), entries[i].key) == Some(Canonicalize(entries[i].value))
  {
    var c := CanonicalizeEntries(entries);
    hide CanonicalizeEntries, SortEntries, Lookup;
    CanonicalizedEntries(entries);
    assert DistinctKeys(c);
    SortSorts(c);
    SortMembers(c);
    SortedIsDistinct(SortEntries(c));
    assert c[i] in c && c[i] in SortEntries(c);
    var j :| 0 <= j < |SortEntries(c)| && SortEntries(c)[j] == c[i];
    LookupFound(SortEntries(c), j);
  }

  lemma CanonicalMissing(entries: seq<Entry<Value>>, key: Text)
    requires DistinctKeys(entries) && forall i :: 0 <= i < |entries| ==> entries[i].key != key
    ensures Field(Canonicalize(Obj(entries)), key) == None
  {
    var c := CanonicalizeEntries(entries);
    hide CanonicalizeEntries, SortEntries, Lookup;
    CanonicalizedEntries(entries);
    SortMembers(c);
    forall i | 0 <= i < |SortEntries(c)| ensures SortEntries(c)[i].key != key {
      assert SortEntries(c)[i] in SortEntries(c);
      var j :| 0 <= j < |c| && c[j] == SortEntries(c)[i];
    }
    LookupMissing(SortEntries(c), key);
  }

  ghost predicate DistinctTexts(keys: seq<Text>) {
    forall i, j :: 0 <= i < j < |keys| ==> keys[i] != keys[j]
  }

  // The length and the fourth letter tell any two claim names apart.
  lemma KeysAreDistinct()
    ensures DistinctTexts(CLAIM_KEYS) && DistinctTexts(PAYLOAD_KEYS)
  {
    var lengths := [7, 8, 7, 9, 5, 6, 8, 8, 18, 9, 9, 5, 6];
    var letters := ['p', 'i', 'h', 'j', 'I', 'p', 'B', 'C', 'C', 'i', 'B', 'c', 'f'];
    forall i | 0 <= i < 13 ensures |CLAIM_KEYS[i]| == lengths[i] && CLAIM_KEYS[i][3] == letters[i] as int {
    }
    forall i, j | 0 <= i < j < 13 ensures lengths[i] != lengths[j] || letters[i] != letters[j] {
    }
  }

  lemma RecordsAreDistinct(keys: seq<Text>, values: seq<Value>)
    requires DistinctTexts(keys) && |values| <= |keys|
    ensures DistinctKeys(Record(keys, values))
  {
  }

  // Field i of a printed and re-read record is value i in canonical form.
  lemma RecordField(keys: seq<Text>, values: seq<Value>, i: nat)
    requires DistinctTexts(keys) && |values| <= |keys| && i < |values|
    ensures Field(Canonicalize(Obj(Record(keys, values))), keys[i]) == Some(Canonicalize(values[i]))
  {
    RecordsAreDistinct(keys, values);
    CanonicalField(Record(keys, values), i);
  }

  lemma MethodsReadBack(methods: seq<Text>)
    ensures Canonicalize(Arr(MethodValues(methods))).Arr?
    ensures StringItems(Canonicalize(Arr(MethodValues(methods))).items) == Some(methods)
  {
    CanonicalizedItems(MethodValues(methods));
    var items := CanonicalizeItems(MethodValues(methods));
    assert forall i :: 0 <= i < |methods| ==> items[i] == Str(methods[i]);
    assert StringItems(items).value == methods;
  }

  lemma ClaimFields(c: Claims, i: nat)
    requires c.maxBytes >= 0 && c.maxCalls >= 0 && c.maxCumulativeBytes >= 0 && i < |ClaimValues(c)|
    ensures Field(Canonicalize(Obj(Record(CLAIM_KEYS, ClaimValues(c)))), CLAIM_KEYS[i])
        == Some(Canonicalize(ClaimValues(c)[i]))
  {
    KeysAreDistinct();
    RecordField(CLAIM_KEYS, ClaimValues(c), i);
  }

  lemma StringClaim(c: Claims, i: nat)
    requires c.maxBytes >= 0 && c.maxCalls >= 0 && c.maxCumulativeBytes >= 0 && i < |ClaimValues(c)|
        && ClaimValues(c)[i].Str?
    ensures StringField(Canonicalize(Obj(Record(CLAIM_KEYS, ClaimValues(c)))), CLAIM_KEYS[i])
        == Some(ClaimValues(c)[i].s)
  {
    ClaimFields(c, i);
  }

  lemma NumberClaim(c: Claims, i: nat, n: nat)
    requires c.maxBytes >= 0 && c.maxCalls >= 0 && c.maxCumulativeBytes >= 0 && i < |ClaimValues(c)|
        && ClaimValues(c)[i] == Number(n)
    ensures NumberField(Canonicalize(Obj(Record(CLAIM_KEYS, ClaimValues(c)))), CLAIM_KEYS[i]) == Some(n)
  {
    ClaimFields(c, i);
    ReadUndoesDecimal(n);
  }

  lemma PrefixClaim(c: Claims)
    requires c.maxBytes >= 0 && c.maxCalls >= 0 && c.maxCumulativeBytes >= 0
    ensures Field(Canonicalize(Obj(Record(CLAIM_KEYS, ClaimValues(c)))), CLAIM_KEYS[12])
        == (if c.prefix.Some? then Some(Str(c.prefix.value)) else None)
  {
    KeysAreDistinct();
    if c.prefix.Some? {
      ClaimFields(c, 12);
    } else {
      RecordsAreDistinct(CLAIM_KEYS, ClaimValues(c));
      CanonicalMissing(Record(CLAIM_KEYS, ClaimValues(c)), CLAIM_KEYS[12]);
    }
  }

  // The claims as they come back from canonical text.
  function ReadClaims(c: Claims): Value
    requires c.maxBytes >= 0 && c.maxCalls >= 0 && c.maxCumulativeBytes >= 0
  {
    Canonicalize(Obj(Record(CLAIM_KEYS, ClaimValues(c))))
  }

  lemma StringsReadBack(c: Claims)
    requires c.maxBytes >= 0 && c.maxCalls >= 0 && c.maxCumulativeBytes >= 0
    ensures var v := ReadClaims(c);
            && StringField(v, PURPOSE) == Some(c.purpose) && StringField(v, AUDIENCE) == Some(c.audience)
            && StringField(v, PROJECT_ID) == Some(c.projectId) && StringField(v, RUN_ID) == Some(c.runId)
            && StringField(v, STEP_ID) == Some(c.stepId) && StringField(v, EXPIRES_AT) == Some(c.expiresAt)
            && StringField(v, NOT_BEFORE) == Some(c.notBefore) && StringField(v, NONCE) == Some(c.nonce)
  {
    hide Canonicalize, Record, StringField;
    StringClaim(c, 0);
    StringClaim(c, 1);
    StringClaim(c, 3);
    StringClaim(c, 4);
    StringClaim(c, 5);
    StringClaim(c, 9);
    StringClaim(c, 10);
    StringClaim(c, 11);
  }

  lemma NumbersReadBack(c: Claims)
    requires c.maxBytes >= 0 && c.maxCalls >= 0 && c.maxCumulativeBytes >= 0
    ensures var v := ReadClaims(c);
            && NumberField(v, MAX_BYTES_KEY) == Some(c.maxBytes) && NumberField(v, MAX_CALLS_KEY) == Some(c.maxCalls)
            && NumberField(v, MAX_CUMULATIVE_BYTES_KEY) == Some(c.maxCumulativeBytes)
  {
    hide Canonicalize, Record, NumberField;
    NumberClaim(c, 6, c.maxBytes);
    NumberClaim(c, 7, c.maxCalls);
    NumberClaim(c, 8, c.maxCumulativeBytes);
  }

  lemma MethodsClaim(c: Claims)
    requires c.maxBytes >= 0 && c.maxCalls >= 0 && c.maxCumulativeBytes >= 0
    ensures var f := Field(ReadClaims(c), METHODS);
            f.Some? && f.value.Arr? && StringItems(f.value.items) == Some(c.methods)
  {
    hide Canonicalize, Record, Field, StringItems;
    ClaimFields(c, 2);
    MethodsReadBack(c.methods);
  }

  // Every claim survives being printed in canonical form and read back.
  lemma ClaimsReadBack(c: Claims)
    requires c.maxBytes >= 0 && c.maxCalls >= 0 && c.maxCumulativeBytes >= 0
    ensures ClaimsOf(Canonicalize(Obj(Record(CLAIM_KEYS, ClaimValues(c))))) == Some(c)
  {
    hide Canonicalize, Record, ClaimValues, Field, StringField, NumberField, StringItems;
    StringsReadBack(c);
    NumbersReadBack(c);
    MethodsClaim(c);
    PrefixClaim(c);
  }

  lemma DecimalIsNumberText(n: nat)
    ensures NumberText(Decimal(n))
  {
    DecimalIsDigits(n);
    forall i | 0 <= i < |Decimal(n)| ensures NumberUnit(Decimal(n)[i]) {
      assert Digit(Decimal(n)[i]);
    }
  }

  lemma RecordIsWellFormed(keys: seq<Text>, values: seq<Value>)
    requires DistinctTexts(keys) && |values| <= |keys| && forall i :: 0 <= i < |values| ==> WellFormed(values[i])
    ensures WellFormed(Obj(Record(keys, values)))
  {
    RecordsAreDistinct(keys, values);
  }

  lemma PayloadIsWellFormed(p: Primitives, c: Claims, now: int)
    requires c.maxBytes >= 0 && c.maxCalls >= 0 && c.maxCumulativeBytes >= 0
    ensures WellFormed(PayloadValue(p, c, now))
  {
    KeysAreDistinct();
    DecimalIsNumberText(1);
    DecimalIsNumberText(c.maxBytes);
    DecimalIsNumberText(c.maxCalls);
    DecimalIsNumberText(c.maxCumulativeBytes);
    RecordIsWellFormed(CLAIM_KEYS, ClaimValues(c));
    RecordIsWellFormed(PAYLOAD_KEYS, [Number(1), Str(p.isoText(now)), Obj(Record(CLAIM_KEYS, ClaimValues(c)))]);
  }

  lemma RecordIsDecimal(keys: seq<Text>, values: seq<Value>)
    requires |values| <= |keys| && forall i :: 0 <= i < |values| ==> Decimals(values[i])
    ensures Decimals(Obj(Record(keys, values)))
  {
  }

  lemma PayloadIsDecimal(p: Primitives, c: Claims, now: int)
    requires c.maxBytes >= 0 && c.maxCalls >= 0 && c.maxCumulativeBytes >= 0
    ensures Decimals(PayloadValue(p, c, now))
  {
    ReadUndoesDecimal(1);
    ReadUndoesDecimal(c.maxBytes);
    ReadUndoesDecimal(c.maxCalls);
    ReadUndoesDecimal(c.maxCumulativeBytes);
    RecordIsDecimal(CLAIM_KEYS, ClaimValues(c));
    RecordIsDecimal(PAYLOAD_KEYS, [Number(1), Str(p.isoText(now)), Obj(Record(CLAIM_KEYS, ClaimValues(c)))]);
  }

  // An issued payload reads back as the claims it was issued for, unless issued too far ahead.
  lemma PayloadReadsBack(p: Primitives, c: Claims, issued: int, now: int)
    requires Lawful(p) && ValidClaims(p, c, issued) && ValidTime(issued) && issued <= now + MAX_FUTURE_MS
    ensures ParsePayload(p, p.encode(Canonical(PayloadValue(p, c, issued))), now) == Some(Payload(issued, c))
  {
    var v := PayloadValue(p, c, issued);
    var claims := Obj(Record(CLAIM_KEYS, ClaimValues(c)));
    PayloadArrives(p, c, issued);
    PayloadFields(p, c, issued);
    ClaimsReadBack(c);
    IssuedAtReadsBack(p, issued);
    hide Canonicalize, Record, Field, StringField, ClaimsOf, Canonical, ValidClaims, ClaimValues, Lawful, Iso;
    hide PayloadValue;
    assert ClaimsOf(Canonicalize(claims)) == Some(c);
  }

  lemma PayloadArrives(p: Primitives, c: Claims, issued: int)
    requires Lawful(p) && c.maxBytes >= 0 && c.maxCalls >= 0 && c.maxCumulativeBytes >= 0
    ensures var v := PayloadValue(p, c, issued);
            && p.decode(p.encode(Canonical(v))) == Some(Canonical(v))
            && p.readJson(Canonical(v)) == Some(Canonicalize(v))
  {
    hide Canonical, Canonicalize, PayloadValue;
    PayloadIsWellFormed(p, c, issued);
    PayloadIsDecimal(p, c, issued);
  }

  lemma PayloadFields(p: Primitives, c: Claims, issued: int)
    requires c.maxBytes >= 0 && c.maxCalls >= 0 && c.maxCumulativeBytes >= 0
    ensures var v := Canonicalize(PayloadValue(p, c, issued));
            && Field(v, VERSION) == Some(Number(1)) && StringField(v, ISSUED_AT) == Some(p.isoText(issued))
            && Field(v, CLAIMS) == Some(Canonicalize(Obj(Record(CLAIM_KEYS, ClaimValues(c)))))
  {
    var values := [Number(1), Str(p.isoText(issued)), Obj(Record(CLAIM_KEYS, ClaimValues(c)))];
    hide Canonicalize, Record, Field, ClaimValues;
    KeysAreDistinct();
    RecordField(PAYLOAD_KEYS, values, 0);
    RecordField(PAYLOAD_KEYS, values, 1);
    RecordField(PAYLOAD_KEYS, values, 2);
    ScalarsAreCanonical(p.isoText(issued));
  }

  lemma IssuedAtReadsBack(p: Primitives, issued: int)
    requires Lawful(p) && ValidTime(issued)
    ensures Iso(p, p.isoText(issued)) == Some(issued)
  {
  }

  lemma ScalarsAreCanonical(s: Text)
    ensures Canonicalize(Str(s)) == Str(s) && Canonicalize(Number(1)) == Number(1)
  {
  }
}
