/**
 * What a signed artifact capability promises (packages/core/src/artifact-capability.ts): the
 * round trip from issuer to verifier, and what can be said of every token that is accepted.
 */
module ArtifactToken {
  import opened Wrappers
  import opened TextCodec
  import opened TextOrder
  import opened CanonicalJson
  import opened CanonicalLength
  import opened ArtifactCapability

  // ----- the parts of a token -----

  lemma TokenParts(keyId: Text, encoded: Text, signature: Text)
    requires DOT !in encoded && DOT !in signature
    ensures var token := Signed(keyId, encoded) + [DOT] + signature;
            && (DOT !in keyId ==> Split(token, DOT) == [T("aoc1"), keyId, encoded, signature])
            && (DOT in keyId ==> |Split(token, DOT)| > 4)
            && Join([T("aoc1"), keyId, encoded], DOT) == Signed(keyId, encoded)
  {
    var token := Signed(keyId, encoded) + [DOT] + signature;
    var parts := [T("aoc1"), keyId, encoded, signature];
    JoinThree(T("aoc1"), keyId, encoded, DOT);
    JoinFour(T("aoc1"), keyId, encoded, signature, DOT);
    if DOT in keyId {
      SplitCounts(token, DOT);
      CountConcat(Signed(keyId, encoded) + [DOT], signature, DOT);
      CountConcat(Signed(keyId, encoded), [DOT], DOT);
      CountConcat(T("aoc1") + [DOT] + keyId + [DOT], encoded, DOT);
      CountConcat(T("aoc1") + [DOT] + keyId, [DOT], DOT);
      CountConcat(T("aoc1") + [DOT], keyId, DOT);
      CountConcat(T("aoc1"), [DOT], DOT);
      CountIsZero(keyId, DOT);
      assert Count([DOT], DOT) == 1;
    } else {
      SplitUndoesJoin(parts, DOT);
    }
  }

  // ----- no token is too long -----

  const MAX_CLAIM: nat := 130    // a quoted claim of 128 characters

  predicate PlainString(s: string) {
    Ascii(s) && forall i :: 0 <= i < |s| ==> PlainUnit(s[i] as int)
  }

  lemma PlainT(s: string)
    requires PlainString(s)
    ensures PlainText(T(s)) && |T(s)| == |s|
  {
  }

  predicate PlainKey(key: Text, n: nat) {
    PlainText(key) && |key| <= n
  }

  lemma ClaimKeyIsPlain(i: nat)
    requires i < |CLAIM_KEYS|
    ensures PlainKey(CLAIM_KEYS[i], 18)
  {
    hide PlainKey, PlainText;
    if i < 3 {
      SubjectKeysArePlain();
    } else if i < 6 {
      ScopeKeysArePlain();
    } else if i < 9 {
      LimitKeysArePlain();
    } else {
      TimeKeysArePlain();
    }
  }

  lemma SubjectKeysArePlain()
    ensures PlainKey(PURPOSE, 18) && PlainKey(AUDIENCE, 18) && PlainKey(METHODS, 18)
  {
    hide PlainText;
    PlainT("purpose");
    PlainT("audience");
    PlainT("methods");
  }

  lemma ScopeKeysArePlain()
    ensures PlainKey(PROJECT_ID, 18) && PlainKey(RUN_ID, 18) && PlainKey(STEP_ID, 18)
  {
    hide PlainText;
    PlainT("projectId");
    PlainT("runId");
    PlainT("stepId");
  }

  lemma LimitKeysArePlain()
    ensures PlainKey(MAX_BYTES_KEY, 18) && PlainKey(MAX_CALLS_KEY, 18) && PlainKey(MAX_CUMULATIVE_BYTES_KEY, 18)
  {
    hide PlainText;
    PlainT("maxBytes");
    PlainT("maxCalls");
    LongestKeyIsPlain();
  }

  lemma LongestKeyIsPlain()
    ensures PlainKey(MAX_CUMULATIVE_BYTES_KEY, 18)
  {
    PlainT("maxCumulativeBytes");
  }

  lemma TimeKeysArePlain()
    ensures PlainKey(EXPIRES_AT, 18) && PlainKey(NOT_BEFORE, 18) && PlainKey(NONCE, 18) && PlainKey(PREFIX, 18)
  {
    hide PlainText;
    PlainT("expiresAt");
    PlainT("notBefore");
    PlainT("nonce");
    PlainT("prefix");
  }

  lemma PayloadKeyIsPlain(i: nat)
    requires i < |PAYLOAD_KEYS|
    ensures PlainText(PAYLOAD_KEYS[i]) && |PAYLOAD_KEYS[i]| <= 8
  {
    hide PlainText;
    match i
    case 0 => PlainT("version");
    case 1 => PlainT("issuedAt");
    case _ => PlainT("claims");
  }

  lemma StringFits(s: Text, n: nat)
    requires PlainText(s) && |s| <= n
    ensures Fits(Canonical(Str(s)), n + 2)
  {
    QuoteFits(s, n);
  }

  lemma NumberFits(n: nat)
    requires n < 1_000_000_000
    ensures Fits(Canonical(Number(n)), 9)
  {
    assert Power10(9) == 10 * Power10(8) && Power10(8) == 10 * Power10(7) && Power10(7) == 10 * Power10(6);
    assert Power10(6) == 10 * Power10(5) && Power10(5) == 10 * Power10(4) && Power10(4) == 10 * Power10(3);
    assert Power10(3) == 1000;
    DecimalLength(n, 9, 1_000_000_000);
    DecimalIsDigits(n);
    forall i | 0 <= i < |Decimal(n)| ensures Decimal(n)[i] < 0x80 {
      assert Digit(Decimal(n)[i]);
    }
  }

  lemma SafeIsPlain(s: Text)
    requires SafeClaim(s) || Nonce(s)
    ensures PlainText(s) && |s| <= 128
  {
  }

  // There are three methods, so a list without repetitions has no more.
  lemma MethodsFit(methods: seq<Text>)
    requires forall i :: 0 <= i < |methods| ==> KnownMethod(methods[i])
    requires forall i, j :: 0 <= i < j < |methods| ==> methods[i] != methods[j]
    ensures Fits(Canonical(Arr(MethodValues(methods))), MAX_CLAIM)
  {
    hide KnownMethod, Canonical, Fits;
    var known := {T("artifact.get"), T("artifact.put"), T("artifact.list")};
    DistinctAmong(methods, known);
    var items := MethodValues(methods);
    forall i | 0 <= i < |items| ensures Fits(Canonical(items[i]), 15) {
      MethodFits(methods[i]);
    }
    ArrayFits(items, 15);
    FitsMore(Canonical(Arr(items)), Room(|items|, 15), MAX_CLAIM);
  }

  lemma MethodFits(m: Text)
    requires KnownMethod(m)
    ensures Fits(Canonical(Str(m)), 15)
    ensures m in {T("artifact.get"), T("artifact.put"), T("artifact.list")}
  {
    PlainT("artifact.get");
    PlainT("artifact.put");
    PlainT("artifact.list");
    StringFits(m, 13);
  }

  lemma {:induction false} DistinctAmong(methods: seq<Text>, known: set<Text>)
    requires forall i :: 0 <= i < |methods| ==> KnownMethod(methods[i])
    requires forall i, j :: 0 <= i < j < |methods| ==> methods[i] != methods[j]
    requires known == {T("artifact.get"), T("artifact.put"), T("artifact.list")}
    ensures |methods| <= 3
  {
    hide KnownMethod;
    forall i | 0 <= i < |methods| ensures methods[i] in known {
      MethodFits(methods[i]);
    }
    DistinctIsSmall(methods, known);
    assert |known| <= 3;
  }

  lemma {:induction false} DistinctIsSmall(s: seq<Text>, known: set<Text>)
    requires forall i :: 0 <= i < |s| ==> s[i] in known
    requires forall i, j :: 0 <= i < j < |s| ==> s[i] != s[j]
    ensures |s| <= |known|
  {
    if s != [] {
      var n := |s| - 1;
      DistinctIsSmall(s[..n], known - {s[n]});
    }
  }

  lemma FitsMore(t: Text, n: nat, more: nat)
    requires Fits(t, n) && n <= more
    ensures Fits(t, more)
  {
  }

  lemma ClaimFits(p: Primitives, c: Claims, now: int, i: nat)
    requires Lawful(p) && ValidClaims(p, c, now) && i < |ClaimValues(c)|
    ensures Fits(Canonical(ClaimValues(c)[i]), MAX_CLAIM)
  {
    hide Canonical, Fits, SafeClaim, Nonce, PlainText, KnownMethod;
    var v := ClaimValues(c)[i];
    if v.Arr? {
      MethodsFit(c.methods);
    } else if v.Num? {
      NumberFits(if i == 6 then c.maxBytes else if i == 7 then c.maxCalls else c.maxCumulativeBytes);
      FitsMore(Canonical(v), 9, MAX_CLAIM);
    } else if i == 9 || i == 10 {
      assert ValidTime(Iso(p, v.s).value) && p.isoText(Iso(p, v.s).value) == v.s;
      StringFits(v.s, 128);
    } else {
      SafeIsPlain(v.s);
      StringFits(v.s, 128);
    }
  }

  lemma ClaimsFit(p: Primitives, c: Claims, now: int)
    requires Lawful(p) && ValidClaims(p, c, now)
    ensures Fits(Canonical(Obj(Record(CLAIM_KEYS, ClaimValues(c)))), 1978)
  {
    var entries := Record(CLAIM_KEYS, ClaimValues(c));
    ClaimsCount(c);
    hide Canonical, Fits, PlainText, ValidClaims, ClaimValues;
    forall i | 0 <= i < |entries| ensures Fits(Member(entries[i].key, Canonical(entries[i].value)), 151) {
      ClaimKeyIsPlain(i);
      ClaimFits(p, c, now, i);
      MemberFits(entries[i].key, Canonical(entries[i].value), 18, MAX_CLAIM);
    }
    ObjectFits(entries, 151);
    FitsMore(Canonical(Obj(entries)), Room(|entries|, 151), 1978);
  }

  lemma ClaimsCount(c: Claims)
    requires c.maxBytes >= 0 && c.maxCalls >= 0 && c.maxCumulativeBytes >= 0
    ensures |ClaimValues(c)| <= 13
  {
  }

  function PayloadValues(p: Primitives, c: Claims, now: int): seq<Value>
    requires c.maxBytes >= 0 && c.maxCalls >= 0 && c.maxCumulativeBytes >= 0
  {
    [Number(1), Str(p.isoText(now)), Obj(Record(CLAIM_KEYS, ClaimValues(c)))]
  }

  lemma PayloadValueFits(p: Primitives, c: Claims, now: int, i: nat)
    requires Lawful(p) && ValidClaims(p, c, now) && ValidTime(now) && i < 3
    ensures Fits(Canonical(PayloadValues(p, c, now)[i]), 1978)
  {
    var v := PayloadValues(p, c, now)[i];
    hide Canonical, Fits, PlainText, ValidClaims, ClaimValues, Record;
    match i
    case 0 =>
      NumberFits(1);
      FitsMore(Canonical(v), 9, 1978);
    case 1 =>
      StringFits(p.isoText(now), MAX_ISO_LENGTH);
      FitsMore(Canonical(v), MAX_ISO_LENGTH + 2, 1978);
    case _ => ClaimsFit(p, c, now);
  }

  lemma PayloadFits(p: Primitives, c: Claims, now: int)
    requires Lawful(p) && ValidClaims(p, c, now) && ValidTime(now)
    ensures Fits(Canonical(PayloadValue(p, c, now)), 5972)
  {
    var values := PayloadValues(p, c, now);
    var entries := Record(PAYLOAD_KEYS, values);
    assert PayloadValue(p, c, now) == Obj(entries) && |entries| == 3;
    hide Canonical, Fits, PlainText, ValidClaims, ClaimValues, PayloadValue, PayloadValues, Lawful;
    forall i | 0 <= i < |entries| ensures Fits(Member(entries[i].key, Canonical(entries[i].value)), 1989) {
      PayloadKeyIsPlain(i);
      PayloadValueFits(p, c, now, i);
      MemberFits(entries[i].key, Canonical(entries[i].value), 8, 1978);
    }
    hide Record;
    ObjectFits(entries, 1989);
  }

  /** No issued token is too long for the verifier. */
  lemma TokenIsShort(p: Primitives, key: Key, c: Claims, now: int)
    requires Lawful(p) && Issue(p, key, c, now).Some?
    ensures |Issue(p, key, c, now).value| <= MAX_TOKEN_LENGTH
  {
    hide Canonical, ValidClaims, PayloadValue;
    PayloadFits(p, c, now);
  }

  // ----- the round trip -----

  /**
   * An issued token verifies, for every matching request at a time in its window and no more
   * than five minutes before it was issued, and gives back the claims it was issued for,
   * exactly when its key id has no dot; otherwise it is refused.
   */
  lemma {:induction false} IssuedVerifies(p: Primitives, key: Key, c: Claims, issued: int, keys: map<Text, Text>,
                                          e: Expected, now: int)
    requires Lawful(p) && Issue(p, key, c, issued).Some?
    requires key.keyId in keys && keys[key.keyId] == key.secret
    requires Grants(c, e) && issued <= now + MAX_FUTURE_MS
    requires Iso(p, c.notBefore).Some? && Iso(p, c.expiresAt).Some?
    requires Iso(p, c.notBefore).value <= now < Iso(p, c.expiresAt).value
    ensures var token := Issue(p, key, c, issued).value;
            && (Verify(p, keys, token, e, now) == Some(c) <==> DOT !in key.keyId)
            && (Verify(p, keys, token, e, now) == None <==> DOT in key.keyId)
  {
    hide Canonical, PayloadValue, ParsePayload, Signed, Grants, Split, Safe, Iso, Join, Lawful;
    TokenIsShort(p, key, c, issued);
    EncodesWithoutDots(p);
    var encoded := p.encode(Canonical(PayloadValue(p, c, issued)));
    hide ValidClaims;
    var signed := Signed(key.keyId, encoded);
    var token := Issue(p, key, c, issued).value;
    PayloadReadsBack(p, c, issued, now);
    TokenParts(key.keyId, encoded, p.sign(key.secret, signed));
    if DOT !in key.keyId {
      assert Split(token, DOT)[..3] == [T("aoc1"), key.keyId, encoded];
    }
  }

  lemma EncodesWithoutDots(p: Primitives)
    requires Lawful(p)
    ensures forall t :: DOT !in p.encode(t)
    ensures forall secret, signed :: DOT !in p.sign(secret, signed)
  {
  }

  const DOTTED_KEY := Key([0x61, DOT, 0x62], seq(32, _ => 0x6B))

  // Claims that can be issued at time zero, for one second.
  function SampleClaims(p: Primitives): Claims {
    var id: Text := [0x78];
    Claims(id, id, [T("artifact.get")], id, id, id, None, 1, 1, 1, p.isoText(1000), p.isoText(0), seq(16, _ => 0x6E))
  }

  lemma SampleIsValid(p: Primitives)
    requires Lawful(p)
    ensures ValidClaims(p, SampleClaims(p), 0)
  {
    var c := SampleClaims(p);
    assert ValidTime(0) && ValidTime(1000);
    assert Iso(p, c.notBefore) == Some(0) && Iso(p, c.expiresAt) == Some(1000);
  }

  /**
   * There are such keys: the issuer and the verifier both take the id "a.b", and what is issued
   * with it is never accepted, by any verifier, for any request, at any time.
   */
  lemma {:induction false} DottedKeyIsRefused(p: Primitives)
    requires Lawful(p)
    ensures ValidKey(DOTTED_KEY) && Issue(p, DOTTED_KEY, SampleClaims(p), 0).Some?
    ensures forall keys, e, now :: Verify(p, keys, Issue(p, DOTTED_KEY, SampleClaims(p), 0).value, e, now) == None
  {
    SampleIsValid(p);
    assert ValidKey(DOTTED_KEY);
    var c := SampleClaims(p);
    var encoded := p.encode(Canonical(PayloadValue(p, c, 0)));
    hide Canonical, PayloadValue, ValidClaims, Safe, Lawful, ParsePayload, Split, SampleClaims, Signed;
    EncodesWithoutDots(p);
    assert DOTTED_KEY.keyId[1] == DOT;
    TokenParts(DOTTED_KEY.keyId, encoded, p.sign(DOTTED_KEY.secret, Signed(DOTTED_KEY.keyId, encoded)));
  }

  // ----- exactly what is accepted -----

  // The claims of a token issued at this time, with every limit spelled out.
  ghost predicate Proper(p: Primitives, c: Claims, issued: int) {
    && SafeClaim(c.purpose) && SafeClaim(c.audience)
    && SafeClaim(c.projectId) && SafeClaim(c.runId) && SafeClaim(c.stepId)
    && SafeClaim(c.prefix.GetOr(c.purpose)) && Nonce(c.nonce)
    && 0 < c.maxBytes <= 16_777_216 && 0 < c.maxCalls <= 10_000 && 0 < c.maxCumulativeBytes <= 67_108_864
    && |c.methods| > 0 && DistinctTexts(c.methods)
    && (forall m :: m in c.methods ==> m in {T("artifact.get"), T("artifact.put"), T("artifact.list")})
    && exists notBefore, expires :: Window(p, c, notBefore, expires) && InLimits(notBefore, expires, issued)
  }

  // The window is not empty, opens at most five minutes after the issue, and closes at most an hour
  // after it opens and at most an hour after the issue.
  predicate InLimits(notBefore: int, expires: int, issued: int) {
    && notBefore < expires && notBefore - issued <= 300_000
    && expires - notBefore <= 3_600_000 && expires - issued <= 3_600_000
  }

  // The window the claims name, as the times they print as.
  ghost predicate Window(p: Primitives, c: Claims, notBefore: int, expires: int) {
    && ValidTime(notBefore) && p.isoText(notBefore) == c.notBefore && p.isoTime(c.notBefore) == Some(notBefore)
    && ValidTime(expires) && p.isoText(expires) == c.expiresAt && p.isoTime(c.expiresAt) == Some(expires)
  }

  lemma WindowIsRead(p: Primitives, c: Claims)
    ensures forall a, b :: Window(p, c, a, b) <==> Iso(p, c.notBefore) == Some(a) && Iso(p, c.expiresAt) == Some(b)
  {
  }

  lemma WindowInLimits(p: Primitives, c: Claims, issued: int)
    ensures ValidWindow(p, c, issued) <==>
            exists notBefore, expires :: Window(p, c, notBefore, expires) && InLimits(notBefore, expires, issued)
  {
    WindowIsRead(p, c);
    hide Window, Iso;
    if ValidWindow(p, c, issued) {
      assert Window(p, c, Iso(p, c.notBefore).value, Iso(p, c.expiresAt).value);
    }
  }

  lemma MethodsAreKnown(methods: seq<Text>)
    ensures (forall i :: 0 <= i < |methods| ==> KnownMethod(methods[i])) <==>
            (forall m :: m in methods ==> m in {T("artifact.get"), T("artifact.put"), T("artifact.list")})
  {
    hide T;
    if forall m :: m in methods ==> m in {T("artifact.get"), T("artifact.put"), T("artifact.list")} {
      forall i | 0 <= i < |methods| ensures KnownMethod(methods[i]) {
        assert methods[i] in methods;
      }
    }
  }

  lemma ProperIsValid(p: Primitives, c: Claims, issued: int)
    ensures ValidClaims(p, c, issued) <==> Proper(p, c, issued)
  {
    WindowInLimits(p, c, issued);
    MethodsAreKnown(c.methods);
    hide SafeClaim, Nonce, T, ValidWindow, Window, KnownMethod;
  }

  /** A token is issued exactly for a well-formed key id and proper claims, at a time a date can show. */
  lemma IssuesExactly(p: Primitives, key: Key, c: Claims, now: int)
    ensures Issue(p, key, c, now).Some? <==> Safe(key.keyId) && Proper(p, c, now) && ValidTime(now)
  {
    ProperIsValid(p, c, now);
  }

  // The payload says that these claims were issued at this time.
  ghost predicate Carries(p: Primitives, encoded: Text, issued: int, c: Claims) {
    && ValidTime(issued) && p.isoTime(p.isoText(issued)) == Some(issued)
    && exists v :: Reads(p, encoded, v)
         && Field(v, VERSION) == Some(Number(1)) && StringField(v, ISSUED_AT) == Some(p.isoText(issued))
         && Field(v, CLAIMS).Some? && ClaimsOf(Field(v, CLAIMS).value) == Some(c)
  }

  ghost predicate Reads(p: Primitives, encoded: Text, v: Value) {
    p.decode(encoded).Some? && p.readJson(p.decode(encoded).value) == Some(v)
  }

  lemma PayloadExactly(p: Primitives, encoded: Text, now: int, issued: int, c: Claims)
    ensures ParsePayload(p, encoded, now) == Some(Payload(issued, c))
            <==> Carries(p, encoded, issued, c) && Proper(p, c, issued) && issued <= now + 300_000
  {
    ProperIsValid(p, c, issued);
    hide ValidClaims, Proper, Field, ClaimsOf, StringField;
  }

  // What the request asks for is what the claims allow, item by item.
  ghost predicate Suits(c: Claims, e: Expected) {
    && c.purpose == e.purpose && c.audience == e.audience
    && (e.method_ == None || e.method_.value in c.methods)
    && (e.projectId == None || e.projectId == Some(c.projectId))
    && (e.runId == None || e.runId == Some(c.runId))
    && (e.stepId == None || e.stepId == Some(c.stepId))
    && (e.artifactId == None || c.prefix == None ||
        (|c.prefix.value| <= |e.artifactId.value| && e.artifactId.value[..|c.prefix.value|] == c.prefix.value))
    && (e.bytes == None || 0 <= e.bytes.value <= c.maxBytes)
  }

  /**
   * A token is accepted with its claims exactly when it is not too long; made of a version, a key id, a
   * payload and a signature, parted by dots; signed by the configured key of that id over all before the
   * signature; carries the claims, proper when they were issued and issued no more than five minutes
   * from now; now lies in the claims' own window; and the claims suit the request.
   */
  ghost predicate AcceptedAs(p: Primitives, keys: map<Text, Text>, token: Text, e: Expected, now: int, c: Claims,
                             keyId: Text, encoded: Text, issued: int)
  {
    && |token| <= 8192
    && keyId in keys && DOT !in keyId && DOT !in encoded && DOT !in p.sign(keys[keyId], Signed(keyId, encoded))
    && token == Signed(keyId, encoded) + [DOT] + p.sign(keys[keyId], Signed(keyId, encoded))
    && Carries(p, encoded, issued, c) && Proper(p, c, issued) && issued <= now + 300_000
    && (exists notBefore, expires :: Window(p, c, notBefore, expires) && notBefore <= now < expires)
    && Suits(c, e)
  }

  lemma SuitsIsGranted(c: Claims, e: Expected)
    ensures Suits(c, e) <==> Grants(c, e)
  {
  }

  // Once a token is in parts and its signature is right, what it carries decides.
  lemma SignedParts(p: Primitives, keys: map<Text, Text>, token: Text, e: Expected, now: int, payload: Payload)
    requires |token| <= MAX_TOKEN_LENGTH
    requires var parts := Split(token, DOT);
             && |parts| == 4 && parts[0] == T("aoc1") && parts[1] in keys
             && parts[3] == p.sign(keys[parts[1]], Join(parts[..3], DOT))
             && ParsePayload(p, parts[2], now) == Some(payload)
    requires Grants(payload.claims, e)
    requires Iso(p, payload.claims.notBefore).GetOr(0) <= now < Iso(p, payload.claims.expiresAt).GetOr(0)
    ensures Verify(p, keys, token, e, now) == Some(payload.claims)
  {
    hide Split, Join, ParsePayload, Iso, Grants, T;
  }

  lemma {:induction false} Accepts(p: Primitives, keys: map<Text, Text>, token: Text, e: Expected, now: int,
                                   c: Claims, keyId: Text,
                encoded: Text, issued: int)
    requires AcceptedAs(p, keys, token, e, now, c, keyId, encoded, issued)
    ensures Verify(p, keys, token, e, now) == Some(c)
  {
    TokenParts(keyId, encoded, p.sign(keys[keyId], Signed(keyId, encoded)));
    PayloadExactly(p, encoded, now, issued, c);
    WindowIsRead(p, c);
    SuitsIsGranted(c, e);
    hide Proper, Carries, ParsePayload, Signed, Iso, Window, Split, Join, Verify, Suits, Grants;
    assert Split(token, DOT)[..3] == [T("aoc1"), keyId, encoded];
    SignedParts(p, keys, token, e, now, Payload(issued, c));
  }

  /**
   * An accepted token is signed by a configured key over everything before its signature, its claims
   * suit the request, and it is fresh: now lies in its own window, and it was issued less than an hour
   * ago and no more than five minutes from now.
   */
  lemma {:induction false} AcceptedIsSignedAndFresh(p: Primitives, keys: map<Text, Text>, token: Text, e: Expected,
                                                    now: int)
    returns (keyId: Text, encoded: Text, issued: int)
    requires Verify(p, keys, token, e, now).Some?
    ensures var c := Verify(p, keys, token, e, now).value;
            && AcceptedAs(p, keys, token, e, now, c, keyId, encoded, issued)
            && issued <= now + 300_000 && now < issued + 3_600_000
  {
    var parts := Split(token, DOT);
    JoinUndoesSplit(token, DOT);
    SplitPartsAvoid(token, DOT);
    assert parts == [parts[0], parts[1], parts[2], parts[3]];
    assert parts[..3] == [parts[0], parts[1], parts[2]];
    JoinFour(parts[0], parts[1], parts[2], parts[3], DOT);
    JoinThree(parts[0], parts[1], parts[2], DOT);
    keyId, encoded := parts[1], parts[2];
    var payload := ParsePayload(p, encoded, now).value;
    issued := payload.issued;
    PayloadExactly(p, encoded, now, issued, payload.claims);
    WindowIsRead(p, payload.claims);
    SuitsIsGranted(payload.claims, e);
    hide Split, Join, ParsePayload, Carries, SafeClaim, Nonce, T, Suits, Grants;
  }

  /** The verifier takes nothing else, and refuses nothing of this kind. */
  lemma {:induction false} AcceptsExactly(p: Primitives, keys: map<Text, Text>, token: Text, e: Expected, now: int,
                                          c: Claims)
    ensures Verify(p, keys, token, e, now) == Some(c) <==>
            exists keyId, encoded, issued :: AcceptedAs(p, keys, token, e, now, c, keyId, encoded, issued)
  {
    hide Verify, AcceptedAs;
    if Verify(p, keys, token, e, now) == Some(c) {
      var keyId, encoded, issued := AcceptedIsSignedAndFresh(p, keys, token, e, now);
    }
    forall keyId, encoded, issued | AcceptedAs(p, keys, token, e, now, c, keyId, encoded, issued)
      ensures Verify(p, keys, token, e, now) == Some(c)
    {
      Accepts(p, keys, token, e, now, c, keyId, encoded, issued);
    }
  }

  // ----- the laws can be met -----

  // Not base64url, but as long, and free of dots too.
  function Shifted(t: Text): Text {
    if AsciiText(t) then seq(|t|, i requires 0 <= i < |t| => t[i] % 0x80 + 0x80)
    else Highs(t) + Lows(t)
  }

  function Highs(t: Text): Text {
    seq(|t|, i requires 0 <= i < |t| => 0x100 + t[i] / 0x100)
  }

  function Lows(t: Text): Text {
    seq(|t|, i requires 0 <= i < |t| => 0x100 + t[i] % 0x100)
  }

  function Unshifted(t: Text): Option<Text> {
    if forall i :: 0 <= i < |t| ==> 0x80 <= t[i] < 0x100 then
      Some(seq(|t|, i requires 0 <= i < |t| => t[i] % 0x80))
    else if |t| % 2 == 0 && forall i :: 0 <= i < |t| ==> 0x100 <= t[i] < 0x200 then
      Some(Joined(t[..|t| / 2], t[|t| / 2..]))
    else None
  }

  function Joined(highs: Text, lows: Text): Text
    requires |highs| == |lows|
  {
    seq(|highs|, i requires 0 <= i < |highs| => highs[i] % 0x100 * 0x100 + lows[i] % 0x100)
  }

  lemma AsciiIsUnshifted(t: Text)
    requires AsciiText(t)
    ensures Unshifted(Shifted(t)) == Some(t) && DOT !in Shifted(t) && |Shifted(t)| == |t|
  {
    var shifted := Shifted(t);
    forall i | 0 <= i < |t| ensures shifted[i] == t[i] + 0x80 && shifted[i] % 0x80 == t[i] {
    }
    assert Unshifted(shifted).value == t;
  }

  lemma PairIsUnshifted(u: Unit)
    ensures (0x100 + u / 0x100) % 0x100 * 0x100 + (0x100 + u % 0x100) % 0x100 == u
    ensures u / 0x100 < 0x100
  {
  }

  lemma OtherIsUnshifted(t: Text)
    requires !AsciiText(t)
    ensures Unshifted(Shifted(t)) == Some(t) && DOT !in Shifted(t)
  {
    HalvesAreHigh(t);
    HalvesJoin(t);
    hide Highs, Lows, Joined;
    var shifted := Shifted(t);
    assert |shifted| == 2 * |t| && shifted[0] >= 0x100;
    assert shifted[..|t|] == Highs(t) && shifted[|t|..] == Lows(t);
  }

  lemma HalvesAreHigh(t: Text)
    ensures |Highs(t)| == |Lows(t)| == |t|
    ensures forall i :: 0 <= i < |t| ==> 0x100 <= Highs(t)[i] < 0x200 && 0x100 <= Lows(t)[i] < 0x200
  {
    forall i | 0 <= i < |t| ensures 0x100 <= Highs(t)[i] < 0x200 && 0x100 <= Lows(t)[i] < 0x200 {
      PairIsUnshifted(t[i]);
    }
  }

  lemma HalvesJoin(t: Text)
    ensures |Highs(t)| == |Lows(t)| && Joined(Highs(t), Lows(t)) == t
  {
    forall i | 0 <= i < |t| ensures Joined(Highs(t), Lows(t))[i] == t[i] {
      PairIsUnshifted(t[i]);
    }
  }

  lemma UnshiftedUndoesShifted(t: Text)
    ensures Unshifted(Shifted(t)) == Some(t) && DOT !in Shifted(t)
    ensures AsciiText(t) ==> |Shifted(t)| == |t|
  {
    hide Shifted, Unshifted;
    if AsciiText(t) { AsciiIsUnshifted(t); } else { OtherIsUnshifted(t); }
  }

  const SOME_PRIMITIVES := Primitives(
    (secret, signed) => seq(MAC_LENGTH, _ => 0x30),
    t => Shifted(t),
    t => Unshifted(t),
    t => Parse(t),
    time => if ValidTime(time) then Decimal(time + MAX_TIME) else [],
    t => if ReadDecimal(t).Some? then Some(ReadDecimal(t).value - MAX_TIME) else None)

  /** Nothing impossible is asked of what is taken from outside. */
  lemma TheLawsCanBeMet()
    ensures Lawful(SOME_PRIMITIVES)
  {
    var p := SOME_PRIMITIVES;
    forall v | WellFormed(v)
      ensures p.decode(p.encode(Canonical(v))) == Some(Canonical(v))
          && p.readJson(Canonical(v)) == Some(Canonicalize(v))
    {
      UnshiftedUndoesShifted(Canonical(v));
      ParseUndoesCanonical(v);
    }
    forall t ensures DOT !in p.encode(t) && (AsciiText(t) ==> |p.encode(t)| <= (4 * |t| + 2) / 3) {
      UnshiftedUndoesShifted(t);
    }
    forall time | ValidTime(time)
      ensures p.isoTime(p.isoText(time)) == Some(time)
      ensures |p.isoText(time)| <= MAX_ISO_LENGTH && PlainText(p.isoText(time))
    {
      TimeIsShort(time);
    }
  }

  lemma TimeIsShort(time: int)
    requires ValidTime(time)
    ensures var t := Decimal(time + MAX_TIME); ReadDecimal(t) == Some(time + MAX_TIME) && |t| <= 17 && PlainText(t)
  {
    var n := time + MAX_TIME;
    ReadUndoesDecimal(n);
    DecimalIsDigits(n);
    Powers();
    DecimalLength(n, 17, Power10(17));
    forall i | 0 <= i < |Decimal(n)| ensures PlainUnit(Decimal(n)[i]) {
      assert Digit(Decimal(n)[i]);
    }
  }

  lemma Powers()
    ensures Power10(17) == 100_000_000_000_000_000
  {
    assert Power10(2) == 100;
    assert Power10(5) == 10 * Power10(4) == 100 * Power10(3) == 100_000;
    assert Power10(8) == 10 * Power10(7) == 100 * Power10(6) == 100_000_000;
    assert Power10(11) == 10 * Power10(10) == 100 * Power10(9) == 100_000_000_000;
    assert Power10(14) == 10 * Power10(13) == 100 * Power10(12) == 100_000_000_000_000;
    assert Power10(17) == 10 * Power10(16) == 100 * Power10(15);
  }
}
