/** Artifact keys and scopes (packages/core/src/artifacts.ts). */
module ArtifactKey {
  import opened Wrappers
  import opened TextOrder
  import opened TextCodec

  const SLASH: Unit := 0x2F
  const MAX_KEY_LENGTH: nat := 1024
  const MAX_SEGMENT_LENGTH: nat := 128
  const MAX_VERSION: nat := 2147483647

  datatype Scope = Scope(projectId: Text, runId: Text, stepId: Text)

  datatype KeyParts = KeyParts(scope: Scope, artifactId: Text, version: int, digest: Text)

  predicate SegmentUnit(u: Unit) {
    AlphaNumeric(u) || u == DOT || u == '_' as int || u == '-' as int
  }

  // Letters and digits at both ends, dots, underscores and dashes between, never two dots in a row.
  predicate Segment(s: Text) {
    && 1 <= |s| <= MAX_SEGMENT_LENGTH
    && AlphaNumeric(s[0]) && AlphaNumeric(s[|s| - 1])
    && (forall i :: 0 <= i < |s| ==> SegmentUnit(s[i]))
    && (forall i :: 0 <= i < |s| - 1 ==> !(s[i] == DOT && s[i + 1] == DOT))
  }

  predicate PositiveVersion(version: int) {
    1 <= version <= MAX_VERSION
  }

  predicate Sha256(digest: Text) {
    |digest| == 64 && forall i :: 0 <= i < 64 ==> Digit(digest[i]) || 'a' as int <= digest[i] <= 'f' as int
  }

  predicate ValidScope(s: Scope) {
    Segment(s.projectId) && Segment(s.runId) && Segment(s.stepId)
  }

  predicate ValidParts(p: KeyParts) {
    ValidScope(p.scope) && Segment(p.artifactId) && PositiveVersion(p.version) && Sha256(p.digest)
  }

  function ScopePrefix(s: Scope): Option<Text> {
    if !ValidScope(s) then None
    else Some(T("artifacts/v1/") + s.projectId + [SLASH] + s.runId + [SLASH] + s.stepId + [SLASH])
  }

  function BuildArtifactKey(p: KeyParts): Option<Text> {
    var prefix := ScopePrefix(p.scope);
    if prefix.None? || !Segment(p.artifactId) || !PositiveVersion(p.version) || !Sha256(p.digest) then None
    else Some(prefix.value + p.artifactId + [SLASH] + Decimal(p.version) + T("/sha256/") + p.digest)
  }

  // The checks on the shape of a key, before it is rebuilt and compared. A version is read as a
  // number and must print back as written: only a plain decimal does. A key that passes is
  // ASCII, so its being in normal form C never decides.
  function ParseShape(key: Text): Option<KeyParts> {
    if |key| > MAX_KEY_LENGTH then None
    else
      var parts := Split(key, SLASH);
      if |parts| != 9 || parts[0] != T("artifacts") || parts[1] != T("v1") || parts[7] != T("sha256") then None
      else
        var version := ReadDecimal(parts[6]);
        if version.None? then None
        else
          var parsed := KeyParts(Scope(parts[2], parts[3], parts[4]), parts[5], version.value, parts[8]);
          if ValidParts(parsed) then Some(parsed) else None
  }

  function ParseArtifactKey(key: Text): Option<KeyParts> {
    var parsed := ParseShape(key);
    if parsed.None? || BuildArtifactKey(parsed.value) != Some(key) then None else parsed
  }

  // Both the key and the scope must be valid for there to be an answer.
  function ArtifactKeyMatchesScope(key: Text, scope: Scope): Option<bool> {
    var parsed := ParseArtifactKey(key);
    if parsed.None? || !ValidScope(scope) then None else Some(parsed.value.scope == scope)
  }

  // ----- keys as lists of parts -----

  function Parts(p: KeyParts): seq<Text>
    requires ValidParts(p)
  {
    [T("artifacts"), T("v1"), p.scope.projectId, p.scope.runId, p.scope.stepId, p.artifactId, Decimal(p.version),
        T("sha256"), p.digest]
  }

  lemma PartsHaveNoSlash(p: KeyParts)
    requires ValidParts(p)
    ensures forall i :: 0 <= i < 9 ==> SLASH !in Parts(p)[i]
  {
    SegmentHasNoSlash(p.scope.projectId);
    SegmentHasNoSlash(p.scope.runId);
    SegmentHasNoSlash(p.scope.stepId);
    SegmentHasNoSlash(p.artifactId);
    DecimalIsDigits(p.version);
    forall i | 0 <= i < |Decimal(p.version)| ensures Decimal(p.version)[i] != SLASH {
      assert Digit(Decimal(p.version)[i]);
    }
  }

  lemma SegmentHasNoSlash(s: Text)
    requires Segment(s)
    ensures SLASH !in s
  {
    forall i | 0 <= i < |s| ensures s[i] != SLASH {
      assert SegmentUnit(s[i]);
    }
  }

  lemma Glue(front: Text, part: Text, rest: Text)
    ensures front + part + [SLASH] + rest == front + (part + [SLASH] + rest)
  {
  }

  lemma TailOfKey(v: Text, g: Text)
    ensures v + [SLASH] + (T("sha256") + [SLASH] + g) == v + T("/sha256/") + g
  {
    assert T("/sha256/") == [SLASH] + T("sha256") + [SLASH];
  }

  lemma HeadOfKey(rest: Text)
    ensures T("artifacts") + [SLASH] + (T("v1") + [SLASH] + rest) == T("artifacts/v1/") + rest
  {
    assert T("artifacts/v1/") == T("artifacts") + [SLASH] + T("v1") + [SLASH];
  }

  lemma KeyIsJoined(p: KeyParts)
    requires ValidParts(p)
    ensures BuildArtifactKey(p) == Some(Join(Parts(p), SLASH))
  {
    hide Segment, Sha256, Decimal, Join;
    var parts := Parts(p);
    var c, d, e, f, v, g := p.scope.projectId, p.scope.runId, p.scope.stepId, p.artifactId, Decimal(p.version),
        p.digest;
    JoinUnfolds(parts, 9);
    JoinUnfolds(parts[4..], 5);
    var t6 := v + [SLASH] + (T("sha256") + [SLASH] + g);
    TailOfKey(v, g);
    var p1 := T("artifacts/v1/") + c + [SLASH];
    var p2 := p1 + d + [SLASH];
    var p3 := p2 + e + [SLASH];
    assert BuildArtifactKey(p).value == p3 + f + [SLASH] + t6 by {
      assert p3 + f + [SLASH] + v + T("/sha256/") + g == p3 + f + [SLASH] + (v + T("/sha256/") + g);
    }
    var t5 := f + [SLASH] + t6;
    Glue(p3, f, t6);
    var t4 := e + [SLASH] + t5;
    Glue(p2, e, t5);
    var t3 := d + [SLASH] + t4;
    Glue(p1, d, t4);
    Glue(T("artifacts/v1/"), c, t3);
    HeadOfKey(c + [SLASH] + t3);
  }

  lemma JoinUnfolds(parts: seq<Text>, n: nat)
    requires |parts| == n && (n == 9 || n == 5)
    ensures Join(parts, SLASH)
            == parts[0] + [SLASH] + (parts[1] + [SLASH]
                + (parts[2] + [SLASH] + (parts[3] + [SLASH] + Join(parts[4..], SLASH))))
    ensures n == 5 ==> Join(parts[4..], SLASH) == parts[4]
  {
    JoinAt(parts, 0);
    JoinAt(parts, 1);
    JoinAt(parts, 2);
    JoinAt(parts, 3);
    assert parts[0..] == parts;
    if n == 5 {
      assert parts[4..] == [parts[4]];
    }
  }

  lemma JoinAt(parts: seq<Text>, k: nat)
    requires k + 1 < |parts|
    ensures Join(parts[k..], SLASH) == parts[k] + [SLASH] + Join(parts[k + 1..], SLASH)
  {
    assert parts[k..][1..] == parts[k + 1..];
  }

  // The longest key there is has 611 units: the length bound never refuses a built key.
  lemma KeyIsShort(p: KeyParts)
    requires ValidParts(p)
    ensures |BuildArtifactKey(p).value| <= 611
  {
    DecimalLength(p.version, 10, 10000000000);
  }

  /** Parsing undoes building. */
  lemma ParseUndoesBuild(p: KeyParts)
    requires BuildArtifactKey(p).Some?
    ensures ParseArtifactKey(BuildArtifactKey(p).value) == Some(p)
    ensures |BuildArtifactKey(p).value| <= MAX_KEY_LENGTH
  {
    KeyIsJoined(p);
    KeyIsShort(p);
    PartsHaveNoSlash(p);
    SplitUndoesJoin(Parts(p), SLASH);
    ReadUndoesDecimal(p.version);
    assert KeyParts(Scope(p.scope.projectId, p.scope.runId, p.scope.stepId), p.artifactId, p.version, p.digest) == p;
  }

  /** Building undoes parsing: the shape alone already makes a key the one its parts build. */
  lemma BuildUndoesParse(key: Text)
    requires ParseShape(key).Some?
    ensures BuildArtifactKey(ParseShape(key).value) == Some(key)
    ensures ParseArtifactKey(key) == ParseShape(key)
  {
    var p := ParseShape(key).value;
    var parts := Split(key, SLASH);
    JoinUndoesSplit(key, SLASH);
    DecimalUndoesRead(parts[6]);
    KeyIsJoined(p);
    assert parts == Parts(p);
  }

  // Read as a file path, a key leads down eight directories, and never up, sideways or nowhere.
  lemma KeyLeadsDown(key: Text)
    requires ParseArtifactKey(key).Some?
    ensures var parts := Split(key, SLASH);
            |parts| == 9 && forall i :: 0 <= i < 9 ==>
                              parts[i] != [] && parts[i] != [DOT] && parts[i] != [DOT, DOT]
  {
    var p := ParseArtifactKey(key).value;
    KeyIsJoined(p);
    PartsHaveNoSlash(p);
    SplitUndoesJoin(Parts(p), SLASH);
    DecimalIsDigits(p.version);
    hide Join, Split, Decimal;
    forall i | 0 <= i < 9 ensures Parts(p)[i] != [] && Parts(p)[i][0] != DOT {
      if i == 6 { assert Digit(Decimal(p.version)[0]); }
    }
  }

  // ----- scopes -----

  lemma PrefixOfKey(p: KeyParts)
    requires ValidParts(p)
    ensures ScopePrefix(p.scope).value <= BuildArtifactKey(p).value
  {
  }

  // A segment ends where the first slash is.
  lemma {:induction false} SameFirstSegment(a: Text, x: Text, b: Text, y: Text)
    requires SLASH !in a && SLASH !in b && a + [SLASH] + x <= b + [SLASH] + y
    ensures a == b && x <= y
  {
    var s, t := a + [SLASH] + x, b + [SLASH] + y;
    assert s[0] == (if a == [] then SLASH else a[0]) && t[0] == (if b == [] then SLASH else b[0]);
    if a == [] && b == [] {
      assert s[1..] == x && t[1..] == y;
    } else if a != [] && b != [] {
      assert s[1..] == a[1..] + [SLASH] + x && t[1..] == b[1..] + [SLASH] + y;
      SameFirstSegment(a[1..], x, b[1..], y);
    }
  }

  // A scope's prefix begins another scope's prefix, or any key under it, only for the same scope.
  lemma PrefixFixesScope(s: Scope, t: Scope, rest: Text)
    requires ValidScope(s) && ValidScope(t)
    ensures ScopePrefix(s).value <= ScopePrefix(t).value + rest <==> s == t
  {
    var head := T("artifacts/v1/");
    var a := s.runId + [SLASH] + (s.stepId + [SLASH] + []);
    var b := t.runId + [SLASH] + (t.stepId + [SLASH] + rest);
    assert ScopePrefix(s).value == head + (s.projectId + [SLASH] + a);
    assert ScopePrefix(t).value + rest == head + (t.projectId + [SLASH] + b);
    SegmentHasNoSlash(s.projectId);
    SegmentHasNoSlash(t.projectId);
    SegmentHasNoSlash(s.runId);
    SegmentHasNoSlash(t.runId);
    SegmentHasNoSlash(s.stepId);
    SegmentHasNoSlash(t.stepId);
    if ScopePrefix(s).value <= ScopePrefix(t).value + rest {
      var x, y := head + (s.projectId + [SLASH] + a), head + (t.projectId + [SLASH] + b);
      assert x[|head|..] == s.projectId + [SLASH] + a && y[|head|..] == t.projectId + [SLASH] + b;
      SameFirstSegment(s.projectId, a, t.projectId, b);
      SameFirstSegment(s.runId, s.stepId + [SLASH] + [], t.runId, t.stepId + [SLASH] + rest);
      SameFirstSegment(s.stepId, [], t.stepId, rest);
    }
  }

  /** A canonical key matches a scope exactly when it starts with that scope's prefix. */
  lemma MatchIsPrefix(key: Text, scope: Scope)
    requires ParseArtifactKey(key).Some? && ValidScope(scope)
    ensures ArtifactKeyMatchesScope(key, scope) == Some(ScopePrefix(scope).value <= key)
  {
    var p := ParseArtifactKey(key).value;
    PrefixOfKey(p);
    var prefix := ScopePrefix(p.scope).value;
    assert key == prefix + key[|prefix|..];
    PrefixFixesScope(scope, p.scope, key[|prefix|..]);
  }

  /** Distinct scopes have incomparable prefixes, so their keys never mix. */
  lemma ScopesAreApart(s: Scope, t: Scope)
    requires ValidScope(s) && ValidScope(t) && s != t
    ensures !(ScopePrefix(s).value <= ScopePrefix(t).value) && !(ScopePrefix(t).value <= ScopePrefix(s).value)
  {
    PrefixFixesScope(s, t, []);
    PrefixFixesScope(t, s, []);
    assert ScopePrefix(s).value + [] == ScopePrefix(s).value && ScopePrefix(t).value + [] == ScopePrefix(t).value;
  }
}
