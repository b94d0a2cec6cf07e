/**
 * Publication manifests (packages/core/src/publication.ts): the checks on the set of changed
 * paths, and the canonical form a manifest is digested in.
 */
module PublicationManifest {
  import opened Wrappers
  import opened Permutations
  import opened TextOrder
  import TextCodec
  import GlobRegex
  import CanonicalJson

  const MAX_FILE_BYTES: nat := 1000000
  const MAX_TOTAL_BYTES: nat := 5000000

  datatype Change =
    | Written(path: string, mode: string, content: Text)
    | Deleted(path: string)

  datatype EvidenceKind = TestReport | PolicyReport

  datatype Evidence = Evidence(kind: EvidenceKind, artifactDigest: Text)

  const DEFAULT_PROTECTED_PATHS: seq<string> :=
    [".git", ".git/**", ".github/workflows", ".github/workflows/**", "CODEOWNERS", "**/CODEOWNERS", ".gitmodules",
     ".env*", "**/.env*", "agentos/**", "agentos"]

  // ----- paths -----

  function LowerCase(c: char): char {
    if 'A' <= c <= 'Z' then (c as int - 'A' as int + 'a' as int) as char else c
  }

  function Folded(path: string): string {
    seq(|path|, i requires 0 <= i < |path| => LowerCase(path[i]))
  }

  // Two letters that differ in case alone.
  predicate CasesOf(a: char, b: char) {
    a in {'A', 'B', 'C', 'D', 'E', 'F', 'G', 'H', 'I', 'J', 'K', 'L', 'M',
          'N', 'O', 'P', 'Q', 'R', 'S', 'T', 'U', 'V', 'W', 'X', 'Y', 'Z'} && b as int == a as int + 32
  }

  // Folding forgets the case of letters, and nothing else.
  lemma FoldsAlike(a: string, b: string)
    ensures Folded(a) == Folded(b) <==>
            && |a| == |b|
            && forall i :: 0 <= i < |a| ==> a[i] == b[i] || CasesOf(a[i], b[i]) || CasesOf(b[i], a[i])
  {
    if Folded(a) == Folded(b) {
      assert |a| == |Folded(a)| == |b|;
      forall i | 0 <= i < |a| ensures LowerCase(a[i]) == LowerCase(b[i]) {
        assert Folded(a)[i] == LowerCase(a[i]) && Folded(b)[i] == LowerCase(b[i]);
      }
    }
  }

  // Where a part of the path begins: after a slash, or at the start.
  predicate PartStart(path: string, i: nat)
    requires i <= |path|
  {
    i == 0 || path[i - 1] == '/'
  }

  predicate PartEnd(path: string, i: nat)
    requires i <= |path|
  {
    i == |path| || path[i] == '/'
  }

  // Printable ASCII without backslash or percent, in parts that are neither empty nor dots nor
  // padded with spaces and do not end in a dot.
  predicate PathSyntax(path: string) {
    && path != ""
    && (forall i :: 0 <= i < |path| ==> GlobRegex.Printable(path[i]) && path[i] != '\\' && path[i] != '%')
    && (forall i :: 0 <= i <= |path| && PartStart(path, i) ==> i < |path| && path[i] != '/' && path[i] != ' ')
    && (forall i :: 0 < i <= |path| && PartEnd(path, i) ==> path[i - 1] != '.' && path[i - 1] != ' ')
  }

  // ----- what the syntax keeps out -----

  // A part that names something below the directory it is in, as it is written.
  predicate CleanPart(part: string) {
    && part !in {"", ".", ".."}
    && part[0] != ' ' && part[|part| - 1] != ' ' && part[|part| - 1] != '.'
  }

  predicate PlainChars(path: string) {
    forall c :: c in path ==> ' ' <= c <= '~' && c != '\\' && c != '%'
  }

  // Every part begins and ends as it should.
  predicate CleanEdges(path: string) {
    && (forall i :: 0 <= i <= |path| && PartStart(path, i) ==> i < |path| && path[i] != '/' && path[i] != ' ')
    && (forall i :: 0 < i <= |path| && PartEnd(path, i) ==> path[i - 1] != '.' && path[i - 1] != ' ')
  }

  lemma LastPartEdges(part: string)
    requires '/' !in part
    ensures CleanEdges(part) <==> CleanPart(part)
  {
    assert PartStart(part, 0) && PartEnd(part, |part|);
    forall i | 0 < i <= |part| ensures !PartStart(part, i) && (PartEnd(part, i) ==> i == |part|) {
      assert part[i - 1] in part;
      if i < |part| { assert part[i] in part; }
    }
  }

  // Where parts begin and end in a path made of a first part and the rest.
  lemma EdgesAt(part: string, rest: string, i: nat)
    requires '/' !in part && i <= |part| + 1 + |rest|
    ensures var path := part + "/" + rest;
            && (i == 0 ==> PartStart(path, i))
            && (0 < i <= |part| ==> !PartStart(path, i))
            && (i < |part| ==> path[i] == part[i] && path[i] != '/' && !PartEnd(path, i))
            && (i == |part| ==> path[i] == '/' && PartEnd(path, i))
            && (i > |part| ==>
                  && PartStart(path, i) == PartStart(rest, i - |part| - 1)
                  && PartEnd(path, i) == PartEnd(rest, i - |part| - 1)
                  && (i < |path| ==> path[i] == rest[i - |part| - 1]))
  {
    var path := part + "/" + rest;
    if i < |part| { assert part[i] in part; }
    if 0 < i <= |part| { assert path[i - 1] == part[i - 1] && part[i - 1] in part; }
    if i > |part| + 1 { assert path[i - 1] == rest[i - 1 - |part| - 1]; }
  }

  lemma EdgesOfParts(part: string, rest: string)
    requires '/' !in part && CleanEdges(part + "/" + rest)
    ensures CleanPart(part) && CleanEdges(rest)
  {
    var path, n := part + "/" + rest, |part| + 1;
    EdgesAt(part, rest, 0);
    EdgesAt(part, rest, |part|);
    assert |part| > 0 && path[|part| - 1] == part[|part| - 1];
    forall i | 0 <= i <= |rest| && PartStart(rest, i) ensures i < |rest| && rest[i] != '/' && rest[i] != ' ' {
      EdgesAt(part, rest, n + i);
      assert PartStart(path, n + i);
    }
    forall i | 0 < i <= |rest| && PartEnd(rest, i) ensures rest[i - 1] != '.' && rest[i - 1] != ' ' {
      EdgesAt(part, rest, n + i);
      EdgesAt(part, rest, n + i - 1);
      assert PartEnd(path, n + i);
    }
  }

  lemma PartsHaveEdges(part: string, rest: string)
    requires '/' !in part && CleanPart(part) && CleanEdges(rest)
    ensures CleanEdges(part + "/" + rest)
  {
    var path, n := part + "/" + rest, |part| + 1;
    assert part[0] in part && PartStart(rest, 0);
    forall i | 0 <= i <= |path| && PartStart(path, i) ensures i < |path| && path[i] != '/' && path[i] != ' ' {
      EdgesAt(part, rest, i);
      if i >= n { assert PartStart(rest, i - n); }
    }
    forall i | 0 < i <= |path| && PartEnd(path, i) ensures path[i - 1] != '.' && path[i - 1] != ' ' {
      EdgesAt(part, rest, i);
      if i > n {
        EdgesAt(part, rest, i - 1);
        assert PartEnd(rest, i - n);
      }
    }
  }

  lemma FirstSlash(path: string) returns (k: nat)
    requires '/' in path
    ensures k < |path| && path[k] == '/' && '/' !in path[..k]
  {
    k := 0;
    while path[k] != '/'
      invariant k < |path| && '/' !in path[..k] && '/' in path[k..]
      decreases |path| - k
    {
      assert path[..k + 1] == path[..k] + [path[k]] && path[k..] == [path[k]] + path[k + 1..];
      k := k + 1;
    }
  }

  ghost predicate CleanParts(parts: seq<string>) {
    forall i :: 0 <= i < |parts| ==> CleanPart(parts[i])
  }

  lemma {:induction false} EdgesByPart(path: string)
    ensures CleanEdges(path) <==> CleanParts(TextCodec.Split(path, '/'))
    decreases |path|
  {
    hide CleanEdges, CleanPart;
    if '/' !in path {
      TextCodec.SplitPart(path, '/');
      LastPartEdges(path);
      FirstIsClean(path, []);
      assert [path] + [] == [path];
    } else {
      var k := FirstSlash(path);
      var part, rest := path[..k], path[k + 1..];
      assert path == part + "/" + rest;
      TextCodec.SplitFirst(part, rest, '/');
      if CleanEdges(path) { EdgesOfParts(part, rest); }
      if CleanPart(part) && CleanEdges(rest) { PartsHaveEdges(part, rest); }
      EdgesByPart(rest);
      FirstIsClean(part, TextCodec.Split(rest, '/'));
    }
  }

  lemma FirstIsClean(part: string, parts: seq<string>)
    ensures CleanParts([part] + parts) <==> CleanPart(part) && CleanParts(parts)
  {
    hide CleanPart;
    var all := [part] + parts;
    assert all[0] == part && forall i :: 0 <= i < |parts| ==> all[i + 1] == parts[i];
    if CleanPart(part) && CleanParts(parts) {
      forall i | 0 <= i < |all| ensures CleanPart(all[i]) {
        if i > 0 { assert all[i] == parts[i - 1]; }
      }
    }
  }

  /**
   * A path is well formed exactly when it is printable ASCII without backslash or percent, and none of
   * its parts is empty, a dot, two dots, padded with spaces, or ends in a dot.
   */
  lemma SyntaxByPart(path: string)
    ensures PathSyntax(path) <==>
            PlainChars(path) && CleanParts(TextCodec.Split(path, '/'))
  {
    EdgesByPart(path);
    hide TextCodec.Split, CleanParts;
    forall i | 0 <= i < |path| ensures path[i] in path {
    }
    if path == "" { assert PartStart(path, 0); }
  }

  predicate Protected(path: string) {
    exists i :: 0 <= i < |DEFAULT_PROTECTED_PATHS| && GlobRegex.GlobMatches(DEFAULT_PROTECTED_PATHS[i], path, LowerCase)
  }

  predicate RepositoryPath(path: string) {
    PathSyntax(path) && !Protected(path)
  }

  // The engine agrees with the glob on every path of the right syntax.
  lemma ProtectionIsTheRegex(pattern: string, path: string)
    requires PathSyntax(path)
    ensures var read := GlobRegex.ParseAnchored("^" + GlobRegex.Text(GlobRegex.Pieces(pattern)) + "$");
            read.Some? && (GlobRegex.Matches(read.value, path, LowerCase) <==>
                GlobRegex.GlobMatches(pattern, path, LowerCase))
  {
    forall c | c in path ensures GlobRegex.Printable(c) {
      var i :| 0 <= i < |path| && path[i] == c;
    }
    GlobRegex.GlobPreserved(pattern, path, LowerCase);
  }

  predicate Ancestor(a: string, b: string) {
    a + "/" <= b
  }

  // ----- contents -----

  predicate Binary(t: Text) {
    0 in t
  }

  // The number of bytes of a text in UTF-8; a lone surrogate would be written as U+FFFD.
  function Utf8Length(t: Text): nat {
    if t == [] then 0
    else if |t| > 1 && CanonicalJson.HighSurrogate(t[0]) && CanonicalJson.LowSurrogate(t[1]) then 4 + Utf8Length(t[2..])
    else (if t[0] < 0x80 then 1 else if t[0] < 0x800 then 2 else 3) + Utf8Length(t[1..])
  }

  // What a unit of well-formed text takes in UTF-8: a pair of surrogates takes four bytes together.
  function Width(u: Unit): nat {
    if u <= 0x7F then 1 else if u <= 0x7FF || 0xD800 <= u <= 0xDFFF then 2 else 3
  }

  lemma FirstWidth(t: Text)
    requires t != []
    ensures Sum(Map(Width, t)) == Width(t[0]) + Sum(Map(Width, t[1..]))
  {
    SumWithout(Map(Width, t), 0);
    assert Without(Map(Width, t), 0) == Map(Width, t[1..]);
  }

  // The bytes of well-formed text are those of its units.
  lemma {:induction false} BytesByUnit(t: Text)
    requires CanonicalJson.Paired(t)
    ensures Utf8Length(t) == Sum(Map(Width, t))
    decreases |t|
  {
    if t != [] {
      FirstWidth(t);
      if |t| > 1 && CanonicalJson.HighSurrogate(t[0]) && CanonicalJson.LowSurrogate(t[1]) {
        FirstWidth(t[1..]);
        assert t[1..][1..] == t[2..];
        CanonicalJson.RestIsPaired(t, 2);
        BytesByUnit(t[2..]);
      } else {
        assert CanonicalJson.PairedAt(t, 0);
        CanonicalJson.RestIsPaired(t, 1);
        BytesByUnit(t[1..]);
      }
    }
  }

  /** The scan of assertWellFormedText, which steps over a pair at a time. */
  method IsPaired(value: Text) returns (paired: bool)
    ensures paired <==> CanonicalJson.Paired(value)
  {
    var index := 0;
    while index < |value|
      invariant index <= |value|
      invariant index > 0 ==> !CanonicalJson.HighSurrogate(value[index - 1])
      invariant forall i :: 0 <= i < index ==> CanonicalJson.PairedAt(value, i)
    {
      var code := value[index];
      if CanonicalJson.HighSurrogate(code) {
        if index + 1 >= |value| || !CanonicalJson.LowSurrogate(value[index + 1]) {
          assert !CanonicalJson.PairedAt(value, index);
          return false;
        }
        index := index + 1;
      } else if CanonicalJson.LowSurrogate(code) {
        assert !CanonicalJson.PairedAt(value, index);
        return false;
      }
      index := index + 1;
    }
    return true;
  }

  // ----- the checks -----

  function Bytes(change: Change): nat {
    if change.Written? then Utf8Length(change.content) else 0
  }

  function TotalBytes(changes: seq<Change>): nat {
    Sum(Map(Bytes, changes))
  }

  predicate ContentFits(change: Change) {
    change.Written? ==>
      CanonicalJson.Paired(change.content) && !Binary(change.content) && Bytes(change) <= MAX_FILE_BYTES
  }

  // What a manifest must be, said of its changes as a whole.
  ghost predicate Acceptable(changes: seq<Change>) {
    && (forall i :: 0 <= i < |changes| ==> RepositoryPath(changes[i].path) && ContentFits(changes[i]))
    && (forall i, j :: 0 <= i < j < |changes| ==> Folded(changes[i].path) != Folded(changes[j].path))
    && (forall i, j :: 0 <= i < |changes| && 0 <= j < |changes| && changes[i].Written? && changes[j].Written?
                       ==> !Ancestor(Folded(changes[i].path), Folded(changes[j].path)))
    && TotalBytes(changes) <= MAX_TOTAL_BYTES
  }

  datatype Error = BadPath | PathCollision | ShapeCollision | BadText | BinaryText | FileTooLarge | ManifestTooLarge

  // No earlier change has this one's path, whatever its case.
  ghost predicate PathIsNew(changes: seq<Change>, n: nat)
    requires n < |changes|
  {
    RepositoryPath(changes[n].path) && forall i :: 0 <= i < n ==> Folded(changes[i].path) != Folded(changes[n].path)
  }

  // One of two written paths lies below the other.
  predicate ShapesCollide(a: Change, b: Change) {
    a.Written? && b.Written? && (Ancestor(Folded(a.path), Folded(b.path)) || Ancestor(Folded(b.path), Folded(a.path)))
  }

  ghost predicate FitsTree(changes: seq<Change>, n: nat)
    requires n < |changes|
  {
    PathIsNew(changes, n) && changes[n].Written? && forall i :: 0 <= i < n ==> !ShapesCollide(changes[i], changes[n])
  }

  // What is wrong with change n, after checks that went well.
  ghost predicate Refuses(changes: seq<Change>, n: nat, error: Error)
    requires n < |changes|
  {
    var change := changes[n];
    match error
    case BadPath => !RepositoryPath(change.path)
    case PathCollision => RepositoryPath(change.path) && !PathIsNew(changes, n)
    case ShapeCollision => PathIsNew(changes, n) && exists i :: 0 <= i < n && ShapesCollide(changes[i], change)
    case BadText => FitsTree(changes, n) && !CanonicalJson.Paired(change.content)
    case BinaryText => FitsTree(changes, n) && CanonicalJson.Paired(change.content) && Binary(change.content)
    case FileTooLarge =>
      FitsTree(changes, n) && CanonicalJson.Paired(change.content) && !Binary(change.content)
          && Bytes(change) > MAX_FILE_BYTES
    case ManifestTooLarge =>
      FitsTree(changes, n) && ContentFits(change) && TotalBytes(changes[..n]) + Bytes(change) > MAX_TOTAL_BYTES
  }

  /** One pass over the changes, with the folded paths seen so far and those of them written. */
  method ParsePublicationManifest(changes: seq<Change>) returns (result: Result<(), Error>)
    ensures result.Ok? <==> Acceptable(changes)
    ensures result.Err? ==>
              exists n :: 0 <= n < |changes| && Acceptable(changes[..n]) && Refuses(changes, n, result.error)
  {
    hide RepositoryPath, Folded, TotalBytes, CanonicalJson.Paired, Binary, Utf8Length;
    var aggregateBytes := 0;
    var caseFoldedPaths: set<string> := {};
    var writeFoldedPaths: set<string> := {};
    NothingIsAcceptable();
    for n := 0 to |changes|
      invariant Acceptable(changes[..n]) && aggregateBytes == TotalBytes(changes[..n])
      invariant forall p :: p in caseFoldedPaths <==> exists i :: 0 <= i < n && Folded(changes[i].path) == p
      invariant forall p :: p in writeFoldedPaths <==>
          exists i :: 0 <= i < n && changes[i].Written? && Folded(changes[i].path) == p
    {
      var change := changes[n];
      TotalGrows(changes, n);
      if !RepositoryPath(change.path) {
        assert Refuses(changes, n, BadPath);
        return Err(BadPath);
      }
      var folded := Folded(change.path);
      if folded in caseFoldedPaths {
        assert Refuses(changes, n, PathCollision);
        return Err(PathCollision);
      }
      if change.Written? {
        if existing :| existing in writeFoldedPaths && (existing + "/" <= folded || folded + "/" <= existing) {
          ghost var i :| 0 <= i < n && changes[i].Written? && Folded(changes[i].path) == existing;
          assert ShapesCollide(changes[i], change) && Refuses(changes, n, ShapeCollision);
          return Err(ShapeCollision);
        }
        writeFoldedPaths := writeFoldedPaths + {folded};
      }
      caseFoldedPaths := caseFoldedPaths + {folded};
      if change.Written? {
        assert FitsTree(changes, n);
        var paired := IsPaired(change.content);
        if !paired {
          assert Refuses(changes, n, BadText);
          return Err(BadText);
        }
        if Binary(change.content) {
          assert Refuses(changes, n, BinaryText);
          return Err(BinaryText);
        }
        var size := Utf8Length(change.content);
        if size > MAX_FILE_BYTES {
          assert Refuses(changes, n, FileTooLarge);
          return Err(FileTooLarge);
        }
        aggregateBytes := aggregateBytes + size;
        if aggregateBytes > MAX_TOTAL_BYTES {
          TotalIsMonotone(changes, n + 1);
          assert Refuses(changes, n, ManifestTooLarge);
          return Err(ManifestTooLarge);
        }
      }
      OneMoreIsAcceptable(changes, n);
    }
    assert changes[..|changes|] == changes;
    return Ok(());
  }

  lemma TotalGrows(changes: seq<Change>, n: nat)
    requires n < |changes|
    ensures TotalBytes(changes[..n + 1]) == TotalBytes(changes[..n]) + Bytes(changes[n])
  {
    assert Map(Bytes, changes[..n + 1])[..n] == Map(Bytes, changes[..n]);
  }

  lemma {:induction false} TotalIsMonotone(changes: seq<Change>, n: nat)
    requires n <= |changes|
    ensures TotalBytes(changes[..n]) <= TotalBytes(changes)
    decreases |changes| - n
  {
    if n < |changes| {
      TotalGrows(changes, n);
      TotalIsMonotone(changes, n + 1);
    } else {
      assert changes[..n] == changes;
    }
  }

  lemma NothingIsAcceptable()
    ensures Acceptable([]) && TotalBytes([]) == 0
  {
  }

  lemma NotItsOwnAncestor(a: string)
    ensures !Ancestor(a, a)
  {
  }

  lemma OneMoreIsAcceptable(changes: seq<Change>, n: nat)
    requires n < |changes| && Acceptable(changes[..n])
    requires RepositoryPath(changes[n].path) && ContentFits(changes[n])
        && TotalBytes(changes[..n + 1]) <= MAX_TOTAL_BYTES
    requires forall i :: 0 <= i < n ==> Folded(changes[i].path) != Folded(changes[n].path)
    requires forall i :: 0 <= i < n && changes[i].Written? && changes[n].Written? ==>
               !Ancestor(Folded(changes[i].path), Folded(changes[n].path))
                   && !Ancestor(Folded(changes[n].path), Folded(changes[i].path))
    ensures Acceptable(changes[..n + 1])
  {
    hide RepositoryPath, Folded, ContentFits, TotalBytes;
    NotItsOwnAncestor(Folded(changes[n].path));
    var more := changes[..n + 1];
    assert forall i :: 0 <= i < n ==> more[i] == changes[..n][i];
    assert more[n] == changes[n];
  }

  // ----- the order of changes does not matter -----

  // The checks, said of the changes as a collection without order.
  ghost predicate AcceptableTogether(changes: multiset<Change>) {
    && (forall x :: x in changes ==> changes[x] == 1)
    && (forall x :: x in changes ==> RepositoryPath(x.path) && ContentFits(x))
    && (forall x, y :: x in changes && y in changes && x != y ==> Folded(x.path) != Folded(y.path))
    && (forall x, y :: x in changes && y in changes && x.Written? && y.Written? ==>
        !Ancestor(Folded(x.path), Folded(y.path)))
  }

  lemma AcceptableByMultiset(changes: seq<Change>)
    ensures Acceptable(changes) <==> AcceptableTogether(multiset(changes)) && TotalBytes(changes) <= MAX_TOTAL_BYTES
  {
    hide RepositoryPath, Folded, ContentFits, TotalBytes, Ancestor;
    DistinctByCount(changes);
    if Acceptable(changes) {
      AcceptableIsDistinct(changes);
      AcceptableGivesTogether(changes);
    }
    if AcceptableTogether(multiset(changes)) {
      TogetherGivesAcceptable(changes);
    }
  }

  lemma AcceptableIsDistinct(changes: seq<Change>)
    requires forall i, j :: 0 <= i < j < |changes| ==> Folded(changes[i].path) != Folded(changes[j].path)
    ensures Distinct(changes)
  {
    forall i, j | 0 <= i < j < |changes| ensures changes[i] != changes[j] {
      assert Folded(changes[i].path) != Folded(changes[j].path);
    }
  }

  lemma AcceptableGivesTogether(changes: seq<Change>)
    requires Acceptable(changes) && forall x :: x in multiset(changes) ==> multiset(changes)[x] == 1
    ensures AcceptableTogether(multiset(changes))
  {
    hide RepositoryPath, Folded, ContentFits, TotalBytes, Ancestor;
    forall x | x in multiset(changes) ensures exists i :: 0 <= i < |changes| && changes[i] == x {
      assert x in changes;
    }
  }

  lemma TogetherGivesAcceptable(changes: seq<Change>)
    requires AcceptableTogether(multiset(changes)) && Distinct(changes)
    ensures TotalBytes(changes) <= MAX_TOTAL_BYTES ==> Acceptable(changes)
  {
    hide RepositoryPath, Folded, ContentFits, TotalBytes, Ancestor;
    forall i | 0 <= i < |changes| ensures changes[i] in multiset(changes) {
    }
  }

  /** A manifest is accepted or refused whatever order its changes come in. */
  lemma OrderIsIrrelevant(a: seq<Change>, b: seq<Change>)
    requires multiset(a) == multiset(b)
    ensures Acceptable(a) <==> Acceptable(b)
  {
    AcceptableByMultiset(a);
    AcceptableByMultiset(b);
    MapOfPermutation(Bytes, a, b);
    SumOfPermutation(Map(Bytes, a), Map(Bytes, b));
  }

  // ----- the canonical form -----

  function AsciiText(path: string): Text {
    seq(|path|, i requires 0 <= i < |path| => if path[i] < '\U{0080}' then path[i] as int else 0xFFFD)
  }

  function KeyOf(change: Change): Text {
    AsciiText(Folded(change.path))
  }

  function KeyedChange(change: Change): Entry<Change> {
    Entry(KeyOf(change), change)
  }

  function KindText(kind: EvidenceKind): Text {
    match kind
    case TestReport => T("test-report:")
    case PolicyReport => T("policy-report:")
  }

  function KeyedEvidence(evidence: Evidence): Entry<Evidence> {
    Entry(KindText(evidence.kind) + evidence.artifactDigest, evidence)
  }

  datatype Canonical = Canonical(changes: seq<Entry<Change>>, testEvidence: seq<Entry<Evidence>>)

  // What canonicalManifestValue sorts: changes by folded path, evidence by kind and digest.
  function CanonicalManifest(changes: seq<Change>, evidence: seq<Evidence>): Canonical {
    Canonical(SortEntries(Map(KeyedChange, changes)), SortEntries(Map(KeyedEvidence, evidence)))
  }

  lemma FoldKeepsPrintable(path: string)
    requires PathSyntax(path)
    ensures forall i :: 0 <= i < |Folded(path)| ==> Folded(path)[i] < '\U{0080}'
  {
    forall i | 0 <= i < |path| ensures Folded(path)[i] < '\U{0080}' {
      assert GlobRegex.Printable(path[i]);
    }
  }

  lemma AsciiTextInjective(a: string, b: string)
    requires (forall i :: 0 <= i < |a| ==> a[i] < '\U{0080}') && (forall i :: 0 <= i < |b| ==> b[i] < '\U{0080}')
    requires AsciiText(a) == AsciiText(b)
    ensures a == b
  {
    assert |a| == |AsciiText(a)| == |AsciiText(b)| == |b|;
    forall i | 0 <= i < |a| ensures a[i] == b[i] {
      assert AsciiText(a)[i] == a[i] as int && AsciiText(b)[i] == b[i] as int;
    }
  }

  lemma AcceptedKeysDetermine(changes: seq<Change>)
    requires Acceptable(changes)
    ensures KeyDetermines(Map(KeyedChange, changes))
  {
    var keyed := Map(KeyedChange, changes);
    forall i, j | 0 <= i < |keyed| && 0 <= j < |keyed| && keyed[i].key == keyed[j].key ensures keyed[i] == keyed[j] {
      assert keyed[i] == KeyedChange(changes[i]) && keyed[j] == KeyedChange(changes[j]);
      assert RepositoryPath(changes[i].path) && RepositoryPath(changes[j].path);
      FoldKeepsPrintable(changes[i].path);
      FoldKeepsPrintable(changes[j].path);
      AsciiTextInjective(Folded(changes[i].path), Folded(changes[j].path));
    }
  }

  // A digest is sixty-four digits, so the length of a key tells its kind.
  ghost predicate ValidEvidence(evidence: seq<Evidence>) {
    forall i :: 0 <= i < |evidence| ==> |evidence[i].artifactDigest| == 64
  }

  lemma EvidenceKeysDetermine(evidence: seq<Evidence>)
    requires ValidEvidence(evidence)
    ensures KeyDetermines(Map(KeyedEvidence, evidence))
  {
    var keyed := Map(KeyedEvidence, evidence);
    forall i, j | 0 <= i < |keyed| && 0 <= j < |keyed| && keyed[i].key == keyed[j].key ensures keyed[i] == keyed[j] {
      var x, y := evidence[i], evidence[j];
      assert keyed[i] == KeyedEvidence(x) && keyed[j] == KeyedEvidence(y);
      assert |keyed[i].key| == |KindText(x.kind)| + 64 && |keyed[j].key| == |KindText(y.kind)| + 64;
      assert x.kind == y.kind;
      assert x.artifactDigest == keyed[i].key[|KindText(x.kind)|..];
      assert y.artifactDigest == keyed[j].key[|KindText(y.kind)|..];
    }
  }

  lemma ValuesOfKeyed<A>(f: A -> Entry<A>, a: seq<A>, b: seq<A>)
    requires forall x :: f(x).value == x
    requires SortEntries(Map(f, a)) == SortEntries(Map(f, b))
    ensures multiset(a) == multiset(b)
  {
    var value := (e: Entry<A>) => e.value;
    SortMembers(Map(f, a));
    SortMembers(Map(f, b));
    MapOfPermutation(value, Map(f, a), Map(f, b));
    assert Map(value, Map(f, a)) == a && Map(value, Map(f, b)) == b;
  }

  /**
   * The canonical form of an accepted manifest is the same for another one exactly when that has the
   * same changes and the same test evidence, in any order.
   */
  lemma CanonicalFormIgnoresOrder(a: seq<Change>, b: seq<Change>, e: seq<Evidence>, f: seq<Evidence>)
    requires Acceptable(a) && ValidEvidence(e)
    ensures CanonicalManifest(a, e) == CanonicalManifest(b, f) <==>
            multiset(a) == multiset(b) && multiset(e) == multiset(f)
  {
    if multiset(a) == multiset(b) && multiset(e) == multiset(f) {
      AcceptedKeysDetermine(a);
      EvidenceKeysDetermine(e);
      MapOfPermutation(KeyedChange, a, b);
      MapOfPermutation(KeyedEvidence, e, f);
      SortOfPermutation(Map(KeyedChange, a), Map(KeyedChange, b));
      SortOfPermutation(Map(KeyedEvidence, e), Map(KeyedEvidence, f));
    }
    if CanonicalManifest(a, e) == CanonicalManifest(b, f) {
      hide SortEntries;
      ValuesOfKeyed(KeyedChange, a, b);
      ValuesOfKeyed(KeyedEvidence, e, f);
    }
  }
}
