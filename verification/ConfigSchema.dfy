/**
 * What parsing by the configuration schema (packages/core/src/config.ts) makes of a
 * configuration's key order, and what follows for a plan: its answer to "has anything changed"
 * is the answer its two hashes give.
 */
module ConfigSchema {
  import opened Wrappers
  import opened TextOrder
  import opened CanonicalJson
  import opened ConfigDiff

  // What a value must look like. The checks on strings and numbers do not matter here.
  datatype Schema =
    | Scalar
    | ListOf(element: Schema)
    | RecordOf(element: Schema)                        // an object with keys of the user's choice
    | Shape(fields: seq<Entry<Schema>>)                // a strict object: these keys, in this order
    | OneOf(tag: Text, options: seq<Entry<Schema>>)    // which option is told by the value at the tag

  function Find(fields: seq<Entry<Schema>>, key: Text): Option<Schema> {
    if fields == [] then None
    else if fields[0].key == key then Some(fields[0].value)
    else Find(fields[1..], key)
  }

  lemma {:induction false} FindIsField(fields: seq<Entry<Schema>>, key: Text)
    requires Find(fields, key).Some?
    ensures exists i :: 0 <= i < |fields| && fields[i] == Entry(key, Find(fields, key).value)
    ensures Find(fields, key).value < Shape(fields)
  {
    if fields[0].key == key {
      assert fields[0] == Entry(key, Find(fields, key).value);
    } else {
      FindIsField(fields[1..], key);
      var i :| 0 <= i < |fields[1..]| && fields[1..][i] == Entry(key, Find(fields[1..], key).value);
      assert fields[i + 1] == Entry(key, Find(fields, key).value);
    }
  }

  // The keys come in the order of the schema; optional ones may be missing.
  predicate InOrder(entries: Entries, fields: seq<Entry<Schema>>)
    decreases |fields|
  {
    if entries == [] then true
    else if fields == [] then false
    else if entries[0].key == fields[0].key then InOrder(entries[1..], fields[1..])
    else InOrder(entries, fields[1..])
  }

  // What parsing by the schema can return. A strict object is built anew, key by key as the
  // schema lists them; a record keeps the order its keys were written in.
  ghost predicate OutputOf(schema: Schema, v: Value)
    decreases v, schema
  {
    match schema
    case Scalar => !v.Arr? && !v.Obj?
    case ListOf(element) => v.Arr? && forall i :: 0 <= i < |v.items| ==> OutputOf(element, v.items[i])
    case RecordOf(element) =>
      v.Obj? && forall i :: 0 <= i < |v.entries| ==> OutputOf(element, v.entries[i].value)
    case Shape(fields) =>
      && v.Obj? && InOrder(v.entries, fields)
      && forall i :: 0 <= i < |v.entries| ==> OutputOfField(fields, v.entries[i].key, v.entries[i].value)
    case OneOf(tag, options) =>
      v.Obj? && exists i :: 0 <= i < |options| && IsOption(tag, options[i], v) && OutputOf(options[i].value, v)
  }

  ghost predicate OutputOfField(fields: seq<Entry<Schema>>, key: Text, v: Value)
    decreases v, fields
  {
    Find(fields, key).Some? && (FindIsField(fields, key); OutputOf(Find(fields, key).value, v))
  }

  predicate IsOption(tag: Text, option: Entry<Schema>, v: Value) {
    v.Obj? && Lookup(v.entries, tag) == Some(Str(option.key))
  }

  // No object of this schema leaves the order of its keys to the user.
  ghost predicate Fixed(schema: Schema) {
    match schema
    case Scalar => true
    case ListOf(element) => Fixed(element)
    case RecordOf(_) => false
    case Shape(fields) => DistinctKeys(fields) && forall i :: 0 <= i < |fields| ==> Fixed(fields[i].value)
    case OneOf(_, _) => false
  }

  // No list of this schema holds, at any depth, an object whose key order is the user's.
  ghost predicate ListsFixed(schema: Schema) {
    match schema
    case Scalar => true
    case ListOf(element) => Fixed(element)
    case RecordOf(element) => ListsFixed(element)
    case Shape(fields) => forall i :: 0 <= i < |fields| ==> ListsFixed(fields[i].value)
    case OneOf(_, options) => DistinctKeys(options) && forall i :: 0 <= i < |options| ==> ListsFixed(options[i].value)
  }

  // ----- a fixed schema leaves one way to write a value -----

  lemma {:induction false} InOrderHas(entries: Entries, fields: seq<Entry<Schema>>, key: Text)
    requires InOrder(entries, fields) && HasKey(entries, key)
    ensures HasKey(fields, key)
    decreases |fields|
  {
    var i :| 0 <= i < |entries| && entries[i].key == key;
    if entries[0].key == fields[0].key {
      if i == 0 {
        assert fields[0].key == key;
      } else {
        assert entries[1..][i - 1].key == key;
        TailHas(entries[1..], fields, key);
      }
    } else {
      TailHas(entries, fields, key);
    }
  }

  lemma TailHas(entries: Entries, fields: seq<Entry<Schema>>, key: Text)
    requires fields != [] && InOrder(entries, fields[1..]) && HasKey(entries, key)
    ensures HasKey(fields, key)
    decreases |fields|, 1
  {
    InOrderHas(entries, fields[1..], key);
    var j :| 0 <= j < |fields[1..]| && fields[1..][j].key == key;
    assert fields[j + 1].key == key;
  }

  // Two objects in the order of one schema, with the same keys, have them in the same places.
  lemma {:induction false} SameOrder(a: Entries, b: Entries, fields: seq<Entry<Schema>>)
    requires DistinctKeys(fields) && InOrder(a, fields) && InOrder(b, fields)
    requires DistinctKeys(a) && DistinctKeys(b) && forall k :: HasKey(a, k) <==> HasKey(b, k)
    ensures |a| == |b| && forall i :: 0 <= i < |a| ==> a[i].key == b[i].key
    decreases |fields|
  {
    if fields == [] {
    } else {
      var key := fields[0].key;
      FirstInOrder(a, fields);
      FirstInOrder(b, fields);
      if HasKey(a, key) {
        forall k ensures HasKey(a[1..], k) <==> HasKey(b[1..], k) {
          TailKeys(a, k);
          TailKeys(b, k);
        }
        SameOrder(a[1..], b[1..], fields[1..]);
      } else {
        SameOrder(a, b, fields[1..]);
      }
    }
  }

  lemma TailKeys(a: Entries, k: Text)
    requires a != [] && DistinctKeys(a)
    ensures HasKey(a[1..], k) <==> HasKey(a, k) && k != a[0].key
  {
    if HasKey(a, k) && k != a[0].key {
      var i :| 0 <= i < |a| && a[i].key == k;
      assert a[1..][i - 1].key == k;
    }
    if HasKey(a[1..], k) {
      var i :| 0 <= i < |a[1..]| && a[1..][i].key == k;
      assert a[i + 1].key == k;
    }
  }

  lemma FirstIsNotLater(fields: seq<Entry<Schema>>)
    requires fields != [] && DistinctKeys(fields)
    ensures !HasKey(fields[1..], fields[0].key)
  {
    forall j | 0 <= j < |fields[1..]| ensures fields[1..][j].key != fields[0].key {
      assert fields[1..][j] == fields[j + 1];
    }
  }

  lemma FirstInOrder(a: Entries, fields: seq<Entry<Schema>>)
    requires fields != [] && DistinctKeys(fields) && InOrder(a, fields)
    ensures HasKey(a, fields[0].key) <==> a != [] && a[0].key == fields[0].key
    ensures InOrder(if HasKey(a, fields[0].key) then a[1..] else a, fields[1..])
  {
    FirstIsNotLater(fields);
    if a != [] && a[0].key != fields[0].key {
      if HasKey(a, fields[0].key) { InOrderHas(a, fields[1..], fields[0].key); }
    }
    if a != [] && a[0].key == fields[0].key { assert HasKey(a, fields[0].key); }
  }

  lemma {:induction false} FixedIsAlone(schema: Schema, v: Value, w: Value)
    requires Fixed(schema) && OutputOf(schema, v) && OutputOf(schema, w)
    requires WellFormed(v) && WellFormed(w) && Same(v, w)
    ensures v == w
    decreases schema
  {
    match schema
    case Scalar =>
    case ListOf(element) =>
      forall i | 0 <= i < |v.items| ensures v.items[i] == w.items[i] {
        FixedIsAlone(element, v.items[i], w.items[i]);
      }
    case Shape(fields) =>
      var a, b := v.entries, w.entries;
      forall k ensures HasKey(a, k) <==> HasKey(b, k) {
        LookupHasKey(a, k);
        LookupHasKey(b, k);
        SameAtKey(a, b, k);
      }
      SameOrder(a, b, fields);
      forall i | 0 <= i < |a| ensures a[i] == b[i] {
        FixedAtField(fields, a, b, i);
        FindIsField(fields, a[i].key);
        FixedIsAlone(Find(fields, a[i].key).value, a[i].value, b[i].value);
      }
  }

  // The values at one place of two objects of a fixed shape, and the schema they both come from.
  lemma FixedAtField(fields: seq<Entry<Schema>>, a: Entries, b: Entries, i: nat)
    requires Fixed(Shape(fields)) && OutputOf(Shape(fields), Obj(a)) && OutputOf(Shape(fields), Obj(b))
    requires WellFormed(Obj(a)) && WellFormed(Obj(b)) && Same(Obj(a), Obj(b))
    requires i < |a| && i < |b| && a[i].key == b[i].key
    ensures Find(fields, a[i].key).Some? && Fixed(Find(fields, a[i].key).value)
    ensures OutputOf(Find(fields, a[i].key).value, a[i].value) && OutputOf(Find(fields, a[i].key).value, b[i].value)
    ensures Same(a[i].value, b[i].value)
  {
    assert OutputOfField(fields, a[i].key, a[i].value) && OutputOfField(fields, b[i].key, b[i].value);
    FindIsField(fields, a[i].key);
    SameAtKey(a, b, a[i].key);
    LookupFound(a, i);
    LookupFound(b, i);
  }

  // ----- the same outputs have no difference -----

  lemma {:induction false} SameOutputsAreUnchanged(schema: Schema, v: Value, w: Value)
    requires ListsFixed(schema) && OutputOf(schema, v) && OutputOf(schema, w)
    requires WellFormed(v) && WellFormed(w) && Same(v, w)
    ensures DiffValues(v, w) == []
    decreases schema, 1
  {
    match schema
    case Scalar =>
    case ListOf(element) => FixedIsAlone(schema, v, w);
    case RecordOf(element) =>
      var a, b := v.entries, w.entries;
      forall k ensures DiffKey(k, a, b) == [] {
        SameAtKey(a, b, k);
        if Lookup(a, k).Some? {
          LookupIsMember(a, k);
          LookupIsMember(b, k);
          LookupWellFormed(a, k);
          LookupWellFormed(b, k);
          SameOutputsAreUnchanged(element, Lookup(a, k).value, Lookup(b, k).value);
        }
      }
      NoChangesInKeys(UnionKeys(a, b), a, b);
    case Shape(fields) => SameShapesAreUnchanged(fields, v.entries, w.entries);
    case OneOf(tag, options) =>
      var i :| 0 <= i < |options| && IsOption(tag, options[i], v) && OutputOf(options[i].value, v);
      var j :| 0 <= j < |options| && IsOption(tag, options[j], w) && OutputOf(options[j].value, w);
      SameAtKey(v.entries, w.entries, tag);
      assert options[i].key == options[j].key;
      SameOutputsAreUnchanged(options[i].value, v, w);
  }

  lemma {:induction false} SameShapesAreUnchanged(fields: seq<Entry<Schema>>, a: Entries, b: Entries)
    requires ListsFixed(Shape(fields)) && OutputOf(Shape(fields), Obj(a)) && OutputOf(Shape(fields), Obj(b))
    requires WellFormed(Obj(a)) && WellFormed(Obj(b)) && Same(Obj(a), Obj(b))
    ensures DiffValues(Obj(a), Obj(b)) == []
    decreases Shape(fields), 0
  {
    forall k ensures DiffKey(k, a, b) == [] {
      SameAtKey(a, b, k);
      if Lookup(a, k).Some? {
        FieldOutput(fields, a, k);
        FieldOutput(fields, b, k);
        FindIsField(fields, k);
        LookupWellFormed(a, k);
        LookupWellFormed(b, k);
        SameOutputsAreUnchanged(Find(fields, k).value, Lookup(a, k).value, Lookup(b, k).value);
      }
    }
    NoChangesInKeys(UnionKeys(a, b), a, b);
  }

  lemma FieldOutput(fields: seq<Entry<Schema>>, a: Entries, k: Text)
    requires OutputOf(Shape(fields), Obj(a)) && Lookup(a, k).Some?
    ensures Find(fields, k).Some? && OutputOf(Find(fields, k).value, Lookup(a, k).value)
  {
    LookupIsMember(a, k);
    var i :| 0 <= i < |a| && a[i] == Entry(k, Lookup(a, k).value);
    assert OutputOfField(fields, a[i].key, a[i].value);
  }

  /**
   * Of parsed values, "changed" and "the hashes differ" are the same answer, for every schema
   * whose lists hold only objects with their keys in a fixed order.
   */
  lemma {:induction false} ChangedIffHashDiffers(schema: Schema, before: Value, after: Value)
    requires ListsFixed(schema) && OutputOf(schema, before) && OutputOf(schema, after)
    requires WellFormed(before) && WellFormed(after)
    ensures DiffValues(before, after) != [] <==> CanonicalJsonValue(before) != CanonicalJsonValue(after)
  {
    CanonicalIsUnambiguous(before, after);
    if DiffValues(before, after) == [] { UnchangedMeansSameHash(before, after); }
    if Same(before, after) { SameOutputsAreUnchanged(schema, before, after); }
  }

  // ----- the schema of a configuration -----

  const STRINGS: Schema := ListOf(Scalar)

  const PERMISSIONS: Schema := Shape(
    [Entry(T("allow"), STRINGS),
     Entry(T("deny"), STRINGS)])

  const PER_MILLION_TOKENS := T("MicrodollarsPerMillionTokens")

  const MODEL_PROFILE: Schema := Shape(
    [Entry(T("provider"), Scalar),
     Entry(T("model"), Scalar),
     Entry(T("input") + PER_MILLION_TOKENS, Scalar),
     Entry(T("output") + PER_MILLION_TOKENS, Scalar),
     Entry(T("cacheReadInput") + PER_MILLION_TOKENS, Scalar),
     Entry(T("cacheCreation5mInput") + PER_MILLION_TOKENS, Scalar),
     Entry(T("cacheCreation1hInput") + PER_MILLION_TOKENS, Scalar),
     Entry(T("runtimeMicrodollarsPerMinute"), Scalar)])

  const AGENT: Schema := Shape(
    [Entry(T("model"), Scalar),
     Entry(T("prompt"), Scalar),
     Entry(T("environment"), Scalar),
     Entry(T("tools"), STRINGS),
     Entry(T("mcps"), STRINGS),
     Entry(T("retries"), Scalar),
     Entry(T("timeoutMs"), Scalar)])

  const LIMITED_NETWORK: Schema := Shape(
    [Entry(T("type"), Scalar),
     Entry(T("allowedHosts"), STRINGS),
     Entry(T("allowMcpServers"), Scalar),
     Entry(T("allowPackageManagers"), Scalar)])

  const UNRESTRICTED_NETWORK: Schema := Shape(
    [Entry(T("type"), Scalar)])

  const NETWORKING: Schema := OneOf(
    T("type"),
    [Entry(T("limited"), LIMITED_NETWORK), Entry(T("unrestricted"), UNRESTRICTED_NETWORK)])

  const PACKAGES: Schema := Shape(
    [Entry(T("apt"), STRINGS),
     Entry(T("cargo"), STRINGS),
     Entry(T("gem"), STRINGS),
     Entry(T("go"), STRINGS),
     Entry(T("npm"), STRINGS),
     Entry(T("pip"), STRINGS)])

  const ENVIRONMENT: Schema := Shape(
    [Entry(T("runtime"), Scalar),
     Entry(T("image"), Scalar),
     Entry(T("variables"), RecordOf(Scalar)),
     Entry(T("tools"), STRINGS),
     Entry(T("mcps"), STRINGS),
     Entry(T("networking"), NETWORKING),
     Entry(T("packages"), PACKAGES)])

  const PIPELINE_STEP: Schema := Shape(
    [Entry(T("id"), Scalar),
     Entry(T("agent"), Scalar),
     Entry(T("environment"), Scalar),
     Entry(T("dependsOn"), STRINGS),
     Entry(T("retries"), Scalar),
     Entry(T("timeoutMs"), Scalar)])

  const PIPELINE: Schema := Shape(
    [Entry(T("steps"), ListOf(PIPELINE_STEP))])

  const PATCH_POLICY: Schema := Shape(
    [Entry(T("protectedPaths"), STRINGS),
     Entry(T("allowBinary"), Scalar),
     Entry(T("allowSymlinks"), Scalar),
     Entry(T("maxFileBytes"), Scalar),
     Entry(T("tools"), PERMISSIONS),
     Entry(T("mcp"), PERMISSIONS)])

  const BUDGETS: Schema := Shape(
    [Entry(T("workflowMicrodollars"), Scalar),
     Entry(T("dailyMicrodollars"), Scalar),
     Entry(T("concurrency"), Scalar),
     Entry(T("admissionReservePercent"), Scalar)])

  const GOALS: Schema := Shape(
    [Entry(T("maxSteps"), Scalar),
     Entry(T("maxRetries"), Scalar),
     Entry(T("timeoutMs"), Scalar)])

  const CHAINS: Schema := Shape(
    [Entry(T("maxDepth"), Scalar)])

  const RUNTIME: Schema := Shape(
    [Entry(T("provider"), Scalar),
     Entry(T("routing"), RecordOf(Scalar))])

  const VERIFICATION: Schema := Shape(
    [Entry(T("trustedTestCommands"), STRINGS),
     Entry(T("registryHosts"), STRINGS)])

  const PROJECT: Schema := Shape(
    [Entry(T("name"), Scalar),
     Entry(T("repository"), Scalar),
     Entry(T("localPath"), Scalar),
     Entry(T("defaultBranch"), Scalar)])

  const AGENT_OS_CONFIG: Schema := Shape(
    [Entry(T("version"), Scalar),
     Entry(T("project"), PROJECT),
     Entry(T("models"), RecordOf(MODEL_PROFILE)),
     Entry(T("agents"), RecordOf(AGENT)),
     Entry(T("environments"), RecordOf(ENVIRONMENT)),
     Entry(T("pipelines"), RecordOf(PIPELINE)),
     Entry(T("policies"), PATCH_POLICY),
     Entry(T("budgets"), BUDGETS),
     Entry(T("goals"), GOALS),
     Entry(T("chains"), CHAINS),
     Entry(T("runtime"), RUNTIME),
     Entry(T("verification"), VERIFICATION)])

  // Steps are the only objects in a list, and their keys differ in length or in the first letter.
  lemma StepsAreFixed()
    ensures Fixed(PIPELINE_STEP)
  {
    var fields := PIPELINE_STEP.fields;
    var lengths := [2, 5, 11, 9, 7, 9];
    var letters := ['i', 'a', 'e', 'd', 'r', 't'];
    forall i | 0 <= i < 6 ensures |fields[i].key| == lengths[i] && fields[i].key[0] == letters[i] as int {
    }
    forall i, j | 0 <= i < j < 6 ensures lengths[i] != lengths[j] || letters[i] != letters[j] {
    }
    assert DistinctKeys(fields);
    forall i | 0 <= i < 6 ensures Fixed(fields[i].value) {
      assert Fixed(STRINGS);
    }
  }

  lemma EnvironmentsAreFixed()
    ensures ListsFixed(ENVIRONMENT)
  {
    assert ListsFixed(STRINGS) && ListsFixed(RecordOf(Scalar));
    assert ListsFixed(LIMITED_NETWORK) && ListsFixed(UNRESTRICTED_NETWORK);
    var options := NETWORKING.options;
    assert |options[0].key| != |options[1].key|;
    assert ListsFixed(NETWORKING);
    assert ListsFixed(PACKAGES);
    forall i | 0 <= i < |ENVIRONMENT.fields| ensures ListsFixed(ENVIRONMENT.fields[i].value) {
    }
  }

  lemma ConfigurationsAreFixed()
    ensures ListsFixed(AGENT_OS_CONFIG)
  {
    StepsAreFixed();
    EnvironmentsAreFixed();
    assert ListsFixed(STRINGS) && ListsFixed(PERMISSIONS) && ListsFixed(PATCH_POLICY);
    assert ListsFixed(PIPELINE);
    assert ListsFixed(AGENT) && ListsFixed(MODEL_PROFILE) && ListsFixed(PROJECT) && ListsFixed(BUDGETS);
    assert ListsFixed(GOALS) && ListsFixed(CHAINS) && ListsFixed(RUNTIME) && ListsFixed(VERIFICATION);
    forall i | 0 <= i < |AGENT_OS_CONFIG.fields| ensures ListsFixed(AGENT_OS_CONFIG.fields[i].value) {
    }
  }

  /** A plan between two parsed configurations reports a change exactly when their hashes differ. */
  lemma PlanAgreesWithHashes(before: Value, after: Value)
    requires OutputOf(AGENT_OS_CONFIG, before) && OutputOf(AGENT_OS_CONFIG, after)
    requires WellFormed(before) && WellFormed(after)
    ensures DiffValues(before, after) != [] <==> CanonicalJsonValue(before) != CanonicalJsonValue(after)
  {
    hide OutputOf, ListsFixed;
    ConfigurationsAreFixed();
    ChangedIffHashDiffers(AGENT_OS_CONFIG, before, after);
  }
}
