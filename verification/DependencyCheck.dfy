/**
 * The pipeline checks inside the configuration schema (packages/core/src/config.ts): duplicate
 * ids, self dependencies, unknown dependencies, and the depth-first search for a cycle.
 */
module DependencyCheck {
  import opened Permutations

  datatype PipelineStep = PipelineStep(id: string, dependsOn: seq<string>)

  datatype Issue =
    | DuplicateStep(stepIndex: nat)
    | SelfDependency(stepIndex: nat)
    | UnknownDependency(stepIndex: nat, dependency: string)
    | DependencyCycle(stepIndex: nat)

  // ----- the graph of known, non-self dependencies -----

  ghost predicate Known(steps: seq<PipelineStep>, id: string) {
    exists i :: 0 <= i < |steps| && steps[i].id == id
  }

  // A repeated id stands for the first step that carries it.
  ghost predicate IsFirst(steps: seq<PipelineStep>, id: string, i: nat) {
    i < |steps| && steps[i].id == id && forall j :: 0 <= j < i ==> steps[j].id != id
  }

  ghost predicate Edge(steps: seq<PipelineStep>, a: string, b: string) {
    a != b && Known(steps, b) && exists i: nat :: IsFirst(steps, a, i) && b in steps[i].dependsOn
  }

  ghost predicate Path(steps: seq<PipelineStep>, path: seq<string>) {
    path != [] && forall i :: 0 <= i < |path| - 1 ==> Edge(steps, path[i], path[i + 1])
  }

  ghost predicate CycleThrough(steps: seq<PipelineStep>, path: seq<string>) {
    Path(steps, path) && |path| > 1 && path[0] == path[|path| - 1]
  }

  ghost predicate HasCycle(steps: seq<PipelineStep>) {
    exists path :: CycleThrough(steps, path)
  }

  // A walk from `here` that meets some step twice: the step leads into a cycle.
  ghost predicate Lasso(steps: seq<PipelineStep>, path: seq<string>, here: string) {
    Path(steps, path) && path[0] == here && exists i, j :: 0 <= i < j < |path| && path[i] == path[j]
  }

  ghost predicate LeadsIntoCycle(steps: seq<PipelineStep>, i: nat) {
    i < |steps| && exists path :: Lasso(steps, path, steps[i].id)
  }

  lemma LassoHasCycle(steps: seq<PipelineStep>, path: seq<string>, here: string)
    requires Lasso(steps, path, here)
    ensures HasCycle(steps)
  {
    var i, j :| 0 <= i < j < |path| && path[i] == path[j];
    var cycle := path[i..j + 1];
    forall k | 0 <= k < |cycle| - 1 ensures Edge(steps, cycle[k], cycle[k + 1]) {
      assert cycle[k] == path[i + k] && cycle[k + 1] == path[i + k + 1];
    }
    assert CycleThrough(steps, cycle);
  }

  lemma ExtendLasso(steps: seq<PipelineStep>, path: seq<string>, a: string, b: string)
    requires Lasso(steps, path, b) && Edge(steps, a, b)
    ensures Lasso(steps, [a] + path, a)
  {
    var longer := [a] + path;
    forall k | 0 <= k < |longer| - 1 ensures Edge(steps, longer[k], longer[k + 1]) {
      if k > 0 { assert longer[k] == path[k - 1] && longer[k + 1] == path[k - 1 + 1]; }
    }
    var i, j :| 0 <= i < j < |path| && path[i] == path[j];
    assert longer[i + 1] == longer[j + 1];
  }

  // ----- orders -----

  // Every known dependency of a listed step is listed before it.
  ghost predicate Topological(steps: seq<PipelineStep>, order: seq<string>) {
    && Distinct(order)
    && forall i, b :: 0 <= i < |order| && Edge(steps, order[i], b) ==> b in order[..i]
  }

  lemma {:induction false} PathGoesBack(steps: seq<PipelineStep>, order: seq<string>, path: seq<string>, i: nat)
    returns (j: nat)
    requires Topological(steps, order) && Path(steps, path) && i < |order| && order[i] == path[0]
    ensures j <= i && order[j] == path[|path| - 1] && (|path| > 1 ==> j < i)
    decreases |path|
  {
    if |path| == 1 { return i; }
    assert Edge(steps, order[i], path[1]);
    var k :| 0 <= k < i && order[..i][k] == path[1];
    assert forall m :: 0 <= m < |path| - 1 ==> path[1..][m] == path[m + 1];
    j := PathGoesBack(steps, order, path[1..], k);
  }

  // A topological order of every step rules out cycles.
  lemma OrderedIsAcyclic(steps: seq<PipelineStep>, order: seq<string>)
    requires Topological(steps, order) && forall id :: Known(steps, id) ==> id in order
    ensures !HasCycle(steps)
  {
    if path :| CycleThrough(steps, path) {
      assert Edge(steps, path[0], path[1]);
      assert Known(steps, path[0]);
      var i :| 0 <= i < |order| && order[i] == path[0];
      var j := PathGoesBack(steps, order, path, i);
      assert false;
    }
  }

  // ----- the search -----

  function Elements(trail: seq<string>): set<string> {
    set id | id in trail
  }

  class CycleSearch {
    const steps: seq<PipelineStep>
    const stepIndexes: map<string, nat>
    var visiting: set<string>
    var visited: seq<string>  // in insertion order, as a JavaScript set iterates

    ghost predicate Indexed() {
      && (forall id :: id in stepIndexes <==> Known(steps, id))
      && (forall id :: id in stepIndexes ==> IsFirst(steps, id, stepIndexes[id]))
    }

    constructor (steps: seq<PipelineStep>, stepIndexes: map<string, nat>)
      ensures this.steps == steps && this.stepIndexes == stepIndexes && visiting == {} && visited == []
    {
      this.steps := steps;
      this.stepIndexes := stepIndexes;
      visiting := {};
      visited := [];
    }

    // As long as no cycle has turned up.
    ghost predicate Clean()
      reads this
    {
      && Indexed() && Topological(steps, visited)
      && visiting <= stepIndexes.Keys
      && (forall id :: id in visited ==> id in stepIndexes && id !in visiting)
    }

    // `trail` lists the steps being visited, from the outermost to the caller's.
    method Visit(stepId: string, ghost trail: seq<string>) returns (cyclic: bool)
      requires Clean() && stepId in stepIndexes
      requires visiting == Elements(trail) && Path(steps, trail + [stepId])
      modifies this`visiting, this`visited
      ensures cyclic ==> exists path :: Lasso(steps, path, stepId)
      ensures !cyclic ==> Clean() && visiting == old(visiting) && stepId in visited && old(visited) <= visited
      decreases stepIndexes.Keys - visiting
    {
      if stepId in visiting {
        ghost var i :| 0 <= i < |trail| && trail[i] == stepId;
        TrailCloses(steps, trail, stepId, i);
        return true;
      }
      if stepId in visited { return false; }
      visiting := visiting + {stepId};
      var dependsOn := steps[stepIndexes[stepId]].dependsOn;
      ghost var longer := trail + [stepId];
      ghost var before := visiting;
      cyclic := false;
      for i := 0 to |dependsOn|
        invariant Clean() && visiting == before && stepId !in visited && old(visited) <= visited
        invariant forall k :: 0 <= k < i && Edge(steps, stepId, dependsOn[k]) ==> dependsOn[k] in visited
      {
        if dependsOn[i] != stepId && dependsOn[i] in stepIndexes {
          assert IsFirst(steps, stepId, stepIndexes[stepId]);
          assert Edge(steps, stepId, dependsOn[i]);
          ExtendTrail(steps, longer, dependsOn[i]);
          cyclic := Visit(dependsOn[i], longer);
          if cyclic {
            ghost var path :| Lasso(steps, path, dependsOn[i]);
            ExtendLasso(steps, path, stepId, dependsOn[i]);
            break;
          }
        }
      }
      visiting := visiting - {stepId};
      ghost var ordered := visited;
      visited := if stepId in visited then visited else visited + [stepId];
      if !cyclic {
        AppendKeepsOrder(steps, ordered, stepId, stepIndexes[stepId]);
      }
    }
  }

  lemma TrailCloses(steps: seq<PipelineStep>, trail: seq<string>, stepId: string, i: nat)
    requires Path(steps, trail + [stepId]) && i < |trail| && trail[i] == stepId
    ensures Lasso(steps, (trail + [stepId])[i..], stepId)
  {
    var whole := trail + [stepId];
    var path := whole[i..];
    forall k | 0 <= k < |path| - 1 ensures Edge(steps, path[k], path[k + 1]) {
      assert path[k] == whole[i + k] && path[k + 1] == whole[i + k + 1];
    }
    assert path[0] == path[|path| - 1];
  }

  lemma ExtendTrail(steps: seq<PipelineStep>, longer: seq<string>, b: string)
    requires Path(steps, longer) && Edge(steps, longer[|longer| - 1], b)
    ensures Path(steps, longer + [b])
  {
    var path := longer + [b];
    forall k | 0 <= k < |path| - 1 ensures Edge(steps, path[k], path[k + 1]) {
      if k < |longer| - 1 { assert Edge(steps, longer[k], longer[k + 1]); }
    }
  }

  lemma AppendKeepsOrder(steps: seq<PipelineStep>, order: seq<string>, id: string, index: nat)
    requires Topological(steps, order) && id !in order && IsFirst(steps, id, index)
    requires forall k :: 0 <= k < |steps[index].dependsOn| && Edge(steps, id, steps[index].dependsOn[k]) ==>
        steps[index].dependsOn[k] in order
    ensures Topological(steps, order + [id])
  {
    var longer := order + [id];
    forall i, b | 0 <= i < |longer| && Edge(steps, longer[i], b) ensures b in longer[..i] {
      if i < |order| {
        assert longer[..i] == order[..i];
      } else {
        assert longer[..i] == order;
        var first: nat :| IsFirst(steps, id, first) && b in steps[first].dependsOn;
        assert first == index;
      }
    }
  }

  // ----- the checks of one pipeline -----

  // The first step of each id, and the ids in the order their first steps appear.
  method IndexSteps(steps: seq<PipelineStep>)
    returns (issues: seq<Issue>, stepIndexes: map<string, nat>, ids: seq<string>)
    ensures forall id :: id in stepIndexes <==> Known(steps, id)
    ensures forall id :: id in stepIndexes ==> IsFirst(steps, id, stepIndexes[id])
    ensures Distinct(ids) && Elements(ids) == stepIndexes.Keys
    ensures forall issue :: issue in issues <==> RepeatedId(steps, issue)
    ensures issues == [] ==> |ids| == |steps|
  {
    issues, stepIndexes, ids := [], map[], [];
    for stepIndex := 0 to |steps|
      invariant forall id :: id in stepIndexes <==> exists i :: 0 <= i < stepIndex && steps[i].id == id
      invariant forall id :: id in stepIndexes ==> stepIndexes[id] < stepIndex && IsFirst(steps, id, stepIndexes[id])
      invariant Distinct(ids) && Elements(ids) == stepIndexes.Keys
      invariant forall issue :: issue in issues <==> RepeatedId(steps, issue) && issue.stepIndex < stepIndex
      invariant issues == [] ==> |ids| == stepIndex
    {
      var id := steps[stepIndex].id;
      if id in stepIndexes {
        issues := issues + [DuplicateStep(stepIndex)];
      } else {
        assert id !in ids;
        stepIndexes := stepIndexes[id := stepIndex];
        ids := ids + [id];
      }
    }
  }

  ghost predicate RepeatedId(steps: seq<PipelineStep>, issue: Issue) {
    && issue.DuplicateStep? && issue.stepIndex < |steps|
    && exists j :: 0 <= j < issue.stepIndex && steps[j].id == steps[issue.stepIndex].id
  }

  // A dependency on oneself, or on a step that does not exist.
  ghost predicate BadDependency(steps: seq<PipelineStep>, issue: Issue) {
    match issue
    case SelfDependency(i) => i < |steps| && steps[i].id in steps[i].dependsOn
    case UnknownDependency(i, d) => i < |steps| && d in steps[i].dependsOn && d != steps[i].id && !Known(steps, d)
    case _ => false
  }

  method CheckDependencies(steps: seq<PipelineStep>, stepIndexes: map<string, nat>) returns (issues: seq<Issue>)
    requires forall id :: id in stepIndexes <==> Known(steps, id)
    ensures forall issue :: issue in issues <==> BadDependency(steps, issue)
  {
    issues := [];
    for stepIndex := 0 to |steps|
      invariant forall issue :: issue in issues <==> BadDependency(steps, issue) && issue.stepIndex < stepIndex
    {
      var step := steps[stepIndex];
      ghost var earlier := issues;
      for k := 0 to |step.dependsOn|
        invariant forall issue :: issue in issues <==>
                    issue in earlier
                    || (BadDependency(steps, issue) && issue.stepIndex == stepIndex
                        && (if issue.SelfDependency? then step.id in step.dependsOn[..k]
                            else issue.dependency in step.dependsOn[..k]))
      {
        var dependency := step.dependsOn[k];
        assert step.dependsOn[..k + 1] == step.dependsOn[..k] + [dependency];
        if dependency == step.id {
          issues := issues + [SelfDependency(stepIndex)];
        } else if dependency !in stepIndexes {
          issues := issues + [UnknownDependency(stepIndex, dependency)];
        }
      }
      assert step.dependsOn[..|step.dependsOn|] == step.dependsOn;
    }
  }

  // At most one cycle is reported, at a step that leads into it.
  method FindCycle(steps: seq<PipelineStep>, stepIndexes: map<string, nat>, ids: seq<string>)
    returns (issues: seq<Issue>, order: seq<string>)
    requires forall id :: id in stepIndexes <==> Known(steps, id)
    requires forall id :: id in stepIndexes ==> IsFirst(steps, id, stepIndexes[id])
    requires Elements(ids) == stepIndexes.Keys
    ensures issues == [] <==> !HasCycle(steps)
    ensures forall issue :: issue in issues ==> issue.DependencyCycle? && LeadsIntoCycle(steps, issue.stepIndex)
    ensures issues == [] ==> Topological(steps, order) && Elements(order) == stepIndexes.Keys
  {
    var search := new CycleSearch(steps, stepIndexes);
    for i := 0 to |ids|
      invariant search.steps == steps && search.stepIndexes == stepIndexes && fresh(search)
      invariant search.Clean() && search.visiting == {}
      invariant forall k :: 0 <= k < i ==> ids[k] in search.visited
    {
      assert ids[i] in Elements(ids);
      assert Path(steps, [] + [ids[i]]);
      var cyclic := search.Visit(ids[i], []);
      if cyclic {
        ghost var path :| Lasso(steps, path, ids[i]);
        LassoHasCycle(steps, path, ids[i]);
        return [DependencyCycle(stepIndexes[ids[i]])], search.visited;
      }
    }
    issues, order := [], search.visited;
    forall id | Known(steps, id) ensures id in order {
      assert id in Elements(ids);
      var k :| 0 <= k < |ids| && ids[k] == id;
    }
    OrderedIsAcyclic(steps, order);
  }

  method CheckPipeline(steps: seq<PipelineStep>) returns (issues: seq<Issue>, order: seq<string>)
    ensures (exists i: nat :: DependencyCycle(i) in issues) <==> HasCycle(steps)
    ensures forall i :: DependencyCycle(i) in issues ==> LeadsIntoCycle(steps, i)
    ensures forall issue: Issue :: !issue.DependencyCycle? ==>
        (issue in issues <==> RepeatedId(steps, issue) || BadDependency(steps, issue))
    ensures issues == [] ==> RunsInOrder(steps, order)
  {
    var stepIndexes, ids, more;
    issues, stepIndexes, ids := IndexSteps(steps);
    ghost var repeated := issues;
    more := CheckDependencies(steps, stepIndexes);
    ghost var bad := more;
    issues := issues + more;
    more, order := FindCycle(steps, stepIndexes, ids);
    issues := issues + more;
    if HasCycle(steps) { assert more[0] in issues; }
    if issues == [] {
      assert repeated == [] && bad == [] && more == [];
      AcceptedRunsInOrder(steps, order, ids);
    }
  }

  // Exactly the steps of the pipeline, each once, each after everything it depends on.
  ghost predicate RunsInOrder(steps: seq<PipelineStep>, order: seq<string>) {
    && Distinct(order) && |order| == |steps|
    && (forall i :: 0 <= i < |steps| ==> steps[i].id in order)
    && forall i, k, d | 0 <= i < |steps| && 0 <= k < |order| ::
         order[k] == steps[i].id && d in steps[i].dependsOn ==> d in order[..k]
  }

  lemma AcceptedRunsInOrder(steps: seq<PipelineStep>, order: seq<string>, ids: seq<string>)
    requires forall issue :: !RepeatedId(steps, issue) && !BadDependency(steps, issue)
    requires Topological(steps, order) && Distinct(ids) && Elements(order) == Elements(ids) && |ids| == |steps|
    requires forall id :: id in Elements(order) <==> Known(steps, id)
    ensures RunsInOrder(steps, order)
  {
    SameElementsSameLength(order, ids);
    forall i | 0 <= i < |steps| ensures steps[i].id in order && IsFirst(steps, steps[i].id, i) {
      assert Known(steps, steps[i].id);
      assert steps[i].id in Elements(order);
      assert !RepeatedId(steps, DuplicateStep(i));
    }
    forall i, k, d | 0 <= i < |steps| && 0 <= k < |order| && order[k] == steps[i].id && d in steps[i].dependsOn
      ensures d in order[..k]
    {
      assert !BadDependency(steps, SelfDependency(i));
      assert !BadDependency(steps, UnknownDependency(i, d));
      assert Edge(steps, order[k], d);
    }
  }

  lemma {:induction false} DistinctCount(order: seq<string>)
    requires Distinct(order)
    ensures |Elements(order)| == |order|
  {
    if order != [] {
      var last := |order| - 1;
      DistinctCount(order[..last]);
      assert order[last] !in order[..last];
      assert Elements(order) == Elements(order[..last]) + {order[last]};
    }
  }

  lemma SameElementsSameLength(a: seq<string>, b: seq<string>)
    requires Distinct(a) && Distinct(b) && Elements(a) == Elements(b)
    ensures |a| == |b|
  {
    DistinctCount(a);
    DistinctCount(b);
  }
}
