/** The aggregation level of cmk/bi/trees.py (`BICompiledAggregation`): computing every branch,
    with the assumed pass requested only for branches an operator override touches, and the
    type tag and title of the result tree's nodes. */
module BiAggregation {
  import opened BiNodes
  import opened BiCompute

  /** `any(assumed_state_ids.intersection(required_elements))`. Every element is a non-empty
      triple and so truthy: the pass is wanted exactly when the intersection is not empty. */
  predicate WantsAssumed(branch: Node, snapshot: StatusSnapshot)
  {
    RequiredElements(branch) * snapshot.assumedStates.Keys != {}
  }

  /** Each branch computed with the assumed pass decided per branch. */
  function BranchBundles(branches: seq<Node>, opts: ComputationOptions, snapshot: StatusSnapshot, co: Collaborators)
    : (rs: seq<Option<NodeResultBundle>>)
    ensures |rs| == |branches|
  {
    seq(|branches|, i requires 0 <= i < |branches| =>
      Compute(branches[i], opts, snapshot, WantsAssumed(branches[i], snapshot), co))
  }

  /** Each branch computed with the same `useAssumed` flag. */
  function UniformBundles(branches: seq<Node>, opts: ComputationOptions, snapshot: StatusSnapshot,
                          useAssumed: bool, co: Collaborators): (rs: seq<Option<NodeResultBundle>>)
    ensures |rs| == |branches|
  {
    seq(|branches|, i requires 0 <= i < |branches| => Compute(branches[i], opts, snapshot, useAssumed, co))
  }

  /** `compute_branches`: the present results of the branches, in branch order; a rule branch
      carries an assumed result exactly when an override touches one of its entities. */
  method ComputeBranches(branches: seq<Node>, opts: ComputationOptions, snapshot: StatusSnapshot, co: Collaborators)
    returns (results: seq<NodeResultBundle>)
    ensures results == Somes(BranchBundles(branches, opts, snapshot, co))
  {
    ghost var bundles := BranchBundles(branches, opts, snapshot, co);
    results := [];
    for i := 0 to |branches|
      invariant results == Somes(bundles[..i])
    {
      var wanted := RequiredElements(branches[i]) * snapshot.assumedStates.Keys != {};
      var result := Compute(branches[i], opts, snapshot, wanted, co);
      assert result == bundles[i];
      SomesPrefixStep(bundles, i);
      if result.Some? {
        results := results + [result.value];
      }
    }
    assert bundles[..|branches|] == bundles;
  }

  /** Every present branch result belongs to one of the branches, and a rule branch's result
      carries an assumed result exactly when an override touches one of its entities. */
  lemma BranchResultsAssumedIffOverride(branches: seq<Node>, opts: ComputationOptions, snapshot: StatusSnapshot,
                                        co: Collaborators, k: nat)
    requires k < |Somes(BranchBundles(branches, opts, snapshot, co))|
    ensures var result := Somes(BranchBundles(branches, opts, snapshot, co))[k];
      exists i | 0 <= i < |branches| ::
        result.instance == branches[i] &&
        (branches[i].Rule? ==> (result.assumed.Some? <==> WantsAssumed(branches[i], snapshot)))
  {
    var bundles := BranchBundles(branches, opts, snapshot, co);
    var result := Somes(bundles)[k];
    assert Some(result) in bundles;
    var i :| 0 <= i < |branches| && bundles[i] == Some(result);
  }

  /** Present results of sequences that agree in presence and in their effective results
      have the same effective results. */
  lemma {:induction false} SomesEffectivesAgree(xs: seq<Option<NodeResultBundle>>, ys: seq<Option<NodeResultBundle>>)
    requires |xs| == |ys|
    requires forall i | 0 <= i < |xs| :: xs[i].None? == ys[i].None?
    requires forall i | 0 <= i < |xs| && xs[i].Some? :: Effective(xs[i].value) == Effective(ys[i].value)
    ensures Effectives(Somes(xs)) == Effectives(Somes(ys))
  {
    if xs != [] {
      var n := |xs| - 1;
      SomesEffectivesAgree(xs[..n], ys[..n]);
      SomesSnoc(xs);
      SomesSnoc(ys);
      if xs[n].Some? {
        ActualsAppend(Somes(xs[..n]), xs[n].value);
        ActualsAppend(Somes(ys[..n]), ys[n].value);
      }
    }
  }

  /** Deciding the pass per branch loses nothing: the effective results are those of
      requesting the assumed pass for every branch. */
  lemma BranchesEffectiveAsFullAssumedPass(branches: seq<Node>, opts: ComputationOptions, snapshot: StatusSnapshot,
                                           co: Collaborators)
    ensures Effectives(Somes(BranchBundles(branches, opts, snapshot, co))) ==
            Effectives(Somes(UniformBundles(branches, opts, snapshot, true, co)))
  {
    var xs := BranchBundles(branches, opts, snapshot, co);
    var ys := UniformBundles(branches, opts, snapshot, true, co);
    forall i | 0 <= i < |branches|
      ensures xs[i].None? == ys[i].None? && (xs[i].Some? ==> Effective(xs[i].value) == Effective(ys[i].value))
    {
      if !WantsAssumed(branches[i], snapshot) {
        forall e | e in RequiredElements(branches[i]) ensures e !in snapshot.assumedStates.Keys {
          assert e !in RequiredElements(branches[i]) * snapshot.assumedStates.Keys;
        }
        AssumedPassWithoutOverrides(branches[i], opts, snapshot, co);
      }
    }
    SomesEffectivesAgree(xs, ys);
  }

  /** The actual results of the branches are those of a plain pass without assumed states. */
  lemma BranchesActualAsPlainPass(branches: seq<Node>, opts: ComputationOptions, snapshot: StatusSnapshot,
                                  co: Collaborators)
    ensures Actuals(Somes(BranchBundles(branches, opts, snapshot, co))) ==
            Actuals(Somes(UniformBundles(branches, opts, snapshot, false, co)))
  {
    var xs := BranchBundles(branches, opts, snapshot, co);
    var ys := UniformBundles(branches, opts, snapshot, false, co);
    forall i | 0 <= i < |branches|
      ensures xs[i].None? == ys[i].None? && (xs[i].Some? ==> xs[i].value.actual == ys[i].value.actual)
    {
      ActualIgnoresAssumedPass(branches[i], opts, snapshot, co);
    }
    SomesAgree(xs, ys);
  }

  // ---------------------------------------------------------------- result tree nodes

  /** The part of `eval_result_node`'s dictionary this model keeps: the type tag (1 for a
      leaf, 2 for a rule), the title and, for a rule, the evaluated children. */
  datatype EvalNode = EvalNode(typeTag: int, title: string, nodes: seq<EvalNode>)

  /** `eval_result_node`. A wildcard is neither a leaf nor a rule and raises
      `NotImplementedError`, here `None`, which also aborts every rule above it. */
  function EvalResultNode(n: Node): (r: Option<EvalNode>)
    ensures r.Some? && n.Leaf? ==> r.value.typeTag == 1 && r.value.nodes == []
    ensures r.Some? && n.Rule? ==> r.value.typeTag == 2 && |r.value.nodes| == |n.nodes|
    ensures r.Some? && n.Rule? ==>
      forall i | 0 <= i < |n.nodes| :: EvalResultNode(n.nodes[i]) == Some(r.value.nodes[i])
  {
    match n
    case Leaf(_, host, service) =>
      Some(EvalNode(1, if service.None? then host else host + " - " + service.value, []))
    case Remaining(_) => None
    case Rule(_, _, properties, _, nodes) =>
      var children := seq(|nodes|, i requires 0 <= i < |nodes| => EvalResultNode(nodes[i]));
      if forall i | 0 <= i < |nodes| :: children[i].Some? then
        Some(EvalNode(2, properties.title, seq(|nodes|, i requires 0 <= i < |nodes| => children[i].value)))
      else None
  }

  /** A tree can be evaluated exactly when no wildcard is left in it, i.e. after
      post-processing. */
  lemma {:induction false} EvalSucceedsIffNoWildcard(n: Node)
    ensures EvalResultNode(n).Some? <==> NoRemaining(n)
  {
    match n
    case Leaf(_, _, _) =>
    case Remaining(_) =>
    case Rule(_, _, _, _, nodes) =>
      var children := seq(|nodes|, i requires 0 <= i < |nodes| => EvalResultNode(nodes[i]));
      forall i | 0 <= i < |nodes| ensures children[i].Some? <==> NoRemaining(nodes[i]) {
        EvalSucceedsIffNoWildcard(nodes[i]);
      }
  }

  /** The title of a leaf's result node names its host and, when there is one, its service,
      separated by " - "; a rule's is its title property. */
  lemma EvalTitles(n: Node)
    requires !n.Remaining? && EvalResultNode(n).Some?
    ensures n.Leaf? && n.service.None? ==> EvalResultNode(n).value.title == n.host
    ensures n.Leaf? && n.service.Some? ==>
      var t := EvalResultNode(n).value.title;
      t[..|n.host|] == n.host && t[|n.host|..|n.host| + 3] == " - " && t[|n.host| + 3..] == n.service.value
    ensures n.Rule? ==> EvalResultNode(n).value.title == n.properties.title
  {
  }
}
