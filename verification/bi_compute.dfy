/** The recursive status computation of cmk/bi/trees.py: a leaf reads its entity from
    the snapshot, a rule folds its children's results through its aggregation function,
    and an optional second ("assumed") pass previews operator overrides. */
module BiCompute {
  import opened BiNodes

  // BI states and host states (the numeric values the bi library gives them).
  const PENDING := -1
  const OK := 0
  const WARN := 1
  const CRIT := 2
  const UNKNOWN := 3
  const HOST_UP := 0
  const HOST_DOWN := 1
  const HOST_UNREACHABLE := 2

  /** `_map_hoststate_to_bistate`: total, UP -> OK, DOWN -> CRIT, everything else -> UNKNOWN. */
  function MapHostStateToBiState(hostState: int): (s: int)
    ensures s == OK <==> hostState == HOST_UP
    ensures s == CRIT <==> hostState == HOST_DOWN
    ensures s == UNKNOWN <==> hostState != HOST_UP && hostState != HOST_DOWN
  {
    if hostState == HOST_UP then OK
    else if hostState == HOST_DOWN then CRIT
    else if hostState == HOST_UNREACHABLE then UNKNOWN
    else UNKNOWN
  }

  // ---------------------------------------------------------------- leaf

  /** `_get_entity`: the host's downtime depth and the referenced host row or service. */
  function GetEntity(leaf: Node, snapshot: StatusSnapshot): (r: (Option<int>, Option<EntityStatus>))
    requires leaf.Leaf?
    // a host without a status row: neither depth nor entity
    ensures HostSpec(leaf.site, leaf.host) !in snapshot.states ==> r == (None, None)
    // otherwise the depth is always the host's, whatever entity is referenced
    ensures HostSpec(leaf.site, leaf.host) in snapshot.states ==>
      r.0 == snapshot.states[HostSpec(leaf.site, leaf.host)].host.scheduledDowntimeDepth
    // a host leaf references the host row; a service leaf finds its entity iff the row lists the service
    ensures HostSpec(leaf.site, leaf.host) in snapshot.states && leaf.service.None? ==>
      r.1 == Some(snapshot.states[HostSpec(leaf.site, leaf.host)].host)
    ensures leaf.service.Some? ==>
      (r.1.Some? <==> HostSpec(leaf.site, leaf.host) in snapshot.states &&
                      leaf.service.value in snapshot.states[HostSpec(leaf.site, leaf.host)].services)
    // and the entity found is the row's entry for that service
    ensures HostSpec(leaf.site, leaf.host) in snapshot.states && leaf.service.Some? &&
            leaf.service.value in snapshot.states[HostSpec(leaf.site, leaf.host)].services ==>
      r.1 == Some(snapshot.states[HostSpec(leaf.site, leaf.host)].services[leaf.service.value])
  {
    var spec := HostSpec(leaf.site, leaf.host);
    if spec !in snapshot.states then (None, None)
    else
      var row := snapshot.states[spec];
      if leaf.service.None? then (row.host.scheduledDowntimeDepth, Some(row.host))
      else if leaf.service.value in row.services then (row.host.scheduledDowntimeDepth, Some(row.services[leaf.service.value]))
      else (row.host.scheduledDowntimeDepth, None)
  }

  /** The entity counts as missing: absent, or without host downtime depth, state or hard state. */
  predicate EntityMissing(hostDepth: Option<int>, entity: Option<EntityStatus>)
  {
    entity.None? || hostDepth.None? || entity.value.state.None? || entity.value.hardState.None?
  }

  function NotFoundText(leaf: Node): string
    requires leaf.Leaf?
  {
    (if leaf.service.None? then "Host " else "Service") + " not found"
  }

  /** Downtime value of a leaf in downtime. */
  function LeafDowntimeLevel(opts: ComputationOptions): int
  {
    if opts.escalateDowntimesAsWarn then 1 else 2
  }

  /** Downtime value of a rule whose folded downtime is positive (the opposite choice). */
  function RuleDowntimeLevel(opts: ComputationOptions): int
  {
    if opts.escalateDowntimesAsWarn then 2 else 1
  }

  /** `_get_state_name`: a leaf whose service description is empty or absent names host states. */
  function StateName(leaf: Node, state: int, co: Collaborators): string
    requires leaf.Leaf?
  {
    if leaf.service.Some? && leaf.service.value != "" then co.serviceStateName(state) else co.hostStateName(state)
  }

  /** `BICompiledLeaf.compute`. */
  function ComputeLeaf(leaf: Node, opts: ComputationOptions, snapshot: StatusSnapshot, useAssumed: bool, co: Collaborators)
    : (r: Option<NodeResultBundle>)
    requires leaf.Leaf?
    ensures r.Some? ==> r.value.instance == leaf && r.value.nested == []
    // a missing entity: an explicit UNKNOWN leaf when aggregations are frozen, pruned otherwise
    ensures var (depth, entity) := GetEntity(leaf, snapshot);
      EntityMissing(depth, entity) ==>
        if opts.freezeAggregations
        then r == Some(NodeResultBundle(NodeComputeResult(UNKNOWN, 0, false, NotFoundText(leaf), false, map[]), None, [], leaf))
        else r.None?
    // downtime
    ensures var (depth, entity) := GetEntity(leaf, snapshot);
      !EntityMissing(depth, entity) ==>
        r.Some? &&
        (r.value.actual.downtimeState == 0 <==> entity.value.scheduledDowntimeDepth == Some(0) && depth.value <= 0) &&
        (r.value.actual.downtimeState != 0 ==> r.value.actual.downtimeState == LeafDowntimeLevel(opts))
    // state
    ensures var (depth, entity) := GetEntity(leaf, snapshot);
      !EntityMissing(depth, entity) ==>
        var e := entity.value;
        var raw := if opts.useHardStates then e.hardState.value else e.state.value;
        r.Some? &&
        (!e.hasBeenChecked ==> r.value.actual.state == PENDING) &&
        (e.hasBeenChecked && leaf.service.Some? ==> r.value.actual.state == raw) &&
        (e.hasBeenChecked && leaf.service.None? ==> r.value.actual.state == MapHostStateToBiState(raw))
    // assumed state: only for the exact entity key, sharing downtime and acknowledgement
    ensures var (depth, entity) := GetEntity(leaf, snapshot);
      !EntityMissing(depth, entity) ==>
        r.Some? &&
        (r.value.assumed.Some? <==> useAssumed && ElementOf(leaf) in snapshot.assumedStates) &&
        (r.value.assumed.Some? ==>
           r.value.assumed.value.state == snapshot.assumedStates[ElementOf(leaf)] &&
           r.value.assumed.value.downtimeState == r.value.actual.downtimeState &&
           r.value.assumed.value.acknowledged == r.value.actual.acknowledged)
    // acknowledgement, service period and output come from the entity; an assumed result
    // names its assumed state instead of the plugin output
    ensures var (depth, entity) := GetEntity(leaf, snapshot);
      !EntityMissing(depth, entity) ==>
        var e := entity.value;
        r.Some? &&
        r.value.actual.acknowledged == e.acknowledged &&
        r.value.actual.inServicePeriod == e.inServicePeriod &&
        r.value.actual.output == e.pluginOutput &&
        (r.value.assumed.Some? ==>
           r.value.assumed.value.inServicePeriod == e.inServicePeriod &&
           r.value.assumed.value.output == "Assumed to be " + StateName(leaf, r.value.assumed.value.state, co))
  {
    var (depth, entity) := GetEntity(leaf, snapshot);
    if EntityMissing(depth, entity) then
      if opts.freezeAggregations
      then Some(NodeResultBundle(NodeComputeResult(UNKNOWN, 0, false, NotFoundText(leaf), false, map[]), None, [], leaf))
      else None
    else
      var e := entity.value;
      var downtimeState :=
        if e.scheduledDowntimeDepth != Some(0) || depth.value > 0 then LeafDowntimeLevel(opts) else 0;
      var state :=
        if e.hasBeenChecked then
          var raw := if opts.useHardStates then e.hardState.value else e.state.value;
          if leaf.service.None? then MapHostStateToBiState(raw) else raw
        else PENDING;
      var key := ElementOf(leaf);
      var assumed :=
        if useAssumed && key in snapshot.assumedStates then
          var assumedState := snapshot.assumedStates[key];
          Some(NodeComputeResult(assumedState, downtimeState, e.acknowledged,
                                 "Assumed to be " + StateName(leaf, assumedState, co), e.inServicePeriod, map[]))
        else None;
      Some(NodeResultBundle(
        NodeComputeResult(state, downtimeState, e.acknowledged, e.pluginOutput, e.inServicePeriod, map[]),
        assumed, [], leaf))
  }

  /** A host leaf only ever reports PENDING, OK, CRIT or UNKNOWN. */
  lemma HostLeafStates(leaf: Node, opts: ComputationOptions, snapshot: StatusSnapshot, useAssumed: bool, co: Collaborators)
    requires leaf.Leaf? && leaf.service.None?
    ensures var r := ComputeLeaf(leaf, opts, snapshot, useAssumed, co);
      r.Some? ==> r.value.actual.state in {PENDING, OK, CRIT, UNKNOWN}
  {
  }

  // ---------------------------------------------------------------- rule fold

  function States(results: seq<NodeComputeResult>): seq<int>
  {
    seq(|results|, i requires 0 <= i < |results| => results[i].state)
  }

  function DowntimeStates(results: seq<NodeComputeResult>): seq<int>
  {
    seq(|results|, i requires 0 <= i < |results| => results[i].downtimeState)
  }

  /** Child states with every acknowledged child counted as OK. */
  function AcknowledgedStates(results: seq<NodeComputeResult>): seq<int>
  {
    seq(|results|, i requires 0 <= i < |results| => if results[i].acknowledged then 0 else results[i].state)
  }

  /** 0 for a child in its service period, 2 otherwise. */
  function ServicePeriodStates(results: seq<NodeComputeResult>): seq<int>
  {
    seq(|results|, i requires 0 <= i < |results| => if results[i].inServicePeriod then 0 else 2)
  }

  /** `state_messages.get(str(state), "")`. */
  function StateMessage(messages: map<string, string>, state: int): string
  {
    var key := IntToString(state);
    if key in messages then messages[key] else ""
  }

  /** `_process_node_compute_result`: fold the children's results into the rule's. */
  function ProcessResults(props: RuleProperties, agg: AggregationSpec, results: seq<NodeComputeResult>,
                          opts: ComputationOptions, co: Collaborators): (r: NodeComputeResult)
    ensures r.state == co.aggregate(agg, States(results))
    // downtime: a positive fold becomes the rule's escalation value, any other fold is kept
    ensures co.aggregate(agg, DowntimeStates(results)) > 0 ==> r.downtimeState == RuleDowntimeLevel(opts)
    ensures co.aggregate(agg, DowntimeStates(results)) <= 0 ==> r.downtimeState == co.aggregate(agg, DowntimeStates(results))
    ensures r.acknowledged <==> r.state != OK && co.aggregate(agg, AcknowledgedStates(results)) == 0
    ensures r.inServicePeriod <==> co.aggregate(agg, ServicePeriodStates(results)) == 0
    ensures r.output == StateMessage(props.stateMessages, r.state) && r.stateMessages == props.stateMessages
  {
    var state := co.aggregate(agg, States(results));
    var folded := co.aggregate(agg, DowntimeStates(results));
    var downtimeState := if folded > 0 then RuleDowntimeLevel(opts) else folded;
    var acknowledged := if state != 0 then co.aggregate(agg, AcknowledgedStates(results)) == 0 else false;
    var inServicePeriod := co.aggregate(agg, ServicePeriodStates(results)) == 0;
    NodeComputeResult(state, downtimeState, acknowledged, StateMessage(props.stateMessages, state),
                      inServicePeriod, props.stateMessages)
  }

  // ---------------------------------------------------------------- recursion

  /** The result a consumer sees: the assumed one when present, else the actual one. */
  function Effective(b: NodeResultBundle): NodeComputeResult
  {
    if b.assumed.Some? then b.assumed.value else b.actual
  }

  function Actuals(bundles: seq<NodeResultBundle>): (rs: seq<NodeComputeResult>)
    ensures |rs| == |bundles|
  {
    seq(|bundles|, i requires 0 <= i < |bundles| => bundles[i].actual)
  }

  function Effectives(bundles: seq<NodeResultBundle>): (rs: seq<NodeComputeResult>)
    ensures |rs| == |bundles|
  {
    seq(|bundles|, i requires 0 <= i < |bundles| => Effective(bundles[i]))
  }

  /** `compute` on any node. */
  function Compute(node: Node, opts: ComputationOptions, snapshot: StatusSnapshot, useAssumed: bool, co: Collaborators)
    : (r: Option<NodeResultBundle>)
    ensures node.Remaining? ==> r.None?
    ensures r.Some? ==> r.value.instance == node
    ensures r.Some? && !useAssumed ==> r.value.assumed.None?
    ensures r.Some? && node.Rule? ==> (r.value.assumed.Some? <==> useAssumed)
    decreases node, 1
  {
    match node
    case Leaf(_, _, _) => ComputeLeaf(node, opts, snapshot, useAssumed, co)
    case Remaining(_) => None
    case Rule(_, _, props, agg, _) =>
      var bundles := Somes(ChildResults(node, opts, snapshot, useAssumed, co));
      if bundles == [] then None
      else
        var actual := ProcessResults(props, agg, Actuals(bundles), opts, co);
        var assumed := if useAssumed then Some(ProcessResults(props, agg, Effectives(bundles), opts, co)) else None;
        Some(NodeResultBundle(actual, assumed, bundles, node))
  }

  /** Every child's result, in child order. */
  function ChildResults(node: Node, opts: ComputationOptions, snapshot: StatusSnapshot, useAssumed: bool, co: Collaborators)
    : (rs: seq<Option<NodeResultBundle>>)
    requires node.Rule?
    ensures |rs| == |node.nodes|
    decreases node, 0
  {
    seq(|node.nodes|, i requires 0 <= i < |node.nodes| => Compute(node.nodes[i], opts, snapshot, useAssumed, co))
  }

  /** A rule is pruned exactly when none of its children has a present result. */
  lemma RulePrunedWithoutBundles(node: Node, opts: ComputationOptions, snapshot: StatusSnapshot, useAssumed: bool, co: Collaborators)
    requires node.Rule?
    ensures Compute(node, opts, snapshot, useAssumed, co).None? <==>
      Somes(ChildResults(node, opts, snapshot, useAssumed, co)) == []
  {
  }

  /** A rule is pruned exactly when all its children are; otherwise its nested results are
      its children's present results, in order, and it folds their actual (and, for the
      assumed pass, their effective) results. */
  lemma RulePruning(node: Node, opts: ComputationOptions, snapshot: StatusSnapshot, useAssumed: bool, co: Collaborators)
    requires node.Rule?
    ensures var r := Compute(node, opts, snapshot, useAssumed, co);
      var children := ChildResults(node, opts, snapshot, useAssumed, co);
      (r.None? <==> forall i | 0 <= i < |node.nodes| :: children[i].None?) &&
      (r.Some? ==>
         r.value.nested == Somes(children) &&
         r.value.actual == ProcessResults(node.properties, node.aggregation, Actuals(r.value.nested), opts, co) &&
         (useAssumed ==>
            r.value.assumed == Some(ProcessResults(node.properties, node.aggregation, Effectives(r.value.nested), opts, co))))
  {
    RulePrunedWithoutBundles(node, opts, snapshot, useAssumed, co);
  }

  // ---------------------------------------------------------------- the assumed pass

  lemma ActualsAppend(bs: seq<NodeResultBundle>, b: NodeResultBundle)
    ensures Actuals(bs + [b]) == Actuals(bs) + [b.actual]
    ensures Effectives(bs + [b]) == Effectives(bs) + [Effective(b)]
  {
    assert Actuals(bs + [b]) == Actuals(bs) + [b.actual];
    assert Effectives(bs + [b]) == Effectives(bs) + [Effective(b)];
  }

  /** Somes(xs) split at its last element. */
  lemma SomesSnoc<T>(xs: seq<Option<T>>)
    requires xs != []
    ensures xs[|xs| - 1].Some? ==> Somes(xs) == Somes(xs[..|xs| - 1]) + [xs[|xs| - 1].value]
    ensures xs[|xs| - 1].None? ==> Somes(xs) == Somes(xs[..|xs| - 1])
  {
  }

  lemma {:induction false} SomesAgree(xs: seq<Option<NodeResultBundle>>, ys: seq<Option<NodeResultBundle>>)
    requires |xs| == |ys|
    requires forall i | 0 <= i < |xs| :: xs[i].None? == ys[i].None?
    requires forall i | 0 <= i < |xs| && xs[i].Some? :: xs[i].value.actual == ys[i].value.actual
    ensures Actuals(Somes(xs)) == Actuals(Somes(ys))
  {
    if xs != [] {
      var n := |xs| - 1;
      SomesAgree(xs[..n], ys[..n]);
      SomesSnoc(xs);
      SomesSnoc(ys);
      if xs[n].Some? {
        ActualsAppend(Somes(xs[..n]), xs[n].value);
        ActualsAppend(Somes(ys[..n]), ys[n].value);
      }
    }
  }

  lemma {:induction false} SomesEffectiveAgree(xs: seq<Option<NodeResultBundle>>, ys: seq<Option<NodeResultBundle>>)
    requires |xs| == |ys|
    requires forall i | 0 <= i < |xs| :: xs[i].None? == ys[i].None?
    requires forall i | 0 <= i < |xs| && xs[i].Some? :: Effective(xs[i].value) == ys[i].value.actual
    ensures Effectives(Somes(xs)) == Actuals(Somes(ys))
  {
    if xs != [] {
      var n := |xs| - 1;
      SomesEffectiveAgree(xs[..n], ys[..n]);
      SomesSnoc(xs);
      SomesSnoc(ys);
      if xs[n].Some? {
        ActualsAppend(Somes(xs[..n]), xs[n].value);
        ActualsAppend(Somes(ys[..n]), ys[n].value);
      }
    }
  }

  /** Requesting the assumed pass neither prunes nor changes the actual result of any node. */
  lemma {:induction false} ActualIgnoresAssumedPass(node: Node, opts: ComputationOptions, snapshot: StatusSnapshot, co: Collaborators)
    ensures var withAssumed := Compute(node, opts, snapshot, true, co);
      var without := Compute(node, opts, snapshot, false, co);
      withAssumed.None? == without.None? &&
      (withAssumed.Some? ==> withAssumed.value.actual == without.value.actual)
  {
    match node
    case Leaf(_, _, _) =>
    case Remaining(_) =>
    case Rule(_, _, props, agg, nodes) =>
      var xs := ChildResults(node, opts, snapshot, true, co);
      var ys := ChildResults(node, opts, snapshot, false, co);
      forall i | 0 <= i < |nodes|
        ensures xs[i].None? == ys[i].None? && (xs[i].Some? ==> xs[i].value.actual == ys[i].value.actual)
      {
        ActualIgnoresAssumedPass(nodes[i], opts, snapshot, co);
      }
      SomesAgree(xs, ys);
  }

  /** Without an override on any entity of the subtree, the assumed pass yields nothing new:
      the effective result equals the actual result of the plain pass. */
  lemma {:induction false} AssumedPassWithoutOverrides(node: Node, opts: ComputationOptions, snapshot: StatusSnapshot, co: Collaborators)
    requires RequiredElements(node) !! snapshot.assumedStates.Keys
    ensures var withAssumed := Compute(node, opts, snapshot, true, co);
      var without := Compute(node, opts, snapshot, false, co);
      withAssumed.None? == without.None? &&
      (withAssumed.Some? ==> Effective(withAssumed.value) == without.value.actual)
  {
    ActualIgnoresAssumedPass(node, opts, snapshot, co);
    match node
    case Leaf(_, _, _) =>
      assert ElementOf(node) in RequiredElements(node);
    case Remaining(_) =>
    case Rule(_, _, props, agg, nodes) =>
      var xs := ChildResults(node, opts, snapshot, true, co);
      var ys := ChildResults(node, opts, snapshot, false, co);
      forall i | 0 <= i < |nodes|
        ensures xs[i].None? == ys[i].None? && (xs[i].Some? ==> Effective(xs[i].value) == ys[i].value.actual)
      {
        forall e | e in RequiredElements(nodes[i]) ensures e in RequiredElements(node) {
          var sets := seq(|nodes|, j requires 0 <= j < |nodes| => RequiredElements(nodes[j]));
          assert e in sets[i];
        }
        AssumedPassWithoutOverrides(nodes[i], opts, snapshot, co);
      }
      SomesEffectiveAgree(xs, ys);
  }

  // ---------------------------------------------------------------- fold semantics

  /** A worst-of style strategy: on a non-empty list it yields OK exactly when every entry is OK. */
  ghost predicate OkOnlyWhenAllOk(co: Collaborators, agg: AggregationSpec)
  {
    forall xs: seq<int> | |xs| > 0 :: co.aggregate(agg, xs) == 0 <==> forall i | 0 <= i < |xs| :: xs[i] == 0
  }

  /** A strategy that never turns non-negative entries into a negative value. */
  ghost predicate KeepsNonNegative(co: Collaborators, agg: AggregationSpec)
  {
    forall xs: seq<int> | forall i | 0 <= i < |xs| :: xs[i] >= 0 :: co.aggregate(agg, xs) >= 0
  }

  /** With a worst-of style strategy a rule is OK exactly when all its children are. */
  lemma RuleOkIffChildrenOk(props: RuleProperties, agg: AggregationSpec, results: seq<NodeComputeResult>,
                            opts: ComputationOptions, co: Collaborators)
    requires OkOnlyWhenAllOk(co, agg) && |results| > 0
    ensures var r := ProcessResults(props, agg, results, opts, co);
      (r.state == OK <==> forall i | 0 <= i < |results| :: results[i].state == OK) &&
      (r.state == OK ==> !r.acknowledged)
  {
    var xs := States(results);
    assert co.aggregate(agg, xs) == 0 <==> forall i | 0 <= i < |xs| :: xs[i] == 0;
    assert forall i | 0 <= i < |xs| :: xs[i] == results[i].state;
  }

  /** With a worst-of style strategy a non-OK rule is acknowledged exactly when every
      child that is not OK is acknowledged. */
  lemma AcknowledgedIffProblemsAcknowledged(props: RuleProperties, agg: AggregationSpec, results: seq<NodeComputeResult>,
                                            opts: ComputationOptions, co: Collaborators)
    requires OkOnlyWhenAllOk(co, agg) && |results| > 0
    requires ProcessResults(props, agg, results, opts, co).state != OK
    ensures ProcessResults(props, agg, results, opts, co).acknowledged
        <==> forall i | 0 <= i < |results| :: results[i].state != OK ==> results[i].acknowledged
  {
    var xs := AcknowledgedStates(results);
    assert co.aggregate(agg, xs) == 0 <==> forall i | 0 <= i < |xs| :: xs[i] == 0;
    assert forall i | 0 <= i < |xs| :: xs[i] == 0 <==> results[i].state == OK || results[i].acknowledged;
  }

  /** With a worst-of style strategy a rule is in its service period exactly when all children are. */
  lemma InServicePeriodIffAllChildren(props: RuleProperties, agg: AggregationSpec, results: seq<NodeComputeResult>,
                                      opts: ComputationOptions, co: Collaborators)
    requires OkOnlyWhenAllOk(co, agg) && |results| > 0
    ensures ProcessResults(props, agg, results, opts, co).inServicePeriod
        <==> forall i | 0 <= i < |results| :: results[i].inServicePeriod
  {
    var xs := ServicePeriodStates(results);
    assert co.aggregate(agg, xs) == 0 <==> forall i | 0 <= i < |xs| :: xs[i] == 0;
    assert forall i | 0 <= i < |xs| :: xs[i] == 0 <==> results[i].inServicePeriod;
  }

  /** Downtime is re-escalated at every rule: a rule over a child in downtime reports the
      rule's own escalation value, whatever value the child carried. */
  lemma DowntimeReescalated(props: RuleProperties, agg: AggregationSpec, results: seq<NodeComputeResult>,
                            opts: ComputationOptions, co: Collaborators)
    requires OkOnlyWhenAllOk(co, agg) && KeepsNonNegative(co, agg)
    requires forall i | 0 <= i < |results| :: results[i].downtimeState >= 0
    requires exists i | 0 <= i < |results| :: results[i].downtimeState != 0
    ensures ProcessResults(props, agg, results, opts, co).downtimeState == RuleDowntimeLevel(opts)
  {
    var xs := DowntimeStates(results);
    var i :| 0 <= i < |results| && results[i].downtimeState != 0;
    assert xs[i] != 0;
    assert co.aggregate(agg, xs) != 0;
    assert co.aggregate(agg, xs) >= 0;
  }

  /** With a worst-of style strategy a rule none of whose children is in downtime is not in
      downtime either. */
  lemma NoChildDowntimeNoRuleDowntime(props: RuleProperties, agg: AggregationSpec, results: seq<NodeComputeResult>,
                                      opts: ComputationOptions, co: Collaborators)
    requires OkOnlyWhenAllOk(co, agg) && |results| > 0
    requires forall i | 0 <= i < |results| :: results[i].downtimeState == 0
    ensures ProcessResults(props, agg, results, opts, co).downtimeState == 0
  {
    var xs := DowntimeStates(results);
    assert forall i | 0 <= i < |xs| :: xs[i] == 0;
    assert co.aggregate(agg, xs) == 0;
  }

  /** As written, a leaf in downtime and the rule directly above it use opposite values
      for the same option: 1 and 2 when downtimes escalate as WARN, 2 and 1 otherwise. */
  lemma DowntimeLevelsAlternate(leaf: Node, props: RuleProperties, agg: AggregationSpec, opts: ComputationOptions,
                                snapshot: StatusSnapshot, co: Collaborators)
    requires leaf.Leaf? && OkOnlyWhenAllOk(co, agg) && KeepsNonNegative(co, agg)
    requires ComputeLeaf(leaf, opts, snapshot, false, co).Some?
    requires ComputeLeaf(leaf, opts, snapshot, false, co).value.actual.downtimeState != 0
    ensures var leafResult := ComputeLeaf(leaf, opts, snapshot, false, co).value.actual;
      var ruleResult := ProcessResults(props, agg, [leafResult], opts, co);
      leafResult.downtimeState == LeafDowntimeLevel(opts) &&
      ruleResult.downtimeState == RuleDowntimeLevel(opts) &&
      leafResult.downtimeState + ruleResult.downtimeState == 3
  {
    var leafResult := ComputeLeaf(leaf, opts, snapshot, false, co).value.actual;
    assert [leafResult][0].downtimeState != 0;
    DowntimeReescalated(props, agg, [leafResult], opts, co);
  }
}
