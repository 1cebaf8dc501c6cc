/** The compiled BI tree of cmk/bi/trees.py: node variants, the status snapshot a
    computation reads, the result bundles it produces, and the structural functions
    every other part of the model shares (required elements, pre-order, containment). */
module BiNodes {

  datatype Option<+T> = None | Some(value: T)

  type SiteId = string
  type HostName = string
  type ServiceName = string

  /** One monitored entity: a host, or a service of a host, on a site. */
  datatype RequiredElement = RequiredElement(site: SiteId, host: HostName, service: Option<ServiceName>)

  datatype HostSpec = HostSpec(site: SiteId, host: HostName)

  /** The configuration of a rule's aggregation function; the strategy it selects is
      resolved outside this model (see `Collaborators.aggregate`). */
  datatype AggregationSpec = AggregationSpec(kind: string, count: int, restrictState: int)

  datatype RuleProperties = RuleProperties(
    title: string,
    docuUrl: string,
    icon: string,
    stateMessages: map<string, string>)

  /** The closed set of node variants. A rule owns its children exclusively;
      `Remaining` is the wildcard placeholder that post-processing replaces by leaves. */
  datatype Node =
    | Leaf(site: SiteId, host: HostName, service: Option<ServiceName>)
    | Rule(id: string, packId: string, properties: RuleProperties, aggregation: AggregationSpec, nodes: seq<Node>)
    | Remaining(hostNames: seq<HostName>)

  datatype ComputationOptions = ComputationOptions(
    useHardStates: bool,
    escalateDowntimesAsWarn: bool,
    freezeAggregations: bool)

  /** The fields of a host row or of a service that a leaf reads. `None` stands for a
      value the status source did not deliver. */
  datatype EntityStatus = EntityStatus(
    state: Option<int>,
    hardState: Option<int>,
    hasBeenChecked: bool,
    scheduledDowntimeDepth: Option<int>,
    acknowledged: bool,
    inServicePeriod: bool,
    pluginOutput: string)

  datatype HostStatus = HostStatus(host: EntityStatus, services: map<ServiceName, EntityStatus>)

  /** One point-in-time status snapshot: host rows by (site, host) and the operator's
      assumed states by entity. */
  datatype StatusSnapshot = StatusSnapshot(
    states: map<HostSpec, HostStatus>,
    assumedStates: map<RequiredElement, int>)

  datatype NodeComputeResult = NodeComputeResult(
    state: int,
    downtimeState: int,
    acknowledged: bool,
    output: string,
    inServicePeriod: bool,
    stateMessages: map<string, string>)

  datatype NodeResultBundle = NodeResultBundle(
    actual: NodeComputeResult,
    assumed: Option<NodeComputeResult>,
    nested: seq<NodeResultBundle>,
    instance: Node)

  /** Code this model cannot see: the aggregation strategy selected by a spec, and the
      display names of host and service states. */
  datatype Collaborators = Collaborators(
    aggregate: (AggregationSpec, seq<int>) -> int,
    hostStateName: int -> string,
    serviceStateName: int -> string)

  // ---------------------------------------------------------------- sequences

  /** The present values of `xs`, in order. */
  function Somes<T(==)>(xs: seq<Option<T>>): (r: seq<T>)
    ensures |r| <= |xs|
    ensures r == [] <==> forall i | 0 <= i < |xs| :: xs[i].None?
    ensures forall x | x in r :: Some(x) in xs
    ensures forall i | 0 <= i < |xs| && xs[i].Some? :: xs[i].value in r
  {
    if xs == [] then []
    else Somes(xs[..|xs| - 1]) + (if xs[|xs| - 1].Some? then [xs[|xs| - 1].value] else [])
  }

  /** Extending a prefix by one element extends its present values by that element's value. */
  lemma SomesPrefixStep<T>(xs: seq<Option<T>>, i: nat)
    requires i < |xs|
    ensures Somes(xs[..i + 1]) == Somes(xs[..i]) + (if xs[i].Some? then [xs[i].value] else [])
  {
    assert xs[..i + 1][..i] == xs[..i];
  }

  function Flatten<T>(ss: seq<seq<T>>): seq<T>
  {
    if ss == [] then [] else Flatten(ss[..|ss| - 1]) + ss[|ss| - 1]
  }

  lemma {:induction false} FlattenConcat<T>(ss: seq<seq<T>>, tt: seq<seq<T>>)
    ensures Flatten(ss + tt) == Flatten(ss) + Flatten(tt)
  {
    if tt == [] {
      assert ss + tt == ss;
    } else {
      var init, last := tt[..|tt| - 1], tt[|tt| - 1];
      FlattenConcat(ss, init);
      assert (ss + tt)[..|ss + tt| - 1] == ss + init;
      assert Flatten(ss + tt) == Flatten(ss + init) + last;
      assert Flatten(ss) + (Flatten(init) + last) == (Flatten(ss) + Flatten(init)) + last;
    }
  }

  /** An element of the concatenation comes from one of the parts, and every part's elements are in it. */
  lemma {:induction false} FlattenMembers<T>(ss: seq<seq<T>>, y: T)
    ensures y in Flatten(ss) <==> exists i | 0 <= i < |ss| :: y in ss[i]
  {
    if ss != [] {
      var init := ss[..|ss| - 1];
      FlattenMembers(init, y);
      assert forall i | 0 <= i < |init| :: init[i] == ss[i];
      if y in Flatten(init) {
        var i :| 0 <= i < |init| && y in init[i];
        assert y in ss[i];
      }
    }
  }

  /** The union of all sets in `ss`. */
  function UnionAll<T>(ss: seq<set<T>>): (r: set<T>)
    ensures forall x | x in r :: exists i | 0 <= i < |ss| :: x in ss[i]
    ensures forall i, x | 0 <= i < |ss| && x in ss[i] :: x in r
  {
    if ss == [] then {}
    else
      var r := UnionAll(ss[..|ss| - 1]) + ss[|ss| - 1];
      assert forall i | 0 <= i < |ss| - 1 :: ss[..|ss| - 1][i] == ss[i];
      r
  }

  /** Python's `str()` of an integer: decimal digits, with a leading '-' when negative. */
  function IntToString(i: int): (s: string)
    ensures |s| > 0
  {
    if i < 0 then "-" + NatToString(-i) else NatToString(i)
  }

  function NatToString(n: nat): (s: string)
    ensures |s| > 0
    ensures forall k | 0 <= k < |s| :: '0' <= s[k] <= '9'
  {
    var d := ['0' + (n % 10) as char];
    if n < 10 then d else NatToString(n / 10) + d
  }

  // ---------------------------------------------------------------- structure

  /** The entity a leaf references. */
  function ElementOf(leaf: Node): RequiredElement
    requires leaf.Leaf?
  {
    RequiredElement(leaf.site, leaf.host, leaf.service)
  }

  /** `required_elements`: the entities the subtree depends on. */
  function RequiredElements(n: Node): set<RequiredElement>
  {
    match n
    case Leaf(_, _, _) => {ElementOf(n)}
    case Remaining(_) => {}
    case Rule(_, _, _, _, nodes) =>
      UnionAll(seq(|nodes|, i requires 0 <= i < |nodes| => RequiredElements(nodes[i])))
  }

  /** `m` is `n` or a node somewhere below it. */
  ghost predicate Occurs(m: Node, n: Node)
  {
    m == n || (n.Rule? && exists i | 0 <= i < |n.nodes| :: Occurs(m, n.nodes[i]))
  }

  /** The required elements of a subtree are exactly the entities of the leaves in it. */
  lemma {:induction false} RequiredElementsAreLeaves(n: Node, e: RequiredElement)
    ensures e in RequiredElements(n) <==> Occurs(Leaf(e.site, e.host, e.service), n)
  {
    match n
    case Leaf(_, _, _) =>
    case Remaining(_) =>
    case Rule(_, _, _, _, nodes) =>
      forall i | 0 <= i < |nodes|
        ensures e in RequiredElements(nodes[i]) <==> Occurs(Leaf(e.site, e.host, e.service), nodes[i])
      {
        RequiredElementsAreLeaves(nodes[i], e);
      }
      var sets := seq(|nodes|, i requires 0 <= i < |nodes| => RequiredElements(nodes[i]));
      var leaf := Leaf(e.site, e.host, e.service);
      if e in RequiredElements(n) {
        var i :| 0 <= i < |nodes| && e in sets[i];
        assert Occurs(leaf, nodes[i]);
      }
      if Occurs(leaf, n) {
        var i :| 0 <= i < |nodes| && Occurs(leaf, nodes[i]);
        assert e in sets[i];
      }
  }

  /** The leaf and rule nodes of a subtree in pre-order (a wildcard contributes none). */
  function PreOrder(n: Node): seq<Node>
  {
    match n
    case Leaf(_, _, _) => [n]
    case Remaining(_) => []
    case Rule(_, _, _, _, nodes) =>
      [n] + Flatten(seq(|nodes|, i requires 0 <= i < |nodes| => PreOrder(nodes[i])))
  }

  /** No wildcard placeholder is left anywhere in the subtree. */
  predicate NoRemaining(n: Node)
  {
    match n
    case Leaf(_, _, _) => true
    case Remaining(_) => false
    case Rule(_, _, _, _, nodes) => forall i | 0 <= i < |nodes| :: NoRemaining(nodes[i])
  }
}
