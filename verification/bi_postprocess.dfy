/** Post-processing of a compiled branch (`compile_postprocess` in cmk/bi/trees.py): every
    wildcard `Remaining` node is replaced by one leaf per service of its hosts that no
    explicit leaf of the branch already covers, sorted by the leaves' comparable names;
    rules keep their place and take the rewritten children. Also `services_of_host`,
    which the caller uses to compute the covered services. */
module BiPostprocess {
  import opened BiNodes

  /** What the searcher knows about a host: its site and its services. */
  datatype SearchedHost = SearchedHost(site: SiteId, services: set<ServiceName>)

  // ---------------------------------------------------------------- services_of_host

  /** `services_of_host`: the services of host `h` that leaves of the subtree name
      (a leaf with an empty service description names none). */
  function ServicesOfHost(n: Node, h: HostName): set<ServiceName>
  {
    match n
    case Leaf(_, host, service) =>
      if host == h && service.Some? && service.value != "" then {service.value} else {}
    case Remaining(_) => {}
    case Rule(_, _, _, _, nodes) =>
      UnionAll(seq(|nodes|, i requires 0 <= i < |nodes| => ServicesOfHost(nodes[i], h)))
  }

  /** The services of a host named in a subtree are exactly the non-empty services of its
      required elements on that host. */
  lemma {:induction false} ServicesOfHostAreRequiredServices(n: Node, h: HostName, s: ServiceName)
    ensures s in ServicesOfHost(n, h) <==>
      s != "" && exists site :: RequiredElement(site, h, Some(s)) in RequiredElements(n)
  {
    match n
    case Leaf(site, _, _) =>
      if s in ServicesOfHost(n, h) {
        assert RequiredElement(site, h, Some(s)) in RequiredElements(n);
      }
    case Remaining(_) =>
    case Rule(_, _, _, _, nodes) =>
      forall i | 0 <= i < |nodes|
        ensures s in ServicesOfHost(nodes[i], h) <==>
          s != "" && exists site :: RequiredElement(site, h, Some(s)) in RequiredElements(nodes[i])
      {
        ServicesOfHostAreRequiredServices(nodes[i], h, s);
      }
      var services := seq(|nodes|, i requires 0 <= i < |nodes| => ServicesOfHost(nodes[i], h));
      var required := seq(|nodes|, i requires 0 <= i < |nodes| => RequiredElements(nodes[i]));
      if s in ServicesOfHost(n, h) {
        var i :| 0 <= i < |nodes| && s in services[i];
        var site :| RequiredElement(site, h, Some(s)) in RequiredElements(nodes[i]);
        assert RequiredElement(site, h, Some(s)) in required[i];
      }
      if s != "" && exists site :: RequiredElement(site, h, Some(s)) in RequiredElements(n) {
        var site :| RequiredElement(site, h, Some(s)) in RequiredElements(n);
        var i :| 0 <= i < |nodes| && RequiredElement(site, h, Some(s)) in required[i];
        assert s in services[i];
      }
  }

  // ---------------------------------------------------------------- sort order

  /** `_get_comparable_name`, the key the expanded leaves are sorted by. */
  function ComparableName(n: Node): string
  {
    match n
    case Leaf(site, host, service) => site + ":" + host + ":" + (if service.Some? then service.value else "")
    case Rule(_, _, properties, _, _) => properties.title
    case Remaining(_) => ""
  }

  /** Python's string order: lexicographic by code point, a prefix before its extensions. */
  predicate StrLe(a: string, b: string)
  {
    if a == [] then true
    else if b == [] then false
    else if a[0] != b[0] then a[0] < b[0]
    else StrLe(a[1..], b[1..])
  }

  lemma {:induction false} StrLeTotal(a: string, b: string)
    ensures StrLe(a, b) || StrLe(b, a)
  {
    if a != [] && b != [] && a[0] == b[0] {
      StrLeTotal(a[1..], b[1..]);
    }
  }

  lemma {:induction false} StrLeTransitive(a: string, b: string, c: string)
    requires StrLe(a, b) && StrLe(b, c)
    ensures StrLe(a, c)
  {
    if a != [] && b != [] && c != [] && a[0] == b[0] && b[0] == c[0] {
      StrLeTransitive(a[1..], b[1..], c[1..]);
    }
  }

  predicate NameLe(x: Node, y: Node)
  {
    StrLe(ComparableName(x), ComparableName(y))
  }

  predicate SortedByName(s: seq<Node>)
  {
    forall i, j | 0 <= i < j < |s| :: NameLe(s[i], s[j])
  }

  /** A node no later than any element of a sorted sequence may go in front of it. */
  lemma SortedCons(a: Node, t: seq<Node>)
    requires SortedByName(t)
    requires forall j | 0 <= j < |t| :: NameLe(a, t[j])
    ensures SortedByName([a] + t)
  {
    var r := [a] + t;
    forall i, j | 0 <= i < j < |r| ensures NameLe(r[i], r[j]) {
      if i > 0 {
        assert r[i] == t[i - 1] && r[j] == t[j - 1];
      }
    }
  }

  /** One step of the list sort: `x` placed before the first element it does not follow. */
  function InsertByName(x: Node, s: seq<Node>): (r: seq<Node>)
    requires SortedByName(s)
    ensures SortedByName(r)
    ensures multiset(r) == multiset(s) + multiset{x}
  {
    if s == [] || NameLe(x, s[0]) then
      BelowSortedHead(x, s);
      SortedCons(x, s);
      [x] + s
    else
      var rest := s[1..];
      SortedTail(s);
      var tail := InsertByName(x, rest);
      HeadBelowInserted(s, x, tail);
      SortedCons(s[0], tail);
      assert s == [s[0]] + rest;
      [s[0]] + tail
  }

  lemma SortedTail(s: seq<Node>)
    requires SortedByName(s) && s != []
    ensures SortedByName(s[1..])
  {
    forall i, j | 0 <= i < j < |s| - 1 ensures NameLe(s[1..][i], s[1..][j]) {
      assert s[1..][i] == s[i + 1] && s[1..][j] == s[j + 1];
    }
  }

  /** A node no later than the head of a sorted sequence is no later than any element. */
  lemma BelowSortedHead(x: Node, s: seq<Node>)
    requires SortedByName(s) && (s == [] || NameLe(x, s[0]))
    ensures forall j | 0 <= j < |s| :: NameLe(x, s[j])
  {
    forall j | 0 < j < |s| ensures NameLe(x, s[j]) {
      StrLeTransitive(ComparableName(x), ComparableName(s[0]), ComparableName(s[j]));
    }
  }

  /** The head of a sorted sequence precedes the rest with a later node inserted. */
  lemma HeadBelowInserted(s: seq<Node>, x: Node, tail: seq<Node>)
    requires SortedByName(s) && s != [] && !NameLe(x, s[0])
    requires multiset(tail) == multiset(s[1..]) + multiset{x}
    ensures forall j | 0 <= j < |tail| :: NameLe(s[0], tail[j])
  {
    var rest := s[1..];
    StrLeTotal(ComparableName(x), ComparableName(s[0]));
    forall j | 0 <= j < |tail| ensures NameLe(s[0], tail[j]) {
      assert tail[j] in multiset(tail);
      if tail[j] != x {
        assert tail[j] in multiset(rest);
        var k :| 0 <= k < |rest| && rest[k] == tail[j];
        assert s[k + 1] == tail[j];
      }
    }
  }

  /** `list.sort()` on the expanded leaves: a permutation ordered by comparable name. */
  function SortByName(s: seq<Node>): (r: seq<Node>)
    ensures SortedByName(r)
    ensures multiset(r) == multiset(s)
  {
    if s == [] then []
    else
      assert s == s[..|s| - 1] + [s[|s| - 1]];
      InsertByName(s[|s| - 1], SortByName(s[..|s| - 1]))
  }

  // ---------------------------------------------------------------- wildcard expansion

  /** The services of `h` already covered by explicit leaves (none when `h` is not listed). */
  function UsedServices(used: map<HostName, set<ServiceName>>, h: HostName): set<ServiceName>
  {
    if h in used then used[h] else {}
  }

  /** The leaves a wildcard produces for one host: one per service not already used. */
  function HostLeaves(h: HostName, used: map<HostName, set<ServiceName>>, hosts: map<HostName, SearchedHost>): set<Node>
    requires h in hosts
  {
    ServiceLeaves(hosts[h].site, h, hosts[h].services - UsedServices(used, h))
  }

  function ServiceLeaves(site: SiteId, h: HostName, services: set<ServiceName>): set<Node>
  {
    set s | s in services :: Leaf(site, h, Some(s))
  }

  predicate AllKnown(hostNames: seq<HostName>, hosts: map<HostName, SearchedHost>)
  {
    forall i | 0 <= i < |hostNames| :: hostNames[i] in hosts
  }

  /** The leaves of a wildcard over `hostNames`, counted once per listing of a host. */
  ghost function ExpansionOf(hostNames: seq<HostName>, used: map<HostName, set<ServiceName>>,
                             hosts: map<HostName, SearchedHost>): multiset<Node>
    requires AllKnown(hostNames, hosts)
  {
    if hostNames == [] then multiset{}
    else
      ExpansionOf(hostNames[..|hostNames| - 1], used, hosts) +
      multiset(HostLeaves(hostNames[|hostNames| - 1], used, hosts))
  }

  /** A node comes out of the expansion exactly when it is a leaf of one of the hosts for an
      unused service of that host. */
  lemma {:induction false} ExpansionMembers(hostNames: seq<HostName>, used: map<HostName, set<ServiceName>>,
                                          hosts: map<HostName, SearchedHost>, x: Node)
    requires AllKnown(hostNames, hosts)
    ensures x in ExpansionOf(hostNames, used, hosts) <==>
      exists i | 0 <= i < |hostNames| :: x in HostLeaves(hostNames[i], used, hosts)
  {
    if hostNames != [] {
      var init := hostNames[..|hostNames| - 1];
      ExpansionMembers(init, used, hosts, x);
      assert forall i | 0 <= i < |init| :: init[i] == hostNames[i];
      if x in ExpansionOf(init, used, hosts) {
        var i :| 0 <= i < |init| && x in HostLeaves(init[i], used, hosts);
        assert x in HostLeaves(hostNames[i], used, hosts);
      }
    }
  }

  /** Adding one service to those already expanded for a host adds exactly its leaf. */
  lemma AddServiceLeaf(site: SiteId, h: HostName, done: set<ServiceName>, s: ServiceName)
    requires s !in done
    ensures multiset(ServiceLeaves(site, h, done + {s})) ==
            multiset(ServiceLeaves(site, h, done)) + multiset{Leaf(site, h, Some(s))}
  {
    var before := ServiceLeaves(site, h, done);
    var after := ServiceLeaves(site, h, done + {s});
    assert after == before + {Leaf(site, h, Some(s))};
    assert Leaf(site, h, Some(s)) !in before;
  }

  /** Appending the leaf of a new service to the leaves of the services already expanded. */
  lemma AppendServiceLeaf(site: SiteId, h: HostName, done: set<ServiceName>, s: ServiceName, leaves: seq<Node>)
    requires s !in done
    requires multiset(leaves) == multiset(ServiceLeaves(site, h, done))
    ensures multiset(leaves + [Leaf(site, h, Some(s))]) == multiset(ServiceLeaves(site, h, done + {s}))
  {
    AddServiceLeaf(site, h, done, s);
  }

  /** The inner loop of the expansion: one leaf per service of `h` that is not used, in the
      set's iteration order. */
  method UnusedServiceLeaves(h: HostName, used: map<HostName, set<ServiceName>>, hosts: map<HostName, SearchedHost>)
    returns (leaves: seq<Node>)
    requires h in hosts
    ensures multiset(leaves) == multiset(HostLeaves(h, used, hosts))
  {
    var site := hosts[h].site;
    var unused := hosts[h].services - UsedServices(used, h);
    var pending := unused;
    ghost var done: set<ServiceName> := {};
    leaves := [];
    while pending != {}
      invariant done <= unused && pending == unused - done
      invariant multiset(leaves) == multiset(ServiceLeaves(site, h, done))
      decreases |pending|
    {
      var s :| s in pending;
      MoveToDone(unused, done, pending, s);
      AppendServiceLeaf(site, h, done, s, leaves);
      leaves := leaves + [Leaf(site, h, Some(s))];
      pending := pending - {s};
      done := done + {s};
    }
    assert done == unused;
  }

  lemma MoveToDone<T>(all: set<T>, done: set<T>, pending: set<T>, x: T)
    requires done <= all && pending == all - done && x in pending
    ensures x !in done && done + {x} <= all && pending - {x} == all - (done + {x})
    ensures |pending - {x}| < |pending|
  {
  }

  /** `BIRemainingResult.compile_postprocess`: for each host, a leaf per service the host has
      and no explicit leaf covers; the collected leaves are then sorted. A host the searcher
      does not know raises `KeyError` in the source, so every host must be known. */
  method ExpandRemaining(hostNames: seq<HostName>, used: map<HostName, set<ServiceName>>,
                         hosts: map<HostName, SearchedHost>) returns (leaves: seq<Node>)
    requires AllKnown(hostNames, hosts)
    ensures SortedByName(leaves)
    ensures multiset(leaves) == ExpansionOf(hostNames, used, hosts)
  {
    var collected: seq<Node> := [];
    for i := 0 to |hostNames|
      invariant multiset(collected) == ExpansionOf(hostNames[..i], used, hosts)
    {
      var hostLeaves := UnusedServiceLeaves(hostNames[i], used, hosts);
      collected := collected + hostLeaves;
      assert hostNames[..i + 1][..i] == hostNames[..i];
    }
    assert hostNames[..|hostNames|] == hostNames;
    leaves := SortByName(collected);
  }

  // ---------------------------------------------------------------- whole subtrees

  /** Every wildcard in the subtree lists only hosts the searcher knows. */
  predicate HostsKnown(n: Node, hosts: map<HostName, SearchedHost>)
  {
    match n
    case Leaf(_, _, _) => true
    case Remaining(hostNames) => AllKnown(hostNames, hosts)
    case Rule(_, _, _, _, nodes) => forall i | 0 <= i < |nodes| :: HostsKnown(nodes[i], hosts)
  }

  /** `r` is what post-processing `n` yields: a leaf stays itself, a wildcard becomes its
      sorted expansion, a rule stays one rule, unchanged but for its children, which are the
      concatenated post-processed children. */
  ghost predicate PostprocessedAs(n: Node, r: seq<Node>, used: map<HostName, set<ServiceName>>,
                                  hosts: map<HostName, SearchedHost>)
  {
    match n
    case Leaf(_, _, _) => r == [n]
    case Remaining(hostNames) =>
      AllKnown(hostNames, hosts) && SortedByName(r) && multiset(r) == ExpansionOf(hostNames, used, hosts)
    case Rule(_, _, _, _, nodes) =>
      |r| == 1 && r[0].Rule? && r[0] == n.(nodes := r[0].nodes) &&
      exists parts: seq<seq<Node>> | |parts| == |nodes| && r[0].nodes == Flatten(parts) ::
        forall i | 0 <= i < |nodes| :: PostprocessedAs(nodes[i], parts[i], used, hosts)
  }

  /** `compile_postprocess` of a leaf, a wildcard or a rule. */
  method CompilePostprocess(n: Node, used: map<HostName, set<ServiceName>>, hosts: map<HostName, SearchedHost>)
    returns (r: seq<Node>)
    requires HostsKnown(n, hosts)
    ensures PostprocessedAs(n, r, used, hosts)
  {
    match n
    case Leaf(_, _, _) =>
      r := [n];
    case Remaining(hostNames) =>
      r := ExpandRemaining(hostNames, used, hosts);
    case Rule(_, _, _, _, nodes) =>
      var newNodes: seq<Node> := [];
      ghost var parts: seq<seq<Node>> := [];
      for i := 0 to |nodes|
        invariant |parts| == i && newNodes == Flatten(parts)
        invariant forall j | 0 <= j < i :: PostprocessedAs(nodes[j], parts[j], used, hosts)
      {
        var part := CompilePostprocess(nodes[i], used, hosts);
        assert (parts + [part])[..i] == parts;
        parts := parts + [part];
        newNodes := newNodes + part;
      }
      r := [n.(nodes := newNodes)];
  }

  // ---------------------------------------------------------------- properties

  /** The post-processed children of a post-processed rule, one part per original child. */
  lemma RuleParts(n: Node, r: seq<Node>, used: map<HostName, set<ServiceName>>, hosts: map<HostName, SearchedHost>)
    returns (parts: seq<seq<Node>>)
    requires n.Rule? && PostprocessedAs(n, r, used, hosts)
    ensures |r| == 1 && r[0].Rule?
    ensures |parts| == |n.nodes| && r[0].nodes == Flatten(parts)
    ensures forall i | 0 <= i < |n.nodes| :: PostprocessedAs(n.nodes[i], parts[i], used, hosts)
  {
    parts :| |parts| == |n.nodes| && r[0].nodes == Flatten(parts) &&
      forall i | 0 <= i < |n.nodes| :: PostprocessedAs(n.nodes[i], parts[i], used, hosts);
  }

  /** Post-processing leaves no wildcard anywhere. */
  lemma {:induction false} PostprocessRemovesWildcards(n: Node, r: seq<Node>, used: map<HostName, set<ServiceName>>,
                                                      hosts: map<HostName, SearchedHost>)
    requires PostprocessedAs(n, r, used, hosts)
    ensures forall k | 0 <= k < |r| :: NoRemaining(r[k])
  {
    match n
    case Leaf(_, _, _) =>
    case Remaining(hostNames) =>
      forall k | 0 <= k < |r| ensures r[k].Leaf? {
        assert r[k] in multiset(r);
        ExpansionMembers(hostNames, used, hosts, r[k]);
      }
    case Rule(_, _, _, _, nodes) =>
      var parts := RuleParts(n, r, used, hosts);
      forall k | 0 <= k < |r[0].nodes| ensures NoRemaining(r[0].nodes[k]) {
        FlattenMembers(parts, r[0].nodes[k]);
        var i :| 0 <= i < |parts| && r[0].nodes[k] in parts[i];
        PostprocessRemovesWildcards(nodes[i], parts[i], used, hosts);
      }
  }

  /** The entities the wildcards of a subtree expand to. */
  function ExpandedElements(n: Node, used: map<HostName, set<ServiceName>>, hosts: map<HostName, SearchedHost>)
    : set<RequiredElement>
  {
    match n
    case Leaf(_, _, _) => {}
    case Remaining(hostNames) =>
      set i, s | 0 <= i < |hostNames| && hostNames[i] in hosts &&
                 s in hosts[hostNames[i]].services - UsedServices(used, hostNames[i]) ::
        RequiredElement(hosts[hostNames[i]].site, hostNames[i], Some(s))
    case Rule(_, _, _, _, nodes) =>
      UnionAll(seq(|nodes|, i requires 0 <= i < |nodes| => ExpandedElements(nodes[i], used, hosts)))
  }

  /** The required elements after post-processing are those before it plus exactly the
      entities the wildcards expanded to (why the source clears its cache). */
  lemma {:induction false} PostprocessRequiredElements(n: Node, r: seq<Node>, used: map<HostName, set<ServiceName>>,
                                                      hosts: map<HostName, SearchedHost>, e: RequiredElement)
    requires PostprocessedAs(n, r, used, hosts)
    ensures (exists k | 0 <= k < |r| :: e in RequiredElements(r[k])) <==>
            e in RequiredElements(n) + ExpandedElements(n, used, hosts)
    decreases n, 1
  {
    if n.Leaf? {
      assert (exists k | 0 <= k < |r| :: e in RequiredElements(r[k])) <==> e in RequiredElements(r[0]);
    } else if n.Remaining? {
      RemainingRequiredElements(n.hostNames, r, used, hosts, e);
    } else {
      RuleRequiredElements(n, r, used, hosts, e);
    }
  }

  lemma {:induction false} RuleRequiredElements(n: Node, r: seq<Node>, used: map<HostName, set<ServiceName>>,
                                               hosts: map<HostName, SearchedHost>, e: RequiredElement)
    requires n.Rule? && PostprocessedAs(n, r, used, hosts)
    ensures (exists k | 0 <= k < |r| :: e in RequiredElements(r[k])) <==>
            e in RequiredElements(n) + ExpandedElements(n, used, hosts)
    decreases n, 0
  {
    var parts := RuleParts(n, r, used, hosts);
    assert (exists k | 0 <= k < |r| :: e in RequiredElements(r[k])) <==> e in RequiredElements(r[0]);
    forall i | 0 <= i < |n.nodes|
      ensures (exists k | 0 <= k < |parts[i]| :: e in RequiredElements(parts[i][k])) <==>
              e in RequiredElements(n.nodes[i]) + ExpandedElements(n.nodes[i], used, hosts)
    {
      PostprocessRequiredElements(n.nodes[i], parts[i], used, hosts, e);
    }
    RuleChildrenRequiredElements(n, r[0], parts, used, hosts, e);
  }

  lemma RemainingRequiredElements(hostNames: seq<HostName>, r: seq<Node>, used: map<HostName, set<ServiceName>>,
                                  hosts: map<HostName, SearchedHost>, e: RequiredElement)
    requires AllKnown(hostNames, hosts) && multiset(r) == ExpansionOf(hostNames, used, hosts)
    ensures (exists k | 0 <= k < |r| :: e in RequiredElements(r[k])) <==>
            e in ExpandedElements(Remaining(hostNames), used, hosts)
  {
    var x := Leaf(e.site, e.host, e.service);
    ExpansionMembers(hostNames, used, hosts, x);
    if exists k | 0 <= k < |r| :: e in RequiredElements(r[k]) {
      var k :| 0 <= k < |r| && e in RequiredElements(r[k]);
      assert r[k] in multiset(r);
      ExpansionMembers(hostNames, used, hosts, r[k]);
      var i :| 0 <= i < |hostNames| && r[k] in HostLeaves(hostNames[i], used, hosts);
      assert r[k] == x;
    }
    if e in ExpandedElements(Remaining(hostNames), used, hosts) {
      var i, s :| 0 <= i < |hostNames| && hostNames[i] in hosts &&
                  s in hosts[hostNames[i]].services - UsedServices(used, hostNames[i]) &&
                  e == RequiredElement(hosts[hostNames[i]].site, hostNames[i], Some(s));
      assert x in HostLeaves(hostNames[i], used, hosts);
      assert x in multiset(r);
      var k :| 0 <= k < |r| && r[k] == x;
      assert e in RequiredElements(r[k]);
    }
  }

  lemma RuleChildrenRequiredElements(n: Node, rule: Node, parts: seq<seq<Node>>, used: map<HostName, set<ServiceName>>,
                             hosts: map<HostName, SearchedHost>, e: RequiredElement)
    requires n.Rule? && rule.Rule? && |parts| == |n.nodes| && rule.nodes == Flatten(parts)
    requires forall i | 0 <= i < |n.nodes| ::
      (exists k | 0 <= k < |parts[i]| :: e in RequiredElements(parts[i][k])) <==>
      e in RequiredElements(n.nodes[i]) + ExpandedElements(n.nodes[i], used, hosts)
    ensures e in RequiredElements(rule) <==> e in RequiredElements(n) + ExpandedElements(n, used, hosts)
  {
    if e in RequiredElements(rule) {
      RuleChildrenRequiredFrom(n, rule, parts, used, hosts, e);
    }
    if e in RequiredElements(n) + ExpandedElements(n, used, hosts) {
      RuleChildrenRequiredTo(n, rule, parts, used, hosts, e);
    }
  }

  lemma RuleChildrenRequiredFrom(n: Node, rule: Node, parts: seq<seq<Node>>, used: map<HostName, set<ServiceName>>,
                                 hosts: map<HostName, SearchedHost>, e: RequiredElement)
    requires n.Rule? && rule.Rule? && |parts| == |n.nodes| && rule.nodes == Flatten(parts)
    requires forall i | 0 <= i < |n.nodes| ::
      (exists k | 0 <= k < |parts[i]| :: e in RequiredElements(parts[i][k])) ==>
      e in RequiredElements(n.nodes[i]) + ExpandedElements(n.nodes[i], used, hosts)
    requires e in RequiredElements(rule)
    ensures e in RequiredElements(n) + ExpandedElements(n, used, hosts)
  {
    var nodes := n.nodes;
    var before := seq(|nodes|, i requires 0 <= i < |nodes| => RequiredElements(nodes[i]));
    var expanded := seq(|nodes|, i requires 0 <= i < |nodes| => ExpandedElements(nodes[i], used, hosts));
    var after := seq(|rule.nodes|, k requires 0 <= k < |rule.nodes| => RequiredElements(rule.nodes[k]));
    var k :| 0 <= k < |rule.nodes| && e in after[k];
    FlattenMembers(parts, rule.nodes[k]);
    var i :| 0 <= i < |parts| && rule.nodes[k] in parts[i];
    var m :| 0 <= m < |parts[i]| && parts[i][m] == rule.nodes[k];
    assert e in before[i] || e in expanded[i];
  }

  lemma RuleChildrenRequiredTo(n: Node, rule: Node, parts: seq<seq<Node>>, used: map<HostName, set<ServiceName>>,
                               hosts: map<HostName, SearchedHost>, e: RequiredElement)
    requires n.Rule? && rule.Rule? && |parts| == |n.nodes| && rule.nodes == Flatten(parts)
    requires forall i | 0 <= i < |n.nodes| ::
      e in RequiredElements(n.nodes[i]) + ExpandedElements(n.nodes[i], used, hosts) ==>
      exists k | 0 <= k < |parts[i]| :: e in RequiredElements(parts[i][k])
    requires e in RequiredElements(n) + ExpandedElements(n, used, hosts)
    ensures e in RequiredElements(rule)
  {
    var nodes := n.nodes;
    var before := seq(|nodes|, i requires 0 <= i < |nodes| => RequiredElements(nodes[i]));
    var expanded := seq(|nodes|, i requires 0 <= i < |nodes| => ExpandedElements(nodes[i], used, hosts));
    var after := seq(|rule.nodes|, k requires 0 <= k < |rule.nodes| => RequiredElements(rule.nodes[k]));
    var i :| 0 <= i < |nodes| && (e in before[i] || e in expanded[i]);
    var m :| 0 <= m < |parts[i]| && e in RequiredElements(parts[i][m]);
    FlattenMembers(parts, parts[i][m]);
    var k :| 0 <= k < |rule.nodes| && rule.nodes[k] == parts[i][m];
    assert e in after[k];
  }

  /** When the used services cover every service the branch's explicit leaves name for a host,
      no wildcard leaf repeats an explicit leaf with a non-empty service. */
  lemma ExpansionAvoidsExplicitLeaves(root: Node, n: Node, used: map<HostName, set<ServiceName>>,
                                      hosts: map<HostName, SearchedHost>, e: RequiredElement)
    requires forall h | h in hosts :: ServicesOfHost(root, h) <= UsedServices(used, h)
    requires e in ExpandedElements(n, used, hosts)
    ensures e.service.Some?
    ensures e.service.value != "" ==> e !in RequiredElements(root)
  {
    ExpandedElementsUnused(n, used, hosts, e);
    if e.service.value != "" && e in RequiredElements(root) {
      ServicesOfHostAreRequiredServices(root, e.host, e.service.value);
      assert false;
    }
  }

  /** Every expanded entity is a service of a known host, on that host's site, and unused. */
  lemma {:induction false} ExpandedElementsUnused(n: Node, used: map<HostName, set<ServiceName>>,
                                                 hosts: map<HostName, SearchedHost>, e: RequiredElement)
    requires e in ExpandedElements(n, used, hosts)
    ensures e.host in hosts && e.site == hosts[e.host].site
    ensures e.service.Some? && e.service.value in hosts[e.host].services
    ensures e.service.value !in UsedServices(used, e.host)
  {
    match n
    case Leaf(_, _, _) =>
    case Remaining(_) =>
    case Rule(_, _, _, _, nodes) =>
      var sets := seq(|nodes|, i requires 0 <= i < |nodes| => ExpandedElements(nodes[i], used, hosts));
      var i :| 0 <= i < |nodes| && e in sets[i];
      ExpandedElementsUnused(nodes[i], used, hosts, e);
  }
}
