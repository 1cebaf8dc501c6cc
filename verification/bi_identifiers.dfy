/** Stable node identifiers (`get_identifiers` in cmk/bi/trees.py): every leaf and rule
    gets a path from the branch root, one segment per level, where a segment's counter
    is bumped until the path is not yet in the shared set of used identifiers. */
module BiIdentifiers {
  import opened BiNodes

  /** One path segment: a counter and the node's name (host and service, or rule title). */
  datatype Segment =
    | LeafSegment(counter: int, host: HostName, service: Option<ServiceName>)
    | RuleSegment(counter: int, title: string)

  type NodeId = seq<Segment>

  /** `NodeIdentifierInfo`: an identifier and the node it names. */
  datatype IdentifierInfo = IdentifierInfo(id: NodeId, node: Node)

  function OwnSegment(n: Node, counter: int): Segment
    requires !n.Remaining?
  {
    if n.Leaf? then LeafSegment(counter, n.host, n.service) else RuleSegment(counter, n.properties.title)
  }

  /** The segment carries the node's own name. */
  predicate Names(segment: Segment, n: Node)
  {
    (n.Leaf? && segment.LeafSegment? && segment.host == n.host && segment.service == n.service) ||
    (n.Rule? && segment.RuleSegment? && segment.title == n.properties.title)
  }

  /** `id` is `prefix` followed by at least one more segment. */
  predicate Extends(id: NodeId, prefix: NodeId)
  {
    |id| > |prefix| && id[..|prefix|] == prefix
  }

  predicate Distinct<T(==)>(s: seq<T>)
  {
    forall i, j | 0 <= i < j < |s| :: s[i] != s[j]
  }

  function IdsOf(idents: seq<IdentifierInfo>): (ids: seq<NodeId>)
    ensures |ids| == |idents|
  {
    seq(|idents|, i requires 0 <= i < |idents| => idents[i].id)
  }

  function NodesOf(idents: seq<IdentifierInfo>): (nodes: seq<Node>)
    ensures |nodes| == |idents|
  {
    seq(|idents|, i requires 0 <= i < |idents| => idents[i].node)
  }

  function IdSet(idents: seq<IdentifierInfo>): set<NodeId>
  {
    set i | 0 <= i < |idents| :: idents[i].id
  }

  lemma ExtendsTransitive(a: NodeId, b: NodeId, c: NodeId)
    requires Extends(a, b) && Extends(b, c)
    ensures Extends(a, c)
  {
    assert a[..|c|] == a[..|b|][..|c|];
  }

  /** `idents` are new identifiers below `parentId`: pairwise distinct, none of them in `used`,
      recorded together with `used` in `usedAfter`, each extending `parentId` and ending in a
      segment named after its node. */
  predicate FreshBelow(idents: seq<IdentifierInfo>, parentId: NodeId, used: set<NodeId>, usedAfter: set<NodeId>)
  {
    Distinct(IdsOf(idents)) &&
    (forall i | 0 <= i < |idents| :: idents[i].id !in used) &&
    usedAfter == used + IdSet(idents) &&
    forall i | 0 <= i < |idents| ::
      Extends(idents[i].id, parentId) && Names(idents[i].id[|idents[i].id| - 1], idents[i].node)
  }

  /** Identifiers below a node are below its ancestors too. */
  lemma FreshBelowAncestor(idents: seq<IdentifierInfo>, myId: NodeId, parentId: NodeId,
                           used: set<NodeId>, usedAfter: set<NodeId>)
    requires FreshBelow(idents, myId, used, usedAfter) && Extends(myId, parentId)
    ensures FreshBelow(idents, parentId, used, usedAfter)
  {
    forall j | 0 <= j < |idents| ensures Extends(idents[j].id, parentId) {
      ExtendsTransitive(idents[j].id, myId, parentId);
    }
  }

  /** Appending identifiers fresh with respect to the used set left by the earlier ones. */
  lemma AppendIdentifiers(idents: seq<IdentifierInfo>, more: seq<IdentifierInfo>, parentId: NodeId,
                          used: set<NodeId>, middle: set<NodeId>, usedAfter: set<NodeId>)
    requires FreshBelow(idents, parentId, used, middle) && FreshBelow(more, parentId, middle, usedAfter)
    ensures NodesOf(idents + more) == NodesOf(idents) + NodesOf(more)
    ensures FreshBelow(idents + more, parentId, used, usedAfter)
  {
    assert NodesOf(idents + more) == NodesOf(idents) + NodesOf(more);
    IdSetAppend(idents, more);
    AppendDistinct(idents, more, middle);
    AppendBelow(idents, more, parentId, used, middle);
  }

  lemma AppendDistinct(idents: seq<IdentifierInfo>, more: seq<IdentifierInfo>, middle: set<NodeId>)
    requires Distinct(IdsOf(idents)) && Distinct(IdsOf(more)) && IdSet(idents) <= middle
    requires forall j | 0 <= j < |more| :: more[j].id !in middle
    ensures Distinct(IdsOf(idents + more))
  {
    var all := idents + more;
    forall a, b | 0 <= a < b < |all| ensures IdsOf(all)[a] != IdsOf(all)[b] {
      if b < |idents| {
        assert all[a] == idents[a] && all[b] == idents[b];
        assert IdsOf(idents)[a] != IdsOf(idents)[b];
      } else if a >= |idents| {
        assert all[a] == more[a - |idents|] && all[b] == more[b - |idents|];
        assert IdsOf(more)[a - |idents|] != IdsOf(more)[b - |idents|];
      } else {
        assert all[a].id in IdSet(idents) by { assert idents[a] == all[a]; }
        assert more[b - |idents|].id !in middle;
      }
    }
  }

  lemma AppendBelow(idents: seq<IdentifierInfo>, more: seq<IdentifierInfo>, parentId: NodeId,
                    used: set<NodeId>, middle: set<NodeId>)
    requires used <= middle
    requires forall i | 0 <= i < |idents| ::
      idents[i].id !in used && Extends(idents[i].id, parentId) && Names(idents[i].id[|idents[i].id| - 1], idents[i].node)
    requires forall i | 0 <= i < |more| ::
      more[i].id !in middle && Extends(more[i].id, parentId) && Names(more[i].id[|more[i].id| - 1], more[i].node)
    ensures forall i | 0 <= i < |idents + more| ::
      (idents + more)[i].id !in used && Extends((idents + more)[i].id, parentId) &&
      Names((idents + more)[i].id[|(idents + more)[i].id| - 1], (idents + more)[i].node)
  {
    var all := idents + more;
    forall j | 0 <= j < |all| ensures all[j].id !in used && Extends(all[j].id, parentId) &&
      Names(all[j].id[|all[j].id| - 1], all[j].node)
    {
      if j >= |idents| {
        assert all[j] == more[j - |idents|];
      }
    }
  }

  lemma IdSetAppend(idents: seq<IdentifierInfo>, more: seq<IdentifierInfo>)
    ensures IdSet(idents + more) == IdSet(idents) + IdSet(more)
  {
    forall x | x in IdSet(idents + more) ensures x in IdSet(idents) + IdSet(more) {
      var j :| 0 <= j < |idents + more| && (idents + more)[j].id == x;
      if j >= |idents| {
        assert more[j - |idents|].id == x;
      }
    }
    forall x | x in IdSet(idents) ensures x in IdSet(idents + more) {
      var j :| 0 <= j < |idents| && idents[j].id == x;
      assert (idents + more)[j].id == x;
    }
    forall x | x in IdSet(more) ensures x in IdSet(idents + more) {
      var j :| 0 <= j < |more| && more[j].id == x;
      assert (idents + more)[|idents| + j].id == x;
    }
  }

  /** The first counter from `k` on whose path below `parentId` is not in `used`. Each used
      path that is passed over is dropped from the set, which bounds the search. */
  function FirstFree(n: Node, parentId: NodeId, used: set<NodeId>, k: int): int
    requires !n.Remaining?
    decreases |used|
  {
    var id := parentId + [OwnSegment(n, k)];
    if id in used then FirstFree(n, parentId, used - {id}, k + 1) else k
  }

  /** `FirstFree` finds the smallest free counter: its path is unused and every path with a
      counter between `k` and it is used. */
  lemma {:induction false} FirstFreeSmallest(n: Node, parentId: NodeId, used: set<NodeId>, k: int)
    requires !n.Remaining?
    ensures var r := FirstFree(n, parentId, used, k);
      r >= k && parentId + [OwnSegment(n, r)] !in used &&
      forall j | k <= j < r :: parentId + [OwnSegment(n, j)] in used
    decreases |used|
  {
    var id := parentId + [OwnSegment(n, k)];
    if id in used {
      FirstFreeSmallest(n, parentId, used - {id}, k + 1);
      var r := FirstFree(n, parentId, used, k);
      assert (parentId + [OwnSegment(n, r)])[|parentId|] == OwnSegment(n, r);
    }
  }

  /** The `while` loop of `get_identifiers`: the smallest counter k >= 1 whose path is unused.
      It terminates because only finitely many paths are used. */
  method FreeCounter(n: Node, parentId: NodeId, used: set<NodeId>) returns (k: int)
    requires !n.Remaining?
    ensures k >= 1
    ensures parentId + [OwnSegment(n, k)] !in used
    ensures forall j | 1 <= j < k :: parentId + [OwnSegment(n, j)] in used
    ensures k == FirstFree(n, parentId, used, 1)
  {
    k := 1;
    ghost var unseen := used;
    while parentId + [OwnSegment(n, k)] in used
      invariant k >= 1 && unseen <= used
      invariant forall j | 1 <= j < k :: parentId + [OwnSegment(n, j)] in used
      invariant forall j | j >= k :: parentId + [OwnSegment(n, j)] in used ==> parentId + [OwnSegment(n, j)] in unseen
      invariant FirstFree(n, parentId, unseen, k) == FirstFree(n, parentId, used, 1)
      decreases |unseen|
    {
      ghost var taken := parentId + [OwnSegment(n, k)];
      forall j | j > k
        ensures parentId + [OwnSegment(n, j)] != taken
      {
        assert (parentId + [OwnSegment(n, j)])[|parentId|] == OwnSegment(n, j);
      }
      unseen := unseen - {taken};
      k := k + 1;
    }
  }

  /** The identifiers `get_identifiers` hands out, and the used set it leaves: a leaf or rule
      takes its parent's identifier plus its own segment with the smallest free counter, and a
      rule's children follow, each below the rule, in order. */
  function Identifiers(n: Node, parentId: NodeId, used: set<NodeId>): (seq<IdentifierInfo>, set<NodeId>)
    decreases n, 1
  {
    if n.Remaining? then ([], used)
    else
      var myId := parentId + [OwnSegment(n, FirstFree(n, parentId, used, 1))];
      if n.Leaf? then ([IdentifierInfo(myId, n)], used + {myId})
      else
        var (childIdents, childUsed) := ChildrenIdentifiers(n, |n.nodes|, myId, used + {myId});
        ([IdentifierInfo(myId, n)] + childIdents, childUsed)
  }

  /** The identifiers of the first `i` children of a rule below `myId`, the used set threaded
      from one child to the next. */
  function ChildrenIdentifiers(n: Node, i: nat, myId: NodeId, used: set<NodeId>): (seq<IdentifierInfo>, set<NodeId>)
    requires n.Rule? && i <= |n.nodes|
    decreases n, 0, i
  {
    if i == 0 then ([], used)
    else
      var (idents, middle) := ChildrenIdentifiers(n, i - 1, myId, used);
      var (more, usedAfter) := Identifiers(n.nodes[i - 1], myId, middle);
      (idents + more, usedAfter)
  }

  /** `get_identifiers`: one identifier per leaf and rule of the subtree, in pre-order,
      each unused before the call, pairwise distinct, recorded in the returned used set,
      each extending `parentId` and ending in a segment named after its node; exactly the
      identifiers and used set of `Identifiers`. */
  method GetIdentifiers(n: Node, parentId: NodeId, used: set<NodeId>)
    returns (idents: seq<IdentifierInfo>, usedAfter: set<NodeId>)
    ensures (idents, usedAfter) == Identifiers(n, parentId, used)
    ensures NodesOf(idents) == PreOrder(n)
    ensures FreshBelow(idents, parentId, used, usedAfter)
    // the node's own identifier: one segment below the parent, with the smallest free counter
    ensures !n.Remaining? ==>
      |idents| > 0 && |idents[0].id| == |parentId| + 1 &&
      idents[0].id[|parentId|].counter >= 1 &&
      forall j | 1 <= j < idents[0].id[|parentId|].counter :: parentId + [OwnSegment(n, j)] in used
    // the identifiers of its descendants lie below it
    ensures n.Rule? ==> forall i | 1 <= i < |idents| :: Extends(idents[i].id, idents[0].id)
    decreases n, 1
  {
    if n.Remaining? {
      return [], used;
    }
    var k := FreeCounter(n, parentId, used);
    var myId := parentId + [OwnSegment(n, k)];
    var own := [IdentifierInfo(myId, n)];
    OwnIdentifier(n, parentId, used, k);
    if n.Leaf? {
      return own, used + {myId};
    }
    var childIdents, childUsed := ChildIdentifiers(n, myId, used + {myId});
    FreshBelowAncestor(childIdents, myId, parentId, used + {myId}, childUsed);
    AppendIdentifiers(own, childIdents, parentId, used, used + {myId}, childUsed);
    DescendantsBelow(own, childIdents);
    idents, usedAfter := own + childIdents, childUsed;
  }

  /** A node's own identifier, one segment below its parent and not used yet, is fresh. */
  lemma OwnIdentifier(n: Node, parentId: NodeId, used: set<NodeId>, k: int)
    requires !n.Remaining? && parentId + [OwnSegment(n, k)] !in used
    ensures var myId := parentId + [OwnSegment(n, k)];
      FreshBelow([IdentifierInfo(myId, n)], parentId, used, used + {myId}) &&
      |myId| == |parentId| + 1 && myId[|parentId|].counter == k &&
      NodesOf([IdentifierInfo(myId, n)]) == [n] && (n.Leaf? ==> PreOrder(n) == [n])
  {
    var myId := parentId + [OwnSegment(n, k)];
    var own := [IdentifierInfo(myId, n)];
    assert myId[..|parentId|] == parentId;
    assert IdSet(own) == {myId} by {
      assert own[0].id == myId;
    }
  }

  /** The children's identifiers, below the rule's own, follow it. */
  lemma DescendantsBelow(own: seq<IdentifierInfo>, childIdents: seq<IdentifierInfo>)
    requires |own| == 1 && forall j | 0 <= j < |childIdents| :: Extends(childIdents[j].id, own[0].id)
    ensures forall i | 1 <= i < |own + childIdents| :: Extends((own + childIdents)[i].id, (own + childIdents)[0].id)
  {
    forall i | 1 <= i < |own + childIdents| ensures Extends((own + childIdents)[i].id, (own + childIdents)[0].id) {
      assert (own + childIdents)[i] == childIdents[i - 1];
    }
  }

  /** The `for` loop of the rule's `get_identifiers`: the children's identifiers below `myId`,
      in child order, threading the used set from one child to the next. */
  method ChildIdentifiers(n: Node, myId: NodeId, used: set<NodeId>)
    returns (idents: seq<IdentifierInfo>, usedAfter: set<NodeId>)
    requires n.Rule?
    ensures (idents, usedAfter) == ChildrenIdentifiers(n, |n.nodes|, myId, used)
    ensures NodesOf(idents) == Flatten(seq(|n.nodes|, i requires 0 <= i < |n.nodes| => PreOrder(n.nodes[i])))
    ensures FreshBelow(idents, myId, used, usedAfter)
    decreases n, 0
  {
    var nodes := n.nodes;
    ghost var pre := seq(|nodes|, i requires 0 <= i < |nodes| => PreOrder(nodes[i]));
    idents, usedAfter := [], used;
    assert IdSet([]) == {};
    for i := 0 to |nodes|
      invariant (idents, usedAfter) == ChildrenIdentifiers(n, i, myId, used)
      invariant NodesOf(idents) == Flatten(pre[..i])
      invariant FreshBelow(idents, myId, used, usedAfter)
    {
      var childIdents, childUsed := GetIdentifiers(nodes[i], myId, usedAfter);
      assert pre[..i + 1][..i] == pre[..i];
      AppendIdentifiers(idents, childIdents, myId, used, usedAfter, childUsed);
      idents := idents + childIdents;
      usedAfter := childUsed;
    }
    assert pre[..|nodes|] == pre;
  }
}
