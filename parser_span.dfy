/** The span of a question on a ticket page: the nodes `GetNodesBetween` collects between one
    question header and the next. The header's parent is given by its child list and the list
    of siblings that follow it; the next header (if any) by the identity of its parent. */
module ParserSpan {
  import opened Wrappers
  import opened Search
  import opened Dom

  /** Is the child the header itself, or does it contain it? */
  function HoldsHeader(startId: nat): Node -> bool {
    (c: Node) => HoldsId(c, startId)
  }

  /** Is the sibling the next header's parent (where the sibling pass stops)? */
  function IsEndParent(endParent: Option<nat>): Node -> bool {
    (n: Node) => endParent.Some? && n.id == endParent.value
  }

  /** Position of the parent's child that is or contains the header. */
  function HeaderChild(children: seq<Node>, startId: nat): Option<nat> {
    FirstIndex(children, HoldsHeader(startId))
  }

  /** First pass: the element children that come after the header's child. */
  function InlinePart(children: seq<Node>, startId: nat): seq<Node> {
    match HeaderChild(children, startId)
    case None => []
    case Some(k) => Filter(children[k + 1..], IsElement)
  }

  /** Number of the parent's following siblings the second pass walks over. */
  function StopAt(following: seq<Node>, endParent: Option<nat>): (r: nat)
    ensures r <= |following|
  {
    match FirstIndex(following, IsEndParent(endParent))
    case None => |following|
    case Some(k) => k
  }

  /** Second pass: the element siblings of the parent, up to the next header's parent. */
  function SiblingPart(following: seq<Node>, endParent: Option<nat>): seq<Node> {
    Filter(following[..StopAt(following, endParent)], IsElement)
  }

  /** What `GetNodesBetween(start, end)` returns: first pass then second pass. */
  function NodesBetween(children: seq<Node>, startId: nat, following: seq<Node>, endParent: Option<nat>): seq<Node> {
    InlinePart(children, startId) + SiblingPart(following, endParent)
  }

  /** `GetNodesBetween`: the first pass, then the second pass appending to the same list. */
  method GetNodesBetween(children: seq<Node>, startId: nat, following: seq<Node>, endParent: Option<nat>)
    returns (nodes: seq<Node>)
    ensures nodes == NodesBetween(children, startId, following, endParent)
  {
    nodes := CollectAfterHeader(children, startId);
    nodes := CollectSiblings(nodes, following, endParent);
  }

  /** The first loop of `GetNodesBetween`: walks the parent's children with an `afterHeader` flag. */
  method CollectAfterHeader(children: seq<Node>, startId: nat) returns (nodes: seq<Node>)
    ensures nodes == InlinePart(children, startId)
  {
    nodes := [];
    var afterHeader := false;
    ghost var k: nat := 0;  // position of the header's child, once seen
    for i := 0 to |children|
      invariant !afterHeader ==> nodes == [] && forall m :: 0 <= m < i ==> !HoldsId(children[m], startId)
      invariant afterHeader ==> k < i && HoldsId(children[k], startId)
                                && (forall m :: 0 <= m < k ==> !HoldsId(children[m], startId))
                                && nodes == Filter(children[k + 1..i], IsElement)
    {
      var child := children[i];
      if !afterHeader {
        // `continue` in the source: the header's child itself is never collected
        if HoldsId(child, startId) {
          afterHeader := true;
          k := i;
          assert children[k + 1..i + 1] == [];
        }
      } else {
        FilterSliceSnoc(children, IsElement, k + 1, i);
        if child.kind == Element {
          nodes := nodes + [child];
        }
      }
    }
    if afterHeader {
      assert NoneBefore(children, HoldsHeader(startId), k);
      FirstIndexAt(children, HoldsHeader(startId), k);
      assert children[k + 1..|children|] == children[k + 1..];
    } else {
      assert NoneBefore(children, HoldsHeader(startId), |children|);
    }
  }

  /** The second loop of `GetNodesBetween`: follows `NextSibling` from the header's parent until
      the next header's parent or the last sibling, appending elements to `nodes0`. */
  method CollectSiblings(nodes0: seq<Node>, following: seq<Node>, endParent: Option<nat>) returns (nodes: seq<Node>)
    ensures nodes == nodes0 + SiblingPart(following, endParent)
  {
    nodes := nodes0;
    var j := 0;
    while j < |following| && (endParent.None? || following[j].id != endParent.value)
      invariant j <= |following|
      invariant forall m :: 0 <= m < j ==> endParent.None? || following[m].id != endParent.value
      invariant nodes == nodes0 + Filter(following[..j], IsElement)
    {
      FilterSnoc(following, IsElement, j);
      if following[j].kind == Element {
        nodes := nodes + [following[j]];
      }
      j := j + 1;
    }
    assert NoneBefore(following, IsEndParent(endParent), j);
    if j < |following| {
      FirstIndexAt(following, IsEndParent(endParent), j);
    }
  }

  /** Node identities are distinct across the parent's children and its following siblings. */
  ghost predicate UniqueIds(ns: seq<Node>) {
    forall i, j :: 0 <= i < j < |ns| ==> ns[i].id != ns[j].id
  }

  /** Only element nodes are collected: the first pass gives exactly the element children after
      the header's child, the second exactly the element siblings before the stop. */
  lemma CollectedNodes(children: seq<Node>, startId: nat, following: seq<Node>, endParent: Option<nat>, n: Node)
    ensures n in NodesBetween(children, startId, following, endParent) <==>
              IsElement(n) &&
              ((exists k :: HeaderChild(children, startId) == Some(k) && n in children[k + 1..])
               || n in following[..StopAt(following, endParent)])
  {
    FilterMembers(following[..StopAt(following, endParent)], IsElement);
    match HeaderChild(children, startId)
    case None =>
    case Some(k) => FilterMembers(children[k + 1..], IsElement);
  }

  /** The child that is or contains the header, and every child before it, are never collected. */
  lemma HeaderAndEarlierChildrenExcluded(children: seq<Node>, startId: nat, following: seq<Node>,
                                         endParent: Option<nat>, k: nat, j: nat)
    requires UniqueIds(children + following)
    requires HeaderChild(children, startId) == Some(k) && j <= k
    ensures children[j] !in NodesBetween(children, startId, following, endParent)
  {
    var all := children + following;
    var x := children[j];
    assert all[j] == x;
    forall m | k + 1 <= m < |children|
      ensures children[m] != x
    {
      assert all[m] == children[m];
    }
    forall p | 0 <= p < |following|
      ensures following[p] != x
    {
      assert all[|children| + p] == following[p];
    }
    CollectedNodes(children, startId, following, endParent, x);
  }

  /** The sibling pass never reaches the next header's parent, and with no next header it runs
      to the last sibling. */
  lemma SiblingPassStopsBeforeEnd(following: seq<Node>, endParent: Option<nat>)
    ensures forall n :: n in SiblingPart(following, endParent) ==> !IsEndParent(endParent)(n)
    ensures endParent.None? ==> SiblingPart(following, endParent) == Filter(following, IsElement)
  {
    var s := StopAt(following, endParent);
    FilterMembers(following[..s], IsElement);
    forall n | n in SiblingPart(following, endParent)
      ensures !IsEndParent(endParent)(n)
    {
      var p :| 0 <= p < s && following[..s][p] == n;
    }
    if endParent.None? {
      assert following[..|following|] == following;
    }
  }

  /** The first pass does not consult the next header: two calls that differ only in it agree
      on everything the first pass collected. */
  lemma FirstPassIgnoresEnd(children: seq<Node>, startId: nat, following: seq<Node>, e1: Option<nat>, e2: Option<nat>)
    ensures var m := |InlinePart(children, startId)|;
      && |NodesBetween(children, startId, following, e1)| >= m
      && |NodesBetween(children, startId, following, e2)| >= m
      && NodesBetween(children, startId, following, e1)[..m] == NodesBetween(children, startId, following, e2)[..m]
  {
    var a := InlinePart(children, startId);
    assert NodesBetween(children, startId, following, e1)[..|a|] == a;
    assert NodesBetween(children, startId, following, e2)[..|a|] == a;
  }
}
