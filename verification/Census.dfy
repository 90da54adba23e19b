/**
 The identity census: every distinct node under a root, in first-reach order, and
 how often the walk arrived at each.
 */
module Census {

  /** A node's identity. */
  datatype Ref = Ref(id: nat)

  // ---------- A node's children ----------

  datatype Part =
    | NodePart(node: Ref)
    | RunPart(members: seq<Member>)      // a plain tuple
    | ScalarPart

  datatype Member = NodeMember(node: Ref) | OtherMember

  predicate AllNodes(members: seq<Member>) {
    forall k :: 0 <= k < |members| ==> members[k].NodeMember?
  }

  function NodesOf(members: seq<Member>): seq<Ref> {
    if members == [] then []
    else NodesOf(members[..|members| - 1]) + if members[|members| - 1].NodeMember? then [members[|members| - 1].node] else []
  }

  /** The node parts in order, a run's members in place of the run; a run holding anything else gives nothing. */
  function ChildrenOf(parts: seq<Part>): seq<Ref> {
    if parts == [] then []
    else
      ChildrenOf(parts[..|parts| - 1])
      + match parts[|parts| - 1]
        case NodePart(node) => [node]
        case RunPart(members) => if AllNodes(members) then NodesOf(members) else []
        case ScalarPart => []
  }

  // ---------- One segment per part ----------

  function Joined(segments: seq<seq<Ref>>): seq<Ref> {
    if segments == [] then [] else Joined(segments[..|segments| - 1]) + segments[|segments| - 1]
  }

  /** What a part gives: itself, the members of a run that has nothing but nodes, or nothing. */
  ghost predicate Gives(part: Part, segment: seq<Ref>) {
    match part
    case NodePart(node) => segment == [node]
    case RunPart(members) =>
      if exists k :: 0 <= k < |members| && members[k] == OtherMember then segment == []
      else |segment| == |members| && forall k :: 0 <= k < |members| ==> members[k] == NodeMember(segment[k])
    case ScalarPart => segment == []
  }

  ghost predicate GiveInTurn(parts: seq<Part>, segments: seq<seq<Ref>>) {
    |segments| == |parts| && forall k :: 0 <= k < |parts| ==> Gives(parts[k], segments[k])
  }

  lemma {:induction false} NodesOfRun(members: seq<Member>)
    requires AllNodes(members)
    ensures |NodesOf(members)| == |members| && forall k :: 0 <= k < |members| ==> members[k] == NodeMember(NodesOf(members)[k])
    decreases |members|
  {
    if members != [] {
      var front := members[..|members| - 1];
      assert forall k :: 0 <= k < |front| ==> front[k] == members[k];
      NodesOfRun(front);
    }
  }

  /** A node's children are what its parts give, one after the other. */
  lemma {:induction false} ChildrenInTurn(parts: seq<Part>) returns (segments: seq<seq<Ref>>)
    ensures GiveInTurn(parts, segments) && Joined(segments) == ChildrenOf(parts)
    decreases |parts|
  {
    segments := [];
    if parts != [] {
      var front := ChildrenInTurn(parts[..|parts| - 1]);
      var last := parts[|parts| - 1];
      var segment := match last
        case NodePart(node) => [node]
        case RunPart(members) => if AllNodes(members) then NodesOf(members) else []
        case ScalarPart => [];
      if last.RunPart? {
        if AllNodes(last.members) {
          NodesOfRun(last.members);
        } else {
          var k :| 0 <= k < |last.members| && !last.members[k].NodeMember?;
          assert last.members[k] == OtherMember;
        }
      }
      assert Gives(last, segment);
      segments := front + [segment];
      assert segments[..|segments| - 1] == front;
      assert forall k :: 0 <= k < |parts| - 1 ==> segments[k] == front[k] && parts[k] == parts[..|parts| - 1][k];
    }
  }

  lemma {:induction false} NodesOfLength(members: seq<Member>)
    ensures |NodesOf(members)| <= |members| && (|NodesOf(members)| == |members| <==> AllNodes(members))
    decreases |members|
  {
    if members != [] {
      var front := members[..|members| - 1];
      NodesOfLength(front);
      assert forall k :: 0 <= k < |front| ==> front[k] == members[k];
    }
  }

  method RunMembers(members: seq<Member>) returns (nodes: seq<Ref>)
    ensures nodes == NodesOf(members)
  {
    nodes := [];
    for m := 0 to |members|
      invariant nodes == NodesOf(members[..m])
    {
      assert members[..m + 1][..m] == members[..m];
      if members[m].NodeMember? {
        nodes := nodes + [members[m].node];
      }
    }
    assert members[..|members|] == members;
  }

  method FieldChildren(parts: seq<Part>) returns (out: seq<Ref>)
    ensures out == ChildrenOf(parts)
    ensures exists segments :: GiveInTurn(parts, segments) && Joined(segments) == out
  {
    out := [];
    for k := 0 to |parts|
      invariant out == ChildrenOf(parts[..k])
    {
      assert parts[..k + 1][..k] == parts[..k];
      match parts[k] {
        case NodePart(node) =>
          out := out + [node];
        case RunPart(members) =>
          var nodes := RunMembers(members);
          NodesOfLength(members);
          if |nodes| == |members| {
            out := out + nodes;
          }
        case ScalarPart =>
      }
    }
    assert parts[..|parts|] == parts;
    ghost var segments := ChildrenInTurn(parts);
  }

  // ---------- The walk ----------

  /** The heap under the root: the parts of every node. */
  type Heap = map<Ref, seq<Part>>

  function Kids(heap: Heap, node: Ref): seq<Ref> {
    if node in heap then ChildrenOf(heap[node]) else []
  }

  function Seen(order: seq<Ref>): set<Ref> {
    set node | node in order
  }

  predicate Closed(heap: Heap) {
    forall node, kid :: node in heap && kid in Kids(heap, node) ==> kid in heap
  }

  /** Depth-first pre-order with a visited list. */
  ghost function Walk(heap: Heap, order: seq<Ref>, node: Ref): (r: seq<Ref>)
    requires Closed(heap) && node in heap
    ensures order <= r
    decreases heap.Keys - Seen(order), 0, 1
  {
    if node in order then order
    else
      NewlySeen(heap, order, node);
      WalkAll(heap, order + [node], Kids(heap, node))
  }

  ghost function WalkAll(heap: Heap, order: seq<Ref>, nodes: seq<Ref>): (r: seq<Ref>)
    requires Closed(heap) && forall k :: 0 <= k < |nodes| ==> nodes[k] in heap
    ensures order <= r
    decreases heap.Keys - Seen(order), 1, |nodes|
  {
    if nodes == [] then order
    else
      var first := Walk(heap, order, nodes[0]);
      SeenGrows(order, first);
      assert heap.Keys - Seen(first) <= heap.Keys - Seen(order);
      WalkAll(heap, first, nodes[1..])
  }

  lemma NewlySeen(heap: Heap, order: seq<Ref>, node: Ref)
    requires node in heap && node !in order
    ensures heap.Keys - Seen(order + [node]) < heap.Keys - Seen(order)
  {
    assert node in heap.Keys - Seen(order) && node !in heap.Keys - Seen(order + [node]) by {
      assert (order + [node])[|order|] == node;
    }
    SeenGrows(order, order + [node]);
  }

  lemma SeenGrows(order: seq<Ref>, longer: seq<Ref>)
    requires order <= longer
    ensures Seen(order) <= Seen(longer)
  {
    forall node | node in order ensures node in longer {
      var k :| 0 <= k < |order| && order[k] == node;
      assert longer[k] == node;
    }
  }

  lemma {:induction false} WalkAppend(heap: Heap, order: seq<Ref>, a: seq<Ref>, b: seq<Ref>)
    requires Closed(heap) && (forall k :: 0 <= k < |a| ==> a[k] in heap) && forall k :: 0 <= k < |b| ==> b[k] in heap
    ensures forall k :: 0 <= k < |a + b| ==> (a + b)[k] in heap
    ensures WalkAll(heap, order, a + b) == WalkAll(heap, WalkAll(heap, order, a), b)
    decreases |a|
  {
    if a == [] {
      assert a + b == b;
    } else {
      WalkAppend(heap, Walk(heap, order, a[0]), a[1..], b);
      assert (a + b)[1..] == a[1..] + b;
    }
  }

  function Reversed(nodes: seq<Ref>): (r: seq<Ref>)
    ensures |r| == |nodes| && forall k :: 0 <= k < |r| ==> r[k] == nodes[|nodes| - 1 - k]
  {
    if nodes == [] then [] else Reversed(nodes[1..]) + [nodes[0]]
  }

  // ---------- Arrivals ----------

  /** Every edge out of the listed nodes, by its target. */
  ghost function Edges(heap: Heap, order: seq<Ref>): multiset<Ref> {
    if order == [] then multiset{}
    else Edges(heap, order[..|order| - 1]) + multiset(Kids(heap, order[|order| - 1]))
  }

  /** How often the walk arrives: once at the root, once per edge. */
  ghost function Arrivals(heap: Heap, root: Ref, order: seq<Ref>): multiset<Ref> {
    multiset{root} + Edges(heap, order)
  }

  lemma EdgesAppend(heap: Heap, order: seq<Ref>, node: Ref)
    ensures Edges(heap, order + [node]) == Edges(heap, order) + multiset(Kids(heap, node))
  {
    assert (order + [node])[..|order|] == order;
  }

  predicate Indexed(order: seq<Ref>, at: map<Ref, nat>) {
    && (forall k :: 0 <= k < |order| ==> order[k] in at && at[order[k]] == k)
    && forall node :: node in at ==> at[node] < |order| && order[at[node]] == node
  }

  ghost predicate Counted(order: seq<Ref>, reached: seq<nat>, arrived: multiset<Ref>) {
    && |reached| == |order|
    && (forall k :: 0 <= k < |order| ==> reached[k] == arrived[order[k]])
    && forall node :: node in arrived ==> node in order
  }

  lemma StartOfWalk(heap: Heap, root: Ref)
    requires Closed(heap) && root in heap
    ensures WalkAll(heap, [], Reversed([root])) == Walk(heap, [], root)
    ensures Arrivals(heap, root, []) == multiset{} + multiset([root])
  {
    assert Reversed([root]) == [root];
    assert WalkAll(heap, [], [root]) == WalkAll(heap, Walk(heap, [], root), [root][1..]);
  }

  lemma ReversedLast(rest: seq<Ref>, node: Ref)
    ensures Reversed(rest + [node]) == [node] + Reversed(rest)
  {
  }

  lemma {:induction false} ReversedElements(nodes: seq<Ref>)
    ensures multiset(Reversed(nodes)) == multiset(nodes)
    decreases |nodes|
  {
    if nodes != [] {
      ReversedElements(nodes[1..]);
      assert nodes == [nodes[0]] + nodes[1..];
    }
  }

  // Popping a node met before.
  lemma AgainStep(heap: Heap, order: seq<Ref>, rest: seq<Ref>, node: Ref)
    requires Closed(heap) && node in order && node in heap && forall k :: 0 <= k < |rest| ==> rest[k] in heap
    ensures WalkAll(heap, order, Reversed(rest + [node])) == WalkAll(heap, order, Reversed(rest))
  {
    ReversedLast(rest, node);
    assert ([node] + Reversed(rest))[1..] == Reversed(rest);
  }

  lemma KidsInHeap(heap: Heap, node: Ref)
    requires Closed(heap)
    ensures forall k :: 0 <= k < |Kids(heap, node)| ==> Kids(heap, node)[k] in heap
  {
    forall k | 0 <= k < |Kids(heap, node)| ensures Kids(heap, node)[k] in heap {
      assert Kids(heap, node)[k] in Kids(heap, node);
    }
  }

  // Popping a node met for the first time, and pushing its children reversed.
  lemma FirstStep(heap: Heap, order: seq<Ref>, rest: seq<Ref>, node: Ref)
    requires Closed(heap) && node !in order && node in heap && forall k :: 0 <= k < |rest| ==> rest[k] in heap
    ensures var stack := rest + Reversed(Kids(heap, node));
            && (forall k :: 0 <= k < |stack| ==> stack[k] in heap)
            && WalkAll(heap, order, Reversed(rest + [node])) == WalkAll(heap, order + [node], Reversed(stack))
  {
    hide Kids, Walk, WalkAll, Reversed;
    var kids := Kids(heap, node);
    KidsInHeap(heap, node);
    ReversedLast(rest, node);
    ReversedTwice(rest, kids);
    WalkAppend(heap, order + [node], kids, Reversed(rest));
    OpenNode(heap, order, node, Reversed(rest));
  }

  lemma ReversedTwice(rest: seq<Ref>, kids: seq<Ref>)
    ensures Reversed(rest + Reversed(kids)) == kids + Reversed(rest)
  {
  }

  // A node met for the first time is followed by its children, then by what waits after it.
  lemma OpenNode(heap: Heap, order: seq<Ref>, node: Ref, after: seq<Ref>)
    requires Closed(heap) && node !in order && node in heap && forall k :: 0 <= k < |after| ==> after[k] in heap
    ensures forall k :: 0 <= k < |Kids(heap, node)| ==> Kids(heap, node)[k] in heap
    ensures WalkAll(heap, order, [node] + after)
         == WalkAll(heap, WalkAll(heap, order + [node], Kids(heap, node)), after)
  {
    KidsInHeap(heap, node);
    assert ([node] + after)[1..] == after;
    assert Walk(heap, order, node) == WalkAll(heap, order + [node], Kids(heap, node));
  }

  lemma CountAgain(order: seq<Ref>, reached: seq<nat>, arrived: multiset<Ref>, at: map<Ref, nat>, node: Ref)
    requires Indexed(order, at) && Counted(order, reached, arrived) && node in at
    ensures at[node] < |reached| && Counted(order, reached[at[node] := reached[at[node]] + 1], arrived + multiset{node})
    ensures node in order
  {
    assert order[at[node]] == node;
  }

  lemma CountFirst(order: seq<Ref>, reached: seq<nat>, arrived: multiset<Ref>, at: map<Ref, nat>, node: Ref)
    requires Indexed(order, at) && Counted(order, reached, arrived) && node !in at
    ensures node !in order
    ensures Indexed(order + [node], at[node := |order|])
    ensures Counted(order + [node], reached + [1], arrived + multiset{node})
  {
    assert node !in order && arrived[node] == 0;
    assert (order + [node])[|order|] == node;
    forall other | other in arrived + multiset{node} ensures other in order + [node] {
      assert other in order || other == node;
    }
  }

  // What is counted and what is pending make up every arrival.
  lemma PopConserves(arrived: multiset<Ref>, rest: seq<Ref>, node: Ref, total: multiset<Ref>)
    requires arrived + multiset(rest + [node]) == total
    ensures arrived + multiset{node} + multiset(rest) == total
  {
  }

  lemma ArrivalsAppend(heap: Heap, root: Ref, order: seq<Ref>, node: Ref)
    ensures Arrivals(heap, root, order + [node]) == Arrivals(heap, root, order) + multiset(Kids(heap, node))
  {
    hide Kids;
    EdgesAppend(heap, order, node);
  }

  lemma PushConserves(heap: Heap, root: Ref, order: seq<Ref>, arrived: multiset<Ref>, rest: seq<Ref>, node: Ref)
    requires arrived + multiset(rest + [node]) == Arrivals(heap, root, order)
    ensures arrived + multiset{node} + multiset(rest + Reversed(Kids(heap, node))) == Arrivals(heap, root, order + [node])
  {
    hide *;
    var kids := Kids(heap, node);
    ReversedElements(kids);
    ArrivalsAppend(heap, root, order, node);
    SplitSeq(rest, [node]);
    SplitSeq(rest, Reversed(kids));
    assert arrived + multiset{node} + multiset(rest) == Arrivals(heap, root, order);
  }

  lemma SplitSeq(a: seq<Ref>, b: seq<Ref>)
    ensures multiset(a + b) == multiset(a) + multiset(b)
  {
  }

  lemma EmptyStart(root: Ref)
    ensures Indexed([], map[]) && Counted([], [], multiset{})
  {
  }

  lemma WalkDone(heap: Heap, order: seq<Ref>)
    requires Closed(heap)
    ensures WalkAll(heap, order, Reversed([])) == order
  {
  }

  /** The walk on an explicit stack, its arrivals counted as nodes are popped. */
  method Take(heap: Heap, root: Ref) returns (order: seq<Ref>, reached: seq<nat>)
    requires Closed(heap) && root in heap
    ensures order == Walk(heap, [], root)
    ensures Counted(order, reached, Arrivals(heap, root, order))
  {
    hide *;
    var at: map<Ref, nat> := map[];
    order := [];
    reached := [];
    var stack := [root];
    ghost var arrived: multiset<Ref> := multiset{};
    StartOfWalk(heap, root);
    EmptyStart(root);
    while stack != []
      invariant forall k :: 0 <= k < |stack| ==> stack[k] in heap
      invariant WalkAll(heap, order, Reversed(stack)) == Walk(heap, [], root)
      invariant Indexed(order, at) && Counted(order, reached, arrived)
      invariant arrived + multiset(stack) == Arrivals(heap, root, order)
      decreases heap.Keys - Seen(order), |stack|
    {
      var node := stack[|stack| - 1];
      var rest := stack[..|stack| - 1];
      assert stack == rest + [node];
      stack := rest;
      if node in at {
        var seen := at[node];
        CountAgain(order, reached, arrived, at, node);
        AgainStep(heap, order, rest, node);
        PopConserves(arrived, rest, node, Arrivals(heap, root, order));
        reached := reached[seen := reached[seen] + 1];
      } else {
        CountFirst(order, reached, arrived, at, node);
        FirstStep(heap, order, rest, node);
        NewlySeen(heap, order, node);
        PushConserves(heap, root, order, arrived, rest, node);
        at := at[node := |order|];
        order := order + [node];
        reached := reached + [1];
        stack := stack + Reversed(Kids(heap, node));
      }
      arrived := arrived + multiset{node};
    }
    WalkDone(heap, order);
    assert arrived + multiset(stack) == arrived;
  }

  // ---------- What the census lists ----------

  ghost predicate IsPath(heap: Heap, path: seq<Ref>) {
    path != [] && forall k :: 0 <= k < |path| - 1 ==> path[k + 1] in Kids(heap, path[k])
  }

  ghost predicate Reaches(heap: Heap, a: Ref, b: Ref) {
    exists path :: IsPath(heap, path) && path[0] == a && path[|path| - 1] == b
  }

  lemma ReachesItself(heap: Heap, a: Ref)
    ensures Reaches(heap, a, a)
  {
    assert IsPath(heap, [a]) && [a][0] == a && [a][|[a]| - 1] == a;
  }

  lemma KidReaches(heap: Heap, a: Ref, kid: Ref, b: Ref)
    requires kid in Kids(heap, a) && Reaches(heap, kid, b)
    ensures Reaches(heap, a, b)
  {
    var p :| IsPath(heap, p) && p[0] == kid && p[|p| - 1] == b;
    var path := [a] + p;
    forall k | 0 <= k < |path| - 1 ensures path[k + 1] in Kids(heap, path[k]) {
      assert path[k + 1] == p[k] && (k > 0 ==> path[k] == p[k - 1]);
    }
    assert IsPath(heap, path) && path[0] == a && path[|path| - 1] == b;
  }

  predicate NoneTwice(order: seq<Ref>) {
    forall j, k :: 0 <= j < k < |order| ==> order[j] != order[k]
  }

  /** From a node the walk adds only what the node reaches, and everything an added node names. */
  ghost predicate Added(heap: Heap, order: seq<Ref>, after: seq<Ref>, starts: seq<Ref>) {
    && order <= after
    && (forall node :: node in after && node !in order ==> exists k ::
          0 <= k < |starts| && Reaches(heap, starts[k], node))
    && (forall node, kid :: node in after && node !in order && kid in Kids(heap, node) ==> kid in after)
    && (forall k :: 0 <= k < |starts| ==> starts[k] in after)
    && (NoneTwice(order) ==> NoneTwice(after))
  }

  lemma {:induction false} WalkAdds(heap: Heap, order: seq<Ref>, node: Ref)
    requires Closed(heap) && node in heap
    ensures Added(heap, order, Walk(heap, order, node), [node])
    decreases heap.Keys - Seen(order), 0, 1
  {
    ReachesItself(heap, node);
    if node in order {
      assert forall k :: 0 <= k < |[node]| ==> [node][k] in order;
    } else {
      NewlySeen(heap, order, node);
      KidsInHeap(heap, node);
      var begun := order + [node];
      WalkAllAdds(heap, begun, Kids(heap, node));
      WalkOne(heap, order, node, Walk(heap, order, node));
    }
  }

  lemma WalkOne(heap: Heap, order: seq<Ref>, node: Ref, after: seq<Ref>)
    requires node !in order && Added(heap, order + [node], after, Kids(heap, node))
    ensures Added(heap, order, after, [node])
  {
    hide Kids, Reaches;
    ReachesItself(heap, node);
    assert order <= order + [node];
    assert after[|order|] == node;
    forall other | other in after && other !in order ensures Reaches(heap, [node][0], other) {
      if other != node {
        assert other !in order + [node];
        var k :| 0 <= k < |Kids(heap, node)| && Reaches(heap, Kids(heap, node)[k], other);
        KidReaches(heap, node, Kids(heap, node)[k], other);
      }
    }
    forall other, kid | other in after && other !in order && kid in Kids(heap, other) ensures kid in after {
      if other == node {
        var k :| 0 <= k < |Kids(heap, node)| && Kids(heap, node)[k] == kid;
      } else {
        assert other !in order + [node];
      }
    }
  }

  lemma {:induction false} WalkAllAdds(heap: Heap, order: seq<Ref>, nodes: seq<Ref>)
    requires Closed(heap) && forall k :: 0 <= k < |nodes| ==> nodes[k] in heap
    ensures Added(heap, order, WalkAll(heap, order, nodes), nodes)
    decreases heap.Keys - Seen(order), 1, |nodes|
  {
    if nodes != [] {
      var first := Walk(heap, order, nodes[0]);
      SeenGrows(order, first);
      assert heap.Keys - Seen(first) <= heap.Keys - Seen(order);
      WalkAdds(heap, order, nodes[0]);
      WalkAllAdds(heap, first, nodes[1..]);
      AddedOn(heap, order, first, WalkAll(heap, first, nodes[1..]), nodes);
    }
  }

  lemma AddedOn(heap: Heap, order: seq<Ref>, first: seq<Ref>, after: seq<Ref>, nodes: seq<Ref>)
    requires nodes != [] && Added(heap, order, first, [nodes[0]]) && Added(heap, first, after, nodes[1..])
    ensures Added(heap, order, after, nodes)
  {
    SeenGrows(first, after);
    assert forall node :: node in first ==> node in Seen(first);
    forall node | node in after && node !in order
      ensures exists k :: 0 <= k < |nodes| && Reaches(heap, nodes[k], node)
    {
      if node in first {
        assert Reaches(heap, nodes[0], node);
      } else {
        var k :| 0 <= k < |nodes[1..]| && Reaches(heap, nodes[1..][k], node);
        assert nodes[k + 1] == nodes[1..][k];
      }
    }
    forall node, kid | node in after && node !in order && kid in Kids(heap, node) ensures kid in after {
      if node in first {
        assert kid in Seen(first);
      }
    }
    forall k | 0 <= k < |nodes| ensures nodes[k] in after {
      if k == 0 {
        assert [nodes[0]][0] in first && nodes[0] in Seen(first);
      } else {
        assert nodes[k] == nodes[1..][k - 1];
      }
    }
  }

  lemma RootFirst(heap: Heap, root: Ref)
    requires Closed(heap) && root in heap
    ensures [root] <= Walk(heap, [], root)
  {
    KidsInHeap(heap, root);
    assert [] + [root] == [root];
  }

  /** The census lists exactly what the root reaches, the root first and each node once. */
  lemma CensusIsReachable(heap: Heap, root: Ref, node: Ref)
    requires Closed(heap) && root in heap
    ensures var order := Walk(heap, [], root);
            NoneTwice(order) && order != [] && order[0] == root && (node in order <==> Reaches(heap, root, node))
  {
    var order := Walk(heap, [], root);
    RootFirst(heap, root);
    WalkAdds(heap, [], root);
    hide Walk, Kids;
    if Reaches(heap, root, node) {
      var path :| IsPath(heap, path) && path[0] == root && path[|path| - 1] == node;
      PathStaysIn(heap, order, path, |path| - 1);
    }
  }

  lemma {:induction false} PathStaysIn(heap: Heap, order: seq<Ref>, path: seq<Ref>, n: nat)
    requires IsPath(heap, path) && n < |path| && path[0] in order
    requires forall node, kid :: node in order && kid in Kids(heap, node) ==> kid in order
    ensures path[n] in order
    decreases n
  {
    if n > 0 {
      PathStaysIn(heap, order, path, n - 1);
      assert path[n - 1 + 1] in Kids(heap, path[n - 1]);
    }
  }

  function Total(reached: seq<nat>): nat {
    if reached == [] then 0 else Total(reached[..|reached| - 1]) + reached[|reached| - 1]
  }

  function EdgeCount(heap: Heap, order: seq<Ref>): nat {
    if order == [] then 0 else EdgeCount(heap, order[..|order| - 1]) + |Kids(heap, order[|order| - 1])|
  }

  lemma {:induction false} EdgesSize(heap: Heap, order: seq<Ref>)
    ensures |Edges(heap, order)| == EdgeCount(heap, order)
    decreases |order|
  {
    if order != [] {
      EdgesSize(heap, order[..|order| - 1]);
    }
  }

  // Counts over a list without repeats add up to the whole multiset.
  lemma {:induction false} CountsAddUp(order: seq<Ref>, reached: seq<nat>, arrived: multiset<Ref>)
    requires NoneTwice(order) && Counted(order, reached, arrived)
    ensures Total(reached) == |arrived|
    decreases |order|
  {
    if order == [] {
      assert arrived == multiset{};
    } else {
      var last := order[|order| - 1];
      var less := arrived[last := 0];
      var front := order[..|order| - 1];
      forall k | 0 <= k < |front| ensures reached[..|front|][k] == less[front[k]] {
        assert front[k] == order[k] && order[k] != last;
      }
      forall node | node in less ensures node in front {
        assert node in order && node != last;
        var k :| 0 <= k < |order| && order[k] == node;
        assert front[k] == node;
      }
      CountsAddUp(front, reached[..|front|], less);
      assert |less| + arrived[last] == |arrived|;
    }
  }

  /** All arrivals together: one per edge between reached nodes, and one for the root. */
  lemma ArrivalsAddUp(heap: Heap, root: Ref, reached: seq<nat>)
    requires Closed(heap) && root in heap
    requires Counted(Walk(heap, [], root), reached, Arrivals(heap, root, Walk(heap, [], root)))
    ensures Total(reached) == 1 + EdgeCount(heap, Walk(heap, [], root))
  {
    CensusIsReachable(heap, root, root);
    CountsAddUp(Walk(heap, [], root), reached, Arrivals(heap, root, Walk(heap, [], root)));
    EdgesSize(heap, Walk(heap, [], root));
  }

  // ---------- The order is pre-order ----------

  /** Everything the node names is listed. */
  ghost predicate Shut(heap: Heap, order: seq<Ref>, i: nat)
    requires i < |order|
  {
    forall kid :: kid in Kids(heap, order[i]) ==> kid in order
  }

  /** The node is the first child not listed yet of the latest listed node with such a child. */
  ghost predicate Follows(heap: Heap, listed: seq<Ref>, node: Ref) {
    && node !in listed
    && exists j :: 0 <= j < |listed| && FirstMissing(heap, listed, j, node) && forall i :: j < i < |listed| ==> Shut(heap, listed, i)
  }

  ghost predicate FirstMissing(heap: Heap, listed: seq<Ref>, j: nat, node: Ref)
    requires j < |listed|
  {
    var kids := Kids(heap, listed[j]);
    exists p :: 0 <= p < |kids| && kids[p] == node && forall q :: 0 <= q < p ==> kids[q] in listed
  }

  ghost predicate AllFollow(heap: Heap, order: seq<Ref>, from: nat) {
    forall k :: from <= k < |order| ==> Follows(heap, order[..k], order[k])
  }

  ghost predicate ShutFrom(heap: Heap, order: seq<Ref>, from: nat) {
    forall i :: from <= i < |order| ==> Shut(heap, order, i)
  }

  lemma StillShut(heap: Heap, order: seq<Ref>, longer: seq<Ref>, from: nat)
    requires order <= longer && ShutFrom(heap, order, from)
    ensures forall i :: from <= i < |order| ==> Shut(heap, longer, i)
  {
    SeenGrows(order, longer);
    forall i, kid | from <= i < |order| && kid in Kids(heap, longer[i]) ensures kid in longer {
      assert Shut(heap, order, i) && kid in Seen(order);
    }
  }

  lemma StillFollow(heap: Heap, order: seq<Ref>, longer: seq<Ref>, from: nat)
    requires order <= longer && AllFollow(heap, order, from) && AllFollow(heap, longer, |order|)
    ensures AllFollow(heap, longer, from)
  {
    forall k | from <= k < |longer| ensures Follows(heap, longer[..k], longer[k]) {
      if k < |order| {
        assert longer[..k] == order[..k] && longer[k] == order[k];
      }
    }
  }

  // Working off the children left of the node at `j`, the ones before them listed.
  lemma {:induction false} WalkAllFollows(heap: Heap, order: seq<Ref>, nodes: seq<Ref>, j: nat, done: seq<Ref>)
    requires Closed(heap) && (forall k :: 0 <= k < |nodes| ==> nodes[k] in heap) && j < |order|
    requires Kids(heap, order[j]) == done + nodes && (forall k :: 0 <= k < |done| ==> done[k] in order)
    requires ShutFrom(heap, order, j + 1)
    ensures var after := WalkAll(heap, order, nodes);
            order <= after && AllFollow(heap, after, |order|) && ShutFrom(heap, after, j)
    decreases heap.Keys - Seen(order), 1, |nodes|
  {
    hide Kids, Walk, WalkAll, AllFollow, ShutFrom;
    if nodes == [] {
      NothingLeft(heap, order, nodes, j, done);
    } else {
      var first := Walk(heap, order, nodes[0]);
      WalkFollows(heap, order, nodes, j, done);
      SeenGrows(order, first);
      assert done + nodes == (done + [nodes[0]]) + nodes[1..];
      assert forall k :: 0 <= k < |done + [nodes[0]]| ==> (done + [nodes[0]])[k] in first by {
        forall k | 0 <= k < |done| ensures done[k] in first {
          assert done[k] in Seen(order);
        }
      }
      WalkAllFollows(heap, first, nodes[1..], j, done + [nodes[0]]);
      WalkAllStep(heap, order, nodes);
      StillFollow(heap, first, WalkAll(heap, order, nodes), |order|);
    }
  }

  lemma WalkAllStep(heap: Heap, order: seq<Ref>, nodes: seq<Ref>)
    requires Closed(heap) && (forall k :: 0 <= k < |nodes| ==> nodes[k] in heap) && nodes != []
    ensures WalkAll(heap, order, nodes) == WalkAll(heap, Walk(heap, order, nodes[0]), nodes[1..])
  {
  }

  lemma NothingLeft(heap: Heap, order: seq<Ref>, nodes: seq<Ref>, j: nat, done: seq<Ref>)
    requires Closed(heap) && nodes == [] && j < |order| && Kids(heap, order[j]) == done + nodes
    requires (forall k :: 0 <= k < |done| ==> done[k] in order) && ShutFrom(heap, order, j + 1)
    ensures WalkAll(heap, order, nodes) == order && AllFollow(heap, order, |order|) && ShutFrom(heap, order, j)
  {
    assert done + nodes == done;
    forall kid | kid in Kids(heap, order[j]) ensures kid in order {
      var k :| 0 <= k < |done| && done[k] == kid;
    }
    assert Shut(heap, order, j);
  }

  // One child, walked whole.
  lemma {:induction false} WalkFollows(heap: Heap, order: seq<Ref>, nodes: seq<Ref>, j: nat, done: seq<Ref>)
    requires Closed(heap) && nodes != [] && nodes[0] in heap && j < |order|
    requires Kids(heap, order[j]) == done + nodes && (forall k :: 0 <= k < |done| ==> done[k] in order)
    requires ShutFrom(heap, order, j + 1)
    ensures var after := Walk(heap, order, nodes[0]);
            order <= after && nodes[0] in after && AllFollow(heap, after, |order|) && ShutFrom(heap, after, j + 1)
    decreases heap.Keys - Seen(order), 1, 0
  {
    hide Kids, WalkAll, AllFollow, ShutFrom;
    var node := nodes[0];
    if node in order {
      NoneFollow(heap, order);
    } else {
      var begun := order + [node];
      NewlySeen(heap, order, node);
      KidsInHeap(heap, node);
      NoneShut(heap, begun);
      var kids := Kids(heap, node);
      assert [] + kids == kids && begun[|order|] == node;
      WalkAllFollows(heap, begun, kids, |order|, []);
      var after := WalkAll(heap, begun, kids);
      BegunFollows(heap, order, nodes, j, done);
      StillFollow(heap, begun, after, |order|);
      StillShut(heap, order, after, j + 1);
      BothShut(heap, order, after, j + 1);
      assert after[|order|] == node;
    }
  }

  lemma NoneFollow(heap: Heap, order: seq<Ref>)
    ensures AllFollow(heap, order, |order|)
  {
  }

  lemma NoneShut(heap: Heap, order: seq<Ref>)
    ensures ShutFrom(heap, order, |order|)
  {
  }

  lemma BothShut(heap: Heap, order: seq<Ref>, longer: seq<Ref>, from: nat)
    requires order <= longer && (forall i :: from <= i < |order| ==> Shut(heap, longer, i)) && ShutFrom(heap, longer, |order|)
    ensures ShutFrom(heap, longer, from)
  {
  }

  lemma BegunFollows(heap: Heap, order: seq<Ref>, nodes: seq<Ref>, j: nat, done: seq<Ref>)
    requires nodes != [] && nodes[0] !in order && j < |order|
    requires Kids(heap, order[j]) == done + nodes && (forall k :: 0 <= k < |done| ==> done[k] in order)
    requires ShutFrom(heap, order, j + 1)
    ensures AllFollow(heap, order + [nodes[0]], |order|)
  {
    hide Kids, Shut;
    var kids := Kids(heap, order[j]);
    assert kids[|done|] == nodes[0] && forall q :: 0 <= q < |done| ==> kids[q] == done[q];
    assert FirstMissing(heap, order, j, nodes[0]);
    assert Follows(heap, order, nodes[0]);
    assert (order + [nodes[0]])[..|order|] == order;
  }

  /** The census is in pre-order: the root, then each time the first child missing of the latest node that misses one; to the end. */
  lemma CensusIsPreorder(heap: Heap, root: Ref)
    requires Closed(heap) && root in heap
    ensures var order := Walk(heap, [], root);
            order != [] && order[0] == root && AllFollow(heap, order, 1) && ShutFrom(heap, order, 0)
  {
    var kids := Kids(heap, root);
    KidsInHeap(heap, root);
    NoneShut(heap, [root]);
    assert [] + kids == kids && [] + [root] == [root];
    WalkAllFollows(heap, [root], kids, 0, []);
  }
}
