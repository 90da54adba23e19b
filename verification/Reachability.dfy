/**
 Which rules a rule reaches: the memoised walk of the reduce analysis, and the
 closure loop of the generator's shape.
 */
module Reachability {
  import opened Grammars

  /** A reference graph: what each rule names directly, in the order a walk takes it. */
  type Graph = map<string, seq<string>>

  type Table = map<string, set<string>>

  function Out(graph: Graph, name: string): seq<string> {
    if name in graph then graph[name] else []
  }

  predicate Names(graph: Graph, a: string, b: string) {
    b in Out(graph, a)
  }

  function Elements(list: seq<string>): set<string> {
    set name | name in list
  }

  function Nodes(graph: Graph): set<string> {
    graph.Keys + set a, b | a in graph && b in graph[a] :: b
  }

  /** `graph` lists exactly the references of `rules`. */
  ghost predicate IsGraphOf(graph: Graph, rules: Rules) {
    graph.Keys == rules.Keys && forall name :: name in rules ==> Elements(graph[name]) == AltRefs(rules[name])
  }

  // ---------- Reaching ----------

  ghost predicate IsPath(graph: Graph, path: seq<string>) {
    |path| >= 2 && forall k :: 0 <= k < |path| - 1 ==> Names(graph, path[k], path[k + 1])
  }

  /** A path of one reference or more leads from `a` to `b`. */
  ghost predicate Reaches(graph: Graph, a: string, b: string) {
    exists path :: IsPath(graph, path) && path[0] == a && path[|path| - 1] == b
  }

  ghost predicate ReachesCycle(graph: Graph, a: string) {
    exists c :: (c == a || Reaches(graph, a, c)) && Reaches(graph, c, c)
  }

  ghost predicate Acyclic(graph: Graph) {
    forall a :: !Reaches(graph, a, a)
  }

  lemma EdgeReaches(graph: Graph, a: string, b: string)
    requires Names(graph, a, b)
    ensures Reaches(graph, a, b)
  {
    var path := [a, b];
    assert IsPath(graph, path) && path[0] == a && path[|path| - 1] == b;
  }

  lemma ReachesOn(graph: Graph, a: string, b: string, c: string)
    requires Reaches(graph, a, b) && Reaches(graph, b, c)
    ensures Reaches(graph, a, c)
  {
    var p :| IsPath(graph, p) && p[0] == a && p[|p| - 1] == b;
    var q :| IsPath(graph, q) && q[0] == b && q[|q| - 1] == c;
    var path := p + q[1..];
    forall k | 0 <= k < |path| - 1
      ensures Names(graph, path[k], path[k + 1])
    {
      if k < |p| - 1 {
        assert path[k] == p[k] && path[k + 1] == p[k + 1];
      } else {
        assert path[k] == q[k - |p| + 1] && path[k + 1] == q[k - |p| + 2];
      }
    }
    assert IsPath(graph, path) && path[0] == a && path[|path| - 1] == c;
  }

  lemma FirstEdge(graph: Graph, a: string, b: string) returns (next: string)
    requires Reaches(graph, a, b)
    ensures Names(graph, a, next) && (next == b || Reaches(graph, next, b))
  {
    var p :| IsPath(graph, p) && p[0] == a && p[|p| - 1] == b;
    next := p[1];
    if next != b {
      assert IsPath(graph, p[1..]) && p[1..][0] == next && p[1..][|p| - 2] == b;
    }
  }

  // A set that holds what `a` names, and what its own members name, holds all `a` reaches.
  lemma {:induction false} ClosedHoldsReached(graph: Graph, a: string, closed: set<string>, path: seq<string>)
    requires forall b :: Names(graph, a, b) ==> b in closed
    requires forall b, c :: b in closed && Names(graph, b, c) ==> c in closed
    requires IsPath(graph, path) && path[0] == a
    ensures path[|path| - 1] in closed
    decreases |path|
  {
    assert Names(graph, path[0], path[1]);
    if |path| > 2 {
      var shorter := path[..|path| - 1];
      assert IsPath(graph, shorter);
      ClosedHoldsReached(graph, a, closed, shorter);
      assert Names(graph, path[|path| - 2], path[|path| - 1]);
    }
  }

  // ---------- The memoised walk ----------

  datatype Explored = Explored(reach: Table, out: set<string>)

  function Flag(b: bool): nat { if b then 1 else 0 }

  /** One memoised visit: what is already known, or the direct references and what each of them yields. */
  function Explore(graph: Graph, reach: Table, name: string, seen: set<string>): Explored
    decreases |Nodes(graph) - seen|, Flag(name in seen), |Out(graph, name)| + 1
  {
    if name in reach then Explored(reach, reach[name])
    else
      var each := ExploreEach(graph, reach, name, seen, Out(graph, name), Elements(Out(graph, name)));
      Explored(each.reach[name := each.out], each.out)
  }

  function ExploreEach(graph: Graph, reach: Table, name: string, seen: set<string>, todo: seq<string>,
          out: set<string>):
    Explored
    requires forall k :: 0 <= k < |todo| ==> Names(graph, name, todo[k])
    decreases |Nodes(graph) - seen|, Flag(name in seen), |todo|
  {
    if todo == [] then Explored(reach, out)
    else if todo[0] in seen then ExploreEach(graph, reach, name, seen, todo[1..], out)
    else
      assert Names(graph, name, todo[0]);
      VisitShrinks(graph, name, seen);
      var one := Explore(graph, reach, todo[0], seen + {name});
      ExploreEach(graph, one.reach, name, seen, todo[1..], out + one.out)
  }

  lemma VisitShrinks(graph: Graph, name: string, seen: set<string>)
    requires name in graph
    ensures name in seen ==> seen + {name} == seen
    ensures name !in seen ==> |Nodes(graph) - (seen + {name})| < |Nodes(graph) - seen|
  {
    if name in seen {
      assert seen + {name} == seen;
    } else {
      assert Nodes(graph) - (seen + {name}) == (Nodes(graph) - seen) - {name};
      assert name in Nodes(graph) - seen;
    }
  }

  /** Every memoised answer names only reached rules, and is the whole closure where no cycle is reached. */
  ghost predicate Truthful(graph: Graph, reach: Table) {
    forall n :: n in reach ==> Answers(graph, n, reach[n])
  }

  ghost predicate Answers(graph: Graph, n: string, out: set<string>) {
    && (forall b :: b in out ==> Reaches(graph, n, b))
    && (!ReachesCycle(graph, n) ==> forall b :: Reaches(graph, n, b) ==> b in out)
  }

  // What a visit of `name` has gathered once the references before `todo` are done.
  ghost predicate Gathered(graph: Graph, name: string, todo: seq<string>, out: set<string>) {
    && (forall b :: b in out ==> Reaches(graph, name, b))
    && (forall b :: Names(graph, name, b) ==> b in out)
    && (!ReachesCycle(graph, name) ==>
          forall a, b :: Names(graph, name, a) && a !in todo && Reaches(graph, a, b) ==> b in out)
  }

  ghost predicate Ancestors(graph: Graph, seen: set<string>, name: string) {
    forall s :: s in seen ==> Reaches(graph, s, name)
  }

  /** The memo stays truthful whatever the visits before, and the answer is as good as the memo's. */
  lemma {:induction false} ExploreIsTruthful(graph: Graph, reach: Table, name: string, seen: set<string>)
    requires Truthful(graph, reach) && Ancestors(graph, seen, name)
    ensures var e := Explore(graph, reach, name, seen);
            Truthful(graph, e.reach) && name in e.reach && e.reach[name] == e.out && reach.Keys <= e.reach.Keys
    decreases |Nodes(graph) - seen|, Flag(name in seen), |Out(graph, name)| + 1
  {
    if name !in reach {
      var todo := Out(graph, name);
      var out := Elements(todo);
      forall b | b in out ensures Reaches(graph, name, b) {
        EdgeReaches(graph, name, b);
      }
      assert Gathered(graph, name, todo, out);
      ExploreEachIsTruthful(graph, reach, name, seen, todo, out);
      var each := ExploreEach(graph, reach, name, seen, todo, out);
      GatheredAnswers(graph, name, each.out);
    }
  }

  lemma GatheredAnswers(graph: Graph, name: string, out: set<string>)
    requires Gathered(graph, name, [], out)
    ensures Answers(graph, name, out)
  {
    if !ReachesCycle(graph, name) {
      forall b | Reaches(graph, name, b) ensures b in out {
        var a := FirstEdge(graph, name, b);
      }
    }
  }

  lemma {:induction false} ExploreEachIsTruthful(
    graph: Graph, reach: Table, name: string, seen: set<string>, todo: seq<string>, out: set<string>)
    requires Truthful(graph, reach) && Ancestors(graph, seen, name)
    requires forall k :: 0 <= k < |todo| ==> Names(graph, name, todo[k])
    requires Gathered(graph, name, todo, out)
    ensures var e := ExploreEach(graph, reach, name, seen, todo, out);
            Truthful(graph, e.reach) && Gathered(graph, name, [], e.out) && reach.Keys <= e.reach.Keys
    decreases |Nodes(graph) - seen|, Flag(name in seen), |todo|
  {
    if todo != [] {
      var next := todo[0];
      assert Names(graph, name, next);
      if next in seen {
        BackEdgeCloses(graph, name, next);
        assert Gathered(graph, name, todo[1..], out);
        ExploreEachIsTruthful(graph, reach, name, seen, todo[1..], out);
      } else {
        VisitShrinks(graph, name, seen);
        AncestorsOn(graph, seen, name, next);
        ExploreIsTruthful(graph, reach, next, seen + {name});
        var one := Explore(graph, reach, next, seen + {name});
        GatherOne(graph, name, todo, out, one.out);
        ExploreEachIsTruthful(graph, one.reach, name, seen, todo[1..], out + one.out);
      }
    }
  }

  // A reference back to an ancestor means the rule is on a cycle.
  lemma BackEdgeCloses(graph: Graph, name: string, next: string)
    requires Names(graph, name, next) && Reaches(graph, next, name)
    ensures ReachesCycle(graph, name)
  {
    EdgeReaches(graph, name, next);
    ReachesOn(graph, name, next, name);
  }

  lemma AncestorsOn(graph: Graph, seen: set<string>, name: string, next: string)
    requires Ancestors(graph, seen, name) && Names(graph, name, next)
    ensures Ancestors(graph, seen + {name}, next)
  {
    EdgeReaches(graph, name, next);
    forall s | s in seen ensures Reaches(graph, s, next) {
      ReachesOn(graph, s, name, next);
    }
  }

  lemma GatherOne(graph: Graph, name: string, todo: seq<string>, out: set<string>, more: set<string>)
    requires todo != [] && Names(graph, name, todo[0])
    requires Gathered(graph, name, todo, out) && Answers(graph, todo[0], more)
    ensures Gathered(graph, name, todo[1..], out + more)
  {
    EdgeReaches(graph, name, todo[0]);
    forall b | b in more ensures Reaches(graph, name, b) {
      ReachesOn(graph, name, todo[0], b);
    }
    if !ReachesCycle(graph, name) {
      if ReachesCycle(graph, todo[0]) {
        var c :| (c == todo[0] || Reaches(graph, todo[0], c)) && Reaches(graph, c, c);
        if c != todo[0] {
          ReachesOn(graph, name, todo[0], c);
        }
      }
    }
  }

  /** The reduce analysis's reach table, filled rule by rule. */
  function ReachMap(graph: Graph, names: seq<string>, reach: Table): Table
    decreases |names|
  {
    if names == [] then reach
    else ReachMap(graph, names[1..], Explore(graph, reach, names[0], {}).reach)
  }

  /** Whatever the order of the rules: no unreachable rule is named, and off the cycles the closure is exact. */
  lemma {:induction false} ReachMapIsTruthful(graph: Graph, names: seq<string>, reach: Table)
    requires Truthful(graph, reach)
    ensures Truthful(graph, ReachMap(graph, names, reach))
    ensures reach.Keys + Elements(names) <= ReachMap(graph, names, reach).Keys
    decreases |names|
  {
    if names != [] {
      ExploreIsTruthful(graph, reach, names[0], {});
      ReachMapIsTruthful(graph, names[1..], Explore(graph, reach, names[0], {}).reach);
      forall n | n in Elements(names) ensures n == names[0] || n in Elements(names[1..]) {
        assert n in names;
      }
    }
  }

  lemma AcyclicReachMapIsExact(graph: Graph, names: seq<string>, n: string, b: string)
    requires Acyclic(graph) && n in names
    ensures var reach := ReachMap(graph, names, map[]);
            n in reach && (b in reach[n] <==> Reaches(graph, n, b))
  {
    ReachMapIsTruthful(graph, names, map[]);
    assert n in Elements(names);
    assert !ReachesCycle(graph, n);
  }

  /** The table the reduce analysis fills in place. */
  class ReachTable {
    const graph: Graph
    var reach: Table

    constructor (graph: Graph)
      ensures this.graph == graph && reach == map[]
    {
      this.graph := graph;
      reach := map[];
    }

    method Reachable(name: string, seen: set<string>) returns (out: set<string>)
      modifies this`reach
      ensures reach == Explore(graph, old(reach), name, seen).reach
      ensures out == Explore(graph, old(reach), name, seen).out
      decreases |Nodes(graph) - seen|, Flag(name in seen)
    {
      if name in reach {
        return reach[name];
      }
      var todo := Out(graph, name);
      out := Elements(todo);
      var k := 0;
      while k < |todo|
        invariant 0 <= k <= |todo| && todo == Out(graph, name)
        invariant forall j :: 0 <= j < |todo[k..]| ==> Names(graph, name, todo[k..][j])
        invariant ExploreEach(graph, reach, name, seen, todo[k..], out)
               == ExploreEach(graph, old(reach), name, seen, Out(graph, name), Elements(Out(graph, name)))
      {
        var next := todo[k];
        assert Names(graph, name, next);
        assert todo[k..][0] == next && todo[k..][1..] == todo[k + 1..];
        if next !in seen {
          VisitShrinks(graph, name, seen);
          var more := Reachable(next, seen + {name});
          out := out + more;
        }
        k := k + 1;
      }
      assert todo[k..] == [];
      reach := reach[name := out];
    }

    method FillAll(names: seq<string>)
      modifies this`reach
      ensures reach == ReachMap(graph, names, old(reach))
    {
      var k := 0;
      while k < |names|
        invariant 0 <= k <= |names|
        invariant ReachMap(graph, names[k..], reach) == ReachMap(graph, names, old(reach))
      {
        assert names[k..][0] == names[k] && names[k..][1..] == names[k + 1..];
        var out := Reachable(names[k], {});
        k := k + 1;
      }
      assert names[k..] == [];
    }
  }

  // ---------- The memo inside a cycle ----------

  const RING: Graph := map["A" := ["B", "D"], "B" := ["C"], "C" := ["A"], "D" := []]

  // One visit or one reference of a visit, unfolded once.
  lemma Visit(graph: Graph, reach: Table, name: string, seen: set<string>)
    requires name !in reach
    ensures Explore(graph, reach, name, seen)
         == var e := ExploreEach(graph, reach, name, seen, Out(graph, name), Elements(Out(graph, name)));
            Explored(e.reach[name := e.out], e.out)
  {
  }

  lemma Skip(graph: Graph, reach: Table, name: string, seen: set<string>, todo: seq<string>, rest: seq<string>,
          out: set<string>)
    requires forall k :: 0 <= k < |todo| ==> Names(graph, name, todo[k])
    requires todo != [] && todo[1..] == rest && todo[0] in seen
    ensures ExploreEach(graph, reach, name, seen, todo, out) == ExploreEach(graph, reach, name, seen, rest, out)
  {
  }

  lemma Follow(graph: Graph, reach: Table, name: string, seen: set<string>, todo: seq<string>, rest: seq<string>,
          out: set<string>)
    requires forall k :: 0 <= k < |todo| ==> Names(graph, name, todo[k])
    requires todo != [] && todo[1..] == rest && todo[0] !in seen
    ensures var one := Explore(graph, reach, todo[0], seen + {name});
            ExploreEach(graph, reach, name, seen, todo, out)
            == ExploreEach(graph, one.reach, name, seen, rest, out + one.out)
  {
  }

  lemma Done(graph: Graph, reach: Table, name: string, seen: set<string>, out: set<string>)
    ensures ExploreEach(graph, reach, name, seen, [], out) == Explored(reach, out)
  {
  }

  lemma SetOfOne(a: string)
    ensures Elements([]) == {} && Elements([a]) == {a}
  {
  }

  lemma SetOfTwo(a: string, b: string)
    ensures Elements([a, b]) == {a, b}
  {
  }

  lemma RingIs()
    ensures Out(RING, "A") == ["B", "D"] && Out(RING, "B") == ["C"] && Out(RING, "C") == ["A"] && Out(RING, "D") == []
    ensures Names(RING, "A", "B") && Names(RING, "A", "D") && Names(RING, "B", "C") && Names(RING, "C", "A")
  {
  }

  // With A and B under way, C stops at A.
  lemma VisitC(seen: set<string>)
    requires seen == {"A", "B"}
    ensures Explore(RING, map[], "C", seen) == Explored(map["C" := {"A"}], {"A"})
  {
    hide *;
    RingIs();
    SetOfOne("A");
    Visit(RING, map[], "C", seen);
    Skip(RING, map[], "C", seen, ["A"], [], {"A"});
    Done(RING, map[], "C", seen, {"A"});
  }

  lemma VisitB(seen: set<string>)
    requires seen == {"A"}
    ensures Explore(RING, map[], "B", seen).reach == map["C" := {"A"}]["B" := {"C"} + {"A"}]
  {
    hide *;
    RingIs();
    SetOfOne("C");
    Visit(RING, map[], "B", seen);
    VisitC({"A"} + {"B"});
    Follow(RING, map[], "B", seen, ["C"], [], {"C"});
    Done(RING, map["C" := {"A"}], "B", seen, {"C"} + {"A"});
  }

  /** Whatever else A's visit finds, C keeps the answer it got on the way. */
  lemma VisitA()
    ensures var reach := Explore(RING, map[], "A", {}).reach;
            reach.Keys == {"A", "B", "C", "D"} && reach["C"] == {"A"}
  {
    hide *;
    RingIs();
    SetOfTwo("B", "D");
    Visit(RING, map[], "A", {});
    VisitB({} + {"A"});
    Follow(RING, map[], "A", {}, ["B", "D"], ["D"], {"B", "D"});
    var b := Explore(RING, map[], "B", {"A"});
    var out := {"B", "D"} + b.out;
    Follow(RING, b.reach, "A", {}, ["D"], [], out);
    Visit(RING, b.reach, "D", {} + {"A"});
    Done(RING, b.reach, "D", {} + {"A"}, Elements([]));
    var d := Explore(RING, b.reach, "D", {} + {"A"});
    Done(RING, d.reach, "A", {}, out + d.out);
  }

  /** A rule on a cycle can be left with a partial answer: C reaches D, and the table does not say so. */
  lemma CycleLeavesPartialAnswer()
    ensures var reach := ReachMap(RING, ["A", "B", "C", "D"], map[]);
            "C" in reach && reach["C"] == {"A"} && Reaches(RING, "C", "D")
  {
    RingIs();
    EdgeReaches(RING, "C", "A");
    EdgeReaches(RING, "A", "D");
    ReachesOn(RING, "C", "A", "D");
    VisitA();
    hide Explore;
    var names := ["A", "B", "C", "D"];
    assert names[1..] == ["B", "C", "D"];
    MemoStays(RING, ["B", "C", "D"], Explore(RING, map[], "A", {}).reach);
  }

  lemma {:induction false} MemoStays(graph: Graph, names: seq<string>, reach: Table)
    requires forall k :: 0 <= k < |names| ==> names[k] in reach
    ensures ReachMap(graph, names, reach) == reach
    decreases |names|
  {
    if names != [] {
      MemoStays(graph, names[1..], reach);
    }
  }

  // ---------- The closure loop of the generator's shape ----------

  ghost predicate Sound(graph: Graph, reach: Table) {
    && reach.Keys == graph.Keys
    && (forall n :: n in reach ==> Elements(graph[n]) <= reach[n])
    && forall n, m :: n in reach && m in reach[n] ==> Reaches(graph, n, m)
  }

  /** What the rules `n` is known to reach are known to reach. */
  function Beyond(reach: Table, n: string): set<string>
    requires n in reach
  {
    set t, m | t in reach[n] && t in reach && m in reach[t] :: m
  }

  ghost function Missing(graph: Graph, reach: Table): set<(string, string)>
    requires reach.Keys == graph.Keys
  {
    set n, m | n in graph && m in Nodes(graph) && m !in reach[n] :: (n, m)
  }

  lemma ReachedIsNode(graph: Graph, a: string, b: string)
    requires Reaches(graph, a, b)
    ensures b in Nodes(graph)
  {
    var p :| IsPath(graph, p) && p[0] == a && p[|p| - 1] == b;
    assert Names(graph, p[|p| - 2], p[|p| - 2 + 1]);
  }

  lemma Widened(graph: Graph, reach: Table, n: string)
    requires Sound(graph, reach) && n in reach
    ensures var wider := reach[n := reach[n] + Beyond(reach, n)];
            && Sound(graph, wider)
            && (Beyond(reach, n) <= reach[n] ==> wider == reach)
            && (!(Beyond(reach, n) <= reach[n]) ==> Missing(graph, wider) < Missing(graph, reach))
  {
    var wider := reach[n := reach[n] + Beyond(reach, n)];
    forall m | m in Beyond(reach, n) ensures Reaches(graph, n, m) {
      var t :| t in reach[n] && t in reach && m in reach[t];
      ReachesOn(graph, n, t, m);
    }
    assert Sound(graph, wider);
    assert Missing(graph, wider) <= Missing(graph, reach);
    if Beyond(reach, n) <= reach[n] {
      assert reach[n] + Beyond(reach, n) == reach[n];
    } else {
      var m :| m in Beyond(reach, n) && m !in reach[n];
      ReachedIsNode(graph, n, m);
      assert (n, m) in Missing(graph, reach) && (n, m) !in Missing(graph, wider);
    }
  }

  lemma SettledIsExact(graph: Graph, reach: Table, n: string, b: string)
    requires Sound(graph, reach) && n in reach
    requires forall t :: t in reach ==> Beyond(reach, t) <= reach[t]
    ensures b in reach[n] <==> Reaches(graph, n, b)
  {
    if Reaches(graph, n, b) {
      var p :| IsPath(graph, p) && p[0] == n && p[|p| - 1] == b;
      forall c | Names(graph, n, c) ensures c in reach[n] {
        assert c in Elements(graph[n]);
      }
      forall c, d | c in reach[n] && Names(graph, c, d) ensures d in reach[n] {
        assert d in Elements(graph[c]);
        assert d in Beyond(reach, n);
      }
      ClosedHoldsReached(graph, n, reach[n], p);
    }
  }

  // What a pass has done once the first `k` rules are widened.
  ghost predicate Passed(graph: Graph, names: seq<string>, k: nat, before: Table, reach: Table, changed: bool) {
    && k <= |names| && Sound(graph, before) && Sound(graph, reach)
    && (changed ==> Missing(graph, reach) < Missing(graph, before))
    && (!changed ==> reach == before && forall j ::
          0 <= j < k ==> names[j] in reach && Beyond(reach, names[j]) <= reach[names[j]])
  }

  lemma PassedOneMore(graph: Graph, names: seq<string>, k: nat, before: Table, reach: Table, changed: bool)
    requires Passed(graph, names, k, before, reach, changed) && k < |names| && Elements(names) == graph.Keys
    ensures names[k] in reach
    ensures var n := names[k];
            var more := Beyond(reach, n) - reach[n];
            Passed(graph, names, k + 1, before, reach[n := reach[n] + more], changed || more != {})
  {
    var n := names[k];
    assert n in Elements(names);
    Widened(graph, reach, n);
    hide Sound, Missing, Beyond;
    assert reach[n] + (Beyond(reach, n) - reach[n]) == reach[n] + Beyond(reach, n);
  }

  ghost predicate Settled(reach: Table) {
    forall n :: n in reach ==> Beyond(reach, n) <= reach[n]
  }

  lemma PassedAll(graph: Graph, names: seq<string>, before: Table, reach: Table, changed: bool)
    requires Passed(graph, names, |names|, before, reach, changed) && Elements(names) == graph.Keys
    ensures Sound(graph, reach)
    ensures if changed then Missing(graph, reach) < Missing(graph, before) else reach == before && Settled(reach)
  {
    if !changed {
      forall n | n in reach ensures Beyond(reach, n) <= reach[n] {
        assert n in Elements(names);
      }
    }
  }

  lemma SettledIsClosure(graph: Graph, reach: Table)
    requires Sound(graph, reach) && Settled(reach)
    ensures reach.Keys == graph.Keys
    ensures forall n, b :: n in graph ==> (b in reach[n] <==> Reaches(graph, n, b))
  {
    forall n, b | n in graph ensures b in reach[n] <==> Reaches(graph, n, b) {
      SettledIsExact(graph, reach, n, b);
    }
  }

  lemma PassStarts(graph: Graph, names: seq<string>, reach: Table)
    requires Sound(graph, reach)
    ensures Passed(graph, names, 0, reach, reach, false)
  {
  }

  /** The whole reference relation, and the rules that reach a cycle. */
  method ShapeClosure(graph: Graph, names: seq<string>) returns (reach: Table, recursive: set<string>)
    requires Elements(names) == graph.Keys
    ensures reach.Keys == graph.Keys
    ensures forall n, b :: n in graph ==> (b in reach[n] <==> Reaches(graph, n, b))
    ensures forall n :: n in recursive <==> n in graph && exists c :: Reaches(graph, n, c) && Reaches(graph, c, c)
  {
    hide Passed, Settled, Beyond, Missing, Elements, Reaches;
    reach := map n | n in graph :: Elements(graph[n]);
    StartIsSound(graph, reach);
    var changed := true;
    while changed
      invariant Sound(graph, reach)
      invariant !changed ==> Settled(reach)
      decreases Missing(graph, reach), changed
    {
      changed := false;
      ghost var before := reach;
      PassStarts(graph, names, reach);
      for k := 0 to |names|
        invariant Passed(graph, names, k, before, reach, changed)
      {
        PassedOneMore(graph, names, k, before, reach, changed);
        var n := names[k];
        var more := Beyond(reach, n) - reach[n];
        reach := reach[n := reach[n] + more];
        changed := changed || more != {};
      }
      PassedAll(graph, names, before, reach, changed);
    }
    SettledIsClosure(graph, reach);
    var cyclic := set n | n in reach && n in reach[n];
    recursive := set n | n in reach && reach[n] * cyclic != {};
    RecursiveIs(graph, reach, cyclic, recursive);
  }

  lemma StartIsSound(graph: Graph, reach: Table)
    requires reach.Keys == graph.Keys && forall n :: n in graph ==> reach[n] == Elements(graph[n])
    ensures Sound(graph, reach)
  {
    forall n, m | n in reach && m in reach[n] ensures Reaches(graph, n, m) {
      EdgeReaches(graph, n, m);
    }
  }

  // Only a defined rule lies on a cycle.
  lemma RecursiveIs(graph: Graph, reach: Table, cyclic: set<string>, recursive: set<string>)
    requires reach.Keys == graph.Keys
    requires forall n, b :: n in graph ==> (b in reach[n] <==> Reaches(graph, n, b))
    requires forall n :: n in cyclic <==> n in reach && n in reach[n]
    requires forall n :: n in recursive <==> n in reach && reach[n] * cyclic != {}
    ensures forall n :: n in recursive <==> n in graph && exists c :: Reaches(graph, n, c) && Reaches(graph, c, c)
  {
    forall n ensures n in recursive <==> n in graph && exists c :: Reaches(graph, n, c) && Reaches(graph, c, c) {
      if n in recursive {
        var c :| c in reach[n] * cyclic;
        assert Reaches(graph, n, c) && Reaches(graph, c, c);
      }
      if n in graph && exists c :: Reaches(graph, n, c) && Reaches(graph, c, c) {
        var c :| Reaches(graph, n, c) && Reaches(graph, c, c);
        var next := FirstEdge(graph, c, c);
        assert c in graph && c in reach[n] && c in cyclic;
        assert c in reach[n] * cyclic;
      }
    }
  }
}
