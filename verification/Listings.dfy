/**
 The memoised reference walk over every order it may take: reference sets have no
 order, so what the reach table shows must not hang on one.
 */
module Listings {
  import opened Reachability

  // ---------- Orders ----------

  predicate NoneTwice(list: seq<string>) {
    forall i, k :: 0 <= i < k < |list| ==> list[i] != list[k]
  }

  /** The same references, in another order. */
  ghost predicate Relists(graph: Graph, listing: Graph) {
    && listing.Keys == graph.Keys
    && forall n :: n in graph ==> Elements(listing[n]) == Elements(graph[n]) && NoneTwice(listing[n])
  }

  /** All the rules, in some order. */
  ghost predicate Lists(graph: Graph, names: seq<string>) {
    NoneTwice(names) && Elements(names) == graph.Keys
  }

  ghost function Listed(names: set<string>): (r: seq<string>)
    ensures Elements(r) == names && NoneTwice(r)
  {
    if names == {} then []
    else
      var x :| x in names;
      var rest := Listed(names - {x});
      Cons(x, rest);
      [x] + rest
  }

  lemma Cons(x: string, rest: seq<string>)
    ensures Elements([x] + rest) == {x} + Elements(rest)
    ensures NoneTwice(rest) && x !in Elements(rest) ==> NoneTwice([x] + rest)
  {
    var all := [x] + rest;
    forall n | n in Elements(rest) ensures n in all {
      var k :| 0 <= k < |rest| && rest[k] == n;
      assert all[k + 1] == n;
    }
    assert all[0] == x;
    assert forall k :: 0 <= k < |rest| ==> rest[k] in Elements(rest);
  }

  // ---------- Reaching without going through ----------

  ghost predicate AvoidingPath(graph: Graph, avoid: set<string>, path: seq<string>) {
    IsPath(graph, path) && forall k :: 0 < k < |path| - 1 ==> path[k] !in avoid
  }

  /** A path leads from `a` to `b` with nothing to avoid on the way. */
  ghost predicate ReachesAvoiding(graph: Graph, avoid: set<string>, a: string, b: string) {
    exists path :: AvoidingPath(graph, avoid, path) && path[0] == a && path[|path| - 1] == b
  }

  ghost predicate Touches(graph: Graph, targets: set<string>, a: string) {
    exists t :: t in targets && Reaches(graph, a, t)
  }

  ghost predicate TouchesAvoiding(graph: Graph, avoid: set<string>, targets: set<string>, a: string) {
    exists t :: t in targets && ReachesAvoiding(graph, avoid, a, t)
  }

  lemma EdgeAvoids(graph: Graph, avoid: set<string>, a: string, b: string)
    requires Names(graph, a, b)
    ensures ReachesAvoiding(graph, avoid, a, b)
  {
    var path := [a, b];
    assert AvoidingPath(graph, avoid, path) && path[0] == a && path[|path| - 1] == b;
  }

  lemma EdgeThenAvoids(graph: Graph, avoid: set<string>, a: string, c: string, b: string)
    requires Names(graph, a, c) && c !in avoid && ReachesAvoiding(graph, avoid, c, b)
    ensures ReachesAvoiding(graph, avoid, a, b)
  {
    var p :| AvoidingPath(graph, avoid, p) && p[0] == c && p[|p| - 1] == b;
    var path := [a] + p;
    forall k | 0 <= k < |path| - 1 ensures Names(graph, path[k], path[k + 1]) {
      assert path[k + 1] == p[k] && (k > 0 ==> path[k] == p[k - 1]);
    }
    forall k | 0 < k < |path| - 1 ensures path[k] !in avoid {
      assert path[k] == p[k - 1];
    }
    assert AvoidingPath(graph, avoid, path) && path[0] == a && path[|path| - 1] == b;
  }

  // The first step of such a path, taken where it last leaves `a`.
  lemma {:induction false} FirstStepAvoiding(graph: Graph, avoid: set<string>, path: seq<string>) returns (next: string)
    requires AvoidingPath(graph, avoid, path)
    ensures Names(graph, path[0], next)
    ensures next == path[|path| - 1]
         || (next !in avoid && next != path[0] && Reaches(graph, next, path[|path| - 1]))
    decreases |path|
  {
    next := path[1];
    assert Names(graph, path[0], path[1]);
    if |path| > 2 {
      var tail := path[1..];
      assert IsPath(graph, tail) by {
        forall k | 0 <= k < |tail| - 1 ensures Names(graph, tail[k], tail[k + 1]) {
          assert Names(graph, path[k + 1], path[k + 1 + 1]);
        }
      }
      assert tail[0] == next && tail[|tail| - 1] == path[|path| - 1];
      if next == path[0] {
        assert AvoidingPath(graph, avoid, tail);
        next := FirstStepAvoiding(graph, avoid, tail);
      }
    }
  }

  // ---------- What every order shows ----------

  /** Rules under way, each naming the next, none twice. */
  ghost predicate IsStack(graph: Graph, path: seq<string>) {
    path != [] && NoneTwice(path) && forall k :: 0 <= k < |path| - 1 ==> Names(graph, path[k], path[k + 1])
  }

  /** The rule's entry should show a target: it reaches one, and is none itself unless `own` says that counts. */
  ghost predicate Owes(graph: Graph, targets: set<string>, own: bool, n: string) {
    (own || n !in targets) && Touches(graph, targets, n)
  }

  /** However a walk comes to a rule, the rules under way never stand between it and every target it reaches. */
  ghost predicate Unbroken(graph: Graph, targets: set<string>, own: bool) {
    forall path :: IsStack(graph, path) && Owes(graph, targets, own, path[|path| - 1]) ==>
      TouchesAvoiding(graph, Elements(path[..|path| - 1]), targets, path[|path| - 1])
  }

  ghost predicate Shows(out: set<string>, targets: set<string>) {
    exists t :: t in targets && t in out
  }

  /** Every entry that owes a target shows one. */
  ghost predicate ShowsAll(graph: Graph, targets: set<string>, own: bool, reach: Table) {
    forall n :: n in reach && Owes(graph, targets, own, n) ==> Shows(reach[n], targets)
  }

  // ---------- Unbroken is enough ----------

  ghost predicate Coming(graph: Graph, stack: seq<string>, name: string, seen: set<string>) {
    && seen == Elements(stack)
    && (stack == [] || (IsStack(graph, stack) && Names(graph, stack[|stack| - 1], name)))
    && (name in stack ==> name == stack[|stack| - 1])
  }

  // The stack with the rule itself on top.
  function Under(stack: seq<string>, name: string): seq<string> {
    if name in stack then stack else stack + [name]
  }

  lemma UnderIsStack(graph: Graph, stack: seq<string>, name: string, seen: set<string>)
    requires Coming(graph, stack, name, seen)
    ensures IsStack(graph, Under(stack, name)) && Under(stack, name)[|Under(stack, name)| - 1] == name
    ensures Elements(Under(stack, name)) == seen + {name}
    ensures Elements(Under(stack, name)[..|Under(stack, name)| - 1]) + {name} == seen + {name}
  {
    var path := Under(stack, name);
    if name !in stack {
      assert path[..|path| - 1] == stack;
      forall k | 0 <= k < |path| - 1 ensures Names(graph, path[k], path[k + 1]) {
        assert path[k] == stack[k];
      }
      assert path[|stack|] == name;
      forall n | n in Elements(stack) ensures n in path {
        var k :| 0 <= k < |stack| && stack[k] == n;
        assert path[k] == n;
      }
    } else {
      forall n | n in Elements(stack) ensures n in Elements(path[..|path| - 1]) + {name} {
        var k :| 0 <= k < |stack| && stack[k] == n;
        assert k < |path| - 1 ==> path[..|path| - 1][k] == n;
      }
    }
  }

  // References done so far show what they owe.
  ghost predicate DoneShow(graph: Graph, targets: set<string>, own: bool, name: string, seen: set<string>,
          todo: seq<string>, out: set<string>) {
    && Elements(Out(graph, name)) <= out
    && forall c :: Names(graph, name, c) && c !in seen && c !in todo && Owes(graph, targets, own, c) ==> Shows(out, targets)
  }

  lemma {:induction false} ExploreShows(graph: Graph, targets: set<string>, own: bool, reach: Table, name: string,
          stack: seq<string>, seen: set<string>)
    requires Unbroken(graph, targets, own) && ShowsAll(graph, targets, own, reach) && Coming(graph, stack, name, seen)
    ensures var e := Explore(graph, reach, name, seen);
            ShowsAll(graph, targets, own, e.reach) && (Owes(graph, targets, own, name) ==> Shows(e.out, targets))
    decreases |Nodes(graph) - seen|, Flag(name in seen), |Out(graph, name)| + 1
  {
    if name !in reach {
      var todo := Out(graph, name);
      assert DoneShow(graph, targets, own, name, seen, todo, Elements(todo));
      ExploreEachShows(graph, targets, own, reach, name, stack, seen, todo, Elements(todo));
      var each := ExploreEach(graph, reach, name, seen, todo, Elements(todo));
      AllDoneShow(graph, targets, own, name, stack, seen, each.out);
    }
  }

  lemma AllDoneShow(graph: Graph, targets: set<string>, own: bool, name: string, stack: seq<string>,
          seen: set<string>, out: set<string>)
    requires Unbroken(graph, targets, own) && Coming(graph, stack, name, seen)
    requires DoneShow(graph, targets, own, name, seen, [], out)
    ensures Owes(graph, targets, own, name) ==> Shows(out, targets)
  {
    if Owes(graph, targets, own, name) {
      UnderIsStack(graph, stack, name, seen);
      var path := Under(stack, name);
      var avoid := Elements(path[..|path| - 1]);
      assert TouchesAvoiding(graph, avoid, targets, name);
      var t :| t in targets && ReachesAvoiding(graph, avoid, name, t);
      var p :| AvoidingPath(graph, avoid, p) && p[0] == name && p[|p| - 1] == t;
      var c := FirstStepAvoiding(graph, avoid, p);
      assert c in Elements(Out(graph, name));
      if c !in targets {
        assert c !in seen && Touches(graph, targets, c);
        assert Owes(graph, targets, own, c);
      }
    }
  }

  lemma {:induction false} ExploreEachShows(graph: Graph, targets: set<string>, own: bool, reach: Table, name: string,
          stack: seq<string>, seen: set<string>, todo: seq<string>, out: set<string>)
    requires Unbroken(graph, targets, own) && ShowsAll(graph, targets, own, reach) && Coming(graph, stack, name, seen)
    requires forall k :: 0 <= k < |todo| ==> Names(graph, name, todo[k])
    requires DoneShow(graph, targets, own, name, seen, todo, out)
    ensures var e := ExploreEach(graph, reach, name, seen, todo, out);
            ShowsAll(graph, targets, own, e.reach) && DoneShow(graph, targets, own, name, seen, [], e.out)
    decreases |Nodes(graph) - seen|, Flag(name in seen), |todo|
  {
    hide Owes, Shows, DoneShow, Coming, Unbroken, ShowsAll, Under;
    if todo != [] {
      var next := todo[0];
      assert Names(graph, name, next);
      if next in seen {
        SkippedShows(graph, targets, own, name, seen, todo, out);
        ExploreEachShows(graph, targets, own, reach, name, stack, seen, todo[1..], out);
      } else {
        VisitShrinks(graph, name, seen);
        ComingOn(graph, stack, name, seen, next);
        ExploreShows(graph, targets, own, reach, next, Under(stack, name), seen + {name});
        var one := Explore(graph, reach, next, seen + {name});
        OneMoreShows(graph, targets, own, name, seen, todo, out, one.out);
        ExploreEachShows(graph, targets, own, one.reach, name, stack, seen, todo[1..], out + one.out);
      }
    }
  }

  lemma ComingOn(graph: Graph, stack: seq<string>, name: string, seen: set<string>, next: string)
    requires Coming(graph, stack, name, seen) && Names(graph, name, next) && next !in seen
    ensures Coming(graph, Under(stack, name), next, seen + {name})
  {
    UnderIsStack(graph, stack, name, seen);
    hide Under;
    assert next in Under(stack, name) ==> next in Elements(Under(stack, name));
  }

  lemma SkippedShows(graph: Graph, targets: set<string>, own: bool, name: string, seen: set<string>,
          todo: seq<string>, out: set<string>)
    requires todo != [] && todo[0] in seen && DoneShow(graph, targets, own, name, seen, todo, out)
    ensures DoneShow(graph, targets, own, name, seen, todo[1..], out)
  {
    assert todo == [todo[0]] + todo[1..];
  }

  lemma OneMoreShows(graph: Graph, targets: set<string>, own: bool, name: string, seen: set<string>,
          todo: seq<string>, out: set<string>, more: set<string>)
    requires todo != [] && DoneShow(graph, targets, own, name, seen, todo, out)
    requires Owes(graph, targets, own, todo[0]) ==> Shows(more, targets)
    ensures DoneShow(graph, targets, own, name, seen, todo[1..], out + more)
  {
    assert todo == [todo[0]] + todo[1..];
    assert Shows(out, targets) || Shows(more, targets) ==> Shows(out + more, targets);
  }

  lemma {:induction false} ReachMapShows(graph: Graph, targets: set<string>, own: bool, names: seq<string>, reach: Table)
    requires Unbroken(graph, targets, own) && ShowsAll(graph, targets, own, reach)
    ensures ShowsAll(graph, targets, own, ReachMap(graph, names, reach))
    decreases |names|
  {
    if names != [] {
      assert Coming(graph, [], names[0], {});
      ExploreShows(graph, targets, own, reach, names[0], [], {});
      ReachMapShows(graph, targets, own, names[1..], Explore(graph, reach, names[0], {}).reach);
    }
  }

  // ---------- Unbroken is needed ----------

  /** Every entry names only what its rule reaches without going through `avoid`. */
  ghost predicate Confined(graph: Graph, avoid: set<string>, reach: Table) {
    forall n, b :: n in reach && b in reach[n] ==> ReachesAvoiding(graph, avoid, n, b)
  }

  lemma {:induction false} ExploreIsConfined(graph: Graph, avoid: set<string>, reach: Table, name: string, seen: set<string>)
    requires avoid <= seen && Confined(graph, avoid, reach)
    ensures var e := Explore(graph, reach, name, seen);
            Confined(graph, avoid, e.reach) && forall b :: b in e.out ==> ReachesAvoiding(graph, avoid, name, b)
    decreases |Nodes(graph) - seen|, Flag(name in seen), |Out(graph, name)| + 1
  {
    if name !in reach {
      var todo := Out(graph, name);
      forall b | b in Elements(todo) ensures ReachesAvoiding(graph, avoid, name, b) {
        EdgeAvoids(graph, avoid, name, b);
      }
      ExploreEachIsConfined(graph, avoid, reach, name, seen, todo, Elements(todo));
    }
  }

  lemma {:induction false} ExploreEachIsConfined(graph: Graph, avoid: set<string>, reach: Table, name: string,
          seen: set<string>, todo: seq<string>, out: set<string>)
    requires avoid <= seen && Confined(graph, avoid, reach)
    requires forall k :: 0 <= k < |todo| ==> Names(graph, name, todo[k])
    requires forall b :: b in out ==> ReachesAvoiding(graph, avoid, name, b)
    ensures var e := ExploreEach(graph, reach, name, seen, todo, out);
            Confined(graph, avoid, e.reach) && forall b :: b in e.out ==> ReachesAvoiding(graph, avoid, name, b)
    decreases |Nodes(graph) - seen|, Flag(name in seen), |todo|
  {
    if todo != [] {
      assert Names(graph, name, todo[0]);
      if todo[0] in seen {
        ExploreEachIsConfined(graph, avoid, reach, name, seen, todo[1..], out);
      } else {
        VisitShrinks(graph, name, seen);
        ExploreIsConfined(graph, avoid, reach, todo[0], seen + {name});
        var one := Explore(graph, reach, todo[0], seen + {name});
        forall b | b in one.out ensures ReachesAvoiding(graph, avoid, name, b) {
          EdgeThenAvoids(graph, avoid, name, todo[0], b);
        }
        ExploreEachIsConfined(graph, avoid, one.reach, name, seen, todo[1..], out + one.out);
      }
    }
  }

  ghost predicate KeepsEntries(before: Table, after: Table) {
    forall n :: n in before ==> n in after && after[n] == before[n]
  }

  lemma {:induction false} ExploreKeeps(graph: Graph, reach: Table, name: string, seen: set<string>)
    ensures var e := Explore(graph, reach, name, seen);
            KeepsEntries(reach, e.reach) && name in e.reach && e.reach[name] == e.out
    decreases |Nodes(graph) - seen|, Flag(name in seen), |Out(graph, name)| + 1
  {
    if name !in reach {
      ExploreEachKeeps(graph, reach, name, seen, Out(graph, name), Elements(Out(graph, name)));
    }
  }

  lemma {:induction false} ExploreEachKeeps(graph: Graph, reach: Table, name: string, seen: set<string>,
          todo: seq<string>, out: set<string>)
    requires forall k :: 0 <= k < |todo| ==> Names(graph, name, todo[k])
    ensures KeepsEntries(reach, ExploreEach(graph, reach, name, seen, todo, out).reach)
    decreases |Nodes(graph) - seen|, Flag(name in seen), |todo|
  {
    if todo != [] {
      assert Names(graph, name, todo[0]);
      if todo[0] in seen {
        ExploreEachKeeps(graph, reach, name, seen, todo[1..], out);
      } else {
        VisitShrinks(graph, name, seen);
        ExploreKeeps(graph, reach, todo[0], seen + {name});
        var one := Explore(graph, reach, todo[0], seen + {name});
        ExploreEachKeeps(graph, one.reach, name, seen, todo[1..], out + one.out);
      }
    }
  }

  lemma {:induction false} ReachMapKeeps(graph: Graph, names: seq<string>, reach: Table)
    ensures KeepsEntries(reach, ReachMap(graph, names, reach))
    decreases |names|
  {
    if names != [] {
      ExploreKeeps(graph, reach, names[0], {});
      ReachMapKeeps(graph, names[1..], Explore(graph, reach, names[0], {}).reach);
    }
  }

  /** Each rule on the path lists the next one first. */
  ghost predicate LeadsAlong(graph: Graph, path: seq<string>) {
    forall k :: 0 <= k < |path| - 1 ==> Out(graph, path[k]) != [] && Out(graph, path[k])[0] == path[k + 1]
  }

  // Walking down the path first, its end is met with all the others under way.
  lemma {:induction false} EndIsConfined(graph: Graph, path: seq<string>, i: nat)
    requires IsStack(graph, path) && LeadsAlong(graph, path) && i < |path|
    ensures var e := Explore(graph, map[], path[i], Elements(path[..i]));
            var end := path[|path| - 1];
            end in e.reach
            && forall b :: b in e.reach[end] ==> ReachesAvoiding(graph, Elements(path[..|path| - 1]), end, b)
    decreases |path| - i
  {
    var seen := Elements(path[..i]);
    var avoid := Elements(path[..|path| - 1]);
    var end := path[|path| - 1];
    if i == |path| - 1 {
      ExploreIsConfined(graph, avoid, map[], end, seen);
      ExploreKeeps(graph, map[], end, seen);
    } else {
      var todo := Out(graph, path[i]);
      var next := path[i + 1];
      assert todo[0] == next;
      assert path[..i + 1] == path[..i] + [path[i]];
      assert next !in seen by { LaterIsNotBefore(path, i, i + 1); }
      assert Elements(path[..i + 1]) == seen + {path[i]};
      EndIsConfined(graph, path, i + 1);
      VisitFirst(graph, path[i], seen, next);
      assert end != path[i];
    }
  }

  lemma LaterIsNotBefore(path: seq<string>, i: nat, k: nat)
    requires NoneTwice(path) && i <= k < |path|
    ensures path[k] !in Elements(path[..i])
  {
  }

  // The first reference of a first visit fills the memo, and what it fills stays, but for the visit's own entry.
  lemma VisitFirst(graph: Graph, name: string, seen: set<string>, next: string)
    requires Out(graph, name) != [] && Out(graph, name)[0] == next && next !in seen
    ensures var one := Explore(graph, map[], next, seen + {name});
            var e := Explore(graph, map[], name, seen);
            forall n :: n in one.reach && n != name ==> n in e.reach && e.reach[n] == one.reach[n]
  {
    var todo := Out(graph, name);
    forall k | 0 <= k < |todo| ensures Names(graph, name, todo[k]) {
    }
    var out := Elements(todo);
    var one := Explore(graph, map[], next, seen + {name});
    ExploreEachKeeps(graph, one.reach, name, seen, todo[1..], out + one.out);
    assert ExploreEach(graph, map[], name, seen, todo, out)
        == ExploreEach(graph, one.reach, name, seen, todo[1..], out + one.out);
  }

  ghost function Following(path: seq<string>, n: string): string
    requires path != [] && n in path[..|path| - 1]
  {
    var k :| 0 <= k < |path| - 1 && path[k] == n;
    path[k + 1]
  }

  /** The references relisted so that a walk goes down the path first. */
  ghost function Along(graph: Graph, path: seq<string>): Graph
    requires path != []
  {
    map n | n in graph ::
      if n in path[..|path| - 1] then [Following(path, n)] + Listed(Elements(graph[n]) - {Following(path, n)})
      else Listed(Elements(graph[n]))
  }

  lemma AlongLeads(graph: Graph, path: seq<string>)
    requires IsStack(graph, path)
    ensures Relists(graph, Along(graph, path)) && LeadsAlong(Along(graph, path), path)
  {
    var along := Along(graph, path);
    forall k | 0 <= k < |path| - 1
      ensures Following(path, path[k]) == path[k + 1] && path[k] in graph && path[k] in path[..|path| - 1]
    {
      assert path[..|path| - 1][k] == path[k] && Names(graph, path[k], path[k + 1]);
    }
    forall n | n in graph ensures Elements(along[n]) == Elements(graph[n]) && NoneTwice(along[n]) {
      if n in path[..|path| - 1] {
        var k :| 0 <= k < |path| - 1 && path[..|path| - 1][k] == n;
        var next := Following(path, n);
        assert path[k] == n && next == path[k + 1] && Names(graph, n, next);
        FrontListed(Elements(graph[n]), next);
      }
    }
  }

  lemma FrontListed(names: set<string>, x: string)
    requires x in names
    ensures Elements([x] + Listed(names - {x})) == names && NoneTwice([x] + Listed(names - {x}))
  {
    Cons(x, Listed(names - {x}));
  }

  // ---------- Another order names the same ----------

  lemma RelistedNames(graph: Graph, listing: Graph)
    requires Relists(graph, listing)
    ensures forall a, b :: Names(listing, a, b) <==> Names(graph, a, b)
  {
    forall a, b ensures Names(listing, a, b) <==> Names(graph, a, b) {
      if a in graph {
        assert b in Elements(listing[a]) <==> b in Elements(graph[a]);
      }
    }
  }

  lemma SameNamesReach(graph: Graph, listing: Graph, avoid: set<string>, a: string, b: string)
    requires forall a, b :: Names(listing, a, b) <==> Names(graph, a, b)
    ensures Reaches(listing, a, b) <==> Reaches(graph, a, b)
    ensures ReachesAvoiding(listing, avoid, a, b) <==> ReachesAvoiding(graph, avoid, a, b)
  {
    assert forall path :: IsPath(listing, path) <==> IsPath(graph, path);
    assert forall path :: AvoidingPath(listing, avoid, path) <==> AvoidingPath(graph, avoid, path);
  }

  lemma SameNamesOwe(graph: Graph, listing: Graph, targets: set<string>, own: bool, n: string)
    requires forall a, b :: Names(listing, a, b) <==> Names(graph, a, b)
    ensures Owes(listing, targets, own, n) <==> Owes(graph, targets, own, n)
  {
    forall t ensures Reaches(listing, n, t) <==> Reaches(graph, n, t) {
      SameNamesReach(graph, listing, {}, n, t);
    }
  }

  lemma RelistedUnbroken(graph: Graph, listing: Graph, targets: set<string>, own: bool)
    requires Relists(graph, listing) && Unbroken(graph, targets, own)
    ensures Unbroken(listing, targets, own)
  {
    RelistedNames(graph, listing);
    forall path | IsStack(listing, path) && Owes(listing, targets, own, path[|path| - 1])
      ensures TouchesAvoiding(listing, Elements(path[..|path| - 1]), targets, path[|path| - 1])
    {
      var end := path[|path| - 1];
      var avoid := Elements(path[..|path| - 1]);
      SameNamesOwe(graph, listing, targets, own, end);
      assert IsStack(graph, path);
      assert TouchesAvoiding(graph, avoid, targets, end);
      var t :| t in targets && ReachesAvoiding(graph, avoid, end, t);
      SameNamesReach(graph, listing, avoid, end, t);
    }
  }

  // ---------- The theorem ----------

  /** The table the walk fills in one order. */
  ghost predicate IsTable(graph: Graph, reach: Table) {
    exists listing, names :: Relists(graph, listing) && Lists(graph, names) && reach == ReachMap(listing, names, map[])
  }

  lemma StackStarts(graph: Graph, path: seq<string>)
    requires IsStack(graph, path) && path[|path| - 1] in graph
    ensures path[0] in graph
  {
    if |path| > 1 {
      assert Names(graph, path[0], path[0 + 1]);
    }
  }

  lemma FirstOfAll(graph: Graph, first: string)
    requires first in graph
    ensures Lists(graph, [first] + Listed(graph.Keys - {first}))
  {
    FrontListed(graph.Keys, first);
  }

  // Walked first, the path's end keeps an entry that goes through nothing on the path.
  lemma EndEntry(listing: Graph, path: seq<string>, rest: seq<string>)
    requires IsStack(listing, path) && LeadsAlong(listing, path)
    ensures var reach := ReachMap(listing, [path[0]] + rest, map[]);
            var end := path[|path| - 1];
            end in reach
            && forall b :: b in reach[end] ==> ReachesAvoiding(listing, Elements(path[..|path| - 1]), end, b)
  {
    EndIsConfined(listing, path, 0);
    assert path[..0] == [] && Elements([]) == {};
    var names := [path[0]] + rest;
    assert names[1..] == rest && names[0] == path[0];
    hide Explore, IsStack, LeadsAlong, ReachesAvoiding;
    ReachMapKeeps(listing, rest, Explore(listing, map[], path[0], {}).reach);
  }

  /** A path at whose end every target is cut off: an order that walks it first leaves an entry showing none. */
  lemma BrokenTable(graph: Graph, targets: set<string>, path: seq<string>) returns (reach: Table)
    requires IsStack(graph, path) && path[|path| - 1] in graph
    requires !TouchesAvoiding(graph, Elements(path[..|path| - 1]), targets, path[|path| - 1])
    ensures IsTable(graph, reach) && path[|path| - 1] in reach && !Shows(reach[path[|path| - 1]], targets)
  {
    hide Along, LeadsAlong, Relists, Lists, ReachMap, ReachesAvoiding, Listed;
    var listing := Along(graph, path);
    var rest := Listed(graph.Keys - {path[0]});
    var end := path[|path| - 1];
    AlongLeads(graph, path);
    RelistedNames(graph, listing);
    StackStarts(graph, path);
    FirstOfAll(graph, path[0]);
    assert IsStack(listing, path);
    EndEntry(listing, path, rest);
    reach := ReachMap(listing, [path[0]] + rest, map[]);
    forall t | t in targets ensures t !in reach[end] {
      SameNamesReach(graph, listing, Elements(path[..|path| - 1]), end, t);
    }
  }

  /** Whatever the order, every entry shows a target it owes exactly when the graph is unbroken for the targets. */
  lemma ShownInEveryOrder(graph: Graph, targets: set<string>, own: bool)
    ensures (forall reach :: IsTable(graph, reach) ==> ShowsAll(graph, targets, own, reach)) <==> Unbroken(graph, targets, own)
  {
    if Unbroken(graph, targets, own) {
      forall reach | IsTable(graph, reach) ensures ShowsAll(graph, targets, own, reach) {
        var listing, names :| Relists(graph, listing) && Lists(graph, names) && reach == ReachMap(listing, names, map[]);
        RelistedUnbroken(graph, listing, targets, own);
        ReachMapShows(listing, targets, own, names, map[]);
        RelistedNames(graph, listing);
        forall n | n in reach && Owes(graph, targets, own, n) ensures Shows(reach[n], targets) {
          SameNamesOwe(graph, listing, targets, own, n);
        }
      }
    } else {
      var path :| IsStack(graph, path) && Owes(graph, targets, own, path[|path| - 1])
                  && !TouchesAvoiding(graph, Elements(path[..|path| - 1]), targets, path[|path| - 1]);
      var end := path[|path| - 1];
      var t :| t in targets && Reaches(graph, end, t);
      var next := FirstEdge(graph, end, t);
      var reach := BrokenTable(graph, targets, path);
    }
  }

  lemma TableIsTruthful(graph: Graph, reach: Table)
    requires IsTable(graph, reach)
    ensures graph.Keys <= reach.Keys && forall n, b :: n in reach && b in reach[n] ==> Reaches(graph, n, b)
  {
    var listing, names :| Relists(graph, listing) && Lists(graph, names) && reach == ReachMap(listing, names, map[]);
    ReachMapIsTruthful(listing, names, map[]);
    RelistedNames(graph, listing);
    forall n, b | n in reach && b in reach[n] ensures Reaches(graph, n, b) {
      assert Answers(listing, n, reach[n]);
      SameNamesReach(graph, listing, {}, n, b);
    }
  }

  ghost predicate IsClosure(graph: Graph, reach: Table) {
    forall n :: n in graph ==> n in reach && forall b :: b in reach[n] <==> Reaches(graph, n, b)
  }

  lemma OneTarget(graph: Graph, b: string, own: bool, n: string)
    ensures Owes(graph, {b}, own, n) <==> (own || n != b) && Reaches(graph, n, b)
    ensures forall out: set<string> :: Shows(out, {b}) <==> b in out
  {
    assert b in {b};
  }

  lemma ReachingIsDefined(graph: Graph, n: string, b: string)
    requires Reaches(graph, n, b)
    ensures n in graph
  {
    var next := FirstEdge(graph, n, b);
  }

  /** The table is the transitive closure in every order exactly when no walk's stack cuts a rule off from any rule it reaches. */
  lemma ClosureInEveryOrder(graph: Graph)
    ensures (forall reach :: IsTable(graph, reach) ==> IsClosure(graph, reach)) <==> (forall b :: Unbroken(graph, {b}, true))
  {
    if forall b :: Unbroken(graph, {b}, true) {
      forall reach | IsTable(graph, reach) ensures IsClosure(graph, reach) {
        TableIsTruthful(graph, reach);
        forall n, b | n in graph && Reaches(graph, n, b) ensures b in reach[n] {
          ShownInEveryOrder(graph, {b}, true);
          OneTarget(graph, b, true, n);
        }
      }
    }
    if forall reach :: IsTable(graph, reach) ==> IsClosure(graph, reach) {
      forall b ensures Unbroken(graph, {b}, true) {
        forall reach | IsTable(graph, reach) ensures ShowsAll(graph, {b}, true, reach) {
          forall n | n in reach && Owes(graph, {b}, true, n) ensures Shows(reach[n], {b}) {
            OneTarget(graph, b, true, n);
            ReachingIsDefined(graph, n, b);
          }
        }
        ShownInEveryOrder(graph, {b}, true);
      }
    }
  }

  // ---------- The rules of a run's sub-grammar ----------

  ghost predicate ClosedUnder(graph: Graph, names: set<string>) {
    forall a, b :: a in names && Names(graph, a, b) ==> b in names
  }

  /** An element, and what the table says it reaches. */
  function SubNames(reach: Table, element: string): set<string> {
    {element} + if element in reach then reach[element] else {}
  }

  lemma ClosedHasAll(graph: Graph, reach: Table, element: string)
    requires element in reach && forall b :: b in reach[element] ==> Reaches(graph, element, b)
    ensures ClosedUnder(graph, SubNames(reach, element))
       <==> forall b :: Reaches(graph, element, b) && b != element ==> b in reach[element]
  {
    var names := SubNames(reach, element);
    if ClosedUnder(graph, names) {
      forall b | Reaches(graph, element, b) && b != element ensures b in reach[element] {
        var p :| IsPath(graph, p) && p[0] == element && p[|p| - 1] == b;
        ClosedHoldsReached(graph, element, names, p);
      }
    }
    if forall b :: Reaches(graph, element, b) && b != element ==> b in reach[element] {
      forall a, b | a in names && Names(graph, a, b) ensures b in names {
        EdgeReaches(graph, a, b);
        if a != element {
          ReachesOn(graph, element, a, b);
        }
      }
    }
  }

  /**
   Every element's sub-grammar has every rule it names, in every order, exactly when no
   walk's stack cuts a rule off from any other rule it reaches.
   */
  lemma SubGrammarsClosedInEveryOrder(graph: Graph)
    ensures (forall reach, element :: IsTable(graph, reach) && element in graph ==>
               ClosedUnder(graph, SubNames(reach, element)))
       <==> (forall b :: Unbroken(graph, {b}, false))
  {
    if forall b :: Unbroken(graph, {b}, false) {
      forall reach, element | IsTable(graph, reach) && element in graph
        ensures ClosedUnder(graph, SubNames(reach, element))
      {
        TableIsTruthful(graph, reach);
        forall b | Reaches(graph, element, b) && b != element ensures b in reach[element] {
          ShownInEveryOrder(graph, {b}, false);
          OneTarget(graph, b, false, element);
        }
        ClosedHasAll(graph, reach, element);
      }
    }
    if forall reach, element :: IsTable(graph, reach) && element in graph ==> ClosedUnder(graph, SubNames(reach, element)) {
      forall b ensures Unbroken(graph, {b}, false) {
        forall reach | IsTable(graph, reach) ensures ShowsAll(graph, {b}, false, reach) {
          TableIsTruthful(graph, reach);
          forall n | n in reach && Owes(graph, {b}, false, n) ensures Shows(reach[n], {b}) {
            OneTarget(graph, b, false, n);
            ReachingIsDefined(graph, n, b);
            assert ClosedUnder(graph, SubNames(reach, n));
            ClosedHasAll(graph, reach, n);
          }
        }
        ShownInEveryOrder(graph, {b}, false);
      }
    }
  }

  /** The sub-grammar of an element that reaches no cycle has every rule it names. */
  lemma SubGrammarIsClosed(graph: Graph, names: seq<string>, element: string)
    requires element in names && !ReachesCycle(graph, element)
    ensures var reach := ReachMap(graph, names, map[]);
            element in reach && ClosedUnder(graph, SubNames(reach, element))
  {
    var reach := ReachMap(graph, names, map[]);
    ReachMapIsTruthful(graph, names, map[]);
    assert element in Elements(names);
    assert Answers(graph, element, reach[element]);
    ClosedHasAll(graph, reach, element);
  }

  /** On a cycle it can miss one: C's sub-grammar has A and not the B that A names. */
  lemma SubGrammarCanMissRules()
    ensures var reach := ReachMap(RING, ["A", "B", "C", "D"], map[]);
            "C" in reach && !ClosedUnder(RING, SubNames(reach, "C"))
  {
    CycleLeavesPartialAnswer();
    assert Names(RING, "A", "B");
  }
}
