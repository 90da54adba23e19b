/**
 Size-steered generation: the walk that spends a character budget, and falls back
 to the free walk where the budget is small or the depth is spent.

 The sizes read off the grammar are parameters; random draws are nondeterministic.
 */
module Filler {
  import opened Wrappers
  import opened Grammars
  import opened Heights
  import G = Generator
  import Spill

  datatype Refusal = Free(refusal: G.Refusal) | Unfinished

  const NATURAL_DEPTH := 3
  const SPREAD := 2.0

  predicate AtLeast(room: Spill.Room, amount: real): (fits: bool)
    ensures fits <==> room.Unbounded? || amount <= room.size
  {
    room.Finite? ==> room.size >= amount
  }

  /** What steering reads off a grammar: rooms at a depth, means at the natural depth, and which items nest. */
  datatype Shape = Shape(
    itemRoom: (Item, int) -> Spill.Room,
    armRoom: (Sequence, int) -> Spill.Room,
    itemMean: Item -> real,
    altMean: Alternation -> real,
    ruleMean: string -> real,
    unitMean: Item -> real,
    nests: Item -> bool)
  {
    /** Rooms are sizes, one repetition of a terminal cannot grow, and none measures less than one character. */
    ghost predicate Sound() {
      && (forall item: Item, depth: int :: itemRoom(item, depth).Finite? ==> itemRoom(item, depth).size >= 0.0)
      && (forall item: Item, depth: int ::
            !item.atom.RuleRef? && !item.atom.Group? ==> !Grows(Item(item.atom, UNIT), depth, unitMean(item)))
      && (forall item: Item :: unitMean(item) >= 1.0)
    }

    predicate Grows(item: Item, depth: int, mean: real): (grows: bool)
      ensures grows <==> itemRoom(item, depth).Unbounded? || itemRoom(item, depth).size > 2.0 * mean
    {
      var room := itemRoom(item, depth);
      room.Finite? ==> room.size > SPREAD * mean
    }
  }

  /** The steered walk's fixed parts. */
  datatype Steering = Steering(rules: Rules, heights: HeightMap, shape: Shape) {
    ghost predicate Valid() {
      WellFormed(rules) && Solves(rules, heights) && shape.Sound()
    }
  }

  /** As deep as both allow. */
  function Natural(depth: int, cap: int): (d: int)
    ensures d <= depth && d <= cap && (d == depth || d == cap)
  {
    if depth < cap then depth else cap
  }

  /** One repetition of an atom by the free walk at `depth`. */
  method FreeUnit(s: Steering, depth: int, atom: Atom) returns (r: Result<string, Refusal>)
    requires s.Valid() && (atom.Group? ==> WellFormedAlt(atom.body))
    ensures r.Ok? ==> Spells(s.rules, atom, r.value)
  {
    match atom {
      case Literal(text) =>
        assert Derives(s.rules, atom, Leaf(text)) && Spelling(Leaf(text)) == text;
        r := Ok(text);
      case CharClass(members) =>
        if members == {} {
          return Err(Free(G.EmptyClass));
        }
        var c :| c in members;
        assert Derives(s.rules, atom, Leaf([c])) && Spelling(Leaf([c])) == [c];
        r := Ok([c]);
      case RuleRef(name) =>
        var text := G.Run(s.rules, s.heights, depth - 1, name, {});
        r := if text.Ok? then Ok(text.value) else Err(Free(text.error));
      case Group(body) =>
        var text := G.Expand(s.rules, s.heights, depth, body, {});
        if text.Err? {
          return Err(Free(text.error));
        }
        PickOfGroup(s.rules, body, text.value);
        r := Ok(text.value);
    }
  }

  /** How a body was expanded: by the free walk, or along one of its arms, the budget shared out. */
  datatype Way = Freely | Along(arm: Sequence)

  /** The arm a budget is spent on: one with room for it, nesting if any such arm nests; if none has room, one none is wider than, that can still grow. */
  ghost predicate SpendsOn(s: Steering, depth: int, budget: real, body: Alternation, arm: Sequence) {
    var open := G.OpenArms(s.heights, body, depth);
    && open.Ok? && arm in open.value
    && if exists other :: other in open.value && AtLeast(s.shape.armRoom(other, depth), budget)
       then
         && AtLeast(s.shape.armRoom(arm, depth), budget)
         && ((exists other :: other in open.value && AtLeast(s.shape.armRoom(other, depth), budget) && Nests(other, s.shape)) ==>
               Nests(arm, s.shape))
       else
         && (forall other :: other in open.value ==> Wider(s.shape.armRoom(arm, depth), s.shape.armRoom(other, depth)))
         && GrowsPast(s.shape.armRoom(arm, depth), s.shape.altMean(body))
  }

  /** No arm has room for the budget, or can grow at all. */
  ghost predicate NothingToSpendOn(s: Steering, depth: int, budget: real, body: Alternation) {
    var open := G.OpenArms(s.heights, body, depth);
    open.Ok? && forall arm :: arm in open.value ==>
      !AtLeast(s.shape.armRoom(arm, depth), budget) && !GrowsPast(s.shape.armRoom(arm, depth), s.shape.altMean(body))
  }

  /** Which way was taken, and that the text comes of it. */
  ghost predicate Spends(s: Steering, depth: int, budget: real, body: Alternation, text: string, way: Way) {
    match way
    case Freely => NothingToSpendOn(s, depth, budget, body)
    case Along(arm) => SpendsOn(s, depth, budget, body, arm) && SharedOut(s, depth, budget, arm.items, text)
  }

  /** Within its natural size, undefined, or with no depth left, a rule is walked freely. */
  predicate WalksFreely(s: Steering, depth: int, budget: real, name: string): (freely: bool)
    ensures freely <==> name in s.rules && depth > 0 ==> budget <= s.shape.ruleMean(name)
  {
    name !in s.rules || depth <= 0 || budget <= s.shape.ruleMean(name)
  }

  /** Spend the budget on a rule; within its natural size, or with no depth left, walk it freely. */
  method Rule(s: Steering, depth: int, budget: real, name: string, fuel: nat) returns (r: Result<string, Refusal>, ghost way: Way)
    requires s.Valid()
    ensures r.Ok? ==> InLanguage(s.rules, name, r.value)
    ensures (name in s.rules && depth > 0 ==> budget <= s.shape.ruleMean(name)) ==> way.Freely?
    ensures r.Ok? && name in s.rules && depth > 0 && budget > s.shape.ruleMean(name) ==>
              Spends(s, depth, budget, s.rules[name], r.value, way)
    decreases G.Spend(depth), 1
  {
    hide Spends;
    way := Freely;
    if WalksFreely(s, depth, budget, name) {
      var text := G.Run(s.rules, s.heights, Natural(depth, NATURAL_DEPTH), name, {});
      r := if text.Ok? then Ok(text.value) else Err(Free(text.error));
      return;
    }
    r, way := Expand(s, depth, budget, s.rules[name], fuel);
    if r.Ok? {
      PickOfRule(s.rules, name, r.value);
    }
  }

  /** Spend the budget on an arm with room for it, nesting arms first; else on the roomiest, or freely. */
  method Expand(s: Steering, depth: int, budget: real, body: Alternation, fuel: nat)
    returns (r: Result<string, Refusal>, ghost way: Way)
    requires s.Valid() && WellFormedAlt(body) && depth > 0
    ensures r.Ok? ==> PickSpells(s.rules, body, r.value) && Spends(s, depth, budget, body, r.value, way)
    decreases G.Spend(depth), 0, body, 1
  {
    hide SharedOut, G.OpenArms;
    way := Freely;
    var open := G.OpenArms(s.heights, body, depth);
    if open.Err? {
      r := Err(Free(open.error));
      return;
    }
    var arms := open.value;
    var fits := Fitting(arms, s.shape, depth, budget);
    var arm: Sequence;
    if fits != [] {
      assert fits[0] in fits;
      arm := Chosen(fits, s.shape);
    } else {
      arm := Roomiest(arms, s.shape, depth);
      NoneFits(arms, fits, s.shape, depth, budget);
      if !GrowsPast(s.shape.armRoom(arm, depth), s.shape.altMean(body)) {
        var text := G.Expand(s.rules, s.heights, Natural(depth, NATURAL_DEPTH), body, {});
        r := if text.Ok? then Ok(text.value) else Err(Free(text.error));
        return;
      }
    }
    way := Along(arm);
    assert SpendsOn(s, depth, budget, body, arm);
    var pick: nat :| pick < |body.arms| && body.arms[pick] == arm;
    assert WellFormedArm(arm);
    r := Arm(s, depth, budget, arm, fuel);
    if r.Ok? {
      ArmOfBody(s.rules, body, pick, r.value);
    }
  }

  lemma NoneFits(arms: seq<Sequence>, fits: seq<Sequence>, shape: Shape, depth: int, budget: real)
    requires fits == [] && forall arm :: arm in fits <==> arm in arms && AtLeast(shape.armRoom(arm, depth), budget)
    ensures forall arm :: arm in arms ==> !AtLeast(shape.armRoom(arm, depth), budget)
  {
  }

  lemma ArmOfBody(rules: Rules, body: Alternation, pick: nat, text: string)
    requires pick < |body.arms| && ArmSpells(rules, body.arms[pick].items, text)
    ensures PickSpells(rules, body, text)
  {
    var runs :| DerivesArm(rules, body.arms[pick].items, runs) && RunsText(runs) == text;
    assert DerivesPick(rules, body, Pick(pick, runs));
  }

  predicate GrowsPast(room: Spill.Room, mean: real): (grows: bool)
    ensures grows <==> room.Unbounded? || room.size > 2.0 * mean
  {
    room.Finite? ==> room.size > SPREAD * mean
  }

  method Fitting(arms: seq<Sequence>, shape: Shape, depth: int, budget: real) returns (fits: seq<Sequence>)
    ensures forall arm :: arm in fits <==> arm in arms && AtLeast(shape.armRoom(arm, depth), budget)
  {
    fits := [];
    for k := 0 to |arms|
      invariant forall arm :: arm in fits <==> arm in arms[..k] && AtLeast(shape.armRoom(arm, depth), budget)
    {
      assert arms[..k + 1] == arms[..k] + [arms[k]];
      if AtLeast(shape.armRoom(arms[k], depth), budget) {
        fits := fits + [arms[k]];
      }
    }
    assert arms[..|arms|] == arms;
  }

  /** A random arm, of those that nest when any does. */
  method Chosen(fits: seq<Sequence>, shape: Shape) returns (arm: Sequence)
    requires fits != []
    ensures arm in fits
    ensures (exists other :: other in fits && Nests(other, shape)) ==> Nests(arm, shape)
  {
    if k :| 0 <= k < |fits| && Nests(fits[k], shape) {
      arm := fits[k];
    } else {
      var k :| 0 <= k < |fits|;
      arm := fits[k];
    }
  }

  predicate Nests(arm: Sequence, shape: Shape): (nests: bool)
    ensures nests <==> exists item :: item in arm.items && shape.nests(item)
  {
    exists k :: 0 <= k < |arm.items| && shape.nests(arm.items[k])
  }

  predicate Wider(a: Spill.Room, b: Spill.Room): (wider: bool)
    ensures a.Finite? && b.Finite? ==> (wider <==> b.size <= a.size)
    ensures a.Unbounded? ==> wider
    ensures a.Finite? && b.Unbounded? ==> !wider
  {
    a.Unbounded? || (b.Finite? && a.size >= b.size)
  }

  /** The first of the arms with the most room. */
  method Roomiest(arms: seq<Sequence>, shape: Shape, depth: int) returns (arm: Sequence)
    requires arms != []
    ensures arm in arms
    ensures forall other :: other in arms ==> Wider(shape.armRoom(arm, depth), shape.armRoom(other, depth))
    ensures exists k :: 0 <= k < |arms| && arms[k] == arm && forall j :: 0 <= j < k ==>
              !Wider(shape.armRoom(arms[j], depth), shape.armRoom(arm, depth))
  {
    var at := 0;
    for k := 0 to |arms|
      invariant at < |arms| && at <= k
      invariant forall j :: 0 <= j < k ==> Wider(shape.armRoom(arms[at], depth), shape.armRoom(arms[j], depth))
      invariant forall j :: 0 <= j < at ==> !Wider(shape.armRoom(arms[j], depth), shape.armRoom(arms[at], depth))
    {
      if !Wider(shape.armRoom(arms[at], depth), shape.armRoom(arms[k], depth)) {
        at := k;
      }
    }
    arm := arms[at];
  }

  lemma NoRuns(rules: Rules, items: seq<Item>)
    ensures DerivesArm(rules, items[..0], []) && RunsText([]) == ""
  {
  }

  /** The growing items' runs each spend their share of the budget. */
  ghost predicate RunsSpend(s: Steering, items: seq<Item>, grow: seq<bool>, shares: seq<real>, runs: seq<Run>, n: nat)
    requires n <= |items| && n <= |grow| && n <= |shares| && n <= |runs|
  {
    forall k :: 0 <= k < n && grow[k] ==> Spent(items[k], shares[k], s.shape.unitMean(items[k]), runs[k].nodes)
  }

  /** The text of an arm whose growing items each spend a share of the budget. */
  ghost predicate SharedOut(s: Steering, depth: int, budget: real, items: seq<Item>, text: string) {
    exists grow, shares, runs ::
      && |grow| == |shares| == |items| && IsGrowing(s.shape, depth, items, grow)
      && (exists weights, level :: SharesOut(s.shape, depth, budget, items, grow, shares, weights, level))
      && DerivesArm(s.rules, items, runs) && RunsText(runs) == text && |runs| == |items|
      && RunsSpend(s, items, grow, shares, runs, |items|)
  }

  /** Share the budget over the items that can grow, the nesting ones when any do; the rest walk freely. */
  method Arm(s: Steering, depth: int, budget: real, arm: Sequence, fuel: nat) returns (r: Result<string, Refusal>)
    requires s.Valid() && WellFormedArm(arm) && depth > 0 && ArmCost(arm.items, s.heights).Finite?
    ensures r.Ok? ==> ArmSpells(s.rules, arm.items, r.value) && SharedOut(s, depth, budget, arm.items, r.value)
    decreases G.Spend(depth), 0, arm, 1
  {
    hide DerivesArm, DerivesRun, RunsText, NodesText, ArmCost, ItemCost, Shape.Grows, Shape.Sound, Spent, IsGrowing, SharesOut;
    NoRuns(s.rules, arm.items);
    var grow, shares := Shares(s.shape, depth, budget, arm.items);
    var text := "";
    ghost var runs: seq<Run> := [];
    for k := 0 to |arm.items|
      invariant DerivesArm(s.rules, arm.items[..k], runs) && RunsText(runs) == text
      invariant |runs| == k && RunsSpend(s, arm.items, grow, shares, runs, k)
    {
      var item := arm.items[k];
      assert WellFormedItem(item);
      ItemWithinArm(arm.items, s.heights, k);
      var piece: Result<string, Refusal>;
      ghost var run: Run;
      if grow[k] {
        piece := Repeat(s, depth, shares[k], item, fuel);
        if piece.Err? {
          return piece;
        }
        run :| DerivesRun(s.rules, item, run) && NodesText(run.nodes) == piece.value
               && Spent(item, shares[k], s.shape.unitMean(item), run.nodes);
      } else {
        var free := G.ExpandItem(s.rules, s.heights, Natural(depth, NATURAL_DEPTH), item, {});
        if free.Err? {
          return Err(Free(free.error));
        }
        piece := Ok(free.value);
        run :| DerivesRun(s.rules, item, run) && NodesText(run.nodes) == piece.value;
      }
      ArmExtends(s.rules, arm.items, k, runs, run);
      runs := runs + [run];
      text := text + piece.value;
    }
    assert arm.items[..|arm.items|] == arm.items;
    assert SharedOut(s, depth, budget, arm.items, text);
    r := Ok(text);
  }

  /** What the items that do not grow are expected to take. */
  function MeansOfRest(shape: Shape, items: seq<Item>, grow: seq<bool>): real
    requires |grow| == |items|
  {
    if items == [] then 0.0
    else
      var last := |items| - 1;
      MeansOfRest(shape, items[..last], grow[..last]) + if grow[last] then 0.0 else shape.itemMean(items[last])
  }

  function Rooms(shape: Shape, depth: int, items: seq<Item>): (rooms: seq<Spill.Room>)
    ensures |rooms| == |items| && forall k :: 0 <= k < |items| ==> rooms[k] == shape.itemRoom(items[k], depth)
  {
    seq(|items|, k requires 0 <= k < |items| => shape.itemRoom(items[k], depth))
  }

  /** The weights are rolled for the growing items, and are nothing for the others. */
  predicate Rolled(weights: seq<real>, grow: seq<bool>) {
    |weights| == |grow| && forall k :: 0 <= k < |grow| ==> if grow[k] then 0.25 <= weights[k] < 1.25 else weights[k] == 0.0
  }

  /** A water-filling of what the items that do not grow leave of the budget, all but one character of it or all the room there is. */
  ghost predicate SharesOut(shape: Shape, depth: int, budget: real, items: seq<Item>, grow: seq<bool>, shares: seq<real>,
          weights: seq<real>, level: real)
    requires |grow| == |items|
  {
    var rooms := Rooms(shape, depth, items);
    var left := budget - MeansOfRest(shape, items, grow);
    var spare := if left > 0.0 then left else 0.0;
    && Rolled(weights, grow) && Spill.WaterFilled(shares, rooms, weights, level)
    && Spill.Sum(shares) <= spare && (spare - Spill.Sum(shares) <= 1.0 || Spill.AllFull(shares, rooms, weights))
  }

  /** Which items grow, and the share of the budget each is given. */
  method Shares(shape: Shape, depth: int, budget: real, items: seq<Item>) returns (grow: seq<bool>, shares: seq<real>)
    requires shape.Sound()
    ensures |grow| == |shares| == |items| && IsGrowing(shape, depth, items, grow)
    ensures exists weights, level :: SharesOut(shape, depth, budget, items, grow, shares, weights, level)
    ensures forall k :: 0 <= k < |items| && !grow[k] ==> shares[k] == 0.0
  {
    hide MeansOfRest, Spill.Sum;
    grow := Growing(shape, depth, items);
    var spare := budget;
    var rooms: seq<Spill.Room> := [];
    var weights := new real[|items|](k => 0.0);
    NothingLeft(shape, items, grow);
    for k := 0 to |items|
      invariant |rooms| == k && (forall j :: 0 <= j < k ==> rooms[j] == shape.itemRoom(items[j], depth))
      invariant forall j :: 0 <= j < k ==> if grow[j] then 0.25 <= weights[j] < 1.25 else weights[j] == 0.0
      invariant forall j :: k <= j < |items| ==> weights[j] == 0.0
      invariant spare == budget - MeansOfRest(shape, items[..k], grow[..k])
    {
      rooms := rooms + [shape.itemRoom(items[k], depth)];
      OneMoreLeft(shape, items, grow, k);
      if grow[k] {
        weights[k] := Roll();
      } else {
        spare := spare - shape.itemMean(items[k]);
      }
    }
    assert items[..|items|] == items && grow[..|items|] == grow;
    assert rooms == Rooms(shape, depth, items);
    ghost var original := weights[..];
    assert Rolled(original, grow);
    var filled, level, leftover := Spill.Share(if spare > 0.0 then spare else 0.0, rooms, weights);
    shares := filled[..];
    NoWeightNoShare(shares, rooms, original, level);
    assert SharesOut(shape, depth, budget, items, grow, shares, original, level);
    assert forall k :: 0 <= k < |items| && !grow[k] ==> original[k] == 0.0;
  }

  lemma NothingLeft(shape: Shape, items: seq<Item>, grow: seq<bool>)
    requires |grow| == |items|
    ensures MeansOfRest(shape, items[..0], grow[..0]) == 0.0
  {
  }

  lemma OneMoreLeft(shape: Shape, items: seq<Item>, grow: seq<bool>, k: nat)
    requires |grow| == |items| && k < |items|
    ensures MeansOfRest(shape, items[..k + 1], grow[..k + 1])
         == MeansOfRest(shape, items[..k], grow[..k]) + if grow[k] then 0.0 else shape.itemMean(items[k])
  {
    assert items[..k + 1][..k] == items[..k] && grow[..k + 1][..k] == grow[..k];
  }

  lemma NoWeightNoShare(shares: seq<real>, rooms: seq<Spill.Room>, weights: seq<real>, level: real)
    requires Spill.WaterFilled(shares, rooms, weights, level) && Spill.Roomy(rooms)
    ensures forall k :: 0 <= k < |shares| && weights[k] == 0.0 ==> shares[k] == 0.0
  {
    forall k | 0 <= k < |shares| && weights[k] == 0.0 ensures shares[k] == 0.0 {
      assert level * weights[k] == 0.0;
    }
  }

  method Roll() returns (weight: real)
    ensures 0.25 <= weight < 1.25
  {
    weight := *;
    if !(0.25 <= weight < 1.25) {
      weight := 0.25;
    }
  }

  /** An item grows when it has room to, and nests if any item that has room does. */
  ghost predicate IsGrowing(shape: Shape, depth: int, items: seq<Item>, grow: seq<bool>) {
    && |grow| == |items|
    && forall k :: 0 <= k < |items| ==>
         (grow[k] <==>
          && shape.Grows(items[k], depth, shape.itemMean(items[k]))
          && ((exists item :: item in items && shape.nests(item) && shape.Grows(item, depth, shape.itemMean(item))) ==>
                shape.nests(items[k])))
  }

  /** The items that can grow at this depth; only those that nest, when any of them does. */
  function Growing(shape: Shape, depth: int, items: seq<Item>): (grow: seq<bool>)
    ensures IsGrowing(shape, depth, items, grow)
  {
    var nesting := AnyNests(shape, depth, items);
    seq(|items|, k requires 0 <= k < |items| =>
      shape.Grows(items[k], depth, shape.itemMean(items[k])) && (nesting ==> shape.nests(items[k])))
  }

  predicate AnyNests(shape: Shape, depth: int, items: seq<Item>) {
    exists k :: 0 <= k < |items| && shape.nests(items[k]) && shape.Grows(items[k], depth, shape.itemMean(items[k]))
  }

  /** A repetition stops at its upper bound, or past its lower once less than half a unit is left; and not before. */
  ghost predicate Spent(item: Item, budget: real, natural: real, nodes: seq<Node>) {
    && (item.quantifier.hi == Some(|nodes|) || (|nodes| >= item.quantifier.lo && budget - |NodesText(nodes)| as real < natural / 2.0))
    && forall k :: item.quantifier.lo <= k < |nodes| ==> budget - |NodesText(nodes[..k])| as real >= natural / 2.0
  }

  /** Repeat an item until its share is spent, never below its lower bound nor above its upper. */
  method Repeat(s: Steering, depth: int, budget: real, item: Item, fuel: nat) returns (r: Result<string, Refusal>)
    requires s.Valid() && WellFormedItem(item) && depth > 0
    ensures r.Ok? ==>
              exists run :: DerivesRun(s.rules, item, run) && NodesText(run.nodes) == r.value
                            && Spent(item, budget, s.shape.unitMean(item), run.nodes)
    decreases G.Spend(depth), 0, item, 1
  {
    hide NodesText, Shape.Grows;
    var natural := s.shape.unitMean(item);
    var text := "";
    ghost var nodes: seq<Node> := [];
    NoNodes();
    var count := 0;
    var left := fuel;
    while item.quantifier.hi.None? || count < item.quantifier.hi.value
      invariant |nodes| == count && NodesText(nodes) == text
      invariant item.quantifier.hi.Some? ==> count <= item.quantifier.hi.value
      invariant forall j :: 0 <= j < count ==> Derives(s.rules, item.atom, nodes[j])
      invariant forall k :: item.quantifier.lo <= k < count ==> budget - |NodesText(nodes[..k])| as real >= natural / 2.0
      decreases left
    {
      var rest := budget - |text| as real;
      if count >= item.quantifier.lo && rest < natural / 2.0 {
        break;
      }
      if left == 0 {
        return Err(Unfinished);
      }
      left := left - 1;
      var piece: Result<string, Refusal>;
      if s.shape.Grows(Item(item.atom, UNIT), depth, natural) {
        var slots := if item.quantifier.hi.None? then None else Some(item.quantifier.hi.value - count);
        var share := Piece(s.shape, item, rest, natural, slots, budget);
        piece := Fill(s, depth, NonNegative(Lesser(share, rest)), item, fuel);
      } else {
        piece := FreeUnit(s, Natural(depth, NATURAL_DEPTH + 1), item.atom);
      }
      if piece.Err? {
        return piece;
      }
      ghost var node :| Derives(s.rules, item.atom, node) && Spelling(node) == piece.value;
      NodesTextAppend(nodes, node);
      ghost var before := nodes;
      nodes := nodes + [node];
      assert nodes[..count] == before;
      assert forall k :: 0 <= k < count ==> nodes[..k] == before[..k];
      text := text + piece.value;
      count := count + 1;
    }
    assert nodes[..count] == nodes;
    assert DerivesRun(s.rules, item, Grammars.Run(nodes)) && Spent(item, budget, natural, nodes);
    r := Ok(text);
  }

  lemma NoNodes()
    ensures NodesText([]) == ""
  {
  }

  function Lesser(a: real, b: real): real { if a < b then a else b }

  function Greater(a: real, b: real): real { if a > b then a else b }

  function NonNegative(a: real): real { Greater(a, 0.0) }

  /** Between a natural unit and all that is left. */
  ghost predicate IsTail(left: real, unit: real, tail: real) {
    unit <= tail <= Greater(left, unit)
  }

  /** A next share: spread evenly where the count is fixed, heavy-tailed up to half the budget where the atom nests, natural otherwise. */
  ghost predicate IsPiece(shape: Shape, item: Item, left: real, unit: real, slots: Option<nat>, budget: real, piece: real)
    requires slots.Some? ==> slots.value > 0
  {
    if item.quantifier.hi == Some(item.quantifier.lo) && slots.Some? then piece == left / slots.value as real
    else
      exists tail :: IsTail(left, unit, tail)
                           && var own := if shape.nests(item) then Lesser(tail, Greater(unit, budget / 2.0)) else unit;
                              piece == if slots.Some? then Greater(own, left / slots.value as real) else own
  }

  /** The next repetition's share. */
  method Piece(shape: Shape, item: Item, left: real, unit: real, slots: Option<nat>, budget: real) returns (piece: real)
    requires unit >= 1.0 && (slots.Some? ==> slots.value > 0)
    ensures IsPiece(shape, item, left, unit, slots, budget, piece)
    ensures slots.None? ==> unit <= piece <= Greater(unit, budget / 2.0)
  {
    if item.quantifier.hi == Some(item.quantifier.lo) && slots.Some? {
      return left / slots.value as real;
    }
    piece := unit;
    ghost var tail := unit;
    if shape.nests(item) {
      var drawn := Tail(left, unit);
      tail := drawn;
      piece := Lesser(drawn, Greater(unit, budget / 2.0));
    }
    if slots.Some? {
      piece := Greater(piece, left / slots.value as real);
    }
    assert IsTail(left, unit, tail);
  }

  method Tail(left: real, unit: real) returns (tail: real)
    ensures IsTail(left, unit, tail)
  {
    tail := *;
    if !(unit <= tail <= Greater(left, unit)) {
      tail := unit;
    }
  }

  /** One repetition with a share of its own: a reference one level down, a group at the same level. */
  method Fill(s: Steering, depth: int, share: real, item: Item, fuel: nat) returns (r: Result<string, Refusal>)
    requires s.Valid() && WellFormedItem(item) && depth > 0
    requires s.shape.Grows(Item(item.atom, UNIT), depth, s.shape.unitMean(item))
    ensures r.Ok? ==> Spells(s.rules, item.atom, r.value)
    decreases G.Spend(depth), 0, item, 0
  {
    assert item.atom.RuleRef? || item.atom.Group?;
    match item.atom {
      case RuleRef(name) =>
        ghost var way;
        r, way := Rule(s, depth - 1, share, name, fuel);
      case Group(body) =>
        ghost var way;
        r, way := Expand(s, depth, share, body, fuel);
        if r.Ok? {
          PickOfGroup(s.rules, body, r.value);
        }
    }
  }

  /** A steered document: what it returns is in the rule's language, and spends the size asked for on the rule. */
  method Steer(rules: Rules, shape: Shape, name: string, depth: int, size: nat, fuel: nat)
    returns (r: Result<string, Refusal>, ghost way: Way)
    requires WellFormed(rules) && shape.Sound()
    ensures r.Ok? ==> InLanguage(rules, name, r.value)
    ensures r.Ok? && name in rules && depth > 0 && size as real > shape.ruleMean(name) ==>
              exists heights :: Solves(rules, heights) && Spends(Steering(rules, heights, shape), depth, size as real, rules[name], r.value, way)
  {
    hide Spends;
    var heights := RuleHeights(rules);
    r, way := Rule(Steering(rules, heights, shape), depth, size as real, name, fuel);
  }
}
