/**
 The two-tier lexer: which runs may be tokens of their own, and one token per
 block of what is left.
 */
module LexerRuns {
  import opened Wrappers
  import opened CharSets

  /** A grammar node, as far as the alphabet reads it. */
  datatype Node =
    | Class(charset: CharSet)
    | Not(inner: Node)
    | Letters(points: seq<nat>)
    | Item(parts: seq<Node>)
    | Branch(parts: seq<Node>)
    | Plain

  /** An item that is a run of characters, and the characters. */
  datatype Run = Run(item: Node, chars: CharSet)

  predicate IsRun(runs: seq<Run>, node: Node) {
    exists k :: 0 <= k < |runs| && runs[k].item == node
  }

  predicate Fitting(node: Node)
    decreases node
  {
    match node
    case Class(charset) => Normal(charset) && InRange(charset)
    case Not(inner) => Fitting(inner)
    case Letters(points) => forall k :: 0 <= k < |points| ==> points[k] <= MAX_POINT
    case Item(parts) => forall k :: 0 <= k < |parts| ==> Fitting(parts[k])
    case Branch(parts) => forall k :: 0 <= k < |parts| ==> Fitting(parts[k])
    case Plain => true
  }

  /** No negation of anything but a class, outside the runs. */
  predicate Expressible(runs: seq<Run>, node: Node)
    decreases node
  {
    match node
    case Not(inner) => inner.Class?
    case Item(parts) => IsRun(runs, node) || forall k :: 0 <= k < |parts| ==> Expressible(runs, parts[k])
    case Branch(parts) => forall k :: 0 <= k < |parts| ==> Expressible(runs, parts[k])
    case _ => true
  }

  /** The points a node still needs of the lexer, runs left out. */
  predicate Needs(runs: seq<Run>, node: Node, p: nat)
    decreases node
  {
    match node
    case Class(charset) => Member(charset, p)
    case Not(inner) => inner.Class? && p <= MAX_POINT && !Member(inner.charset, p)
    case Letters(points) => exists k :: 0 <= k < |points| && points[k] == p
    case Item(parts) => !IsRun(runs, node) && exists k :: 0 <= k < |parts| && Needs(runs, parts[k], p)
    case Branch(parts) => exists k :: 0 <= k < |parts| && Needs(runs, parts[k], p)
    case Plain => false
  }

  predicate AnyNeeds(runs: seq<Run>, rules: seq<Node>, p: nat) {
    exists r :: 0 <= r < |rules| && Needs(runs, rules[r], p)
  }

  /** The class stands in the node, plain or negated, outside the runs. */
  ghost predicate Wants(runs: seq<Run>, node: Node, charset: CharSet)
    decreases node
  {
    match node
    case Class(own) => own == charset
    case Not(inner) => inner.Class? && IsComplement(inner.charset, charset)
    case Item(parts) => !IsRun(runs, node) && exists k :: 0 <= k < |parts| && Wants(runs, parts[k], charset)
    case Branch(parts) => exists k :: 0 <= k < |parts| && Wants(runs, parts[k], charset)
    case _ => false
  }

  /** A literal outside the runs holds the character. */
  ghost predicate Spelled(runs: seq<Run>, node: Node, p: nat)
    decreases node
  {
    match node
    case Letters(points) => exists k :: 0 <= k < |points| && points[k] == p
    case Item(parts) => !IsRun(runs, node) && exists k :: 0 <= k < |parts| && Spelled(runs, parts[k], p)
    case Branch(parts) => exists k :: 0 <= k < |parts| && Spelled(runs, parts[k], p)
    case _ => false
  }

  // ---------- What is outside the runs ----------

  /** A terminal met below the node without entering a run. */
  ghost predicate Outside(runs: seq<Run>, node: Node, leaf: Node)
    decreases node
  {
    match node
    case Item(parts) =>
      && (forall k :: 0 <= k < |runs| ==> runs[k].item != node)
      && exists k :: 0 <= k < |parts| && Outside(runs, parts[k], leaf)
    case Branch(parts) => exists k :: 0 <= k < |parts| && Outside(runs, parts[k], leaf)
    case _ => leaf == node
  }

  ghost predicate LeafNeeds(leaf: Node, p: nat) {
    match leaf
    case Class(charset) => Member(charset, p)
    case Not(Class(charset)) => p <= MAX_POINT && !Member(charset, p)
    case Letters(points) => p in points
    case _ => false
  }

  /** A point is needed exactly when some terminal outside the runs has it. */
  lemma {:induction false} NeedsExactly(runs: seq<Run>, node: Node, p: nat)
    ensures Needs(runs, node, p) <==> exists leaf :: Outside(runs, node, leaf) && LeafNeeds(leaf, p)
    decreases node
  {
    match node {
      case Item(parts) =>
        forall k | 0 <= k < |parts| ensures Needs(runs, parts[k], p) <==> exists leaf :: Outside(runs, parts[k], leaf) && LeafNeeds(leaf, p) {
          NeedsExactly(runs, parts[k], p);
        }
      case Branch(parts) =>
        forall k | 0 <= k < |parts| ensures Needs(runs, parts[k], p) <==> exists leaf :: Outside(runs, parts[k], leaf) && LeafNeeds(leaf, p) {
          NeedsExactly(runs, parts[k], p);
        }
      case _ =>
        assert Outside(runs, node, node);
    }
  }

  /** Nothing is refused exactly when every negation outside the runs is of a class. */
  lemma {:induction false} ExpressibleExactly(runs: seq<Run>, node: Node)
    ensures Expressible(runs, node) <==> forall leaf :: Outside(runs, node, leaf) && leaf.Not? ==> leaf.inner.Class?
    decreases node
  {
    match node {
      case Item(parts) =>
        forall k | 0 <= k < |parts|
          ensures Expressible(runs, parts[k]) <==> forall leaf :: Outside(runs, parts[k], leaf) && leaf.Not? ==> leaf.inner.Class?
        {
          ExpressibleExactly(runs, parts[k]);
        }
      case Branch(parts) =>
        forall k | 0 <= k < |parts|
          ensures Expressible(runs, parts[k]) <==> forall leaf :: Outside(runs, parts[k], leaf) && leaf.Not? ==> leaf.inner.Class?
        {
          ExpressibleExactly(runs, parts[k]);
        }
      case _ =>
        assert Outside(runs, node, node);
    }
  }

  ghost predicate LeafWants(leaf: Node, charset: CharSet) {
    leaf == Class(charset) || (leaf.Not? && leaf.inner.Class? && IsComplement(leaf.inner.charset, charset))
  }

  /** A set is wanted when a terminal outside the runs is that class, or negates a class it is the complement of. */
  lemma {:induction false} WantsExactly(runs: seq<Run>, node: Node, charset: CharSet)
    ensures Wants(runs, node, charset) <==> exists leaf :: Outside(runs, node, leaf) && LeafWants(leaf, charset)
    decreases node
  {
    match node {
      case Item(parts) =>
        forall k | 0 <= k < |parts|
          ensures Wants(runs, parts[k], charset) <==> exists leaf :: Outside(runs, parts[k], leaf) && LeafWants(leaf, charset)
        {
          WantsExactly(runs, parts[k], charset);
        }
      case Branch(parts) =>
        forall k | 0 <= k < |parts|
          ensures Wants(runs, parts[k], charset) <==> exists leaf :: Outside(runs, parts[k], leaf) && LeafWants(leaf, charset)
        {
          WantsExactly(runs, parts[k], charset);
        }
      case _ =>
        assert Outside(runs, node, node);
        forall leaf | Outside(runs, node, leaf) ensures leaf == node {
        }
    }
  }

  ghost predicate LeafSpells(leaf: Node, p: nat) {
    leaf.Letters? && p in leaf.points
  }

  /** A character is spelled when a literal outside the runs has it. */
  lemma {:induction false} SpelledExactly(runs: seq<Run>, node: Node, p: nat)
    ensures Spelled(runs, node, p) <==> exists leaf :: Outside(runs, node, leaf) && LeafSpells(leaf, p)
    decreases node
  {
    match node {
      case Item(parts) =>
        forall k | 0 <= k < |parts| ensures Spelled(runs, parts[k], p) <==> exists leaf :: Outside(runs, parts[k], leaf) && LeafSpells(leaf, p) {
          SpelledExactly(runs, parts[k], p);
        }
      case Branch(parts) =>
        forall k | 0 <= k < |parts| ensures Spelled(runs, parts[k], p) <==> exists leaf :: Outside(runs, parts[k], leaf) && LeafSpells(leaf, p) {
          SpelledExactly(runs, parts[k], p);
        }
      case _ =>
        assert Outside(runs, node, node);
    }
  }

  predicate AllFitting(rules: seq<Node>) {
    forall r :: 0 <= r < |rules| ==> Fitting(rules[r])
  }

  predicate AllExpressible(runs: seq<Run>, rules: seq<Node>) {
    forall r :: 0 <= r < |rules| ==> Expressible(runs, rules[r])
  }

  predicate FitRuns(runs: seq<Run>) {
    && (forall k :: 0 <= k < |runs| ==> Normal(runs[k].chars) && InRange(runs[k].chars))
    && forall j, k :: 0 <= j < k < |runs| ==> runs[j].item != runs[k].item
  }

  // ---------- The alphabet ----------

  predicate Covers(classes: seq<CharSet>, chars: set<nat>, p: nat) {
    p in chars || exists k :: 0 <= k < |classes| && Member(classes[k], p)
  }

  /** Every class and literal character met so far. */
  class Alphabet {
    const runs: seq<Run>
    var classes: seq<CharSet>
    var chars: set<nat>

    constructor (runs: seq<Run>)
      ensures this.runs == runs && classes == [] && chars == {} && Valid()
    {
      this.runs := runs;
      classes := [];
      chars := {};
    }

    predicate Valid()
      reads this
    {
      Fit(classes) && forall p :: p in chars ==> p <= MAX_POINT
    }

    ghost predicate Grown(before: seq<CharSet>, known: set<nat>)
      reads this
    {
      known <= chars && forall c :: c in before ==> c in classes
    }

    /** Adds what the node needs; refused where a negation cannot be expressed. */
    method Visit(node: Node) returns (ok: bool)
      requires Valid() && Fitting(node)
      modifies this
      ensures Valid() && ok == Expressible(runs, node)
      ensures ok ==> forall p: nat ::
            Covers(classes, chars, p) <==> old(Covers(classes, chars, p)) || Needs(runs, node, p)
      ensures Grown(old(classes), old(chars))
      ensures ok ==> forall c :: Wants(runs, node, c) ==> c in classes
      ensures ok ==> forall p: nat :: Spelled(runs, node, p) ==> p in chars
      decreases node
    {
      match node {
        case Class(charset) =>
          CoversMore(classes, chars, charset);
          classes := classes + [charset];
          ok := true;
        case Not(inner) =>
          if !inner.Class? {
            return false;
          }
          var other := Complement(inner.charset);
          CoversMore(classes, chars, other);
          forall c | IsComplement(inner.charset, c) ensures c == other {
            ComplementIsUnique(inner.charset, c, other);
          }
          classes := classes + [other];
          ok := true;
        case Letters(points) =>
          chars := chars + set k | 0 <= k < |points| :: points[k];
          ok := true;
        case Item(parts) =>
          if IsRun(runs, node) {
            return true;
          }
          ok := VisitParts(parts, node);
        case Branch(parts) =>
          ok := VisitParts(parts, node);
        case Plain =>
          ok := true;
      }
    }

    method VisitParts(parts: seq<Node>, ghost parent: Node) returns (ok: bool)
      requires Valid() && forall k :: 0 <= k < |parts| ==> Fitting(parts[k])
      requires forall k :: 0 <= k < |parts| ==> parts[k] < parent
      modifies this
      ensures Valid() && (ok <==> forall k :: 0 <= k < |parts| ==> Expressible(runs, parts[k]))
      ensures ok ==> forall p: nat :: Covers(classes, chars, p) <==>
                old(Covers(classes, chars, p)) || exists k :: 0 <= k < |parts| && Needs(runs, parts[k], p)
      ensures Grown(old(classes), old(chars))
      ensures ok ==> forall k, c :: 0 <= k < |parts| && Wants(runs, parts[k], c) ==> c in classes
      ensures ok ==> forall k, p: nat :: 0 <= k < |parts| && Spelled(runs, parts[k], p) ==> p in chars
      decreases parent, 0
    {
      for j := 0 to |parts|
        invariant Valid() && forall k :: 0 <= k < j ==> Expressible(runs, parts[k])
        invariant forall p: nat :: Covers(classes, chars, p) <==>
                    old(Covers(classes, chars, p)) || exists k :: 0 <= k < j && Needs(runs, parts[k], p)
        invariant Grown(old(classes), old(chars))
        invariant forall k, c :: 0 <= k < j && Wants(runs, parts[k], c) ==> c in classes
        invariant forall k, p: nat :: 0 <= k < j && Spelled(runs, parts[k], p) ==> p in chars
      {
        var one := Visit(parts[j]);
        if !one {
          return false;
        }
      }
      ok := true;
    }

    method VisitAll(rules: seq<Node>) returns (ok: bool)
      requires Valid() && classes == [] && chars == {} && AllFitting(rules)
      modifies this
      ensures Valid() && ok == AllExpressible(runs, rules)
      ensures ok ==> forall p: nat :: Covers(classes, chars, p) <==> AnyNeeds(runs, rules, p)
      ensures ok ==> forall r, c :: 0 <= r < |rules| && Wants(runs, rules[r], c) ==> c in classes
      ensures ok ==> forall r, p: nat :: 0 <= r < |rules| && Spelled(runs, rules[r], p) ==> p in chars
    {
      for r := 0 to |rules|
        invariant Valid() && forall q :: 0 <= q < r ==> Expressible(runs, rules[q])
        invariant forall p: nat :: Covers(classes, chars, p) <==> exists q :: 0 <= q < r && Needs(runs, rules[q], p)
        invariant forall q, c :: 0 <= q < r && Wants(runs, rules[q], c) ==> c in classes
        invariant forall q, p: nat :: 0 <= q < r && Spelled(runs, rules[q], p) ==> p in chars
      {
        var one := Visit(rules[r]);
        if !one {
          return false;
        }
      }
      ok := true;
    }
  }

  lemma CoversMore(classes: seq<CharSet>, chars: set<nat>, charset: CharSet)
    ensures forall p: nat :: Covers(classes + [charset], chars, p) <==> Covers(classes, chars, p) || Member(charset, p)
  {
    forall p: nat ensures Covers(classes + [charset], chars, p) <==> Covers(classes, chars, p) || Member(charset, p) {
      if exists k :: 0 <= k < |classes| && Member(classes[k], p) {
        var k :| 0 <= k < |classes| && Member(classes[k], p);
        assert Member((classes + [charset])[k], p);
      }
      assert (classes + [charset])[|classes|] == charset;
    }
  }

  // ---------- Safe runs ----------

  ghost predicate Clashes(runs: seq<Run>, k: nat, classes: seq<CharSet>, chars: set<nat>)
    requires k < |runs|
  {
    || (exists p: nat :: Member(runs[k].chars, p) && Covers(classes, chars, p))
    || (exists j, p: nat :: 0 <= j < |runs| && j != k && Member(runs[k].chars, p) && Member(runs[j].chars, p))
  }

  /** Whether a run shares a point with what stands plainly, or with another run. */
  method Unsafe(runs: seq<Run>, k: nat, classes: seq<CharSet>, chars: set<nat>) returns (unsafe: bool)
    requires FitRuns(runs) && k < |runs| && Fit(classes)
    ensures unsafe == Clashes(runs, k, classes, chars)
  {
    var own := runs[k].chars;
    for c := 0 to |classes|
      invariant forall d, p: nat :: 0 <= d < c && Member(classes[d], p) ==> !Member(own, p)
    {
      OverlapShares(own, classes[c]);
      if Overlap(own, classes[c]) {
        return true;
      }
    }
    var left := chars;
    while left != {}
      invariant left <= chars && forall p :: p in chars && p !in left ==> !Member(own, p)
      decreases left
    {
      var point :| point in left;
      var single := OfPoint(point);
      OverlapShares(own, single);
      assert Member(single, point) by { assert Between(single[0], point); }
      if Overlap(own, single) {
        PointShared(own, point);
        return true;
      }
      left := left - {point};
    }
    for j := 0 to |runs|
      invariant forall i, p: nat :: 0 <= i < j && i != k && Member(runs[i].chars, p) ==> !Member(own, p)
    {
      OverlapShares(own, runs[j].chars);
      if j != k && Overlap(own, runs[j].chars) {
        return true;
      }
    }
    unsafe := false;
  }

  lemma PointShared(own: CharSet, point: nat)
    requires Proper(own) && Overlap(own, [Interval(point, point)])
    ensures Member(own, point)
  {
    OverlapShares(own, [Interval(point, point)]);
    var p: nat :| Member(own, p) && Member([Interval(point, point)], p);
  }

  /** The same, of the rules themselves. */
  ghost predicate ClashesIn(rules: seq<Node>, runs: seq<Run>, k: nat)
    requires k < |runs|
  {
    || (exists p: nat :: Member(runs[k].chars, p) && AnyNeeds(runs, rules, p))
    || (exists j, p: nat :: 0 <= j < |runs| && j != k && Member(runs[k].chars, p) && Member(runs[j].chars, p))
  }

  /** Of the first `n` runs, those that clash with nothing. */
  ghost function Clear(rules: seq<Node>, runs: seq<Run>, n: nat): (clear: seq<Run>)
    requires n <= |runs|
    ensures |clear| <= n
  {
    if n == 0 then []
    else Clear(rules, runs, n - 1) + if ClashesIn(rules, runs, n - 1) then [] else [runs[n - 1]]
  }

  /** Round after round the clashing runs are dropped, until a round drops none. */
  ghost function Survivors(rules: seq<Node>, runs: seq<Run>): seq<Run>
    decreases |runs|
  {
    var clear := Clear(rules, runs, |runs|);
    if |clear| == |runs| then runs else Survivors(rules, clear)
  }

  predicate OneOf(runs: seq<Run>, run: Run) {
    exists j :: 0 <= j < |runs| && runs[j] == run
  }

  ghost predicate KeptFrom(kept: seq<Run>, runs: seq<Run>) {
    forall k :: 0 <= k < |kept| ==> OneOf(runs, kept[k])
  }

  /** A kept run's points appear nowhere else: in no other kept run, and nowhere in the rules outside the runs. */
  ghost predicate AllSafe(kept: seq<Run>, rules: seq<Node>) {
    && (forall k, p: nat :: 0 <= k < |kept| && Member(kept[k].chars, p) ==> !AnyNeeds(kept, rules, p))
    && forall j, k, p: nat ::
         0 <= j < |kept| && 0 <= k < |kept| && Member(kept[j].chars, p) && Member(kept[k].chars, p) ==> j == k
  }

  lemma FewerRunsExpressLess(more: seq<Run>, node: Node)
    requires Expressible([], node)
    ensures Expressible(more, node)
    decreases node
  {
    match node {
      case Item(parts) =>
        forall k | 0 <= k < |parts| ensures Expressible(more, parts[k]) {
          FewerRunsExpressLess(more, parts[k]);
        }
      case Branch(parts) =>
        forall k | 0 <= k < |parts| ensures Expressible(more, parts[k]) {
          FewerRunsExpressLess(more, parts[k]);
        }
      case _ =>
    }
  }

  /** The runs that survive: unsafe ones are dropped, their characters rejoining the alphabet, until none is. */
  method SafeRuns(rules: seq<Node>, runs: seq<Run>) returns (r: Option<seq<Run>>)
    requires AllFitting(rules) && FitRuns(runs)
    ensures r.Some? ==> r.value == Survivors(rules, runs)
    ensures r.Some? ==> FitRuns(r.value) && KeptFrom(r.value, runs) && AllSafe(r.value, rules)
    ensures AllExpressible([], rules) ==> r.Some?
  {
    var kept := runs;
    forall k | 0 <= k < |kept| ensures OneOf(runs, kept[k]) {
      assert runs[k] == kept[k];
    }
    while kept != []
      invariant FitRuns(kept) && KeptFrom(kept, runs) && Survivors(rules, kept) == Survivors(rules, runs)
      decreases |kept|
    {
      var alphabet := new Alphabet(kept);
      var ok := alphabet.VisitAll(rules);
      if !ok {
        if AllExpressible([], rules) {
          forall q | 0 <= q < |rules| ensures Expressible(kept, rules[q]) {
            FewerRunsExpressLess(kept, rules[q]);
          }
        }
        return None;
      }
      var safe := SafeOnes(kept, alphabet.classes, alphabet.chars, rules);
      if |safe| == |kept| {
        AllClear(rules, kept, |kept|);
        SafeNow(kept, rules);
        return Some(kept);
      }
      KeptOn(safe, kept, runs);
      kept := safe;
    }
    r := Some(kept);
  }

  lemma KeptOn(safe: seq<Run>, kept: seq<Run>, runs: seq<Run>)
    requires KeptFrom(safe, kept) && KeptFrom(kept, runs)
    ensures KeptFrom(safe, runs)
  {
    forall k | 0 <= k < |safe| ensures OneOf(runs, safe[k]) {
      assert OneOf(kept, safe[k]);
      var i :| 0 <= i < |kept| && kept[i] == safe[k];
    }
  }

  // A round that drops nothing found nothing to drop.
  lemma {:induction false} AllClear(rules: seq<Node>, runs: seq<Run>, n: nat)
    requires n <= |runs| && |Clear(rules, runs, n)| == n
    ensures Clear(rules, runs, n) == runs[..n] && forall k :: 0 <= k < n ==> !ClashesIn(rules, runs, k)
    decreases n
  {
    if n > 0 {
      AllClear(rules, runs, n - 1);
      assert runs[..n] == runs[..n - 1] + [runs[n - 1]];
    }
  }

  lemma SafeNow(kept: seq<Run>, rules: seq<Node>)
    requires forall k :: 0 <= k < |kept| ==> !ClashesIn(rules, kept, k)
    ensures AllSafe(kept, rules)
  {
    forall k, p: nat | 0 <= k < |kept| && Member(kept[k].chars, p) ensures !AnyNeeds(kept, rules, p) {
      assert !ClashesIn(rules, kept, k);
    }
    forall j, k, p: nat | 0 <= j < |kept| && 0 <= k < |kept| && Member(kept[j].chars, p) && Member(kept[k].chars, p)
      ensures j == k
    {
      assert !ClashesIn(rules, kept, k);
    }
  }

  /** One round: the runs that clash with nothing. */
  method SafeOnes(kept: seq<Run>, classes: seq<CharSet>, chars: set<nat>, ghost rules: seq<Node>)
    returns (safe: seq<Run>)
    requires FitRuns(kept) && Fit(classes)
    requires forall p: nat :: Covers(classes, chars, p) <==> AnyNeeds(kept, rules, p)
    ensures safe == Clear(rules, kept, |kept|)
    ensures FitRuns(safe) && KeptFrom(safe, kept)
  {
    safe := [];
    for k := 0 to |kept|
      invariant FitRuns(safe) && safe == Clear(rules, kept, k)
      invariant forall i :: 0 <= i < |safe| ==> exists j :: 0 <= j < k && kept[j] == safe[i]
    {
      var unsafe := Unsafe(kept, k, classes, chars);
      assert unsafe == ClashesIn(rules, kept, k);
      if !unsafe {
        safe := safe + [kept[k]];
      }
    }
    forall i | 0 <= i < |safe| ensures OneOf(kept, safe[i]) {
      var j :| 0 <= j < |kept| && kept[j] == safe[i];
    }
  }

  // ---------- Which runs survive ----------

  /** A run that shares no point with any other run, nor with any rule even if every run is spelled out. */
  ghost predicate Harmless(rules: seq<Node>, runs: seq<Run>, run: Run) {
    && (forall p: nat :: Member(run.chars, p) ==> !AnyNeeds([], rules, p))
    && forall j, p: nat :: 0 <= j < |runs| && runs[j] != run && Member(run.chars, p) ==> !Member(runs[j].chars, p)
  }

  // With fewer runs the rules need more.
  lemma {:induction false} RunsNeedLess(runs: seq<Run>, node: Node, p: nat)
    requires Needs(runs, node, p)
    ensures Needs([], node, p)
    decreases node
  {
    match node {
      case Item(parts) =>
        var k :| 0 <= k < |parts| && Needs(runs, parts[k], p);
        RunsNeedLess(runs, parts[k], p);
      case Branch(parts) =>
        var k :| 0 <= k < |parts| && Needs(runs, parts[k], p);
        RunsNeedLess(runs, parts[k], p);
      case _ =>
    }
  }

  lemma HarmlessNeverClashes(rules: seq<Node>, runs: seq<Run>, k: nat)
    requires FitRuns(runs) && k < |runs| && Harmless(rules, runs, runs[k])
    ensures !ClashesIn(rules, runs, k)
  {
    forall p: nat | Member(runs[k].chars, p) ensures !AnyNeeds(runs, rules, p) {
      if AnyNeeds(runs, rules, p) {
        var r :| 0 <= r < |rules| && Needs(runs, rules[r], p);
        RunsNeedLess(runs, rules[r], p);
      }
    }
    forall j, p: nat | 0 <= j < |runs| && j != k && Member(runs[k].chars, p) ensures !Member(runs[j].chars, p) {
      assert runs[j].item != runs[k].item;
    }
  }

  // What a round leaves, in terms of where it came from.
  lemma {:induction false} ClearOf(rules: seq<Node>, runs: seq<Run>, n: nat)
    requires FitRuns(runs) && n <= |runs|
    ensures forall i :: 0 <= i < |Clear(rules, runs, n)| ==> OneOf(runs[..n], Clear(rules, runs, n)[i])
    ensures forall j :: 0 <= j < n ==> (OneOf(Clear(rules, runs, n), runs[j]) <==> !ClashesIn(rules, runs, j))
    ensures FitRuns(Clear(rules, runs, n))
    decreases n
  {
    hide ClashesIn, Normal, InRange, FitRuns, OneOf;
    if n == 0 {
      NoneFit();
    } else {
      ClearOf(rules, runs, n - 1);
      var front, last := Clear(rules, runs, n - 1), runs[n - 1];
      assert Clear(rules, runs, n) == if ClashesIn(rules, runs, n - 1) then front else front + [last];
      assert runs[..n] == runs[..n - 1] + [last];
      forall x ensures OneOf(runs[..n], x) <==> OneOf(runs[..n - 1], x) || x == last {
        OneOfMore(runs[..n - 1], last, x);
      }
      forall x ensures OneOf(front + [last], x) <==> OneOf(front, x) || x == last {
        OneOfMore(front, last, x);
      }
      LastIsNew(runs, front, n);
      if !ClashesIn(rules, runs, n - 1) {
        FitMore(runs, front, n);
      }
    }
  }

  lemma LastIsNew(runs: seq<Run>, front: seq<Run>, n: nat)
    requires FitRuns(runs) && 0 < n <= |runs| && forall i :: 0 <= i < |front| ==> OneOf(runs[..n - 1], front[i])
    ensures !OneOf(front, runs[n - 1]) && forall j :: 0 <= j < n - 1 ==> runs[j] != runs[n - 1]
  {
    forall i | 0 <= i < |front| ensures front[i] != runs[n - 1] {
      assert OneOf(runs[..n - 1], front[i]);
      var j :| 0 <= j < n - 1 && runs[..n - 1][j] == front[i];
    }
  }

  lemma NoneFit()
    ensures FitRuns([])
  {
  }

  lemma OneOfMore(runs: seq<Run>, last: Run, x: Run)
    ensures OneOf(runs + [last], x) <==> OneOf(runs, x) || x == last
  {
    var more := runs + [last];
    assert more[|runs|] == last;
    if OneOf(runs, x) {
      var j :| 0 <= j < |runs| && runs[j] == x;
      assert more[j] == x;
    }
  }

  // Runs taken from those before it stay fit with the next.
  lemma FitMore(runs: seq<Run>, front: seq<Run>, n: nat)
    requires FitRuns(runs) && 0 < n <= |runs| && FitRuns(front)
    requires forall i :: 0 <= i < |front| ==> OneOf(runs[..n - 1], front[i])
    ensures FitRuns(front + [runs[n - 1]])
  {
    hide Normal, InRange;
    forall i | 0 <= i < |front| ensures front[i].item != runs[n - 1].item {
      assert OneOf(runs[..n - 1], front[i]);
      var j :| 0 <= j < n - 1 && runs[..n - 1][j] == front[i];
    }
  }

  /** A harmless run is kept, whatever is dropped around it. */
  lemma {:induction false} HarmlessSurvives(rules: seq<Node>, runs: seq<Run>, run: Run)
    requires FitRuns(runs) && OneOf(runs, run) && Harmless(rules, runs, run)
    ensures OneOf(Survivors(rules, runs), run)
    decreases |runs|
  {
    var clear := Clear(rules, runs, |runs|);
    if |clear| < |runs| {
      var k :| 0 <= k < |runs| && runs[k] == run;
      HarmlessNeverClashes(rules, runs, k);
      ClearOf(rules, runs, |runs|);
      assert runs[..|runs|] == runs;
      forall j | 0 <= j < |clear| ensures OneOf(runs, clear[j]) {
        assert OneOf(runs[..|runs|], clear[j]);
      }
      assert Harmless(rules, clear, run);
      HarmlessSurvives(rules, clear, run);
    }
  }

  // ---------- The blocks of what is left ----------

  /** One token per block; the blocks of each class, and the one block of each literal character. */
  datatype Blocks = Blocks(sets: seq<CharSet>, ofClass: map<CharSet, seq<nat>>, ofChar: map<nat, nat>)

  /** No point is in two of the sets. */
  ghost predicate Apart(sets: seq<CharSet>) {
    forall b, c, p: nat :: 0 <= b < |sets| && 0 <= c < |sets| && Member(sets[b], p) && Member(sets[c], p) ==> b == c
  }

  /** Blocks are disjoint, and together exactly what the rules need outside the runs. */
  ghost predicate BlocksFit(blocks: Blocks, runs: seq<Run>, rules: seq<Node>) {
    && (forall b :: 0 <= b < |blocks.sets| ==> Normal(blocks.sets[b]) && blocks.sets[b] != [])
    && Apart(blocks.sets)
    && (forall p: nat :: InABlock(blocks.sets, p) <==> AnyNeeds(runs, rules, p))
    && (forall c :: c in blocks.ofClass ==>
          forall p: nat :: Member(c, p) <==> InSomeBlock(blocks.sets, blocks.ofClass[c], p))
    && (forall c :: c in blocks.ofChar ==>
          blocks.ofChar[c] < |blocks.sets| && blocks.sets[blocks.ofChar[c]] == [Interval(c, c)])
    && (forall r, c :: 0 <= r < |rules| && Wants(runs, rules[r], c) ==> c in blocks.ofClass)
    && (forall r, p: nat :: 0 <= r < |rules| && Spelled(runs, rules[r], p) ==> p in blocks.ofChar)
  }

  ghost predicate InABlock(sets: seq<CharSet>, p: nat) {
    exists b :: 0 <= b < |sets| && Member(sets[b], p)
  }

  /** Each class once, in first-met order. */
  method Unique(classes: seq<CharSet>) returns (unique: seq<CharSet>)
    requires Fit(classes)
    ensures Fit(unique)
    ensures forall p: nat :: Covers(unique, {}, p) <==> Covers(classes, {}, p)
    ensures forall c :: c in classes ==> c in unique
  {
    unique := [];
    for k := 0 to |classes|
      invariant Fit(unique)
      invariant forall p: nat :: Covers(unique, {}, p) <==> Covers(classes[..k], {}, p)
      invariant forall c :: c in classes[..k] ==> c in unique
    {
      CoversMore(classes[..k], {}, classes[k]);
      CoversMore(unique, {}, classes[k]);
      assert classes[..k + 1] == classes[..k] + [classes[k]];
      if classes[k] !in unique {
        unique := unique + [classes[k]];
      } else {
        AlreadyCovered(unique, classes[k]);
      }
    }
    assert classes[..|classes|] == classes;
  }

  lemma AlreadyCovered(unique: seq<CharSet>, charset: CharSet)
    requires charset in unique
    ensures forall p: nat :: Member(charset, p) ==> Covers(unique, {}, p)
  {
    var k :| 0 <= k < |unique| && unique[k] == charset;
  }

  /** The classes first, then one set per literal character. */
  ghost predicate Laid(sets: seq<CharSet>, unique: seq<CharSet>, letters: seq<nat>) {
    && |sets| == |unique| + |letters|
    && (forall i :: 0 <= i < |unique| ==> sets[i] == unique[i])
    && forall i :: 0 <= i < |letters| ==> sets[|unique| + i] == [Interval(letters[i], letters[i])]
  }

  /** The same of the alphabet itself. */
  ghost predicate BlocksOver(blocks: Blocks, classes: seq<CharSet>, chars: set<nat>) {
    && (forall b :: 0 <= b < |blocks.sets| ==> Normal(blocks.sets[b]) && blocks.sets[b] != [])
    && Apart(blocks.sets)
    && (forall p: nat :: InABlock(blocks.sets, p) <==> Covers(classes, chars, p))
    && (forall c :: c in blocks.ofClass ==>
          forall p: nat :: Member(c, p) <==> InSomeBlock(blocks.sets, blocks.ofClass[c], p))
    && (forall c :: c in blocks.ofChar ==>
          blocks.ofChar[c] < |blocks.sets| && blocks.sets[blocks.ofChar[c]] == [Interval(c, c)])
    && (forall c :: c in classes ==> c in blocks.ofClass)
    && (forall p :: p in chars ==> p in blocks.ofChar)
  }

  method PartitionBlocks(rules: seq<Node>, runs: seq<Run>) returns (r: Option<Blocks>)
    requires AllFitting(rules)
    ensures r.Some? ==> BlocksFit(r.value, runs, rules)
    ensures r.Some? <==> AllExpressible(runs, rules)
  {
    var alphabet := new Alphabet(runs);
    var ok := alphabet.VisitAll(rules);
    if !ok {
      return None;
    }
    var blocks := PartitionAlphabet(alphabet.classes, alphabet.chars);
    r := Some(blocks);
  }

  method PartitionAlphabet(classes: seq<CharSet>, chars: set<nat>) returns (r: Blocks)
    requires Fit(classes) && forall p :: p in chars ==> p <= MAX_POINT
    ensures BlocksOver(r, classes, chars)
  {
    hide Member, Covers, BlocksOf, ListedFor, InSomeBlock, Fit;
    var unique := Unique(classes);
    var letters := SortedPoints(chars);
    var sets := unique;
    for k := 0 to |letters|
      invariant Laid(sets, unique, letters[..k]) && Fit(sets)
    {
      assert letters[k] in chars;
      var single := OfPoint(letters[k]);
      StillFit(sets, letters[k]);
      sets := sets + [single];
    }
    assert letters[..|letters|] == letters;
    var blocks, members := Partition(sets);
    ghost var signatures := BlockSignatures(sets, blocks);
    var ofClass, ofChar := BlockTables(sets, unique, letters, blocks, members, signatures);
    r := Blocks(blocks, ofClass, ofChar);
    BlocksDoFit(sets, signatures, blocks, members, r, unique);
    ClassesCover(unique, classes);
    NeededIsHeld(sets, unique, letters, classes, chars);
    forall p: nat ensures InABlock(blocks, p) <==> Covers(classes, chars, p) {
      HeldIsInABlock(sets, signatures, blocks, p);
    }
    forall c | c in classes ensures c in ofClass {
      assert c in unique;
    }
  }

  lemma StillFit(sets: seq<CharSet>, point: nat)
    requires Fit(sets) && point <= MAX_POINT
    ensures Fit(sets + [[Interval(point, point)]])
  {
  }

  lemma ClassesCover(unique: seq<CharSet>, classes: seq<CharSet>)
    requires forall p: nat :: Covers(unique, {}, p) <==> Covers(classes, {}, p)
    ensures forall p: nat, chars: set<nat> :: Covers(classes, chars, p) <==> Covers(unique, {}, p) || p in chars
  {
    forall p: nat, chars: set<nat> ensures Covers(classes, chars, p) <==> Covers(unique, {}, p) || p in chars {
      assert Covers(classes, {}, p) <==> exists k :: 0 <= k < |classes| && Member(classes[k], p);
    }
  }

  /** The blocks of each class, and the one block of each literal character. */
  method BlockTables(
    sets: seq<CharSet>, unique: seq<CharSet>, letters: seq<nat>,
    blocks: seq<CharSet>, members: seq<seq<nat>>, ghost signatures: seq<set<nat>>)
    returns (ofClass: map<CharSet, seq<nat>>, ofChar: map<nat, nat>)
    requires Fit(sets) && Laid(sets, unique, letters) && BlocksOf(sets, signatures, blocks)
    requires |members| == |sets| && forall i :: 0 <= i < |sets| ==> ListedFor(signatures, i, members[i])
    ensures forall c :: c in ofClass ==> exists i :: 0 <= i < |unique| && unique[i] == c && ofClass[c] == members[i]
    ensures forall c :: c in ofChar ==> ofChar[c] < |blocks| && blocks[ofChar[c]] == [Interval(c, c)]
    ensures forall k :: 0 <= k < |unique| ==> unique[k] in ofClass
    ensures forall k :: 0 <= k < |letters| ==> letters[k] in ofChar
  {
    ofClass := map[];
    for k := 0 to |unique|
      invariant forall c :: c in ofClass ==> exists i :: 0 <= i < |unique| && unique[i] == c && ofClass[c] == members[i]
      invariant forall j :: 0 <= j < k ==> unique[j] in ofClass
    {
      ofClass := ofClass[unique[k] := members[k]];
    }
    ofChar := map[];
    for k := 0 to |letters|
      invariant forall c :: c in ofChar ==> ofChar[c] < |blocks| && blocks[ofChar[c]] == [Interval(c, c)]
      invariant forall j :: 0 <= j < k ==> letters[j] in ofChar
    {
      LiteralHasOneBlock(sets, signatures, blocks, |unique| + k, members[|unique| + k], letters[k]);
      ofChar := ofChar[letters[k] := members[|unique| + k][0]];
    }
  }

  lemma BlocksDoFit(
    sets: seq<CharSet>, signatures: seq<set<nat>>, blocks: seq<CharSet>, members: seq<seq<nat>>, r: Blocks, unique: seq<CharSet>)
    requires Fit(sets) && BlocksOf(sets, signatures, blocks) && r.sets == blocks
    requires |members| == |sets| && forall i :: 0 <= i < |sets| ==> ListedFor(signatures, i, members[i])
    requires |unique| <= |sets| && forall i :: 0 <= i < |unique| ==> sets[i] == unique[i]
    requires forall c :: c in r.ofClass ==> exists i ::
          0 <= i < |unique| && unique[i] == c && r.ofClass[c] == members[i]
    ensures forall c :: c in r.ofClass ==> forall p: nat :: Member(c, p) <==> InSomeBlock(blocks, r.ofClass[c], p)
    ensures Apart(blocks) && forall b :: 0 <= b < |blocks| ==> Normal(blocks[b]) && blocks[b] != []
  {
    forall c, p: nat | c in r.ofClass ensures Member(c, p) <==> InSomeBlock(blocks, r.ofClass[c], p) {
      var i :| 0 <= i < |unique| && unique[i] == c && r.ofClass[c] == members[i];
      SetIsUnionOfItsBlocks(sets, signatures, blocks, i, members[i], p);
    }
    forall b, c, p: nat | 0 <= b < |blocks| && 0 <= c < |blocks| && Member(blocks[b], p) && Member(blocks[c], p)
      ensures b == c
    {
      BlocksAreDisjoint(sets, signatures, blocks, b, c, p);
    }
  }

  lemma HeldIsInABlock(sets: seq<CharSet>, signatures: seq<set<nat>>, blocks: seq<CharSet>, p: nat)
    requires Fit(sets) && BlocksOf(sets, signatures, blocks)
    ensures InABlock(blocks, p) <==> exists i :: 0 <= i < |sets| && Member(sets[i], p)
  {
    if InABlock(blocks, p) {
      var b :| 0 <= b < |blocks| && Member(blocks[b], p);
      var i :| i in Signature(sets, p);
    }
    if exists i :: 0 <= i < |sets| && Member(sets[i], p) {
      var i :| 0 <= i < |sets| && Member(sets[i], p);
      var k :| 0 <= k < |sets[i]| && Between(sets[i][k], p);
      assert i in Signature(sets, p);
      var b :| 0 <= b < |signatures| && signatures[b] == Signature(sets, p);
      assert Member(blocks[b], p);
    }
  }

  lemma NeededIsHeld(sets: seq<CharSet>, unique: seq<CharSet>, letters: seq<nat>, classes: seq<CharSet>,
          chars: set<nat>)
    requires Laid(sets, unique, letters)
    requires forall p: nat :: Covers(classes, chars, p) <==> Covers(unique, {}, p) || p in chars
    requires forall e :: e in chars <==> exists k :: 0 <= k < |letters| && letters[k] == e
    ensures forall p: nat :: (exists i :: 0 <= i < |sets| && Member(sets[i], p)) <==> Covers(classes, chars, p)
  {
    forall p: nat ensures (exists i :: 0 <= i < |sets| && Member(sets[i], p)) <==> Covers(classes, chars, p) {
      assert Covers(classes, chars, p) <==> Covers(unique, {}, p) || p in chars;
      if exists i :: 0 <= i < |sets| && Member(sets[i], p) {
        var i :| 0 <= i < |sets| && Member(sets[i], p);
        if i >= |unique| {
          var k :| 0 <= k < |sets[i]| && Between(sets[i][k], p);
          assert letters[i - |unique|] == p;
        }
      }
      if p in chars {
        var k :| 0 <= k < |letters| && letters[k] == p;
        assert Between(sets[|unique| + k][0], p) && Member(sets[|unique| + k], p);
      }
      if Covers(unique, {}, p) {
        var k :| 0 <= k < |unique| && Member(unique[k], p);
        assert Member(sets[k], p);
      }
    }
  }

  function CharsOf(runs: seq<Run>): (r: seq<CharSet>)
    ensures |r| == |runs| && forall k :: 0 <= k < |runs| ==> r[k] == runs[k].chars
  {
    seq(|runs|, k requires 0 <= k < |runs| => runs[k].chars)
  }

  /** With the safe runs and the blocks of the rest as tokens, no code point has two. */
  lemma OneTokenAPoint(kept: seq<Run>, blocks: Blocks, rules: seq<Node>)
    requires AllSafe(kept, rules) && BlocksFit(blocks, kept, rules)
    ensures Apart(blocks.sets + CharsOf(kept))
  {
    var sets := blocks.sets + CharsOf(kept);
    var n := |blocks.sets|;
    forall b, k, p: nat | 0 <= b < n && 0 <= k < |kept| && Member(kept[k].chars, p)
      ensures !Member(blocks.sets[b], p)
    {
      assert Member(blocks.sets[b], p) ==> InABlock(blocks.sets, p);
    }
    forall b, c, p: nat | 0 <= b < |sets| && 0 <= c < |sets| && Member(sets[b], p) && Member(sets[c], p)
      ensures b == c
    {
      assert b >= n ==> Member(kept[b - n].chars, p);
      assert c >= n ==> Member(kept[c - n].chars, p);
    }
  }
}
