/**
 Naming groups: every nested group becomes a rule of its own, so that the reduce
 channel of a run's sub-grammar sees the values inside it.
 */
module GroupNaming {
  import opened Grammars
  import opened Reachability
  import opened Rewrites

  datatype Rule = Rule(name: string, body: Alternation)

  // ---------- Names ----------

  function Digit(d: nat): char
    requires d < 10
  {
    "0123456789"[d]
  }

  function Decimal(n: nat): string {
    if n < 10 then [Digit(n)] else Decimal(n / 10) + [Digit(n % 10)]
  }

  /** The numeral reads back as the number: its last digit, after the numeral of the rest. */
  lemma DecimalReads(n: nat)
    ensures |Decimal(n)| > 0 && Decimal(n)[|Decimal(n)| - 1] as int == '0' as int + n % 10
    ensures Decimal(n)[..|Decimal(n)| - 1] == if n < 10 then "" else Decimal(n / 10)
  {
    assert forall d: nat :: d < 10 ==> Digit(d) as int == '0' as int + d;
  }

  function GroupName(base: string, n: nat): string { base + "-g" + Decimal(n) }

  lemma DigitIsInjective(a: nat, b: nat)
    requires a < 10 && b < 10 && Digit(a) == Digit(b)
    ensures a == b
  {
    var digits := "0123456789";
    assert forall i, j :: 0 <= i < j < 10 ==> digits[i] != digits[j];
  }

  lemma {:induction false} DecimalIsInjective(a: nat, b: nat)
    requires Decimal(a) == Decimal(b)
    ensures a == b
    decreases a
  {
    var s, t := Decimal(a), Decimal(b);
    assert s[|s| - 1] == Digit(a % 10) && t[|t| - 1] == Digit(b % 10);
    DigitIsInjective(a % 10, b % 10);
    if a >= 10 && b >= 10 {
      assert s[..|s| - 1] == Decimal(a / 10) && t[..|t| - 1] == Decimal(b / 10);
      DecimalIsInjective(a / 10, b / 10);
    } else {
      DecimalLength(a);
      DecimalLength(b);
    }
  }

  lemma {:induction false} DecimalLength(n: nat)
    ensures |Decimal(n)| >= 1 && (n >= 10 ==> |Decimal(n)| >= 2)
    decreases n
  {
    if n >= 10 {
      DecimalLength(n / 10);
    }
  }

  lemma {:induction false} DecimalHasNoLetter(n: nat, k: nat)
    requires k < |Decimal(n)|
    ensures Decimal(n)[k] != 'g'
    decreases n
  {
    if n >= 10 && k < |Decimal(n)| - 1 {
      DecimalHasNoLetter(n / 10, k);
    }
  }

  /** The number ends the name: equal names carry equal numbers. */
  lemma GroupNumberIsUnique(a: string, m: nat, b: string, n: nat)
    requires GroupName(a, m) == GroupName(b, n)
    ensures m == n
  {
    var name := GroupName(a, m);
    var d, e := Decimal(m), Decimal(n);
    if |d| < |e| {
      assert name[|name| - |d| - 1] == 'g';
      assert name[|name| - |d| - 1] == e[|e| - |d| - 1];
      DecimalHasNoLetter(n, |e| - |d| - 1);
    } else if |e| < |d| {
      assert name[|name| - |e| - 1] == 'g';
      assert name[|name| - |e| - 1] == d[|d| - |e| - 1];
      DecimalHasNoLetter(m, |d| - |e| - 1);
    } else {
      assert d == name[|name| - |d|..] == e;
      DecimalIsInjective(m, n);
    }
  }

  // ---------- Naming ----------

  datatype Named<T> = Named(result: T, counter: nat, made: seq<Rule>)

  /** The item itself, or a reference to its group, named after `base` and the next number. */
  function NameItem(item: Item, base: string, counter: nat): Named<Item>
    decreases item
  {
    if !item.atom.Group? then Named(item, counter, [])
    else
      var name := GroupName(base, counter + 1);
      var inner := NameArms(item.atom.body.arms, name, counter + 1);
      Named(Item(RuleRef(name), item.quantifier), inner.counter, inner.made + [Rule(name, Alternation(inner.result))])
  }

  function NameItems(items: seq<Item>, base: string, counter: nat): Named<seq<Item>>
    decreases items
  {
    if items == [] then Named([], counter, [])
    else
      var front := NameItems(items[..|items| - 1], base, counter);
      var last := NameItem(items[|items| - 1], base, front.counter);
      Named(front.result + [last.result], last.counter, front.made + last.made)
  }

  function NameArms(arms: seq<Sequence>, base: string, counter: nat): Named<seq<Sequence>>
    decreases arms
  {
    if arms == [] then Named([], counter, [])
    else
      var front := NameArms(arms[..|arms| - 1], base, counter);
      var last := NameItems(arms[|arms| - 1].items, base, front.counter);
      Named(front.result + [Sequence(last.result)], last.counter, front.made + last.made)
  }

  /** Each rule with its groups named, counting afresh per rule, and the rules that took. */
  function NameRules(rules: seq<Rule>): (seq<Rule>, seq<Rule>)
    decreases |rules|
  {
    if rules == [] then ([], [])
    else
      var front := NameRules(rules[..|rules| - 1]);
      var rule := rules[|rules| - 1];
      var named := NameArms(rule.body.arms, rule.name, 0);
      (front.0 + [Rule(rule.name, Alternation(named.result))], front.1 + named.made)
  }

  /** The counter, and the rules made so far, filled in place. */
  class Namer {
    var counter: nat
    var made: seq<Rule>

    constructor ()
      ensures counter == 0 && made == []
    {
      counter := 0;
      made := [];
    }

    method Name(item: Item, base: string) returns (r: Item)
      modifies this
      ensures Named(r, counter, made)
           == var named := NameItem(item, base, old(counter)); Named(named.result, named.counter, old(made) + named.made)
      decreases item
    {
      if !item.atom.Group? {
        return item;
      }
      counter := counter + 1;
      var name := GroupName(base, counter);
      var arms := NameAll(item.atom.body.arms, name);
      made := made + [Rule(name, Alternation(arms))];
      r := Item(RuleRef(name), item.quantifier);
    }

    method NameArm(items: seq<Item>, base: string) returns (r: seq<Item>)
      modifies this
      ensures Named(r, counter, made)
           == var named := NameItems(items, base, old(counter)); Named(named.result, named.counter, old(made) + named.made)
      decreases items
    {
      r := [];
      for i := 0 to |items|
        invariant Named(r, counter, made)
               == var named := NameItems(items[..i], base, old(counter)); Named(named.result, named.counter, old(made) + named.made)
      {
        assert items[..i + 1][..i] == items[..i];
        var one := Name(items[i], base);
        r := r + [one];
      }
      assert items[..|items|] == items;
    }

    method NameAll(arms: seq<Sequence>, base: string) returns (r: seq<Sequence>)
      modifies this
      ensures Named(r, counter, made)
           == var named := NameArms(arms, base, old(counter)); Named(named.result, named.counter, old(made) + named.made)
      decreases arms
    {
      r := [];
      for a := 0 to |arms|
        invariant Named(r, counter, made)
               == var named := NameArms(arms[..a], base, old(counter)); Named(named.result, named.counter, old(made) + named.made)
      {
        assert arms[..a + 1][..a] == arms[..a];
        var items := NameArm(arms[a].items, base);
        r := r + [Sequence(items)];
      }
      assert arms[..|arms|] == arms;
    }
  }

  method NameGroups(rules: seq<Rule>) returns (out: seq<Rule>, synthetic: seq<Rule>)
    ensures (out, synthetic) == NameRules(rules)
  {
    out := [];
    synthetic := [];
    for k := 0 to |rules|
      invariant (out, synthetic) == NameRules(rules[..k])
    {
      assert rules[..k + 1][..k] == rules[..k];
      var namer := new Namer();
      var arms := namer.NameAll(rules[k].body.arms, rules[k].name);
      ghost var named := NameArms(rules[k].body.arms, rules[k].name, 0);
      assert [] + named.made == named.made && arms == named.result && namer.made == named.made;
      out := out + [Rule(rules[k].name, Alternation(arms))];
      synthetic := synthetic + namer.made;
    }
    assert rules[..|rules|] == rules;
  }

  // ---------- The made names are distinct ----------

  /** A group's name with a number above `lo` and at most `hi`. */
  ghost predicate Numbered(name: string, lo: nat, hi: nat) {
    exists stem, n :: lo < n <= hi && name == GroupName(stem, n)
  }

  ghost predicate AllNumbered(made: seq<Rule>, lo: nat, hi: nat) {
    lo <= hi && forall k :: 0 <= k < |made| ==> Numbered(made[k].name, lo, hi)
  }

  ghost predicate Distinct(rules: seq<Rule>) {
    forall i, j :: 0 <= i < j < |rules| ==> rules[i].name != rules[j].name
  }

  predicate Has(rules: seq<Rule>, name: string) {
    exists k :: 0 <= k < |rules| && rules[k].name == name
  }

  /** The name of a group directly under `base`, or under a group that is made too. */
  ghost predicate StemIn(made: seq<Rule>, base: string, name: string) {
    exists stem, n :: name == GroupName(stem, n) && (stem == base || Has(made, stem))
  }

  ghost predicate Stemmed(made: seq<Rule>, base: string) {
    forall k :: 0 <= k < |made| ==> StemIn(made, base, made[k].name)
  }

  lemma StemmedTogether(a: seq<Rule>, b: seq<Rule>, base: string)
    requires Stemmed(a, base) && Stemmed(b, base)
    ensures Stemmed(a + b, base)
  {
    forall k | 0 <= k < |a + b| ensures StemIn(a + b, base, (a + b)[k].name) {
      if k < |a| {
        StemInMore(a, b, base, a[k].name);
      } else {
        StemInMore(a, b, base, b[k - |a|].name);
      }
    }
  }

  lemma StemInMore(a: seq<Rule>, b: seq<Rule>, base: string, name: string)
    requires StemIn(a, base, name) || StemIn(b, base, name)
    ensures StemIn(a + b, base, name)
  {
    var part := if StemIn(a, base, name) then a else b;
    hide Has;
    var stem, n :| name == GroupName(stem, n) && (stem == base || Has(part, stem));
    HasEither(a, b, stem);
  }

  lemma HasEither(a: seq<Rule>, b: seq<Rule>, name: string)
    ensures Has(a + b, name) <==> Has(a, name) || Has(b, name)
  {
    if Has(a, name) {
      var k :| 0 <= k < |a| && a[k].name == name;
      assert (a + b)[k].name == name;
    }
    if Has(b, name) {
      var k :| 0 <= k < |b| && b[k].name == name;
      assert (a + b)[|a| + k].name == name;
    }
  }

  lemma DistinctRanges(a: seq<Rule>, b: seq<Rule>, lo: nat, mid: nat, hi: nat)
    requires AllNumbered(a, lo, mid) && AllNumbered(b, mid, hi) && Distinct(a) && Distinct(b)
    ensures AllNumbered(a + b, lo, hi) && Distinct(a + b)
  {
    forall k | 0 <= k < |a + b| ensures Numbered((a + b)[k].name, lo, hi) {
      if k < |a| {
        assert Numbered(a[k].name, lo, mid);
      } else {
        assert Numbered(b[k - |a|].name, mid, hi);
      }
    }
    forall i, j | 0 <= i < |a| && 0 <= j < |b| ensures a[i].name != b[j].name {
      assert Numbered(a[i].name, lo, mid) && Numbered(b[j].name, mid, hi);
      var stem, n :| lo < n <= mid && a[i].name == GroupName(stem, n);
      var other, m :| mid < m <= hi && b[j].name == GroupName(other, m);
      if a[i].name == b[j].name {
        GroupNumberIsUnique(stem, n, other, m);
      }
    }
  }

  /** What one naming makes: distinct names, numbered by the counter's range, each under the base or a made group. */
  ghost predicate WellNamed(made: seq<Rule>, base: string, lo: nat, hi: nat) {
    AllNumbered(made, lo, hi) && Distinct(made) && Stemmed(made, base)
  }

  lemma WellNamedTogether(a: seq<Rule>, b: seq<Rule>, base: string, lo: nat, mid: nat, hi: nat)
    requires WellNamed(a, base, lo, mid) && WellNamed(b, base, mid, hi)
    ensures WellNamed(a + b, base, lo, hi)
  {
    DistinctRanges(a, b, lo, mid, hi);
    StemmedTogether(a, b, base);
  }

  lemma {:induction false} ItemWellNamed(item: Item, base: string, counter: nat)
    ensures var named := NameItem(item, base, counter); WellNamed(named.made, base, counter, named.counter)
    decreases item
  {
    if item.atom.Group? {
      var name := GroupName(base, counter + 1);
      var arms := item.atom.body.arms;
      ArmsWellNamed(arms, name, counter + 1);
      var inner := NameArms(arms, name, counter + 1);
      OwnNameLast(inner.made, Rule(name, Alternation(inner.result)), base, counter, inner.counter);
    }
  }

  /**
   A group becomes a reference to its own rule, named after the base and the next number
   and made last; every group in it is named under that name, not under the base.
   Anything else is left alone.
   */
  lemma NamedInPlace(item: Item, base: string, counter: nat)
    ensures var named := NameItem(item, base, counter);
            if !item.atom.Group? then named == Named(item, counter, [])
            else
              var own := base + "-g" + Decimal(counter + 1);
              && named.result == Item(RuleRef(own), item.quantifier)
              && named.made != [] && named.made[|named.made| - 1].name == own
              && |named.made[|named.made| - 1].body.arms| == |item.atom.body.arms|
              && WellNamed(named.made[..|named.made| - 1], own, counter + 1, named.counter)
  {
    if item.atom.Group? {
      var name := GroupName(base, counter + 1);
      var arms := item.atom.body.arms;
      ArmsWellNamed(arms, name, counter + 1);
      ArmsStay(arms, name, counter + 1);
      var inner := NameArms(arms, name, counter + 1);
      var own := Rule(name, Alternation(inner.result));
      assert (inner.made + [own])[..|inner.made|] == inner.made;
    }
  }

  // Arms and items keep their number.
  lemma {:induction false} ArmsStay(arms: seq<Sequence>, base: string, counter: nat)
    ensures |NameArms(arms, base, counter).result| == |arms|
    decreases |arms|
  {
    if arms != [] {
      ArmsStay(arms[..|arms| - 1], base, counter);
    }
  }

  // A group's own name comes after those of the groups in it.
  lemma OwnNameLast(made: seq<Rule>, own: Rule, base: string, counter: nat, end: nat)
    requires own.name == GroupName(base, counter + 1) && WellNamed(made, own.name, counter + 1, end)
    ensures WellNamed(made + [own], base, counter, end)
  {
    hide GroupName;
    OwnIsNumbered(own, base, counter);
    DistinctRanges([own], made, counter, counter + 1, end);
    Swapped(made, own, counter, end);
    OwnIsStemmed(made, own, base, counter);
  }

  lemma OwnIsNumbered(own: Rule, base: string, counter: nat)
    requires own.name == GroupName(base, counter + 1)
    ensures AllNumbered([own], counter, counter + 1) && Distinct([own])
  {
    hide GroupName;
    assert Numbered(own.name, counter, counter + 1);
  }

  lemma Swapped(made: seq<Rule>, own: Rule, lo: nat, hi: nat)
    requires AllNumbered([own] + made, lo, hi) && Distinct([own] + made)
    ensures AllNumbered(made + [own], lo, hi) && Distinct(made + [own])
  {
    hide Numbered;
    var before, after := [own] + made, made + [own];
    assert before[0] == own;
    forall k | 0 <= k < |made| ensures before[k + 1] == made[k] {
    }
    forall k | 0 <= k < |after| ensures Numbered(after[k].name, lo, hi) {
      assert after[k] == before[if k < |made| then k + 1 else 0];
    }
    forall k, l | 0 <= k < l < |after| ensures after[k].name != after[l].name {
      assert before[k + 1] == made[k] == after[k];
      assert l < |made| ==> before[l + 1] == after[l];
    }
  }

  lemma OwnIsStemmed(made: seq<Rule>, own: Rule, base: string, counter: nat)
    requires own.name == GroupName(base, counter + 1) && Stemmed(made, own.name)
    ensures Stemmed(made + [own], base)
  {
    hide GroupName, Has;
    var all := made + [own];
    forall k | 0 <= k < |all| ensures StemIn(all, base, all[k].name) {
      if k < |made| {
        InnerStem(made, own, base, made[k].name);
      }
    }
  }

  lemma InnerStem(made: seq<Rule>, own: Rule, base: string, name: string)
    requires StemIn(made, own.name, name)
    ensures StemIn(made + [own], base, name)
  {
    assert [own][0].name == own.name && Has([own], own.name);
    hide Has;
    var stem, n :| name == GroupName(stem, n) && (stem == own.name || Has(made, stem));
    HasEither(made, [own], stem);
  }

  lemma {:induction false} ItemsWellNamed(items: seq<Item>, base: string, counter: nat)
    ensures var named := NameItems(items, base, counter); WellNamed(named.made, base, counter, named.counter)
    decreases items
  {
    if items != [] {
      var front := NameItems(items[..|items| - 1], base, counter);
      ItemsWellNamed(items[..|items| - 1], base, counter);
      ItemWellNamed(items[|items| - 1], base, front.counter);
      var last := NameItem(items[|items| - 1], base, front.counter);
      WellNamedTogether(front.made, last.made, base, counter, front.counter, last.counter);
    }
  }

  lemma {:induction false} ArmsWellNamed(arms: seq<Sequence>, base: string, counter: nat)
    ensures var named := NameArms(arms, base, counter); WellNamed(named.made, base, counter, named.counter)
    decreases arms
  {
    if arms != [] {
      var front := NameArms(arms[..|arms| - 1], base, counter);
      ArmsWellNamed(arms[..|arms| - 1], base, counter);
      ItemsWellNamed(arms[|arms| - 1].items, base, front.counter);
      var last := NameItems(arms[|arms| - 1].items, base, front.counter);
      WellNamedTogether(front.made, last.made, base, counter, front.counter, last.counter);
    }
  }

  // ---------- No rule is defined twice ----------

  /** The rules the groups of one rule become. */
  function MadeOf(rule: Rule): seq<Rule> {
    NameArms(rule.body.arms, rule.name, 0).made
  }

  /** No group is named like a rule. */
  ghost predicate NoneNamedLikeRule(rules: seq<Rule>) {
    forall i, j :: 0 <= i < |rules| && 0 <= j < |rules| ==> !Has(MadeOf(rules[i]), rules[j].name)
  }

  /** No group is named like a rule, or like a reference. */
  ghost predicate GroupNamesFree(rules: seq<Rule>) {
    && NoneNamedLikeRule(rules)
    && forall i, j, r :: 0 <= i < |rules| && 0 <= j < |rules| && r in AltRefs(rules[j].body) ==> !Has(MadeOf(rules[i]), r)
  }

  // The stem of a group's name can be read off it.
  lemma GroupStemIsUnique(a: string, m: nat, b: string, n: nat)
    requires GroupName(a, m) == GroupName(b, n)
    ensures a == b && m == n
  {
    GroupNumberIsUnique(a, m, b, n);
    var name := GroupName(a, m);
    assert a == name[..|name| - |Decimal(m)| - 2] == b;
  }

  // One name made under two bases leads, stem by stem, to one base being made under the other.
  lemma {:induction false} SharedNameClashes(a: seq<Rule>, b: seq<Rule>, one: string, other: string, name: string)
    requires Stemmed(a, one) && Stemmed(b, other) && one != other && Has(a, name) && Has(b, name)
    ensures Has(a, other) || Has(b, one)
    decreases |name|
  {
    var i :| 0 <= i < |a| && a[i].name == name;
    var j :| 0 <= j < |b| && b[j].name == name;
    assert StemIn(a, one, a[i].name) && StemIn(b, other, b[j].name);
    var stem, n :| name == GroupName(stem, n) && (stem == one || Has(a, stem));
    var twin, m :| name == GroupName(twin, m) && (twin == other || Has(b, twin));
    GroupStemIsUnique(stem, n, twin, m);
    if stem != one && stem != other {
      SharedNameClashes(a, b, one, other, stem);
    }
  }

  lemma OwnNamesApart(one: Rule, other: Rule)
    requires one.name != other.name && !Has(MadeOf(one), other.name) && !Has(MadeOf(other), one.name)
    ensures forall i, j :: 0 <= i < |MadeOf(one)| && 0 <= j < |MadeOf(other)| ==>
              MadeOf(one)[i].name != MadeOf(other)[j].name
  {
    var a, b := MadeOf(one), MadeOf(other);
    ArmsWellNamed(one.body.arms, one.name, 0);
    ArmsWellNamed(other.body.arms, other.name, 0);
    forall i, j | 0 <= i < |a| && 0 <= j < |b| ensures a[i].name != b[j].name {
      if a[i].name == b[j].name {
        assert Has(a, a[i].name) && Has(b, a[i].name);
        SharedNameClashes(a, b, one.name, other.name, a[i].name);
      }
    }
  }

  // Where a made rule comes from.
  ghost predicate MadeBy(rules: seq<Rule>, name: string) {
    exists i :: 0 <= i < |rules| && Has(MadeOf(rules[i]), name)
  }

  lemma {:induction false} MadeIsMadeBy(rules: seq<Rule>)
    ensures var (out, made) := NameRules(rules);
            && |out| == |rules| && (forall k :: 0 <= k < |rules| ==> out[k].name == rules[k].name)
            && forall name :: Has(made, name) <==> MadeBy(rules, name)
    decreases |rules|
  {
    if rules != [] {
      var front := rules[..|rules| - 1];
      MadeIsMadeBy(front);
      var made, own := NameRules(front).1, MadeOf(rules[|rules| - 1]);
      forall name ensures Has(made + own, name) <==> MadeBy(rules, name) {
        HasEither(made, own, name);
        assert MadeBy(front, name) || Has(own, name) <==> MadeBy(rules, name) by {
          MadeByLast(rules, name);
        }
      }
    }
  }

  lemma MadeByLast(rules: seq<Rule>, name: string)
    requires rules != []
    ensures MadeBy(rules, name) <==> MadeBy(rules[..|rules| - 1], name) || Has(MadeOf(rules[|rules| - 1]), name)
  {
    var front := rules[..|rules| - 1];
    if MadeBy(front, name) {
      var i :| 0 <= i < |front| && Has(MadeOf(front[i]), name);
      assert Has(MadeOf(rules[i]), name);
    }
    if MadeBy(rules, name) {
      var i :| 0 <= i < |rules| && Has(MadeOf(rules[i]), name);
      assert i < |front| ==> Has(MadeOf(front[i]), name);
    }
  }

  /** If no group is named like a rule, all groups of all rules are named apart. */
  lemma {:induction false} MadeAreDistinct(rules: seq<Rule>)
    requires Distinct(rules) && NoneNamedLikeRule(rules)
    ensures Distinct(NameRules(rules).1)
    decreases |rules|
  {
    if rules != [] {
      var front, rule := rules[..|rules| - 1], rules[|rules| - 1];
      assert forall i :: 0 <= i < |front| ==> front[i] == rules[i];
      MadeAreDistinct(front);
      MadeIsMadeBy(front);
      ArmsWellNamed(rule.body.arms, rule.name, 0);
      var made, own := NameRules(front).1, MadeOf(rule);
      forall i, j | 0 <= i < |made| && 0 <= j < |own| ensures made[i].name != own[j].name {
        assert Has(made, made[i].name) && MadeBy(front, made[i].name);
        var f :| 0 <= f < |front| && Has(MadeOf(front[f]), made[i].name);
        OwnNamesApart(rules[f], rule);
      }
    }
  }

  lemma FreeAreDistinct(rules: seq<Rule>)
    requires Distinct(rules) && NoneNamedLikeRule(rules)
    ensures var (out, made) := NameRules(rules); Distinct(out + made)
  {
    var (out, made) := NameRules(rules);
    MadeIsMadeBy(rules);
    MadeAreDistinct(rules);
    hide NameRules, MadeOf;
    forall i, j | 0 <= i < |out| && 0 <= j < |made| ensures out[i].name != made[j].name {
      assert Has(made, made[j].name) && MadeBy(rules, made[j].name);
    }
  }

  lemma DistinctAreFree(rules: seq<Rule>)
    requires var (out, made) := NameRules(rules); Distinct(out + made)
    ensures NoneNamedLikeRule(rules)
  {
    var (out, made) := NameRules(rules);
    var all := out + made;
    MadeIsMadeBy(rules);
    hide NameRules, MadeOf;
    forall i, j | 0 <= i < |rules| && 0 <= j < |rules| ensures !Has(MadeOf(rules[i]), rules[j].name) {
      forall k | 0 <= k < |made| ensures made[k].name != rules[j].name {
        assert all[j] == out[j] && all[|out| + k] == made[k];
      }
      assert !Has(made, rules[j].name) && !MadeBy(rules, rules[j].name);
    }
  }

  /** The named grammar defines every rule once exactly when no group is named like a rule. */
  lemma NamedRulesDistinct(rules: seq<Rule>)
    requires Distinct(rules)
    ensures var (out, made) := NameRules(rules); Distinct(out + made) <==> NoneNamedLikeRule(rules)
  {
    if NoneNamedLikeRule(rules) {
      FreeAreDistinct(rules);
    }
    var (out, made) := NameRules(rules);
    if Distinct(out + made) {
      DistinctAreFree(rules);
    }
  }

  // a ::= ("x") and a-g1 ::= "y".
  const X_GROUP := Item(Group(Alternation([Sequence([Item(Literal("x"), UNIT)])])), UNIT)

  const CLASHING: seq<Rule> := [
    Rule("a", Alternation([Sequence([X_GROUP])])),
    Rule("a-g1", Alternation([Sequence([Item(Literal("y"), UNIT)])]))]

  /** A rule called like another's group is defined twice. */
  lemma GroupCanClash()
    ensures Distinct(CLASHING)
    ensures var (out, made) := NameRules(CLASHING); !Distinct(out + made)
  {
    var named := NameItem(X_GROUP, "a", 0);
    assert Decimal(1) == "1" && GroupName("a", 1) == "a-g1";
    assert [X_GROUP][..0] == [] && [Sequence([X_GROUP])][..0] == [];
    assert named.made[|named.made| - 1].name == "a-g1";
    assert NameItems([X_GROUP], "a", 0).made == [] + named.made == named.made;
    assert NameArms([], "a", 0) == Named([], 0, []);
    assert NameArms([Sequence([X_GROUP])], "a", 0).made == [] + NameItems([X_GROUP], "a", 0).made;
    assert CLASHING[0] == Rule("a", Alternation([Sequence([X_GROUP])]));
    assert MadeOf(CLASHING[0]) == named.made;
    hide NameItem, NameArms, MadeOf, NameRules;
    assert Has(MadeOf(CLASHING[0]), CLASHING[1].name);
    NamedRulesDistinct(CLASHING);
  }

  /** The name, or a group's under it at any depth. */
  ghost predicate Chain(base: string, name: string)
    decreases |name|
  {
    name == base || exists stem, n :: |stem| < |name| && name == GroupName(stem, n) && Chain(base, stem)
  }

  lemma {:induction false} MadeIsChain(made: seq<Rule>, base: string, name: string)
    requires Stemmed(made, base) && Has(made, name)
    ensures Chain(base, name) && |name| > |base|
    decreases |name|
  {
    var k :| 0 <= k < |made| && made[k].name == name;
    assert StemIn(made, base, made[k].name);
    var stem, n :| name == GroupName(stem, n) && (stem == base || Has(made, stem));
    if stem != base {
      MadeIsChain(made, base, stem);
    }
  }

  /** Names alone can tell: no rule and no reference is called like a group that some rule could have. */
  lemma ChainFreeIsFree(rules: seq<Rule>)
    requires forall i, j :: 0 <= i < |rules| && 0 <= j < |rules| && Chain(rules[i].name, rules[j].name) ==>
               rules[i].name == rules[j].name
    requires forall i, j, r :: 0 <= i < |rules| && 0 <= j < |rules| && r in AltRefs(rules[j].body) && Chain(rules[i].name, r) ==>
               rules[i].name == r
    ensures GroupNamesFree(rules)
  {
    forall i, name | 0 <= i < |rules| && Has(MadeOf(rules[i]), name)
      ensures Chain(rules[i].name, name) && rules[i].name != name
    {
      ArmsWellNamed(rules[i].body.arms, rules[i].name, 0);
      MadeIsChain(MadeOf(rules[i]), rules[i].name, name);
    }
  }

  // ---------- Languages are kept, and no group is left ----------

  /** A grammar as a table; a later rule of the same name wins. */
  function AsRules(rules: seq<Rule>): Rules {
    if rules == [] then map[]
    else AsRules(rules[..|rules| - 1])[rules[|rules| - 1].name := rules[|rules| - 1].body]
  }

  lemma {:induction false} Lookup(rules: seq<Rule>)
    requires Distinct(rules)
    ensures forall k ::
          0 <= k < |rules| ==> rules[k].name in AsRules(rules) && AsRules(rules)[rules[k].name] == rules[k].body
    ensures forall name :: name in AsRules(rules) ==> exists k :: 0 <= k < |rules| && rules[k].name == name
    decreases |rules|
  {
    if rules != [] {
      var front := rules[..|rules| - 1];
      Lookup(front);
      assert forall k :: 0 <= k < |front| ==> front[k] == rules[k];
      forall name | name in AsRules(rules) ensures exists k :: 0 <= k < |rules| && rules[k].name == name {
        if name in AsRules(front) {
          var k :| 0 <= k < |front| && front[k].name == name;
          assert rules[k].name == name;
        } else {
          assert rules[|rules| - 1].name == name;
        }
      }
    }
  }

  predicate GroupFree(arms: seq<Sequence>) {
    forall a, i :: 0 <= a < |arms| && 0 <= i < |arms[a].items| ==> !arms[a].items[i].atom.Group?
  }

  ghost predicate AllGroupFree(rules: seq<Rule>) {
    forall k :: 0 <= k < |rules| ==> GroupFree(rules[k].body.arms)
  }

  lemma {:induction false} ItemGroupFree(item: Item, base: string, counter: nat)
    ensures var named := NameItem(item, base, counter); !named.result.atom.Group? && AllGroupFree(named.made)
    decreases item
  {
    if item.atom.Group? {
      ArmsGroupFree(item.atom.body.arms, GroupName(base, counter + 1), counter + 1);
    }
  }

  lemma {:induction false} ItemsGroupFree(items: seq<Item>, base: string, counter: nat)
    ensures var named := NameItems(items, base, counter);
            AllGroupFree(named.made) && forall i :: 0 <= i < |named.result| ==> !named.result[i].atom.Group?
    decreases items
  {
    if items != [] {
      ItemsGroupFree(items[..|items| - 1], base, counter);
      ItemGroupFree(items[|items| - 1], base, NameItems(items[..|items| - 1], base, counter).counter);
    }
  }

  lemma {:induction false} ArmsGroupFree(arms: seq<Sequence>, base: string, counter: nat)
    ensures var named := NameArms(arms, base, counter); GroupFree(named.result) && AllGroupFree(named.made)
    decreases arms
  {
    if arms != [] {
      ArmsGroupFree(arms[..|arms| - 1], base, counter);
      ItemsGroupFree(arms[|arms| - 1].items, base, NameArms(arms[..|arms| - 1], base, counter).counter);
    }
  }

  /** Every rule of the named grammar, original or made, is without groups. */
  lemma {:induction false} NamedRulesGroupFree(rules: seq<Rule>)
    ensures var (out, made) := NameRules(rules); AllGroupFree(out) && AllGroupFree(made)
    decreases |rules|
  {
    if rules != [] {
      var rule := rules[|rules| - 1];
      NamedRulesGroupFree(rules[..|rules| - 1]);
      ArmsGroupFree(rule.body.arms, rule.name, 0);
    }
  }

  // `to` defines the made rules, and the references of the original stay what they were.
  ghost predicate Holds(to: Rules, made: seq<Rule>) {
    forall k :: 0 <= k < |made| ==> made[k].name in to && to[made[k].name] == made[k].body
  }

  ghost predicate RefsKept(from: Rules, to: Rules, refs: set<string>) {
    forall name :: name in refs ==> SameDefined(from, to, name)
  }

  lemma {:induction false} ItemIsTo(from: Rules, to: Rules, item: Item, base: string, counter: nat)
    requires Holds(to, NameItem(item, base, counter).made) && RefsKept(from, to, AtomRefs(item.atom))
    ensures ItemTo(from, to, item, NameItem(item, base, counter).result)
    decreases item
  {
    match item.atom {
      case RuleRef(name) => assert name in AtomRefs(item.atom);
      case Group(body) =>
        var name := GroupName(base, counter + 1);
        var inner := NameArms(body.arms, name, counter + 1);
        var made := NameItem(item, base, counter).made;
        forall k | 0 <= k < |inner.made| ensures inner.made[k].name in to && to[inner.made[k].name] == inner.made[k].body {
          assert made[k] == inner.made[k];
        }
        assert made[|inner.made|] == Rule(name, Alternation(inner.result));
        forall a, r | 0 <= a < |body.arms| && r in ArmRefs(body.arms[a]) ensures SameDefined(from, to, r) {
          assert r in AltRefs(body);
        }
        ArmsAreTo(from, to, body.arms, name, counter + 1);
      case _ =>
    }
  }

  lemma {:induction false} ItemsAreTo(from: Rules, to: Rules, items: seq<Item>, base: string, counter: nat)
    requires Holds(to, NameItems(items, base, counter).made)
    requires forall i :: 0 <= i < |items| ==> RefsKept(from, to, AtomRefs(items[i].atom))
    ensures var named := NameItems(items, base, counter).result;
            |named| == |items| && forall i :: 0 <= i < |items| ==> ItemTo(from, to, items[i], named[i])
    decreases items
  {
    if items != [] {
      var front := NameItems(items[..|items| - 1], base, counter);
      var last := NameItem(items[|items| - 1], base, front.counter);
      HoldsParts(to, front.made, last.made);
      ItemsAreTo(from, to, items[..|items| - 1], base, counter);
      ItemIsTo(from, to, items[|items| - 1], base, front.counter);
    }
  }

  lemma HoldsParts(to: Rules, a: seq<Rule>, b: seq<Rule>)
    requires Holds(to, a + b)
    ensures Holds(to, a) && Holds(to, b)
  {
    assert forall k :: 0 <= k < |a| ==> (a + b)[k] == a[k];
    assert forall k :: 0 <= k < |b| ==> (a + b)[|a| + k] == b[k];
  }

  lemma {:induction false} ArmsAreTo(from: Rules, to: Rules, arms: seq<Sequence>, base: string, counter: nat)
    requires Holds(to, NameArms(arms, base, counter).made)
    requires forall a :: 0 <= a < |arms| ==> RefsKept(from, to, ArmRefs(arms[a]))
    ensures var named := NameArms(arms, base, counter).result;
            |named| == |arms| && forall a :: 0 <= a < |arms| ==> ArmTo(from, to, arms[a], named[a])
    decreases arms
  {
    if arms != [] {
      var front := NameArms(arms[..|arms| - 1], base, counter);
      var items := arms[|arms| - 1].items;
      var last := NameItems(items, base, front.counter);
      HoldsParts(to, front.made, last.made);
      ArmsAreTo(from, to, arms[..|arms| - 1], base, counter);
      forall i, r | 0 <= i < |items| && r in AtomRefs(items[i].atom) ensures SameDefined(from, to, r) {
        assert r in ArmRefs(arms[|arms| - 1]);
      }
      ItemsAreTo(from, to, items, base, front.counter);
    }
  }

  lemma {:induction false} RulesAreTo(from: Rules, to: Rules, rules: seq<Rule>)
    requires Holds(to, NameRules(rules).0) && Holds(to, NameRules(rules).1)
    requires forall k :: 0 <= k < |rules| ==> RefsKept(from, to, AltRefs(rules[k].body))
    ensures forall k :: 0 <= k < |rules| ==> rules[k].name in to && AltTo(from, to, rules[k].body, to[rules[k].name])
    decreases |rules|
  {
    if rules != [] {
      var front := rules[..|rules| - 1];
      var rule := rules[|rules| - 1];
      var named := NameArms(rule.body.arms, rule.name, 0);
      HoldsParts(to, NameRules(front).0, [Rule(rule.name, Alternation(named.result))]);
      HoldsParts(to, NameRules(front).1, named.made);
      RulesAreTo(from, to, front);
      forall a, r | 0 <= a < |rule.body.arms| && r in ArmRefs(rule.body.arms[a]) ensures SameDefined(from, to, r) {
        assert r in AltRefs(rule.body);
      }
      ArmsAreTo(from, to, rule.body.arms, rule.name, 0);
      assert [Rule(rule.name, Alternation(named.result))][0].name in to;
      forall k | 0 <= k < |rules| ensures rules[k].name in to && AltTo(from, to, rules[k].body, to[rules[k].name]) {
        if k < |front| {
          assert front[k] == rules[k];
        }
      }
    }
  }

  /** Naming its groups leaves every rule of a grammar the language it had. */
  lemma NamingKeepsLanguages(rules: seq<Rule>, name: string, text: string)
    requires Distinct(rules) && GroupNamesFree(rules) && name in AsRules(rules)
    ensures var (out, made) := NameRules(rules);
            InLanguage(AsRules(rules), name, text) <==> InLanguage(AsRules(out + made), name, text)
  {
    var (out, made) := NameRules(rules);
    var from, to := AsRules(rules), AsRules(out + made);
    MadeIsMadeBy(rules);
    NamedRulesDistinct(rules);
    Lookup(rules);
    Lookup(out + made);
    HoldsParts(to, out, made);
    forall k, r | 0 <= k < |rules| && r in AltRefs(rules[k].body) ensures SameDefined(from, to, r) {
      RefStays(rules, out, made, k, r);
    }
    RulesAreTo(from, to, rules);
    forall n | n in from ensures n in to && AltTo(from, to, from[n], to[n]) {
      var k :| 0 <= k < |rules| && rules[k].name == n;
    }
    RewriteKeepsLanguages(from, to, name, text);
  }

  lemma RefStays(rules: seq<Rule>, out: seq<Rule>, made: seq<Rule>, k: nat, r: string)
    requires Distinct(rules) && GroupNamesFree(rules) && Distinct(out + made)
    requires |out| == |rules| && forall j :: 0 <= j < |rules| ==> out[j].name == rules[j].name
    requires forall name :: Has(made, name) <==> MadeBy(rules, name)
    requires k < |rules| && r in AltRefs(rules[k].body)
    ensures SameDefined(AsRules(rules), AsRules(out + made), r)
  {
    Lookup(rules);
    Lookup(out + made);
    forall j | |out| <= j < |out + made| ensures (out + made)[j].name != r {
      assert Has(made, made[j - |out|].name) && MadeBy(rules, made[j - |out|].name);
    }
    if r in AsRules(rules) {
      var j :| 0 <= j < |rules| && rules[j].name == r;
      assert (out + made)[j].name == r;
    }
    if r in AsRules(out + made) {
      var j :| 0 <= j < |out + made| && (out + made)[j].name == r;
      assert j < |out| && rules[j].name == r;
    }
  }
}
