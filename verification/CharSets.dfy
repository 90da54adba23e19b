/**
 Code-point sets as sorted disjoint intervals, and the partition that gives a
 lexer one token per block.
 */
module CharSets {

  const MAX_POINT: nat := 0x10FFFF

  datatype Interval = Interval(lo: nat, hi: nat)

  type CharSet = seq<Interval>

  // ---------- What a set holds ----------

  predicate Between(interval: Interval, point: nat) {
    interval.lo <= point <= interval.hi
  }

  predicate Member(charset: CharSet, point: nat) {
    exists k :: 0 <= k < |charset| && Between(charset[k], point)
  }

  predicate Proper(intervals: seq<Interval>) {
    forall k :: 0 <= k < |intervals| ==> intervals[k].lo <= intervals[k].hi
  }

  /** Sorted, disjoint, nothing touching. */
  predicate Normal(charset: CharSet) {
    && Proper(charset)
    && forall i, k :: 0 <= i < k < |charset| ==> charset[i].hi + 1 < charset[k].lo
  }

  predicate InRange(charset: CharSet) {
    forall k :: 0 <= k < |charset| ==> charset[k].hi <= MAX_POINT
  }

  ghost predicate SameMembers(a: CharSet, b: CharSet) {
    forall p: nat :: Member(a, p) <==> Member(b, p)
  }

  /** A normal set is told by its members: no two spellings of one set. */
  lemma {:induction false} NormalIsCanonical(a: CharSet, b: CharSet)
    requires Normal(a) && Normal(b) && SameMembers(a, b)
    ensures a == b
    decreases |a| + |b|
  {
    hide Member, Between;
    NothingHeld();
    if a == [] {
      if b != [] {
        StartIsMember(b);
      }
    } else {
      StartIsMember(a);
      HeadsAgree(a, b);
      forall p: nat ensures Member(a[1..], p) <==> Member(b[1..], p) {
        TailMembers(a, p);
        TailMembers(b, p);
      }
      assert SameMembers(a[1..], b[1..]);
      NormalIsCanonical(a[1..], b[1..]);
      assert a == [a[0]] + a[1..] && b == [b[0]] + b[1..];
    }
  }

  lemma StartIsMember(a: CharSet)
    requires a != [] && Normal(a)
    ensures Member(a, a[0].lo)
  {
    assert Between(a[0], a[0].lo);
  }

  lemma TailMembers(a: CharSet, p: nat)
    requires Normal(a) && a != []
    ensures Member(a[1..], p) <==> Member(a, p) && !Between(a[0], p)
  {
    if Member(a, p) && !Between(a[0], p) {
      var k :| 0 <= k < |a| && Between(a[k], p);
      assert a[1..][k - 1] == a[k];
    }
    if Member(a[1..], p) {
      var k :| 0 <= k < |a[1..]| && Between(a[1..][k], p);
      assert a[k + 1] == a[1..][k] && a[0].hi + 1 < a[k + 1].lo;
    }
  }

  lemma LeastMember(a: CharSet, p: nat)
    requires Normal(a) && Member(a, p)
    ensures a != [] && a[0].lo <= p && (p == a[0].hi + 1 ==> false)
  {
    var k :| 0 <= k < |a| && Between(a[k], p);
    if k > 0 {
      assert a[0].hi + 1 < a[k].lo;
    }
  }

  lemma HeadsAgree(a: CharSet, b: CharSet)
    requires Normal(a) && Normal(b) && SameMembers(a, b) && a != [] && b != []
    ensures a[0] == b[0]
  {
    assert Between(a[0], a[0].lo) && Between(b[0], b[0].lo);
    assert Member(a, a[0].lo) && Member(b, b[0].lo);
    LeastMember(a, b[0].lo);
    LeastMember(b, a[0].lo);
    if a[0].hi < b[0].hi {
      assert Between(b[0], a[0].hi + 1) && Member(b, a[0].hi + 1);
      LeastMember(a, a[0].hi + 1);
    } else if b[0].hi < a[0].hi {
      assert Between(a[0], b[0].hi + 1) && Member(a, b[0].hi + 1);
      LeastMember(b, b[0].hi + 1);
    }
  }

  // ---------- Normalizing ----------

  predicate Before(a: Interval, b: Interval) {
    a.lo < b.lo || (a.lo == b.lo && a.hi <= b.hi)
  }

  predicate Ordered(intervals: seq<Interval>) {
    forall i, k :: 0 <= i < k < |intervals| ==> Before(intervals[i], intervals[k])
  }

  /** Intervals in ascending order. */
  function Sorted(intervals: seq<Interval>): seq<Interval> {
    if intervals == [] then [] else Inserted(intervals[0], Sorted(intervals[1..]))
  }

  function Inserted(x: Interval, sorted: seq<Interval>): seq<Interval> {
    if sorted == [] then [x]
    else if Before(x, sorted[0]) then [x] + sorted
    else [sorted[0]] + Inserted(x, sorted[1..])
  }

  predicate AtLeast(b: Interval, intervals: seq<Interval>) {
    forall k :: 0 <= k < |intervals| ==> Before(b, intervals[k])
  }

  lemma {:induction false} InsertedElements(x: Interval, sorted: seq<Interval>)
    ensures multiset(Inserted(x, sorted)) == multiset(sorted) + multiset{x}
    decreases |sorted|
  {
    if sorted != [] {
      assert sorted == [sorted[0]] + sorted[1..];
      InsertedElements(x, sorted[1..]);
    }
  }

  lemma {:induction false} InsertedAtLeast(b: Interval, x: Interval, sorted: seq<Interval>)
    requires Before(b, x) && AtLeast(b, sorted)
    ensures AtLeast(b, Inserted(x, sorted))
    decreases |sorted|
  {
    if sorted != [] {
      InsertedAtLeast(b, x, sorted[1..]);
    }
  }

  lemma {:induction false} InsertedIsOrdered(x: Interval, sorted: seq<Interval>)
    requires Ordered(sorted)
    ensures Ordered(Inserted(x, sorted))
    decreases |sorted|
  {
    if sorted != [] {
      if Before(x, sorted[0]) {
        assert forall k :: 0 < k < |sorted| ==> Before(sorted[0], sorted[k]);
      } else {
        assert AtLeast(sorted[0], sorted[1..]);
        InsertedIsOrdered(x, sorted[1..]);
        InsertedAtLeast(sorted[0], x, sorted[1..]);
      }
    }
  }

  lemma {:induction false} SortedIsOrdered(intervals: seq<Interval>)
    ensures Ordered(Sorted(intervals)) && multiset(Sorted(intervals)) == multiset(intervals)
    decreases |intervals|
  {
    if intervals != [] {
      assert intervals == [intervals[0]] + intervals[1..];
      SortedIsOrdered(intervals[1..]);
      InsertedIsOrdered(intervals[0], Sorted(intervals[1..]));
      InsertedElements(intervals[0], Sorted(intervals[1..]));
    }
  }

  lemma SameElements(a: seq<Interval>, b: seq<Interval>)
    requires multiset(a) == multiset(b)
    ensures SameMembers(a, b) && (Proper(a) ==> Proper(b)) && (InRange(a) ==> InRange(b))
  {
    forall k | 0 <= k < |b| ensures exists j :: 0 <= j < |a| && a[j] == b[k] {
      assert b[k] in multiset(b);
      assert b[k] in a;
    }
    forall k | 0 <= k < |a| ensures exists j :: 0 <= j < |b| && b[j] == a[k] {
      assert a[k] in multiset(a);
      assert a[k] in b;
    }
  }

  /** The next interval in order, merged into the last when they touch or overlap. */
  function Merged(out: CharSet, next: Interval): CharSet {
    if out != [] && next.lo <= out[|out| - 1].hi + 1 then
      var last := out[|out| - 1];
      out[..|out| - 1] + [Interval(last.lo, if last.hi < next.hi then next.hi else last.hi)]
    else out + [next]
  }

  lemma MergedIsNormal(out: CharSet, next: Interval)
    requires Normal(out) && next.lo <= next.hi && (out != [] ==> out[|out| - 1].lo <= next.lo)
    ensures Normal(Merged(out, next)) && Merged(out, next)[|Merged(out, next)| - 1].lo <= next.lo
    ensures InRange(out) && next.hi <= MAX_POINT ==> InRange(Merged(out, next))
    ensures forall p: nat :: Member(Merged(out, next), p) <==> Member(out, p) || Between(next, p)
  {
    var merged := Merged(out, next);
    if merged == out + [next] {
      AppendedMembers(out, next);
    } else {
      var last := out[|out| - 1];
      assert out == out[..|out| - 1] + [last];
      AppendedMembers(out[..|out| - 1], last);
      AppendedMembers(out[..|out| - 1], merged[|out| - 1]);
    }
  }

  /** Sorted and merged, whatever touches or overlaps coalesced: a normal set of the same points. */
  method Normalized(intervals: seq<Interval>) returns (out: CharSet)
    requires Proper(intervals)
    ensures Normal(out) && SameMembers(out, intervals)
    ensures InRange(intervals) ==> InRange(out)
  {
    hide Member, Sorted, Before, Normal, Ordered;
    var sorted := Sorted(intervals);
    SortedIsOrdered(intervals);
    SameElements(intervals, sorted);
    BeforeStarts(sorted);
    NothingHeld();
    out := [];
    for k := 0 to |sorted|
      invariant Normal(out) && forall p: nat :: Member(out, p) <==> Member(sorted[..k], p)
      invariant out != [] ==> k > 0 && out[|out| - 1].lo <= sorted[k - 1].lo
      invariant InRange(sorted) ==> InRange(out)
    {
      var next := sorted[k];
      MergedIsNormal(out, next);
      AppendedMembers(sorted[..k], next);
      assert sorted[..k + 1] == sorted[..k] + [next];
      if out != [] && next.lo <= out[|out| - 1].hi + 1 {
        var last := out[|out| - 1];
        out := out[..|out| - 1] + [Interval(last.lo, if last.hi < next.hi then next.hi else last.hi)];
      } else {
        out := out + [next];
      }
    }
    assert sorted[..|sorted|] == sorted;
  }

  lemma BeforeStarts(sorted: seq<Interval>)
    requires Ordered(sorted)
    ensures forall k :: 0 < k < |sorted| ==> sorted[k - 1].lo <= sorted[k].lo
  {
    assert forall k :: 0 < k < |sorted| ==> Before(sorted[k - 1], sorted[k]);
  }

  lemma NothingHeld()
    ensures Normal([]) && forall p: nat :: !Member([], p)
  {
  }

  lemma AppendedMembers(a: CharSet, next: Interval)
    ensures forall p: nat :: Member(a + [next], p) <==> Member(a, p) || Between(next, p)
  {
    forall p: nat ensures Member(a + [next], p) <==> Member(a, p) || Between(next, p) {
      if Member(a, p) {
        var k :| 0 <= k < |a| && Between(a[k], p);
        assert Between((a + [next])[k], p);
      }
      assert (a + [next])[|a|] == next;
    }
  }

  // ---------- Complement ----------

  ghost predicate IsComplement(charset: CharSet, other: CharSet) {
    && Normal(other) && InRange(other)
    && forall p: nat :: Member(other, p) <==> p <= MAX_POINT && !Member(charset, p)
  }

  /** The points there are: the complement of nothing runs from 0 to 1114111. */
  lemma EveryPoint(other: CharSet)
    requires IsComplement([], other)
    ensures other == [Interval(0, 1114111)]
  {
    NothingHeld();
    var every := [Interval(0, 1114111)];
    assert Between(every[0], 0);
    forall p: nat ensures Member(every, p) <==> p <= 1114111 {
      assert Member(every, p) <==> Between(every[0], p);
    }
    NormalIsCanonical(other, every);
  }

  // The gap before an interval, if there is one.
  lemma GapFilled(charset: CharSet, k: nat, out: CharSet, cursor: nat)
    requires Normal(charset) && k < |charset| && cursor == if k == 0 then 0 else charset[k - 1].hi + 1
    requires forall p: nat :: Member(out, p) <==> p < cursor && !Member(charset[..k], p)
    ensures cursor <= charset[k].lo
    ensures var more := if cursor < charset[k].lo then out + [Interval(cursor, charset[k].lo - 1)] else out;
            forall p: nat :: Member(more, p) <==> p < charset[k].hi + 1 && !Member(charset[..k + 1], p)
  {
    assert k > 0 ==> charset[k - 1].hi + 1 < charset[k].lo;
    assert charset[..k + 1] == charset[..k] + [charset[k]];
    AppendedMembers(charset[..k], charset[k]);
    NoneBeyond(charset[..k], cursor);
    AppendedMembers(out, Interval(cursor, if cursor < charset[k].lo then charset[k].lo - 1 else 0));
  }

  /** Every code point the set does not hold. */
  method Complement(charset: CharSet) returns (out: CharSet)
    requires Normal(charset) && InRange(charset)
    ensures IsComplement(charset, out)
  {
    hide Member;
    NothingHeld();
    out := [];
    var cursor := 0;
    for k := 0 to |charset|
      invariant cursor == if k == 0 then 0 else charset[k - 1].hi + 1
      invariant Normal(out) && InRange(out) && (out != [] ==> k > 0 && out[|out| - 1].hi < charset[k - 1].lo)
      invariant forall p: nat :: Member(out, p) <==> p < cursor && !Member(charset[..k], p)
    {
      GapFilled(charset, k, out, cursor);
      var interval := charset[k];
      if cursor < interval.lo {
        out := out + [Interval(cursor, interval.lo - 1)];
      }
      cursor := interval.hi + 1;
    }
    assert charset[..|charset|] == charset;
    NoneBeyond(charset, cursor);
    if cursor <= MAX_POINT {
      AppendedMembers(out, Interval(cursor, MAX_POINT));
      out := out + [Interval(cursor, MAX_POINT)];
    }
  }

  lemma NoneBeyond(charset: CharSet, cursor: nat)
    requires Normal(charset) && cursor == if charset == [] then 0 else charset[|charset| - 1].hi + 1
    ensures forall p: nat :: Member(charset, p) ==> p < cursor
  {
    forall p: nat | Member(charset, p) ensures p < cursor {
      var k :| 0 <= k < |charset| && Between(charset[k], p);
      if k < |charset| - 1 {
        assert charset[k].hi + 1 < charset[|charset| - 1].lo;
      }
    }
  }

  lemma ComplementIsUnique(charset: CharSet, a: CharSet, b: CharSet)
    requires IsComplement(charset, a) && IsComplement(charset, b)
    ensures a == b
  {
    NormalIsCanonical(a, b);
  }

  /** Complementing twice gives back the very same intervals. */
  lemma ComplementTwice(charset: CharSet, once: CharSet, twice: CharSet)
    requires Normal(charset) && InRange(charset) && IsComplement(charset, once) && IsComplement(once, twice)
    ensures twice == charset
  {
    forall p: nat ensures Member(twice, p) <==> Member(charset, p) {
      if Member(charset, p) {
        var k :| 0 <= k < |charset| && Between(charset[k], p);
      }
    }
    NormalIsCanonical(twice, charset);
  }

  // ---------- Membership and overlap ----------

  /** How many intervals start at or before the point, by bisection. */
  method BisectRight(charset: CharSet, point: nat) returns (lo: nat)
    requires Normal(charset)
    ensures lo <= |charset|
    ensures forall k :: 0 <= k < lo ==> charset[k].lo <= point
    ensures forall k :: lo <= k < |charset| ==> point < charset[k].lo
  {
    lo := 0;
    var hi := |charset|;
    while lo < hi
      invariant lo <= hi <= |charset|
      invariant forall k :: 0 <= k < lo ==> charset[k].lo <= point
      invariant forall k :: hi <= k < |charset| ==> point < charset[k].lo
    {
      var mid := (lo + hi) / 2;
      if point < charset[mid].lo {
        hi := mid;
      } else {
        lo := mid + 1;
      }
    }
  }

  lemma HeldByLastStarted(charset: CharSet, point: nat, index: nat)
    requires Normal(charset) && index <= |charset|
    requires forall k :: 0 <= k < index ==> charset[k].lo <= point
    requires forall k :: index <= k < |charset| ==> point < charset[k].lo
    ensures Member(charset, point) <==> index >= 1 && charset[index - 1].hi >= point
  {
    if Member(charset, point) {
      var k :| 0 <= k < |charset| && Between(charset[k], point);
      forall j | k < j < |charset| ensures point < charset[j].lo {
        assert charset[k].hi + 1 < charset[j].lo;
      }
    }
    if index >= 1 && charset[index - 1].hi >= point {
      assert Between(charset[index - 1], point);
    }
  }

  method Holds(charset: CharSet, point: nat) returns (r: bool)
    requires Normal(charset)
    ensures r == Member(charset, point)
  {
    var index := BisectRight(charset, point);
    HeldByLastStarted(charset, point, index);
    r := index >= 1 && charset[index - 1].hi >= point;
  }

  predicate Overlap(left: CharSet, right: CharSet) {
    exists i, j :: 0 <= i < |left| && 0 <= j < |right| && left[i].lo <= right[j].hi && right[j].lo <= left[i].hi
  }

  /** Two sets overlap exactly when they share a point. */
  lemma OverlapShares(left: CharSet, right: CharSet)
    requires Proper(left) && Proper(right)
    ensures Overlap(left, right) <==> exists p: nat :: Member(left, p) && Member(right, p)
  {
    if Overlap(left, right) {
      var i, j :| 0 <= i < |left| && 0 <= j < |right| && left[i].lo <= right[j].hi && right[j].lo <= left[i].hi;
      var p := if left[i].lo < right[j].lo then right[j].lo else left[i].lo;
      assert Between(left[i], p) && Between(right[j], p);
      assert Member(left, p) && Member(right, p);
    }
    if exists p: nat :: Member(left, p) && Member(right, p) {
      var p: nat :| Member(left, p) && Member(right, p);
      var i :| 0 <= i < |left| && Between(left[i], p);
      var j :| 0 <= j < |right| && Between(right[j], p);
      assert left[i].lo <= right[j].hi && right[j].lo <= left[i].hi;
    }
  }

  method OfPoint(point: nat) returns (r: CharSet)
    ensures r == [Interval(point, point)]
  {
    r := Normalized([Interval(point, point)]);
    NormalIsCanonical(r, [Interval(point, point)]);
  }

  // ---------- Partition ----------

  predicate Fit(sets: seq<CharSet>) {
    forall i :: 0 <= i < |sets| ==> Normal(sets[i]) && InRange(sets[i])
  }

  /** Which of the sets hold the point. */
  function Signature(sets: seq<CharSet>, point: nat): set<nat> {
    set i | 0 <= i < |sets| && Member(sets[i], point)
  }

  /** The signature of the block's points, read off its first. */
  function BlockSignature(sets: seq<CharSet>, block: CharSet): set<nat> {
    if block == [] then {} else Signature(sets, block[0].lo)
  }

  function BlockSignatures(sets: seq<CharSet>, blocks: seq<CharSet>): (r: seq<set<nat>>)
    ensures |r| == |blocks| && forall b :: 0 <= b < |blocks| ==> r[b] == BlockSignature(sets, blocks[b])
  {
    seq(|blocks|, b requires 0 <= b < |blocks| => BlockSignature(sets, blocks[b]))
  }

  /** Block `b` holds exactly the points whose signature is `signatures[b]`. */
  ghost predicate BlocksOf(sets: seq<CharSet>, signatures: seq<set<nat>>, blocks: seq<CharSet>) {
    && |blocks| == |signatures|
    && (forall b :: 0 <= b < |blocks| ==> Normal(blocks[b]) && blocks[b] != [] && signatures[b] != {})
    && (forall b, p: nat :: 0 <= b < |blocks| ==>
          (Member(blocks[b], p) <==> p <= MAX_POINT && Signature(sets, p) == signatures[b]))
    && (forall p: nat :: p <= MAX_POINT && Signature(sets, p) != {} ==> Signature(sets, p) in signatures)
    && forall b, c :: 0 <= b < |signatures| && 0 <= c < |signatures| && signatures[b] == signatures[c] ==> b == c
  }

  predicate Ascending(points: seq<nat>) {
    forall i, k :: 0 <= i < k < |points| ==> points[i] < points[k]
  }

  /** The blocks listed for a set are those whose signature holds it. */
  ghost predicate ListedFor(signatures: seq<set<nat>>, i: nat, listed: seq<nat>) {
    && (forall k :: 0 <= k < |listed| ==> listed[k] < |signatures| && i in signatures[listed[k]])
    && (forall b :: 0 <= b < |signatures| && i in signatures[b] ==> exists k :: 0 <= k < |listed| && listed[k] == b)
    && Ascending(listed)
  }

  /** Every interval starts and stops at an edge. */
  ghost predicate Edged(sets: seq<CharSet>, edges: set<nat>) {
    && 0 in edges && MAX_POINT + 1 in edges && (forall e :: e in edges ==> e <= MAX_POINT + 1)
    && forall i, k :: 0 <= i < |sets| && 0 <= k < |sets[i]| ==> sets[i][k].lo in edges && sets[i][k].hi + 1 in edges
  }

  // No edge between: the same intervals hold both points.
  lemma SameBetweenEdges(charset: CharSet, edges: set<nat>, start: nat, p: nat)
    requires forall k :: 0 <= k < |charset| ==> charset[k].lo in edges && charset[k].hi + 1 in edges
    requires start <= p && forall e :: e in edges ==> !(start < e <= p)
    ensures Member(charset, start) <==> Member(charset, p)
  {
    if Member(charset, start) {
      var k :| 0 <= k < |charset| && Between(charset[k], start);
      assert charset[k].hi + 1 in edges;
      assert Between(charset[k], p);
    }
    if Member(charset, p) {
      var k :| 0 <= k < |charset| && Between(charset[k], p);
      assert charset[k].lo in edges;
      assert Between(charset[k], start);
    }
  }

  lemma SameSignature(sets: seq<CharSet>, edges: set<nat>, start: nat, p: nat)
    requires Edged(sets, edges) && start <= p && forall e :: e in edges ==> !(start < e <= p)
    ensures Signature(sets, start) == Signature(sets, p)
  {
    forall i | 0 <= i < |sets| ensures Member(sets[i], start) <==> Member(sets[i], p) {
      SameBetweenEdges(sets[i], edges, start, p);
    }
  }

  method Least(points: set<nat>) returns (least: nat)
    requires points != {}
    ensures least in points && forall e :: e in points ==> least <= e
  {
    least :| least in points;
    var rest := points - {least};
    while rest != {}
      invariant rest <= points && least in points
      invariant forall e :: e in points && e !in rest ==> least <= e
      decreases rest
    {
      var e :| e in rest;
      if e < least {
        least := e;
      }
      rest := rest - {e};
    }
  }

  /** The points of a set in ascending order. */
  method SortedPoints(edges: set<nat>) returns (points: seq<nat>)
    ensures Ascending(points) && forall e :: e in edges <==> exists k :: 0 <= k < |points| && points[k] == e
  {
    points := [];
    var left := edges;
    while left != {}
      invariant left <= edges && Ascending(points)
      invariant forall e, k :: e in left && 0 <= k < |points| ==> points[k] < e
      invariant forall e :: e in edges && e !in left ==> exists k :: 0 <= k < |points| && points[k] == e
      invariant forall k :: 0 <= k < |points| ==> points[k] in edges
      decreases left
    {
      var least := Least(left);
      ghost var before := points;
      points := points + [least];
      left := left - {least};
      forall e | e in edges && e !in left ensures exists k :: 0 <= k < |points| && points[k] == e {
        if e == least {
          assert points[|before|] == e;
        } else {
          var k :| 0 <= k < |before| && before[k] == e;
          assert points[k] == e;
        }
      }
    }
  }

  method Edges(sets: seq<CharSet>) returns (edges: set<nat>)
    requires Fit(sets)
    ensures Edged(sets, edges)
  {
    edges := {0, MAX_POINT + 1};
    for i := 0 to |sets|
      invariant Edged(sets[..i], edges)
    {
      for k := 0 to |sets[i]|
        invariant Edged(sets[..i], edges)
        invariant forall j :: 0 <= j < k ==> sets[i][j].lo in edges && sets[i][j].hi + 1 in edges
      {
        edges := edges + {sets[i][k].lo, sets[i][k].hi + 1};
      }
      assert forall j :: 0 <= j < i ==> sets[..i + 1][j] == sets[..i][j];
    }
    assert sets[..|sets|] == sets;
  }

  method SignatureAt(sets: seq<CharSet>, point: nat) returns (signature: set<nat>)
    requires Fit(sets)
    ensures signature == Signature(sets, point)
  {
    signature := {};
    for i := 0 to |sets|
      invariant signature == set j | 0 <= j < i && Member(sets[j], point)
    {
      var held := Holds(sets[i], point);
      if held {
        signature := signature + {i};
      }
    }
  }

  /** Below `bound`, the groups sort the points by signature. */
  ghost predicate GroupedUpTo(sets: seq<CharSet>, signatures: seq<set<nat>>, groups: seq<seq<Interval>>, bound: nat) {
    && |groups| == |signatures|
    && (forall b, c :: 0 <= b < |signatures| && 0 <= c < |signatures| && signatures[b] == signatures[c] ==> b == c)
    && (forall b ::
          0 <= b < |groups| ==> signatures[b] != {} && groups[b] != [] && Proper(groups[b]) && InRange(groups[b]))
    && (forall b :: 0 <= b < |groups| ==> GroupIs(sets, signatures[b], groups[b], bound))
    && forall p: nat :: p < bound && Signature(sets, p) != {} ==> Signature(sets, p) in signatures
  }

  ghost predicate GroupIs(sets: seq<CharSet>, signature: set<nat>, group: seq<Interval>, bound: nat) {
    forall p: nat :: Member(group, p) <==> p < bound && Signature(sets, p) == signature
  }

  // A stretch of one signature joins its own group and no other.
  lemma StretchGrouped(sets: seq<CharSet>, signature: set<nat>, group: seq<Interval>, own: set<nat>, start: nat,
          stop: nat)
    requires start < stop && forall p: nat :: start <= p < stop ==> Signature(sets, p) == own
    requires GroupIs(sets, signature, group, start)
    ensures signature == own ==> GroupIs(sets, signature, group + [Interval(start, stop - 1)], stop)
    ensures signature != own ==> GroupIs(sets, signature, group, stop)
  {
    AppendedMembers(group, Interval(start, stop - 1));
  }

  /** The group a signature has, or where it would start one. */
  method FindGroup(signatures: seq<set<nat>>, signature: set<nat>) returns (b: nat)
    ensures b <= |signatures| && (b < |signatures| ==> signatures[b] == signature)
    ensures b == |signatures| ==> signature !in signatures
  {
    b := 0;
    while b < |signatures| && signatures[b] != signature
      invariant b <= |signatures| && forall c :: 0 <= c < b ==> signatures[c] != signature
      decreases |signatures| - b
    {
      b := b + 1;
    }
  }

  method Grouped(sets: seq<CharSet>) returns (signatures: seq<set<nat>>, groups: seq<seq<Interval>>)
    requires Fit(sets)
    ensures GroupedUpTo(sets, signatures, groups, MAX_POINT + 1)
  {
    hide Signature, Member, Proper, InRange;
    var edges := Edges(sets);
    var points := SortedPoints(edges);
    PointsSpan(sets, edges, points);
    signatures, groups := [], [];
    for k := 0 to |points| - 1
      invariant GroupedUpTo(sets, signatures, groups, points[k])
    {
      var start, stop := points[k], points[k + 1];
      var signature := SignatureAt(sets, start);
      StretchSignature(sets, edges, points, k);
      forall b | 0 <= b < |groups|
        ensures signatures[b] == signature ==> GroupIs(sets, signatures[b], groups[b] + [Interval(start, stop - 1)], stop)
        ensures signatures[b] != signature ==> GroupIs(sets, signatures[b], groups[b], stop)
      {
        StretchGrouped(sets, signatures[b], groups[b], signature, start, stop);
      }
      if signature != {} {
        var b := FindGroup(signatures, signature);
        if b == |signatures| {
          NewGroup(sets, signatures, signature, start, stop);
          signatures, groups := signatures + [signature], groups + [[Interval(start, stop - 1)]];
        } else {
          GroupAppended(groups[b], start, stop);
          groups := groups[b := groups[b] + [Interval(start, stop - 1)]];
        }
      }
    }
  }

  lemma PointsSpan(sets: seq<CharSet>, edges: set<nat>, points: seq<nat>)
    requires Edged(sets, edges) && Ascending(points)
    requires forall e :: e in edges <==> exists k :: 0 <= k < |points| && points[k] == e
    ensures |points| >= 2 && points[0] == 0 && points[|points| - 1] == MAX_POINT + 1
    ensures forall k :: 0 <= k < |points| ==> points[k] <= MAX_POINT + 1
  {
    var z :| 0 <= z < |points| && points[z] == 0;
    var m :| 0 <= m < |points| && points[m] == MAX_POINT + 1;
    assert points[0] in edges && points[|points| - 1] in edges;
  }

  lemma StretchSignature(sets: seq<CharSet>, edges: set<nat>, points: seq<nat>, k: nat)
    requires Edged(sets, edges) && Ascending(points) && k + 1 < |points|
    requires forall e :: e in edges <==> exists k :: 0 <= k < |points| && points[k] == e
    ensures forall p: nat :: points[k] <= p < points[k + 1] ==> Signature(sets, p) == Signature(sets, points[k])
  {
    forall p: nat | points[k] <= p < points[k + 1] ensures Signature(sets, p) == Signature(sets, points[k]) {
      forall e | e in edges ensures !(points[k] < e <= p) {
        var j :| 0 <= j < |points| && points[j] == e;
      }
      SameSignature(sets, edges, points[k], p);
    }
  }

  lemma GroupAppended(group: seq<Interval>, start: nat, stop: nat)
    requires Proper(group) && InRange(group) && start < stop <= MAX_POINT + 1
    ensures Proper(group + [Interval(start, stop - 1)]) && InRange(group + [Interval(start, stop - 1)])
  {
  }

  lemma NewGroup(sets: seq<CharSet>, signatures: seq<set<nat>>, signature: set<nat>, start: nat, stop: nat)
    requires start < stop <= MAX_POINT + 1 && forall p: nat :: start <= p < stop ==> Signature(sets, p) == signature
    requires signature != {} && signature !in signatures
    requires forall p: nat :: p < start && Signature(sets, p) != {} ==> Signature(sets, p) in signatures
    ensures GroupIs(sets, signature, [Interval(start, stop - 1)], stop)
    ensures Proper([Interval(start, stop - 1)]) && InRange([Interval(start, stop - 1)])
  {
    AppendedMembers([], Interval(start, stop - 1));
    assert [] + [Interval(start, stop - 1)] == [Interval(start, stop - 1)];
  }

  /** Disjoint blocks, and per set the blocks whose union it is. */
  method Partition(sets: seq<CharSet>)
    returns (blocks: seq<CharSet>, members: seq<seq<nat>>)
    requires Fit(sets)
    ensures BlocksOf(sets, BlockSignatures(sets, blocks), blocks)
    ensures |members| == |sets|
    ensures forall i :: 0 <= i < |sets| ==> ListedFor(BlockSignatures(sets, blocks), i, members[i])
  {
    var signed, groups := Grouped(sets);
    blocks := [];
    for b := 0 to |groups|
      invariant |blocks| == b
      invariant forall c :: 0 <= c < b ==> Normal(blocks[c]) && SameMembers(blocks[c], groups[c])
    {
      var block := Normalized(groups[b]);
      blocks := blocks + [block];
    }
    BlocksAre(sets, signed, groups, blocks);
    SignaturesAre(sets, signed, blocks);
    members := [];
    for i := 0 to |sets|
      invariant |members| == i && forall j :: 0 <= j < i ==> ListedFor(signed, j, members[j])
    {
      var listed := Listed(signed, i);
      members := members + [listed];
    }
  }

  lemma BlocksAre(sets: seq<CharSet>, signatures: seq<set<nat>>, groups: seq<seq<Interval>>, blocks: seq<CharSet>)
    requires GroupedUpTo(sets, signatures, groups, MAX_POINT + 1) && |blocks| == |groups|
    requires forall b :: 0 <= b < |blocks| ==> Normal(blocks[b]) && SameMembers(blocks[b], groups[b])
    ensures BlocksOf(sets, signatures, blocks)
  {
    forall b | 0 <= b < |blocks| ensures blocks[b] != [] {
      var first := groups[b][0];
      assert Between(first, first.lo) && Member(groups[b], first.lo);
      assert Member(blocks[b], first.lo);
    }
    forall b, p: nat | 0 <= b < |blocks|
      ensures Member(blocks[b], p) <==> p <= MAX_POINT && Signature(sets, p) == signatures[b]
    {
      assert GroupIs(sets, signatures[b], groups[b], MAX_POINT + 1);
    }
  }

  // The signatures the blocks were grouped by can be read off the blocks.
  lemma SignaturesAre(sets: seq<CharSet>, signatures: seq<set<nat>>, blocks: seq<CharSet>)
    requires BlocksOf(sets, signatures, blocks)
    ensures BlockSignatures(sets, blocks) == signatures
  {
    forall b | 0 <= b < |blocks| ensures BlockSignature(sets, blocks[b]) == signatures[b] {
      StartIsMember(blocks[b]);
    }
  }

  method Listed(signatures: seq<set<nat>>, i: nat) returns (listed: seq<nat>)
    ensures ListedFor(signatures, i, listed)
  {
    listed := [];
    for b := 0 to |signatures|
      invariant forall k :: 0 <= k < |listed| ==> listed[k] < b && i in signatures[listed[k]]
      invariant forall c :: 0 <= c < b && i in signatures[c] ==> exists k :: 0 <= k < |listed| && listed[k] == c
      invariant forall j, k :: 0 <= j < k < |listed| ==> listed[j] < listed[k]
    {
      ghost var before := listed;
      if i in signatures[b] {
        listed := listed + [b];
        assert listed[|before|] == b;
        forall c | 0 <= c < b && i in signatures[c] ensures exists k :: 0 <= k < |listed| && listed[k] == c {
          var k :| 0 <= k < |before| && before[k] == c;
          assert listed[k] == c;
        }
      }
    }
  }

  // ---------- What a partition means ----------

  ghost predicate InSomeBlock(blocks: seq<CharSet>, listed: seq<nat>, p: nat) {
    exists k :: 0 <= k < |listed| && listed[k] < |blocks| && Member(blocks[listed[k]], p)
  }

  /** Each set is the union of its blocks. */
  lemma SetIsUnionOfItsBlocks(
    sets: seq<CharSet>, signatures: seq<set<nat>>, blocks: seq<CharSet>, i: nat, listed: seq<nat>, p: nat)
    requires Fit(sets) && BlocksOf(sets, signatures, blocks) && i < |sets| && ListedFor(signatures, i, listed)
    ensures Member(sets[i], p) <==> InSomeBlock(blocks, listed, p)
  {
    if Member(sets[i], p) {
      var k :| 0 <= k < |sets[i]| && Between(sets[i][k], p);
      assert i in Signature(sets, p);
      var b :| 0 <= b < |signatures| && signatures[b] == Signature(sets, p);
      var j :| 0 <= j < |listed| && listed[j] == b;
      assert Member(blocks[listed[j]], p);
    }
    if InSomeBlock(blocks, listed, p) {
      var k :| 0 <= k < |listed| && listed[k] < |blocks| && Member(blocks[listed[k]], p);
      assert Signature(sets, p) == signatures[listed[k]];
      assert i in Signature(sets, p);
    }
  }

  /** Two points share a block exactly when the same sets, and some set, hold them. */
  lemma BlockIsSignature(sets: seq<CharSet>, signatures: seq<set<nat>>, blocks: seq<CharSet>, p: nat, q: nat)
    requires BlocksOf(sets, signatures, blocks) && p <= MAX_POINT && q <= MAX_POINT
    ensures (exists b :: 0 <= b < |blocks| && Member(blocks[b], p) && Member(blocks[b], q))
       <==> Signature(sets, p) == Signature(sets, q) && Signature(sets, p) != {}
  {
    if Signature(sets, p) == Signature(sets, q) && Signature(sets, p) != {} {
      var b :| 0 <= b < |signatures| && signatures[b] == Signature(sets, p);
      assert Member(blocks[b], p) && Member(blocks[b], q);
    }
  }

  /** No point lies in two blocks. */
  lemma BlocksAreDisjoint(sets: seq<CharSet>, signatures: seq<set<nat>>, blocks: seq<CharSet>, b: nat, c: nat, p: nat)
    requires BlocksOf(sets, signatures, blocks) && b < |blocks| && c < |blocks|
    requires Member(blocks[b], p) && Member(blocks[c], p)
    ensures b == c
  {
    assert Signature(sets, p) == signatures[b] && Signature(sets, p) == signatures[c];
  }

  lemma FirstTwoDiffer(listed: seq<nat>)
    requires Ascending(listed)
    ensures |listed| >= 2 ==> listed[0] != listed[1]
  {
  }

  /** A literal's character has one block, and shares it with no other point. */
  lemma LiteralHasOneBlock(
    sets: seq<CharSet>, signatures: seq<set<nat>>, blocks: seq<CharSet>, i: nat, listed: seq<nat>, point: nat)
    requires Fit(sets) && BlocksOf(sets, signatures, blocks) && i < |sets| && ListedFor(signatures, i, listed)
    requires sets[i] == [Interval(point, point)]
    ensures |listed| == 1 && listed[0] < |blocks| && blocks[listed[0]] == [Interval(point, point)]
  {
    assert point <= MAX_POINT;
    forall k, p: nat | 0 <= k < |listed| && Member(blocks[listed[k]], p) ensures p == point {
      assert i in signatures[listed[k]] && Signature(sets, p) == signatures[listed[k]];
    }
    forall k | 0 <= k < |listed| ensures Member(blocks[listed[k]], point) {
      StartIsMember(blocks[listed[k]]);
    }
    assert Between(sets[i][0], point) && Member(sets[i], point);
    SetIsUnionOfItsBlocks(sets, signatures, blocks, i, listed, point);
    var k :| 0 <= k < |listed| && Member(blocks[listed[k]], point);
    forall j | 0 <= j < |listed| ensures listed[j] == listed[k] {
      BlocksAreDisjoint(sets, signatures, blocks, listed[j], listed[k], point);
    }
    FirstTwoDiffer(listed);
    assert |listed| == 1;
    forall p: nat ensures Member(blocks[listed[0]], p) <==> Member([Interval(point, point)], p) {
      assert Member([Interval(point, point)], p) <==> Between([Interval(point, point)][0], p);
    }
    NormalIsCanonical(blocks[listed[0]], [Interval(point, point)]);
  }
}
