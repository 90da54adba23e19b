/**
 The ownership of identity memos: adoption, claims, and transitive release.
 */
module Caches {
  import opened Wrappers

  type Id = nat

  /** A memo key: an identity, or a tuple some of whose positions hold owner identities. */
  datatype Key = Identity(id: Id) | Tuple(parts: seq<Id>)

  /** A registered memo and the key positions holding an owner; none means the key is the identity. */
  datatype Memo = Memo(entries: map<Key, int>, ids: seq<nat>)

  predicate KeyShaped(key: Key, ids: seq<nat>) {
    if ids == [] then key.Identity?
    else key.Tuple? && forall k :: 0 <= k < |ids| ==> ids[k] < |key.parts|
  }

  predicate MemoShaped(memo: Memo) {
    forall key :: key in memo.entries ==> KeyShaped(key, memo.ids)
  }

  /** Whether `key` names one of the released identities. */
  predicate Owned(key: Key, ids: seq<nat>, dropped: set<Id>)
    requires KeyShaped(key, ids)
  {
    if ids == [] then key.id in dropped
    else exists k :: 0 <= k < |ids| && key.parts[ids[k]] in dropped
  }

  function Kept(memo: Memo, dropped: set<Id>): Memo
    requires MemoShaped(memo)
  {
    Memo(map key | key in memo.entries && !Owned(key, memo.ids, dropped) :: memo.entries[key], memo.ids)
  }

  // ---------- The adoption graph ----------

  type Adoption = map<Id, set<Id>>

  ghost predicate ReachesIn(adopted: Adoption, x: Id, y: Id, steps: nat)
    decreases steps
  {
    if steps == 0 then x == y
    else x in adopted && exists z :: z in adopted[x] && ReachesIn(adopted, z, y, steps - 1)
  }

  ghost predicate Reached(adopted: Adoption, roots: seq<Id>, y: Id) {
    exists x, steps: nat :: x in roots && ReachesIn(adopted, x, y, steps)
  }

  ghost function Universe(adopted: Adoption, roots: seq<Id>): set<Id> {
    (set x | x in roots) + (set x, y | x in adopted && y in adopted[x] :: y)
  }

  /** `roots` and everything adopted under them, transitively. */
  ghost function Dropped(adopted: Adoption, roots: seq<Id>): set<Id> {
    set y | y in Universe(adopted, roots) && Reached(adopted, roots, y)
  }

  lemma {:induction false} ReachesAdopted(adopted: Adoption, x: Id, y: Id, steps: nat)
    requires ReachesIn(adopted, x, y, steps)
    ensures x == y || exists o :: o in adopted && y in adopted[o]
    decreases steps
  {
    if steps > 0 {
      var z :| z in adopted[x] && ReachesIn(adopted, z, y, steps - 1);
      ReachesAdopted(adopted, z, y, steps - 1);
    }
  }

  lemma ReachedIsRootOrAdopted(adopted: Adoption, roots: seq<Id>, y: Id)
    requires Reached(adopted, roots, y)
    ensures y in roots || exists o :: o in adopted && y in adopted[o]
  {
    var x, steps: nat :| x in roots && ReachesIn(adopted, x, y, steps);
    ReachesAdopted(adopted, x, y, steps);
  }

  lemma ReachedIsDropped(adopted: Adoption, roots: seq<Id>, y: Id)
    ensures y in Dropped(adopted, roots) <==> Reached(adopted, roots, y)
  {
    if Reached(adopted, roots, y) {
      var x, steps: nat :| x in roots && ReachesIn(adopted, x, y, steps);
      ReachesAdopted(adopted, x, y, steps);
    }
  }

  lemma {:induction false} ReachesOneMore(adopted: Adoption, x: Id, y: Id, z: Id, steps: nat)
    requires ReachesIn(adopted, x, y, steps) && y in adopted && z in adopted[y]
    ensures ReachesIn(adopted, x, z, steps + 1)
    decreases steps
  {
    if steps == 0 {
      assert ReachesIn(adopted, z, z, 0);
    } else {
      var w :| w in adopted[x] && ReachesIn(adopted, w, y, steps - 1);
      ReachesOneMore(adopted, w, y, z, steps - 1);
    }
  }

  lemma ReachedOneMore(adopted: Adoption, roots: seq<Id>, y: Id, z: Id)
    requires Reached(adopted, roots, y) && y in adopted && z in adopted[y]
    ensures Reached(adopted, roots, z)
  {
    var x, steps: nat :| x in roots && ReachesIn(adopted, x, y, steps);
    ReachesOneMore(adopted, x, y, z, steps);
  }

  /** A set holding the roots and closed under adoption holds all that is reached. */
  lemma {:induction false} ClosedHoldsReached(adopted: Adoption, closed: set<Id>, x: Id, y: Id, steps: nat)
    requires x in closed && ReachesIn(adopted, x, y, steps)
    requires forall o :: o in closed && o in adopted ==> adopted[o] <= closed
    ensures y in closed
    decreases steps
  {
    if steps > 0 {
      var z :| z in adopted[x] && ReachesIn(adopted, z, y, steps - 1);
      ClosedHoldsReached(adopted, closed, z, y, steps - 1);
    }
  }

  lemma DroppedIsLeast(adopted: Adoption, roots: seq<Id>, closed: set<Id>)
    requires forall x :: x in roots ==> x in closed
    requires forall o :: o in closed && o in adopted ==> adopted[o] <= closed
    ensures Dropped(adopted, roots) <= closed
  {
    forall y | y in Dropped(adopted, roots)
      ensures y in closed
    {
      var x, steps: nat :| x in roots && ReachesIn(adopted, x, y, steps);
      ClosedHoldsReached(adopted, closed, x, y, steps);
    }
  }

  lemma DroppedIsClosed(adopted: Adoption, roots: seq<Id>)
    ensures forall x :: x in roots ==> x in Dropped(adopted, roots)
    ensures forall o :: o in Dropped(adopted, roots) && o in adopted ==> adopted[o] <= Dropped(adopted, roots)
  {
    forall x | x in roots
      ensures x in Dropped(adopted, roots)
    {
      assert ReachesIn(adopted, x, x, 0);
      ReachedIsDropped(adopted, roots, x);
    }
    forall o, y | o in Dropped(adopted, roots) && o in adopted && y in adopted[o]
      ensures y in Dropped(adopted, roots)
    {
      ReachedOneMore(adopted, roots, o, y);
      ReachedIsDropped(adopted, roots, y);
    }
  }

  // ---------- The bookkeeping as a value ----------

  /** The tables, and the claims of the owners still alive: what each will release. */
  datatype State = State(adopted: Adoption, claimed: set<Id>, memos: seq<Memo>, pending: map<nat, seq<Id>>)

  predicate Shaped(memos: seq<Memo>) {
    forall k :: 0 <= k < |memos| ==> MemoShaped(memos[k])
  }

  function Without(adopted: Adoption, dropped: set<Id>): Adoption {
    map o | o in adopted && o !in dropped :: adopted[o] - dropped
  }

  function AllKept(memos: seq<Memo>, dropped: set<Id>): seq<Memo>
    requires Shaped(memos)
  {
    seq(|memos|, k requires 0 <= k < |memos| => Kept(memos[k], dropped))
  }

  function Drop(s: State, dropped: set<Id>): State
    requires Shaped(s.memos)
  {
    State(Without(s.adopted, dropped), s.claimed - dropped, AllKept(s.memos, dropped), s.pending)
  }

  ghost function Released(s: State, roots: seq<Id>): State
    requires Shaped(s.memos)
  {
    Drop(s, Dropped(s.adopted, roots))
  }

  function Fresh(claimed: set<Id>, identities: seq<Id>): (claims: seq<Id>)
    ensures forall x :: x in claims <==> x in identities && x !in claimed
    ensures forall i, j :: 0 <= i < j < |claims| ==> claims[i] != claims[j]
  {
    if identities == [] then []
    else
      var before := Fresh(claimed, identities[..|identities| - 1]);
      var last := identities[|identities| - 1];
      assert identities == identities[..|identities| - 1] + [last];
      if last in claimed || last in before then before else before + [last]
  }

  /** Adds the children not met yet, each to the set and to the frontier. */
  method AddNew(children: set<Id>, out: set<Id>, frontier: seq<Id>) returns (out': set<Id>, frontier': seq<Id>)
    ensures out' == out + children
    ensures forall x :: x in frontier' <==> x in frontier || (x in children && x !in out)
    ensures out' == out ==> frontier' == frontier
  {
    out', frontier' := out, frontier;
    var left := children;
    while left != {}
      invariant left <= children
      invariant forall x :: x in out' <==> x in out || (x in children && x !in left)
      invariant forall x :: x in frontier' <==> x in frontier || (x in children && x !in left && x !in out)
      invariant out' == out ==> frontier' == frontier
      decreases left
    {
      var ident :| ident in left;
      left := left - {ident};
      if ident !in out' {
        out' := out' + {ident};
        frontier' := frontier' + [ident];
      }
    }
  }

  /** Where the worklist stands: what is `out` is done or still on the frontier. */
  ghost predicate Explored(adopted: Adoption, left: Adoption, roots: seq<Id>, frontier: seq<Id>,
                           done: set<Id>, out: set<Id>, all: set<Id>) {
    && out <= all
    && (forall x :: x in out <==> x in done || x in frontier)
    && (forall x :: x in roots ==> x in out)
    && (forall o :: o in done && o in adopted ==> adopted[o] <= out)
    && (forall o :: o in all && o in adopted ==> adopted[o] <= all)
    && left == map o | o in adopted && o !in done :: adopted[o]
  }

  lemma ExploreStarts(adopted: Adoption, roots: seq<Id>)
    ensures Explored(adopted, adopted, roots, roots, {}, (set x | x in roots), Dropped(adopted, roots))
  {
    DroppedIsClosed(adopted, roots);
    hide Dropped;
  }

  lemma ExploreOne(adopted: Adoption, left: Adoption, roots: seq<Id>, frontier: seq<Id>, done: set<Id>, out: set<Id>,
          all: set<Id>,
                   children: set<Id>, frontier': seq<Id>, out': set<Id>)
    requires Explored(adopted, left, roots, frontier, done, out, all) && frontier != []
    requires var next := frontier[|frontier| - 1];
             var rest := frontier[..|frontier| - 1];
             && children == (if next in left then left[next] else {})
             && out' == out + children
             && forall x :: x in frontier' <==> x in rest || (x in children && x !in out)
    ensures var next := frontier[|frontier| - 1];
            Explored(adopted, left - {next}, roots, frontier', done + {next}, out', all)
    ensures out <= out' <= all
  {
    var next := frontier[|frontier| - 1];
    assert next in frontier && next in out;
    assert forall x :: x in frontier <==> x in frontier[..|frontier| - 1] || x == next;
  }

  lemma ExploredAll(adopted: Adoption, left: Adoption, roots: seq<Id>, done: set<Id>, out: set<Id>, all: set<Id>)
    requires Explored(adopted, left, roots, [], done, out, all)
    ensures out == done && left == map o | o in adopted && o !in out :: adopted[o]
    ensures out <= all && (forall x :: x in roots ==> x in out)
    ensures forall o :: o in out && o in adopted ==> adopted[o] <= out
  {
    assert forall x :: x in out <==> x in done;
  }

  lemma KeptShaped(memos: seq<Memo>, dropped: set<Id>)
    requires Shaped(memos)
    ensures Shaped(AllKept(memos, dropped))
  {
  }

  class OwnershipTables {
    var adopted: Adoption
    var claimed: set<Id>
    var memos: seq<Memo>
    var pending: map<nat, seq<Id>>
    var nextOwner: nat

    ghost predicate Valid()
      reads this
    {
      Shaped(memos) && forall f :: f in pending ==> f < nextOwner
    }

    ghost function Value(): State
      reads this
    {
      State(adopted, claimed, memos, pending)
    }

    constructor ()
      ensures Valid() && Value() == State(map[], {}, [], map[])
    {
      adopted := map[];
      claimed := {};
      memos := [];
      pending := map[];
      nextOwner := 0;
    }

    /** Declare that `derived` live and die with `owner`. */
    method Adopt(owner: Id, derived: set<Id>)
      requires Valid()
      modifies this`adopted
      ensures Valid()
      ensures adopted == old(adopted)[owner := (if owner in old(adopted) then old(adopted)[owner] else {}) + derived]
      ensures Value() == Apply(old(Value()), Adopting(owner, derived))
    {
      if owner !in adopted {
        adopted := adopted[owner := {}];
      }
      adopted := adopted[owner := adopted[owner] + derived];
    }

    /** Bind the identities no owner has claimed yet to a new owner's lifetime. */
    method Track(identities: seq<Id>) returns (owner: Option<nat>)
      requires Valid()
      modifies this`claimed, this`pending, this`nextOwner
      ensures Valid()
      ensures var claims := Fresh(old(claimed), identities);
              if claims == [] then owner.None? && claimed == old(claimed) && pending == old(pending)
              else owner.Some? && owner.value !in old(pending) && pending == old(pending)[owner.value := claims]
                   && claimed == old(claimed) + set x | x in claims
      ensures old(nextOwner) !in old(pending) && Value() == Apply(old(Value()), Tracking(identities, old(nextOwner)))
    {
      var claims := Fresh(claimed, identities);
      if claims == [] {
        return None;
      }
      claimed := claimed + set x | x in claims;
      owner := Some(nextOwner);
      pending := pending[nextOwner := claims];
      nextOwner := nextOwner + 1;
    }

    /** The roots plus everything adopted under them; their adoption records go. */
    method Expand(roots: seq<Id>) returns (out: set<Id>)
      modifies this`adopted
      ensures out == Dropped(old(adopted), roots)
      ensures adopted == map o | o in old(adopted) && o !in out :: old(adopted)[o]
    {
      hide Explored, Dropped;
      out := set x | x in roots;
      var frontier := roots;
      ghost var done: set<Id> := {};
      ghost var all := Dropped(adopted, roots);
      ExploreStarts(adopted, roots);
      while frontier != []
        invariant Explored(old(adopted), adopted, roots, frontier, done, out, all)
        decreases all - out, |frontier|
      {
        var next := frontier[|frontier| - 1];
        var rest := frontier[..|frontier| - 1];
        var children := if next in adopted then adopted[next] else {};
        ghost var adoptedBefore, outBefore, frontierBefore := adopted, out, frontier;
        adopted := adopted - {next};
        out, frontier := AddNew(children, out, rest);
        ExploreOne(old(adopted), adoptedBefore, roots, frontierBefore, done, outBefore, all, children, frontier, out);
        done := done + {next};
      }
      ExploredAll(old(adopted), adopted, roots, done, out, all);
      DroppedIsLeast(old(adopted), roots, out);
    }

    /** Drop the entries of one memo that are owned. */
    static method Sweep(memo: Memo, dropped: set<Id>) returns (swept: Memo)
      requires MemoShaped(memo)
      ensures swept == Kept(memo, dropped)
      ensures forall key :: key in swept.entries <==>
                key in memo.entries && match key
                                       case Identity(id) => id !in dropped
                                       case Tuple(parts) => forall i :: 0 <= i < |memo.ids| ==> parts[memo.ids[i]] !in dropped
    {
      var entries := memo.entries;
      var pendingKeys := entries.Keys;
      while pendingKeys != {}
        invariant pendingKeys <= memo.entries.Keys
        invariant entries.Keys <= memo.entries.Keys
        invariant forall key :: key in memo.entries ==>
                    (key in entries <==> key in pendingKeys || !Owned(key, memo.ids, dropped))
        invariant forall key :: key in entries ==> entries[key] == memo.entries[key]
        decreases pendingKeys
      {
        var key :| key in pendingKeys;
        pendingKeys := pendingKeys - {key};
        if Owned(key, memo.ids, dropped) {
          entries := entries - {key};
        }
      }
      swept := Memo(entries, memo.ids);
    }

    /** Drop every memo entry owned by the identities or by what they reach. */
    method Release(identities: seq<Id>)
      requires Valid()
      modifies this`adopted, this`claimed, this`memos
      ensures Valid() && Value() == Released(old(Value()), identities)
    {
      hide Dropped, Kept, Owned;
      var dropped := Expand(identities);
      claimed := claimed - dropped;
      adopted := map o | o in adopted :: adopted[o] - dropped;
      assert adopted == Without(old(adopted), dropped);
      var k := 0;
      while k < |memos|
        invariant 0 <= k <= |memos| == |old(memos)|
        invariant adopted == Without(old(adopted), dropped) && claimed == old(claimed) - dropped
        invariant forall j :: 0 <= j < k ==> memos[j] == Kept(old(memos)[j], dropped)
        invariant forall j :: k <= j < |memos| ==> memos[j] == old(memos)[j]
      {
        var swept := Sweep(memos[k], dropped);
        memos := memos[k := swept];
        k := k + 1;
      }
      assert memos == AllKept(old(memos), dropped);
      KeptShaped(old(memos), dropped);
    }

    /** An entry is written to a registered memo. */
    method Memoise(memo: nat, key: Key, value: int)
      requires Valid() && memo < |memos| && KeyShaped(key, memos[memo].ids)
      modifies this`memos
      ensures Valid() && Value() == Apply(old(Value()), Memoising(memo, key, value))
      ensures memos[memo].entries == old(memos)[memo].entries[key := value]
    {
      memos := memos[memo := Memo(memos[memo].entries[key := value], memos[memo].ids)];
    }

    /** A memo is registered, with the key positions that hold owners. */
    method Register(ids: seq<nat>)
      requires Valid()
      modifies this`memos
      ensures Valid() && memos == old(memos) + [Memo(map[], ids)]
    {
      memos := memos + [Memo(map[], ids)];
    }

    /** An owner dies: its finalizer releases what it claimed. */
    method Die(owner: nat)
      requires Valid() && owner in pending
      modifies this
      ensures Valid()
      ensures Value() == Released(old(Value()), old(pending)[owner]).(pending := old(pending) - {owner})
      ensures Value() == Apply(old(Value()), Dying(owner))
    {
      var identities := pending[owner];
      Release(identities);
      pending := pending - {owner};
    }
  }

  // ---------- Releasing in any order ----------

  // A path that avoids the released identities survives their release.
  lemma {:induction false} ReachesWithout(adopted: Adoption, dropped: set<Id>, x: Id, y: Id, steps: nat)
    requires forall o :: o in dropped && o in adopted ==> adopted[o] <= dropped
    requires ReachesIn(adopted, x, y, steps) && y !in dropped
    ensures ReachesIn(Without(adopted, dropped), x, y, steps)
    decreases steps
  {
    if steps > 0 {
      var z :| z in adopted[x] && ReachesIn(adopted, z, y, steps - 1);
      if x in dropped {
        ClosedHoldsReached(adopted, dropped, z, y, steps - 1);
      } else {
        if z in dropped {
          ClosedHoldsReached(adopted, dropped, z, y, steps - 1);
        }
        ReachesWithout(adopted, dropped, z, y, steps - 1);
        assert z in Without(adopted, dropped)[x];
      }
    }
  }

  lemma {:induction false} ReachesWithin(adopted: Adoption, dropped: set<Id>, x: Id, y: Id, steps: nat)
    requires ReachesIn(Without(adopted, dropped), x, y, steps)
    ensures ReachesIn(adopted, x, y, steps)
    decreases steps
  {
    if steps > 0 {
      var z :| z in Without(adopted, dropped)[x] && ReachesIn(Without(adopted, dropped), z, y, steps - 1);
      ReachesWithin(adopted, dropped, z, y, steps - 1);
    }
  }

  /** What two releases drop one after the other is what they drop together. */
  lemma DroppedInTurn(adopted: Adoption, first: seq<Id>, second: seq<Id>)
    ensures var one := Dropped(adopted, first);
            one + Dropped(Without(adopted, one), second) == Dropped(adopted, first + second)
  {
    var one := Dropped(adopted, first);
    var two := Dropped(Without(adopted, one), second);
    var both := Dropped(adopted, first + second);
    DroppedIsClosed(adopted, first);
    DroppedIsClosed(adopted, first + second);
    DroppedIsLeast(adopted, first, both);
    forall y | y in two
      ensures y in both
    {
      var x, steps: nat :| x in second && ReachesIn(Without(adopted, one), x, y, steps);
      ReachesWithin(adopted, one, x, y, steps);
      assert x in first + second && Reached(adopted, first + second, y);
      ReachedIsDropped(adopted, first + second, y);
    }
    forall y | y in both && y !in one
      ensures y in two
    {
      var x, steps: nat :| x in first + second && ReachesIn(adopted, x, y, steps);
      if x in first {
        assert Reached(adopted, first, y);
        ReachedIsDropped(adopted, first, y);
      } else {
        ReachesWithout(adopted, one, x, y, steps);
        assert Reached(Without(adopted, one), second, y);
        ReachedIsDropped(Without(adopted, one), second, y);
      }
    }
  }

  lemma DropTwice(s: State, one: set<Id>, two: set<Id>)
    requires Shaped(s.memos)
    ensures Shaped(Drop(s, one).memos) && Drop(Drop(s, one), two) == Drop(s, one + two)
  {
    KeptShaped(s.memos, one);
    forall k | 0 <= k < |s.memos|
      ensures Kept(Kept(s.memos[k], one), two) == Kept(s.memos[k], one + two)
    {
      KeptTwice(s.memos[k], one, two);
    }
    forall o | o in Without(s.adopted, one + two)
      ensures Without(Without(s.adopted, one), two)[o] == Without(s.adopted, one + two)[o]
    {
      assert (s.adopted[o] - one) - two == s.adopted[o] - (one + two);
    }
    assert Without(Without(s.adopted, one), two) == Without(s.adopted, one + two);
    assert AllKept(AllKept(s.memos, one), two) == AllKept(s.memos, one + two);
  }

  lemma KeptTwice(memo: Memo, one: set<Id>, two: set<Id>)
    requires MemoShaped(memo)
    ensures MemoShaped(Kept(memo, one)) && Kept(Kept(memo, one), two) == Kept(memo, one + two)
  {
    forall key | key in memo.entries
      ensures Owned(key, memo.ids, one + two) <==> Owned(key, memo.ids, one) || Owned(key, memo.ids, two)
    {
    }
  }

  /** Two releases in turn come to one release of both; so their order does not matter. */
  lemma ReleaseInTurn(s: State, first: seq<Id>, second: seq<Id>)
    requires Shaped(s.memos)
    ensures Shaped(Released(s, first).memos) && Shaped(Released(s, second).memos)
    ensures Released(Released(s, first), second) == Released(s, first + second)
    ensures Released(Released(s, first), second) == Released(Released(s, second), first)
  {
    DroppedInTurn(s.adopted, first, second);
    DropTwice(s, Dropped(s.adopted, first), Dropped(Without(s.adopted, Dropped(s.adopted, first)), second));
    DroppedInTurn(s.adopted, second, first);
    DropTwice(s, Dropped(s.adopted, second), Dropped(Without(s.adopted, Dropped(s.adopted, second)), first));
    DroppedSame(s.adopted, first + second, second + first);
  }

  lemma DroppedSame(adopted: Adoption, one: seq<Id>, other: seq<Id>)
    requires forall x :: x in one <==> x in other
    ensures Dropped(adopted, one) == Dropped(adopted, other)
  {
    DroppedIsClosed(adopted, one);
    DroppedIsClosed(adopted, other);
    DroppedIsLeast(adopted, one, Dropped(adopted, other));
    DroppedIsLeast(adopted, other, Dropped(adopted, one));
  }

  /** The key is a reached identity, or holds one at a registered position. */
  ghost predicate NamesReached(s: State, roots: seq<Id>, key: Key, ids: seq<nat>) {
    match key
    case Identity(id) => ids == [] && Reached(s.adopted, roots, id)
    case Tuple(parts) => exists i :: 0 <= i < |ids| && ids[i] < |parts| && Reached(s.adopted, roots, parts[ids[i]])
  }

  lemma OwnedNamesReached(s: State, roots: seq<Id>, key: Key, ids: seq<nat>)
    requires KeyShaped(key, ids)
    ensures Owned(key, ids, Dropped(s.adopted, roots)) <==> NamesReached(s, roots, key, ids)
  {
    forall x ensures x in Dropped(s.adopted, roots) <==> Reached(s.adopted, roots, x) {
      ReachedIsDropped(s.adopted, roots, x);
    }
  }

  /**
   After a release nothing reached from the released identities is left: not in the
   claims, not as an owner or an adopted identity, not in a memo key; and whatever is
   not reached is untouched.
   */
  lemma ReleaseDropsExactly(s: State, roots: seq<Id>)
    requires Shaped(s.memos)
    ensures var after := Released(s, roots);
            && (forall x :: x in after.claimed <==> x in s.claimed && !Reached(s.adopted, roots, x))
            && (forall o :: o in after.adopted <==> o in s.adopted && !Reached(s.adopted, roots, o))
            && (forall o, x :: o in after.adopted ==> (x in after.adopted[o] <==> x in s.adopted[o] && !Reached(s.adopted, roots, x)))
            && |after.memos| == |s.memos|
            && (forall k, key :: 0 <= k < |s.memos| ==>
                  (key in after.memos[k].entries <==> key in s.memos[k].entries && !NamesReached(s, roots, key, s.memos[k].ids)))
            && (forall k :: 0 <= k < |s.memos| ==> after.memos[k].ids == s.memos[k].ids)
            && (forall k, key :: 0 <= k < |s.memos| && key in after.memos[k].entries ==>
                  after.memos[k].entries[key] == s.memos[k].entries[key])
  {
    var after := Released(s, roots);
    forall x
      ensures x in Dropped(s.adopted, roots) <==> Reached(s.adopted, roots, x)
    {
      ReachedIsDropped(s.adopted, roots, x);
    }
    forall k, key | 0 <= k < |s.memos| && key in s.memos[k].entries
      ensures key in after.memos[k].entries <==> !NamesReached(s, roots, key, s.memos[k].ids)
    {
      assert MemoShaped(s.memos[k]);
      OwnedNamesReached(s, roots, key, s.memos[k].ids);
    }
  }

  // ---------- Claims over a run ----------

  datatype Event =
    | Adopting(owner: Id, derived: set<Id>)
    | Tracking(identities: seq<Id>, finalizer: nat)
    | Dying(finalizer: nat)
    | Memoising(memo: nat, key: Key, value: int)

  ghost predicate Enabled(s: State, e: Event) {
    match e
    case Adopting(_, _) => true
    case Tracking(_, finalizer) => finalizer !in s.pending
    case Dying(finalizer) => finalizer in s.pending
    case Memoising(memo, key, _) => memo < |s.memos| && KeyShaped(key, s.memos[memo].ids)
  }

  ghost function Apply(s: State, e: Event): State
    requires Shaped(s.memos) && Enabled(s, e)
  {
    match e
    case Adopting(owner, derived) =>
      s.(adopted := s.adopted[owner := (if owner in s.adopted then s.adopted[owner] else {}) + derived])
    case Tracking(identities, finalizer) =>
      var claims := Fresh(s.claimed, identities);
      if claims == [] then s
      else s.(claimed := s.claimed + (set x | x in claims), pending := s.pending[finalizer := claims])
    case Dying(finalizer) => Released(s, s.pending[finalizer]).(pending := s.pending - {finalizer})
    case Memoising(memo, key, value) =>
      s.(memos := s.memos[memo := Memo(s.memos[memo].entries[key := value], s.memos[memo].ids)])
  }

  /** After an adoption the owner's adopted identities are those it had and the new ones, and nothing else is different. */
  lemma AdoptsMore(s: State, owner: Id, derived: set<Id>)
    requires Shaped(s.memos)
    ensures var t := Apply(s, Adopting(owner, derived));
            && (forall o, x :: (o in t.adopted && x in t.adopted[o]) <==> (o in s.adopted && x in s.adopted[o]) || (o == owner && x in derived))
            && t.claimed == s.claimed && t.memos == s.memos && t.pending == s.pending
  {
  }

  /** A tracking claims exactly the identities nobody claimed, for its finalizer alone; with none left nothing happens. */
  lemma TrackingClaims(s: State, identities: seq<Id>, finalizer: nat)
    requires Shaped(s.memos) && finalizer !in s.pending
    ensures var t := Apply(s, Tracking(identities, finalizer));
            && (forall x :: x in t.claimed <==> x in s.claimed || x in identities)
            && (forall f :: f in t.pending <==> f in s.pending || (f == finalizer && exists x :: x in identities && x !in s.claimed))
            && (forall f :: f in s.pending ==> t.pending[f] == s.pending[f])
            && (finalizer in t.pending ==> forall x :: x in t.pending[finalizer] <==> x in identities && x !in s.claimed)
            && t.adopted == s.adopted && t.memos == s.memos
  {
    var claims := Fresh(s.claimed, identities);
    assert claims != [] ==> claims[0] in claims;
    if exists x :: x in identities && x !in s.claimed {
      var x :| x in identities && x !in s.claimed;
      assert x in claims;
    }
  }

  // Memo keys keep their shape.
  lemma ApplyShaped(s: State, e: Event)
    requires Shaped(s.memos) && Enabled(s, e)
    ensures Shaped(Apply(s, e).memos)
  {
    if e.Dying? {
      KeptShaped(s.memos, Dropped(s.adopted, s.pending[e.finalizer]));
    }
  }

  /** Pending finalizers hold disjoint identities, all of them claimed. */
  ghost predicate ClaimsHeld(s: State) {
    && (forall f, x :: f in s.pending && x in s.pending[f] ==> x in s.claimed)
    && (forall f, g, x :: f in s.pending && g in s.pending && x in s.pending[f] && x in s.pending[g] ==> f == g)
  }

  /** No identity another finalizer holds is reached from what this one releases. */
  ghost predicate ReleasesOnlyItsOwn(s: State, finalizer: nat)
    requires finalizer in s.pending
  {
    forall g, x ::
          g in s.pending && g != finalizer && x in s.pending[g] ==> !Reached(s.adopted, s.pending[finalizer], x)
  }

  /** Every event keeps the claims, but a death only exactly when it releases its own alone. */
  lemma ClaimsKept(s: State, e: Event)
    requires Shaped(s.memos) && Enabled(s, e) && ClaimsHeld(s)
    ensures ClaimsHeld(Apply(s, e)) <==> (e.Dying? ==> ReleasesOnlyItsOwn(s, e.finalizer))
  {
    if e.Dying? {
      var roots := s.pending[e.finalizer];
      var after := Apply(s, e);
      if ClaimsHeld(after) {
        forall g, x | g in s.pending && g != e.finalizer && x in s.pending[g]
          ensures !Reached(s.adopted, roots, x)
        {
          assert g in after.pending && x in after.claimed;
          ReachedIsDropped(s.adopted, roots, x);
        }
      }
      if ReleasesOnlyItsOwn(s, e.finalizer) {
        forall g, x | g in after.pending && x in after.pending[g]
          ensures x in after.claimed
        {
          ReachedIsDropped(s.adopted, roots, x);
        }
      }
    }
  }

  /** No claimed identity is adopted under any owner. */
  ghost predicate ClaimedNotAdopted(s: State) {
    forall o, x :: o in s.adopted && x in s.adopted[o] ==> x !in s.claimed
  }

  lemma NotAdoptedIsEnough(s: State, finalizer: nat)
    requires ClaimsHeld(s) && ClaimedNotAdopted(s) && finalizer in s.pending
    ensures ReleasesOnlyItsOwn(s, finalizer)
  {
    forall g, x | g in s.pending && g != finalizer && x in s.pending[g]
      ensures !Reached(s.adopted, s.pending[finalizer], x)
    {
      if Reached(s.adopted, s.pending[finalizer], x) {
        assert x in s.claimed;
        ReachedIsRootOrAdopted(s.adopted, s.pending[finalizer], x);
      }
    }
  }

  /** `run` is a run of `events` from the empty tables' state. */
  ghost predicate IsRun(run: seq<State>, events: seq<Event>) {
    && |run| == |events| + 1
    && run[0].pending == map[] && Shaped(run[0].memos)
    && forall k :: 0 <= k < |events| ==> IsStep(run[k], events[k], run[k + 1])
  }

  ghost predicate IsStep(s: State, e: Event, t: State) {
    Enabled(s, e) && (Shaped(s.memos) ==> t == Apply(s, e))
  }

  /** Every memo's keys keep the shape of its registered positions. */
  lemma {:induction false} ShapedOnRuns(run: seq<State>, events: seq<Event>, k: nat)
    requires IsRun(run, events) && k < |run|
    ensures Shaped(run[k].memos)
  {
    if k > 0 {
      ShapedOnRuns(run, events, k - 1);
      assert IsStep(run[k - 1], events[k - 1], run[k - 1 + 1]);
      ApplyShaped(run[k - 1], events[k - 1]);
    }
  }

  /** No death along the run reaches what another pending finalizer claimed. */
  ghost predicate DeathsReleaseTheirOwn(run: seq<State>, events: seq<Event>)
    requires IsRun(run, events)
  {
    forall k :: 0 <= k < |events| && events[k].Dying? ==>
      IsStep(run[k], events[k], run[k + 1]) && ReleasesOnlyItsOwn(run[k], events[k].finalizer)
  }

  lemma {:induction false} OwnDeathsKeepClaims(run: seq<State>, events: seq<Event>, k: nat)
    requires IsRun(run, events) && DeathsReleaseTheirOwn(run, events) && k < |run|
    ensures ClaimsHeld(run[k])
  {
    if k > 0 {
      OwnDeathsKeepClaims(run, events, k - 1);
      ShapedOnRuns(run, events, k - 1);
      assert IsStep(run[k - 1], events[k - 1], run[k - 1 + 1]);
      ClaimsKept(run[k - 1], events[k - 1]);
    }
  }

  /** Claims hold in every state of a run exactly when every death along it releases its own alone. */
  lemma ClaimsHeldExactly(run: seq<State>, events: seq<Event>)
    requires IsRun(run, events)
    ensures (forall k :: 0 <= k < |run| ==> ClaimsHeld(run[k])) <==> DeathsReleaseTheirOwn(run, events)
  {
    if DeathsReleaseTheirOwn(run, events) {
      forall k | 0 <= k < |run| ensures ClaimsHeld(run[k]) {
        OwnDeathsKeepClaims(run, events, k);
      }
    }
    if forall k :: 0 <= k < |run| ==> ClaimsHeld(run[k]) {
      forall k | 0 <= k < |events| && events[k].Dying?
        ensures IsStep(run[k], events[k], run[k + 1]) && ReleasesOnlyItsOwn(run[k], events[k].finalizer)
      {
        ShapedOnRuns(run, events, k);
        assert IsStep(run[k], events[k], run[k + 1]);
        ClaimsKept(run[k], events[k]);
      }
    }
  }

  /** Along a run on which no claimed identity is adopted, every state holds its claims. */
  lemma {:induction false} ClaimsHeldOnRuns(run: seq<State>, events: seq<Event>, k: nat)
    requires IsRun(run, events) && k < |run|
    requires forall j :: 0 <= j < |run| ==> ClaimedNotAdopted(run[j])
    ensures ClaimsHeld(run[k])
  {
    if k > 0 {
      ClaimsHeldOnRuns(run, events, k - 1);
      ShapedOnRuns(run, events, k - 1);
      assert IsStep(run[k - 1], events[k - 1], run[k - 1 + 1]);
      ClaimsKept(run[k - 1], events[k - 1]);
      if events[k - 1].Dying? {
        NotAdoptedIsEnough(run[k - 1], events[k - 1].finalizer);
      }
    }
  }

  // Two owners claim one identity each; then the second's is adopted under the first's.
  ghost const STEALING := [Tracking([1], 0), Tracking([2], 1), Adopting(1, {2})]

  ghost const EMPTY := State(map[], {}, [], map[])
  ghost const ONE_CLAIM := State(map[], {1}, [], map[0 := [1]])
  ghost const TWO_CLAIMS := State(map[], {1, 2}, [], map[0 := [1], 1 := [2]])
  ghost const STOLEN := State(map[1 := {2}], {1, 2}, [], map[0 := [1], 1 := [2]])

  lemma ClaimOne(s: State, x: Id, finalizer: nat)
    requires s.memos == [] && x !in s.claimed && finalizer !in s.pending
    ensures Enabled(s, Tracking([x], finalizer))
    ensures Apply(s, Tracking([x], finalizer)) == s.(claimed := s.claimed + {x}, pending := s.pending[finalizer := [x]])
  {
    assert [x][..0] == [];
    assert Fresh(s.claimed, [x]) == [x];
    assert (set y | y in [x]) == {x};
  }

  lemma AdoptFirst(s: State, owner: Id, x: Id)
    requires s.memos == [] && owner !in s.adopted
    ensures Enabled(s, Adopting(owner, {x}))
    ensures Apply(s, Adopting(owner, {x})) == s.(adopted := s.adopted[owner := {x}])
  {
    assert {} + {x} == {x};
  }

  lemma OneStep(s: State, e: Event, t: State)
    requires Shaped(s.memos) && Enabled(s, e) && t == Apply(s, e)
    ensures IsStep(s, e, t)
  {
  }

  /** The empty tables come to hold the claims of both, one of them adopted. */
  lemma StolenIsReached()
    ensures IsRun([EMPTY, ONE_CLAIM, TWO_CLAIMS, STOLEN], STEALING)
  {
    hide Apply, Enabled, IsStep;
    ClaimOne(EMPTY, 1, 0);
    OneStep(EMPTY, Tracking([1], 0), ONE_CLAIM);
    ClaimOne(ONE_CLAIM, 2, 1);
    OneStep(ONE_CLAIM, Tracking([2], 1), TWO_CLAIMS);
    AdoptFirst(TWO_CLAIMS, 1, 2);
    OneStep(TWO_CLAIMS, Adopting(1, {2}), STOLEN);
  }

  lemma StolenIsHeld()
    ensures Shaped(STOLEN.memos) && ClaimsHeld(STOLEN) && Enabled(STOLEN, Dying(0))
    ensures !ReleasesOnlyItsOwn(STOLEN, 0)
  {
    OneAdoptsTwo(STOLEN.adopted);
    assert 1 in STOLEN.pending && 2 in STOLEN.pending[1];
  }

  /** A claimed identity adopted under another owner is lost to its own finalizer: a run leads to it. */
  lemma AdoptedClaimIsLost()
    ensures exists run, events :: IsRun(run, events) && run[0] == EMPTY && run[|events|] == STOLEN
    ensures Shaped(STOLEN.memos) && ClaimsHeld(STOLEN) && Enabled(STOLEN, Dying(0))
    ensures !ClaimsHeld(Apply(STOLEN, Dying(0)))
  {
    StolenIsHeld();
    StolenIsReached();
    hide *;
    var run := [EMPTY, ONE_CLAIM, TWO_CLAIMS, STOLEN];
    assert |STEALING| == 3 by { StealingIsThree(); }
    assert IsRun(run, STEALING) && run[0] == EMPTY && run[|STEALING|] == STOLEN;
    ClaimsKept(STOLEN, Dying(0));
  }

  lemma StealingIsThree()
    ensures |STEALING| == 3
  {
  }

  lemma OneAdoptsTwo(adopted: Adoption)
    requires adopted == map[1 := {2}]
    ensures Reached(adopted, [1], 2)
  {
    assert ReachesIn(adopted, 2, 2, 0);
    assert ReachesIn(adopted, 1, 2, 1);
    assert 1 in [1];
  }
}
