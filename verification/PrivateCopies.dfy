/**
 The private structural copy of a compiled artefact: a memoised copy of a cyclic
 object graph.

 Objects are identities in a heap.  A list, dictionary, set or instance is recorded
 before its parts are copied, a tuple after its members, with a second memo check.
 */
module PrivateCopies {
  import opened Wrappers

  type Ref = nat

  datatype Kind =
    | Atomic                                     // one object serves every copy
    | TupleKind(cls: string)                     // plain and named tuples
    | ListKind
    | SetKind
    | DictKind                                   // parts alternate key, value
    | InstanceKind(cls: string, slots: seq<string>)
    | UnknownKind(cls: string)                   // no copier: refused

  datatype Obj = Obj(kind: Kind, parts: seq<Ref>)

  type Heap = map<Ref, Obj>

  /** No private copy for an object of this class. */
  datatype Refusal = NoCopierFor(cls: string)

  // ---------- The original graph ----------

  ghost predicate ClosedHeap(heap: Heap) {
    && (forall x, k :: x in heap && 0 <= k < |heap[x].parts| ==> heap[x].parts[k] in heap)
    && (forall x :: x in heap && heap[x].kind.DictKind? ==> |heap[x].parts| % 2 == 0)
  }

  /** A tuple member of a tuple ranks below it: no cycle runs through tuples alone. */
  ghost predicate TuplesRanked(heap: Heap, rank: map<Ref, nat>) {
    && heap.Keys <= rank.Keys
    && forall x, k ::
         x in heap && heap[x].kind.TupleKind? && 0 <= k < |heap[x].parts|
         && heap[x].parts[k] in heap && heap[heap[x].parts[k]].kind.TupleKind?
         ==> rank[heap[x].parts[k]] < rank[x]
  }

  /** The walk goes on through `x`: it is neither kept nor an atom. */
  ghost predicate Expands(heap: Heap, kept: map<Ref, Ref>, x: Ref) {
    x in heap && x !in kept && !heap[x].kind.Atomic?
  }

  ghost predicate ReachesIn(heap: Heap, kept: map<Ref, Ref>, x: Ref, y: Ref, steps: nat)
    decreases steps
  {
    if steps == 0 then x == y
    else
      && Expands(heap, kept, x)
      && exists k :: 0 <= k < |heap[x].parts| && ReachesIn(heap, kept, heap[x].parts[k], y, steps - 1)
  }

  ghost predicate Reaches(heap: Heap, kept: map<Ref, Ref>, x: Ref, y: Ref) {
    exists steps: nat :: ReachesIn(heap, kept, x, y, steps)
  }

  lemma ReachesSelf(heap: Heap, kept: map<Ref, Ref>, x: Ref)
    ensures Reaches(heap, kept, x, x)
  {
    assert ReachesIn(heap, kept, x, x, 0);
  }

  lemma ReachesThrough(heap: Heap, kept: map<Ref, Ref>, x: Ref, k: nat, y: Ref)
    requires Expands(heap, kept, x) && k < |heap[x].parts|
    requires Reaches(heap, kept, heap[x].parts[k], y)
    ensures Reaches(heap, kept, x, y)
  {
    var steps: nat :| ReachesIn(heap, kept, heap[x].parts[k], y, steps);
    assert ReachesIn(heap, kept, x, y, steps + 1);
  }

  // ---------- The memo ----------

  /** What stands for `x` in the copy: its recorded copy, or an atom itself. */
  function Image(made: map<Ref, Ref>, x: Ref): Ref {
    if x in made then made[x] else x
  }

  function Images(made: map<Ref, Ref>, xs: seq<Ref>): seq<Ref> {
    seq(|xs|, k requires 0 <= k < |xs| => Image(made, xs[k]))
  }

  ghost predicate Known(origin: Heap, made: map<Ref, Ref>, x: Ref) {
    x in made || (x in origin && origin[x].kind.Atomic?)
  }

  /** The copy of `x` is finished: parts for parts, every one known. */
  ghost predicate Settled(origin: Heap, heap: Heap, made: map<Ref, Ref>, x: Ref) {
    && x in origin && x in made && made[x] in heap
    && (forall k :: 0 <= k < |origin[x].parts| ==> Known(origin, made, origin[x].parts[k]))
    && heap[made[x]] == Obj(origin[x].kind, Images(made, origin[x].parts))
  }

  /** The copies made so far, each the copy of one original. */
  ghost predicate Matched(origin: Heap, kept: map<Ref, Ref>, heap: Heap, made: map<Ref, Ref>,
                          source: map<Ref, Ref>, open: set<Ref>) {
    && ClosedHeap(origin)
    && kept.Keys <= origin.Keys && kept.Values <= origin.Keys
    // the original is untouched
    && (forall x :: x in origin ==> x in heap && heap[x] == origin[x])
    // what was kept or remapped still is
    && (forall x :: x in kept ==> x in made && made[x] == kept[x])
    // the objects added are the copies, each the copy of one original
    && made.Keys <= origin.Keys && open <= made.Keys - kept.Keys
    && heap.Keys == origin.Keys + source.Keys && origin.Keys !! source.Keys
    && (forall x :: x in made && x !in kept ==> made[x] in source && source[made[x]] == x)
    && (forall r :: r in source ==> source[r] in made && source[r] !in kept && made[source[r]] == r)
    && (forall x :: x in made && x !in kept ==> !origin[x].kind.Atomic? && !origin[x].kind.UnknownKind?)
  }

  /** Those of `open` are recorded and still being filled, the others are settled. */
  ghost predicate Consistent(origin: Heap, kept: map<Ref, Ref>, heap: Heap, made: map<Ref, Ref>,
                             source: map<Ref, Ref>, open: set<Ref>) {
    && Matched(origin, kept, heap, made, source, open)
    && (forall x :: x in made && x !in kept && x !in open ==> Settled(origin, heap, made, x))
  }

  /**
   What copying `from` may do: record copies of what `from` reaches, and change
   nothing recorded or allocated before but the objects `filling`.
   */
  ghost predicate Grown(origin: Heap, kept: map<Ref, Ref>, from: Ref, filling: set<Ref>,
                        heap: Heap, made: map<Ref, Ref>, heap': Heap, made': map<Ref, Ref>) {
    && (forall r :: r in heap ==> r in heap' && (r in filling || heap'[r] == heap[r]))
    && (forall x :: x in made ==> x in made' && made'[x] == made[x])
    && (forall x :: x in made' && x !in made ==> Reaches(origin, kept, from, x))
  }

  /** Containers not recorded yet. */
  ghost function Unmade(origin: Heap, made: map<Ref, Ref>): set<Ref> {
    set x | x in origin && x !in made && !origin[x].kind.TupleKind? && !origin[x].kind.Atomic?
  }

  ghost function RankOf(origin: Heap, rank: map<Ref, nat>, x: Ref): nat {
    if x in origin && x in rank && origin[x].kind.TupleKind? then rank[x] + 1 else 0
  }

  lemma GrownNot(origin: Heap, kept: map<Ref, Ref>, from: Ref, heap: Heap, made: map<Ref, Ref>)
    ensures Grown(origin, kept, from, {}, heap, made, heap, made)
  {
  }

  lemma GrownShrinks(origin: Heap, kept: map<Ref, Ref>, from: Ref, heap: Heap, made: map<Ref, Ref>, heap': Heap,
          made': map<Ref, Ref>)
    requires Grown(origin, kept, from, {}, heap, made, heap', made')
    ensures Unmade(origin, made') <= Unmade(origin, made)
  {
  }

  lemma GrownTwice(origin: Heap, kept: map<Ref, Ref>, from: Ref, second: set<Ref>,
                   heap: Heap, made: map<Ref, Ref>, heap': Heap, made': map<Ref, Ref>, heap'': Heap, made'': map<Ref, Ref>)
    requires Grown(origin, kept, from, {}, heap, made, heap', made')
    requires Grown(origin, kept, from, second, heap', made', heap'', made'')
    requires forall r :: r in second ==> r !in heap
    ensures Grown(origin, kept, from, {}, heap, made, heap'', made'')
    ensures Unmade(origin, made'') <= Unmade(origin, made')
  {
  }

  // Recording a settled copy keeps the others settled.
  lemma StaysSettled(origin: Heap, heap: Heap, made: map<Ref, Ref>, heap': Heap, made': map<Ref, Ref>, x: Ref)
    requires Settled(origin, heap, made, x)
    requires made[x] in heap' && heap'[made[x]] == heap[made[x]]
    requires forall y :: y in made ==> y in made' && made'[y] == made[y]
    requires forall y :: y in made' && y !in made ==> y in origin && !origin[y].kind.Atomic?
    ensures Settled(origin, heap', made', x)
  {
    var parts := origin[x].parts;
    assert Images(made', parts) == Images(made, parts) by {
      forall k | 0 <= k < |parts|
        ensures Image(made', parts[k]) == Image(made, parts[k])
      {
        assert Known(origin, made, parts[k]);
      }
    }
  }

  /** What is recorded for `part`: an empty object to fill, or the finished copy. */
  ghost predicate Recordable(origin: Heap, made: map<Ref, Ref>, part: Ref, obj: Obj, open: set<Ref>, open': set<Ref>) {
    && part in origin && part !in made
    && !origin[part].kind.Atomic? && !origin[part].kind.UnknownKind?
    && (open' == open + {part}
        || (open' == open && obj == Obj(origin[part].kind, Images(made, origin[part].parts))
            && forall k :: 0 <= k < |origin[part].parts| ==> Known(origin, made, origin[part].parts[k])))
  }

  // The new copy is the copy of one original, and nothing else changes.
  lemma StaysMatched(origin: Heap, kept: map<Ref, Ref>, heap: Heap, made: map<Ref, Ref>, source: map<Ref, Ref>,
          open: set<Ref>, part: Ref, copy: Ref, obj: Obj, open': set<Ref>)
    requires Matched(origin, kept, heap, made, source, open)
    requires Recordable(origin, made, part, obj, open, open') && copy !in heap
    ensures Matched(origin, kept, heap[copy := obj], made[part := copy], source[copy := part], open')
  {
    hide Known, Images;
  }

  lemma StaysConsistent(origin: Heap, kept: map<Ref, Ref>, heap: Heap, made: map<Ref, Ref>, source: map<Ref, Ref>,
                        open: set<Ref>, part: Ref, copy: Ref, obj: Obj, open': set<Ref>)
    requires Consistent(origin, kept, heap, made, source, open)
    requires Recordable(origin, made, part, obj, open, open') && copy !in heap
    ensures Consistent(origin, kept, heap[copy := obj], made[part := copy], source[copy := part], open')
  {
    hide Settled;
    StaysMatched(origin, kept, heap, made, source, open, part, copy, obj, open');
    var heap', made' := heap[copy := obj], made[part := copy];
    forall x | x in made' && x !in kept && x !in open'
      ensures Settled(origin, heap', made', x)
    {
      if x != part {
        StaysSettled(origin, heap, made, heap', made', x);
      } else {
        RecordedIsSettled(origin, heap, made, part, copy, obj, open);
      }
    }
  }

  lemma RecordedIsSettled(origin: Heap, heap: Heap, made: map<Ref, Ref>, part: Ref, copy: Ref, obj: Obj, open: set<Ref>)
    requires Recordable(origin, made, part, obj, open, open) && part !in open
    ensures Settled(origin, heap[copy := obj], made[part := copy], part)
  {
    forall k | 0 <= k < |origin[part].parts|
      ensures Known(origin, made[part := copy], origin[part].parts[k])
      ensures Image(made[part := copy], origin[part].parts[k]) == Image(made, origin[part].parts[k])
    {
      assert Known(origin, made, origin[part].parts[k]);
    }
    assert Images(made[part := copy], origin[part].parts) == Images(made, origin[part].parts);
  }

  /** The first `k` parts of `part` are in place in its copy. */
  ghost predicate Filled(origin: Heap, heap: Heap, made: map<Ref, Ref>, part: Ref, k: nat) {
    && part in origin && k <= |origin[part].parts|
    && part in made && made[part] in heap
    && (forall j :: 0 <= j < k ==> Known(origin, made, origin[part].parts[j]))
    && heap[made[part]] == Obj(origin[part].kind, Images(made, origin[part].parts[..k]))
  }

  lemma ConsistentMemo(origin: Heap, kept: map<Ref, Ref>, heap: Heap, made: map<Ref, Ref>, source: map<Ref, Ref>,
          open: set<Ref>)
    requires Consistent(origin, kept, heap, made, source, open)
    ensures kept.Keys <= made.Keys
    ensures forall x :: x in made && x !in kept ==> x in origin && !origin[x].kind.Atomic?
  {
  }

  /** Appending the images of the next parts fills them in. */
  lemma FillMore(origin: Heap, kept: map<Ref, Ref>, from: Ref, heap: Heap, made: map<Ref, Ref>, heap': Heap,
          made': map<Ref, Ref>,
                 source: map<Ref, Ref>, open: set<Ref>, k: nat, more: seq<Ref>)
    requires Filled(origin, heap, made, from, k) && k + |more| <= |origin[from].parts|
    requires Grown(origin, kept, from, {}, heap, made, heap', made') && kept.Keys <= made.Keys
    requires Consistent(origin, kept, heap', made', source, open)
    requires forall j :: k <= j < k + |more| ==>
               Known(origin, made', origin[from].parts[j]) && more[j - k] == Image(made', origin[from].parts[j])
    ensures from in made' && made'[from] == made[from] && made[from] in heap'
    ensures var heap'' := heap'[made[from] := Obj(heap'[made[from]].kind, heap'[made[from]].parts + more)];
            && Filled(origin, heap'', made', from, k + |more|)
            && Grown(origin, kept, from, {made[from]}, heap, made, heap'', made')
  {
    hide Consistent;
    ConsistentMemo(origin, kept, heap', made', source, open);
    var parts := origin[from].parts;
    ImagesKept(origin, kept, made, made', parts[..k]);
    forall j | 0 <= j < k
      ensures Known(origin, made', parts[j])
    {
      assert Known(origin, made, parts[j]);
    }
    assert Images(made', parts[..k + |more|]) == Images(made', parts[..k]) + more;
  }

  /** Appending an entry, its value copied before its key, fills it in. */
  lemma EntryMore(origin: Heap, kept: map<Ref, Ref>, from: Ref, heap: Heap, made: map<Ref, Ref>,
          made1: map<Ref, Ref>, heap1: Heap,
                  heap': Heap, made': map<Ref, Ref>, source: map<Ref, Ref>, open: set<Ref>, k: nat, key: Ref, value: Ref)
    requires Filled(origin, heap, made, from, k) && k + 2 <= |origin[from].parts|
    requires Grown(origin, kept, from, {}, heap, made, heap', made') && kept.Keys <= made.Keys
    requires Grown(origin, kept, from, {}, heap1, made1, heap', made') && kept.Keys <= made1.Keys
    requires Consistent(origin, kept, heap', made', source, open)
    requires Known(origin, made1, origin[from].parts[k + 1]) && value == Image(made1, origin[from].parts[k + 1])
    requires Known(origin, made', origin[from].parts[k]) && key == Image(made', origin[from].parts[k])
    ensures from in made' && made'[from] == made[from] && made[from] in heap'
    ensures var heap'' := heap'[made[from] := Obj(heap'[made[from]].kind, heap'[made[from]].parts + [key, value])];
            && Filled(origin, heap'', made', from, k + 2)
            && Grown(origin, kept, from, {made[from]}, heap, made, heap'', made')
  {
    hide Consistent, Grown, Known, Image;
    ImageKept(origin, kept, from, heap1, made1, heap', made', source, open, origin[from].parts[k + 1]);
    FillMore(origin, kept, from, heap, made, heap', made', source, open, k, [key, value]);
  }

  /** A part's image stays what it was while copies are added. */
  lemma ImageKept(origin: Heap, kept: map<Ref, Ref>, from: Ref, heap: Heap, made: map<Ref, Ref>, heap': Heap,
          made': map<Ref, Ref>,
                  source: map<Ref, Ref>, open: set<Ref>, x: Ref)
    requires Grown(origin, kept, from, {}, heap, made, heap', made') && kept.Keys <= made.Keys
    requires Consistent(origin, kept, heap', made', source, open)
    requires Known(origin, made, x)
    ensures Known(origin, made', x) && Image(made', x) == Image(made, x)
  {
  }

  lemma GrownRecord(origin: Heap, kept: map<Ref, Ref>, from: Ref, copy: Ref, obj: Obj,
                    heap: Heap, made: map<Ref, Ref>, heap': Heap, made': map<Ref, Ref>)
    requires Grown(origin, kept, from, {}, heap, made, heap', made')
    requires from !in made' && copy !in heap'
    ensures Grown(origin, kept, from, {}, heap, made, heap'[copy := obj], made'[from := copy])
  {
    ReachesSelf(origin, kept, from);
  }

  /** `members` are the images of the first parts of `part`. */
  ghost predicate FirstCopied(origin: Heap, made: map<Ref, Ref>, part: Ref, members: seq<Ref>) {
    && part in origin && |members| <= |origin[part].parts|
    && (forall j :: 0 <= j < |members| ==> Known(origin, made, origin[part].parts[j]))
    && members == Images(made, origin[part].parts[..|members|])
  }

  lemma OneMoreCopied(origin: Heap, kept: map<Ref, Ref>, part: Ref, heap: Heap, made: map<Ref, Ref>, heap': Heap,
          made': map<Ref, Ref>,
                      source: map<Ref, Ref>, open: set<Ref>, members: seq<Ref>, one: Ref)
    requires FirstCopied(origin, made, part, members) && |members| < |origin[part].parts|
    requires Grown(origin, kept, part, {}, heap, made, heap', made') && kept.Keys <= made.Keys
    requires Consistent(origin, kept, heap', made', source, open)
    requires Known(origin, made', origin[part].parts[|members|]) && one == Image(made', origin[part].parts[|members|])
    ensures FirstCopied(origin, made', part, members + [one])
  {
    hide Consistent;
    ConsistentMemo(origin, kept, heap', made', source, open);
    var parts := origin[part].parts;
    ImagesKept(origin, kept, made, made', parts[..|members|]);
    forall j | 0 <= j < |members|
      ensures Known(origin, made', parts[j])
    {
      assert Known(origin, made, parts[j]);
    }
    assert Images(made', parts[..|members| + 1]) == Images(made', parts[..|members|]) + [one];
  }

  class PrivateCopy {
    var made: map<Ref, Ref>
    var heap: Heap
    var next: Ref
    ghost var source: map<Ref, Ref>              // a copy's original
    ghost const origin: Heap
    ghost const kept: map<Ref, Ref>
    ghost const rank: map<Ref, nat>

    ghost predicate Valid(open: set<Ref>)
      reads this
    {
      && Consistent(origin, kept, heap, made, source, open)
      && TuplesRanked(origin, rank)
      && forall r :: r in heap ==> r < next
    }

    /** Start from the objects that are kept or remapped, not copied. */
    constructor (start: Heap, keep: map<Ref, Ref>, firstFree: Ref, ghost tuples: map<Ref, nat>)
      requires ClosedHeap(start) && TuplesRanked(start, tuples)
      requires keep.Keys <= start.Keys && keep.Values <= start.Keys
      requires forall r :: r in start ==> r < firstFree
      ensures Valid({}) && origin == start && kept == keep && heap == start && made == keep
    {
      made := keep;
      heap := start;
      source := map[];
      next := firstFree;
      origin := start;
      kept := keep;
      rank := tuples;
    }

    /** What a consistent state says of the original graph and the memo. */
    lemma Facts(open: set<Ref>)
      requires Valid(open)
      ensures ClosedHeap(origin)
      ensures forall x :: x in origin ==> x in heap && heap[x] == origin[x]
      ensures kept.Keys <= made.Keys
      ensures forall x :: x in made && x !in kept ==> x in origin && !origin[x].kind.Atomic?
      ensures forall x :: x in open ==> x in made && x !in kept && made[x] in heap && made[x] !in origin
    {
    }

    /** Record a new object as the copy of `part`. */
    method Keep(part: Ref, obj: Obj, ghost open: set<Ref>, ghost open': set<Ref>) returns (copy: Ref)
      requires Valid(open) && Recordable(origin, made, part, obj, open, open')
      modifies this
      ensures Valid(open') && copy !in old(heap)
      ensures made == old(made)[part := copy] && heap == old(heap)[copy := obj]
    {
      hide Consistent;
      copy := next;
      next := next + 1;
      heap := heap[copy := obj];
      made := made[part := copy];
      source := source[copy := part];
      StaysConsistent(origin, kept, old(heap), old(made), old(source), open, part, copy, obj, open');
    }

    /** Append the copied parts to the object standing for `part`. */
    method Append(part: Ref, more: seq<Ref>, ghost open: set<Ref>)
      requires Valid(open) && part in open
      modifies this`heap
      ensures Valid(open)
      ensures heap == old(heap)[made[part] := Obj(old(heap)[made[part]].kind, old(heap)[made[part]].parts + more)]
    {
      var copy := made[part];
      heap := heap[copy := Obj(heap[copy].kind, heap[copy].parts + more)];
      forall x | x in made && x !in kept && x !in open
        ensures Settled(origin, heap, made, x)
      {
        StaysSettled(origin, old(heap), made, heap, made, x);
      }
    }

    ghost predicate Copied(part: Ref, open: set<Ref>, r: Result<Ref, Refusal>)
      reads this
    {
      match r
      case Ok(copy) => Valid(open) && Known(origin, made, part) && copy == Image(made, part)
      case Err(e) => Refused(part, e)
    }

    // `from` reaches an object of the refused class.
    ghost predicate Refused(from: Ref, e: Refusal)
      reads this
    {
      exists x :: x in origin && x !in kept && origin[x].kind == UnknownKind(e.cls) && Reaches(origin, kept, from, x)
    }

    /** The part's copy, made once however often it is reached. */
    method Of(part: Ref, ghost open: set<Ref>) returns (r: Result<Ref, Refusal>)
      requires Valid(open) && part in origin
      modifies this
      ensures Grown(origin, kept, part, {}, old(heap), old(made), heap, made) && Copied(part, open, r)
      decreases Unmade(origin, made), 0, RankOf(origin, rank, part), 2
    {
      ReachesSelf(origin, kept, part);
      if part in made {
        return Ok(made[part]);
      }
      match heap[part].kind {
        case Atomic => r := Ok(part);
        case TupleKind(_) => r := CopyTuple(part, open);
        case DictKind => r := CopyDict(part, open);
        case UnknownKind(cls) => r := Err(NoCopierFor(cls));
        case _ => r := CopyContainer(part, open);
      }
    }

    /** The copy of one part of `part`, as a step of copying `part` itself. */
    method OfPart(part: Ref, k: nat, ghost open: set<Ref>) returns (r: Result<Ref, Refusal>)
      requires Valid(open) && Expands(origin, kept, part) && k < |origin[part].parts|
      modifies this
      ensures Grown(origin, kept, part, {}, old(heap), old(made), heap, made) && (r.Err? ==> Refused(part, r.error))
      ensures r.Ok? ==> Copied(origin[part].parts[k], open, r)
      decreases Unmade(origin, made), 0, RankOf(origin, rank, origin[part].parts[k]), 3
    {
      ghost var one := origin[part].parts[k];
      r := Of(heap[part].parts[k], open);
      forall x | Reaches(origin, kept, one, x)
        ensures Reaches(origin, kept, part, x)
      {
        ReachesThrough(origin, kept, part, k, x);
      }
    }

    /** Copies of a tuple's members, in order. */
    method CopyMembers(part: Ref, ghost open: set<Ref>) returns (r: Result<seq<Ref>, Refusal>)
      requires Valid(open) && Expands(origin, kept, part) && origin[part].kind.TupleKind?
      modifies this
      ensures Grown(origin, kept, part, {}, old(heap), old(made), heap, made)
      ensures r.Err? ==> Refused(part, r.error)
      ensures r.Ok? ==> Valid(open) && FirstCopied(origin, made, part, r.value) && |r.value| == |origin[part].parts|
      decreases Unmade(origin, made), 0, RankOf(origin, rank, part), 0
    {
      Facts(open);
      var members: seq<Ref> := [];
      GrownNot(origin, kept, part, heap, made);
      assert FirstCopied(origin, made, part, members);
      var parts := heap[part].parts;
      assert part in origin && parts == origin[part].parts;
      ghost var rankings := TuplesRanked(origin, rank);
      hide *;
      while |members| < |parts|
        invariant part in origin && parts == origin[part].parts && |members| <= |parts|
        invariant Valid(open) && FirstCopied(origin, made, part, members)
        invariant Grown(origin, kept, part, {}, old(heap), old(made), heap, made)
        invariant Expands(origin, kept, part)
        invariant Unmade(origin, made) <= Unmade(origin, old(made))
      {
        ghost var heapBefore, madeBefore := heap, made;
        MemberRank(part, |members|, open);
        var one := OfPart(part, |members|, open);
        GrownTwice(origin, kept, part, {}, old(heap), old(made), heapBefore, madeBefore, heap, made);
        if one.Err? {
          return Err(one.error);
        }
        UseCopied(parts[|members|], open, one);
        OneMoreCopied(origin, kept, part, heapBefore, madeBefore, heap, made, source, open, members, one.value);
        members := members + [one.value];
      }
      r := Ok(members);
    }

    lemma MemberRank(part: Ref, k: nat, open: set<Ref>)
      requires Valid(open) && Expands(origin, kept, part) && part in origin && origin[part].kind.TupleKind?
      requires k < |origin[part].parts|
      ensures RankOf(origin, rank, origin[part].parts[k]) < RankOf(origin, rank, part)
      ensures kept.Keys <= made.Keys
    {
    }

    lemma UseCopied(part: Ref, open: set<Ref>, r: Result<Ref, Refusal>)
      requires Copied(part, open, r) && r.Ok?
      ensures Valid(open) && Known(origin, made, part) && r.value == Image(made, part)
      ensures Consistent(origin, kept, heap, made, source, open) && kept.Keys <= made.Keys
    {
    }

    /** A tuple of copies, after its members, since a member may reach it. */
    method CopyTuple(part: Ref, ghost open: set<Ref>) returns (r: Result<Ref, Refusal>)
      requires Valid(open) && part in origin && part !in made && origin[part].kind.TupleKind?
      modifies this
      ensures Grown(origin, kept, part, {}, old(heap), old(made), heap, made) && Copied(part, open, r)
      decreases Unmade(origin, made), 0, RankOf(origin, rank, part), 1
    {
      var members := CopyMembers(part, open);
      if members.Err? {
        return Err(members.error);
      }
      // The second memo check: a member may have copied this tuple meanwhile.
      if part in made {
        return Ok(made[part]);
      }
      r := Finish(part, members.value, open, old(heap), old(made));
    }

    /** Record a tuple over its copied members. */
    method Finish(part: Ref, members: seq<Ref>, ghost open: set<Ref>, ghost heap0: Heap, ghost made0: map<Ref, Ref>)
      returns (r: Result<Ref, Refusal>)
      requires Valid(open) && part in origin && part !in made && part !in made0 && origin[part].kind.TupleKind?
      requires FirstCopied(origin, made, part, members) && |members| == |origin[part].parts|
      requires Grown(origin, kept, part, {}, heap0, made0, heap, made)
      modifies this
      ensures Grown(origin, kept, part, {}, heap0, made0, heap, made) && Copied(part, open, r)
    {
      hide Consistent;
      FinishedIsRecordable(part, members, open);
      ghost var heap1, made1 := heap, made;
      var copy := Keep(part, Obj(heap[part].kind, members), open, open);
      GrownRecord(origin, kept, part, copy, heap[copy], heap0, made0, heap1, made1);
      r := Ok(copy);
    }

    lemma FinishedIsRecordable(part: Ref, members: seq<Ref>, open: set<Ref>)
      requires Valid(open) && part in origin && part !in made && origin[part].kind.TupleKind?
      requires FirstCopied(origin, made, part, members) && |members| == |origin[part].parts|
      ensures part in heap && Recordable(origin, made, part, Obj(heap[part].kind, members), open, open)
    {
      assert origin[part].parts[..|members|] == origin[part].parts;
    }

    lemma FilledIsSettled(part: Ref, open: set<Ref>)
      requires Valid(open + {part}) && part !in open && Filled(origin, heap, made, part, |origin[part].parts|)
      ensures Copied(part, open, Ok(made[part]))
    {
      assert origin[part].parts[..|origin[part].parts|] == origin[part].parts;
    }

    /** Record an empty object of the part's kind, before its parts are copied. */
    method Begin(part: Ref, ghost open: set<Ref>, ghost filling: set<Ref>) returns (copy: Ref)
      requires Valid(open) && part in origin && part !in made && filling == open + {part}
      requires !origin[part].kind.TupleKind? && !origin[part].kind.Atomic? && !origin[part].kind.UnknownKind?
      modifies this
      ensures Grown(origin, kept, part, {}, old(heap), old(made), heap, made)
      ensures Valid(filling) && Filled(origin, heap, made, part, 0) && part !in open
      ensures part in made && made[part] == copy && copy !in old(heap) && part in heap && heap[part] == origin[part]
      ensures origin[part].kind.DictKind? ==> |origin[part].parts| % 2 == 0
      ensures Unmade(origin, made) < Unmade(origin, old(made))
    {
      Facts(open);
      hide Consistent;
      ghost var heap0, made0 := heap, made;
      copy := Keep(part, Obj(heap[part].kind, []), open, filling);
      GrownNot(origin, kept, part, heap0, made0);
      GrownRecord(origin, kept, part, copy, heap[copy], heap0, made0, heap0, made0);
      assert part in Unmade(origin, old(made)) && part !in Unmade(origin, made);
    }

    /** A list, set or instance: recorded empty, then filled part by part. */
    method CopyContainer(part: Ref, ghost open: set<Ref>) returns (r: Result<Ref, Refusal>)
      requires Valid(open) && part in origin && part !in made
      requires origin[part].kind.ListKind? || origin[part].kind.SetKind? || origin[part].kind.InstanceKind?
      modifies this
      ensures Grown(origin, kept, part, {}, old(heap), old(made), heap, made) && Copied(part, open, r)
      decreases Unmade(origin, made), 0, RankOf(origin, rank, part), 1
    {
      hide *;
      ghost var filling := open + {part};
      var copy := Begin(part, open, filling);
      var size := |heap[part].parts|;
      var k := 0;
      while k < size
        invariant 0 <= k <= size && part in origin && size == |origin[part].parts|
        invariant Valid(filling) && Grown(origin, kept, part, {}, old(heap), old(made), heap, made)
        invariant Filled(origin, heap, made, part, k) && part in made && made[part] == copy
        invariant Unmade(origin, made) < Unmade(origin, old(made))
      {
        ghost var heapBefore, madeBefore := heap, made;
        var one := FillOne(part, k, filling);
        GrownTwice(origin, kept, part, {copy}, old(heap), old(made), heapBefore, madeBefore, heap, made);
        if one.Err? {
          RefusedIsCopied(part, open, one);
          return one;
        }
        k := k + 1;
      }
      FilledIsSettled(part, open);
      r := Ok(copy);
    }

    lemma FillingExpands(part: Ref, filling: set<Ref>)
      requires Valid(filling) && part in filling
      ensures part in origin && Expands(origin, kept, part) && kept.Keys <= made.Keys
    {
    }

    /** Copy one part and append it. */
    method FillOne(part: Ref, k: nat, ghost filling: set<Ref>) returns (r: Result<Ref, Refusal>)
      requires Valid(filling) && part in filling && part in origin && part in made
      requires Filled(origin, heap, made, part, k) && k < |origin[part].parts|
      modifies this
      ensures part in made && made[part] == old(made[part])
      ensures Grown(origin, kept, part, {made[part]}, old(heap), old(made), heap, made)
      ensures r.Err? ==> Refused(part, r.error)
      ensures r.Ok? ==> Valid(filling) && Filled(origin, heap, made, part, k + 1)
      decreases Unmade(origin, made), 1
    {
      hide *;
      FillingExpands(part, filling);
      ghost var heap0, made0 := heap, made;
      r := OfPart(part, k, filling);
      if r.Err? {
        GrownMore(part, made0[part], heap0, made0);
        return;
      }
      UseCopied(origin[part].parts[k], filling, r);
      FillMore(origin, kept, part, heap0, made0, heap, made, source, filling, k, [r.value]);
      Append(part, [r.value], filling);
    }

    lemma RefusedIsCopied(part: Ref, open: set<Ref>, r: Result<Ref, Refusal>)
      requires r.Err? && Refused(part, r.error)
      ensures Copied(part, open, r)
    {
    }

    lemma GrownMore(part: Ref, copy: Ref, heap0: Heap, made0: map<Ref, Ref>)
      requires Grown(origin, kept, part, {}, heap0, made0, heap, made)
      ensures Grown(origin, kept, part, {copy}, heap0, made0, heap, made)
      ensures part in made0 ==> part in made && made[part] == made0[part]
    {
    }

    /** A dictionary: recorded empty, then filled entry by entry. */
    method CopyDict(part: Ref, ghost open: set<Ref>) returns (r: Result<Ref, Refusal>)
      requires Valid(open) && part in origin && part !in made && origin[part].kind.DictKind?
      modifies this
      ensures Grown(origin, kept, part, {}, old(heap), old(made), heap, made) && Copied(part, open, r)
      decreases Unmade(origin, made), 0, RankOf(origin, rank, part), 1
    {
      hide *;
      ghost var filling := open + {part};
      var copy := Begin(part, open, filling);
      var size := |heap[part].parts|;
      var k := 0;
      while k < size
        invariant 0 <= k <= size && k % 2 == 0 && part in origin && size == |origin[part].parts|
        invariant Valid(filling) && Grown(origin, kept, part, {}, old(heap), old(made), heap, made)
        invariant Filled(origin, heap, made, part, k) && part in made && made[part] == copy
        invariant Unmade(origin, made) < Unmade(origin, old(made))
      {
        ghost var heapBefore, madeBefore := heap, made;
        var one := FillEntry(part, k, filling);
        GrownTwice(origin, kept, part, {copy}, old(heap), old(made), heapBefore, madeBefore, heap, made);
        if one.Err? {
          RefusedIsCopied(part, open, one);
          return one;
        }
        k := k + 2;
      }
      FilledIsSettled(part, open);
      r := Ok(copy);
    }

    /** Copy one entry, its value before its key, and insert it. */
    method FillEntry(part: Ref, k: nat, ghost filling: set<Ref>) returns (r: Result<Ref, Refusal>)
      requires Valid(filling) && part in filling && part in origin && part in made
      requires Filled(origin, heap, made, part, k) && k + 1 < |origin[part].parts|
      modifies this
      ensures part in made && made[part] == old(made[part])
      ensures Grown(origin, kept, part, {made[part]}, old(heap), old(made), heap, made)
      ensures r.Err? ==> Refused(part, r.error)
      ensures r.Ok? ==> Valid(filling) && Filled(origin, heap, made, part, k + 2)
      decreases Unmade(origin, made), 1
    {
      hide *;
      FillingExpands(part, filling);
      ghost var heap0, made0 := heap, made;
      r := OfPart(part, k + 1, filling);
      if r.Err? {
        GrownMore(part, made0[part], heap0, made0);
        return;
      }
      UseCopied(origin[part].parts[k + 1], filling, r);
      ghost var heap1, made1 := heap, made;
      GrownShrinks(origin, kept, part, heap0, made0, heap1, made1);
      var value := r.value;
      r := OfPart(part, k, filling);
      GrownTwice(origin, kept, part, {}, heap0, made0, heap1, made1, heap, made);
      if r.Err? {
        GrownMore(part, made0[part], heap0, made0);
        return;
      }
      UseCopied(origin[part].parts[k], filling, r);
      EntryMore(origin, kept, part, heap0, made0, made1, heap1, heap, made, source, filling, k, r.value, value);
      Append(part, [r.value, value], filling);
    }
  }

  lemma ImagesKept(origin: Heap, kept: map<Ref, Ref>, made: map<Ref, Ref>, made': map<Ref, Ref>, xs: seq<Ref>)
    requires forall k :: 0 <= k < |xs| ==> Known(origin, made, xs[k])
    requires forall y :: y in made ==> y in made' && made'[y] == made[y]
    requires forall y :: y in kept ==> y in made
    requires forall y :: y in made' && y !in kept ==> y in origin && !origin[y].kind.Atomic?
    ensures Images(made', xs) == Images(made, xs)
  {
    forall k | 0 <= k < |xs|
      ensures Image(made', xs[k]) == Image(made, xs[k])
    {
      assert Known(origin, made, xs[k]);
    }
  }

  // ---------- The copy is isomorphic to the original ----------

  /** The objects a copy adds: the images of what the walk expands from `root`. */
  ghost predicate IsPrivateCopy(origin: Heap, kept: map<Ref, Ref>, root: Ref, heap: Heap, made: map<Ref, Ref>,
          copy: Ref) {
    && copy == Image(made, root)
    // the original is untouched, what was kept or remapped is used as given, an atom as itself
    && (forall x :: x in origin ==> x in heap && heap[x] == origin[x])
    && (forall x :: x in kept ==> x in made && made[x] == kept[x])
    && (forall x :: x in made ==> x in origin && (origin[x].kind.Atomic? ==> x in kept))
    // exactly the expanded objects reached from the root are copied
    && (forall x :: (x in made && x !in kept) <==> (Expands(origin, kept, x) && Reaches(origin, kept, root, x)))
    // one fresh object for each, and no other
    && (forall x :: x in made && x !in kept ==> made[x] in heap && made[x] !in origin)
    && (forall x, y :: x in made && x !in kept && y in made && y !in kept && made[x] == made[y] ==> x == y)
    && (forall r :: r in heap && r !in origin ==> exists x :: x in made && x !in kept && made[x] == r)
    // of the same kind, parts standing for parts
    && (forall x :: x in made && x !in kept ==> Settled(origin, heap, made, x))
  }

  lemma {:induction false} ReachedIsKnown(origin: Heap, kept: map<Ref, Ref>, heap: Heap, made: map<Ref, Ref>,
                                          source: map<Ref, Ref>, x: Ref, y: Ref, steps: nat)
    requires Consistent(origin, kept, heap, made, source, {})
    requires Known(origin, made, x) && ReachesIn(origin, kept, x, y, steps)
    ensures Known(origin, made, y)
    decreases steps
  {
    if steps > 0 {
      var k :| 0 <= k < |origin[x].parts| && ReachesIn(origin, kept, origin[x].parts[k], y, steps - 1);
      assert Settled(origin, heap, made, x);
      ReachedIsKnown(origin, kept, heap, made, source, origin[x].parts[k], y, steps - 1);
    }
  }

  lemma CopyIsPrivate(origin: Heap, kept: map<Ref, Ref>, root: Ref, heap: Heap, made: map<Ref, Ref>,
          source: map<Ref, Ref>)
    requires Consistent(origin, kept, heap, made, source, {}) && Known(origin, made, root)
    requires forall x :: x in made && x !in kept ==> Reaches(origin, kept, root, x)
    ensures IsPrivateCopy(origin, kept, root, heap, made, Image(made, root))
    ensures forall x :: Expands(origin, kept, x) && Reaches(origin, kept, root, x) ==> !origin[x].kind.UnknownKind?
  {
    forall x | Expands(origin, kept, x) && Reaches(origin, kept, root, x)
      ensures x in made
    {
      var steps: nat :| ReachesIn(origin, kept, root, x, steps);
      ReachedIsKnown(origin, kept, heap, made, source, root, x, steps);
    }
    forall r | r in heap && r !in origin
      ensures exists x :: x in made && x !in kept && made[x] == r
    {
      assert made[source[r]] == r;
    }
  }

  /**
   The one entry to the copy: it always ends, and refuses exactly when the artefact
   reaches an object no copier is named for.
   */
  method CopyOf(start: Heap, keep: map<Ref, Ref>, firstFree: Ref, compiled: Ref, ghost tuples: map<Ref, nat>)
    returns (copier: PrivateCopy, r: Result<Ref, Refusal>)
    requires ClosedHeap(start) && TuplesRanked(start, tuples)
    requires keep.Keys <= start.Keys && keep.Values <= start.Keys && compiled in start
    requires forall x :: x in start ==> x < firstFree
    ensures r.Ok? ==> IsPrivateCopy(start, keep, compiled, copier.heap, copier.made, r.value)
    ensures r.Err? <==>
            exists x :: Expands(start, keep, x) && Reaches(start, keep, compiled, x) && start[x].kind.UnknownKind?
    ensures r.Err? ==>
              exists x :: x in start && x !in keep && Reaches(start, keep, compiled, x) && start[x].kind == UnknownKind(r.error.cls)
    ensures forall x :: x in start ==> x in copier.heap && copier.heap[x] == start[x]
  {
    copier := new PrivateCopy(start, keep, firstFree, tuples);
    r := copier.Of(compiled, {});
    if r.Ok? {
      CopyIsPrivate(start, keep, compiled, copier.heap, copier.made, copier.source);
    }
  }

  // ---------- Access paths ----------

  /** The object a path of part positions leads to, while the walk goes on. */
  ghost function Follow(heap: Heap, expands: set<Ref>, x: Ref, path: seq<nat>): Option<Ref>
    decreases |path|
  {
    if path == [] then Some(x)
    else if x in expands && x in heap && path[0] < |heap[x].parts|
    then Follow(heap, expands, heap[x].parts[path[0]], path[1..])
    else None
  }

  ghost function Copied(made: map<Ref, Ref>, kept: map<Ref, Ref>): set<Ref> {
    set x | x in made && x !in kept
  }

  ghost function Copies(made: map<Ref, Ref>, kept: map<Ref, Ref>): set<Ref> {
    set x | x in made && x !in kept :: made[x]
  }

  ghost function ImageOf(made: map<Ref, Ref>, x: Option<Ref>): Option<Ref> {
    if x.Some? then Some(Image(made, x.value)) else None
  }

  /** Every access path leads in the copy to the image of what it leads to in the original. */
  lemma {:induction false} PathsAgree(origin: Heap, kept: map<Ref, Ref>, root: Ref, heap: Heap, made: map<Ref, Ref>,
          copy: Ref,
                                      x: Ref, path: seq<nat>)
    requires IsPrivateCopy(origin, kept, root, heap, made, copy) && kept.Values <= origin.Keys
    requires Known(origin, made, x)
    ensures Follow(heap, Copies(made, kept), Image(made, x), path)
         == ImageOf(made, Follow(origin, Copied(made, kept), x, path))
    ensures Follow(origin, Copied(made, kept), x, path).Some? ==>
              Known(origin, made, Follow(origin, Copied(made, kept), x, path).value)
    decreases |path|
  {
    if path != [] {
      if x in made && x !in kept {
        assert Settled(origin, heap, made, x) && made[x] in Copies(made, kept);
        if path[0] < |origin[x].parts| {
          PathsAgree(origin, kept, root, heap, made, copy, origin[x].parts[path[0]], path[1..]);
        }
      } else {
        assert Image(made, x) in origin;
        assert Image(made, x) !in Copies(made, kept);
      }
    }
  }

  /** Two paths that meet at a copied object meet in the copy, and only those do. */
  lemma SharingAgrees(origin: Heap, kept: map<Ref, Ref>, root: Ref, heap: Heap, made: map<Ref, Ref>, copy: Ref,
                      one: seq<nat>, other: seq<nat>)
    requires IsPrivateCopy(origin, kept, root, heap, made, copy) && kept.Values <= origin.Keys
    requires Known(origin, made, root)
    requires var x := Follow(origin, Copied(made, kept), root, one); x.Some? && x.value in Copied(made, kept)
    ensures Follow(origin, Copied(made, kept), root, one) == Follow(origin, Copied(made, kept), root, other)
       <==> Follow(heap, Copies(made, kept), copy, one) == Follow(heap, Copies(made, kept), copy, other)
  {
    PathsAgree(origin, kept, root, heap, made, copy, root, one);
    PathsAgree(origin, kept, root, heap, made, copy, root, other);
  }
}
