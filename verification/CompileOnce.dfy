/**
 Compiling a product once: the double-checked, per-key lock as thread steps.

 Objects are known to the memo by their addresses; a product pins the very objects it
 was compiled for.  Threads interleave in any order and a compile may raise.
 */
module CompileOnce {
  import opened Wrappers

  type Object = nat

  datatype Request = Request(grammar: Object, binding: Object, bits: nat)

  datatype Key = Key(grammar: nat, binding: nat, bits: nat)

  datatype Product = Product(grammar: Object, binding: Object, serial: nat)

  datatype Pc =
    | Begin                                  // before the first, unlocked read
    | Missed                                 // about to ask for the key's lock
    | InGuard                                // inside the guard that mints the locks
    | Looked(found: Option<nat>)             // still inside: what the lookup found
    | Waiting(lock: nat)                     // before acquiring the key's lock
    | Holding(lock: nat)                     // before the second read
    | Compiling(lock: nat)
    | Compiled(lock: nat, made: Product)     // before storing it
    | Leaving(lock: nat, got: Product)       // before releasing the lock
    | Done(got: Product)
    | Raised

  datatype Thread = Thread(request: Request, pc: Pc)

  datatype State = State(
    address: map<Object, nat>,               // of every object alive
    cache: map<Key, Product>,
    locks: map<Key, nat>,
    nextLock: nat,
    holder: map<nat, nat>,                   // a held lock's thread
    guard: Option<nat>,
    threads: seq<Thread>,
    nextSerial: nat,
    starts: multiset<Request>,               // compiles begun, finished and raised
    minted: multiset<Request>,
    raised: multiset<Request>)

  ghost predicate Addressed(s: State) {
    && (forall t :: 0 <= t < |s.threads| ==>
          s.threads[t].request.grammar in s.address && s.threads[t].request.binding in s.address)
    && (forall x, y :: x in s.address && y in s.address && s.address[x] == s.address[y] ==> x == y)
  }

  function KeyOf(s: State, t: nat): Key
    requires t < |s.threads|
    requires s.threads[t].request.grammar in s.address && s.threads[t].request.binding in s.address
  {
    var q := s.threads[t].request;
    Key(s.address[q.grammar], s.address[q.binding], q.bits)
  }

  /** The memo answers the request: an entry under its key, for the very objects asked for. */
  predicate Hit(cache: map<Key, Product>, key: Key, q: Request) {
    key in cache && cache[key].grammar == q.grammar && cache[key].binding == q.binding
  }

  // ---------- One step of one thread ----------

  /** Where a thread asking for `q` under `key` goes next; `raises` is how its compile comes out. */
  function Move(pc: Pc, q: Request, key: Key, cache: map<Key, Product>, locks: map<Key, nat>, nextLock: nat,
          serial: nat, raises: bool): Pc
  {
    match pc
    case Begin => if Hit(cache, key, q) then Done(cache[key]) else Missed
    case Missed => InGuard
    case InGuard => Looked(if key in locks then Some(locks[key]) else None)
    case Looked(found) => Waiting(if found.Some? then found.value else nextLock)
    case Waiting(lock) => Holding(lock)
    case Holding(lock) => if Hit(cache, key, q) then Leaving(lock, cache[key]) else Compiling(lock)
    case Compiling(lock) => if raises then Raised else Compiled(lock, Product(q.grammar, q.binding, serial))
    case Compiled(lock, made) => Leaving(lock, made)
    case Leaving(_, got) => Done(got)
    case Done(got) => Done(got)
    case Raised => Raised
  }

  function NextPc(s: State, t: nat, raises: bool): Pc
    requires Named(s, t)
  {
    Move(s.threads[t].pc, s.threads[t].request, KeyOf(s, t), s.cache, s.locks, s.nextLock, s.nextSerial, raises)
  }

  predicate Named(s: State, t: nat) {
    t < |s.threads| && s.threads[t].request.grammar in s.address && s.threads[t].request.binding in s.address
  }

  predicate MintsLock(pc: Pc) {
    pc.Looked? && pc.found.None?
  }

  predicate LeavesLock(pc: Pc, raises: bool) {
    pc.Leaving? || (pc.Compiling? && raises)
  }

  function NextLocks(s: State, t: nat): map<Key, nat>
    requires Named(s, t)
  {
    if MintsLock(s.threads[t].pc) then s.locks[KeyOf(s, t) := s.nextLock] else s.locks
  }

  function NextHolder(s: State, t: nat, raises: bool): map<nat, nat>
    requires Named(s, t)
  {
    var pc := s.threads[t].pc;
    if pc.Waiting? then s.holder[pc.lock := t]
    else if LeavesLock(pc, raises) then s.holder - {pc.lock}
    else s.holder
  }

  function NextGuard(s: State, t: nat): Option<nat>
    requires Named(s, t)
  {
    if s.threads[t].pc.Missed? then Some(t) else if s.threads[t].pc.Looked? then None else s.guard
  }

  function NextCache(s: State, t: nat): map<Key, Product>
    requires Named(s, t)
  {
    if s.threads[t].pc.Compiled? then s.cache[KeyOf(s, t) := s.threads[t].pc.made] else s.cache
  }

  function Add(log: multiset<Request>, event: bool, q: Request): multiset<Request> {
    if event then log[q := log[q] + 1] else log
  }

  function Next(s: State, t: nat, raises: bool): State
    requires Named(s, t)
  {
    var thread := s.threads[t];
    State(
      s.address, NextCache(s, t), NextLocks(s, t), if MintsLock(thread.pc) then s.nextLock + 1 else s.nextLock,
      NextHolder(s, t, raises), NextGuard(s, t), s.threads[t := Thread(thread.request, NextPc(s, t, raises))],
      if thread.pc.Compiling? then s.nextSerial + 1 else s.nextSerial,
      Add(s.starts, NextPc(s, t, raises).Compiling?, thread.request),
      Add(s.minted, thread.pc.Compiling? && !raises, thread.request),
      Add(s.raised, thread.pc.Compiling? && raises, thread.request))
  }

  /** Thread `t` is not finished, and not blocked on the guard or on a lock another thread holds. */
  predicate CanStep(s: State, t: nat) {
    && Named(s, t)
    && !s.threads[t].pc.Done? && !s.threads[t].pc.Raised?
    && (s.threads[t].pc.Missed? ==> s.guard.None?)
    && (s.threads[t].pc.Waiting? ==> s.threads[t].pc.lock !in s.holder)
  }

  ghost predicate Step(s: State, t: nat, raises: bool, s': State) {
    Addressed(s) && CanStep(s, t) && s' == Next(s, t, raises)
  }

  /** Threads asking for anything, over whatever the memo holds, stale entries included. */
  ghost predicate Initial(s: State) {
    && Addressed(s)
    && (forall t :: 0 <= t < |s.threads| ==> s.threads[t].pc == Begin)
    && s.guard.None? && s.holder == map[]
    && (forall key :: key in s.locks ==> s.locks[key] < s.nextLock)
    && (forall one, other :: one in s.locks && other in s.locks && s.locks[one] == s.locks[other] ==> one == other)
    && s.starts == s.minted == s.raised == multiset{}
  }

  // ---------- The invariant ----------

  predicate HasLock(pc: Pc) {
    pc.Waiting? || pc.Holding? || pc.Compiling? || pc.Compiled? || pc.Leaving?
  }

  predicate Inside(pc: Pc) {
    pc.Holding? || pc.Compiling? || pc.Compiled? || pc.Leaving?
  }

  ghost predicate LocksKnown(s: State)
    requires Addressed(s)
  {
    && (forall key :: key in s.locks ==> s.locks[key] < s.nextLock)
    && (forall one, other :: one in s.locks && other in s.locks && s.locks[one] == s.locks[other] ==> one == other)
    && (forall t :: 0 <= t < |s.threads| && HasLock(s.threads[t].pc) ==>
          KeyOf(s, t) in s.locks && s.locks[KeyOf(s, t)] == s.threads[t].pc.lock)
  }

  ghost predicate LocksHeld(s: State) {
    && (forall lock :: lock in s.holder ==>
          s.holder[lock] < |s.threads| && Inside(s.threads[s.holder[lock]].pc) && s.threads[s.holder[lock]].pc.lock == lock)
    && (forall t :: 0 <= t < |s.threads| && Inside(s.threads[t].pc) ==>
          s.threads[t].pc.lock in s.holder && s.holder[s.threads[t].pc.lock] == t)
  }

  ghost predicate GuardHeld(s: State)
    requires Addressed(s)
  {
    && (s.guard.Some? ==> s.guard.value < |s.threads|
                          && (s.threads[s.guard.value].pc.InGuard? || s.threads[s.guard.value].pc.Looked?))
    && (forall t ::
          0 <= t < |s.threads| && (s.threads[t].pc.InGuard? || s.threads[t].pc.Looked?) ==> s.guard == Some(t))
    && (forall t :: 0 <= t < |s.threads| && s.threads[t].pc.Looked? ==>
          s.threads[t].pc.found == if KeyOf(s, t) in s.locks then Some(s.locks[KeyOf(s, t)]) else None)
  }

  /** A compile is under way only where the memo has no answer; who is served holds the memo's. */
  ghost predicate Served(s: State)
    requires Addressed(s)
  {
    forall t :: 0 <= t < |s.threads| ==> ServedAt(s, t)
  }

  ghost predicate SomeCompiling(s: State, q: Request) {
    exists t :: 0 <= t < |s.threads| && s.threads[t].request == q && s.threads[t].pc.Compiling?
  }

  ghost predicate SomeCompiled(s: State, q: Request) {
    exists t :: 0 <= t < |s.threads| && s.threads[t].request == q && s.threads[t].pc.Compiled?
  }

  ghost predicate Answered(s: State, q: Request) {
    q.grammar in s.address && q.binding in s.address && Hit(s.cache, Key(s.address[q.grammar], s.address[q.binding], q.bits), q)
  }

  ghost predicate Counted(s: State) {
    && (forall q :: s.starts[q] == s.minted[q] + s.raised[q] + if SomeCompiling(s, q) then 1 else 0)
    && (forall q :: s.minted[q] <= 1)
    && (forall q :: s.minted[q] == 1 ==> Answered(s, q) || SomeCompiled(s, q))
  }

  ghost predicate Inv(s: State) {
    Addressed(s) && LocksKnown(s) && LocksHeld(s) && GuardHeld(s) && Served(s) && Counted(s)
  }

  lemma InitialInv(s: State)
    requires Initial(s)
    ensures Inv(s)
  {
  }

  /** Two threads inside one key's lock are one thread. */
  lemma OneInside(s: State, t: nat, u: nat)
    requires Addressed(s) && LocksKnown(s) && LocksHeld(s)
    requires t < |s.threads| && u < |s.threads| && s.threads[t].request == s.threads[u].request
    requires Inside(s.threads[t].pc) && Inside(s.threads[u].pc)
    ensures t == u
  {
  }

  lemma SameKeySameRequest(s: State, t: nat, u: nat)
    requires Addressed(s) && t < |s.threads| && u < |s.threads| && KeyOf(s, t) == KeyOf(s, u)
    ensures s.threads[t].request == s.threads[u].request
  {
  }

  /** A step changes its own thread alone, and no key. */
  lemma Steps(s: State, t: nat, raises: bool, s': State)
    requires Step(s, t, raises, s')
    ensures Addressed(s) && CanStep(s, t)
  {
  }

  lemma StepFrame(s: State, t: nat, raises: bool, s': State)
    requires Step(s, t, raises, s')
    ensures Addressed(s') && |s'.threads| == |s.threads| && s'.address == s.address
    ensures s'.threads[t] == Thread(s.threads[t].request, NextPc(s, t, raises))
    ensures forall u ::
          0 <= u < |s.threads| ==> s'.threads[u].request == s.threads[u].request && KeyOf(s', u) == KeyOf(s, u)
    ensures forall u :: 0 <= u < |s.threads| && u != t ==> s'.threads[u] == s.threads[u]
  {
    hide NextPc, NextCache, NextLocks, NextHolder, NextGuard, Add;
  }

  lemma StepAt(s: State, t: nat, raises: bool, s': State, u: nat)
    requires Step(s, t, raises, s') && u < |s.threads|
    ensures Addressed(s') && |s'.threads| == |s.threads| && KeyOf(s', u) == KeyOf(s, u)
    ensures s'.threads[u] == if u == t then Thread(s.threads[t].request, NextPc(s, t, raises)) else s.threads[u]
    ensures s'.locks == NextLocks(s, t) && s'.holder == NextHolder(s, t, raises) && s'.guard == NextGuard(s, t)
    ensures s'.cache == NextCache(s, t)
    ensures Named(s, t) && CanStep(s, t)
  {
    StepFrame(s, t, raises, s');
  }

  // The looked-up key is still without a lock when its lock is minted.
  lemma MintedIsNew(s: State, t: nat)
    requires Addressed(s) && GuardHeld(s) && t < |s.threads| && s.threads[t].pc.Looked?
    ensures s.threads[t].pc.found == if KeyOf(s, t) in s.locks then Some(s.locks[KeyOf(s, t)]) else None
  {
  }

  predicate LockBy(locks: map<Key, nat>, key: Key, pc: Pc) {
    HasLock(pc) ==> key in locks && locks[key] == pc.lock
  }

  lemma MoveLock(pc: Pc, q: Request, key: Key, cache: map<Key, Product>, locks: map<Key, nat>, nextLock: nat,
          serial: nat, raises: bool)
    requires LockBy(locks, key, pc)
    requires pc.Looked? ==> pc.found == if key in locks then Some(locks[key]) else None
    ensures LockBy(if MintsLock(pc) then locks[key := nextLock] else locks, key, Move(pc, q, key, cache, locks, nextLock, serial, raises))
    ensures MintsLock(pc) ==> key !in locks
  {
  }

  lemma StepLockAt(s: State, t: nat, raises: bool, s': State, u: nat)
    requires Inv(s) && Step(s, t, raises, s') && u < |s'.threads| && |s'.threads| == |s.threads|
    ensures Addressed(s') && LockBy(s'.locks, KeyOf(s', u), s'.threads[u].pc)
    ensures MintsLock(s.threads[t].pc) ==> KeyOf(s, t) !in s.locks
  {
    StepAt(s, t, raises, s', u);
    if s.threads[t].pc.Looked? {
      MintedIsNew(s, t);
    }
    assert LockBy(s.locks, KeyOf(s, t), s.threads[t].pc) && LockBy(s.locks, KeyOf(s, u), s.threads[u].pc);
    hide Step, Inv, GuardHeld, LocksHeld, LocksKnown, Served, Counted, Hit, KeyOf, Addressed, CanStep, NextHolder,
         NextGuard, NextCache,
         MintsLock, Move;
    var thread := s.threads[t];
    MoveLock(thread.pc, thread.request, KeyOf(s, t), s.cache, s.locks, s.nextLock, s.nextSerial, raises);
  }

  lemma StepLocksKnown(s: State, t: nat, raises: bool, s': State)
    requires Inv(s) && Step(s, t, raises, s')
    ensures Addressed(s') && LocksKnown(s')
  {
    StepAt(s, t, raises, s', t);
    assert |s'.threads| == |s.threads| && s'.nextLock == if MintsLock(s.threads[t].pc) then s.nextLock + 1 else s.nextLock;
    forall u | 0 <= u < |s'.threads| && HasLock(s'.threads[u].pc)
      ensures KeyOf(s', u) in s'.locks && s'.locks[KeyOf(s', u)] == s'.threads[u].pc.lock
    {
      StepLockAt(s, t, raises, s', u);
    }
    StepLockAt(s, t, raises, s', t);
    hide Step, GuardHeld, LocksHeld, Served, Counted, Hit, KeyOf, Addressed, CanStep, NextPc, NextHolder, NextGuard,
         NextCache, HasLock;
  }

  lemma StepGuardAt(s: State, t: nat, raises: bool, s': State, u: nat)
    requires Inv(s) && Step(s, t, raises, s') && u < |s'.threads| && |s'.threads| == |s.threads|
    requires s'.threads[u].pc.InGuard? || s'.threads[u].pc.Looked?
    ensures Addressed(s') && s'.guard == Some(u)
    ensures s'.threads[u].pc.Looked? ==>
              s'.threads[u].pc.found == if KeyOf(s', u) in s'.locks then Some(s'.locks[KeyOf(s', u)]) else None
  {
    StepAt(s, t, raises, s', u);
    hide Step, LocksKnown, LocksHeld, Served, Counted, Hit, KeyOf, Addressed, NextHolder, NextCache;
  }

  lemma StepGuard(s: State, t: nat, raises: bool, s': State)
    requires Inv(s) && Step(s, t, raises, s')
    ensures Addressed(s') && GuardHeld(s')
  {
    StepAt(s, t, raises, s', t);
    assert |s'.threads| == |s.threads|;
    forall u | 0 <= u < |s'.threads| && (s'.threads[u].pc.InGuard? || s'.threads[u].pc.Looked?)
      ensures s'.guard == Some(u)
      ensures s'.threads[u].pc.Looked? ==>
                s'.threads[u].pc.found == if KeyOf(s', u) in s'.locks then Some(s'.locks[KeyOf(s', u)]) else None
    {
      StepGuardAt(s, t, raises, s', u);
    }
    if s'.guard.Some? && s'.guard.value != t {
      assert s.guard == s'.guard;
      StepAt(s, t, raises, s', s.guard.value);
    }
    hide Step, LocksKnown, LocksHeld, Served, Counted, Hit, KeyOf, Addressed, NextHolder, NextCache, NextLocks;
  }

  lemma NextInside(s: State, t: nat, raises: bool)
    requires Named(s, t) && Inside(NextPc(s, t, raises))
    ensures var pc := s.threads[t].pc;
            HasLock(pc) && NextPc(s, t, raises).lock == pc.lock && !LeavesLock(pc, raises) && (!pc.Waiting? ==> Inside(pc))
  {
    hide Hit, KeyOf;
  }

  lemma StepHeldAt(s: State, t: nat, raises: bool, s': State, u: nat)
    requires Inv(s) && Step(s, t, raises, s') && u < |s'.threads| && |s'.threads| == |s.threads| && Inside(s'.threads[u].pc)
    ensures s'.threads[u].pc.lock in s'.holder && s'.holder[s'.threads[u].pc.lock] == u
  {
    StepAt(s, t, raises, s', u);
    if u == t {
      NextInside(s, t, raises);
    }
    hide Step, LocksKnown, GuardHeld, Served, Counted, Hit, KeyOf, Addressed, NextPc, NextLocks, NextGuard, NextCache;
  }

  lemma StepHolderAt(s: State, t: nat, raises: bool, s': State, lock: nat)
    requires Inv(s) && Step(s, t, raises, s') && |s'.threads| == |s.threads| && lock in s'.holder
    ensures s'.holder[lock] < |s'.threads| && Inside(s'.threads[s'.holder[lock]].pc)
    ensures s'.threads[s'.holder[lock]].pc.lock == lock
  {
    hide Step, LocksKnown, GuardHeld, Served, Counted, Hit, KeyOf, Addressed, NextLocks, NextGuard, NextCache;
    Steps(s, t, raises, s');
    StepAt(s, t, raises, s', t);
    if s'.holder[lock] != t {
      hide NextPc;
      assert lock in s.holder && s.holder[lock] == s'.holder[lock];
      StepAt(s, t, raises, s', s.holder[lock]);
    }
  }

  lemma StepHeld(s: State, t: nat, raises: bool, s': State)
    requires Inv(s) && Step(s, t, raises, s')
    ensures LocksHeld(s')
  {
    StepFrame(s, t, raises, s');
    hide Step, LocksKnown, GuardHeld, Served, Counted, Addressed, Inside;
    forall lock | lock in s'.holder
      ensures s'.holder[lock] < |s'.threads| && Inside(s'.threads[s'.holder[lock]].pc)
      ensures s'.threads[s'.holder[lock]].pc.lock == lock
    {
      StepHolderAt(s, t, raises, s', lock);
    }
    forall u | 0 <= u < |s'.threads| && Inside(s'.threads[u].pc)
      ensures s'.threads[u].pc.lock in s'.holder && s'.holder[s'.threads[u].pc.lock] == u
    {
      StepHeldAt(s, t, raises, s', u);
    }
  }

  // When the product is stored nobody else under its key is inside the lock or served.
  lemma AloneWhenStoring(s: State, t: nat, u: nat)
    requires Inv(s) && t < |s.threads| && u < |s.threads| && s.threads[t].pc.Compiled? && KeyOf(s, u) == KeyOf(s, t)
    ensures s.threads[u].request == s.threads[t].request
    ensures Inside(s.threads[u].pc) ==> u == t
    ensures !s.threads[u].pc.Done?
  {
    SameKeySameRequest(s, u, t);
    assert ServedAt(s, u) && ServedAt(s, t);
    if Inside(s.threads[u].pc) {
      OneInside(s, u, t);
    }
  }

  /** What a thread at `pc` may count on: no answer while it compiles, the memo's own once served. */
  predicate ServedBy(cache: map<Key, Product>, key: Key, q: Request, pc: Pc) {
    && (pc.Compiling? || pc.Compiled? ==> !Hit(cache, key, q))
    && (pc.Compiled? ==> pc.made.grammar == q.grammar && pc.made.binding == q.binding)
    && (pc.Leaving? || pc.Done? ==> Hit(cache, key, q) && cache[key] == pc.got)
  }

  ghost predicate ServedAt(s: State, u: nat)
    requires Addressed(s) && u < |s.threads|
  {
    ServedBy(s.cache, KeyOf(s, u), s.threads[u].request, s.threads[u].pc)
  }

  lemma MoveServed(pc: Pc, q: Request, key: Key, cache: map<Key, Product>, locks: map<Key, nat>, nextLock: nat,
          serial: nat, raises: bool)
    requires ServedBy(cache, key, q, pc)
    ensures ServedBy(if pc.Compiled? then cache[key := pc.made] else cache, key, q,
                     Move(pc, q, key, cache, locks, nextLock, serial, raises))
  {
  }

  lemma StepServedOwn(s: State, t: nat, raises: bool, s': State)
    requires Inv(s) && Step(s, t, raises, s') && |s'.threads| == |s.threads|
    ensures Addressed(s') && ServedAt(s', t)
  {
    StepAt(s, t, raises, s', t);
    assert ServedAt(s, t);
    hide Step, Inv, CanStep, LocksKnown, LocksHeld, GuardHeld, Served, Counted, KeyOf, Addressed, NextLocks,
         NextGuard, NextHolder,
         ServedBy, Move, Hit;
    var thread := s.threads[t];
    MoveServed(thread.pc, thread.request, KeyOf(s, t), s.cache, s.locks, s.nextLock, s.nextSerial, raises);
  }

  lemma StepServedAt(s: State, t: nat, raises: bool, s': State, u: nat)
    requires Inv(s) && Step(s, t, raises, s') && u < |s.threads| && |s'.threads| == |s.threads| && u != t
    ensures Addressed(s') && ServedAt(s', u)
  {
    StepAt(s, t, raises, s', u);
    if s.threads[t].pc.Compiled? && KeyOf(s, u) == KeyOf(s, t) {
      AloneWhenStoring(s, t, u);
    }
    assert ServedAt(s, u);
    hide Step, LocksKnown, LocksHeld, GuardHeld, Served, Counted, KeyOf, Addressed, NextPc, NextLocks, NextGuard,
         NextHolder, CanStep;
  }

  lemma StepServed(s: State, t: nat, raises: bool, s': State)
    requires Inv(s) && Step(s, t, raises, s')
    ensures Addressed(s') && Served(s')
  {
    StepFrame(s, t, raises, s');
    forall u | 0 <= u < |s'.threads|
      ensures ServedAt(s', u)
    {
      if u == t {
        StepServedOwn(s, t, raises, s');
      } else {
        StepServedAt(s, t, raises, s', u);
      }
    }
  }

  // ---------- The counts ----------

  lemma OthersCompiling(s: State, t: nat, raises: bool, s': State, q: Request)
    requires Inv(s) && Step(s, t, raises, s') && q != s.threads[t].request
    ensures SomeCompiling(s', q) <==> SomeCompiling(s, q)
    ensures SomeCompiled(s', q) <==> SomeCompiled(s, q)
  {
    StepFrame(s, t, raises, s');
    hide Step, Addressed, LocksKnown, LocksHeld, GuardHeld, Served, Counted, KeyOf;
    if SomeCompiling(s, q) {
      var u :| 0 <= u < |s.threads| && s.threads[u].request == q && s.threads[u].pc.Compiling?;
      assert s'.threads[u] == s.threads[u];
    }
    if SomeCompiled(s, q) {
      var u :| 0 <= u < |s.threads| && s.threads[u].request == q && s.threads[u].pc.Compiled?;
      assert s'.threads[u] == s.threads[u];
    }
  }

  // Inside the lock the stepping thread is the only one compiling its request.
  lemma OwnCompiling(s: State, t: nat, raises: bool, s': State)
    requires Inv(s) && Step(s, t, raises, s') && Inside(s.threads[t].pc)
    ensures SomeCompiling(s, s.threads[t].request) <==> s.threads[t].pc.Compiling?
    ensures SomeCompiled(s, s.threads[t].request) <==> s.threads[t].pc.Compiled?
    ensures SomeCompiling(s', s.threads[t].request) <==> s'.threads[t].pc.Compiling?
    ensures SomeCompiled(s', s.threads[t].request) <==> s'.threads[t].pc.Compiled?
  {
    hide Step, Addressed, LocksKnown, LocksHeld, GuardHeld, Served, Counted, KeyOf, NextPc;
    Steps(s, t, raises, s');
    StepFrame(s, t, raises, s');
    forall u | 0 <= u < |s.threads| && u != t && s.threads[u].request == s.threads[t].request
      ensures !Inside(s.threads[u].pc)
    {
      if Inside(s.threads[u].pc) {
        OneInside(s, u, t);
      }
    }
  }

  lemma OutsideCompiling(s: State, t: nat, raises: bool, s': State)
    requires Inv(s) && Step(s, t, raises, s') && !Inside(s.threads[t].pc)
    ensures SomeCompiling(s', s.threads[t].request) <==> SomeCompiling(s, s.threads[t].request)
    ensures SomeCompiled(s', s.threads[t].request) <==> SomeCompiled(s, s.threads[t].request)
  {
    StepFrame(s, t, raises, s');
    var q := s.threads[t].request;
    assert !s'.threads[t].pc.Compiling? && !s'.threads[t].pc.Compiled?;
    hide Step, Addressed, LocksKnown, LocksHeld, GuardHeld, Served, Counted, KeyOf, NextPc;
    if SomeCompiling(s, q) {
      var u :| 0 <= u < |s.threads| && s.threads[u].request == q && s.threads[u].pc.Compiling?;
      assert s'.threads[u] == s.threads[u];
    }
    if SomeCompiled(s, q) {
      var u :| 0 <= u < |s.threads| && s.threads[u].request == q && s.threads[u].pc.Compiled?;
      assert s'.threads[u] == s.threads[u];
    }
  }

  lemma ServedOf(s: State, u: nat)
    requires Inv(s) && u < |s.threads|
    ensures ServedAt(s, u)
  {
  }

  lemma AnsweredAfter(s: State, t: nat, raises: bool, s': State, q: Request)
    requires Inv(s) && Step(s, t, raises, s')
    ensures Answered(s, q) ==> Answered(s', q)
    ensures s.threads[t].pc.Compiled? && q == s.threads[t].request ==> Answered(s', q)
    ensures s.threads[t].pc.Compiling? && q == s.threads[t].request ==> !Answered(s, q)
  {
    hide Step, Counted, GuardHeld, LocksHeld, LocksKnown, Served, NextPc, NextLocks, NextHolder, NextGuard;
    Steps(s, t, raises, s');
    StepFrame(s, t, raises, s');
    StepAt(s, t, raises, s', t);
    ServedOf(s, t);
  }

  lemma StepCounted(s: State, t: nat, raises: bool, s': State)
    requires Inv(s) && Step(s, t, raises, s')
    ensures Counted(s')
  {
    forall q
      ensures s'.starts[q] == s'.minted[q] + s'.raised[q] + if SomeCompiling(s', q) then 1 else 0
      ensures s'.minted[q] <= 1
      ensures s'.minted[q] == 1 ==> Answered(s', q) || SomeCompiled(s', q)
    {
      StepCountedOne(s, t, raises, s', q);
    }
  }

  // What a step adds to the counts of one request.
  lemma StepLogs(s: State, t: nat, raises: bool, s': State, q: Request)
    requires Step(s, t, raises, s')
    ensures |s'.threads| == |s.threads|
    ensures var own, pc, next := q == s.threads[t].request, s.threads[t].pc, s'.threads[t].pc;
            && s'.starts[q] == s.starts[q] + (if own && next.Compiling? then 1 else 0)
            && s'.minted[q] == s.minted[q] + (if own && pc.Compiling? && !raises then 1 else 0)
            && s'.raised[q] == s.raised[q] + (if own && pc.Compiling? && raises then 1 else 0)
            && (pc.Compiling? ==> if raises then next.Raised? else next.Compiled?)
            && (next.Compiling? ==> pc.Holding?)
  {
    hide NextCache, NextLocks, NextHolder, NextGuard, Hit, KeyOf;
  }

  lemma CountedFor(s: State, q: Request)
    requires Counted(s)
    ensures s.starts[q] == s.minted[q] + s.raised[q] + if SomeCompiling(s, q) then 1 else 0
    ensures s.minted[q] <= 1
    ensures s.minted[q] == 1 ==> Answered(s, q) || SomeCompiled(s, q)
  {
  }

  lemma StepCountedOne(s: State, t: nat, raises: bool, s': State, q: Request)
    requires Inv(s) && Step(s, t, raises, s')
    ensures s'.starts[q] == s'.minted[q] + s'.raised[q] + if SomeCompiling(s', q) then 1 else 0
    ensures s'.minted[q] <= 1
    ensures s'.minted[q] == 1 ==> Answered(s', q) || SomeCompiled(s', q)
  {
    StepLogs(s, t, raises, s', q);
    CountedFor(s, q);
    AnsweredAfter(s, t, raises, s', q);
    if q != s.threads[t].request {
      OthersCompiling(s, t, raises, s', q);
    } else if Inside(s.threads[t].pc) {
      OwnCompiling(s, t, raises, s');
    } else {
      OutsideCompiling(s, t, raises, s');
    }
    hide Inv, Step, SomeCompiling, SomeCompiled, Answered;
  }

  /** A caller the memo answers is served by its first, unlocked read, and nothing else happens. */
  lemma HitNeedsNoLock(s: State, t: nat, raises: bool, s': State)
    requires Step(s, t, raises, s') && s.threads[t].pc.Begin? && Answered(s, s.threads[t].request)
    ensures s'.threads[t].pc == Done(s.cache[KeyOf(s, t)])
    ensures s' == s.(threads := s'.threads)
  {
    assert s.threads[t := s'.threads[t]] == s'.threads;
  }

  /** A compile starts only inside the lock, on a memo that does not answer; one that raises leaves the memo and gives the lock back. */
  lemma CompileIsLocked(s: State, t: nat, raises: bool, s': State)
    requires Inv(s) && Step(s, t, raises, s')
    ensures s'.threads[t].pc.Compiling? ==> s.threads[t].pc.Holding? && !Answered(s, s.threads[t].request)
    ensures s'.threads[t].pc.Compiling? ==> s'.threads[t].pc.lock in s'.holder && s'.holder[s'.threads[t].pc.lock] == t
    ensures s.threads[t].pc.Compiling? && raises ==>
              s'.threads[t].pc.Raised? && s'.cache == s.cache && s'.locks == s.locks && s'.holder == s.holder - {s.threads[t].pc.lock}
  {
    StepLogs(s, t, raises, s', s.threads[t].request);
    StepAt(s, t, raises, s', t);
    hide LocksKnown, GuardHeld, Served, Counted;
  }

  /** Every step of every thread keeps the invariant. */
  lemma StepInv(s: State, t: nat, raises: bool, s': State)
    requires Inv(s) && Step(s, t, raises, s')
    ensures Inv(s')
  {
    StepLocksKnown(s, t, raises, s');
    StepGuard(s, t, raises, s');
    StepHeld(s, t, raises, s');
    StepServed(s, t, raises, s');
    StepCounted(s, t, raises, s');
    hide Step, Addressed, LocksKnown, LocksHeld, GuardHeld, Served, Counted;
  }

  // ---------- Serials ----------

  /** A product minted has the next serial, which is then used up. */
  lemma MintsNextSerial(s: State, t: nat, raises: bool, s': State)
    requires Step(s, t, raises, s')
    ensures s'.nextSerial == s.nextSerial + if s.threads[t].pc.Compiling? then 1 else 0
    ensures s.threads[t].pc.Compiling? && !raises ==>
              s'.threads[t].pc.Compiled? && s'.threads[t].pc.made.serial == s.nextSerial
              && s'.threads[t].pc.made.grammar == s.threads[t].request.grammar
              && s'.threads[t].pc.made.binding == s.threads[t].request.binding
  {
    hide NextCache, NextLocks, NextHolder, NextGuard, Hit;
  }

  // ---------- Runs ----------

  /** A scheduler's choice: the thread to run and how its compile comes out. */
  datatype Choice = Choice(thread: nat, raises: bool)

  ghost predicate IsRun(run: seq<State>, choices: seq<Choice>) {
    && |run| == |choices| + 1 && Initial(run[0])
    && forall k :: 0 <= k < |choices| ==> Step(run[k], choices[k].thread, choices[k].raises, run[k + 1])
  }

  lemma {:induction false} RunInv(run: seq<State>, choices: seq<Choice>, k: nat)
    requires IsRun(run, choices) && k < |run|
    ensures Inv(run[k])
  {
    if k == 0 {
      InitialInv(run[0]);
    } else {
      RunInv(run, choices, k - 1);
      StepInv(run[k - 1], choices[k - 1].thread, choices[k - 1].raises, run[k]);
    }
  }

  /**
   In every interleaving at most one product is minted for a request, and a compile
   starts at most once more than compiles of it raised: once, when none raises.
   */
  lemma CompiledAtMostOnce(run: seq<State>, choices: seq<Choice>, k: nat, q: Request)
    requires IsRun(run, choices) && k < |run|
    ensures run[k].minted[q] <= 1
    ensures run[k].starts[q] <= 1 + run[k].raised[q]
  {
    RunInv(run, choices, k);
    var s := run[k];
    if SomeCompiling(s, q) && s.minted[q] == 1 {
      var t :| 0 <= t < |s.threads| && s.threads[t].request == q && s.threads[t].pc.Compiling?;
      assert ServedAt(s, t);
      if SomeCompiled(s, q) {
        var u :| 0 <= u < |s.threads| && s.threads[u].request == q && s.threads[u].pc.Compiled?;
        OneInside(s, t, u);
      }
    }
  }

  /** All callers of one request are handed one product, of the very objects they asked for. */
  lemma CallersAgree(run: seq<State>, choices: seq<Choice>, k: nat, t: nat, u: nat)
    requires IsRun(run, choices) && k < |run| && t < |run[k].threads| && u < |run[k].threads|
    requires run[k].threads[t].pc.Done? && run[k].threads[u].pc.Done?
    requires run[k].threads[t].request == run[k].threads[u].request
    ensures run[k].threads[t].pc.got == run[k].threads[u].pc.got
    ensures run[k].threads[t].pc.got.grammar == run[k].threads[t].request.grammar
    ensures run[k].threads[t].pc.got.binding == run[k].threads[t].request.binding
  {
    RunInv(run, choices, k);
    assert ServedAt(run[k], t) && ServedAt(run[k], u);
  }

  // ---------- Every run ends, and only with every caller served ----------

  function Ahead(pc: Pc): nat {
    match pc
    case Begin => 9
    case Missed => 8
    case InGuard => 7
    case Looked(_) => 6
    case Waiting(_) => 5
    case Holding(_) => 4
    case Compiling(_) => 3
    case Compiled(_, _) => 2
    case Leaving(_, _) => 1
    case Done(_) => 0
    case Raised => 0
  }

  function AllAhead(threads: seq<Thread>): nat {
    if threads == [] then 0 else Ahead(threads[0].pc) + AllAhead(threads[1..])
  }

  lemma {:induction false} AheadOfOne(threads: seq<Thread>, t: nat, thread: Thread)
    requires t < |threads|
    ensures AllAhead(threads[t := thread]) + Ahead(threads[t].pc) == AllAhead(threads) + Ahead(thread.pc)
  {
    if t > 0 {
      AheadOfOne(threads[1..], t - 1, thread);
      assert threads[t := thread][1..] == threads[1..][t - 1 := thread];
    }
  }

  lemma StepDescends(s: State, t: nat, raises: bool, s': State)
    requires Step(s, t, raises, s')
    ensures AllAhead(s'.threads) < AllAhead(s.threads)
  {
    AheadOfOne(s.threads, t, s'.threads[t]);
    StepFrame(s, t, raises, s');
    hide AllAhead, NextCache, NextLocks, NextHolder, NextGuard, Add;
    assert s'.threads == s.threads[t := s'.threads[t]];
  }

  lemma {:induction false} RunIsShort(run: seq<State>, choices: seq<Choice>, k: nat)
    requires IsRun(run, choices) && k < |run|
    ensures AllAhead(run[k].threads) + k <= AllAhead(run[0].threads)
  {
    if k > 0 {
      hide Step, Initial, AllAhead;
      RunIsShort(run, choices, k - 1);
      assert Step(run[k - 1], choices[k - 1].thread, choices[k - 1].raises, run[k - 1 + 1]);
      StepDescends(run[k - 1], choices[k - 1].thread, choices[k - 1].raises, run[k]);
    }
  }

  /** Along a run serials only grow, so no two products minted share one. */
  lemma {:induction false} SerialsGrow(run: seq<State>, choices: seq<Choice>, j: nat, k: nat)
    requires IsRun(run, choices) && j <= k < |run|
    ensures run[j].nextSerial <= run[k].nextSerial
    ensures j < k ==> choices[j].thread < |run[j].threads|
    ensures j < k && run[j].threads[choices[j].thread].pc.Compiling? ==> run[j].nextSerial < run[k].nextSerial
    decreases k
  {
    if j < k {
      hide Step, Initial;
      SerialsGrow(run, choices, j, k - 1);
      assert Step(run[k - 1], choices[k - 1].thread, choices[k - 1].raises, run[k - 1 + 1]);
      StepOfRun(run, choices, j);
      StepOfRun(run, choices, k - 1);
      MintsNextSerial(run[k - 1], choices[k - 1].thread, choices[k - 1].raises, run[k]);
    }
  }

  lemma StepOfRun(run: seq<State>, choices: seq<Choice>, k: nat)
    requires IsRun(run, choices) && k < |choices|
    ensures Step(run[k], choices[k].thread, choices[k].raises, run[k + 1]) && choices[k].thread < |run[k].threads|
  {
  }

  // One step of a thread alone.
  lemma AloneSteps(s: State, s': State)
    requires |s.threads| == 1 && Step(s, 0, false, s')
    ensures Addressed(s) && Addressed(s') && s'.address == s.address && KeyOf(s', 0) == KeyOf(s, 0)
    ensures s'.threads == [Thread(s.threads[0].request, NextPc(s, 0, false))]
    ensures s'.cache == NextCache(s, 0) && s'.locks == NextLocks(s, 0) && s'.guard == NextGuard(s, 0)
    ensures s'.holder == NextHolder(s, 0, false)
    ensures s'.nextLock == s.nextLock + (if MintsLock(s.threads[0].pc) then 1 else 0)
    ensures s'.nextSerial == s.nextSerial + (if s.threads[0].pc.Compiling? then 1 else 0)
  {
    StepAt(s, 0, false, s', 0);
    hide NextPc, NextCache, NextLocks, NextGuard, NextHolder;
    assert s'.threads == [s'.threads[0]];
  }

  /** A caller alone, on a memo without an answer or a lock for it. */
  ghost predicate Missing(s: State) {
    Initial(s) && |s.threads| == 1 && KeyOf(s, 0) !in s.cache && KeyOf(s, 0) !in s.locks
  }

  // Where a thread alone stands before its compile is done.
  ghost predicate At(from: State, s: State, pc: Pc, guard: Option<nat>, holder: map<nat, nat>, minted: bool)
    requires Missing(from)
  {
    && s.threads == [Thread(from.threads[0].request, pc)] && Addressed(s) && s.address == from.address
    && KeyOf(s, 0) == KeyOf(from, 0)
    && s.cache == from.cache && s.nextSerial == from.nextSerial && s.guard == guard && s.holder == holder
    && (!minted ==> s.locks == from.locks && s.nextLock == from.nextLock)
  }

  lemma AloneAsks(from: State, s: State, s': State)
    requires Missing(from) && At(from, s, Begin, None, map[], false) && Step(s, 0, false, s')
    ensures At(from, s', Missed, None, map[], false)
  {
    AloneSteps(s, s');
    hide Step, Addressed;
  }

  lemma AloneGuards(from: State, s: State, s': State)
    requires Missing(from) && At(from, s, Missed, None, map[], false) && Step(s, 0, false, s')
    ensures At(from, s', InGuard, Some(0), map[], false)
  {
    AloneSteps(s, s');
    hide Step, Addressed;
  }

  lemma AloneLooksUp(from: State, s: State, s': State)
    requires Missing(from) && At(from, s, InGuard, Some(0), map[], false) && Step(s, 0, false, s')
    ensures At(from, s', Looked(None), Some(0), map[], false)
  {
    AloneSteps(s, s');
    hide Step, Addressed;
  }

  lemma AloneMints(from: State, s: State, s': State)
    requires Missing(from) && At(from, s, Looked(None), Some(0), map[], false) && Step(s, 0, false, s')
    ensures At(from, s', Waiting(from.nextLock), None, map[], true)
  {
    AloneSteps(s, s');
    hide Step, Addressed;
  }

  lemma AloneTakes(from: State, s: State, s': State)
    requires Missing(from) && At(from, s, Waiting(from.nextLock), None, map[], true) && Step(s, 0, false, s')
    ensures At(from, s', Holding(from.nextLock), None, map[from.nextLock := 0], true)
  {
    AloneSteps(s, s');
    hide Step, Addressed;
  }

  lemma AloneRereads(from: State, s: State, s': State)
    requires Missing(from) && At(from, s, Holding(from.nextLock), None, map[from.nextLock := 0], true) && Step(s, 0, false, s')
    ensures At(from, s', Compiling(from.nextLock), None, map[from.nextLock := 0], true)
  {
    AloneSteps(s, s');
    hide Step, Addressed;
  }

  // The product made is stored, and the lock given back.
  lemma AloneCompiles(from: State, s6: State, s7: State, s8: State, s9: State)
    requires Missing(from) && At(from, s6, Compiling(from.nextLock), None, map[from.nextLock := 0], true)
    requires Step(s6, 0, false, s7) && Step(s7, 0, false, s8) && Step(s8, 0, false, s9)
    ensures |s7.threads| == |s8.threads| == |s9.threads| == 1 && !s7.threads[0].pc.Done? && !s8.threads[0].pc.Done?
    ensures var q := from.threads[0].request; s9.threads[0].pc == Done(Product(q.grammar, q.binding, from.nextSerial))
  {
    hide Step, Addressed, NextLocks, NextGuard, NextHolder, NextCache;
    AloneSteps(s6, s7);
    AloneSteps(s7, s8);
    AloneSteps(s8, s9);
  }

  /** A caller alone, on a memo without an answer or a lock for it, is served by its own compile after exactly nine steps. */
  lemma AloneTakesNine(run: seq<State>, choices: seq<Choice>)
    requires IsRun(run, choices) && |choices| == 9 && Missing(run[0])
    requires forall k :: 0 <= k < 9 ==> choices[k] == Choice(0, false)
    ensures forall k :: 0 <= k < 9 ==> |run[k].threads| == 1 && !run[k].threads[0].pc.Done?
    ensures |run[9].threads| == 1
    ensures var q := run[0].threads[0].request; run[9].threads[0].pc == Done(Product(q.grammar, q.binding, run[0].nextSerial))
  {
    var from := run[0];
    forall k | 0 <= k < 9 ensures Step(run[k], 0, false, run[k + 1]) {
      assert choices[k] == Choice(0, false);
    }
    assert from.threads == [from.threads[0]];
    assert At(from, from, Begin, None, map[], false);
    hide Step, Missing, IsRun, Initial, Addressed;
    AloneAsks(from, run[0], run[1]);
    AloneGuards(from, run[1], run[2]);
    AloneLooksUp(from, run[2], run[3]);
    AloneMints(from, run[3], run[4]);
    AloneTakes(from, run[4], run[5]);
    AloneRereads(from, run[5], run[6]);
    AloneCompiles(from, run[6], run[7], run[8], run[9]);
    forall k | 0 <= k < 9 ensures |run[k].threads| == 1 && !run[k].threads[0].pc.Done? {
      assert k == 0 || k == 1 || k == 2 || k == 3 || k == 4 || k == 5 || k == 6 || k == 7 || k == 8;
    }
  }

  /** While a caller is unserved some thread can step: the locks never deadlock. */
  lemma SomeoneCanStep(s: State, waiting: nat) returns (t: nat)
    requires Inv(s) && waiting < |s.threads| && !s.threads[waiting].pc.Done? && !s.threads[waiting].pc.Raised?
    ensures CanStep(s, t)
  {
    hide Served, Counted;
    t := waiting;
    if s.threads[t].pc.Missed? && s.guard.Some? {
      t := s.guard.value;
    }
    if s.threads[t].pc.Waiting? && s.threads[t].pc.lock in s.holder {
      t := s.holder[s.threads[t].pc.lock];
    }
  }

  /**
   A run has no more steps than nine for each thread; one that cannot be continued has
   served every caller, or raised to it.
   */
  lemma RunsEndServed(run: seq<State>, choices: seq<Choice>)
    requires IsRun(run, choices)
    ensures |choices| <= 9 * |run[0].threads|
    ensures (forall t :: !CanStep(run[|choices|], t)) ==>
              forall t :: 0 <= t < |run[|choices|].threads| ==>
                            run[|choices|].threads[t].pc.Done? || run[|choices|].threads[t].pc.Raised?
  {
    RunIsShort(run, choices, |choices|);
    AtMostNine(run[0].threads);
    RunInv(run, choices, |choices|);
    var last := run[|choices|];
    if forall t :: !CanStep(last, t) {
      forall t | 0 <= t < |last.threads|
        ensures last.threads[t].pc.Done? || last.threads[t].pc.Raised?
      {
        if !last.threads[t].pc.Done? && !last.threads[t].pc.Raised? {
          var u := SomeoneCanStep(last, t);
        }
      }
    }
  }

  lemma {:induction false} AtMostNine(threads: seq<Thread>)
    ensures AllAhead(threads) <= 9 * |threads|
  {
    if threads != [] {
      AtMostNine(threads[1..]);
    }
  }
}
