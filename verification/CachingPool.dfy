/** The caching buffer pool as an interleaved transition system.

Any number of threads allocate and release; every access to the shared map and to a deque is one atomic step, and
the collector may clear any soft reference at any moment.  Buffers, soft references, deques and threads are named
by numbers.  One instance of the system stands for either of the pool's two maps. */
module CachingPool {
  import opened Base
  import opened SizeClasses

  type Thread = nat
  type Buffer = nat
  type Ref = nat
  type Deque = nat

  /** Where a thread is: in `getOrCreate` and `optimisticGetEntry`, in `returnValue`, or outside the pool. */
  datatype Pc =
    | Idle
    | Get(key: nat) | PutIfAbsent(key: nat) | GetAgain(key: nat)
    | Poll(key: nat, deque: Deque) | Look(key: nat, deque: Deque, ref: Ref) | Create(key: nat)
    | Lookup(buffer: Buffer) | AddFirst(buffer: Buffer, deque: Deque)
    | PeekLast(deque: Deque) | Test(deque: Deque, ref: Ref) | RemoveLast(deque: Deque, ref: Ref)

  datatype State = State(
    table: map<nat, Deque>,
    deques: map<Deque, seq<Ref>>,
    target: map<Ref, Buffer>,
    cleared: set<Ref>,
    size: map<Buffer, nat>,
    held: set<(Thread, Buffer)>,
    pc: map<Thread, Pc>)

  /** One atomic step.  A thread's next step is determined by its position; new objects get unused names. */
  datatype Step =
    | Allocate(t: Thread, request: nat)
    | Release(t: Thread, b: Buffer)
    | Bring(t: Thread, b: Buffer, n: nat)
    | Pass(t: Thread, u: Thread, b: Buffer)
    | Move(t: Thread, name: nat)
    | Clear(r: Ref)

  function Init(threads: set<Thread>): State {
    State(map[], map[], map[], {}, map[], {}, map t | t in threads :: Idle)
  }

  /** What the clients and the collector may do: a client releases only what it holds (and so only once). */
  predicate Enabled(s: State, step: Step) {
    match step
    case Allocate(t, request) => t in s.pc && s.pc[t] == Idle && 0 < request <= MAX_INT
    case Release(t, b) => t in s.pc && s.pc[t] == Idle && (t, b) in s.held
    case Bring(t, b, _) => t in s.pc && s.pc[t] == Idle && b !in s.size
    case Pass(t, u, b) => (t, b) in s.held
    case Clear(r) => r in s.target
    case Move(t, name) =>
      && t in s.pc && s.pc[t] != Idle
      && (s.pc[t].PutIfAbsent? ==> name !in s.deques)
      && (s.pc[t].Create? ==> name !in s.size)
      && (s.pc[t].AddFirst? ==> name !in s.target)
  }

  /** `removeLastOccurrence`. */
  function RemoveLastOccurrence(q: seq<Ref>, r: Ref): seq<Ref> {
    if q == [] then []
    else if q[|q| - 1] == r then q[..|q| - 1]
    else RemoveLastOccurrence(q[..|q| - 1], r) + [q[|q| - 1]]
  }

  function At(s: State, t: Thread, pc: Pc): State { s.(pc := s.pc[t := pc]) }

  function Apply(s: State, step: Step): State
    requires Enabled(s, step) && Typed(s)
  {
    match step
    case Allocate(t, request) => At(s, t, Get(AdjustSize(request)))
    case Release(t, b) => At(s, t, Lookup(b)).(held := s.held - {(t, b)})
    case Bring(t, b, n) => s.(size := s.size[b := n], held := s.held + {(t, b)})
    case Pass(t, u, b) => s.(held := s.held - {(t, b)} + {(u, b)})
    case Clear(r) => s.(cleared := s.cleared + {r})
    case Move(t, name) => ApplyMove(s, t, name)
  }

  function ApplyMove(s: State, t: Thread, name: nat): State
    requires Enabled(s, Move(t, name)) && Typed(s)
  {
    match s.pc[t]
    case Get(key) =>
      At(s, t, if key in s.table then Poll(key, s.table[key]) else PutIfAbsent(key))
    case PutIfAbsent(key) =>
      var s1 := if key in s.table then s else s.(table := s.table[key := name], deques := s.deques[name := []]);
      At(s1, t, GetAgain(key))
    case GetAgain(key) =>
      At(s, t, Poll(key, s.table[key]))
    case Poll(key, d) =>
      var q := s.deques[d];
      if q == [] then At(s, t, Create(key))
      else At(s.(deques := s.deques[d := q[1..]]), t, Look(key, d, q[0]))
    case Look(key, d, r) =>
      if r in s.cleared then At(s, t, Poll(key, d))
      else At(s, t, Idle).(held := s.held + {(t, s.target[r])})
    case Create(key) =>
      At(s, t, Idle).(size := s.size[name := key], held := s.held + {(t, name)})
    case Lookup(b) =>
      At(s, t, if s.size[b] in s.table then AddFirst(b, s.table[s.size[b]]) else Idle)
    case AddFirst(b, d) =>
      At(s.(target := s.target[name := b], deques := s.deques[d := [name] + s.deques[d]]), t, PeekLast(d))
    case PeekLast(d) =>
      var q := s.deques[d];
      At(s, t, if q == [] then Idle else Test(d, q[|q| - 1]))
    case Test(d, r) =>
      At(s, t, if r in s.cleared then RemoveLast(d, r) else Idle)
    case RemoveLast(d, r) =>
      At(s.(deques := s.deques[d := RemoveLastOccurrence(s.deques[d], r)]), t, PeekLast(d))
    case Idle => s
  }

  // ---------------------------------------------------------------- invariants

  /** Every name in use denotes something, every thread works on the deque that the table gives for its key, and
      every entry under a key is for a buffer of exactly that size. */
  ghost predicate Typed(s: State) { TypedData(s) && TypedThreads(s) }

  ghost predicate TypedData(s: State) {
    && (forall k :: k in s.table ==> s.table[k] in s.deques)
    && (forall k, l :: k in s.table && l in s.table && s.table[k] == s.table[l] ==> k == l)
    && (forall d, r :: d in s.deques && r in s.deques[d] ==> r in s.target)
    && (forall r :: r in s.target ==> s.target[r] in s.size)
    && (forall k, r :: k in s.table && r in s.deques[s.table[k]] ==> s.size[s.target[r]] == k)
    && (forall t, b :: (t, b) in s.held ==> b in s.size)
  }

  ghost predicate TypedThreads(s: State) { forall t :: t in s.pc ==> TypedPc(s, s.pc[t]) }

  ghost predicate TypedPc(s: State, pc: Pc) {
    match pc
    case Idle | Get(_) | PutIfAbsent(_) | Create(_) => true
    case GetAgain(key) => key in s.table
    case Poll(key, d) => key in s.table && s.table[key] == d && d in s.deques
    case Look(key, d, r) =>
      && key in s.table && s.table[key] == d && d in s.deques
      && r in s.target && s.target[r] in s.size && s.size[s.target[r]] == key
    case Lookup(b) => b in s.size
    case AddFirst(b, d) => b in s.size && s.size[b] in s.table && s.table[s.size[b]] == d && d in s.deques
    case PeekLast(d) => d in s.deques
    case Test(d, r) => d in s.deques && r in s.target
    case RemoveLast(d, r) => d in s.deques && r in s.target && r in s.cleared
  }

  predicate NoDup(q: seq<Ref>) { forall i, j :: 0 <= i < j < |q| ==> q[i] != q[j] }

  predicate Looking(s: State, t: Thread, r: Ref) { t in s.pc && s.pc[t].Look? && s.pc[t].ref == r }

  /** A reference is in one place only: once in one deque, or in the hands of one thread that has polled it. */
  ghost predicate OnePlace(s: State) {
    && (forall d :: d in s.deques ==> NoDup(s.deques[d]))
    && (forall d, e, r :: d in s.deques && e in s.deques && r in s.deques[d] && r in s.deques[e] ==> d == e)
    && (forall t, d, r :: Looking(s, t, r) && d in s.deques ==> r !in s.deques[d])
    && (forall t, u, r :: Looking(s, t, r) && Looking(s, u, r) ==> t == u)
  }

  /** The ways to have a buffer: as a client, on the way into the pool, or as a live pooled reference. */
  datatype Owner = Client(t: Thread) | Returning(t: Thread) | Pooled(r: Ref)

  ghost predicate Active(s: State, r: Ref) {
    (exists d :: d in s.deques && r in s.deques[d]) || (exists t :: Looking(s, t, r))
  }

  ghost predicate Owns(s: State, o: Owner, b: Buffer) {
    match o
    case Client(t) => (t, b) in s.held
    case Returning(t) =>
      t in s.pc && ((s.pc[t].Lookup? && s.pc[t].buffer == b) || (s.pc[t].AddFirst? && s.pc[t].buffer == b))
    case Pooled(r) => r in s.target && s.target[r] == b && r !in s.cleared && Active(s, r)
  }

  ghost predicate Exclusive(s: State) {
    forall o, p, b :: Owns(s, o, b) && Owns(s, p, b) ==> o == p
  }

  ghost predicate Inv(s: State) { Typed(s) && OnePlace(s) && Exclusive(s) }

  // ---------------------------------------------------------------- preservation

  lemma {:induction false} RemoveLastElements(q: seq<Ref>, r: Ref)
    requires NoDup(q)
    ensures NoDup(RemoveLastOccurrence(q, r))
    ensures forall x :: x in RemoveLastOccurrence(q, r) <==> x in q && x != r
  {
    if q != [] {
      var init, last := q[..|q| - 1], q[|q| - 1];
      assert q == init + [last];
      RemoveLastElements(init, r);
      assert last !in init;
      var result := RemoveLastOccurrence(q, r);
      forall x ensures x in result <==> x in q && x != r {
        assert x in q <==> x in init || x == last;
      }
    }
  }

  /** Nothing that is known is ever forgotten or changed: in particular each key keeps its deque. */
  ghost predicate Grows(s: State, s': State) {
    && (forall k :: k in s.table ==> k in s'.table && s'.table[k] == s.table[k])
    && s.deques.Keys <= s'.deques.Keys
    && (forall r :: r in s.target ==> r in s'.target && s'.target[r] == s.target[r])
    && (forall b :: b in s.size ==> b in s'.size && s'.size[b] == s.size[b])
    && s.cleared <= s'.cleared
  }

  lemma ThreadsGrow(s: State, s': State)
    requires TypedThreads(s) && Grows(s, s') && s'.pc == s.pc
    ensures TypedThreads(s')
  {
    forall t | t in s'.pc ensures TypedPc(s', s'.pc[t]) {
      assert TypedPc(s, s.pc[t]);
    }
  }

  lemma TypedAt(s: State, t: Thread, pc: Pc)
    requires Typed(s) && TypedPc(s, pc)
    ensures Typed(At(s, t, pc))
  {
    var s' := At(s, t, pc);
    forall u | u in s'.pc ensures TypedPc(s', s'.pc[u]) {
      if u != t { assert TypedPc(s, s.pc[u]); }
    }
  }

  // The changes of state that a step makes, apart from moving its thread.

  function WithDeque(s: State, key: nat, d: Deque): State {
    s.(table := s.table[key := d], deques := s.deques[d := []])
  }

  function WithQueue(s: State, d: Deque, q: seq<Ref>): State { s.(deques := s.deques[d := q]) }

  function WithBuffer(s: State, t: Thread, b: Buffer, n: nat): State {
    s.(size := s.size[b := n], held := s.held + {(t, b)})
  }

  function WithRef(s: State, r: Ref, b: Buffer, d: Deque): State
    requires d in s.deques
  {
    s.(target := s.target[r := b], deques := s.deques[d := [r] + s.deques[d]])
  }

  lemma TypedWithDeque(s: State, key: nat, d: Deque)
    requires Typed(s) && key !in s.table && d !in s.deques
    ensures Typed(WithDeque(s, key, d))
  {
    ThreadsGrow(s, WithDeque(s, key, d));
  }

  lemma TypedWithQueue(s: State, d: Deque, q: seq<Ref>)
    requires Typed(s) && d in s.deques && forall r :: r in q ==> r in s.deques[d]
    ensures Typed(WithQueue(s, d, q))
  {
    ThreadsGrow(s, WithQueue(s, d, q));
  }

  lemma TypedWithBuffer(s: State, t: Thread, b: Buffer, n: nat)
    requires Typed(s) && b !in s.size
    ensures Typed(WithBuffer(s, t, b, n))
  {
    ThreadsGrow(s, WithBuffer(s, t, b, n));
  }

  lemma TypedWithRef(s: State, r: Ref, b: Buffer, d: Deque)
    requires Typed(s) && r !in s.target && d in s.deques
    requires b in s.size && s.size[b] in s.table && s.table[s.size[b]] == d
    ensures Typed(WithRef(s, r, b, d))
  {
    ThreadsGrow(s, WithRef(s, r, b, d));
  }

  /** Is the thread on its way through `getOrCreate`? */
  predicate Allocating(pc: Pc) { pc.Get? || pc.PutIfAbsent? || pc.GetAgain? || pc.Poll? || pc.Look? || pc.Create? }

  lemma TypedAllocating(s: State, t: Thread, name: nat)
    requires Enabled(s, Move(t, name)) && Typed(s) && Allocating(s.pc[t])
    ensures Typed(ApplyMove(s, t, name)) && Grows(s, ApplyMove(s, t, name))
  {
    hide TypedData, TypedThreads;
    PcTyped(s, t);
    match s.pc[t]
    case PutIfAbsent(key) =>
      var s1 := if key in s.table then s else WithDeque(s, key, name);
      if key !in s.table { TypedWithDeque(s, key, name); }
      TypedAt(s1, t, GetAgain(key));
    case Poll(key, d) =>
      var q := s.deques[d];
      if q == [] {
        TypedAt(s, t, Create(key));
      } else {
        assert q[0] in q;
        TypedWithQueue(s, d, q[1..]);
        TypedAt(WithQueue(s, d, q[1..]), t, Look(key, d, q[0]));
      }
    case Look(key, d, r) =>
      if r in s.cleared {
        TypedAt(s, t, Poll(key, d));
      } else {
        TypedAt(s, t, Idle);
        TypedHeld(At(s, t, Idle), t, s.target[r]);
      }
    case Create(key) =>
      TypedWithBuffer(s, t, name, key);
      TypedAt(WithBuffer(s, t, name, key), t, Idle);
    case Get(key) => TypedAt(s, t, if key in s.table then Poll(key, s.table[key]) else PutIfAbsent(key));
    case GetAgain(key) => TypedAt(s, t, Poll(key, s.table[key]));
  }

  lemma TypedReturning(s: State, t: Thread, name: nat)
    requires Enabled(s, Move(t, name)) && Typed(s) && !Allocating(s.pc[t])
    ensures Typed(ApplyMove(s, t, name)) && Grows(s, ApplyMove(s, t, name))
  {
    hide TypedData, TypedThreads;
    PcTyped(s, t);
    match s.pc[t]
    case AddFirst(b, d) =>
      TypedWithRef(s, name, b, d);
      TypedAt(WithRef(s, name, b, d), t, PeekLast(d));
    case RemoveLast(d, r) =>
      RemoveLastSubset(s.deques[d], r);
      TypedWithQueue(s, d, RemoveLastOccurrence(s.deques[d], r));
      TypedAt(WithQueue(s, d, RemoveLastOccurrence(s.deques[d], r)), t, PeekLast(d));
    case Lookup(b) => TypedAt(s, t, if s.size[b] in s.table then AddFirst(b, s.table[s.size[b]]) else Idle);
    case PeekLast(d) =>
      var q := s.deques[d];
      TypedAt(s, t, if q == [] then Idle else Test(d, q[|q| - 1]));
    case Test(d, r) => TypedAt(s, t, if r in s.cleared then RemoveLast(d, r) else Idle);
  }

  lemma TypedMove(s: State, t: Thread, name: nat)
    requires Enabled(s, Move(t, name)) && Typed(s)
    ensures Typed(ApplyMove(s, t, name)) && Grows(s, ApplyMove(s, t, name))
  {
    hide Typed, Grows;
    if Allocating(s.pc[t]) {
      TypedAllocating(s, t, name);
    } else {
      TypedReturning(s, t, name);
    }
  }

  lemma PcTyped(s: State, t: Thread)
    requires Typed(s) && t in s.pc
    ensures TypedPc(s, s.pc[t])
    ensures s.pc[t].Get? && s.pc[t].key in s.table ==> s.table[s.pc[t].key] in s.deques
    ensures s.pc[t].Lookup? && s.size[s.pc[t].buffer] in s.table ==> s.table[s.size[s.pc[t].buffer]] in s.deques
    ensures s.pc[t].GetAgain? ==> s.table[s.pc[t].key] in s.deques
    ensures s.pc[t].PeekLast? ==> forall r :: r in s.deques[s.pc[t].deque] ==> r in s.target
    ensures s.pc[t].Poll? ==>
              forall r :: r in s.deques[s.pc[t].deque] ==>
                r in s.target && s.target[r] in s.size && s.size[s.target[r]] == s.pc[t].key
  {}

  lemma TypedHeld(s: State, t: Thread, b: Buffer)
    requires Typed(s) && b in s.size
    ensures Typed(s.(held := s.held + {(t, b)}))
  {
    ThreadsGrow(s, s.(held := s.held + {(t, b)}));
  }

  lemma {:induction false} RemoveLastSubset(q: seq<Ref>, r: Ref)
    ensures forall x :: x in RemoveLastOccurrence(q, r) ==> x in q
  {
    if q != [] {
      RemoveLastSubset(q[..|q| - 1], r);
    }
  }

  lemma TypedStep(s: State, step: Step)
    requires Enabled(s, step) && Typed(s)
    ensures Typed(Apply(s, step)) && Grows(s, Apply(s, step))
  {
    match step
    case Allocate(t, request) => TypedAt(s, t, Get(AdjustSize(request)));
    case Release(t, b) =>
      TypedAt(s, t, Lookup(b));
      ThreadsGrow(At(s, t, Lookup(b)), Apply(s, step));
    case Bring(t, b, n) => TypedWithBuffer(s, t, b, n);
    case Pass(_, _, _) => ThreadsGrow(s, Apply(s, step));
    case Clear(r) => ThreadsGrow(s, Apply(s, step));
    case Move(t, name) => TypedMove(s, t, name);
  }

  // ---- a reference stays in one place

  lemma OnePlaceAt(s: State, t: Thread, pc: Pc)
    requires OnePlace(s) && !pc.Look?
    ensures OnePlace(At(s, t, pc))
  {
    var s' := At(s, t, pc);
    assert forall u, r :: Looking(s', u, r) ==> Looking(s, u, r);
  }

  /** Polling moves a reference from the front of a deque into the thread's hands. */
  lemma OnePlacePoll(s: State, t: Thread, key: nat, d: Deque)
    requires OnePlace(s) && d in s.deques && s.deques[d] != []
    requires t in s.pc && !s.pc[t].Look?
    ensures OnePlace(At(WithQueue(s, d, s.deques[d][1..]), t, Look(key, d, s.deques[d][0])))
  {
    var q := s.deques[d];
    var s' := At(WithQueue(s, d, q[1..]), t, Look(key, d, q[0]));
    assert q == [q[0]] + q[1..];
    assert forall u, r :: Looking(s', u, r) ==> (u == t && r == q[0]) || (u != t && Looking(s, u, r));
    assert forall e, r :: e in s'.deques && r in s'.deques[e] ==> r in s.deques[e];
    assert q[0] !in q[1..];
    assert q[0] in q;
  }

  lemma OnePlacePurge(s: State, d: Deque, r: Ref)
    requires OnePlace(s) && d in s.deques
    ensures OnePlace(WithQueue(s, d, RemoveLastOccurrence(s.deques[d], r)))
  {
    RemoveLastElements(s.deques[d], r);
    var s' := WithQueue(s, d, RemoveLastOccurrence(s.deques[d], r));
    assert forall e, x :: e in s'.deques && x in s'.deques[e] ==> x in s.deques[e];
    assert forall t, x :: Looking(s', t, x) == Looking(s, t, x);
  }

  lemma OnePlaceAdd(s: State, r: Ref, b: Buffer, d: Deque)
    requires OnePlace(s) && Typed(s) && d in s.deques && r !in s.target
    ensures OnePlace(WithRef(s, r, b, d))
  {
    var s' := WithRef(s, r, b, d);
    assert forall e, x :: e in s'.deques && x in s'.deques[e] ==> x in s.deques[e] || (x == r && e == d);
    assert forall u, x :: Looking(s', u, x) ==> Looking(s, u, x) && x in s.target by {
      forall u, x | Looking(s', u, x) ensures Looking(s, u, x) && x in s.target { PcTyped(s, u); }
    }
  }

  lemma OnePlaceDeque(s: State, key: nat, d: Deque)
    requires OnePlace(s) && d !in s.deques
    ensures OnePlace(WithDeque(s, key, d))
  {
    var s' := WithDeque(s, key, d);
    assert forall t, x :: Looking(s', t, x) == Looking(s, t, x);
    assert forall e, x :: e in s'.deques && x in s'.deques[e] ==> e in s.deques && x in s.deques[e];
  }

  lemma OnePlaceMove(s: State, t: Thread, name: nat)
    requires Enabled(s, Move(t, name)) && Typed(s) && OnePlace(s)
    ensures OnePlace(ApplyMove(s, t, name))
  {
    hide OnePlace, TypedData, TypedThreads;
    PcTyped(s, t);
    match s.pc[t]
    case PutIfAbsent(key) =>
      if key !in s.table { OnePlaceDeque(s, key, name); }
      OnePlaceAt(if key in s.table then s else WithDeque(s, key, name), t, GetAgain(key));
    case Poll(key, d) =>
      if s.deques[d] == [] { OnePlaceAt(s, t, Create(key)); } else { OnePlacePoll(s, t, key, d); }
    case Look(key, d, r) =>
      OnePlaceAt(s, t, if r in s.cleared then Poll(key, d) else Idle);
      if r !in s.cleared { OnePlaceData(At(s, t, Idle), s.size, s.held + {(t, s.target[r])}); }
    case Create(key) =>
      OnePlaceAt(s, t, Idle);
      OnePlaceData(At(s, t, Idle), s.size[name := key], s.held + {(t, name)});
    case AddFirst(b, d) =>
      OnePlaceAdd(s, name, b, d);
      OnePlaceAt(WithRef(s, name, b, d), t, PeekLast(d));
    case RemoveLast(d, r) =>
      OnePlacePurge(s, d, r);
      OnePlaceAt(WithQueue(s, d, RemoveLastOccurrence(s.deques[d], r)), t, PeekLast(d));
    case Get(key) => OnePlaceAt(s, t, if key in s.table then Poll(key, s.table[key]) else PutIfAbsent(key));
    case GetAgain(key) => OnePlaceAt(s, t, Poll(key, s.table[key]));
    case Lookup(b) => OnePlaceAt(s, t, if s.size[b] in s.table then AddFirst(b, s.table[s.size[b]]) else Idle);
    case PeekLast(d) =>
      var q := s.deques[d];
      OnePlaceAt(s, t, if q == [] then Idle else Test(d, q[|q| - 1]));
    case Test(d, r) => OnePlaceAt(s, t, if r in s.cleared then RemoveLast(d, r) else Idle);
  }

  /** Sizes and clients have nothing to do with places. */
  lemma OnePlaceData(s: State, size: map<Buffer, nat>, held: set<(Thread, Buffer)>)
    requires OnePlace(s)
    ensures OnePlace(s.(size := size, held := held))
  {
    var s' := s.(size := size, held := held);
    assert forall t, r :: Looking(s', t, r) == Looking(s, t, r);
  }

  lemma OnePlaceStep(s: State, step: Step)
    requires Enabled(s, step) && Typed(s) && OnePlace(s)
    ensures OnePlace(Apply(s, step))
  {
    hide OnePlace;
    match step
    case Allocate(t, request) => OnePlaceAt(s, t, Get(AdjustSize(request)));
    case Release(t, b) =>
      OnePlaceAt(s, t, Lookup(b));
      OnePlaceData(At(s, t, Lookup(b)), s.size, s.held - {(t, b)});
    case Bring(t, b, n) => OnePlaceData(s, s.size[b := n], s.held + {(t, b)});
    case Pass(t, u, b) => OnePlaceData(s, s.size, s.held - {(t, b)} + {(u, b)});
    case Clear(r) => OnePlaceClear(s, r);
    case Move(t, name) => OnePlaceMove(s, t, name);
  }

  lemma OnePlaceClear(s: State, r: Ref)
    requires OnePlace(s)
    ensures OnePlace(s.(cleared := s.cleared + {r}))
  {
    var s' := s.(cleared := s.cleared + {r});
    assert forall t, x :: Looking(s', t, x) == Looking(s, t, x);
  }

  // ---- a buffer has one owner

  lemma FewerOwners(s: State, s': State)
    requires Exclusive(s) && forall o, b :: Owns(s', o, b) ==> Owns(s, o, b)
    ensures Exclusive(s')
  {
    hide Owns;
  }

  /** Buffer `b0` passes to `o0`; nothing else is gained. */
  lemma Transfer(s: State, s': State, o0: Owner, b0: Buffer)
    requires Exclusive(s)
    requires forall o, b :: Owns(s', o, b) ==> if b == b0 then o == o0 else Owns(s, o, b)
    ensures Exclusive(s')
  {
    hide Owns;
  }

  /** Only the thread's own position changes, and it takes nothing in hand. */
  lemma ExclusiveAt(s: State, t: Thread, pc: Pc)
    requires Exclusive(s) && t in s.pc && !pc.Look? && !pc.Lookup?
    requires pc.AddFirst? ==> s.pc[t].Lookup? && s.pc[t].buffer == pc.buffer
    ensures Exclusive(At(s, t, pc))
  {
    var s' := At(s, t, pc);
    assert forall u, x :: Looking(s', u, x) ==> Looking(s, u, x);
    forall o, b | Owns(s', o, b) ensures Owns(s, o, b) {
      ActiveBefore(s, s', o);
    }
    FewerOwners(s, s');
  }

  lemma ActiveBefore(s: State, s': State, o: Owner)
    requires forall u, x :: Looking(s', u, x) ==> Looking(s, u, x)
    requires forall d, x :: d in s'.deques && x in s'.deques[d] ==> d in s.deques && x in s.deques[d]
    ensures o.Pooled? && Active(s', o.r) ==> Active(s, o.r)
  {
    if o.Pooled? && Active(s', o.r) {
      if t :| Looking(s', t, o.r) {
        assert Looking(s, t, o.r);
      } else {
        var d :| d in s'.deques && o.r in s'.deques[d];
        assert d in s.deques && o.r in s.deques[d];
      }
    }
  }

  lemma ExclusiveDeque(s: State, key: nat, d: Deque)
    requires Exclusive(s) && d !in s.deques
    ensures Exclusive(WithDeque(s, key, d))
  {
    var s' := WithDeque(s, key, d);
    assert forall u, x :: Looking(s', u, x) ==> Looking(s, u, x);
    forall o, b | Owns(s', o, b) ensures Owns(s, o, b) {
      ActiveBefore(s, s', o);
    }
    FewerOwners(s, s');
  }

  lemma ExclusivePurge(s: State, d: Deque, r: Ref)
    requires Exclusive(s) && d in s.deques
    ensures Exclusive(WithQueue(s, d, RemoveLastOccurrence(s.deques[d], r)))
  {
    var s' := WithQueue(s, d, RemoveLastOccurrence(s.deques[d], r));
    RemoveLastSubset(s.deques[d], r);
    assert forall u, x :: Looking(s', u, x) ==> Looking(s, u, x);
    forall o, b | Owns(s', o, b) ensures Owns(s, o, b) {
      ActiveBefore(s, s', o);
    }
    FewerOwners(s, s');
  }

  /** A polled reference is still the owner: it is in the thread's hands instead of the deque. */
  lemma ExclusivePoll(s: State, t: Thread, key: nat, d: Deque)
    requires Exclusive(s) && d in s.deques && s.deques[d] != [] && t in s.pc && s.pc[t].Poll?
    ensures Exclusive(At(WithQueue(s, d, s.deques[d][1..]), t, Look(key, d, s.deques[d][0])))
  {
    var q := s.deques[d];
    var s' := At(WithQueue(s, d, q[1..]), t, Look(key, d, q[0]));
    assert q[0] in q;
    forall o, b | Owns(s', o, b) ensures Owns(s, o, b) {
      if o.Pooled? {
        if u :| Looking(s', u, o.r) {
          assert u == t || Looking(s, u, o.r);
        } else {
          var e :| e in s'.deques && o.r in s'.deques[e];
          assert o.r in s.deques[e];
        }
      }
    }
    FewerOwners(s, s');
  }

  /** A live reference hands its buffer to the thread that polled it. */
  lemma ExclusiveTake(s: State, t: Thread)
    requires Exclusive(s) && OnePlace(s) && Typed(s) && t in s.pc && s.pc[t].Look? && s.pc[t].ref !in s.cleared
    ensures Exclusive(At(s, t, Idle).(held := s.held + {(t, s.target[s.pc[t].ref])}))
  {
    PcTyped(s, t);
    var r := s.pc[t].ref;
    var b0 := s.target[r];
    var s' := At(s, t, Idle).(held := s.held + {(t, b0)});
    assert Looking(s, t, r);
    assert Owns(s, Pooled(r), b0);
    assert forall u, x :: Looking(s', u, x) ==> Looking(s, u, x) && u != t;
    assert !Active(s', r);
    forall o, b | Owns(s', o, b) ensures if b == b0 then o == Client(t) else Owns(s, o, b) {
      ActiveBefore(s, s', o);
      if o != Client(t) || b != b0 {
        assert Owns(s, o, b);
      }
    }
    Transfer(s, s', Client(t), b0);
  }

  /** A new buffer has no other owner. */
  lemma ExclusiveNew(s: State, t: Thread, b0: Buffer, n: nat)
    requires Exclusive(s) && Typed(s) && b0 !in s.size && t in s.pc
    ensures Exclusive(WithBuffer(s, t, b0, n))
  {
    var s' := WithBuffer(s, t, b0, n);
    assert forall u, x :: Looking(s', u, x) ==> Looking(s, u, x);
    forall o, b | Owns(s', o, b) ensures if b == b0 then o == Client(t) else Owns(s, o, b) {
      ActiveBefore(s, s', o);
      if b == b0 && o != Client(t) {
        assert Owns(s, o, b0);
        OwnedIsKnown(s, o, b0);
      }
    }
    Transfer(s, s', Client(t), b0);
  }

  lemma OwnedIsKnown(s: State, o: Owner, b: Buffer)
    requires Typed(s) && Owns(s, o, b)
    ensures b in s.size
  {
    if o.Returning? { PcTyped(s, o.t); }
  }

  /** `addFirst`: from the thread's hands into the deque, as a new live reference. */
  lemma ExclusiveAdd(s: State, t: Thread, r: Ref)
    requires Exclusive(s) && Typed(s) && t in s.pc && s.pc[t].AddFirst? && r !in s.target && s.pc[t].deque in s.deques
    ensures Exclusive(At(WithRef(s, r, s.pc[t].buffer, s.pc[t].deque), t, PeekLast(s.pc[t].deque)))
  {
    var b0, d := s.pc[t].buffer, s.pc[t].deque;
    var s' := At(WithRef(s, r, b0, d), t, PeekLast(d));
    assert Owns(s, Returning(t), b0);
    assert forall u, x :: Looking(s', u, x) ==> Looking(s, u, x);
    forall o, b | Owns(s', o, b) ensures if b == b0 then o == Pooled(r) else Owns(s, o, b) {
      if o != Pooled(r) {
        if o.Pooled? {
          if u :| Looking(s', u, o.r) {
            assert Looking(s, u, o.r);
          } else {
            var e :| e in s'.deques && o.r in s'.deques[e];
            assert o.r in s.deques[e];
          }
        }
        assert Owns(s, o, b);
      }
    }
    Transfer(s, s', Pooled(r), b0);
  }

  /** A client that releases no longer holds the buffer: it is on its way back. */
  lemma ExclusiveRelease(s: State, t: Thread, b0: Buffer)
    requires Exclusive(s) && t in s.pc && (t, b0) in s.held
    ensures Exclusive(At(s, t, Lookup(b0)).(held := s.held - {(t, b0)}))
  {
    var s' := At(s, t, Lookup(b0)).(held := s.held - {(t, b0)});
    assert Owns(s, Client(t), b0);
    assert forall u, x :: Looking(s', u, x) ==> Looking(s, u, x);
    forall o, b | Owns(s', o, b) ensures if b == b0 then o == Returning(t) else Owns(s, o, b) {
      ActiveBefore(s, s', o);
      if b == b0 && o != Returning(t) {
        assert Owns(s, o, b0);
      }
    }
    Transfer(s, s', Returning(t), b0);
  }

  /** Clients may pass a buffer between threads. */
  lemma ExclusivePass(s: State, t: Thread, u: Thread, b0: Buffer)
    requires Exclusive(s) && (t, b0) in s.held
    ensures Exclusive(s.(held := s.held - {(t, b0)} + {(u, b0)}))
  {
    var s' := s.(held := s.held - {(t, b0)} + {(u, b0)});
    assert Owns(s, Client(t), b0);
    assert forall v, x :: Looking(s', v, x) ==> Looking(s, v, x);
    forall o, b | Owns(s', o, b) ensures if b == b0 then o == Client(u) else Owns(s, o, b) {
      ActiveBefore(s, s', o);
      if b == b0 && o != Client(u) {
        assert Owns(s, o, b0);
      }
    }
    Transfer(s, s', Client(u), b0);
  }

  lemma ExclusiveClear(s: State, r: Ref)
    requires Exclusive(s)
    ensures Exclusive(s.(cleared := s.cleared + {r}))
  {
    var s' := s.(cleared := s.cleared + {r});
    assert forall u, x :: Looking(s', u, x) ==> Looking(s, u, x);
    forall o, b | Owns(s', o, b) ensures Owns(s, o, b) {
      ActiveBefore(s, s', o);
    }
    FewerOwners(s, s');
  }

  lemma ExclusiveMove(s: State, t: Thread, name: nat)
    requires Enabled(s, Move(t, name)) && Inv(s)
    ensures Exclusive(ApplyMove(s, t, name))
  {
    hide OnePlace, TypedData, TypedThreads, Exclusive;
    PcTyped(s, t);
    match s.pc[t]
    case PutIfAbsent(key) =>
      if key !in s.table { ExclusiveDeque(s, key, name); }
      ExclusiveAt(if key in s.table then s else WithDeque(s, key, name), t, GetAgain(key));
    case Poll(key, d) =>
      if s.deques[d] == [] { ExclusiveAt(s, t, Create(key)); } else { ExclusivePoll(s, t, key, d); }
    case Look(key, d, r) =>
      if r in s.cleared { ExclusiveAt(s, t, Poll(key, d)); } else { ExclusiveTake(s, t); }
    case Create(key) =>
      ExclusiveNew(s, t, name, key);
      ExclusiveAt(WithBuffer(s, t, name, key), t, Idle);
    case AddFirst(b, d) =>
      ExclusiveAdd(s, t, name);
    case RemoveLast(d, r) =>
      ExclusivePurge(s, d, r);
      ExclusiveAt(WithQueue(s, d, RemoveLastOccurrence(s.deques[d], r)), t, PeekLast(d));
    case Get(key) => ExclusiveAt(s, t, if key in s.table then Poll(key, s.table[key]) else PutIfAbsent(key));
    case GetAgain(key) => ExclusiveAt(s, t, Poll(key, s.table[key]));
    case Lookup(b) => ExclusiveAt(s, t, if s.size[b] in s.table then AddFirst(b, s.table[s.size[b]]) else Idle);
    case PeekLast(d) =>
      var q := s.deques[d];
      ExclusiveAt(s, t, if q == [] then Idle else Test(d, q[|q| - 1]));
    case Test(d, r) => ExclusiveAt(s, t, if r in s.cleared then RemoveLast(d, r) else Idle);
  }

  lemma InvStep(s: State, step: Step)
    requires Enabled(s, step) && Inv(s)
    ensures Inv(Apply(s, step)) && Grows(s, Apply(s, step))
  {
    hide OnePlace, TypedData, TypedThreads, Exclusive, Grows;
    TypedStep(s, step);
    OnePlaceStep(s, step);
    match step
    case Allocate(t, request) => ExclusiveAt(s, t, Get(AdjustSize(request)));
    case Release(t, b) => ExclusiveRelease(s, t, b);
    case Bring(t, b, n) => ExclusiveNew(s, t, b, n);
    case Pass(t, u, b) => ExclusivePass(s, t, u, b);
    case Clear(r) => ExclusiveClear(s, r);
    case Move(t, name) => ExclusiveMove(s, t, name);
  }

  // ---------------------------------------------------------------- whole runs

  lemma InitInv(threads: set<Thread>)
    ensures Inv(Init(threads))
  {}

  /** The steps can be taken one after the other. */
  ghost predicate Possible(s: State, steps: seq<Step>)
    requires Inv(s)
    decreases |steps|
  {
    steps == []
    || (Enabled(s, steps[0]) && (InvStep(s, steps[0]); Possible(Apply(s, steps[0]), steps[1..])))
  }

  ghost function After(s: State, steps: seq<Step>): (s': State)
    requires Inv(s) && Possible(s, steps)
    ensures Inv(s')
    decreases |steps|
  {
    if steps == [] then s
    else
      InvStep(s, steps[0]);
      After(Apply(s, steps[0]), steps[1..])
  }

  /** One deque per key, forever; and no other binding ever changes. */
  lemma {:induction false} BindingsAreForever(s: State, steps: seq<Step>)
    requires Inv(s) && Possible(s, steps)
    ensures Grows(s, After(s, steps))
    decreases |steps|
  {
    hide Grows, TypedData, TypedThreads, OnePlace, Exclusive;
    GrowsIsTransitive(s, s, s);
    if steps != [] {
      InvStep(s, steps[0]);
      BindingsAreForever(Apply(s, steps[0]), steps[1..]);
      GrowsIsTransitive(s, Apply(s, steps[0]), After(s, steps));
    }
  }

  lemma GrowsIsTransitive(s: State, s': State, s'': State)
    ensures Grows(s, s)
    ensures Grows(s, s') && Grows(s', s'') ==> Grows(s, s'')
  {}

  /** A live reference in some deque. */
  ghost predicate Available(s: State, r: Ref) {
    r in s.target && r !in s.cleared && exists d :: d in s.deques && r in s.deques[d]
  }

  /** No buffer is held by two clients, or both held and available from a deque, or available twice; and every
      entry under a key is for a buffer of exactly that size. */
  ghost predicate Safe(s: State) {
    && (forall t, u, b :: (t, b) in s.held && (u, b) in s.held ==> t == u)
    && (forall t, r :: Available(s, r) ==> (t, s.target[r]) !in s.held)
    && (forall q, r :: Available(s, q) && Available(s, r) && q != r ==> s.target[q] != s.target[r])
    && (forall k :: k in s.table ==> s.table[k] in s.deques)
    && (forall k, r :: k in s.table && r in s.deques[s.table[k]] ==>
          r in s.target && s.target[r] in s.size && s.size[s.target[r]] == k)
  }

  /** Pool exclusivity: safety holds in every interleaving, with references cleared at any moment. */
  lemma PoolExclusivity(threads: set<Thread>, steps: seq<Step>)
    requires (InitInv(threads); Possible(Init(threads), steps))
    ensures (InitInv(threads); Safe(After(Init(threads), steps)))
  {
    InitInv(threads);
    var s := After(Init(threads), steps);
    forall t, u, b | (t, b) in s.held && (u, b) in s.held ensures t == u {
      assert Owns(s, Client(t), b) && Owns(s, Client(u), b);
    }
    forall t, r | Available(s, r) ensures (t, s.target[r]) !in s.held {
      assert Owns(s, Pooled(r), s.target[r]);
      assert (t, s.target[r]) in s.held ==> Owns(s, Client(t), s.target[r]);
    }
    forall q, r | Available(s, q) && Available(s, r) && q != r ensures s.target[q] != s.target[r] {
      assert Owns(s, Pooled(q), s.target[q]) && Owns(s, Pooled(r), s.target[r]);
    }
  }

  /** What `getOrCreate` hands out was held by nobody, and is exactly as large as the class that was asked for. */
  lemma HandOut(s: State, t: Thread, name: nat, u: Thread, b: Buffer)
    requires Inv(s) && Enabled(s, Move(t, name))
    requires (u, b) in ApplyMove(s, t, name).held && (u, b) !in s.held
    ensures u == t && (s.pc[t].Look? || s.pc[t].Create?)
    ensures b in ApplyMove(s, t, name).size && ApplyMove(s, t, name).size[b] == s.pc[t].key
    ensures forall v :: (v, b) !in s.held
  {
    hide OnePlace, TypedData, TypedThreads;
    PcTyped(s, t);
    var s' := ApplyMove(s, t, name);
    InvStep(s, Move(t, name));
    assert s'.held == s.held + {(u, b)};
    assert Owns(s', Client(u), b);
    forall v ensures (v, b) !in s.held {
      assert Owns(s', Client(v), b) ==> v == u;
    }
  }

  // ---- the size of what is handed out

  /** A thread that allocates does so for this class. */
  predicate WorksFor(s: State, t: Thread, key: nat) {
    t in s.pc && (Allocating(s.pc[t]) ==> s.pc[t].key == key)
  }

  lemma WorksForStep(s: State, step: Step, t: Thread, key: nat)
    requires Inv(s) && Enabled(s, step) && WorksFor(s, t, key) && !(step.Allocate? && step.t == t)
    ensures WorksFor(Apply(s, step), t, key)
  {
    hide Typed, OnePlace, Exclusive, AdjustSize;
    if step.Move? {
      WorksForMove(s, step.t, step.name, t, key);
    }
  }

  lemma WorksForMove(s: State, u: Thread, name: nat, t: Thread, key: nat)
    requires Inv(s) && Enabled(s, Move(u, name)) && WorksFor(s, t, key)
    ensures WorksFor(ApplyMove(s, u, name), t, key)
  {
    hide TypedData, TypedThreads, OnePlace, Exclusive;
    PcTyped(s, u);
  }

  lemma {:induction false} WorksForRun(s: State, steps: seq<Step>, t: Thread, key: nat)
    requires Inv(s) && Possible(s, steps) && WorksFor(s, t, key)
    requires forall i :: 0 <= i < |steps| ==> !(steps[i].Allocate? && steps[i].t == t)
    ensures WorksFor(After(s, steps), t, key)
    decreases |steps|
  {
    hide TypedData, TypedThreads, OnePlace, Exclusive, Grows, WorksFor;
    if steps != [] {
      InvStep(s, steps[0]);
      WorksForStep(s, steps[0], t, key);
      WorksForRun(Apply(s, steps[0]), steps[1..], t, key);
    }
  }

  /** The state right after thread `t` asked for `request` bytes. */
  ghost function Asked(s: State, t: Thread, request: nat): (s': State)
    requires Inv(s) && Enabled(s, Allocate(t, request))
    ensures Inv(s') && WorksFor(s', t, AdjustSize(request))
  {
    InvStep(s, Allocate(t, request));
    Apply(s, Allocate(t, request))
  }

  /** The next step of thread `t` hands it the buffer `b`. */
  ghost predicate Receives(s: State, t: Thread, name: nat, b: Buffer) {
    Inv(s) && Enabled(s, Move(t, name)) && (t, b) in ApplyMove(s, t, name).held && (t, b) !in s.held
  }

  /** The size of `b` after that step. */
  ghost function SizeReceived(s: State, t: Thread, name: nat, b: Buffer): Option<nat>
    requires Receives(s, t, name, b)
  {
    var sizes := ApplyMove(s, t, name).size;
    if b in sizes then Some(sizes[b]) else None
  }

  /** Whatever happens between a thread's request and the moment it is handed a buffer, that buffer is of the class of
      the request, hence at least as large, and was held by nobody. */
  lemma RequestIsServed(s: State, t: Thread, request: nat, steps: seq<Step>, s': State, name: nat, b: Buffer)
    requires Inv(s) && Enabled(s, Allocate(t, request))
    requires Possible(Asked(s, t, request), steps) && s' == After(Asked(s, t, request), steps)
    requires forall i :: 0 <= i < |steps| ==> !(steps[i].Allocate? && steps[i].t == t)
    requires Receives(s', t, name, b)
    ensures SizeReceived(s', t, name, b) == Some(AdjustSize(request)) && request <= AdjustSize(request)
    ensures forall v :: (v, b) !in s'.held
  {
    hide TypedData, TypedThreads, OnePlace, Exclusive, Grows, AdjustSize, Asked;
    WorksForRun(Asked(s, t, request), steps, t, AdjustSize(request));
    HandOut(s', t, name, t, b);
    AdjustSizeBounds(request);
  }

  lemma PossibleFirst(s: State, step: Step, rest: seq<Step>)
    requires Inv(s) && Enabled(s, step)
    requires Inv(Apply(s, step)) && Possible(Apply(s, step), rest)
    ensures Possible(s, [step] + rest) && After(s, [step] + rest) == After(Apply(s, step), rest)
  {
    hide TypedData, TypedThreads, OnePlace, Exclusive, Grows;
    assert ([step] + rest)[1..] == rest;
  }

  lemma PossibleTwice(s: State, step: Step, rest: seq<Step>)
    requires Inv(s) && Enabled(s, step)
    requires Inv(Apply(s, step)) && Enabled(Apply(s, step), step)
    requires
      var s2 := Apply(Apply(s, step), step);
      Inv(s2) && (rest == [] || Possible(s2, rest))
    ensures
      var s2 := Apply(Apply(s, step), step);
      && Possible(s2, rest) && Possible(s, [step, step] + rest)
      && After(s, [step, step] + rest) == After(s2, rest) && After(s2, []) == s2
  {
    hide TypedData, TypedThreads, OnePlace, Exclusive, Grows, Enabled, Apply;
    PossibleFirst(Apply(s, step), step, rest);
    PossibleFirst(s, step, [step] + rest);
    assert [step] + ([step] + rest) == [step, step] + rest;
  }

  /** Such runs exist: a thread alone with an empty pool gets a new buffer of the class it asked for. */
  lemma FirstRequest(request: nat)
    requires 0 < request <= MAX_INT
    ensures (
      InitInv({0});
      var s, steps := Asked(Init({0}), 0, request), [Move(0, 0), Move(0, 0), Move(0, 0), Move(0, 0)];
      Possible(s, steps) && Receives(After(s, steps), 0, 0, 0))
  {
    hide TypedData, TypedThreads, OnePlace, Exclusive, Grows, AdjustSize, Possible, After;
    InitInv({0});
    var s, m := Asked(Init({0}), 0, request), Move(0, 0);
    InvStep(s, m);
    var s1 := Apply(s, m);
    InvStep(s1, m);
    var s2 := Apply(s1, m);
    InvStep(s2, m);
    var s3 := Apply(s2, m);
    InvStep(s3, m);
    var s4 := Apply(s3, m);
    PossibleTwice(s2, m, []);
    PossibleTwice(s, m, [m, m] + []);
    assert [m, m] + ([m, m] + []) == [m, m, m, m];
  }

  lemma AddedIsPolled(s: State, t: Thread, u: Thread, name: nat, b: Buffer, d: Deque)
    requires Inv(s) && t in s.pc && u in s.pc && t != u
    requires s.pc[t] == AddFirst(b, d) && s.pc[u].Poll? && s.pc[u].deque == d
    requires name !in s.target && name !in s.cleared
    ensures var steps := [Move(t, name), Move(u, 0), Move(u, 0)];
            Possible(s, steps) && (u, b) in After(s, steps).held
  {
    hide TypedData, TypedThreads, OnePlace, Exclusive, Grows;
    PcTyped(s, t);
    var steps := [Move(t, name), Move(u, 0), Move(u, 0)];
    InvStep(s, steps[0]);
    var s1 := Apply(s, steps[0]);
    assert s1.deques[d][0] == name && s1.target[name] == b && s1.pc[u] == s.pc[u];
    PcTyped(s1, u);
    InvStep(s1, steps[1]);
    var s2 := Apply(s1, steps[1]);
    assert s2.pc[u] == Look(s.pc[u].key, d, name);
    InvStep(s2, steps[2]);
    assert steps[1..][0] == steps[1] && steps[1..][1..] == [steps[2]] && steps[1..][1..][1..] == [];
    assert Possible(s2, steps[1..][1..]);
    assert Possible(s1, steps[1..]);
    assert After(s, steps) == After(s1, steps[1..]) == After(s2, [steps[2]]) == Apply(s2, steps[2]);
  }

  /** Reuse: a thread that polls right after another has released a buffer is handed that buffer. */
  lemma LastInFirstOut(s: State, t: Thread, u: Thread, name: nat, b: Buffer)
    requires Inv(s) && Enabled(s, Release(t, b)) && b in s.size && s.size[b] in s.table && t != u
    requires u in s.pc && s.pc[u].Poll? && s.pc[u].deque == s.table[s.size[b]]
    requires name !in s.target && name !in s.cleared
    ensures var steps := [Release(t, b), Move(t, 0), Move(t, name), Move(u, 0), Move(u, 0)];
            Possible(s, steps) && (u, b) in After(s, steps).held
  {
    hide TypedData, TypedThreads, OnePlace, Exclusive, Grows, Possible, After;
    InvStep(s, Release(t, b));
    var s1 := Apply(s, Release(t, b));
    InvStep(s1, Move(t, 0));
    var s2 := Apply(s1, Move(t, 0));
    var rest := [Move(t, name), Move(u, 0), Move(u, 0)];
    AddedIsPolled(s2, t, u, name, b, s.table[s.size[b]]);
    PossibleFirst(s1, Move(t, 0), rest);
    PossibleFirst(s, Release(t, b), [Move(t, 0)] + rest);
    assert [Release(t, b)] + ([Move(t, 0)] + rest)
        == [Release(t, b), Move(t, 0), Move(t, name), Move(u, 0), Move(u, 0)];
  }

  /** Purge safety: apart from the poll of an allocating thread, a step removes only cleared references. */
  lemma PurgeSafety(s: State, step: Step, d: Deque, r: Ref)
    requires Inv(s) && Enabled(s, step)
    requires !(step.Move? && s.pc[step.t].Poll?)
    requires d in s.deques && r in s.deques[d] && r !in s.cleared
    ensures d in Apply(s, step).deques && r in Apply(s, step).deques[d]
  {
    hide OnePlace, TypedData, TypedThreads, Exclusive;
    if step.Move? {
      PcTyped(s, step.t);
      if s.pc[step.t].RemoveLast? {
        NoDupIn(s, s.pc[step.t].deque);
        RemoveLastElements(s.deques[s.pc[step.t].deque], s.pc[step.t].ref);
      }
    }
  }

  lemma NoDupIn(s: State, d: Deque)
    requires OnePlace(s) && d in s.deques
    ensures NoDup(s.deques[d])
  {}
}
