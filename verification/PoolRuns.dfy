/** What a thread does that is left alone with the caching pool: a release pushes the buffer and trims the far end of
the deque, a request takes the first entry that is still there.  And what the pool as a whole never does: lose a buffer
that the collector has not taken. */
module PoolRuns {
  import opened Base
  import opened SizeClasses
  import opened CachingPool

  /** The steps lead from `s` to `s'`. */
  ghost predicate Leads(s: State, steps: seq<Step>, s': State)
    ensures Leads(s, steps, s') ==> Inv(s')
  {
    Inv(s) && Possible(s, steps) && After(s, steps) == s'
  }

  lemma LeadsNowhere(s: State)
    requires Inv(s)
    ensures Leads(s, [], s)
  {}

  lemma LeadsFirst(s: State, step: Step, rest: seq<Step>, s': State)
    requires Inv(s) && Enabled(s, step) && Leads(Apply(s, step), rest, s')
    ensures Leads(s, [step] + rest, s')
  {
    hide Inv, Apply, Enabled, Possible, After;
    PossibleFirst(s, step, rest);
  }

  lemma LeadsOnce(s: State, step: Step)
    requires Inv(s) && Enabled(s, step)
    ensures Inv(Apply(s, step)) && Leads(s, [step], Apply(s, step))
  {
    hide TypedData, TypedThreads, OnePlace, Exclusive, Grows, Leads;
    InvStep(s, step);
    LeadsNowhere(Apply(s, step));
    LeadsFirst(s, step, [], Apply(s, step));
    assert [step] + [] == [step];
  }

  lemma {:induction false} LeadsOn(s: State, a: seq<Step>, s': State, b: seq<Step>, s'': State)
    requires Leads(s, a, s') && Leads(s', b, s'')
    ensures Leads(s, a + b, s'')
    decreases |a|
  {
    hide TypedData, TypedThreads, OnePlace, Exclusive, Grows;
    if a == [] {
      assert a + b == b;
    } else {
      InvStep(s, a[0]);
      LeadsOn(Apply(s, a[0]), a[1..], s', b, s'');
      LeadsFirst(s, a[0], a[1..] + b, s'');
      assert [a[0]] + (a[1..] + b) == a + b;
    }
  }

  // ---------------------------------------------------------------- the purge

  /** A deque without the cleared entries at its far end. */
  function Trimmed(q: seq<Ref>, cleared: set<Ref>): (r: seq<Ref>)
    ensures r <= q && (r == [] || r[|r| - 1] !in cleared)
    ensures forall i :: |r| <= i < |q| ==> q[i] in cleared
  {
    if q == [] || q[|q| - 1] !in cleared then q else Trimmed(q[..|q| - 1], cleared)
  }

  function PurgeSteps(t: Thread, q: seq<Ref>, cleared: set<Ref>): seq<Step> {
    if q == [] then [Move(t, 0)]
    else if q[|q| - 1] !in cleared then [Move(t, 0), Move(t, 0)]
    else [Move(t, 0), Move(t, 0), Move(t, 0)] + PurgeSteps(t, q[..|q| - 1], cleared)
  }

  lemma AtTwice(s: State, t: Thread, a: Pc, b: Pc)
    ensures At(At(s, t, a), t, b) == At(s, t, b)
  {
    assert s.pc[t := a][t := b] == s.pc[t := b];
  }

  lemma QueueTwice(s: State, d: Deque, q: seq<Ref>, q': seq<Ref>)
    ensures WithQueue(WithQueue(s, d, q), d, q') == WithQueue(s, d, q')
    ensures d in s.deques ==> WithQueue(s, d, s.deques[d]) == s
  {
    assert s.deques[d := q][d := q'] == s.deques[d := q'];
    assert d in s.deques ==> s.deques[d := s.deques[d]] == s.deques;
  }

  /** The purge, left alone, ends with an empty deque or with a last entry that is not cleared, and removes nothing but
      cleared entries at the far end. */
  lemma {:induction false} Purge(s: State, t: Thread, d: Deque)
    requires Inv(s) && t in s.pc && s.pc[t] == PeekLast(d) && d in s.deques
    ensures Leads(s, PurgeSteps(t, s.deques[d], s.cleared),
                  At(WithQueue(s, d, Trimmed(s.deques[d], s.cleared)), t, Idle))
    decreases |s.deques[d]|
  {
    hide TypedData, TypedThreads, OnePlace, Exclusive, Grows, Leads;
    var q, m := s.deques[d], Move(t, 0);
    QueueTwice(s, d, q, q);
    LeadsOnce(s, m);
    if q != [] {
      var r := q[|q| - 1];
      var s1 := Apply(s, m);
      LeadsOnce(s1, m);
      var s2 := Apply(s1, m);
      LeadsOn(s, [m], s1, [m], s2);
      assert [m] + [m] == [m, m];
      AtTwice(s, t, Test(d, r), if r in s.cleared then RemoveLast(d, r) else Idle);
      if r in s.cleared {
        LeadsOnce(s2, m);
        var s3 := Apply(s2, m);
        LeadsOn(s, [m, m], s2, [m], s3);
        assert [m, m] + [m] == [m, m, m];
        Purge(s3, t, d);
        LeadsOn(s, [m, m, m], s3, PurgeSteps(t, s3.deques[d], s.cleared),
          At(WithQueue(s3, d, Trimmed(s3.deques[d], s.cleared)), t, Idle));
        QueueTwice(s, d, s3.deques[d], Trimmed(q, s.cleared));
        AtTwice(s, t, s2.pc[t], PeekLast(d));
        AtTwice(WithQueue(s, d, Trimmed(q, s.cleared)), t, PeekLast(d), Idle);
      }
    }
  }

  // ---------------------------------------------------------------- a release

  function ReleaseSteps(t: Thread, b: Buffer, name: Ref, q: seq<Ref>, cleared: set<Ref>): seq<Step> {
    [Release(t, b), Move(t, 0), Move(t, name)] + PurgeSteps(t, [name] + q, cleared)
  }

  /** A release from start to end, left alone: the buffer's new reference goes to the front of the deque of its size,
      whose far end is trimmed; nothing else changes but that the thread no longer holds the buffer. */
  lemma Released(s: State, t: Thread, b: Buffer, name: Ref)
    requires Inv(s) && Enabled(s, Release(t, b)) && b in s.size && s.size[b] in s.table
    requires s.table[s.size[b]] in s.deques && name !in s.target
    ensures
      var d := s.table[s.size[b]];
      Leads(s, ReleaseSteps(t, b, name, s.deques[d], s.cleared),
            s.(held := s.held - {(t, b)}, target := s.target[name := b],
               deques := s.deques[d := Trimmed([name] + s.deques[d], s.cleared)]))
  {
    hide TypedData, TypedThreads, OnePlace, Exclusive, Grows, Leads, Trimmed;
    var d := s.table[s.size[b]];
    var q := [name] + s.deques[d];
    LeadsOnce(s, Release(t, b));
    var s1 := Apply(s, Release(t, b));
    LeadsOnce(s1, Move(t, 0));
    var s2 := Apply(s1, Move(t, 0));
    LeadsOnce(s2, Move(t, name));
    var s3 := Apply(s2, Move(t, name));
    LeadsOn(s, [Release(t, b)], s1, [Move(t, 0)], s2);
    assert [Release(t, b)] + [Move(t, 0)] == [Release(t, b), Move(t, 0)];
    LeadsOn(s, [Release(t, b), Move(t, 0)], s2, [Move(t, name)], s3);
    assert [Release(t, b), Move(t, 0)] + [Move(t, name)] == [Release(t, b), Move(t, 0), Move(t, name)];
    Purge(s3, t, d);
    var s4 := At(WithQueue(s3, d, Trimmed(q, s.cleared)), t, Idle);
    LeadsOn(s, [Release(t, b), Move(t, 0), Move(t, name)], s3, PurgeSteps(t, q, s.cleared), s4);
    assert s4.deques == s.deques[d := Trimmed(q, s.cleared)];
    assert s4.pc == s.pc;
  }

  /** A buffer of a size that the pool has no deque for is dropped. */
  lemma ReleasedForGood(s: State, t: Thread, b: Buffer)
    requires Inv(s) && Enabled(s, Release(t, b)) && b in s.size && s.size[b] !in s.table
    ensures Leads(s, [Release(t, b), Move(t, 0)], s.(held := s.held - {(t, b)}))
  {
    hide TypedData, TypedThreads, OnePlace, Exclusive, Grows, Leads;
    LeadsOnce(s, Release(t, b));
    var s1 := Apply(s, Release(t, b));
    LeadsOnce(s1, Move(t, 0));
    var s2 := Apply(s1, Move(t, 0));
    LeadsOn(s, [Release(t, b)], s1, [Move(t, 0)], s2);
    assert [Release(t, b)] + [Move(t, 0)] == [Release(t, b), Move(t, 0)];
    assert s2.pc == s.pc;
  }

  // ---------------------------------------------------------------- a request

  /** A deque from its first entry that is not cleared. */
  function Living(q: seq<Ref>, cleared: set<Ref>): (r: seq<Ref>)
    ensures |r| <= |q| && r == q[|q| - |r|..] && (r == [] || r[0] !in cleared)
    ensures forall i :: 0 <= i < |q| - |r| ==> q[i] in cleared
  {
    if q == [] || q[0] !in cleared then q else Living(q[1..], cleared)
  }

  function PollSteps(t: Thread, name: Buffer, q: seq<Ref>, cleared: set<Ref>): seq<Step> {
    if q == [] || q[0] !in cleared then [Move(t, name), Move(t, name)]
    else [Move(t, name), Move(t, name)] + PollSteps(t, name, q[1..], cleared)
  }

  /** What a request comes to: the first living entry of the deque, or a new buffer of the class. */
  function Served(s: State, t: Thread, key: nat, d: Deque, name: Buffer): State
    requires d in s.deques && forall r :: r in s.deques[d] ==> r in s.target
  {
    var r := Living(s.deques[d], s.cleared);
    if r == [] then At(WithBuffer(WithQueue(s, d, []), t, name, key), t, Idle)
    else At(WithQueue(s, d, r[1..]), t, Idle).(held := s.held + {(t, s.target[r[0]])})
  }

  lemma EntriesKnown(s: State, d: Deque)
    requires Inv(s) && d in s.deques
    ensures forall r :: r in s.deques[d] ==> r in s.target
  {}

  /** Polling, left alone. */
  lemma {:induction false} Poll(s: State, t: Thread, key: nat, d: Deque, name: Buffer)
    requires Inv(s) && t in s.pc && s.pc[t] == CachingPool.Poll(key, d) && d in s.deques && name !in s.size
    requires forall r :: r in s.deques[d] ==> r in s.target
    ensures Leads(s, PollSteps(t, name, s.deques[d], s.cleared), Served(s, t, key, d, name))
    decreases |s.deques[d]|
  {
    hide TypedData, TypedThreads, OnePlace, Exclusive, Grows, Leads;
    var q, m := s.deques[d], Move(t, name);
    LeadsOnce(s, m);
    var s1 := Apply(s, m);
    LeadsOnce(s1, m);
    var s2 := Apply(s1, m);
    LeadsOn(s, [m], s1, [m], s2);
    assert [m] + [m] == [m, m];
    QueueTwice(s, d, q, q);
    AtTwice(s, t, Create(key), Idle);
    if q != [] {
      AtTwice(WithQueue(s, d, q[1..]), t, Look(key, d, q[0]), s2.pc[t]);
      if q[0] in s.cleared {
        Poll(s2, t, key, d, name);
        LeadsOn(s, [m, m], s2, PollSteps(t, name, q[1..], s.cleared), Served(s2, t, key, d, name));
        QueueTwice(s, d, q[1..], []);
        var r := Living(q, s.cleared);
        if r == [] {
          AtTwice(WithBuffer(WithQueue(s, d, []), t, name, key), t, s2.pc[t], Idle);
        } else {
          QueueTwice(s, d, q[1..], r[1..]);
          AtTwice(WithQueue(s, d, r[1..]), t, s2.pc[t], Idle);
        }
      }
    }
  }

  function RequestSteps(t: Thread, request: nat, name: Buffer, q: seq<Ref>, cleared: set<Ref>): seq<Step> {
    [Allocate(t, request), Move(t, name)] + PollSteps(t, name, q, cleared)
  }

  /** A request from start to end, left alone, for a class that has a deque. */
  lemma Requested(s: State, t: Thread, request: nat, name: Buffer)
    requires Inv(s) && Enabled(s, Allocate(t, request)) && name !in s.size
    requires AdjustSize(request) in s.table && s.table[AdjustSize(request)] in s.deques
    requires forall r :: r in s.deques[s.table[AdjustSize(request)]] ==> r in s.target
    ensures
      var key := AdjustSize(request);
      var d := s.table[key];
      Leads(s, RequestSteps(t, request, name, s.deques[d], s.cleared), Served(s, t, key, d, name))
  {
    hide TypedData, TypedThreads, OnePlace, Exclusive, Grows, Leads, AdjustSize;
    var key := AdjustSize(request);
    var d := s.table[key];
    LeadsOnce(s, Allocate(t, request));
    var s1 := Apply(s, Allocate(t, request));
    LeadsOnce(s1, Move(t, name));
    var s2 := Apply(s1, Move(t, name));
    LeadsOn(s, [Allocate(t, request)], s1, [Move(t, name)], s2);
    assert [Allocate(t, request)] + [Move(t, name)] == [Allocate(t, request), Move(t, name)];
    Poll(s2, t, key, d, name);
    LeadsOn(s, [Allocate(t, request), Move(t, name)], s2, PollSteps(t, name, s.deques[d], s.cleared),
      Served(s2, t, key, d, name));
    assert s2.pc[t := Idle] == s.pc[t := Idle];
  }

  /** `optimisticGetEntry`, left alone, for a class that has no deque yet. */
  lemma Bound(s: State, t: Thread, key: nat, d: Deque)
    requires Inv(s) && t in s.pc && s.pc[t] == Get(key) && key !in s.table && d !in s.deques
    ensures Leads(s, [Move(t, d), Move(t, d), Move(t, d)], At(WithDeque(s, key, d), t, CachingPool.Poll(key, d)))
  {
    hide TypedData, TypedThreads, OnePlace, Exclusive, Grows, Leads;
    var m := Move(t, d);
    LeadsOnce(s, m);
    var s1 := Apply(s, m);
    LeadsOnce(s1, m);
    var s2 := Apply(s1, m);
    LeadsOnce(s2, m);
    var s3 := Apply(s2, m);
    LeadsOn(s, [m], s1, [m], s2);
    assert [m] + [m] == [m, m];
    LeadsOn(s, [m, m], s2, [m], s3);
    assert [m, m] + [m] == [m, m, m];
    assert s3 == At(WithDeque(s, key, d), t, CachingPool.Poll(key, d));
  }

  /** A request for a class that has no deque yet: the pool gets one, and the buffer is new. */
  lemma RequestedFirst(s: State, t: Thread, request: nat, name: Buffer, d: Deque)
    requires Inv(s) && Enabled(s, Allocate(t, request)) && name !in s.size && d !in s.deques
    requires AdjustSize(request) !in s.table
    ensures
      var key := AdjustSize(request);
      Leads(s, [Allocate(t, request)] + [Move(t, d), Move(t, d), Move(t, d)] + [Move(t, name), Move(t, name)],
            WithBuffer(WithDeque(s, key, d), t, name, key))
  {
    hide TypedData, TypedThreads, OnePlace, Exclusive, Grows, Leads, AdjustSize;
    var key, m, n := AdjustSize(request), Move(t, d), Move(t, name);
    LeadsOnce(s, Allocate(t, request));
    var s1 := Apply(s, Allocate(t, request));
    Bound(s1, t, key, d);
    var s2 := At(WithDeque(s1, key, d), t, CachingPool.Poll(key, d));
    assert s2.deques[d] == [] && s2.pc[t] == CachingPool.Poll(key, d);
    Poll(s2, t, key, d, name);
    var s3 := Served(s2, t, key, d, name);
    LeadsOn(s, [Allocate(t, request)], s1, [m, m, m], s2);
    LeadsOn(s, [Allocate(t, request)] + [m, m, m], s2, [n, n], s3);
    QueueTwice(WithDeque(s, key, d), d, [], []);
    assert s2.pc[t := Idle] == s.pc;
    assert s3 == WithBuffer(WithDeque(s, key, d), t, name, key);
  }

  /** Reuse: a thread that gives a buffer back and asks for one of its class gets the same one, and the pool creates
      nothing. */
  lemma SameBufferAgain(s: State, t: Thread, b: Buffer, request: nat, name: Ref, spare: Buffer)
    requires Inv(s) && Enabled(s, Release(t, b)) && 0 < request <= MAX_INT && b in s.size && spare !in s.size
    requires s.size[b] == AdjustSize(request) && s.size[b] in s.table && s.table[s.size[b]] in s.deques
    requires name !in s.target && name !in s.cleared
    ensures
      var q := s.deques[s.table[s.size[b]]];
      var steps := ReleaseSteps(t, b, name, q, s.cleared)
                   + RequestSteps(t, request, spare, Trimmed([name] + q, s.cleared), s.cleared);
      && Possible(s, steps)
      && After(s, steps).held == s.held && After(s, steps).size == s.size
  {
    hide TypedData, TypedThreads, OnePlace, Exclusive, Grows, AdjustSize, Possible, After, Trimmed, Living;
    var d := s.table[s.size[b]];
    var q := Trimmed([name] + s.deques[d], s.cleared);
    assert ([name] + s.deques[d])[0] == name;
    assert q != [] && q[0] == name;
    Released(s, t, b, name);
    var s1 := s.(held := s.held - {(t, b)}, target := s.target[name := b], deques := s.deques[d := q]);
    EntriesKnown(s1, d);
    Requested(s1, t, request, spare);
    LeadsOn(s, ReleaseSteps(t, b, name, s.deques[d], s.cleared), s1, RequestSteps(t, request, spare, q, s.cleared),
      Served(s1, t, s.size[b], d, spare));
    assert Living(q, s.cleared) == q;
  }

  // ---------------------------------------------------------------- nothing is lost

  /** The buffer is held, on its way into the pool, or in the pool. */
  ghost predicate Owned(s: State, b: Buffer) { exists o :: Owns(s, o, b) }

  /** The collector has cleared a reference to the buffer. */
  ghost predicate Collected(s: State, b: Buffer) { exists r :: r in s.cleared && r in s.target && s.target[r] == b }

  ghost predicate Placed(s: State, b: Buffer) { Owned(s, b) || Collected(s, b) }

  /** Whatever is about to be created is of a class that has a deque. */
  ghost predicate Classed(s: State) {
    && s.cleared <= s.target.Keys
    && (forall t :: t in s.pc && s.pc[t].Create? ==> s.pc[t].key in s.table)
  }

  /** A buffer whose class has a deque. */
  predicate HasDeque(s: State, b: Buffer) { b in s.size && s.size[b] in s.table }

  lemma ClassedStep(s: State, step: Step, b: Buffer)
    requires Inv(s) && Enabled(s, step) && Classed(s)
    ensures Classed(Apply(s, step))
    ensures HasDeque(s, b) ==> HasDeque(Apply(s, step), b)
  {
    hide OnePlace, Exclusive, TypedData, TypedThreads, AdjustSize, ApplyMove;
    if step.Move? {
      ClassedMove(s, step.t, step.name, b);
    }
  }

  lemma ClassedMove(s: State, t: Thread, name: nat, b: Buffer)
    requires Inv(s) && Enabled(s, Move(t, name)) && Classed(s)
    ensures Classed(ApplyMove(s, t, name))
    ensures HasDeque(s, b) ==> HasDeque(ApplyMove(s, t, name), b)
  {
    hide OnePlace, Exclusive, TypedData, TypedThreads;
    PcTyped(s, t);
  }

  lemma StillPooled(s: State, s': State, r: Ref, b: Buffer)
    requires Owns(s, Pooled(r), b) && r in s'.target && s'.target[r] == b && Active(s', r)
    ensures Placed(s', b)
  {
    if r !in s'.cleared {
      assert Owns(s', Pooled(r), b);
    } else {
      assert Collected(s', b);
    }
  }

  /** A reference stays where it is unless the thread polls it, takes it, or removes it because it is cleared. */
  lemma ActiveMove(s: State, t: Thread, name: nat, r: Ref)
    requires Inv(s) && Enabled(s, Move(t, name)) && Active(s, r) && r !in s.cleared
    ensures Active(ApplyMove(s, t, name), r) || (s.pc[t].Look? && s.pc[t].ref == r)
  {
    hide OnePlace, Exclusive, TypedData, TypedThreads;
    PcTyped(s, t);
    var s' := ApplyMove(s, t, name);
    if u :| Looking(s, u, r) {
      assert u != t ==> Looking(s', u, r);
    } else {
      var d :| d in s.deques && r in s.deques[d];
      if s.pc[t].Poll? && s.pc[t].deque == d && s.deques[d][0] == r {
        assert Looking(s', t, r);
      } else {
        if s.pc[t].RemoveLast? {
          NoDupIn(s, s.pc[t].deque);
          RemoveLastElements(s.deques[s.pc[t].deque], s.pc[t].ref);
        }
        assert d in s'.deques && r in s'.deques[d];
      }
    }
  }

  lemma PlacedMove(s: State, t: Thread, name: nat, o: Owner, b: Buffer)
    requires Inv(s) && Enabled(s, Move(t, name)) && Classed(s) && Owns(s, o, b) && HasDeque(s, b)
    ensures Placed(ApplyMove(s, t, name), b)
  {
    hide OnePlace, Exclusive, TypedData, TypedThreads, Active, Classed, Grows;
    PcTyped(s, t);
    InvStep(s, Move(t, name));
    var s' := ApplyMove(s, t, name);
    match o
    case Client(u) =>
      assert Owns(s', Client(u), b);
    case Returning(u) =>
      if u != t || s.pc[t].Lookup? {
        assert Owns(s', Returning(u), b);
      } else {
        NewIsPooled(s, t, name);
      }
    case Pooled(r) =>
      ActiveMove(s, t, name, r);
      if s.pc[t].Look? && s.pc[t].ref == r {
        assert Owns(s', Client(t), b);
      } else {
        TargetStays(s, s', r);
        StillPooled(s, s', r, b);
      }
  }

  lemma TargetStays(s: State, s': State, r: Ref)
    requires Grows(s, s') && r in s.target
    ensures r in s'.target && s'.target[r] == s.target[r]
  {}

  /** The buffer that is added is pooled afterwards. */
  lemma NewIsPooled(s: State, t: Thread, name: nat)
    requires Inv(s) && Enabled(s, Move(t, name)) && Classed(s) && s.pc[t].AddFirst?
    ensures Placed(ApplyMove(s, t, name), s.pc[t].buffer)
  {
    hide OnePlace, Exclusive, TypedData, TypedThreads;
    PcTyped(s, t);
    var s', d := ApplyMove(s, t, name), s.pc[t].deque;
    assert d in s'.deques && s'.deques[d][0] == name;
    assert Owns(s', Pooled(name), s.pc[t].buffer);
  }

  lemma PlacedStep(s: State, step: Step, b: Buffer)
    requires Inv(s) && Enabled(s, step) && Classed(s) && Placed(s, b) && HasDeque(s, b)
    ensures Placed(Apply(s, step), b)
  {
    hide OnePlace, Exclusive, TypedData, TypedThreads, Classed, Grows, AdjustSize;
    InvStep(s, step);
    var s' := Apply(s, step);
    if r :| r in s.cleared && r in s.target && s.target[r] == b {
      ClearedStays(s, s', r);
    } else {
      var o :| Owns(s, o, b);
      match step
      case Move(t, name) => PlacedMove(s, t, name, o, b);
      case Release(t, c) =>
        SameActive(s, s', o);
        assert Owns(s', if o == Client(t) && c == b then Returning(t) else o, b);
      case Pass(t, u, c) =>
        SameActive(s, s', o);
        assert Owns(s', if o == Client(t) && c == b then Client(u) else o, b);
      case Allocate(_, _) | Bring(_, _, _) =>
        SameActive(s, s', o);
        assert Owns(s', o, b);
      case Clear(r) =>
        SameActive(s, s', o);
        assert o != Pooled(r) ==> Owns(s', o, b);
    }
  }

  lemma ClearedStays(s: State, s': State, r: Ref)
    requires Grows(s, s') && r in s.cleared && r in s.target
    ensures r in s'.cleared && r in s'.target && s'.target[r] == s.target[r]
  {}

  lemma SameActive(s: State, s': State, o: Owner)
    requires s'.deques == s.deques && forall t, r :: Looking(s, t, r) ==> Looking(s', t, r)
    ensures o.Pooled? && Active(s, o.r) ==> Active(s', o.r)
  {}

  /** A buffer that the pool creates is held. */
  lemma NewIsPlaced(s: State, step: Step, b: Buffer)
    requires Inv(s) && Enabled(s, step) && Classed(s) && b !in s.size && b in Apply(s, step).size
    requires !(step.Bring? && step.b == b)
    ensures Placed(Apply(s, step), b) && HasDeque(Apply(s, step), b)
  {
    hide OnePlace, Exclusive, TypedData, TypedThreads, AdjustSize;
    assert step.Move? && s.pc[step.t].Create?;
    assert Owns(Apply(s, step), Client(step.t), b);
  }

  lemma {:induction false} PlacedRun(s: State, steps: seq<Step>, b: Buffer)
    requires Inv(s) && Possible(s, steps) && Classed(s)
    requires forall i :: 0 <= i < |steps| ==> !(steps[i].Bring? && steps[i].b == b)
    requires b in s.size ==> HasDeque(s, b) && Placed(s, b)
    ensures b in After(s, steps).size ==> Placed(After(s, steps), b)
    decreases |steps|
  {
    hide OnePlace, Exclusive, TypedData, TypedThreads, Classed, Placed, Grows, HasDeque;
    if steps != [] {
      var s' := Apply(s, steps[0]);
      InvStep(s, steps[0]);
      ClassedStep(s, steps[0], b);
      if b in s.size {
        PlacedStep(s, steps[0], b);
      } else if b in s'.size {
        NewIsPlaced(s, steps[0], b);
      }
      PlacedRun(s', steps[1..], b);
    }
  }

  /** Conservation: in every interleaving, every buffer that the pool ever created is held by a client, on its way back,
      in the pool, or taken by the collector. */
  lemma NothingIsLost(threads: set<Thread>, steps: seq<Step>, b: Buffer)
    requires (InitInv(threads); Possible(Init(threads), steps))
    requires forall i :: 0 <= i < |steps| ==> !(steps[i].Bring? && steps[i].b == b)
    requires (InitInv(threads); b in After(Init(threads), steps).size)
    ensures (InitInv(threads); Placed(After(Init(threads), steps), b))
  {
    hide OnePlace, Exclusive, TypedData, TypedThreads, Placed;
    InitInv(threads);
    PlacedRun(Init(threads), steps, b);
  }

  // ---------------------------------------------------------------- what is collected is gone

  /** A buffer that the pool knows is owned after a step only if it was before. */
  lemma OwnedBefore(s: State, step: Step, o: Owner, b: Buffer)
    requires Inv(s) && Enabled(s, step) && b in s.size && Owns(Apply(s, step), o, b)
    ensures Owned(s, b)
  {
    hide Inv, Owns, Owned, Apply, Enabled;
    match o
    case Client(t) => HeldBefore(s, step, t, b);
    case Returning(t) => ReturningBefore(s, step, t, b);
    case Pooled(r) => PooledBefore(s, step, r, b);
  }

  lemma HeldBefore(s: State, step: Step, t: Thread, b: Buffer)
    requires Inv(s) && Enabled(s, step) && b in s.size && Owns(Apply(s, step), Client(t), b)
    ensures Owned(s, b)
  {
    hide OnePlace, Exclusive, TypedData, TypedThreads, AdjustSize;
    if (t, b) in s.held {
      assert Owns(s, Client(t), b);
    } else if step.Pass? {
      assert Owns(s, Client(step.t), b);
    } else {
      assert step.Move? && s.pc[step.t].Look?;
      PcTyped(s, step.t);
      assert Looking(s, step.t, s.pc[step.t].ref);
      assert Owns(s, Pooled(s.pc[step.t].ref), b);
    }
  }

  lemma ReturningBefore(s: State, step: Step, t: Thread, b: Buffer)
    requires Inv(s) && Enabled(s, step) && Owns(Apply(s, step), Returning(t), b)
    ensures Owned(s, b)
  {
    hide OnePlace, Exclusive, TypedData, TypedThreads, AdjustSize;
    if step.Release? && step.t == t {
      assert Owns(s, Client(t), b);
    } else if step.Move? && step.t == t {
      MovedFromLookup(s, t, step.name);
      assert Owns(s, Returning(t), b);
    } else {
      assert t in s.pc && !(step.Allocate? && step.t == t);
      assert Owns(s, Returning(t), b);
    }
  }

  lemma MovedFromLookup(s: State, t: Thread, name: nat)
    requires Inv(s) && Enabled(s, Move(t, name))
    ensures
      var pc := ApplyMove(s, t, name).pc;
      t in pc && !pc[t].Lookup? && (pc[t].AddFirst? ==> s.pc[t] == Lookup(pc[t].buffer))
  {
    hide OnePlace, Exclusive, TypedData, TypedThreads;
    PcTyped(s, t);
  }

  lemma PooledBefore(s: State, step: Step, r: Ref, b: Buffer)
    requires Inv(s) && Enabled(s, step) && Owns(Apply(s, step), Pooled(r), b)
    ensures Owned(s, b)
  {
    hide OnePlace, Exclusive, TypedData, TypedThreads, AdjustSize, Active;
    if r in s.target {
      ActiveAgain(s, step, r);
      assert Owns(s, Pooled(r), b);
    } else {
      assert step.Move? && s.pc[step.t].AddFirst?;
      assert Owns(s, Returning(step.t), b);
    }
  }

  lemma ActiveAgain(s: State, step: Step, r: Ref)
    requires Inv(s) && Enabled(s, step) && r in s.target && Active(Apply(s, step), r)
    ensures Active(s, r)
  {
    hide OnePlace, Exclusive, TypedData, TypedThreads, AdjustSize;
    var s' := Apply(s, step);
    if step.Move? {
      PcTyped(s, step.t);
      if s.pc[step.t].RemoveLast? {
        RemoveLastSubset(s.deques[s.pc[step.t].deque], s.pc[step.t].ref);
      }
    }
    if t :| Looking(s', t, r) {
      if !Looking(s, t, r) {
        assert step.Move? && step.t == t && s.pc[t].Poll?;
        assert r in s.deques[s.pc[t].deque];
      }
    } else {
      var d :| d in s'.deques && r in s'.deques[d];
      assert d in s.deques && r in s.deques[d];
    }
  }

  ghost predicate Gone(s: State) { forall b :: Collected(s, b) ==> !Owned(s, b) }

  /** As long as the collector clears only references that are in the pool, which is what a soft reference promises, a
      buffer whose reference was cleared never comes back. */
  lemma GoneStep(s: State, step: Step)
    requires Inv(s) && Enabled(s, step) && Classed(s) && Gone(s) && (step.Clear? ==> Active(s, step.r))
    ensures Gone(Apply(s, step))
  {
    hide OnePlace, TypedData, TypedThreads, AdjustSize, Active, Exclusive, Apply, Classed;
    var s' := Apply(s, step);
    forall b | Collected(s', b) ensures !Owned(s', b) {
      CollectedBefore(s, step, b);
      if o :| Owns(s', o, b) {
        if Collected(s, b) {
          OwnedBefore(s, step, o, b);
        } else {
          ClearedBefore(s, step.r, o, b);
          OwnerInPool(s, step.r, o);
        }
      }
    }
  }

  lemma CollectedBefore(s: State, step: Step, b: Buffer)
    requires Inv(s) && Enabled(s, step) && Classed(s) && Collected(Apply(s, step), b)
    ensures Collected(s, b) || (step.Clear? && s.target[step.r] == b && step.r !in s.cleared)
    ensures Collected(s, b) ==> b in s.size
  {
    hide OnePlace, Exclusive, TypedData, TypedThreads, AdjustSize;
    var r :| r in Apply(s, step).cleared && r in Apply(s, step).target && Apply(s, step).target[r] == b;
    TargetsKnown(s);
    if step.Move? {
      PcTyped(s, step.t);
    }
  }

  lemma TargetsKnown(s: State)
    requires Inv(s)
    ensures forall r :: r in s.target ==> s.target[r] in s.size
  {}

  /** Who owns a buffer that has a living reference in the pool. */
  lemma OwnerInPool(s: State, r: Ref, o: Owner)
    requires Inv(s) && r in s.target && Active(s, r) && r !in s.cleared && Owns(s, o, s.target[r])
    ensures o == Pooled(r)
  {
    hide OnePlace, TypedData, TypedThreads;
    assert Owns(s, Pooled(r), s.target[r]);
  }

  lemma ClearedBefore(s: State, r: Ref, o: Owner, b: Buffer)
    requires Inv(s) && Enabled(s, Clear(r)) && Owns(Apply(s, Clear(r)), o, b)
    ensures Owns(s, o, b) && o != Pooled(r)
  {
    hide OnePlace, Exclusive, TypedData, TypedThreads;
    SameActive(Apply(s, Clear(r)), s, o);
  }

  /** Only references in the pool are cleared. */
  ghost predicate Faithful(s: State, steps: seq<Step>)
    requires Inv(s) && Possible(s, steps)
    decreases |steps|
  {
    steps == []
    || ((steps[0].Clear? ==> Active(s, steps[0].r)) && (InvStep(s, steps[0]); Faithful(Apply(s, steps[0]), steps[1..])))
  }

  lemma {:induction false} GoneRun(s: State, steps: seq<Step>)
    requires Inv(s) && Possible(s, steps) && Faithful(s, steps) && Classed(s) && Gone(s)
    ensures Gone(After(s, steps))
    decreases |steps|
  {
    hide OnePlace, Exclusive, TypedData, TypedThreads, Gone, Grows, Active, Classed;
    if steps != [] {
      InvStep(s, steps[0]);
      ClassedStep(s, steps[0], 0);
      GoneStep(s, steps[0]);
      GoneRun(Apply(s, steps[0]), steps[1..]);
    }
  }

  /** Each buffer that the pool created either has an owner, and then only one, or was taken by the collector. */
  lemma OwnedUntilCollected(threads: set<Thread>, steps: seq<Step>, b: Buffer)
    requires (InitInv(threads); Possible(Init(threads), steps) && Faithful(Init(threads), steps))
    requires forall i :: 0 <= i < |steps| ==> !(steps[i].Bring? && steps[i].b == b)
    requires (InitInv(threads); b in After(Init(threads), steps).size)
    ensures (
      InitInv(threads);
      var s := After(Init(threads), steps);
      && (Owned(s, b) <==> !Collected(s, b))
      && forall o, p :: Owns(s, o, b) && Owns(s, p, b) ==> o == p)
  {
    hide OnePlace, TypedData, TypedThreads, Owned, Collected, Possible, After, Faithful, Owns;
    InitInv(threads);
    NothingIsLost(threads, steps, b);
    NothingCollected(threads);
    GoneRun(Init(threads), steps);
  }

  lemma NothingCollected(threads: set<Thread>)
    ensures Gone(Init(threads)) && Classed(Init(threads))
  {}
}
