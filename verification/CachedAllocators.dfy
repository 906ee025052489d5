/** The cached per-size buffer allocators, and the block streams that use them.

The table of allocators and each allocator's queue are changed under locks, so every operation is one atomic step.
Allocators, buffers and streams are named by numbers; a soft reference that has been cleared is `None`. */
module CachedAllocators {
  import opened Base

  type Allocator = nat
  type Buffer = nat
  type StreamId = nat

  /** How far a block output stream has come: its constructor takes an allocator for each of the two sizes and then
      a buffer from each; its `close` gives the buffers back. */
  datatype Stream =
    | HasInput(inputSize: nat, outputSize: nat, input: Allocator)
    | HasBoth(inputSize: nat, outputSize: nat, input: Allocator, output: Allocator)
    | HalfOpen(inputSize: nat, outputSize: nat, input: Allocator, output: Allocator, inputBuffer: Buffer)
    | Open(inputSize: nat, outputSize: nat, input: Allocator, output: Allocator, inputBuffer: Buffer,
      outputBuffer: Buffer)
    | Closing(output: Allocator, outputBuffer: Buffer)
    | Closed
  {
    function Buffers(): set<Buffer> {
      match this
      case HasInput(_, _, _) | HasBoth(_, _, _, _) | Closed => {}
      case HalfOpen(_, _, _, _, i) => {i}
      case Open(_, _, _, _, i, o) => {i, o}
      case Closing(_, o) => {o}
    }
  }

  type Sizes = map<Allocator, nat>
  type Loans = map<Buffer, Allocator>
  type Streams = map<StreamId, Stream>

  /** A stream's allocators are for its sizes, and the buffers it has come from them. */
  ghost predicate StreamOk(s: Stream, sizes: Sizes, lent: Loans) {
    && s.Buffers() <= lent.Keys
    && (!s.Closing? && !s.Closed? ==> s.input in sizes && sizes[s.input] == s.inputSize)
    && (!s.HasInput? && !s.Closing? && !s.Closed? ==> s.output in sizes && sizes[s.output] == s.outputSize)
    && (s.HalfOpen? || s.Open? ==> lent[s.inputBuffer] == s.input)
    && (s.Open? || s.Closing? ==> lent[s.outputBuffer] == s.output)
    && (s.Open? ==> s.inputBuffer != s.outputBuffer)
  }

  /** No two streams share a buffer. */
  ghost predicate StreamsOk(streams: Streams, sizes: Sizes, lent: Loans) {
    && (forall id :: id in streams ==> StreamOk(streams[id], sizes, lent))
    && (forall id, jd :: id in streams && jd in streams && id != jd ==> streams[id].Buffers() !! streams[jd].Buffers())
  }

  lemma Grown(streams: Streams, sizes: Sizes, sizes': Sizes, lent: Loans)
    requires StreamsOk(streams, sizes, lent) && forall a :: a in sizes ==> a in sizes' && sizes'[a] == sizes[a]
    ensures StreamsOk(streams, sizes', lent)
  {}

  lemma Replaced(streams: Streams, sizes: Sizes, lent: Loans, id: StreamId, s: Stream)
    requires StreamsOk(streams, sizes, lent) && StreamOk(s, sizes, lent)
    requires s.Buffers() <= if id in streams then streams[id].Buffers() else {}
    ensures StreamsOk(streams[id := s], sizes, lent)
  {}

  /** A loan to one stream disturbs no other: the buffer was lent to nobody. */
  lemma Lent(streams: Streams, sizes: Sizes, lent: Loans, id: StreamId, s: Stream, a: Allocator, b: Buffer)
    requires StreamsOk(streams, sizes, lent) && id in streams && b !in lent
    requires s.Buffers() == streams[id].Buffers() + {b} && StreamOk(s, sizes, lent[b := a])
    ensures StreamsOk(streams[id := s], sizes, lent[b := a])
  {
    forall jd | jd in streams && jd != id
      ensures StreamOk(streams[jd], sizes, lent[b := a]) && b !in streams[jd].Buffers()
    {
      assert StreamOk(streams[jd], sizes, lent);
    }
  }

  lemma NotItsLoan(s: Stream, sizes: Sizes, lent: Loans, b: Buffer)
    requires StreamOk(s, sizes, lent) && b !in s.Buffers()
    ensures StreamOk(s, sizes, lent - {b})
  {}

  /** A return takes away only what that stream had. */
  lemma Returned(streams: Streams, sizes: Sizes, lent: Loans, id: StreamId, s: Stream, b: Buffer)
    requires StreamsOk(streams, sizes, lent) && id in streams && b in streams[id].Buffers()
    requires s.Buffers() == streams[id].Buffers() - {b} && StreamOk(s, sizes, lent - {b})
    ensures StreamsOk(streams[id := s], sizes, lent - {b})
  {
    hide StreamOk;
    forall jd | jd in streams && jd != id
      ensures StreamOk(streams[jd], sizes, lent - {b})
    {
      NotItsLoan(streams[jd], sizes, lent, b);
    }
  }

  /** The order of a stream's steps; each keeps the sizes, allocators and buffers it already has. */
  predicate Moved(s: Stream, s': Stream) {
    match s
    case HasInput(n, m, i) => s'.HasBoth? && s' == HasBoth(n, m, i, s'.output)
    case HasBoth(n, m, i, o) => s'.HalfOpen? && s' == HalfOpen(n, m, i, o, s'.inputBuffer)
    case HalfOpen(n, m, i, o, ib) => s'.Open? && s' == Open(n, m, i, o, ib, s'.outputBuffer)
    case Closing(_, _) => s' == Closed
    case Open(_, _, _, _, _, _) | Closed => s' == s
  }

  /** One atomic step of some stream, or of the collector. */
  datatype Event =
    | Start(id: StreamId, inputSize: nat, outputSize: nat) | Move(id: StreamId) | Close(id: StreamId) | Lose(size: nat)

  class AllocatorCache {
    var queueTable: map<nat, Option<Allocator>>
    var bufferSize: map<Allocator, nat>
    var bufferQueue: map<Allocator, seq<Buffer>>
    var length: map<Buffer, nat>
    var streams: map<StreamId, Stream>
    var nextAllocator: nat
    var nextBuffer: nat

    /** The buffers handed out and not given back, with the allocator they came from. */
    ghost var lent: map<Buffer, Allocator>

    /** Every allocator holds and lends buffers of its own size only; a buffer is in one queue, once, or lent. */
    ghost predicate Valid()
      reads `queueTable, `bufferSize, `bufferQueue, `length, `nextAllocator, `nextBuffer, `lent
    {
      && bufferQueue.Keys == bufferSize.Keys
      && (forall a :: a in bufferSize ==> a < nextAllocator)
      && (forall b :: b in length ==> b < nextBuffer)
      && (forall n :: n in queueTable && queueTable[n].Some? ==>
            queueTable[n].value in bufferSize && bufferSize[queueTable[n].value] == n)
      && (forall a, i :: a in bufferQueue && 0 <= i < |bufferQueue[a]| ==>
            bufferQueue[a][i] in length && length[bufferQueue[a][i]] == bufferSize[a] && bufferQueue[a][i] !in lent)
      && (forall a, c, i, j :: (a in bufferQueue && c in bufferQueue && 0 <= i < |bufferQueue[a]|
                                && 0 <= j < |bufferQueue[c]|
                                && bufferQueue[a][i] == bufferQueue[c][j]) ==> a == c && i == j)
      && (forall b :: b in lent ==> b in length && lent[b] in bufferSize && length[b] == bufferSize[lent[b]])
    }

    constructor ()
      ensures Valid() && StreamsValid() && streams == map[] && queueTable == map[]
    {
      queueTable, bufferSize, bufferQueue, length, streams := map[], map[], map[], map[], map[];
      nextAllocator, nextBuffer, lent := 0, 0, map[];
    }

    /** The allocator for `size` is the one in the table, if its reference is still alive, or a new one that is then in
        the table. */
    twostate predicate Obtained(size: nat, a: Allocator)
      reads `queueTable, `bufferSize, `bufferQueue
    {
      if size in old(queueTable) && old(queueTable)[size].Some?
      then
        && old(queueTable)[size] == Some(a)
        && queueTable == old(queueTable) && bufferSize == old(bufferSize) && bufferQueue == old(bufferQueue)
      else
        && a !in old(bufferSize) && queueTable == old(queueTable)[size := Some(a)]
        && bufferSize == old(bufferSize)[a := size] && bufferQueue == old(bufferQueue)[a := []]
    }

    /** The buffer `b` is the first of the allocator's queue, or a new one if the queue was empty. */
    twostate predicate Taken(a: Allocator, size: nat, b: Buffer)
      reads `queueTable, `bufferQueue, `length
    {
      && queueTable == old(queueTable) && a in old(bufferQueue)
      && if old(bufferQueue)[a] == []
         then b !in old(length) && length == old(length)[b := size] && bufferQueue == old(bufferQueue)
         else
           && b == old(bufferQueue)[a][0] && length == old(length)
           && bufferQueue == old(bufferQueue)[a := old(bufferQueue)[a][1..]]
    }

    /** The buffer `b` is the last of the allocator's queue now. */
    twostate predicate PutBack(a: Allocator, b: Buffer)
      reads `queueTable, `bufferQueue, `length
    {
      && queueTable == old(queueTable) && length == old(length) && a in old(bufferQueue)
      && bufferQueue == old(bufferQueue)[a := old(bufferQueue)[a] + [b]]
    }

    /** `getAllocator`: the cached one if its soft reference is still alive, a new one otherwise. */
    method GetAllocator(size: nat) returns (a: Allocator)
      requires Valid()
      modifies this`queueTable, this`bufferSize, this`bufferQueue, this`nextAllocator
      ensures Valid() && a in bufferSize && bufferSize[a] == size
      ensures forall c :: c in old(bufferSize) ==> c in bufferSize && bufferSize[c] == old(bufferSize)[c]
      ensures Obtained(size, a)
    {
      var result := None;
      if size in queueTable {
        result := queueTable[size];
      }
      if result == None {
        a := nextAllocator;
        nextAllocator := a + 1;
        bufferSize := bufferSize[a := size];
        bufferQueue := bufferQueue[a := []];
        queueTable := queueTable[size := Some(a)];
      } else {
        a := result.value;
      }
    }

    /** `allocate`, asked for the allocator's own size: a queued buffer if there is one, a new one otherwise. */
    method Allocate(a: Allocator, size: nat) returns (b: Buffer)
      requires Valid() && a in bufferSize && size == bufferSize[a]
      modifies this`bufferQueue, this`length, this`nextBuffer, this`lent
      ensures Valid() && b !in old(lent) && lent == old(lent)[b := a]
      ensures b in length && length[b] == size
      ensures Taken(a, size, b)
    {
      if bufferQueue[a] == [] {
        b := nextBuffer;
        nextBuffer := b + 1;
        length := length[b := size];
      } else {
        b := bufferQueue[a][0];
        bufferQueue := bufferQueue[a := bufferQueue[a][1..]];
      }
      lent := lent[b := a];
    }

    /** `release`, by the holder, to the allocator the buffer came from. */
    method Release(a: Allocator, b: Buffer)
      requires Valid() && b in lent && lent[b] == a
      modifies this`bufferQueue, this`lent
      ensures Valid() && lent == old(lent) - {b} && PutBack(a, b)
    {
      bufferQueue := bufferQueue[a := bufferQueue[a] + [b]];
      lent := lent - {b};
    }

    // -------------------------------------------------------------- the streams

    ghost predicate StreamsValid()
      reads this
    {
      Valid() && StreamsOk(streams, bufferSize, lent)
    }

    /** The constructor's first step. */
    method StartStream(id: StreamId, inputSize: nat, outputSize: nat)
      requires StreamsValid() && id !in streams
      modifies this
      ensures StreamsValid() && id in streams && streams - {id} == old(streams) && lent == old(lent)
      ensures streams[id].HasInput? && streams[id].inputSize == inputSize && streams[id].outputSize == outputSize
      ensures Obtained(inputSize, streams[id].input)
    {
      hide StreamsOk;
      ghost var sizes := bufferSize;
      var i := GetAllocator(inputSize);
      Grown(streams, sizes, bufferSize, lent);
      Replaced(streams, bufferSize, lent, id, HasInput(inputSize, outputSize, i));
      streams := streams[id := HasInput(inputSize, outputSize, i)];
    }

    /** The next step of a constructor or of a `close`; steps of different streams interleave in any order. */
    method MoveStream(id: StreamId)
      requires StreamsValid() && id in streams
      modifies this
      ensures StreamsValid() && id in streams && streams - {id} == old(streams) - {id}
      ensures Moved(old(streams)[id], streams[id])
                && (old(streams)[id].Closing? ==> lent == old(lent) - {old(streams)[id].outputBuffer})
      ensures match old(streams)[id]
              case HasInput(_, m, _) => Obtained(m, streams[id].output)
              case HasBoth(n, _, i, _) => Taken(i, n, streams[id].inputBuffer)
              case HalfOpen(_, m, _, o, _) => Taken(o, m, streams[id].outputBuffer)
              case Closing(o, b) => PutBack(o, b)
              case Open(_, _, _, _, _, _) | Closed => queueTable == old(queueTable) && bufferQueue == old(bufferQueue)
    {
      hide StreamsOk, Valid;
      match streams[id]
      case HasInput(_, _, _) => TakeAllocator(id);
      case HasBoth(_, _, _, _) => TakeInput(id);
      case HalfOpen(_, _, _, _, _) => TakeOutput(id);
      case Closing(_, _) => FinishClose(id);
      case Open(_, _, _, _, _, _) =>
      case Closed =>
    }

    method TakeAllocator(id: StreamId)
      requires StreamsValid() && id in streams && streams[id].HasInput?
      modifies this
      ensures StreamsValid() && id in streams && streams - {id} == old(streams) - {id} && lent == old(lent)
      ensures Moved(old(streams)[id], streams[id])
      ensures Obtained(old(streams)[id].outputSize, streams[id].output)
    {
      hide StreamsOk, Valid;
      OneOk(streams, bufferSize, lent, id);
      ghost var sizes := bufferSize;
      var s := streams[id];
      var o := GetAllocator(s.outputSize);
      var s' := HasBoth(s.inputSize, s.outputSize, s.input, o);
      Grown(streams, sizes, bufferSize, lent);
      Replaced(streams, bufferSize, lent, id, s');
      streams := streams[id := s'];
    }

    method TakeInput(id: StreamId)
      requires StreamsValid() && id in streams && streams[id].HasBoth?
      modifies this
      ensures StreamsValid() && id in streams && streams - {id} == old(streams) - {id}
      ensures Moved(old(streams)[id], streams[id])
      ensures Taken(old(streams)[id].input, old(streams)[id].inputSize, streams[id].inputBuffer)
    {
      hide StreamsOk, Valid;
      OneOk(streams, bufferSize, lent, id);
      ghost var loans := lent;
      var s := streams[id];
      var b := Allocate(s.input, s.inputSize);
      var s' := HalfOpen(s.inputSize, s.outputSize, s.input, s.output, b);
      Lent(streams, bufferSize, loans, id, s', s.input, b);
      streams := streams[id := s'];
    }

    method TakeOutput(id: StreamId)
      requires StreamsValid() && id in streams && streams[id].HalfOpen?
      modifies this
      ensures StreamsValid() && id in streams && streams - {id} == old(streams) - {id}
      ensures Moved(old(streams)[id], streams[id])
      ensures Taken(old(streams)[id].output, old(streams)[id].outputSize, streams[id].outputBuffer)
    {
      hide StreamsOk, Valid;
      OneOk(streams, bufferSize, lent, id);
      ghost var loans := lent;
      var s := streams[id];
      var b := Allocate(s.output, s.outputSize);
      var s' := Open(s.inputSize, s.outputSize, s.input, s.output, s.inputBuffer, b);
      Lent(streams, bufferSize, loans, id, s', s.output, b);
      streams := streams[id := s'];
    }

    method FinishClose(id: StreamId)
      requires StreamsValid() && id in streams && streams[id].Closing?
      modifies this
      ensures StreamsValid() && id in streams && streams - {id} == old(streams) - {id}
      ensures streams[id] == Closed && lent == old(lent) - {old(streams)[id].outputBuffer}
      ensures PutBack(old(streams)[id].output, old(streams)[id].outputBuffer)
    {
      hide StreamsOk, Valid;
      OneOk(streams, bufferSize, lent, id);
      ghost var loans := lent;
      var s := streams[id];
      Release(s.output, s.outputBuffer);
      Returned(streams, bufferSize, loans, id, Closed, s.outputBuffer);
      streams := streams[id := Closed];
    }

    /** `close`: gives the input buffer back, once; a second call does nothing. */
    method CloseStream(id: StreamId)
      requires StreamsValid() && id in streams
      modifies this
      ensures StreamsValid() && id in streams && streams - {id} == old(streams) - {id}
      ensures !old(streams)[id].Open? ==>
                streams == old(streams) && lent == old(lent) && bufferQueue == old(bufferQueue)
      ensures var s := old(streams)[id];
              s.Open? ==>
                && streams[id] == Closing(s.output, s.outputBuffer) && lent == old(lent) - {s.inputBuffer}
                && PutBack(s.input, s.inputBuffer)
    {
      hide StreamsOk, Valid;
      OneOk(streams, bufferSize, lent, id);
      if streams[id].Open? {
        ghost var sizes, loans := bufferSize, lent;
        var i, ib, o, ob := streams[id].input, streams[id].inputBuffer, streams[id].output, streams[id].outputBuffer;
        Release(i, ib);
        Returned(streams, sizes, loans, id, Closing(o, ob), ib);
        streams := streams[id := Closing(o, ob)];
      }
    }

    /** The collector clears a soft reference of the table. */
    method LoseReference(size: nat)
      requires StreamsValid() && size in queueTable
      modifies this`queueTable
      ensures StreamsValid()
    {
      queueTable := queueTable[size := None];
    }

    lemma Known()
      requires Valid()
      ensures bufferQueue.Keys == bufferSize.Keys
      ensures forall n :: n in queueTable && queueTable[n].Some? ==> queueTable[n].value in bufferQueue
    {}

    /** A stream whose constructor is done has two different buffers of exactly the sizes it asked for, and
        shares neither with any other stream. */
    lemma OpenStreams(id: StreamId, jd: StreamId)
      requires StreamsValid() && id in streams && streams[id].Open?
      ensures
        var s := streams[id];
        && s.inputBuffer in length && length[s.inputBuffer] == s.inputSize
        && s.outputBuffer in length && length[s.outputBuffer] == s.outputSize
        && s.inputBuffer != s.outputBuffer
      ensures jd in streams && jd != id ==> streams[id].Buffers() !! streams[jd].Buffers()
    {
      OneOk(streams, bufferSize, lent, id);
    }
  }

  lemma OneOk(streams: Streams, sizes: Sizes, lent: Loans, id: StreamId)
    requires StreamsOk(streams, sizes, lent) && id in streams
    ensures StreamOk(streams[id], sizes, lent)
  {}

  /** How far a stream is, as its own events tell: its constructor was called with these sizes, and this many of the
      steps of constructor and `close` are done (3 is open, 4 is closing, 5 is closed). */
  datatype Progress = Progress(inputSize: nat, outputSize: nat, stage: nat)

  /** What the events say about stream `id`: the first start counts, a move takes a step unless the stream is open or
      closed, and a close starts to close an open stream. */
  function Follow(events: seq<Event>, id: StreamId): Option<Progress> {
    if events == [] then None
    else
      var before := Follow(events[..|events| - 1], id);
      match events[|events| - 1]
      case Start(i, n, m) => if i == id && before == None then Some(Progress(n, m, 0)) else before
      case Move(i) =>
        if i == id && before.Some? && before.value.stage !in {3, 5}
        then Some(before.value.(stage := before.value.stage + 1)) else before
      case Close(i) =>
        if i == id && before.Some? && before.value.stage == 3 then Some(before.value.(stage := 4)) else before
      case Lose(_) => before
  }

  predicate Starts(e: Event, id: StreamId) { e.Start? && e.id == id }

  /** The streams followed are those with a start among the events, and their sizes are those of their first start. */
  lemma {:induction false} FollowedFromFirstStart(events: seq<Event>, id: StreamId)
    ensures Follow(events, id) == None <==> forall i :: 0 <= i < |events| ==> !Starts(events[i], id)
    ensures Follow(events, id).Some? ==>
              exists i :: && 0 <= i < |events| && Starts(events[i], id)
                          && (forall j :: 0 <= j < i ==> !Starts(events[j], id))
                          && events[i].inputSize == Follow(events, id).value.inputSize
                          && events[i].outputSize == Follow(events, id).value.outputSize
  {
    if events != [] {
      var init, last := events[..|events| - 1], events[|events| - 1];
      FollowedFromFirstStart(init, id);
      assert forall j :: 0 <= j < |init| ==> init[j] == events[j];
      if Follow(init, id).Some? {
        var i :| 0 <= i < |init| && Starts(init[i], id) && (forall j :: 0 <= j < i ==> !Starts(init[j], id))
                 && init[i].inputSize == Follow(init, id).value.inputSize
                 && init[i].outputSize == Follow(init, id).value.outputSize;
        assert Starts(events[i], id);
      } else if Starts(last, id) {
        assert Starts(events[|init|], id);
      }
    }
  }

  predicate Shows(s: Stream, p: Progress) {
    match s
    case HasInput(n, m, _) => p == Progress(n, m, 0)
    case HasBoth(n, m, _, _) => p == Progress(n, m, 1)
    case HalfOpen(n, m, _, _, _) => p == Progress(n, m, 2)
    case Open(n, m, _, _, _, _) => p == Progress(n, m, 3)
    case Closing(_, _) => p.stage == 4
    case Closed => p.stage == 5
  }

  /** The streams are exactly those that were started, each as far as its own events took it. */
  ghost predicate Agrees(events: seq<Event>, streams: Streams) {
    forall id :: if id in streams then Follow(events, id).Some? && Shows(streams[id], Follow(events, id).value)
                 else Follow(events, id) == None
  }

  lemma AgreesNext(events: seq<Event>, e: Event, before: Streams, after: Streams, id: StreamId)
    requires Agrees(events, before) && after - {id} == before - {id}
    requires !e.Lose? && e.id == id
    requires id !in before ==>
               if e.Start? then id in after && Shows(after[id], Progress(e.inputSize, e.outputSize, 0))
               else id !in after
    requires id in before ==>
               && id in after
               && match e
                  case Start(_, _, _) => after[id] == before[id]
                  case Move(_) => Moved(before[id], after[id])
                  case Close(_) => if before[id].Open? then after[id].Closing? else after[id] == before[id]
    ensures Agrees(events + [e], after)
  {
    var all := events + [e];
    assert all[..|all| - 1] == events;
    forall jd ensures if jd in after then Follow(all, jd).Some? && Shows(after[jd], Follow(all, jd).value)
                      else Follow(all, jd) == None {
      assert if jd in before then Follow(events, jd).Some? && Shows(before[jd], Follow(events, jd).value)
             else Follow(events, jd) == None;
      if jd != id {
        assert jd in after <==> jd in after - {id};
        assert jd in before <==> jd in before - {id};
        assert jd in after ==> after[jd] == (after - {id})[jd] == before[jd];
      }
    }
  }

  /** Every run: whatever the events and their order, the streams are those that were started, each as far as its own
      events took it; every finished constructor has two different buffers of exactly the sizes it asked for; and no
      buffer is with two streams.  Events that make no sense in the state reached have no effect. */
  method Run(events: seq<Event>) returns (streams: Streams, length: map<Buffer, nat>)
    ensures Agrees(events, streams)
    ensures forall id :: id in streams && streams[id].Open? ==>
              && streams[id].inputBuffer in length && length[streams[id].inputBuffer] == streams[id].inputSize
              && streams[id].outputBuffer in length && length[streams[id].outputBuffer] == streams[id].outputSize
              && streams[id].inputBuffer != streams[id].outputBuffer
    ensures forall id, jd :: id in streams && jd in streams && id != jd ==>
              streams[id].Buffers() !! streams[jd].Buffers()
  {
    hide Agrees, Follow, StreamsOk, AllocatorCache.Valid;
    var cache := new AllocatorCache();
    NothingAgrees();
    for i := 0 to |events|
      invariant cache.StreamsValid() && fresh(cache) && Agrees(events[..i], cache.streams)
    {
      assert events[..i + 1] == events[..i] + [events[i]];
      Happen(cache, events[i], events[..i]);
    }
    assert events[..|events|] == events;
    streams, length := cache.streams, cache.length;
    forall id | id in streams && streams[id].Open?
      ensures streams[id].inputBuffer in length && length[streams[id].inputBuffer] == streams[id].inputSize
              && streams[id].outputBuffer in length && length[streams[id].outputBuffer] == streams[id].outputSize
              && streams[id].inputBuffer != streams[id].outputBuffer
    {
      cache.OpenStreams(id, id);
    }
    NoneShared(streams, cache.bufferSize, cache.lent);
  }

  lemma NothingAgrees()
    ensures Agrees([], map[])
  {}

  lemma NoneShared(streams: Streams, sizes: Sizes, lent: Loans)
    requires StreamsOk(streams, sizes, lent)
    ensures forall id, jd :: id in streams && jd in streams && id != jd ==>
              streams[id].Buffers() !! streams[jd].Buffers()
  {}

  /** One event. */
  method Happen(cache: AllocatorCache, e: Event, ghost past: seq<Event>)
    requires cache.StreamsValid() && Agrees(past, cache.streams)
    modifies cache
    ensures cache.StreamsValid() && Agrees(past + [e], cache.streams)
  {
    hide Agrees, StreamsOk, AllocatorCache.Valid;
    ghost var before := cache.streams;
    match e
    case Start(id, n, m) =>
      if id !in cache.streams { cache.StartStream(id, n, m); }
      assert before - {id} == cache.streams - {id};
      AgreesNext(past, e, before, cache.streams, id);
    case Move(id) =>
      if id in cache.streams { cache.MoveStream(id); }
      AgreesNext(past, e, before, cache.streams, id);
    case Close(id) =>
      if id in cache.streams { cache.CloseStream(id); }
      AgreesNext(past, e, before, cache.streams, id);
    case Lose(n) =>
      if n in cache.queueTable { cache.LoseReference(n); }
      LossAgrees(past, n, before);
  }

  lemma LossAgrees(events: seq<Event>, n: nat, streams: Streams)
    requires Agrees(events, streams)
    ensures Agrees(events + [Lose(n)], streams)
  {
    var all := events + [Lose(n)];
    assert all[..|all| - 1] == events;
    assert forall id :: Follow(all, id) == Follow(events, id);
  }

  /** A constructor from start to end, left alone: for sizes never asked for its buffers are new, and for sizes whose
      allocators have enough buffers queued, they are the ones queued first. */
  method OpenStream(cache: AllocatorCache, id: StreamId, n: nat, m: nat)
    requires cache.StreamsValid() && id !in cache.streams
    modifies cache
    ensures cache.StreamsValid() && id in cache.streams && cache.streams[id].Open?
    ensures cache.streams - {id} == old(cache.streams) && cache.bufferQueue.Keys == cache.bufferSize.Keys
    ensures
      var s := cache.streams[id];
      && n in cache.queueTable && cache.queueTable[n] == Some(s.input) && s.input in cache.bufferQueue
      && m in cache.queueTable && cache.queueTable[m] == Some(s.output) && s.output in cache.bufferQueue
      && (n !in old(cache.queueTable) && m !in old(cache.queueTable) ==>
            cache.bufferQueue[s.input] == cache.bufferQueue[s.output] == [])
      && (n in old(cache.queueTable) && m in old(cache.queueTable) ==>
            match (old(cache.queueTable)[n], old(cache.queueTable)[m])
            case (Some(a), Some(b)) =>
              && a in old(cache.bufferQueue) && b in old(cache.bufferQueue)
              && var p, q := old(cache.bufferQueue)[a], old(cache.bufferQueue)[b];
              if a == b then 2 <= |p| ==> s.inputBuffer == p[0] && s.outputBuffer == p[1]
              else p != [] && q != [] ==> s.inputBuffer == p[0] && s.outputBuffer == q[0]
            case _ => true)
  {
    hide StreamsOk, AllocatorCache.Valid;
    cache.Known();
    cache.StartStream(id, n, m);
    cache.Known();
    cache.MoveStream(id);
    cache.MoveStream(id);
    cache.MoveStream(id);
    cache.Known();
  }

  /** Reuse: a stream that is opened after another of the same sizes was closed gets its two buffers. */
  method OpenAgain(id: StreamId, jd: StreamId, n: nat, m: nat) returns (first: Stream, second: Stream)
    requires id != jd
    ensures first.Open? && second.Open?
    ensures second.inputBuffer == first.inputBuffer && second.outputBuffer == first.outputBuffer
  {
    hide AllocatorCache.Valid, StreamsOk;
    var cache := new AllocatorCache();
    OpenStream(cache, id, n, m);
    first := cache.streams[id];
    cache.CloseStream(id);
    cache.MoveStream(id);
    assert cache.streams - {id} == map[];
    assert jd !in cache.streams - {id};
    OpenStream(cache, jd, n, m);
    second := cache.streams[jd];
  }
}
