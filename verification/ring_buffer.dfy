/** The bounded ring buffer shared by the producers and consumers of Traffic_SIM.cpp.

    Each producer critical section (semaphore wait, lock, write one slot,
    advance `insert`, unlock, semaphore post) is one atomic `Put`; each
    consumer critical section is one atomic `Take`.  The two counting
    semaphores are the fields `avail` (free slots, starts at BufferSize) and
    `ready` (filled slots, starts at 0). */
module RingBuffer {

  import opened Optional

  /** BUFFER_SIZE of Traffic_SIM.cpp. */
  const BufferSize: nat := 4

  datatype Buffer<T> = Buffer(slots: seq<T>, insert: int, extract: int, avail: int, ready: int)

  /** The state every reachable buffer is in: both indices are slot numbers,
      the semaphores add up to the capacity, and the filled slots are the
      `ready` slots that follow `extract` round the ring. */
  ghost predicate Valid<T>(b: Buffer<T>)
  {
    && |b.slots| == BufferSize
    && 0 <= b.insert < BufferSize
    && 0 <= b.extract < BufferSize
    && 0 <= b.ready <= BufferSize
    && b.avail + b.ready == BufferSize
    && b.insert == (b.extract + b.ready) % BufferSize
  }

  /** The readings waiting in the buffer, oldest first. */
  ghost function Contents<T>(b: Buffer<T>): seq<T>
    requires Valid(b)
  {
    seq(b.ready, k requires 0 <= k < b.ready => b.slots[(b.extract + k) % BufferSize])
  }

  /** The buffer after set-up: both indices 0, every slot free.  The slots
      hold whatever the allocation left there (`garbage`). */
  function Init<T>(garbage: T): (b: Buffer<T>)
    ensures Valid(b)
    ensures b.insert == 0 && b.extract == 0
    ensures b.avail == BufferSize && b.ready == 0
    ensures Contents(b) == []
  {
    Buffer(seq(BufferSize, _ => garbage), 0, 0, BufferSize, 0)
  }

  /** One producer critical section (Traffic_SIM.cpp:367-381): enabled only
      when the free-slot semaphore is positive; writes the slot at `insert`,
      advances `insert` by one round the ring and moves one unit from the
      free-slot count to the filled-slot count. */
  function Put<T>(b: Buffer<T>, x: T): (b': Buffer<T>)
    requires Valid(b) && b.avail > 0
    ensures Valid(b')
    ensures b'.insert == (b.insert + 1) % BufferSize && b'.extract == b.extract
    ensures b'.avail == b.avail - 1 && b'.ready == b.ready + 1
    ensures Contents(b') == Contents(b) + [x]
  {
    var b' := Buffer(b.slots[b.insert := x], (b.insert + 1) % BufferSize, b.extract, b.avail - 1, b.ready + 1);
    assert Contents(b') == Contents(b) + [x] by {
      forall k | 0 <= k < b.ready
        ensures Contents(b')[k] == Contents(b)[k]
      {
      }
    }
    b'
  }

  /** One consumer critical section (Traffic_SIM.cpp:396-412) minus the
      result update: enabled only when the filled-slot semaphore is positive;
      reads the slot at `extract`, advances `extract` by one round the ring and
      moves one unit back to the free-slot count. */
  function Take<T>(b: Buffer<T>): (res: (T, Buffer<T>))
    requires Valid(b) && b.ready > 0
    ensures Valid(res.1)
    ensures res.1.extract == (b.extract + 1) % BufferSize && res.1.insert == b.insert
    ensures res.1.avail == b.avail + 1 && res.1.ready == b.ready - 1
    ensures res.0 == Contents(b)[0] && Contents(res.1) == Contents(b)[1..]
  {
    var b' := Buffer(b.slots, b.insert, (b.extract + 1) % BufferSize, b.avail + 1, b.ready - 1);
    assert Contents(b') == Contents(b)[1..] by {
      forall k | 0 <= k < b.ready - 1
        ensures Contents(b')[k] == Contents(b)[k + 1]
      {
        RingStep(b.extract, k);
      }
    }
    (b.slots[b.extract], b')
  }

  lemma RingStep(e: int, k: nat)
    requires 0 <= e < BufferSize
    ensures ((e + 1) % BufferSize + k) % BufferSize == (e + (k + 1)) % BufferSize
  {
    if e + 1 == BufferSize {
      assert (e + (k + 1)) == k + BufferSize;
    }
  }

  datatype Event<T> = PutEvent(x: T) | TakeEvent

  /** One scheduler choice; None when the chosen thread would block on its semaphore. */
  function Step<T>(b: Buffer<T>, e: Event<T>): (r: Option<(Buffer<T>, seq<T>)>)
    requires Valid(b)
    ensures r.Some? ==> Valid(r.value.0)
  {
    match e
    case PutEvent(x) => if b.avail > 0 then Some((Put(b, x), [])) else None
    case TakeEvent => if b.ready > 0 then var (x, b') := Take(b); Some((b', [x])) else None
  }

  /** Runs a schedule of critical sections; yields the final buffer and the
      readings taken, in order, or None if some chosen step could not run. */
  function Run<T>(b: Buffer<T>, evs: seq<Event<T>>): Option<(Buffer<T>, seq<T>)>
    requires Valid(b)
    decreases |evs|
  {
    if |evs| == 0 then Some((b, []))
    else
      var s1 := Step(b, evs[0]);
      if s1.None? then None
      else
        var s2 := Run(s1.value.0, evs[1..]);
        if s2.None? then None else Some((s2.value.0, s1.value.1 + s2.value.1))
  }

  /** The readings a schedule puts, in order. */
  function Puts<T>(evs: seq<Event<T>>): seq<T>
  {
    if |evs| == 0 then []
    else (if evs[0].PutEvent? then [evs[0].x] else []) + Puts(evs[1..])
  }

  /** Over any schedule that can run, the buffer stays valid, and what was
      taken followed by what still waits is what was waiting before followed
      by what was put: nothing is lost, duplicated or reordered. */
  lemma {:induction false} RunIsFifo<T>(b: Buffer<T>, evs: seq<Event<T>>)
    requires Valid(b)
    requires Run(b, evs).Some?
    ensures Valid(Run(b, evs).value.0)
    ensures Run(b, evs).value.1 + Contents(Run(b, evs).value.0) == Contents(b) + Puts(evs)
    decreases |evs|
  {
    if |evs| > 0 {
      var s1 := Step(b, evs[0]).value;
      RunIsFifo(s1.0, evs[1..]);
      var s2 := Run(s1.0, evs[1..]).value;
      assert Run(b, evs).value == (s2.0, s1.1 + s2.1);
      StepIsFifo(b, evs[0]);
      PutsCons(evs);
      var c, c1, c2 := Contents(b), Contents(s1.0), Contents(s2.0);
      var p1, p2 := Puts([evs[0]]), Puts(evs[1..]);
      calc {
        s1.1 + s2.1 + c2;
        s1.1 + (s2.1 + c2);
        s1.1 + (c1 + p2);
        (s1.1 + c1) + p2;
        (c + p1) + p2;
        c + (p1 + p2);
      }
    }
  }

  lemma PutsCons<T>(evs: seq<Event<T>>)
    requires |evs| > 0
    ensures Puts(evs) == Puts([evs[0]]) + Puts(evs[1..])
  {
    assert [evs[0]][1..] == [];
  }

  /** A single step keeps the same balance as a whole run. */
  lemma StepIsFifo<T>(b: Buffer<T>, e: Event<T>)
    requires Valid(b)
    requires Step(b, e).Some?
    ensures Step(b, e).value.1 + Contents(Step(b, e).value.0) == Contents(b) + Puts([e])
  {
    assert [e][1..] == [];
    if e.TakeEvent? {
      var c := Contents(b);
      assert c == [c[0]] + c[1..];
    }
  }

  /** From a fresh buffer the filled count stays within [0, BufferSize],
      and the k-th take reads exactly the reading written by the k-th put. */
  lemma FifoFromInit<T>(garbage: T, evs: seq<Event<T>>)
    requires Run(Init(garbage), evs).Some?
    ensures 0 <= Run(Init(garbage), evs).value.0.ready <= BufferSize
    ensures var taken := Run(Init(garbage), evs).value.1;
      |taken| <= |Puts(evs)| && taken == Puts(evs)[..|taken|]
  {
    RunIsFifo(Init(garbage), evs);
    var r := Run(Init(garbage), evs).value;
    assert r.1 + Contents(r.0) == Puts(evs);
    assert (r.1 + Contents(r.0))[..|r.1|] == r.1;
  }

}
