/** The producer/consumer pipeline of Traffic_SIM.cpp with each critical
    section as one atomic step: a producer puts one reading into the ring
    buffer; a consumer takes the oldest reading and folds it into the
    hourly top-3 table with record_results, under the same lock. */
module TrafficSim {

  import opened Optional
  import opened RingBuffer
  import opened TopResults

  /** The state the threads share: the ring buffer and the results table. */
  datatype Sim = Sim(buf: Buffer<Row>, table: Table)

  /** One critical section chosen by the scheduler; None when the chosen
      thread would block on its semaphore.  A reading of an hour with a
      bucket goes through `RecordResults`.  For any other hour the source's
      scan (`RecordAny`) either leaves the table alone, and so does the
      model, or it indexes outside `result_m` or overwrites the placeholders
      with a reading of another hour (hour 0); the model stops there. */
  function SimStep(s: Sim, e: Event<Row>): (r: Option<(Sim, seq<Row>)>)
    requires Valid(s.buf) && |s.table| == TableSize
    ensures r.Some? ==> Valid(r.value.0.buf) && |r.value.0.table| == TableSize
    ensures r.Some? && e.PutEvent? ==> r.value.1 == [] && r.value.0.table == s.table
    ensures r.Some? && e.TakeEvent? ==>
      |r.value.1| == 1 && (!ValidHour(HourOf(r.value.1[0])) ==> r.value.0.table == s.table)
  {
    match e
    case PutEvent(x) =>
      if s.buf.avail > 0 then Some((Sim(Put(s.buf, x), s.table), [])) else None
    case TakeEvent =>
      if s.buf.ready > 0 then
        var (x, b') := Take(s.buf);
        if ValidHour(HourOf(x)) then Some((Sim(b', RecordResults(s.table, x)), [x]))
        else if RecordAny(s.table, x) == Some(s.table) then Some((Sim(b', s.table), [x]))
        else None
      else None
  }

  /** A consumer step on a well-formed table with a reading of an hour the
      table has no bucket for (and that is neither 0 nor 600..1099) takes the
      reading and leaves the table unchanged. */
  lemma OtherHourConsumed(s: Sim)
    requires Valid(s.buf) && WellFormed(s.table) && s.buf.ready > 0
    requires var x := Take(s.buf).0;
      HourOf(x) != 0 && !ValidHour(HourOf(x)) && !(FirstHour * 100 <= HourOf(x) < (FirstHour + NumHours) * 100)
    ensures SimStep(s, TakeEvent) == Some((Sim(Take(s.buf).1, s.table), [Take(s.buf).0]))
  {
    OtherHourIgnored(s.table, Take(s.buf).0);
  }

  /** Runs a schedule; yields the final state and the readings consumed, in order. */
  function SimRun(s: Sim, evs: seq<Event<Row>>): Option<(Sim, seq<Row>)>
    requires Valid(s.buf) && |s.table| == TableSize
    decreases |evs|
  {
    if |evs| == 0 then Some((s, []))
    else
      var s1 := SimStep(s, evs[0]);
      if s1.None? then None
      else
        var s2 := SimRun(s1.value.0, evs[1..]);
        if s2.None? then None else Some((s2.value.0, s1.value.1 + s2.value.1))
  }

  /** Every reading in the sequence has an hour inside the table. */
  predicate AllValid(rs: seq<Row>)
  {
    forall k :: 0 <= k < |rs| ==> ValidHour(HourOf(rs[k]))
  }

  /** The readings of hours that have a bucket, in order. */
  function ValidOnly(rs: seq<Row>): (v: seq<Row>)
    ensures AllValid(v) && |v| <= |rs|
  {
    if |rs| == 0 then []
    else
      var last := rs[|rs| - 1];
      ValidOnly(rs[..|rs| - 1]) + (if ValidHour(HourOf(last)) then [last] else [])
  }

  lemma {:induction false} ValidOnlyConcat(a: seq<Row>, b: seq<Row>)
    ensures ValidOnly(a + b) == ValidOnly(a) + ValidOnly(b)
    decreases |b|
  {
    if |b| == 0 {
      assert a + b == a;
    } else {
      var b' := b[..|b| - 1];
      assert (a + b)[..|a + b| - 1] == a + b';
      ValidOnlyConcat(a, b');
    }
  }

  /** Dropping the readings of other hours does not change the peak of an
      hour that has a bucket. */
  lemma {:induction false} PeakValidOnly(rs: seq<Row>, h: int)
    requires ValidHour(h)
    ensures Peak(ValidOnly(rs), h) == Peak(rs, h)
    decreases |rs|
  {
    if |rs| > 0 {
      var init := rs[..|rs| - 1];
      var last := rs[|rs| - 1];
      PeakValidOnly(init, h);
      PeakSnoc(rs, h);
      if ValidHour(HourOf(last)) {
        var v := ValidOnly(rs);
        assert v == ValidOnly(init) + [last];
        assert v[..|v| - 1] == ValidOnly(init);
        PeakSnoc(v, h);
      } else {
        assert ValidOnly(rs) == ValidOnly(init) + [];
        assert ValidOnly(init) + [] == ValidOnly(init);
      }
    }
  }

  /** Folding in two batches is folding in their concatenation. */
  lemma {:induction false} RecordAllConcat(t: Table, a: seq<Row>, b: seq<Row>)
    requires |t| == TableSize && AllValid(a) && AllValid(b)
    ensures AllValid(a + b)
    ensures RecordAll(t, a + b) == RecordAll(RecordAll(t, a), b)
    decreases |b|
  {
    if |b| == 0 {
      assert a + b == a;
    } else {
      var b' := b[..|b| - 1];
      assert (a + b)[..|a + b| - 1] == a + b';
      RecordAllConcat(t, a, b');
    }
  }

  /** The pipeline refines the bare ring buffer: a schedule that runs does
      the same buffer operations and consumes the same readings, and the
      table is exactly record_results folded over the consumed readings of
      hours with a bucket, in the order they were taken. */
  lemma {:induction false} SimRunRecordsTaken(s: Sim, evs: seq<Event<Row>>)
    requires Valid(s.buf) && |s.table| == TableSize
    requires SimRun(s, evs).Some?
    ensures Run(s.buf, evs).Some?
    ensures Run(s.buf, evs).value == (SimRun(s, evs).value.0.buf, SimRun(s, evs).value.1)
    ensures SimRun(s, evs).value.0.table == RecordAll(s.table, ValidOnly(SimRun(s, evs).value.1))
    decreases |evs|
  {
    if |evs| > 0 {
      var st := SimStep(s, evs[0]).value;
      var s1 := st.0;
      StepRecords(s, evs[0]);
      SimRunRecordsTaken(s1, evs[1..]);
      var rest := SimRun(s1, evs[1..]).value;
      assert SimRun(s, evs).value == (rest.0, st.1 + rest.1);
      ValidOnlyConcat(st.1, rest.1);
      RecordAllConcat(s.table, ValidOnly(st.1), ValidOnly(rest.1));
    }
  }

  /** One step of the pipeline is one step of the ring buffer, and its
      table is the old one with the reading taken folded in when its hour
      has a bucket. */
  lemma StepRecords(s: Sim, e: Event<Row>)
    requires Valid(s.buf) && |s.table| == TableSize
    requires SimStep(s, e).Some?
    ensures Step(s.buf, e) == Some((SimStep(s, e).value.0.buf, SimStep(s, e).value.1))
    ensures SimStep(s, e).value.0.table == RecordAll(s.table, ValidOnly(SimStep(s, e).value.1))
  {
    var st := SimStep(s, e).value;
    if |st.1| == 1 {
      assert st.1[..0] == [];
      if ValidHour(HourOf(st.1[0])) {
        assert ValidOnly(st.1) == [st.1[0]];
        assert ValidOnly(st.1)[..0] == [];
      } else {
        assert ValidOnly(st.1) == [];
      }
    }
  }

  /** The simulation's start: an empty buffer over uninitialised slots and
      the table prep_result_m produces. */
  ghost function Start(garbage: Row): Sim
  {
    Sim(Init(garbage), InitialTable())
  }

  /** For ANY schedule of the threads that runs, the consumers read the
      readings in the order the producers wrote them, and the last row of
      every hour's bucket holds the largest count consumed for that hour
      (0 if none was positive), whatever readings of other hours were
      consumed along the way. */
  lemma ScheduleTopIsPeak(garbage: Row, evs: seq<Event<Row>>)
    requires SimRun(Start(garbage), evs).Some?
    ensures var r := SimRun(Start(garbage), evs).value;
      && |r.1| <= |Puts(evs)| && r.1 == Puts(evs)[..|r.1|]
      && WellFormed(r.0.table)
      && forall b :: 0 <= b < NumHours ==> Top(r.0.table, b) == Peak(r.1, FirstHour + b)
  {
    SimRunRecordsTaken(Start(garbage), evs);
    FifoFromInit(garbage, evs);
    var taken := SimRun(Start(garbage), evs).value.1;
    TopIsPeak(InitialTable(), ValidOnly(taken));
    PeaksOfValidOnly(taken);
  }

  lemma PeaksOfValidOnly(rs: seq<Row>)
    ensures forall h :: ValidHour(h) ==> Peak(ValidOnly(rs), h) == Peak(rs, h)
  {
    forall h | ValidHour(h)
      ensures Peak(ValidOnly(rs), h) == Peak(rs, h)
    {
      PeakValidOnly(rs, h);
    }
  }

  /** The peak of an hour does not depend on the order of the readings. */
  lemma PeakPermutation(a: seq<Row>, b: seq<Row>)
    requires multiset(a) == multiset(b)
    ensures forall h :: Peak(a, h) == Peak(b, h)
  {
    forall h
      ensures Peak(a, h) == Peak(b, h)
    {
      PeakBelow(a, b, h);
      PeakBelow(b, a, h);
    }
  }

  lemma PeakBelow(a: seq<Row>, b: seq<Row>, h: int)
    requires multiset(a) == multiset(b)
    ensures Peak(a, h) <= Peak(b, h)
  {
    var p := Peak(a, h);
    if p != 0 {
      var k :| 0 <= k < |a| && HourOf(a[k]) == h && a[k].count == p;
      assert a[k] in multiset(b);
      var m :| 0 <= m < |b| && b[m] == a[k];
    }
  }

  /** A complete run: the producers between them put every reading of
      data_m exactly once (in whatever interleaving), and the consumers took
      as many readings as there are.  Then every reading was consumed in
      put order, and each hour's top row is the largest count of that hour
      over the whole data set, whatever the schedule. */
  lemma CompleteRunTopIsPeak(garbage: Row, evs: seq<Event<Row>>, data: seq<Row>)
    requires SimRun(Start(garbage), evs).Some?
    requires multiset(Puts(evs)) == multiset(data)
    requires |SimRun(Start(garbage), evs).value.1| == |data|
    ensures SimRun(Start(garbage), evs).value.1 == Puts(evs)
    ensures WellFormed(SimRun(Start(garbage), evs).value.0.table)
    ensures forall b :: 0 <= b < NumHours ==>
      Top(SimRun(Start(garbage), evs).value.0.table, b) == Peak(data, FirstHour + b)
  {
    ScheduleTopIsPeak(garbage, evs);
    var r := SimRun(Start(garbage), evs).value;
    var puts := Puts(evs);
    assert |puts| == |multiset(puts)| == |multiset(data)| == |data|;
    assert puts[..|r.1|] == puts;
    assert r.1 == puts;
    PeakPermutation(r.1, data);
  }

}
