/** Element-wise vector addition of Module02/Vector_Addition/Seq.cpp,
    Module03/Vector_Addition/Pthread.cpp and Module03/Vector_Addition/mpi_vectorAdd.cpp.

    A C++ `int*` buffer is a `seq<int>`; every operation returns the buffers
    it would have written in place.  The programs check their work by
    comparing the sum of v3 with the sum of v1 plus the sum of v2; here the
    sums are mathematical integers. */
module VectorAddition {

  import opened Partitions

  /** The sum of a sequence, adding from the front as the C++ loops do. */
  function Sum(s: seq<int>): int
  {
    if |s| == 0 then 0 else Sum(s[..|s| - 1]) + s[|s| - 1]
  }

  /** Extending a prefix by one element adds that element to its sum. */
  lemma SumStep(s: seq<int>, i: int)
    requires 0 <= i < |s|
    ensures Sum(s[..i + 1]) == Sum(s[..i]) + s[i]
  {
    assert s[..i + 1][..i] == s[..i];
  }

  /** Summing is additive over concatenation. */
  lemma {:induction false} SumConcat(a: seq<int>, b: seq<int>)
    ensures Sum(a + b) == Sum(a) + Sum(b)
    decreases |b|
  {
    if |b| > 0 {
      var b' := b[..|b| - 1];
      assert (a + b)[..|a + b| - 1] == a + b';
      assert (a + b)[|a + b| - 1] == b[|b| - 1];
      SumConcat(a, b');
      assert Sum(a + b) == Sum(a + b') + b[|b| - 1];
      assert Sum(b) == Sum(b') + b[|b| - 1];
    } else {
      assert a + b == a;
    }
  }

  /** Where v3 is v1 + v2 entry by entry, the sums of the first n entries add up. */
  lemma {:induction false} SumPointwise(v1: seq<int>, v2: seq<int>, v3: seq<int>, n: int)
    requires 0 <= n <= |v1| && n <= |v2| && n <= |v3|
    requires forall i :: 0 <= i < n ==> v3[i] == v1[i] + v2[i]
    ensures Sum(v3[..n]) == Sum(v1[..n]) + Sum(v2[..n])
  {
    if n > 0 {
      SumPointwise(v1, v2, v3, n - 1);
      SumStep(v1, n - 1);
      SumStep(v2, n - 1);
      SumStep(v3, n - 1);
    }
  }

  /** randomVector / rand_vector: entries [start, end) become a random draw
      modulo 100 (Seq.cpp and mpi_vectorAdd.cpp fill from 0; Pthread.cpp
      fills one thread's range).  The C library's draws, in the order they
      are made, are the parameter `draws`; rand and rand_r never return a
      negative number. */
  method RandomVector(v: seq<int>, start: int, end: int, draws: seq<nat>) returns (w: seq<int>)
    requires 0 <= start && end <= |v| && end - start <= |draws|
    ensures |w| == |v|
    ensures forall i :: start <= i < end ==> 0 <= w[i] <= 99 && w[i] == draws[i - start] % 100
    ensures forall i :: 0 <= i < |v| && !(start <= i < end) ==> w[i] == v[i]
  {
    w := v;
    var i := start;
    while i < end
      invariant start <= i <= if start <= end then end else start
      invariant |w| == |v|
      invariant forall x :: start <= x < i ==> w[x] == draws[x - start] % 100
      invariant forall x :: 0 <= x < |v| && !(start <= x < i) ==> w[x] == v[x]
    {
      w := w[i := draws[i - start] % 100];
      i := i + 1;
    }
  }

  /** The add loop over [start, stop) (Seq.cpp over the whole vector, the
      body of addVector in Pthread.cpp over one thread's range): v3[i]
      becomes v1[i] + v2[i] there and nowhere else. */
  method AddRange(v1: seq<int>, v2: seq<int>, v3: seq<int>, start: int, stop: int) returns (w3: seq<int>)
    requires |v1| == |v2| == |v3|
    requires 0 <= start && stop <= |v3|
    ensures |w3| == |v3|
    ensures forall i :: start <= i < stop ==> w3[i] == v1[i] + v2[i]
    ensures forall i :: 0 <= i < |v3| && !(start <= i < stop) ==> w3[i] == v3[i]
  {
    w3 := v3;
    var i := start;
    while i < stop
      invariant start <= i <= if start <= stop then stop else start
      invariant |w3| == |v3|
      invariant forall x :: start <= x < i ==> w3[x] == v1[x] + v2[x]
      invariant forall x :: 0 <= x < |v3| && !(start <= x < i) ==> w3[x] == v3[x]
    {
      w3 := w3[i := v1[i] + v2[i]];
      i := i + 1;
    }
  }

  /** The `total` loop: the sum of the first `size` entries of v3. */
  method Total(v3: seq<int>, size: int) returns (total: int)
    requires 0 <= size <= |v3|
    ensures total == Sum(v3[..size])
  {
    total := 0;
    var i := 0;
    while i < size
      invariant 0 <= i <= size
      invariant total == Sum(v3[..i])
    {
      SumStep(v3, i);
      total := total + v3[i];
      i := i + 1;
    }
  }

  /** The `totalCheck` loop: v1[i] and then v2[i] added for each i. */
  method TotalCheck(v1: seq<int>, v2: seq<int>, size: int) returns (totalCheck: int)
    requires 0 <= size <= |v1| && size <= |v2|
    ensures totalCheck == Sum(v1[..size]) + Sum(v2[..size])
  {
    totalCheck := 0;
    var i := 0;
    while i < size
      invariant 0 <= i <= size
      invariant totalCheck == Sum(v1[..i]) + Sum(v2[..i])
    {
      SumStep(v1, i);
      SumStep(v2, i);
      totalCheck := totalCheck + v1[i];
      totalCheck := totalCheck + v2[i];
      i := i + 1;
    }
  }

  /** The `main` of Seq.cpp: fill v1 and v2, add, and compare the totals.
      The check always passes. */
  method SeqProgram(storage1: seq<int>, storage2: seq<int>, storage3: seq<int>, draws1: seq<nat>, draws2: seq<nat>)
    returns (v1: seq<int>, v2: seq<int>, v3: seq<int>, total: int, totalCheck: int)
    requires |storage1| == |storage2| == |storage3| <= |draws1| && |storage3| <= |draws2|
    ensures |v1| == |v2| == |v3| == |storage3|
    ensures forall i :: 0 <= i < |v3| ==> 0 <= v1[i] <= 99 && 0 <= v2[i] <= 99 && v3[i] == v1[i] + v2[i]
    ensures total == totalCheck == Sum(v3)
  {
    var size := |storage3|;
    v1 := RandomVector(storage1, 0, size, draws1);
    v2 := RandomVector(storage2, 0, size, draws2);
    v3 := AddRange(v1, v2, storage3, 0, size);
    total := Total(v3, size);
    totalCheck := TotalCheck(v1, v2, size);
    SumPointwise(v1, v2, v3, size);
    assert v3[..size] == v3;
  }

  /** addVector of Pthread.cpp: fills the thread's range of v1 and then of
      v2, each with a fresh rand_r state seeded from the shared `data.seed`
      field, then adds the range.  `main` rewrites that field while threads
      start, so the two calls may see different seeds: v1 and v2 get their
      own draws. */
  method AddVector(v1: seq<int>, v2: seq<int>, v3: seq<int>, range: Range, draws1: seq<nat>, draws2: seq<nat>)
    returns (w1: seq<int>, w2: seq<int>, w3: seq<int>)
    requires |v1| == |v2| == |v3|
    requires 0 <= range.start && range.stop <= |v3| && range.Length() <= |draws1| && range.Length() <= |draws2|
    ensures |w1| == |w2| == |w3| == |v3|
    ensures forall i :: range.Contains(i) ==> Added(w1, w2, w3, i)
    ensures forall i :: range.Contains(i) ==>
      w1[i] == draws1[i - range.start] % 100 && w2[i] == draws2[i - range.start] % 100
    ensures forall i :: 0 <= i < |v3| && !range.Contains(i) ==> w1[i] == v1[i] && w2[i] == v2[i] && w3[i] == v3[i]
  {
    w1 := RandomVector(v1, range.start, range.stop, draws1);
    w2 := RandomVector(v2, range.start, range.stop, draws2);
    w3 := AddRange(w1, w2, v3, range.start, range.stop);
  }

  /** The `main` of Pthread.cpp: `threads` ranges with the last absorbing
      the remainder, addVector on each (thread t filling v1 from `draws1[t]` and v2
      from `draws2[t]`),
      then the totals.  The ranges tile [0, size), so every entry is filled
      and added and the check passes.  The thread bodies write disjoint
      indices, so running them in thread order stands for any interleaving. */
  method PthreadProgram(storage1: seq<int>, storage2: seq<int>, storage3: seq<int>, threads: nat,
                        draws1: seq<seq<nat>>, draws2: seq<seq<nat>>)
    returns (rs: seq<Range>, v1: seq<int>, v2: seq<int>, v3: seq<int>, total: int, totalCheck: int)
    requires |storage1| == |storage2| == |storage3|
    requires threads > 0 && |draws1| == threads && |draws2| == threads
    requires forall t :: 0 <= t < threads ==> |storage3| <= |draws1[t]| && |storage3| <= |draws2[t]|
    ensures |rs| == threads && Tiles(rs, |storage3|)
    ensures |v1| == |v2| == |v3| == |storage3|
    ensures forall i :: 0 <= i < |v3| ==> Added(v1, v2, v3, i)
    ensures total == totalCheck == Sum(v3)
  {
    var size := |storage3|;
    rs := RangesLastAbsorbs(size, threads);
    v1, v2, v3 := RunThreads(storage1, storage2, storage3, rs, draws1, draws2);
    forall i | 0 <= i < |v3|
      ensures v3[i] == v1[i] + v2[i]
    {
      assert Added(v1, v2, v3, i);
    }
    total, totalCheck := CheckTotals(v1, v2, v3);
  }

  /** The thread bodies of Pthread.cpp over a tiling of the indices, run in
      thread order: every index ends up filled and added. */
  method RunThreads(storage1: seq<int>, storage2: seq<int>, storage3: seq<int>, rs: seq<Range>,
                    draws1: seq<seq<nat>>, draws2: seq<seq<nat>>)
    returns (v1: seq<int>, v2: seq<int>, v3: seq<int>)
    requires |storage1| == |storage2| == |storage3|
    requires Tiles(rs, |storage3|) && |draws1| == |rs| && |draws2| == |rs|
    requires forall t :: 0 <= t < |rs| ==> |storage3| <= |draws1[t]| && |storage3| <= |draws2[t]|
    ensures |v1| == |v2| == |v3| == |storage3|
    ensures forall i :: 0 <= i < |v3| ==> Added(v1, v2, v3, i)
  {
    var size := |storage3|;
    v1, v2, v3 := storage1, storage2, storage3;
    var t := 0;
    var done := 0;
    while t < |rs|
      invariant 0 <= t <= |rs| && 0 <= done <= size
      invariant |v1| == |v2| == |v3| == size
      invariant t < |rs| ==> rs[t].start == done
      invariant t == |rs| ==> done == size
      invariant forall i :: 0 <= i < done ==> Added(v1, v2, v3, i)
    {
      TilesWithin(rs, size, t);
      var w1, w2, w3 := AddVector(v1, v2, v3, rs[t], draws1[t], draws2[t]);
      forall i | 0 <= i < rs[t].stop
        ensures Added(w1, w2, w3, i)
      {
        if i < done {
          assert Added(v1, v2, v3, i);
        }
      }
      v1, v2, v3 := w1, w2, w3;
      done := rs[t].stop;
      t := t + 1;
    }
  }

  /** The two check loops of a `main`: with v3 = v1 + v2 entry by entry,
      `total` and `totalCheck` agree. */
  method CheckTotals(v1: seq<int>, v2: seq<int>, v3: seq<int>) returns (total: int, totalCheck: int)
    requires |v1| == |v2| == |v3|
    requires forall i :: 0 <= i < |v3| ==> v3[i] == v1[i] + v2[i]
    ensures total == totalCheck == Sum(v3)
  {
    var size := |v3|;
    total := Total(v3, size);
    totalCheck := TotalCheck(v1, v2, size);
    SumPointwise(v1, v2, v3, size);
    assert v3[..size] == v3;
  }

  /** Entry i has been filled with a value in [0, 99] in both inputs and added. */
  predicate Added(v1: seq<int>, v2: seq<int>, v3: seq<int>, i: int)
    requires 0 <= i < |v1| && i < |v2| && i < |v3|
  {
    0 <= v1[i] <= 99 && 0 <= v2[i] <= 99 && v3[i] == v1[i] + v2[i]
  }

  /** vector_add of mpi_vectorAdd.cpp: v3[i] = v1[i] + v2[i] for i < partition,
      returning their running sum (0 for an empty partition); nothing from
      `partition` on is touched. */
  method VectorAdd(v1: seq<int>, v2: seq<int>, v3: seq<int>, partition: int) returns (w3: seq<int>, sum: int)
    requires partition <= |v1| && partition <= |v2| && partition <= |v3|
    ensures |w3| == |v3|
    ensures forall i :: 0 <= i < partition ==> w3[i] == v1[i] + v2[i]
    ensures forall i :: 0 <= i < |v3| && partition <= i ==> w3[i] == v3[i]
    ensures partition <= 0 ==> sum == 0
    ensures 0 <= partition ==> sum == Sum(w3[..partition]) == Sum(v1[..partition]) + Sum(v2[..partition])
  {
    w3 := v3;
    sum := 0;
    var i := 0;
    while i < partition
      invariant 0 <= i <= if partition < 0 then 0 else partition
      invariant |w3| == |v3|
      invariant forall x :: 0 <= x < i ==> w3[x] == v1[x] + v2[x]
      invariant forall x :: i <= x < |v3| ==> w3[x] == v3[x]
      invariant sum == Sum(w3[..i])
    {
      var before := w3;
      w3 := w3[i := v1[i] + v2[i]];
      assert w3[..i] == before[..i];
      SumStep(w3, i);
      sum := sum + w3[i];
      i := i + 1;
    }
    if 0 <= partition {
      SumPointwise(v1, v2, w3, partition);
    }
  }

  /** The `main` of mpi_vectorAdd.cpp with the collectives spelled out:
      MPI_Scatter hands rank r the slice [r * partition, (r + 1) * partition)
      of v1 and of v2, each rank runs vector_add on its slice, MPI_Gather
      concatenates the v3 slices in rank order and MPI_Reduce adds the local
      sums.  The total is the sum of v1[i] + v2[i] over the first
      num_tasks * partition indices; the SIZE % num_tasks entries after them
      are never added. */
  method MpiProgram(v1: seq<int>, v2: seq<int>, numTasks: nat) returns (partition: int, v3: seq<int>, totalSum: int)
    requires |v1| == |v2| && numTasks > 0
    ensures partition == |v1| / numTasks && 0 <= numTasks * partition <= |v1|
    ensures |v3| == numTasks * partition
    ensures forall i :: 0 <= i < |v3| ==> v3[i] == v1[i] + v2[i]
    ensures totalSum == Sum(v1[..numTasks * partition]) + Sum(v2[..numTasks * partition])
  {
    partition := |v1| / numTasks;
    QuotientBound(|v1|, numTasks);
    v3 := [];
    totalSum := 0;
    var rank := 0;
    var offset := 0;
    while rank < numTasks
      invariant 0 <= rank <= numTasks && offset == partition * rank
      invariant |v3| == offset <= |v1|
      invariant forall i :: 0 <= i < offset ==> v3[i] == v1[i] + v2[i]
      invariant totalSum == Sum(v1[..offset]) + Sum(v2[..offset])
    {
      NextOffset(partition, rank, numTasks, |v1|);
      v3, totalSum := GatherRank(v1, v2, offset, partition, v3, totalSum);
      offset := offset + partition;
      rank := rank + 1;
    }
    assert rank == numTasks;
    MulComm(partition, numTasks);
    assert offset == numTasks * partition;
  }

  lemma MulComm(a: int, b: int)
    ensures a * b == b * a
  {
  }

  /** The next rank's slice still ends inside the vector. */
  lemma NextOffset(partition: int, rank: int, numTasks: int, size: int)
    requires 0 <= partition && 0 <= rank < numTasks && numTasks * partition <= size
    ensures partition * rank + partition == partition * (rank + 1) <= size
  {
    MulSucc(partition, rank);
    MulMonotone(partition, rank + 1, numTasks);
  }

  /** Appends one rank's v3 slice to the gathered vector and its local sum
      to the reduced total. */
  method GatherRank(v1: seq<int>, v2: seq<int>, offset: int, partition: int, v3: seq<int>, totalSum: int)
    returns (v3': seq<int>, totalSum': int)
    requires 0 <= offset && 0 <= partition && offset + partition <= |v1| == |v2|
    requires |v3| == offset && forall i :: 0 <= i < offset ==> v3[i] == v1[i] + v2[i]
    requires totalSum == Sum(v1[..offset]) + Sum(v2[..offset])
    ensures |v3'| == offset + partition && forall i :: 0 <= i < offset + partition ==> v3'[i] == v1[i] + v2[i]
    ensures totalSum' == Sum(v1[..offset + partition]) + Sum(v2[..offset + partition])
  {
    var sub3, localSum := ScatterAdd(v1, v2, offset, partition);
    PrefixSumSplit(v1, offset, offset + partition);
    PrefixSumSplit(v2, offset, offset + partition);
    v3' := v3 + sub3;
    totalSum' := totalSum + localSum;
    forall i | 0 <= i < offset + partition
      ensures v3'[i] == v1[i] + v2[i]
    {
      if i >= offset {
        assert v3'[i] == sub3[i - offset];
      }
    }
  }

  /** One rank of mpi_vectorAdd.cpp: its scattered slices of v1 and v2 at
      `offset`, added by vector_add into a fresh buffer of `partition` entries. */
  method ScatterAdd(v1: seq<int>, v2: seq<int>, offset: int, partition: int) returns (sub3: seq<int>, localSum: int)
    requires 0 <= offset && 0 <= partition && offset + partition <= |v1| == |v2|
    ensures |sub3| == partition
    ensures forall i :: 0 <= i < partition ==> sub3[i] == v1[offset + i] + v2[offset + i]
    ensures localSum == Sum(v1[offset..offset + partition]) + Sum(v2[offset..offset + partition])
  {
    var sub1 := v1[offset..offset + partition];
    var sub2 := v2[offset..offset + partition];
    sub3, localSum := VectorAdd(sub1, sub2, seq(partition, _ => 0), partition);
    assert sub1[..partition] == sub1 && sub2[..partition] == sub2;
  }

  lemma PrefixSumSplit(v: seq<int>, a: int, b: int)
    requires 0 <= a <= b <= |v|
    ensures Sum(v[..b]) == Sum(v[..a]) + Sum(v[a..b])
  {
    assert v[..b] == v[..a] + v[a..b];
    SumConcat(v[..a], v[a..b]);
  }

}
