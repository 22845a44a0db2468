/** Contiguous index ranges handed to worker threads or processes.

    Every parallel program of the repository splits an index space [0, total)
    into one `[start, stop)` range per worker, each of length total / workers,
    with the last range stretched to `total`.  Traffic_SIM.cpp and the pthread
    matrix multiply add one extra worker when the division leaves a remainder;
    the pthread vector addition lets its last worker absorb the remainder. */
module Partitions {

  datatype Range = Range(start: int, stop: int)
  {
    predicate Contains(x: int) { start <= x < stop }
    function Length(): int { stop - start }
  }

  /** `rs` cuts [0, total) into consecutive non-empty-or-empty pieces:
      the first starts at 0, each starts where the previous one stopped,
      none runs backwards, and the last stops at total. */
  ghost predicate Tiles(rs: seq<Range>, total: int)
  {
    && |rs| > 0
    && rs[0].start == 0
    && rs[|rs| - 1].stop == total
    && (forall i :: 0 <= i < |rs| ==> rs[i].start <= rs[i].stop)
    && (forall i :: 0 <= i < |rs| - 1 ==> rs[i].stop == rs[i + 1].start)
  }

  /** Ranges never overlap: an earlier range ends before a later one begins. */
  lemma {:induction false} TilesDisjoint(rs: seq<Range>, total: int, i: int, j: int)
    requires Tiles(rs, total)
    requires 0 <= i < j < |rs|
    ensures rs[i].stop <= rs[j].start
    decreases j - i
  {
    if i + 1 < j {
      TilesDisjoint(rs, total, i + 1, j);
    }
  }

  /** Every index of [0, total) lies in some range. */
  lemma {:induction false} TilesCover(rs: seq<Range>, total: int, x: int)
    requires Tiles(rs, total)
    requires 0 <= x < total
    ensures exists i :: 0 <= i < |rs| && rs[i].Contains(x)
  {
    var k := CoveringIndex(rs, total, x, |rs| - 1);
  }

  /** Searching downwards from range `k`, whose stop lies above `x`, finds the range holding `x`. */
  lemma {:induction false} CoveringIndex(rs: seq<Range>, total: int, x: int, k: int) returns (i: int)
    requires Tiles(rs, total)
    requires 0 <= x && 0 <= k < |rs| && x < rs[k].stop
    ensures 0 <= i <= k && rs[i].Contains(x)
    decreases k
  {
    if rs[k].start <= x {
      i := k;
    } else {
      assert k > 0;
      assert rs[k - 1].stop == rs[k].start;
      i := CoveringIndex(rs, total, x, k - 1);
    }
  }

  /** Every range lies inside [0, total). */
  lemma TilesWithin(rs: seq<Range>, total: int, k: int)
    requires Tiles(rs, total)
    requires 0 <= k < |rs|
    ensures 0 <= rs[k].start <= rs[k].stop <= total
  {
    if 0 < k {
      TilesDisjoint(rs, total, 0, k);
    }
    if k < |rs| - 1 {
      TilesDisjoint(rs, total, k, |rs| - 1);
    }
  }

  /** Each index of [0, total) lies in exactly one range. */
  lemma ExactlyOneRange(rs: seq<Range>, total: int, x: int, i: int, j: int)
    requires Tiles(rs, total)
    requires 0 <= i < |rs| && 0 <= j < |rs|
    requires rs[i].Contains(x) && rs[j].Contains(x)
    ensures i == j
  {
    if i < j {
      TilesDisjoint(rs, total, i, j);
    } else if j < i {
      TilesDisjoint(rs, total, j, i);
    }
  }

  /** The sum of the range lengths is the size of the covered space. */
  function TotalLength(rs: seq<Range>): int
  {
    if |rs| == 0 then 0 else TotalLength(rs[..|rs| - 1]) + rs[|rs| - 1].Length()
  }

  lemma {:induction false} TilesLength(rs: seq<Range>, total: int)
    requires Tiles(rs, total)
    ensures TotalLength(rs) == total
  {
    TilesPrefixLength(rs, total, |rs|);
    assert rs[..|rs|] == rs;
  }

  lemma {:induction false} TilesPrefixLength(rs: seq<Range>, total: int, k: int)
    requires Tiles(rs, total)
    requires 1 <= k <= |rs|
    ensures TotalLength(rs[..k]) == rs[k - 1].stop
  {
    assert rs[..k][..k - 1] == rs[..k - 1];
    if k > 1 {
      TilesPrefixLength(rs, total, k - 1);
    }
  }

  lemma QuotientBound(total: nat, workers: nat)
    requires workers > 0
    ensures 0 <= workers * (total / workers) <= total
    ensures total - workers * (total / workers) == total % workers
  {
  }

  /** The worker count of Traffic_SIM.cpp `main` and pThread.cpp `main`:
      one worker per partition plus one for a non-zero remainder. */
  function WorkerCount(total: nat, workers: nat): (n: nat)
    requires workers > 0
    ensures n == workers + 1 <==> workers * (total / workers) < total
    ensures n == workers <==> workers * (total / workers) == total
  {
    QuotientBound(total, workers);
    if total % workers != 0 then workers + 1 else workers
  }

  /** The range set-up loop shared by the `main` functions: range i is
      [partition*i, partition*i + partition), except that the last of the
      `count` ranges stops at total. */
  method BuildRanges(total: nat, partition: nat, count: nat) returns (rs: seq<Range>)
    requires count > 0
    requires partition * (count - 1) <= total
    ensures |rs| == count
    ensures Tiles(rs, total)
    ensures forall i :: 0 <= i < |rs| - 1 ==> rs[i].Length() == partition
    ensures rs[|rs| - 1].start == partition * (count - 1)
  {
    rs := [];
    var i := 0;
    while i < count
      invariant 0 <= i <= count
      invariant |rs| == i
      invariant forall k :: 0 <= k < i ==> rs[k].start == partition * k
      invariant forall k :: 0 <= k < i && k != count - 1 ==> rs[k].stop == partition * k + partition
      invariant forall k :: 0 <= k < i && k == count - 1 ==> rs[k].stop == total
    {
      var r := Range(partition * i, partition * i + partition);
      if i == count - 1 {
        r := Range(r.start, total);
      }
      rs := rs + [r];
      i := i + 1;
    }
    forall k | 0 <= k < |rs| - 1
      ensures rs[k].stop == rs[k + 1].start
    {
      MulSucc(partition, k);
    }
    forall k | 0 <= k < |rs|
      ensures rs[k].start <= rs[k].stop
    {
      if k == count - 1 {
        assert rs[k].start == partition * (count - 1);
      }
    }
  }

  lemma MulSucc(p: int, k: int)
    ensures p * k + p == p * (k + 1)
  {
  }

  lemma MulMonotone(p: nat, a: nat, b: nat)
    requires a <= b
    ensures p * a <= p * b
  {
  }

  /** The range set-up of Traffic_SIM.cpp `main` and pThread.cpp `main`. */
  method RangesWithExtraWorker(total: nat, workers: nat) returns (rs: seq<Range>)
    requires workers > 0
    ensures |rs| == WorkerCount(total, workers)
    ensures Tiles(rs, total)
    ensures forall i :: 0 <= i < |rs| - 1 ==> rs[i].Length() == total / workers
  {
    var partition := total / workers;
    var count := WorkerCount(total, workers);
    QuotientBound(total, workers);
    MulMonotone(partition, count - 1, workers);
    assert partition * workers == workers * partition;
    rs := BuildRanges(total, partition, count);
  }

  /** The range set-up of Module03/Vector_Addition/Pthread.cpp `main`:
      exactly `workers` ranges, the last absorbing the remainder. */
  method RangesLastAbsorbs(total: nat, workers: nat) returns (rs: seq<Range>)
    requires workers > 0
    ensures |rs| == workers
    ensures Tiles(rs, total)
    ensures forall i :: 0 <= i < |rs| - 1 ==> rs[i].Length() == total / workers
    ensures rs[|rs| - 1].Length() == total / workers + total % workers
  {
    var partition := total / workers;
    QuotientBound(total, workers);
    MulMonotone(partition, workers - 1, workers);
    assert partition * workers == workers * partition;
    rs := BuildRanges(total, partition, workers);
    MulSucc(partition, workers - 1);
  }

  /** The consumer quota of Traffic_SIM.cpp `consumer`: total / consumers readings each.
      The consumers together take everything exactly when consumers divides total;
      otherwise total % consumers readings are never taken. */
  function ConsumerQuota(total: nat, consumers: nat): (q: nat)
    requires consumers > 0
    ensures consumers * q <= total < consumers * (q + 1)
    ensures consumers * q == total <==> total % consumers == 0
    ensures total - consumers * q == total % consumers
  {
    QuotientBound(total, consumers);
    total / consumers
  }

  /** Rows per process and elements per scatter in Module03/Matrix_Multiplication/MPI_MM.cpp:
      the processes cover at most `size` rows, and when their number divides `size`
      a scatter carries exactly `partition` whole rows. */
  lemma ScatterCoversPartitionRows(size: nat, processes: nat)
    requires processes > 0
    ensures processes * (size / processes) <= size
    ensures size % processes == 0 ==> (size * size) / processes == (size / processes) * size
  {
    QuotientBound(size, processes);
    if size % processes == 0 {
      var p := size / processes;
      assert size == processes * p;
      MulAssoc(processes, p, size);
      assert size * size == processes * (p * size);
      DivExact(processes * (p * size), processes, p * size);
    }
  }

  lemma MulAssoc(a: int, b: int, c: int)
    ensures (a * b) * c == a * (b * c)
  {
  }

  lemma DivExact(x: int, d: int, q: int)
    requires d > 0 && x == d * q
    ensures x / d == q
  {
    var r := x / d;
    assert d * r + x % d == d * q;
    assert d * (q - r) == x % d by {
      assert d * (q - r) == d * q - d * r;
    }
    if q - r >= 1 {
      MulMonotone(d, 1, q - r);
      assert false;
    } else if r - q >= 1 {
      MulMonotone(d, 1, r - q);
      assert false;
    }
  }
}
