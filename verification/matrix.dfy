/** Integer matrix multiplication of Module02/Matrix_Multiplication (Sequential.cpp,
    pThread.cpp) and Module03/Matrix_Multiplication (Sequential_MM.cpp, MPI_MM.cpp).

    A C++ `int**` SIZE x SIZE matrix is a `seq<seq<int>>` of `n` rows of `n`
    entries; every kernel returns the matrix it would have written in place.
    The kernels accumulate (`result[i][j] += ...`), so what they produce is the
    product only when the result matrix starts at zero. */
module MatrixMultiply {

  import opened Partitions
  import opened CInt

  type Matrix = seq<seq<int>>

  predicate IsSquare<T>(m: seq<seq<T>>, n: int)
  {
    |m| == n && forall i :: 0 <= i < n ==> |m[i]| == n
  }

  /** Row i of `a` times column j of `b`, over the first k terms. */
  function Dot(a: Matrix, b: Matrix, n: int, i: int, j: int, k: int): int
    requires IsSquare(a, n) && IsSquare(b, n)
    requires 0 <= i < n && 0 <= j < n && 0 <= k <= n
  {
    if k == 0 then 0 else Dot(a, b, n, i, j, k - 1) + a[i][k - 1] * b[k - 1][j]
  }

  /** The mathematical product A x B, the reference the kernels are held to. */
  function Product(a: Matrix, b: Matrix, n: int): (p: Matrix)
    requires IsSquare(a, n) && IsSquare(b, n)
    ensures IsSquare(p, n)
  {
    seq(n, i requires 0 <= i < n => seq(n, j requires 0 <= j < n => Dot(a, b, n, i, j, n)))
  }

  predicate AllZero(m: Matrix, n: int)
    requires IsSquare(m, n)
  {
    forall i, j :: 0 <= i < n && 0 <= j < n ==> m[i][j] == 0
  }

  /** init_zero: every entry of the SIZE x SIZE matrix becomes 0. */
  method InitZero(m: Matrix, n: int) returns (z: Matrix)
    requires IsSquare(m, n)
    ensures IsSquare(z, n) && AllZero(z, n)
  {
    z := m;
    var i := 0;
    while i < n
      invariant 0 <= i <= n && IsSquare(z, n)
      invariant forall r, c :: 0 <= r < i && 0 <= c < n ==> z[r][c] == 0
    {
      var row := z[i];
      var j := 0;
      while j < n
        invariant 0 <= j <= n && |row| == n
        invariant forall c :: 0 <= c < j ==> row[c] == 0
      {
        row := row[j := 0];
        j := j + 1;
      }
      z := z[i := row];
      i := i + 1;
    }
  }

  /** random_matrix and `init_matrix(m, true)`: every entry becomes a random
      draw reduced modulo `modulus` (10 in Module02, 100 in Module03).  The
      C library's draws are the parameter `draws`, one per entry; rand and
      rand_r never return a negative number. */
  method RandomMatrix(m: Matrix, n: int, draws: seq<seq<nat>>, modulus: int) returns (r: Matrix)
    requires IsSquare(m, n) && IsSquare(draws, n) && modulus > 0
    ensures IsSquare(r, n)
    ensures forall i, j :: 0 <= i < n && 0 <= j < n ==> 0 <= r[i][j] < modulus
    ensures forall i, j :: 0 <= i < n && 0 <= j < n ==> r[i][j] == draws[i][j] % modulus
  {
    r := m;
    var i := 0;
    while i < n
      invariant 0 <= i <= n && IsSquare(r, n)
      invariant forall x, y :: 0 <= x < i && 0 <= y < n ==> r[x][y] == draws[x][y] % modulus
    {
      var row := r[i];
      var j := 0;
      while j < n
        invariant 0 <= j <= n && |row| == n
        invariant forall y :: 0 <= y < j ==> row[y] == draws[i][y] % modulus
      {
        row := row[j := draws[i][j] % modulus];
        j := j + 1;
      }
      r := r[i := row];
      i := i + 1;
    }
  }

  /** init_matrix of MPI_MM.cpp: the newly allocated `storage` is
      filled with draws modulo 100 when `fill` is set and left as it was
      otherwise. */
  method InitMatrix(storage: Matrix, n: int, fill: bool, draws: seq<seq<nat>>) returns (r: Matrix)
    requires IsSquare(storage, n) && (fill ==> IsSquare(draws, n))
    ensures IsSquare(r, n)
    ensures fill ==> forall i, j :: 0 <= i < n && 0 <= j < n ==> 0 <= r[i][j] < 100
    ensures !fill ==> r == storage
  {
    if fill {
      r := RandomMatrix(storage, n, draws, 100);
    } else {
      r := storage;
    }
  }

  /** The multiply loop over result rows [start, stop): the pthread body of
      pThread.cpp.  Each entry of those rows gets the dot product added to
      what it held; every other row is untouched.  The innermost `+=` runs
      through a local accumulator, which reads and writes the same entry. */
  method MultiplyRows(a: Matrix, b: Matrix, c: Matrix, n: int, start: int, stop: int) returns (r: Matrix)
    requires IsSquare(a, n) && IsSquare(b, n) && IsSquare(c, n)
    requires 0 <= start && stop <= n
    ensures IsSquare(r, n)
    ensures forall i, j :: start <= i < stop && 0 <= j < n ==> r[i][j] == c[i][j] + Dot(a, b, n, i, j, n)
    ensures forall i :: 0 <= i < n && !(start <= i < stop) ==> r[i] == c[i]
  {
    r := c;
    var i := start;
    while i < stop
      invariant start <= i <= if start <= stop then stop else start
      invariant IsSquare(r, n)
      invariant forall x, y :: start <= x < i && 0 <= y < n ==> r[x][y] == c[x][y] + Dot(a, b, n, x, y, n)
      invariant forall x :: 0 <= x < n && !(start <= x < i) ==> r[x] == c[x]
    {
      var row := r[i];
      var j := 0;
      while j < n
        invariant 0 <= j <= n && |row| == n
        invariant forall y :: 0 <= y < j ==> row[y] == c[i][y] + Dot(a, b, n, i, y, n)
        invariant forall y :: j <= y < n ==> row[y] == c[i][y]
      {
        var acc := row[j];
        var k := 0;
        while k < n
          invariant 0 <= k <= n
          invariant acc == c[i][j] + Dot(a, b, n, i, j, k)
        {
          acc := acc + a[i][k] * b[k][j];
          k := k + 1;
        }
        row := row[j := acc];
        j := j + 1;
      }
      r := r[i := row];
      i := i + 1;
    }
  }

  /** multiply_matrix of Sequential.cpp and Sequential_MM.cpp: every entry
      gets its dot product added. */
  method MultiplyMatrix(a: Matrix, b: Matrix, c: Matrix, n: int) returns (r: Matrix)
    requires IsSquare(a, n) && IsSquare(b, n) && IsSquare(c, n)
    ensures IsSquare(r, n)
    ensures forall i, j :: 0 <= i < n && 0 <= j < n ==> r[i][j] == c[i][j] + Product(a, b, n)[i][j]
  {
    r := MultiplyRows(a, b, c, n, 0, n);
  }

  /** multiply_matrix of MPI_MM.cpp: only the first `partition` rows get
      their dot products added; rows from `partition` on are untouched. */
  method MultiplyPartition(a: Matrix, b: Matrix, c: Matrix, n: int, partition: int) returns (r: Matrix)
    requires IsSquare(a, n) && IsSquare(b, n) && IsSquare(c, n)
    requires partition <= n
    ensures IsSquare(r, n)
    ensures forall i, j :: 0 <= i < partition && 0 <= j < n ==> r[i][j] == c[i][j] + Product(a, b, n)[i][j]
    ensures forall i :: 0 <= i < n && partition <= i ==> r[i] == c[i]
  {
    r := MultiplyRows(a, b, c, n, 0, partition);
  }

  /** The `main` of Sequential.cpp and Sequential_MM.cpp: init_zero on the
      result, then multiply_matrix, gives exactly A x B whatever the result
      storage held before. */
  method ZeroThenMultiply(a: Matrix, b: Matrix, n: int, storage: Matrix) returns (r: Matrix)
    requires IsSquare(a, n) && IsSquare(b, n) && IsSquare(storage, n)
    ensures r == Product(a, b, n)
  {
    var z := InitZero(storage, n);
    r := MultiplyMatrix(a, b, z, n);
    ProductExt(a, b, n, r);
  }

  /** A matrix whose every entry is the dot product is the product. */
  lemma ProductExt(a: Matrix, b: Matrix, n: int, r: Matrix)
    requires IsSquare(a, n) && IsSquare(b, n) && IsSquare(r, n)
    requires forall i, j :: 0 <= i < n && 0 <= j < n ==> r[i][j] == Product(a, b, n)[i][j]
    ensures r == Product(a, b, n)
  {
    var p := Product(a, b, n);
    forall i | 0 <= i < n
      ensures r[i] == p[i]
    {
      assert |r[i]| == |p[i]| == n;
    }
  }

  // ------------------------------------------------------ pthread set-up

  /** Range `order[s]` has been run for some s < t, so row x is finished. */
  ghost predicate Done(rs: seq<Range>, order: seq<nat>, t: int, x: int)
    requires 0 <= t <= |order|
    requires forall s :: 0 <= s < |order| ==> order[s] < |rs|
  {
    exists s :: 0 <= s < t && rs[order[s]].Contains(x)
  }

  /** The `main` of pThread.cpp: the result is zeroed, the rows are cut into
      thread ranges (one extra thread for a remainder), and each thread body
      runs on its range.  The bodies write disjoint rows, so running them one
      after another in ANY order (`order`, a permutation of the thread
      numbers) yields exactly A x B. */
  method PthreadMultiply(a: Matrix, b: Matrix, n: nat, threads: nat, storage: Matrix, order: seq<nat>)
    returns (rs: seq<Range>, r: Matrix)
    requires IsSquare(a, n) && IsSquare(b, n) && IsSquare(storage, n)
    requires threads > 0
    requires forall s :: 0 <= s < |order| ==> order[s] < WorkerCount(n, threads)
    requires forall s, u :: 0 <= s < u < |order| ==> order[s] != order[u]
    requires forall k :: 0 <= k < WorkerCount(n, threads) ==> k in order
    ensures |rs| == WorkerCount(n, threads) && Tiles(rs, n)
    ensures r == Product(a, b, n)
  {
    r := InitZero(storage, n);
    rs := RangesWithExtraWorker(n, threads);
    var t := 0;
    while t < |order|
      invariant 0 <= t <= |order| && IsSquare(r, n)
      invariant RowsDone(a, b, n, rs, order, t, r)
    {
      r := RunThread(a, b, n, rs, order, t, r);
      t := t + 1;
    }
    AllDone(rs, n, order);
    FinishedIsProduct(a, b, n, rs, order, r);
  }

  /** When every row is finished, the result is the product. */
  lemma FinishedIsProduct(a: Matrix, b: Matrix, n: nat, rs: seq<Range>, order: seq<nat>, r: Matrix)
    requires IsSquare(a, n) && IsSquare(b, n) && IsSquare(r, n)
    requires forall s :: 0 <= s < |order| ==> order[s] < |rs|
    requires RowsDone(a, b, n, rs, order, |order|, r)
    requires forall x :: 0 <= x < n ==> Done(rs, order, |order|, x)
    ensures r == Product(a, b, n)
  {
    var p := Product(a, b, n);
    forall i, j | 0 <= i < n && 0 <= j < n
      ensures r[i][j] == p[i][j]
    {
      assert Done(rs, order, |order|, i);
    }
    ProductExt(a, b, n, r);
  }

  /** After the first t threads of `order`: their rows hold the dot
      products, every other row is still zero. */
  ghost predicate RowsDone(a: Matrix, b: Matrix, n: nat, rs: seq<Range>, order: seq<nat>, t: int, r: Matrix)
    requires IsSquare(a, n) && IsSquare(b, n) && IsSquare(r, n)
    requires 0 <= t <= |order|
    requires forall s :: 0 <= s < |order| ==> order[s] < |rs|
  {
    && (forall x, y :: 0 <= x < n && 0 <= y < n && Done(rs, order, t, x) ==> r[x][y] == Dot(a, b, n, x, y, n))
    && (forall x, y :: 0 <= x < n && 0 <= y < n && !Done(rs, order, t, x) ==> r[x][y] == 0)
  }

  /** The thread `order[t]` runs its body on its own range. */
  method RunThread(a: Matrix, b: Matrix, n: nat, rs: seq<Range>, order: seq<nat>, t: int, r: Matrix) returns (r': Matrix)
    requires IsSquare(a, n) && IsSquare(b, n) && IsSquare(r, n)
    requires Tiles(rs, n)
    requires 0 <= t < |order|
    requires forall s :: 0 <= s < |order| ==> order[s] < |rs|
    requires forall s, u :: 0 <= s < u < |order| ==> order[s] != order[u]
    requires RowsDone(a, b, n, rs, order, t, r)
    ensures IsSquare(r', n)
    ensures RowsDone(a, b, n, rs, order, t + 1, r')
  {
    var range := rs[order[t]];
    TilesWithin(rs, n, order[t]);
    r' := MultiplyRows(a, b, r, n, range.start, range.stop);
    forall x | 0 <= x < n
      ensures Done(rs, order, t + 1, x) <==> Done(rs, order, t, x) || range.Contains(x)
      ensures range.Contains(x) ==> !Done(rs, order, t, x)
    {
      if range.Contains(x) && Done(rs, order, t, x) {
        var s :| 0 <= s < t && rs[order[s]].Contains(x);
        ExactlyOneRange(rs, n, x, order[s], order[t]);
        assert false;
      }
    }
  }

  /** Once every thread has run, every row is finished. */
  lemma AllDone(rs: seq<Range>, n: nat, order: seq<nat>)
    requires Tiles(rs, n)
    requires forall s :: 0 <= s < |order| ==> order[s] < |rs|
    requires forall k :: 0 <= k < |rs| ==> k in order
    ensures forall x :: 0 <= x < n ==> Done(rs, order, |order|, x)
  {
    forall x | 0 <= x < n
      ensures Done(rs, order, |order|, x)
    {
      TilesCover(rs, n, x);
      var k :| 0 <= k < |rs| && rs[k].Contains(x);
      assert k in order;
      var s :| 0 <= s < |order| && order[s] == k;
    }
  }

  // --------------------------------------------------- MPI result storage

  /** The node side of MPI_MM.cpp as written: `init_matrix(result_m, false)`
      leaves the result storage as allocated and no init_zero follows, so
      the rows the node computes are the product rows plus whatever the
      storage held. */
  method MpiNodeAsWritten(a: Matrix, b: Matrix, n: int, partition: int, storage: Matrix) returns (r: Matrix)
    requires IsSquare(a, n) && IsSquare(b, n) && IsSquare(storage, n)
    requires partition <= n
    ensures IsSquare(r, n)
    ensures forall i, j :: 0 <= i < partition && 0 <= j < n ==> r[i][j] == storage[i][j] + Product(a, b, n)[i][j]
  {
    var c := InitMatrix(storage, n, false, []);
    r := MultiplyPartition(a, b, c, n, partition);
  }

  /** One node, one row: storage that happened to hold 5 makes 1 x 1 come out as 6. */
  method MpiNodeWitness() returns (r: Matrix)
    ensures r == [[6]] && r != Product([[1]], [[1]], 1)
  {
    r := MpiNodeAsWritten([[1]], [[1]], 1, 1, [[5]]);
    assert Dot([[1]], [[1]], 1, 0, 0, 1) == 1;
    assert r[0][0] == 6;
    assert r[0] == [6];
  }

  /** The node side with the result storage zeroed first, as the
      sequential programs do: the computed rows are exactly the product rows. */
  method MpiNodeZeroed(a: Matrix, b: Matrix, n: int, partition: int, storage: Matrix) returns (r: Matrix)
    requires IsSquare(a, n) && IsSquare(b, n) && IsSquare(storage, n)
    requires partition <= n
    ensures IsSquare(r, n)
    ensures forall i :: 0 <= i < partition ==> r[i] == Product(a, b, n)[i]
    ensures forall i, j :: 0 <= i < n && partition <= i && 0 <= j < n ==> r[i][j] == 0
  {
    var c := InitMatrix(storage, n, false, []);
    c := InitZero(c, n);
    r := MultiplyPartition(a, b, c, n, partition);
    forall i | 0 <= i < partition
      ensures r[i] == Product(a, b, n)[i]
    {
      assert |r[i]| == |Product(a, b, n)[i]| == n;
    }
  }

  // ---------------------------------------------------------------- overflow

  lemma ProductBound(x: int, y: int, m: int)
    requires 0 <= x < m && 0 <= y < m
    ensures 0 <= x * y <= (m - 1) * (m - 1)
  {
    MulMonotone(x, y, m - 1);
    MulMonotone(m - 1, x, m - 1);
  }

  /** With every entry in [0, m), each partial dot product lies in
      [0, k * (m-1)^2]. */
  lemma {:induction false} DotBound(a: Matrix, b: Matrix, n: int, i: int, j: int, k: int, m: int)
    requires IsSquare(a, n) && IsSquare(b, n)
    requires 0 <= i < n && 0 <= j < n && 0 <= k <= n
    requires forall x, y :: 0 <= x < n && 0 <= y < n ==> 0 <= a[x][y] < m && 0 <= b[x][y] < m
    ensures 0 <= Dot(a, b, n, i, j, k) <= (m - 1) * (m - 1) * k
  {
    if k > 0 {
      DotBound(a, b, n, i, j, k - 1, m);
      ProductBound(a[i][k - 1], b[k - 1][j], m);
      MulSucc((m - 1) * (m - 1), k - 1);
    }
  }

  /** Module02 (SIZE 1000, entries rand % 10): every partial sum the kernel
      forms, and so every result entry, is at most 81000 and fits an int. */
  lemma NoOverflowSize1000(a: Matrix, b: Matrix, i: int, j: int, k: int)
    requires IsSquare(a, 1000) && IsSquare(b, 1000)
    requires 0 <= i < 1000 && 0 <= j < 1000 && 0 <= k <= 1000
    requires forall x, y :: 0 <= x < 1000 && 0 <= y < 1000 ==> 0 <= a[x][y] < 10 && 0 <= b[x][y] < 10
    ensures 0 <= Dot(a, b, 1000, i, j, k) <= 81000 <= IntMax
  {
    DotBound(a, b, 1000, i, j, k, 10);
    MulMonotone(81, k, 1000);
  }

  /** Module03 (SIZE 1200, entries rand % 100): every partial sum is at
      most 11,761,200, well inside int. */
  lemma NoOverflowSize1200(a: Matrix, b: Matrix, i: int, j: int, k: int)
    requires IsSquare(a, 1200) && IsSquare(b, 1200)
    requires 0 <= i < 1200 && 0 <= j < 1200 && 0 <= k <= 1200
    requires forall x, y :: 0 <= x < 1200 && 0 <= y < 1200 ==> 0 <= a[x][y] < 100 && 0 <= b[x][y] < 100
    ensures 0 <= Dot(a, b, 1200, i, j, k) <= 11761200 <= IntMax
  {
    DotBound(a, b, 1200, i, j, k, 100);
    MulMonotone(9801, k, 1200);
  }

}
