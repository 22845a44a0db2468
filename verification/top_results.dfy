/** The per-hour "top 3 congested lights" table of Traffic_SIM.cpp.

    `result_m` has NUM_RESULTS * NUM_HOURS rows, three per hour bucket, each
    row `[day, time, light, count]`.  The source stores pointers to rows of
    the data matrix; those rows are never written after they are read, so a
    row copy is the same thing.  Within a bucket the update keeps the largest
    count in the LAST row of the bucket, and does not keep the other two in
    order. */
module TopResults {

  import opened Optional

  /** NUM_HOURS and NUM_RESULTS of Traffic_SIM.cpp; the update hard-codes
      three rows per bucket, so NumResults cannot change. */
  const NumHours: nat := 5
  const NumResults: nat := 3
  const TableSize: nat := NumResults * NumHours
  /** The hour of the first bucket: the generated data starts at 06:00. */
  const FirstHour: int := 6

  datatype Row = Row(day: int, time: int, light: int, count: int)

  type Table = seq<Row>

  /** C++ integer division by 100, which truncates toward zero. */
  function Div100(x: int): (q: int)
    ensures x >= 0 ==> q * 100 <= x < q * 100 + 100
    ensures x < 0 ==> q * 100 - 100 < x <= q * 100
  {
    if x >= 0 then x / 100 else -((-x) / 100)
  }

  /** The hour of a reading, `time / 100` of its HHMM time. */
  function HourOf(r: Row): int
  {
    Div100(r.time)
  }

  predicate ValidHour(h: int)
  {
    FirstHour <= h < FirstHour + NumHours
  }

  /** First row of the bucket of hour h. */
  function BucketBase(h: int): int
  {
    (h - FirstHour) * NumResults
  }

  /** The row `record_results` compares against: row time in the same hour,
      or a placeholder whose time is the hour itself. */
  predicate Matches(row: Row, h: int)
  {
    Div100(row.time) == h || row.time == h
  }

  /** The placeholder row `prep_result_m` writes for bucket b. */
  function Placeholder(b: int): Row
  {
    Row(0, FirstHour + b, 0, 0)
  }

  /** The table right after `prep_result_m`. */
  ghost function InitialTable(): Table
  {
    seq(TableSize, i => Placeholder(i / NumResults))
  }

  /** `prep_result_m` (Traffic_SIM.cpp:205-232): zero every column of every
      row, then stamp hour 6 + b into the time column of rows 3b .. 3b+2. */
  method PrepResult(garbage: Table) returns (t: Table)
    requires |garbage| == TableSize
    ensures |t| == TableSize
    ensures forall i :: 0 <= i < TableSize ==>
      t[i].day == 0 && t[i].light == 0 && t[i].count == 0 && t[i].time == FirstHour + i / NumResults
    ensures t == InitialTable()
  {
    t := garbage;
    var i := 0;
    while i < TableSize
      invariant 0 <= i <= TableSize && |t| == TableSize
      invariant forall k :: 0 <= k < i ==> t[k] == Row(0, 0, 0, 0)
    {
      t := t[i := Row(0, 0, 0, 0)];
      i := i + 1;
    }
    var time := FirstHour;
    i := 0;
    while i < TableSize
      invariant 0 <= i <= TableSize && |t| == TableSize
      invariant time == FirstHour + (if i < NumHours then i else NumHours)
      invariant forall k :: 0 <= k < TableSize && k / NumResults < i ==> t[k] == Placeholder(k / NumResults)
      invariant forall k :: 0 <= k < TableSize && k / NumResults >= i ==> t[k] == Row(0, 0, 0, 0)
    {
      if i < NumHours {
        var idx := i * NumResults;
        var k := 0;
        while k < NumResults
          invariant 0 <= k <= NumResults && |t| == TableSize
          invariant idx == i * NumResults + k
          invariant forall m :: 0 <= m < TableSize && m / NumResults < i ==> t[m] == Placeholder(m / NumResults)
          invariant forall m :: i * NumResults <= m < idx ==> t[m] == Placeholder(i)
          invariant forall m :: idx <= m < TableSize && m / NumResults >= i ==> t[m] == Row(0, 0, 0, 0)
        {
          t := t[idx := t[idx].(time := time)];
          idx := idx + 1;
          k := k + 1;
        }
        time := time + 1;
      }
      i := i + 1;
    }
  }

  /** `insert_row` (Traffic_SIM.cpp:309-336), literally.  `indx` is the row
      that matched; `i` is the last row of the bucket of `hour`.  A matched
      placeholder is overwritten in place; otherwise the reading is ranked
      against the last, middle and first rows of the bucket in that order. */
  function InsertRow(t: Table, r: Row, hour: int, indx: int, value: int): (t': Table)
    requires |t| == TableSize && 0 <= indx < TableSize && ValidHour(hour)
    ensures |t'| == TableSize
    ensures forall j :: 0 <= j < TableSize && j != indx && !(BucketBase(hour) <= j < BucketBase(hour) + NumResults) ==>
      t'[j] == t[j]
    ensures forall j :: 0 <= j < TableSize ==>
      (t'[j] == t[j] || t'[j] == r || (BucketBase(hour) <= j < BucketBase(hour) + NumResults - 1 && t'[j] == t[j + 1]))
  {
    var i := BucketBase(hour) + 2;
    if t[indx].count == 0 then
      t[indx := r]
    else if value > t[i].count then
      t[i - 2 := t[i - 1]][i - 1 := t[i]][i := r]
    else if value > t[i - 1].count && value != t[i].count then
      t[i - 2 := t[i - 1]][i - 1 := r]
    else if value > t[i - 2].count && value != t[i - 1].count then
      t[i - 2 := r]
    else
      t
  }

  /** One iteration of the scan in `record_results` (Traffic_SIM.cpp:346-352). */
  function ScanRow(t: Table, r: Row, h: int, i: int): (t': Table)
    requires |t| == TableSize && 0 <= i < TableSize && ValidHour(h)
    ensures |t'| == TableSize
  {
    if Matches(t[i], h) && r.count > t[i].count then InsertRow(t, r, h, i, r.count) else t
  }

  /** The scan of `record_results` from row i on; it keeps scanning after an
      insertion, and later rows see the updated table. */
  function RecordFrom(t: Table, r: Row, h: int, i: nat): (t': Table)
    requires |t| == TableSize && ValidHour(h)
    ensures |t'| == TableSize
    decreases TableSize - i
  {
    if i >= TableSize then t else RecordFrom(ScanRow(t, r, h, i), r, h, i + 1)
  }

  /** `record_results` (Traffic_SIM.cpp:339-354) for one reading.  The source
      indexes outside the table unless the reading's hour has a bucket. */
  function RecordResults(t: Table, r: Row): (t': Table)
    requires |t| == TableSize && ValidHour(HourOf(r))
    ensures |t'| == TableSize
  {
    RecordFrom(t, r, HourOf(r), 0)
  }

  /** One scan step of `record_results` for a reading of ANY hour.  A
      matching row with count 0 is overwritten in place, which `insert_row`
      does before it looks at the bucket; otherwise `insert_row` reads row
      (hour - 6) * 3 + 2, which lies outside `result_m` unless the hour has a
      bucket: None. */
  function ScanAny(t: Table, r: Row, h: int, i: int): (t': Option<Table>)
    requires |t| == TableSize && 0 <= i < TableSize
    ensures t'.Some? ==> |t'.value| == TableSize
    ensures t'.None? <==> Matches(t[i], h) && r.count > t[i].count && t[i].count != 0 && !ValidHour(h)
  {
    if !(Matches(t[i], h) && r.count > t[i].count) then Some(t)
    else if t[i].count == 0 then Some(t[i := r])
    else if ValidHour(h) then Some(InsertRow(t, r, h, i, r.count))
    else None
  }

  /** The scan of `record_results` from row i on, for a reading of any hour;
      None once a step would index outside the table. */
  function RecordFromAny(t: Table, r: Row, h: int, i: nat): Option<Table>
    requires |t| == TableSize
    decreases TableSize - i
  {
    if i >= TableSize then Some(t)
    else
      var t1 := ScanAny(t, r, h, i);
      if t1.None? then None else RecordFromAny(t1.value, r, h, i + 1)
  }

  /** `record_results` (Traffic_SIM.cpp:339-354) for one reading of any hour. */
  function RecordAny(t: Table, r: Row): Option<Table>
    requires |t| == TableSize
  {
    RecordFromAny(t, r, HourOf(r), 0)
  }

  /** For an hour with a bucket the general scan is `RecordResults`. */
  lemma {:induction false} RecordFromAnyValid(t: Table, r: Row, h: int, i: nat)
    requires |t| == TableSize && ValidHour(h)
    ensures RecordFromAny(t, r, h, i) == Some(RecordFrom(t, r, h, i))
    decreases TableSize - i
  {
    if i < TableSize {
      assert ScanAny(t, r, h, i) == Some(ScanRow(t, r, h, i));
      RecordFromAnyValid(ScanRow(t, r, h, i), r, h, i + 1);
    }
  }

  lemma RecordAnyValid(t: Table, r: Row)
    requires |t| == TableSize && ValidHour(HourOf(r))
    ensures RecordAny(t, r) == Some(RecordResults(t, r))
  {
    RecordFromAnyValid(t, r, HourOf(r), 0);
  }

  /** A scan that finds no matching row leaves the table as it is. */
  lemma {:induction false} NoMatchUnchanged(t: Table, r: Row, h: int, i: nat)
    requires |t| == TableSize
    requires forall j :: i <= j < TableSize ==> !Matches(t[j], h)
    ensures RecordFromAny(t, r, h, i) == Some(t)
    decreases TableSize - i
  {
    if i < TableSize {
      NoMatchUnchanged(t, r, h, i + 1);
    }
  }

  /** On a well-formed table a reading of an hour without a bucket is
      ignored, unless the hour is 0 (it matches the placeholders, whose
      times 6..10 are below 100) or a four-digit number 600..1099 that can
      equal a stored reading's time. */
  lemma OtherHourIgnored(t: Table, r: Row)
    requires WellFormed(t)
    requires HourOf(r) != 0 && !ValidHour(HourOf(r))
    requires !(FirstHour * 100 <= HourOf(r) < (FirstHour + NumHours) * 100)
    ensures RecordAny(t, r) == Some(t)
  {
    var h := HourOf(r);
    forall j | 0 <= j < TableSize
      ensures !Matches(t[j], h)
    {
      var b := j / NumResults;
      assert BucketOk(t, b);
      assert j == b * NumResults || j == b * NumResults + 1 || j == b * NumResults + 2;
    }
    NoMatchUnchanged(t, r, h, 0);
  }

  /** Rows i.. are still the placeholders `prep_result_m` wrote. */
  ghost predicate PlaceholdersFrom(t: Table, i: int)
    requires |t| == TableSize
  {
    forall j :: 0 <= i <= j < TableSize ==> t[j] == Placeholder(j / NumResults)
  }

  /** An hour-0 reading with a positive count, scanned over placeholders,
      overwrites every one of them: their times 6..10 give 0 when divided by
      100. */
  lemma {:induction false} HourZeroFills(t: Table, r: Row, i: nat)
    requires |t| == TableSize && i <= TableSize
    requires HourOf(r) == 0 && r.count > 0
    requires forall j :: 0 <= j < i ==> t[j] == r
    requires PlaceholdersFrom(t, i)
    ensures RecordFromAny(t, r, 0, i) == Some(seq(TableSize, _ => r))
    decreases TableSize - i
  {
    if i < TableSize {
      assert t[i] == Placeholder(i / NumResults);
      assert ScanAny(t, r, 0, i) == Some(t[i := r]);
      HourZeroFills(t[i := r], r, i + 1);
    } else {
      assert t == seq(TableSize, _ => r);
    }
  }

  /** Hour 0 as written: the first positive reading replaces the whole table
      with itself, and a larger second one sends `insert_row` to row
      (0 - 6) * 3 + 2 = -16, outside `result_m`. */
  lemma HourZeroBreaksTable(r1: Row, r2: Row)
    requires HourOf(r1) == 0 && HourOf(r2) == 0 && 0 < r1.count < r2.count
    ensures RecordAny(InitialTable(), r1) == Some(seq(TableSize, _ => r1))
    ensures RecordAny(seq(TableSize, _ => r1), r2).None?
  {
    HourZeroFills(InitialTable(), r1, 0);
    var t1 := seq(TableSize, _ => r1);
    assert ScanAny(t1, r2, 0, 0).None?;
  }

  /** Row b's bucket is still three placeholders, or holds three copies of
      readings of hour 6 + b with positive counts, the largest in the last row. */
  ghost predicate BucketOk(t: Table, b: int)
    requires |t| == TableSize && 0 <= b < NumHours
  {
    var i := b * NumResults;
    || (t[i].count == 0 && t[i].time == FirstHour + b
        && t[i + 1].count == 0 && t[i + 1].time == FirstHour + b
        && t[i + 2].count == 0 && t[i + 2].time == FirstHour + b)
    || (t[i].count > 0 && HourOf(t[i]) == FirstHour + b
        && t[i + 1].count > 0 && HourOf(t[i + 1]) == FirstHour + b
        && t[i + 2].count > 0 && HourOf(t[i + 2]) == FirstHour + b
        && t[i + 2].count >= t[i].count && t[i + 2].count >= t[i + 1].count)
  }

  /** The invariant the consumers keep on the table. */
  ghost predicate WellFormed(t: Table)
  {
    |t| == TableSize && forall b :: 0 <= b < NumHours ==> BucketOk(t, b)
  }

  /** The largest count held in bucket b: its last row. */
  function Top(t: Table, b: int): int
    requires |t| == TableSize && 0 <= b < NumHours
  {
    t[b * NumResults + 2].count
  }

  lemma InitialWellFormed()
    ensures WellFormed(InitialTable())
  {
    var t := InitialTable();
    forall b | 0 <= b < NumHours
      ensures BucketOk(t, b)
    {
      var i := b * NumResults;
      assert i / NumResults == b && (i + 1) / NumResults == b && (i + 2) / NumResults == b;
    }
  }

  /** Rows outside the bucket of a valid hour never match it. */
  lemma OtherBucketsDontMatch(t: Table, h: int, j: int)
    requires WellFormed(t) && ValidHour(h)
    requires 0 <= j < TableSize && j / NumResults != h - FirstHour
    ensures !Matches(t[j], h)
  {
    var b := j / NumResults;
    assert BucketOk(t, b);
    assert j == b * NumResults || j == b * NumResults + 1 || j == b * NumResults + 2;
  }

  /** Non-matching rows are passed over by the scan. */
  lemma {:induction false} SkipRows(t: Table, r: Row, h: int, i: nat, k: nat)
    requires |t| == TableSize && ValidHour(h)
    requires i <= k <= TableSize
    requires forall j :: i <= j < k ==> !Matches(t[j], h)
    ensures RecordFrom(t, r, h, i) == RecordFrom(t, r, h, k)
    decreases k - i
  {
    if i < k {
      SkipRows(t, r, h, i + 1, k);
    }
  }

  /** The three scan steps over the reading's own bucket. */
  function BucketUpdate(t: Table, r: Row): (t': Table)
    requires |t| == TableSize && ValidHour(HourOf(r))
    ensures |t'| == TableSize
  {
    var h := HourOf(r);
    var i := BucketBase(h);
    ScanRow(ScanRow(ScanRow(t, r, h, i), r, h, i + 1), r, h, i + 2)
  }

  lemma BucketUpdateFrame(t: Table, r: Row, j: int)
    requires |t| == TableSize && ValidHour(HourOf(r))
    requires 0 <= j < TableSize && j / NumResults != HourOf(r) - FirstHour
    ensures BucketUpdate(t, r)[j] == t[j]
  {
    var i := BucketBase(HourOf(r));
    assert !(i <= j < i + NumResults);
  }

  /** On a well-formed table, `record_results` only ever touches the
      reading's own bucket. */
  lemma RecordIsBucketUpdate(t: Table, r: Row)
    requires WellFormed(t) && ValidHour(HourOf(r))
    ensures RecordResults(t, r) == BucketUpdate(t, r)
  {
    PrefixSkipped(t, r);
    ThroughBucket(t, r);
    SuffixSkipped(t, r);
  }

  /** The rows before the reading's bucket do not match it. */
  lemma PrefixSkipped(t: Table, r: Row)
    requires WellFormed(t) && ValidHour(HourOf(r))
    ensures RecordResults(t, r) == RecordFrom(t, r, HourOf(r), BucketBase(HourOf(r)))
  {
    var h := HourOf(r);
    var i := BucketBase(h);
    forall j | 0 <= j < i
      ensures !Matches(t[j], h)
    {
      OtherBucketsDontMatch(t, h, j);
    }
    SkipRows(t, r, h, 0, i);
  }

  /** Scanning the bucket's three rows is `BucketUpdate`. */
  lemma ThroughBucket(t: Table, r: Row)
    requires |t| == TableSize && ValidHour(HourOf(r))
    ensures RecordFrom(t, r, HourOf(r), BucketBase(HourOf(r)))
      == RecordFrom(BucketUpdate(t, r), r, HourOf(r), BucketBase(HourOf(r)) + NumResults)
  {
    var h := HourOf(r);
    var i := BucketBase(h);
    var t1 := ScanRow(t, r, h, i);
    var t2 := ScanRow(t1, r, h, i + 1);
    assert RecordFrom(t, r, h, i) == RecordFrom(t1, r, h, i + 1);
    assert RecordFrom(t1, r, h, i + 1) == RecordFrom(t2, r, h, i + 2);
  }

  /** The rows after the reading's bucket do not match it, even once the
      bucket is updated. */
  lemma SuffixSkipped(t: Table, r: Row)
    requires WellFormed(t) && ValidHour(HourOf(r))
    ensures RecordFrom(BucketUpdate(t, r), r, HourOf(r), BucketBase(HourOf(r)) + NumResults) == BucketUpdate(t, r)
  {
    var h := HourOf(r);
    var i := BucketBase(h);
    var t3 := BucketUpdate(t, r);
    forall j | i + NumResults <= j < TableSize
      ensures !Matches(t3[j], h)
    {
      BucketUpdateFrame(t, r, j);
      OtherBucketsDontMatch(t, h, j);
    }
    SkipRows(t3, r, h, i + NumResults, TableSize);
  }

  function Max(a: int, b: int): int
  {
    if a >= b then a else b
  }

  /** One reading, on a well-formed table: the table stays well-formed, no
      other bucket changes, the last row of the reading's bucket ends up
      holding the larger of its old count and the reading's count (the
      reading itself when that is larger), and a reading whose count exceeds
      no row of its bucket (in particular a count of 0) changes nothing. */
  lemma BucketStep(t: Table, r: Row)
    requires WellFormed(t) && ValidHour(HourOf(r))
    ensures var t' := BucketUpdate(t, r); var b := HourOf(r) - FirstHour;
      && WellFormed(t')
      && (forall j :: 0 <= j < TableSize && j / NumResults != b ==> t'[j] == t[j])
      && Top(t', b) == Max(Top(t, b), r.count)
      && (r.count > Top(t, b) ==> t'[b * NumResults + 2] == r)
      && ((forall j :: b * NumResults <= j < b * NumResults + NumResults ==> r.count <= t[j].count) ==> t' == t)
  {
    var t' := BucketUpdate(t, r);
    var b := HourOf(r) - FirstHour;
    forall j | 0 <= j < TableSize && j / NumResults != b
      ensures t'[j] == t[j]
    {
      BucketUpdateFrame(t, r, j);
    }
    forall c | 0 <= c < NumHours
      ensures BucketOk(t', c)
    {
      if c != b {
        OtherBucketKept(t, r, c);
      } else {
        BucketCases(t, r);
      }
    }
    BucketCases(t, r);
  }

  /** A bucket the reading does not belong to keeps its invariant. */
  lemma OtherBucketKept(t: Table, r: Row, c: int)
    requires WellFormed(t) && ValidHour(HourOf(r))
    requires 0 <= c < NumHours && c != HourOf(r) - FirstHour
    ensures BucketOk(BucketUpdate(t, r), c)
  {
    var k := c * NumResults;
    assert BucketOk(t, c);
    assert k / NumResults == c && (k + 1) / NumResults == c && (k + 2) / NumResults == c;
    BucketUpdateFrame(t, r, k);
    BucketUpdateFrame(t, r, k + 1);
    BucketUpdateFrame(t, r, k + 2);
  }

  /** The case analysis of `BucketStep` on the three rows of the bucket. */
  lemma BucketCases(t: Table, r: Row)
    requires WellFormed(t) && ValidHour(HourOf(r))
    ensures var t' := BucketUpdate(t, r); var b := HourOf(r) - FirstHour;
      && BucketOk(t', b)
      && Top(t', b) == Max(Top(t, b), r.count)
      && (r.count > Top(t, b) ==> t'[b * NumResults + 2] == r)
      && ((forall j :: b * NumResults <= j < b * NumResults + NumResults ==> r.count <= t[j].count) ==> t' == t)
  {
    var h := HourOf(r);
    var b := h - FirstHour;
    var i := b * NumResults;
    assert BucketOk(t, b);
    var t1 := ScanRow(t, r, h, i);
    var t2 := ScanRow(t1, r, h, i + 1);
    var t3 := ScanRow(t2, r, h, i + 2);
    assert BucketUpdate(t, r) == t3;
    if t[i].count == 0 {
      // three placeholders: a positive reading fills all three of them
      assert Matches(t[i], h) && Matches(t[i + 1], h) && Matches(t[i + 2], h);
      if r.count > 0 {
        assert t1 == t[i := r];
        assert t2 == t1[i + 1 := r];
        assert t3 == t2[i + 2 := r];
      } else {
        assert t3 == t;
      }
    } else {
      assert Matches(t[i], h) && Matches(t[i + 1], h) && Matches(t[i + 2], h);
      assert HourOf(r) == h;
      FilledCases(t, r);
    }
  }

  /** A bucket already holding three readings. */
  lemma FilledCases(t: Table, r: Row)
    requires WellFormed(t) && ValidHour(HourOf(r))
    requires t[BucketBase(HourOf(r))].count != 0
    ensures var t' := BucketUpdate(t, r); var b := HourOf(r) - FirstHour;
      && BucketOk(t', b)
      && Top(t', b) == Max(Top(t, b), r.count)
      && (r.count > Top(t, b) ==> t'[b * NumResults + 2] == r)
      && ((forall j :: b * NumResults <= j < b * NumResults + NumResults ==> r.count <= t[j].count) ==> t' == t)
  {
    if r.count > Top(t, HourOf(r) - FirstHour) {
      FilledAbove(t, r);
    } else {
      FilledBelow(t, r);
    }
  }

  /** A reading above the bucket's top: the first scan step shifts the bucket
      down and puts the reading last, the second puts it first as well. */
  lemma FilledAbove(t: Table, r: Row)
    requires WellFormed(t) && ValidHour(HourOf(r))
    requires t[BucketBase(HourOf(r))].count != 0
    requires r.count > Top(t, HourOf(r) - FirstHour)
    ensures var t' := BucketUpdate(t, r); var b := HourOf(r) - FirstHour;
      && BucketOk(t', b)
      && Top(t', b) == Max(Top(t, b), r.count)
      && (r.count > Top(t, b) ==> t'[b * NumResults + 2] == r)
      && ((forall j :: b * NumResults <= j < b * NumResults + NumResults ==> r.count <= t[j].count) ==> t' == t)
  {
    var h := HourOf(r);
    var b := h - FirstHour;
    var i := b * NumResults;
    assert BucketOk(t, b);
    var t1 := ScanRow(t, r, h, i);
    var t2 := ScanRow(t1, r, h, i + 1);
    var t3 := ScanRow(t2, r, h, i + 2);
    assert BucketUpdate(t, r) == t3;
    assert t1 == t[i := t[i + 1]][i + 1 := t[i + 2]][i + 2 := r];
    assert t2 == t1[i := r];
    assert t3 == t2;
  }

  /** A reading not above the bucket's top leaves the last row alone. */
  lemma FilledBelow(t: Table, r: Row)
    requires WellFormed(t) && ValidHour(HourOf(r))
    requires t[BucketBase(HourOf(r))].count != 0
    requires r.count <= Top(t, HourOf(r) - FirstHour)
    ensures var t' := BucketUpdate(t, r); var b := HourOf(r) - FirstHour;
      && BucketOk(t', b)
      && Top(t', b) == Max(Top(t, b), r.count)
      && (r.count > Top(t, b) ==> t'[b * NumResults + 2] == r)
      && ((forall j :: b * NumResults <= j < b * NumResults + NumResults ==> r.count <= t[j].count) ==> t' == t)
  {
    var h := HourOf(r);
    var b := h - FirstHour;
    var i := b * NumResults;
    assert BucketOk(t, b);
    var t1 := ScanRow(t, r, h, i);
    var t2 := ScanRow(t1, r, h, i + 1);
    var t3 := ScanRow(t2, r, h, i + 2);
    assert BucketUpdate(t, r) == t3;
    assert t1[i + 2] == t[i + 2];
    assert t1[i].count > 0 && t1[i + 1].count > 0;
    assert HourOf(t1[i]) == h && HourOf(t1[i + 1]) == h;
    assert t2[i + 2] == t[i + 2];
    assert t2[i].count > 0 && t2[i + 1].count > 0;
    assert HourOf(t2[i]) == h && HourOf(t2[i + 1]) == h;
    assert t2[i + 2].count >= t2[i].count && t2[i + 2].count >= t2[i + 1].count;
    assert t3 == t2;
  }

  /** The readings the consumers have folded in, applied in order. */
  function RecordAll(t: Table, rs: seq<Row>): (t': Table)
    requires |t| == TableSize
    requires forall k :: 0 <= k < |rs| ==> ValidHour(HourOf(rs[k]))
    ensures |t'| == TableSize
  {
    if |rs| == 0 then t else RecordResults(RecordAll(t, rs[..|rs| - 1]), rs[|rs| - 1])
  }

  /** Reference definition: the largest count among the readings of hour h,
      or 0 when there is none with a positive count. */
  function Peak(rs: seq<Row>, h: int): (p: int)
    ensures p >= 0
    ensures forall k :: 0 <= k < |rs| && HourOf(rs[k]) == h ==> rs[k].count <= p
    ensures p == 0 || exists k :: 0 <= k < |rs| && HourOf(rs[k]) == h && rs[k].count == p
  {
    if |rs| == 0 then 0
    else
      var last := rs[|rs| - 1];
      var p := Peak(rs[..|rs| - 1], h);
      assert forall k :: 0 <= k < |rs| - 1 ==> rs[..|rs| - 1][k] == rs[k];
      if HourOf(last) == h then Max(p, last.count) else p
  }

  /** Top-3 correctness for the largest count: after any sequence of
      readings with valid hours, the table is well-formed and the last row of
      every bucket holds the largest count of that hour's readings, or 0 if
      none was positive. */
  lemma {:induction false} TopIsPeak(t: Table, rs: seq<Row>)
    requires t == InitialTable()
    requires forall k :: 0 <= k < |rs| ==> ValidHour(HourOf(rs[k]))
    ensures WellFormed(RecordAll(t, rs))
    ensures forall b :: 0 <= b < NumHours ==> Top(RecordAll(t, rs), b) == Peak(rs, FirstHour + b)
  {
    InitialWellFormed();
    TopIsPeakFrom(t, rs);
    forall b | 0 <= b < NumHours
      ensures Top(RecordAll(t, rs), b) == Peak(rs, FirstHour + b)
    {
      assert Top(t, b) == 0 by {
        assert (b * NumResults + 2) / NumResults == b;
      }
    }
  }

  lemma {:induction false} TopIsPeakFrom(t: Table, rs: seq<Row>)
    requires WellFormed(t)
    requires forall k :: 0 <= k < |rs| ==> ValidHour(HourOf(rs[k]))
    ensures WellFormed(RecordAll(t, rs))
    ensures forall b :: 0 <= b < NumHours ==> Top(RecordAll(t, rs), b) == Max(Top(t, b), Peak(rs, FirstHour + b))
    decreases |rs|
  {
    if |rs| > 0 {
      var init := rs[..|rs| - 1];
      var last := rs[|rs| - 1];
      TopIsPeakFrom(t, init);
      var t1 := RecordAll(t, init);
      assert RecordAll(t, rs) == RecordResults(t1, last);
      RecordIsBucketUpdate(t1, last);
      BucketStep(t1, last);
      forall b | 0 <= b < NumHours
        ensures Top(RecordAll(t, rs), b) == Max(Top(t, b), Peak(rs, FirstHour + b))
      {
        TopAfter(t1, last, b);
        PeakSnoc(rs, FirstHour + b);
      }
    } else {
      forall b | 0 <= b < NumHours
        ensures Top(t, b) >= 0
      {
        assert BucketOk(t, b);
      }
    }
  }

  /** The top of one bucket after one more reading. */
  lemma TopAfter(t: Table, r: Row, b: int)
    requires WellFormed(t) && ValidHour(HourOf(r)) && 0 <= b < NumHours
    ensures Top(BucketUpdate(t, r), b) == if HourOf(r) == FirstHour + b then Max(Top(t, b), r.count) else Top(t, b)
  {
    BucketStep(t, r);
    assert (b * NumResults + 2) / NumResults == b;
  }

  /** The peak over one more reading. */
  lemma PeakSnoc(rs: seq<Row>, h: int)
    requires |rs| > 0
    ensures Peak(rs, h) == if HourOf(rs[|rs| - 1]) == h then Max(Peak(rs[..|rs| - 1], h), rs[|rs| - 1].count) else Peak(rs[..|rs| - 1], h)
  {
  }

  /** `record_results` on a well-formed table, stated on the source's own
      function: only the reading's bucket changes, its last row ends up with
      the larger of its old count and the reading's, and a reading that
      exceeds no row of its bucket (a count of 0 in particular) changes
      nothing. */
  lemma RecordResultsEffect(t: Table, r: Row)
    requires WellFormed(t) && ValidHour(HourOf(r))
    ensures var t' := RecordResults(t, r); var b := HourOf(r) - FirstHour;
      && WellFormed(t')
      && (forall j :: 0 <= j < TableSize && !(b * NumResults <= j < b * NumResults + NumResults) ==> t'[j] == t[j])
      && Top(t', b) == Max(Top(t, b), r.count)
      && ((forall j :: b * NumResults <= j < b * NumResults + NumResults ==> r.count <= t[j].count) ==> t' == t)
      && (r.count <= 0 ==> t' == t)
  {
    RecordIsBucketUpdate(t, r);
    BucketStep(t, r);
    var b := HourOf(r) - FirstHour;
    assert BucketOk(t, b);
    forall j | 0 <= j < TableSize && !(b * NumResults <= j < b * NumResults + NumResults)
      ensures j / NumResults != b
    {
    }
  }

  /** The literal behaviour on the counts 50, 80, 80, 90, 10 of one hour: the
      bucket ends as (90, 80, 90) -- the reading with 90 twice, the first
      reading with 80 once, and the second 80 dropped. */
  lemma RankingScenario()
    ensures var rs := ScenarioReadings();
      var t := RecordResults(RecordResults(RecordResults(RecordResults(RecordResults(
        InitialTable(), rs[0]), rs[1]), rs[2]), rs[3]), rs[4]);
      t[0] == rs[3] && t[1] == rs[1] && t[2] == rs[3]
  {
    var rs := ScenarioReadings();
    var t0 := InitialTable();
    InitialWellFormed();
    assert t0[0] == Placeholder(0) && t0[1] == Placeholder(0) && t0[2] == Placeholder(0);
    var t1 := ScenarioFirst(t0);
    var t2 := ScenarioSecond(t1);
    var t3 := ScenarioUnchanged(t2, rs[2]);
    var t4 := ScenarioFourth(t3);
    var t5 := ScenarioUnchanged(t4, rs[4]);
  }

  function ScenarioReadings(): seq<Row>
  {
    [Row(1, 600, 1010, 50), Row(1, 605, 1011, 80), Row(1, 610, 1012, 80),
     Row(1, 615, 1013, 90), Row(1, 620, 1014, 10)]
  }

  /** 50 into three placeholders fills all three. */
  lemma ScenarioFirst(t: Table) returns (t': Table)
    requires WellFormed(t) && t[0] == Placeholder(0) && t[1] == Placeholder(0) && t[2] == Placeholder(0)
    ensures t' == RecordResults(t, ScenarioReadings()[0]) && WellFormed(t')
    ensures t'[0] == ScenarioReadings()[0] && t'[1] == ScenarioReadings()[0] && t'[2] == ScenarioReadings()[0]
  {
    var r := ScenarioReadings()[0];
    RecordResultsEffect(t, r);
    RecordIsBucketUpdate(t, r);
    var t1 := t[0 := r];
    assert ScanRow(t, r, 6, 0) == t1;
    var t2 := t1[1 := r];
    assert ScanRow(t1, r, 6, 1) == t2;
    assert ScanRow(t2, r, 6, 2) == t2[2 := r];
    t' := t2[2 := r];
  }

  /** 80 over (50, 50, 50): the top shifts in, then the first row is
      overwritten by the third branch. */
  lemma ScenarioSecond(t: Table) returns (t': Table)
    requires var r0 := ScenarioReadings()[0]; WellFormed(t) && t[0] == r0 && t[1] == r0 && t[2] == r0
    ensures t' == RecordResults(t, ScenarioReadings()[1]) && WellFormed(t')
    ensures t'[0] == ScenarioReadings()[1] && t'[1] == ScenarioReadings()[0] && t'[2] == ScenarioReadings()[1]
  {
    var r := ScenarioReadings()[1];
    RecordResultsEffect(t, r);
    RecordIsBucketUpdate(t, r);
    var t1 := t[0 := t[1]][1 := t[2]][2 := r];
    assert ScanRow(t, r, 6, 0) == t1;
    var t2 := t1[0 := r];
    assert ScanRow(t1, r, 6, 1) == t2;
    assert ScanRow(t2, r, 6, 2) == t2;
    t' := t2;
  }

  /** 90 over (80, 50, 80): shift, then the third branch again. */
  lemma ScenarioFourth(t: Table) returns (t': Table)
    requires var r0, r1 := ScenarioReadings()[0], ScenarioReadings()[1];
      WellFormed(t) && t[0] == r1 && t[1] == r0 && t[2] == r1
    ensures t' == RecordResults(t, ScenarioReadings()[3]) && WellFormed(t')
    ensures t'[0] == ScenarioReadings()[3] && t'[1] == ScenarioReadings()[1] && t'[2] == ScenarioReadings()[3]
  {
    var r := ScenarioReadings()[3];
    RecordResultsEffect(t, r);
    RecordIsBucketUpdate(t, r);
    var t1 := t[0 := t[1]][1 := t[2]][2 := r];
    assert ScanRow(t, r, 6, 0) == t1;
    var t2 := t1[0 := r];
    assert ScanRow(t1, r, 6, 1) == t2;
    assert ScanRow(t2, r, 6, 2) == t2;
    t' := t2;
  }

  /** The second 80 over (80, 50, 80) and 10 over (90, 80, 90) change nothing. */
  lemma ScenarioUnchanged(t: Table, r: Row) returns (t': Table)
    requires WellFormed(t) && (r == ScenarioReadings()[2] || r == ScenarioReadings()[4])
    requires r == ScenarioReadings()[2] ==> t[0] == ScenarioReadings()[1] && t[1] == ScenarioReadings()[0] && t[2] == ScenarioReadings()[1]
    requires r == ScenarioReadings()[4] ==> t[0] == ScenarioReadings()[3] && t[1] == ScenarioReadings()[1] && t[2] == ScenarioReadings()[3]
    ensures t' == RecordResults(t, r) && WellFormed(t') && t' == t
  {
    RecordResultsEffect(t, r);
    RecordIsBucketUpdate(t, r);
    assert ScanRow(t, r, 6, 0) == t;
    assert ScanRow(t, r, 6, 1) == t;
    assert ScanRow(t, r, 6, 2) == t;
    t' := t;
  }
}
