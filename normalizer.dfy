/** The two normalisation stages of `loadFromServer` (assets/js/main.js:168-190): sum the
    daily records into a year-offset by month matrix, then, for temperature, divide every
    cell by `getDayCount`. */
module Normalizer {
  import opened Wrappers
  import opened Domain
  import Calendar
  import DateText

  /** One element of the server's JSON array, `{ t: "YYYY-MM-DD", v: Number }`. */
  datatype RawRecord = RawRecord(t: string, v: real)

  /** The records this model covers: `t` has digit-string year and month fields, the year
      lies in `MIN_YEAR..MAX_YEAR` and the month in 1..12. */
  predicate InRange(r: RawRecord)
  {
    match DateText.ParseYearMonth(r.t)
    case Some((year, month)) => MinYear <= year <= MaxYear && 1 <= month <= 12
    case None => false
  }

  predicate AllInRange(rs: seq<RawRecord>)
  {
    forall i :: 0 <= i < |rs| ==> InRange(rs[i])
  }

  /** The cell a record is added to: `[year - MIN_YEAR][month - 1]`. */
  function Cell(r: RawRecord): (c: (int, int))
    requires InRange(r)
    ensures 0 <= c.0 < YearCount && 0 <= c.1 < MonthCount
    ensures DateText.ParseYearMonth(r.t) == Some((c.0 + MinYear, c.1 + 1))
  {
    var ym := DateText.ParseYearMonth(r.t).value;
    (ym.0 - MinYear, ym.1 - 1)
  }

  /** Some record of `rs` is dated in year offset `y`. */
  predicate HasYear(rs: seq<RawRecord>, y: int)
    requires AllInRange(rs)
  {
    exists i :: 0 <= i < |rs| && Cell(rs[i]).0 == y
  }

  /** The sum of the values of the records that fall in cell `(y, m)`. */
  function SumAt(rs: seq<RawRecord>, y: int, m: int): (total: real)
    requires AllInRange(rs)
  {
    if rs == [] then 0.0
    else
      var last := rs[|rs| - 1];
      SumAt(rs[..|rs| - 1], y, m) + (if Cell(last) == (y, m) then last.v else 0.0)
  }

  /** Some record falls in year offset `y`, so the loop has created row `y`. */
  predicate Touched(rs: seq<RawRecord>, y: int)
    requires AllInRange(rs)
  {
    rs != [] && (Touched(rs[..|rs| - 1], y) || Cell(rs[|rs| - 1]).0 == y)
  }

  function RowSums(rs: seq<RawRecord>, y: int): (row: Row)
    requires AllInRange(rs)
    ensures |row| == MonthCount
  {
    seq(MonthCount, m => SumAt(rs, y, m))
  }

  /** The array the first stage returns: a row of sums for every touched year, a hole
      (`undefined`) for every other offset. */
  function Sums(rs: seq<RawRecord>): (sums: seq<Option<Row>>)
    requires AllInRange(rs)
    ensures |sums| == YearCount
    ensures forall y :: 0 <= y < YearCount ==> (sums[y].Some? <==> HasYear(rs, y))
    ensures forall y, m :: 0 <= y < YearCount && sums[y].Some? && 0 <= m < MonthCount ==>
      |sums[y].value| == MonthCount && sums[y].value[m] == SumAt(rs, y, m)
  {
    TouchedIffAll(rs);
    seq(YearCount, y => if Touched(rs, y) then Some(RowSums(rs, y)) else None)
  }

  /** The row the first stage holds after adding `v` to month `m` of `row`, creating the
      row as twelve zeros when it is still a hole. */
  function Bumped(row: Option<Row>, m: int, v: real): (r: Row)
    requires 0 <= m < MonthCount
    requires row.Some? ==> |row.value| == MonthCount
    ensures |r| == MonthCount
    ensures r[m] == (if row.Some? then row.value[m] else 0.0) + v
    ensures forall j :: 0 <= j < MonthCount && j != m ==> r[j] == (if row.Some? then row.value[j] else 0.0)
  {
    var base := if row.Some? then row.value else Zeros(MonthCount);
    base[m := base[m] + v]
  }

  /** The `.map` of line 187 on row `y`: for temperature each sum is divided by the day
      count of its month and of year `MIN_YEAR + y`; any other key keeps the sums. */
  function ConvertRow(key: DataKey, y: int, row: Row): (r: Row)
    ensures |r| == |row|
    ensures key == Precipitation ==> r == row
    ensures key == Temperature && MinYear + y != 0 ==> forall m :: 0 <= m < |row| ==>
      r[m] == row[m] / (if Calendar.MonthDays(m) == 0 then 28.0 else 29.0)
  {
    Calendar.DayCountsOfYear(MinYear + y);
    seq(|row|, m requires 0 <= m < |row| =>
      if key == Temperature then row[m] / Calendar.DayCount(m, MinYear + y) as real else row[m])
  }

  /** What both stages together resolve to: the converted matrix when every year offset
      has a row, the TypeError of `undefined.map` otherwise. */
  function Normalized(key: DataKey, rs: seq<RawRecord>): (r: Result<Matrix, LoadError>)
    requires AllInRange(rs)
  {
    if forall y :: 0 <= y < YearCount ==> Touched(rs, y)
    then Ok(seq(YearCount, y => ConvertRow(key, y, RowSums(rs, y))))
    else Err(UndefinedRow)
  }

  // ---------------------------------------------------------------------------
  // Properties of the specification

  /** A cell no record falls in keeps its initial 0. */
  lemma {:induction false} SumAtWithoutRecords(rs: seq<RawRecord>, y: int, m: int)
    requires AllInRange(rs)
    requires forall i :: 0 <= i < |rs| ==> Cell(rs[i]) != (y, m)
    ensures SumAt(rs, y, m) == 0.0
  {
    if rs != [] {
      SumAtWithoutRecords(rs[..|rs| - 1], y, m);
    }
  }

  /** A row exists exactly when some record names its year. */
  lemma {:induction false} TouchedIff(rs: seq<RawRecord>, y: int)
    requires AllInRange(rs)
    ensures Touched(rs, y) <==> HasYear(rs, y)
  {
    if rs != [] {
      var init := rs[..|rs| - 1];
      TouchedIff(init, y);
      if Touched(init, y) {
        var i :| 0 <= i < |init| && Cell(init[i]).0 == y;
        assert rs[i] == init[i];
      }
      if HasYear(rs, y) {
        var i :| 0 <= i < |rs| && Cell(rs[i]).0 == y;
        if i < |init| {
          assert init[i] == rs[i];
        }
      }
    }
  }

  lemma TouchedIffAll(rs: seq<RawRecord>)
    requires AllInRange(rs)
    ensures forall y :: Touched(rs, y) <==> HasYear(rs, y)
  {
    forall y {
      TouchedIff(rs, y);
    }
  }

  lemma UntouchedRowIsZero(rs: seq<RawRecord>, y: int, m: int)
    requires AllInRange(rs)
    requires !Touched(rs, y)
    ensures SumAt(rs, y, m) == 0.0
  {
    TouchedIff(rs, y);
    SumAtWithoutRecords(rs, y, m);
  }

  /** Accumulating one more record: its value is added to exactly its own cell, its row is
      created as twelve zeros if it was a hole, and nothing else changes. */
  lemma SumsStep(rs: seq<RawRecord>, r: RawRecord)
    requires AllInRange(rs) && InRange(r)
    ensures AllInRange(rs + [r])
    ensures Sums(rs + [r]) == Sums(rs)[Cell(r).0 := Some(Bumped(Sums(rs)[Cell(r).0], Cell(r).1, r.v))]
  {
    var rs' := rs + [r];
    assert rs'[..|rs'| - 1] == rs;
    var c := Cell(r);
    var before, after := Sums(rs), Sums(rs');
    forall y | 0 <= y < YearCount
      ensures after[y] == before[c.0 := Some(Bumped(before[c.0], c.1, r.v))][y]
    {
      assert Touched(rs', y) == (Touched(rs, y) || c.0 == y);
      if y == c.0 {
        forall m | 0 <= m < MonthCount
          ensures RowSums(rs', y)[m] == Bumped(before[y], c.1, r.v)[m]
        {
          assert SumAt(rs', y, m) == SumAt(rs, y, m) + (if m == c.1 then r.v else 0.0);
          if !Touched(rs, y) {
            UntouchedRowIsZero(rs, y, m);
          }
        }
        assert RowSums(rs', y) == Bumped(before[y], c.1, r.v);
      } else if Touched(rs, y) {
        forall m | 0 <= m < MonthCount
          ensures RowSums(rs', y)[m] == RowSums(rs, y)[m]
        {
          assert SumAt(rs', y, m) == SumAt(rs, y, m) + 0.0;
        }
        assert RowSums(rs', y) == RowSums(rs, y);
      }
    }
  }

  /** The matrix is complete, 126 rows of 12 cells, exactly when every year of the range
      has at least one record. */
  lemma NormalizedShape(key: DataKey, rs: seq<RawRecord>)
    requires AllInRange(rs)
    ensures Normalized(key, rs).Ok? <==> forall y :: 0 <= y < YearCount ==> HasYear(rs, y)
    ensures Normalized(key, rs).Ok? ==>
      |Normalized(key, rs).value| == YearCount &&
      forall y :: 0 <= y < YearCount ==> |Normalized(key, rs).value[y]| == MonthCount
  {
    forall y | 0 <= y < YearCount {
      TouchedIff(rs, y);
    }
  }

  /** Every cell of a complete matrix: the month's sum, divided by the literal day count
      for temperature. */
  lemma NormalizedCell(key: DataKey, rs: seq<RawRecord>, y: int, m: int)
    requires AllInRange(rs)
    requires Normalized(key, rs).Ok?
    requires 0 <= y < YearCount && 0 <= m < MonthCount
    ensures key == Temperature ==>
      Normalized(key, rs).value[y][m] == SumAt(rs, y, m) / Calendar.DayCount(m, MinYear + y) as real
    ensures key == Precipitation ==> Normalized(key, rs).value[y][m] == SumAt(rs, y, m)
    ensures key == Temperature && m == 1 ==> Normalized(key, rs).value[y][m] == SumAt(rs, y, m) / 28.0
    ensures key == Temperature && m != 1 ==> Normalized(key, rs).value[y][m] == SumAt(rs, y, m) / 29.0
  {
    Calendar.DayCountAsWritten(m, MinYear + y);
  }

  /** Two records of the same cell `(0, 0)`: their values are summed in January of the first
      row and every other cell of that row is 0. */
  lemma {:induction false} TwoRecordsOfOneCell(a: RawRecord, b: RawRecord, m: int)
    requires InRange(a) && InRange(b) && Cell(a) == (0, 0) && Cell(b) == (0, 0)
    ensures AllInRange([a, b])
    ensures SumAt([a, b], 0, m) == if m == 0 then a.v + b.v else 0.0
    ensures Touched([a, b], 0) && !Touched([a, b], 1)
  {
    var rs := [a, b];
    assert rs[..1] == [a] && [a][..0] == [];
    assert SumAt([a], 0, m) == SumAt([], 0, m) + (if m == 0 then a.v else 0.0);
    assert Touched([a], 0) && !Touched([a], 1);
  }

  /** Two January 1881 temperature records, of 10 and of 20. */
  const JanuaryRecords: seq<RawRecord> :=
    [RawRecord(DateText.FormatDate(1881, 1, 15), 10.0), RawRecord(DateText.FormatDate(1881, 1, 20), 20.0)]

  lemma JanuaryRecordsCells()
    ensures |JanuaryRecords| == 2 && AllInRange(JanuaryRecords)
    ensures Cell(JanuaryRecords[0]) == (0, 0) && Cell(JanuaryRecords[1]) == (0, 0)
  {
    DateText.ParseFormatDate(1881, 1, 15);
    DateText.ParseFormatDate(1881, 1, 20);
  }

  /** Row 0 holds 30 in January and 0 elsewhere, its January cell converts to 30/29, and,
      since 1882 has no record, the second stage fails rather than completing the matrix. */
  lemma TwoJanuaryRecords()
    ensures AllInRange(JanuaryRecords)
    ensures Sums(JanuaryRecords)[0] == Some([30.0] + Zeros(MonthCount - 1))
    ensures ConvertRow(Temperature, 0, RowSums(JanuaryRecords, 0))[0] == 30.0 / 29.0
    ensures Normalized(Temperature, JanuaryRecords) == Err(UndefinedRow)
  {
    JanuaryRecordsCells();
    var rs := JanuaryRecords;
    var a, b := rs[0], rs[1];
    assert rs == [a, b];
    forall m | 0 <= m < MonthCount
      ensures RowSums(rs, 0)[m] == ([30.0] + Zeros(MonthCount - 1))[m]
    {
      TwoRecordsOfOneCell(a, b, m);
    }
    assert RowSums(rs, 0) == [30.0] + Zeros(MonthCount - 1);
    TwoRecordsOfOneCell(a, b, 0);
    Calendar.DayCountAsWritten(0, 1881);
  }

  // ---------------------------------------------------------------------------
  // The two stages as the source runs them

  /** The loop of lines 171-180 over a `new Array(length)` of holes. */
  method AccumulateSums(records: seq<RawRecord>) returns (sums: array<Option<Row>>)
    requires AllInRange(records)
    ensures fresh(sums)
    ensures sums[..] == Sums(records)
  {
    sums := new Option<Row>[YearCount](_ => None);
    assert records[..0] == [];
    for i := 0 to |records|
      invariant sums[..] == Sums(records[..i])
    {
      var r := records[i];
      var c := Cell(r);
      SumsStep(records[..i], r);
      assert records[..i + 1] == records[..i] + [r];
      var row := if sums[c.0].Some? then sums[c.0].value else Zeros(MonthCount);
      sums[c.0] := Some(row[c.1 := row[c.1] + r.v]);
    }
    assert records[..|records|] == records;
  }

  /** The loop of lines 185-188, replacing each row of the array by its converted row, and
      throwing at the first hole with the rows before it already converted. */
  method ConvertRows(key: DataKey, sums: array<Option<Row>>) returns (ok: bool)
    modifies sums
    ensures ok <==> forall y :: 0 <= y < sums.Length ==> old(sums[y]).Some?
    ensures ok ==> forall y :: 0 <= y < sums.Length ==>
      sums[y] == Some(ConvertRow(key, y, old(sums[y]).value))
    ensures !ok ==> exists k :: (0 <= k < sums.Length && old(sums[k]).None? &&
      (forall y :: 0 <= y < k ==>
        old(sums[y]).Some? && sums[y] == Some(ConvertRow(key, y, old(sums[y]).value))) &&
      (forall y :: k <= y < sums.Length ==> sums[y] == old(sums[y])))
  {
    var i := 0;
    while i < sums.Length
      invariant 0 <= i <= sums.Length
      invariant forall y :: 0 <= y < i ==>
        old(sums[y]).Some? && sums[y] == Some(ConvertRow(key, y, old(sums[y]).value))
      invariant forall y :: i <= y < sums.Length ==> sums[y] == old(sums[y])
    {
      if sums[i].None? {
        return false;
      }
      sums[i] := Some(ConvertRow(key, i, sums[i].value));
      i := i + 1;
    }
    return true;
  }

  /** Both stages in sequence, on records already parsed from the response body. */
  method Normalize(key: DataKey, records: seq<RawRecord>) returns (r: Result<Matrix, LoadError>)
    requires AllInRange(records)
    ensures r == Normalized(key, records)
  {
    var sums := AccumulateSums(records);
    ghost var before := sums[..];
    var ok := ConvertRows(key, sums);
    if !ok {
      return Err(UndefinedRow);
    }
    var rows := sums[..];
    var matrix := seq(|rows|, y requires 0 <= y < |rows| && rows[y].Some? => rows[y].value);
    forall y | 0 <= y < YearCount
      ensures Touched(records, y) && matrix[y] == ConvertRow(key, y, RowSums(records, y))
    {
      assert before[y].Some?;
    }
    assert matrix == seq(YearCount, y => ConvertRow(key, y, RowSums(records, y)));
    return Ok(matrix);
  }
}
