/** `computeAverage` (assets/js/main.js:147-159) and the year shift of `getGraphicData`
    (assets/js/main.js:161-163). */
module RangeAverage {
  import opened Domain

  /** Every row has one value per month. */
  predicate Rectangular(rows: Matrix)
  {
    forall y :: 0 <= y < |rows| ==> |rows[y]| == MonthCount
  }

  /** `yearData.forEach((v, i) => { memo[i] += v; })`. */
  function AddRow(memo: Row, row: Row): (r: Row)
    requires |memo| == |row|
    ensures |r| == |memo|
  {
    seq(|memo|, i requires 0 <= i < |memo| => memo[i] + row[i])
  }

  /** `rows.reduce(..., memo)`: the rows added into the accumulator from first to last. */
  function Reduce(rows: Matrix, memo: Row): (r: Row)
    requires Rectangular(rows) && |memo| == MonthCount
    ensures |r| == MonthCount
  {
    if rows == [] then memo else Reduce(rows[1..], AddRow(memo, rows[0]))
  }

  /** The reference sum of column `i`, `rows[0][i] + ... + rows[|rows| - 1][i]`. */
  function ColumnSum(rows: Matrix, i: int): (total: real)
    requires Rectangular(rows) && 0 <= i < MonthCount
  {
    if rows == [] then 0.0 else rows[0][i] + ColumnSum(rows[1..], i)
  }

  /** The slice `data.slice(from, to + 1)`, reduced from twelve zeros, each total divided by
      the slice's length. */
  function ComputeAverage(data: Matrix, from: int, to: int): (avg: Row)
    requires 0 <= from <= to < |data| && Rectangular(data)
    ensures |avg| == MonthCount
  {
    var ranged := data[from..to + 1];
    var total := Reduce(ranged, Zeros(MonthCount));
    seq(MonthCount, i requires 0 <= i < MonthCount => total[i] / |ranged| as real)
  }

  /** The reduction adds exactly the column sums to the accumulator. */
  lemma {:induction false} ReduceIsColumnSum(rows: Matrix, memo: Row, i: int)
    requires Rectangular(rows) && |memo| == MonthCount && 0 <= i < MonthCount
    ensures Reduce(rows, memo)[i] == memo[i] + ColumnSum(rows, i)
  {
    if rows != [] {
      ReduceIsColumnSum(rows[1..], AddRow(memo, rows[0]), i);
    }
  }

  /** Entry `i` of the average is the mean of column `i` over the years `from..to`. */
  lemma AverageIsColumnMean(data: Matrix, from: int, to: int, i: int)
    requires 0 <= from <= to < |data| && Rectangular(data) && 0 <= i < MonthCount
    ensures ComputeAverage(data, from, to)[i] == ColumnSum(data[from..to + 1], i) / (to - from + 1) as real
  {
    ReduceIsColumnSum(data[from..to + 1], Zeros(MonthCount), i);
  }

  /** A one-year range gives back that year's row. */
  lemma AverageOfOneYear(data: Matrix, y: int)
    requires 0 <= y < |data| && Rectangular(data)
    ensures ComputeAverage(data, y, y) == data[y]
  {
    forall i | 0 <= i < MonthCount
      ensures ComputeAverage(data, y, y)[i] == data[y][i]
    {
      AverageIsColumnMean(data, y, y, i);
      assert data[y..y + 1] == [data[y]];
      assert [data[y]][1..] == [];
    }
  }

  /** The full range gives the mean of each month over all rows. */
  lemma AverageOfAllYears(data: Matrix, i: int)
    requires |data| > 0 && Rectangular(data) && 0 <= i < MonthCount
    ensures ComputeAverage(data, 0, |data| - 1)[i] == ColumnSum(data, i) / |data| as real
  {
    AverageIsColumnMean(data, 0, |data| - 1, i);
    assert data[0..|data|] == data;
  }

  lemma {:induction false} ColumnSumBounds(rows: Matrix, i: int, lo: real, hi: real)
    requires Rectangular(rows) && 0 <= i < MonthCount
    requires forall y :: 0 <= y < |rows| ==> lo <= rows[y][i] <= hi
    ensures |rows| as real * lo <= ColumnSum(rows, i) <= |rows| as real * hi
  {
    if rows != [] {
      ColumnSumBounds(rows[1..], i, lo, hi);
    }
  }

  /** Each entry lies between the smallest and the largest value its month takes in the range. */
  lemma AverageWithinBounds(data: Matrix, from: int, to: int, i: int, lo: real, hi: real)
    requires 0 <= from <= to < |data| && Rectangular(data) && 0 <= i < MonthCount
    requires forall y :: from <= y <= to ==> lo <= data[y][i] <= hi
    ensures lo <= ComputeAverage(data, from, to)[i] <= hi
  {
    var ranged := data[from..to + 1];
    var n := (to - from + 1) as real;
    forall y | 0 <= y < |ranged| ensures lo <= ranged[y][i] <= hi {
      assert ranged[y] == data[from + y];
    }
    ColumnSumBounds(ranged, i, lo, hi);
    AverageIsColumnMean(data, from, to, i);
    QuotientBounds(ColumnSum(ranged, i), n, lo, hi);
  }

  lemma QuotientBounds(s: real, n: real, lo: real, hi: real)
    requires n > 0.0 && n * lo <= s <= n * hi
    ensures lo <= s / n <= hi
  {
    var q := s / n;
    assert q * n == s;
  }

  /** `getGraphicData`: the average over the years `fromYear..toYear`, whose rows sit at
      offsets `fromYear - MIN_YEAR .. toYear - MIN_YEAR`. */
  function GraphicData(matrix: Matrix, fromYear: int, toYear: int): (avg: Row)
    requires MinYear <= fromYear <= toYear && toYear - MinYear < |matrix| && Rectangular(matrix)
    ensures |avg| == MonthCount
    ensures forall i :: 0 <= i < MonthCount ==>
      avg[i] == ColumnSum(matrix[fromYear - MinYear..toYear - MinYear + 1], i) / (toYear - fromYear + 1) as real
    ensures fromYear == toYear ==> avg == matrix[fromYear - MinYear]
  {
    var from, to := fromYear - MinYear, toYear - MinYear;
    assert forall i :: 0 <= i < MonthCount ==>
      ComputeAverage(matrix, from, to)[i] == ColumnSum(matrix[from..to + 1], i) / (to - from + 1) as real
    by {
      forall i | 0 <= i < MonthCount {
        AverageIsColumnMean(matrix, from, to, i);
      }
    }
    if from == to then AverageOfOneYear(matrix, from); ComputeAverage(matrix, from, to)
    else ComputeAverage(matrix, from, to)
  }
}
