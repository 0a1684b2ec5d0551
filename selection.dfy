/** The selection rule of the year dropdowns (assets/js/main.js:5-9, 226-248, 276): the
    "from" list shows only years up to the chosen "to" year and the "to" list only years
    from the chosen "from" year on, so every year a click can pick keeps the range ordered.
    The DOM itself is not modelled; an item is known by its index in its list. */
module YearSelection {
  import opened Wrappers
  import opened Domain
  import RangeAverage
  import Normalizer

  /** `renderState`. */
  datatype Selection = Selection(from: int, to: int, dataType: DataKey)

  /** The state the page starts in. */
  const Initial: Selection := Selection(MinYear, MaxYear, Temperature)

  predicate ValidRange(s: Selection)
  {
    MinYear <= s.from <= s.to <= MaxYear
  }

  /** `showAvailableYears`, line 233: item `index` of the "from" list is hidden when
      `index > toIndex`. */
  predicate VisibleInFromList(s: Selection, index: int)
  {
    0 <= index < YearCount && !(index > s.to - MinYear)
  }

  /** Line 230: item `index` of the "to" list is hidden when `index < fromIndex`. */
  predicate VisibleInToList(s: Selection, index: int)
  {
    0 <= index < YearCount && !(index < s.from - MinYear)
  }

  /** A click on a list item (its text is `index + MIN_YEAR`, line 276) or on a data-type button. */
  datatype Click = FromItem(index: int) | ToItem(index: int) | Button(key: DataKey)

  /** Whether the click can happen: a hidden item cannot be clicked. */
  predicate Clickable(s: Selection, c: Click)
  {
    match c
    case FromItem(index) => VisibleInFromList(s, index)
    case ToItem(index) => VisibleInToList(s, index)
    case Button(_) => true
  }

  /** Lines 221 and 245-247: the field the click sets. */
  function Apply(s: Selection, c: Click): (s': Selection)
  {
    match c
    case FromItem(index) => s.(from := index + MinYear)
    case ToItem(index) => s.(to := index + MinYear)
    case Button(key) => s.(dataType := key)
  }

  /** The state after a run of clicks, or `None` when one of them was on a hidden item. */
  function Run(s: Selection, clicks: seq<Click>): (r: Option<Selection>)
    decreases |clicks|
  {
    if clicks == [] then Some(s)
    else if Clickable(s, clicks[0]) then Run(Apply(s, clicks[0]), clicks[1..])
    else None
  }

  /** One click on a visible item keeps `MIN_YEAR <= from <= to <= MAX_YEAR`. */
  lemma ClickKeepsRange(s: Selection, c: Click)
    requires ValidRange(s) && Clickable(s, c)
    ensures ValidRange(Apply(s, c))
  {
  }

  /** Every state the page can reach from its initial one satisfies the precondition
      of the range average. */
  lemma {:induction false} ReachableRangesValid(s: Selection, clicks: seq<Click>)
    requires ValidRange(s)
    ensures Run(s, clicks).Some? ==> ValidRange(Run(s, clicks).value)
    decreases |clicks|
  {
    if clicks != [] && Clickable(s, clicks[0]) {
      ClickKeepsRange(s, clicks[0]);
      ReachableRangesValid(Apply(s, clicks[0]), clicks[1..]);
    }
  }

  lemma FromInitialRangesValid(clicks: seq<Click>)
    ensures Run(Initial, clicks).Some? ==> ValidRange(Run(Initial, clicks).value)
  {
    ReachableRangesValid(Initial, clicks);
  }

  /** A valid selection meets the whole precondition of the range average once the matrix
      has one row of twelve months per year of the range. The ordering part comes from the
      selection; the row count and row lengths must come from the matrix. */
  lemma SelectionFitsMatrix(s: Selection, m: Matrix)
    requires ValidRange(s) && |m| == YearCount && RangeAverage.Rectangular(m)
    ensures MinYear <= s.from <= s.to && s.to - MinYear < |m|
    ensures |RangeAverage.GraphicData(m, s.from, s.to)| == MonthCount
  {
  }

  /** A matrix the normaliser completed is such a matrix. */
  lemma NormalizedMatrixFits(key: DataKey, rs: seq<Normalizer.RawRecord>)
    requires Normalizer.AllInRange(rs) && Normalizer.Normalized(key, rs).Ok?
    ensures |Normalizer.Normalized(key, rs).value| == YearCount
    ensures RangeAverage.Rectangular(Normalizer.Normalized(key, rs).value)
  {
    Normalizer.NormalizedShape(key, rs);
  }
}
