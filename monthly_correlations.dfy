/**
 * Monthly correlation tables (src/build_monthly_correlations.py).
 *
 * Daily log-returns are grouped by calendar month, pivoted to one column per
 * asset, thinned to the assets with enough observations, correlated pairwise
 * and flattened to long rows (month, asset_i, asset_j, corr) without
 * self-pairs.  Both orientations of every pair are emitted.
 */
module MonthlyCorrelations {
  import opened Common
  import opened Finite
  import opened Calendar

  /** Minimum number of daily returns an asset needs in a month to be kept. */
  const MinDaysPerAsset: nat := 10

  /** A row of the daily table; `logReturn` is NULL on an asset's first day. */
  datatype DailyReturn = DailyReturn(asset: Asset, day: Date, logReturn: Option<real>)

  /** The returns that take part in the computation, keyed by (asset, day). */
  type Cells = map<(Asset, Date), real>

  /** One pivot column: day to log-return; a day without a return is absent. */
  type Series = map<Date, real>

  /** The pivot of one month: a column per asset. */
  type Columns = map<Asset, Series>

  /** Two series restricted to the days on which both have a value. */
  type Aligned = map<Date, (real, real)>

  /**
   * Pearson's coefficient of an aligned pair of series, left abstract;
   * `None` when it is undefined (too few points, zero variance).
   */
  type Pearson = Aligned -> Option<real>

  /** A row of the stacked correlation matrix. */
  datatype LongRow = LongRow(assetI: Asset, assetJ: Asset, corr: Option<real>)

  /** A row of the `monthly_correlations` table; `None` is a NULL correlation. */
  datatype CorrRow = CorrRow(month: Date, assetI: Asset, assetJ: Asset, corr: Option<real>)

  /** The daily table holds at most one non-NULL return per (asset, day). */
  predicate OneRowPerCell(table: seq<DailyReturn>)
  {
    forall i, j | 0 <= i < |table| && 0 <= j < |table|
      && table[i].logReturn.Some? && table[j].logReturn.Some?
      && table[i].asset == table[j].asset && table[i].day == table[j].day :: i == j
  }

  /** The query `... WHERE log_return IS NOT NULL`: only non-NULL returns enter. */
  function LoadReturns(table: seq<DailyReturn>): Cells
    requires OneRowPerCell(table)
  {
    map r | r in table && r.logReturn.Some? :: (r.asset, r.day) := r.logReturn.value
  }

  /** Every non-NULL row becomes a cell, and every cell comes from such a row. */
  lemma LoadReturnsKeepsNonNull(table: seq<DailyReturn>)
    requires OneRowPerCell(table)
    ensures forall i | 0 <= i < |table| && table[i].logReturn.Some? ::
      (table[i].asset, table[i].day) in LoadReturns(table)
      && LoadReturns(table)[(table[i].asset, table[i].day)] == table[i].logReturn.value
    ensures forall k | k in LoadReturns(table) :: DailyReturn(k.0, k.1, Some(LoadReturns(table)[k])) in table
  {
  }

  /** The month keys present in the data (the groups of `groupby("month")`). */
  function Months(cells: Cells): set<Date>
  {
    set k | k in cells :: MonthStart(k.1)
  }

  /** The returns of one month (`df_month`). */
  function InMonth(cells: Cells, m: Date): Cells
  {
    map k | k in cells && MonthStart(k.1) == m :: cells[k]
  }

  /** The assets with at least one return. */
  function AssetsOf(cells: Cells): set<Asset>
  {
    set k | k in cells :: k.0
  }

  /** The days on which asset `a` has a return. */
  function DaysOf(cells: Cells, a: Asset): set<Date>
  {
    set k | k in cells && k.0 == a :: k.1
  }

  /** `pivot(index="day", columns="asset_address", values="log_return")`. */
  function Pivot(cells: Cells): Columns
  {
    map a | a in AssetsOf(cells) :: map d | d in DaysOf(cells, a) :: cells[(a, d)]
  }

  /**
   * The pivot holds every return in its cell, and nothing else: a column is
   * the asset's returns keyed by day.
   */
  lemma PivotCells(cells: Cells)
    ensures forall k | k in cells ::
      (k.0 in Pivot(cells) && k.1 in Pivot(cells)[k.0] && Pivot(cells)[k.0][k.1] == cells[k])
    ensures forall a, d | a in Pivot(cells) && d in Pivot(cells)[a] :: (a, d) in cells
  {
  }

  /** `pivot.count()`: the non-missing cells of a column. */
  function ValidCount(p: Columns, a: Asset): nat
    requires a in p
  {
    |p[a]|
  }

  /** `pivot[keep_cols]` with `keep_cols` the columns whose count reaches `minDays`. */
  function KeepColumns(p: Columns, minDays: nat): (q: Columns)
    ensures forall a :: a in q <==> a in p && ValidCount(p, a) >= minDays
    ensures forall a | a in q :: q[a] == p[a]
  {
    map a | a in p && ValidCount(p, a) >= minDays :: p[a]
  }

  /** The pairwise-complete observations of two columns. */
  function AlignedOf(si: Series, sj: Series): Aligned
  {
    map d | d in si && d in sj :: (si[d], sj[d])
  }

  /** The same observations with the two coordinates exchanged. */
  function Swapped(x: Aligned): Aligned
  {
    map d | d in x :: (x[d].1, x[d].0)
  }

  /** Pearson's coefficient does not depend on the order of its two series. */
  ghost predicate Symmetric(pearson: Pearson)
  {
    forall x :: pearson(Swapped(x)) == pearson(x)
  }

  /** `pivot.corr()`: an entry for every ordered pair of columns, pairwise-complete. */
  function CorrMatrix(p: Columns, pearson: Pearson): (c: map<(Asset, Asset), Option<real>>)
    ensures forall i, j :: (i, j) in c <==> i in p && j in p
    ensures forall i, j | i in p && j in p :: c[(i, j)] == pearson(AlignedOf(p[i], p[j]))
  {
    map k | k in (set i, j | i in p && j in p :: (i, j)) :: pearson(AlignedOf(p[k.0], p[k.1]))
  }

  /** `corr_matrix.stack().reset_index(name="corr")`: one long row per matrix entry. */
  function Stack(c: map<(Asset, Asset), Option<real>>): set<LongRow>
  {
    set k | k in c :: LongRow(k.0, k.1, c[k])
  }

  /** `corr_long[corr_long["asset_i"] != corr_long["asset_j"]]`. */
  function DropSelfPairs(rows: set<LongRow>): set<LongRow>
  {
    set r | r in rows && r.assetI != r.assetJ
  }

  /** `corr_long["month"] = month`. */
  function TagMonth(rows: set<LongRow>, m: Date): set<CorrRow>
  {
    set r | r in rows :: CorrRow(m, r.assetI, r.assetJ, r.corr)
  }

  /** The columns of month `m` that survive the minimum-days filter. */
  function Surviving(cells: Cells, m: Date): Columns
  {
    KeepColumns(Pivot(InMonth(cells, m)), MinDaysPerAsset)
  }

  /**
   * The frame one iteration of the month loop builds from the month's
   * observations; `None` when fewer than two columns survive (`continue`).
   */
  function FrameOf(dfMonth: Cells, m: Date, pearson: Pearson): Option<set<CorrRow>>
  {
    var kept := KeepColumns(Pivot(dfMonth), MinDaysPerAsset);
    if |kept| < 2 then None
    else Some(TagMonth(DropSelfPairs(Stack(CorrMatrix(kept, pearson))), m))
  }

  /** The rows month `m` contributes to the table. */
  function MonthCorrelations(cells: Cells, m: Date, pearson: Pearson): set<CorrRow>
  {
    match FrameOf(InMonth(cells, m), m, pearson)
    case None => {}
    case Some(frame) => frame
  }

  /** Month key to the rows that month contributes. */
  function PerMonth(cells: Cells, pearson: Pearson): Date -> set<CorrRow>
  {
    (m: Date) => MonthCorrelations(cells, m, pearson)
  }

  /** The whole `monthly_correlations` table: the union of every month's rows. */
  function CorrelationTable(cells: Cells, pearson: Pearson): set<CorrRow>
  {
    UnionOver(Months(cells), PerMonth(cells, pearson))
  }

  /** `pd.concat(records)`. */
  function Concat(records: seq<set<CorrRow>>): set<CorrRow>
  {
    if records == [] then {} else Concat(records[..|records| - 1]) + records[|records| - 1]
  }

  lemma ConcatAppend(records: seq<set<CorrRow>>, frame: set<CorrRow>)
    ensures Concat(records + [frame]) == Concat(records) + frame
  {
    assert (records + [frame])[..|records|] == records;
  }

  /**
   * `frame` is nothing when fewer than two columns of `dfMonth` have enough
   * returns, and otherwise one row per ordered pair of distinct such columns.
   */
  predicate PairFrame(dfMonth: Cells, month: Date, pearson: Pearson, frame: Option<set<CorrRow>>)
  {
    var kept := KeepColumns(Pivot(dfMonth), MinDaysPerAsset);
    && (frame.None? <==> |kept| < 2)
    && (frame.Some? ==> frame.value == Image(OffDiagonal(kept.Keys), PairRowOf(kept, month, pearson)))
  }

  /**
   * The body of the month loop for one group: pivot, drop thin columns,
   * correlate, stack, drop self-pairs, tag with the month.  `None` is the
   * `continue` taken when fewer than two columns survive.
   */
  method MonthFrame(dfMonth: Cells, month: Date, pearson: Pearson)
    returns (frame: Option<set<CorrRow>>)
    ensures PairFrame(dfMonth, month, pearson, frame)
  {
    var pivot := Pivot(dfMonth);
    pivot := KeepColumns(pivot, MinDaysPerAsset);
    if |pivot| < 2 {
      return None;
    }
    var corrMatrix := CorrMatrix(pivot, pearson);
    var corrLong := Stack(corrMatrix);
    corrLong := DropSelfPairs(corrLong);
    FrameRows(pivot, month, pearson);
    return Some(TagMonth(corrLong, month));
  }

  /**
   * The whole script: load the non-NULL returns, then build the table from
   * them.
   */
  method BuildMonthlyCorrelations(table: seq<DailyReturn>, pearson: Pearson)
    returns (monthlyCorr: set<CorrRow>)
    requires OneRowPerCell(table)
    ensures monthlyCorr == CorrelationTable(LoadReturns(table), pearson)
  {
    var cells := LoadReturns(table);
    monthlyCorr := CorrelateMonths(cells, pearson);
  }

  /** Visiting one more month adds the rows of that month's frame. */
  lemma MonthStep(cells: Cells, pearson: Pearson, months: seq<Date>, i: nat, frame: Option<set<CorrRow>>)
    requires i < |months|
    requires PairFrame(InMonth(cells, months[i]), months[i], pearson, frame)
    ensures UnionAlong(months[..i + 1], PerMonth(cells, pearson))
      == UnionAlong(months[..i], PerMonth(cells, pearson)) + (if frame.None? then {} else frame.value)
  {
    UnionAlongStep(months, i, PerMonth(cells, pearson));
    MonthRows(cells, months[i], pearson);
    assert PerMonth(cells, pearson)(months[i]) == MonthCorrelations(cells, months[i], pearson);
  }

  /** Appending a frame, if any, to frames whose union is `before` gives a union of `before` plus that frame. */
  lemma AppendStep(records: seq<set<CorrRow>>, frame: Option<set<CorrRow>>, before: set<CorrRow>, after: set<CorrRow>)
    requires Concat(records) == before
    requires after == before + (if frame.None? then {} else frame.value)
    ensures Concat(if frame.None? then records else records + [frame.value]) == after
  {
    if frame.Some? {
      ConcatAppend(records, frame.value);
    }
  }

  /**
   * One iteration of the month loop: build the frame of the `i`-th month and
   * append it to `records`, or `continue` when the month has no frame.
   */
  method AppendMonthFrame(cells: Cells, pearson: Pearson, months: seq<Date>, i: nat,
                          records: seq<set<CorrRow>>) returns (records': seq<set<CorrRow>>)
    requires i < |months|
    requires Concat(records) == UnionAlong(months[..i], PerMonth(cells, pearson))
    ensures Concat(records') == UnionAlong(months[..i + 1], PerMonth(cells, pearson))
  {
    var month := months[i];
    var dfMonth := InMonth(cells, month);
    var frame := MonthFrame(dfMonth, month, pearson);
    MonthStep(cells, pearson, months, i, frame);
    AppendStep(records, frame, UnionAlong(months[..i], PerMonth(cells, pearson)),
      UnionAlong(months[..i + 1], PerMonth(cells, pearson)));
    if frame.None? {
      return records;
    }
    return records + [frame.value];
  }

  /**
   * The script's month loop: `groupby("month")` visits the months in
   * ascending order and each month's frame is appended to `records`; the
   * frames are concatenated.
   */
  method CorrelateMonths(cells: Cells, pearson: Pearson)
    returns (monthlyCorr: set<CorrRow>)
    ensures monthlyCorr == CorrelationTable(cells, pearson)
  {
    var months := SortedKeys(Months(cells));
    var records: seq<set<CorrRow>> := [];
    for i := 0 to |months|
      invariant Concat(records) == UnionAlong(months[..i], PerMonth(cells, pearson))
    {
      records := AppendMonthFrame(cells, pearson, months, i, records);
    }
    assert months[..|months|] == months;
    UnionAlongIsUnionOver(months, PerMonth(cells, pearson));
    monthlyCorr := Concat(records);
  }

  /** The returns of asset `a` in month `m`, keyed by day. */
  function Column(cells: Cells, m: Date, a: Asset): Series
  {
    map k | k in cells && k.0 == a && MonthStart(k.1) == m :: k.1 := cells[k]
  }

  /**
   * An asset survives in month `m` exactly when it has at least
   * `MinDaysPerAsset` returns that month, and its surviving column is exactly
   * those returns: the filter looks at the asset's own column only.
   */
  lemma SurvivingColumns(cells: Cells, m: Date)
    ensures forall a :: a in Surviving(cells, m) <==> |Column(cells, m, a)| >= MinDaysPerAsset
    ensures forall a | a in Surviving(cells, m) :: Surviving(cells, m)[a] == Column(cells, m, a)
  {
    var dfMonth := InMonth(cells, m);
    var p := Pivot(dfMonth);
    forall a ensures (a in p ==> p[a] == Column(cells, m, a)) && (a !in p ==> Column(cells, m, a) == map[])
    {
      if a in p {
        assert p[a] == map d | d in DaysOf(dfMonth, a) :: dfMonth[(a, d)];
        assert p[a].Keys == Column(cells, m, a).Keys;
      }
    }
  }

  /** The long row for the ordered pair `ij` of columns of `cols`, tagged with `m`. */
  function PairRow(cols: Columns, m: Date, pearson: Pearson, ij: (Asset, Asset)): CorrRow
  {
    CorrRow(m, ij.0, ij.1,
      if ij.0 in cols && ij.1 in cols then pearson(AlignedOf(cols[ij.0], cols[ij.1])) else None)
  }

  /** `PairRow` as a function value. */
  function PairRowOf(cols: Columns, m: Date, pearson: Pearson): ((Asset, Asset)) -> CorrRow
  {
    ij => PairRow(cols, m, pearson, ij)
  }

  /** The stacked, self-pair-free, tagged matrix has one row per ordered pair of distinct columns. */
  lemma FrameRows(kept: Columns, m: Date, pearson: Pearson)
    ensures TagMonth(DropSelfPairs(Stack(CorrMatrix(kept, pearson))), m)
      == Image(OffDiagonal(kept.Keys), PairRowOf(kept, m, pearson))
  {
    var c := CorrMatrix(kept, pearson);
    var rows := TagMonth(DropSelfPairs(Stack(c)), m);
    var image := Image(OffDiagonal(kept.Keys), PairRowOf(kept, m, pearson));
    forall r | r in rows ensures r in image {
      var l :| l in DropSelfPairs(Stack(c)) && r == CorrRow(m, l.assetI, l.assetJ, l.corr);
      var k :| k in c && l == LongRow(k.0, k.1, c[k]);
      assert k in OffDiagonal(kept.Keys);
      assert PairRow(kept, m, pearson, k) == r;
    }
    forall r | r in image ensures r in rows {
      var ij :| ij in OffDiagonal(kept.Keys) && r == PairRow(kept, m, pearson, ij);
      assert LongRow(ij.0, ij.1, c[ij]) in DropSelfPairs(Stack(c));
    }
  }

  /**
   * What month `m` contributes: nothing when fewer than two columns survive,
   * otherwise one row per ordered pair of distinct surviving columns.
   */
  lemma MonthRows(cells: Cells, m: Date, pearson: Pearson)
    ensures var kept := Surviving(cells, m);
      MonthCorrelations(cells, m, pearson)
      == if |kept| < 2 then {} else Image(OffDiagonal(kept.Keys), PairRowOf(kept, m, pearson))
  {
    FrameRows(Surviving(cells, m), m, pearson);
  }

  /** The rows built from columns `kept`, characterised row by row. */
  lemma KeptRowIff(kept: Columns, m: Date, pearson: Pearson, r: CorrRow)
    ensures r in (if |kept| < 2 then {} else Image(OffDiagonal(kept.Keys), PairRowOf(kept, m, pearson)))
      <==> (r.month == m && r.assetI != r.assetJ && r.assetI in kept && r.assetJ in kept
           && r.corr == pearson(AlignedOf(kept[r.assetI], kept[r.assetJ])))
  {
    var f := PairRowOf(kept, m, pearson);
    if r.month == m && r.assetI != r.assetJ && r.assetI in kept && r.assetJ in kept {
      SubsetSize({r.assetI, r.assetJ}, kept.Keys);
      assert (r.assetI, r.assetJ) in OffDiagonal(kept.Keys);
      assert f((r.assetI, r.assetJ)) == r || r.corr != f((r.assetI, r.assetJ)).corr;
    }
  }

  /** One asset's column survives exactly when it has enough days, and is then kept whole. */
  lemma SurvivingColumn(cells: Cells, m: Date, a: Asset)
    ensures a in Surviving(cells, m) <==> |Column(cells, m, a)| >= MinDaysPerAsset
    ensures a in Surviving(cells, m) ==> Surviving(cells, m)[a] == Column(cells, m, a)
  {
    SurvivingColumns(cells, m);
  }

  /** `MonthRows`, row by row. */
  lemma MonthRowsIff(cells: Cells, m: Date, pearson: Pearson, r: CorrRow)
    ensures var kept := Surviving(cells, m);
      r in MonthCorrelations(cells, m, pearson) <==>
      r in (if |kept| < 2 then {} else Image(OffDiagonal(kept.Keys), PairRowOf(kept, m, pearson)))
  {
    MonthRows(cells, m, pearson);
  }

  /**
   * A row belongs to month `m`'s frame exactly when it is tagged `m`, pairs
   * two different assets that each have at least `MinDaysPerAsset` returns
   * in `m`, and carries Pearson's coefficient of their pairwise-complete
   * returns.  The coefficient depends on those two columns only.
   */
  lemma MonthRowIff(cells: Cells, m: Date, pearson: Pearson, r: CorrRow)
    ensures r in MonthCorrelations(cells, m, pearson) <==>
      r.month == m && r.assetI != r.assetJ
      && |Column(cells, m, r.assetI)| >= MinDaysPerAsset
      && |Column(cells, m, r.assetJ)| >= MinDaysPerAsset
      && r.corr == pearson(AlignedOf(Column(cells, m, r.assetI), Column(cells, m, r.assetJ)))
  {
    var kept := Surviving(cells, m);
    SurvivingColumn(cells, m, r.assetI);
    SurvivingColumn(cells, m, r.assetJ);
    MonthRowsIff(cells, m, pearson, r);
    KeptRowIff(kept, m, pearson, r);
  }

  /** Distinct ordered pairs of kept assets give distinct rows. */
  lemma KeptRowCount(kept: Columns, m: Date, pearson: Pearson)
    ensures |Image(OffDiagonal(kept.Keys), PairRowOf(kept, m, pearson))| == OrderedPairs(|kept.Keys|)
  {
    var f := PairRowOf(kept, m, pearson);
    forall x, y | x in OffDiagonal(kept.Keys) && y in OffDiagonal(kept.Keys) && f(x) == f(y) ensures x == y {
      assert f(x).assetI == x.0 && f(x).assetJ == x.1;
    }
    InjectiveImageSize(OffDiagonal(kept.Keys), f);
    OffDiagonalSize(kept.Keys);
  }

  /**
   * A month whose surviving columns number k >= 2 contributes k * (k - 1)
   * rows (both orientations of every pair), a month with fewer none.
   */
  lemma MonthRowCount(cells: Cells, m: Date, pearson: Pearson)
    ensures var k := |Surviving(cells, m)|;
      |MonthCorrelations(cells, m, pearson)| == if k < 2 then 0 else OrderedPairs(k)
  {
    var kept := Surviving(cells, m);
    MonthRows(cells, m, pearson);
    KeptRowCount(kept, m, pearson);
    assert |kept| == |kept.Keys|;
  }

  /**
   * A row is in the table exactly when its month has data and the row is
   * among that month's rows; every month key is the first day of a month.
   */
  lemma TableRowIff(cells: Cells, pearson: Pearson, r: CorrRow)
    ensures r in CorrelationTable(cells, pearson) <==>
      r.month in Months(cells) && r in MonthCorrelations(cells, r.month, pearson)
    ensures r in CorrelationTable(cells, pearson) ==> r.month.day == 1
  {
    forall m, y | m in Months(cells) && y in PerMonth(cells, pearson)(m) ensures y.month == m {
      MonthRowIff(cells, m, pearson, y);
    }
    UnionOverKeyed(Months(cells), PerMonth(cells, pearson), (y: CorrRow) => y.month, r);
  }

  /** The table holds no self-pair. */
  lemma NoSelfPairs(cells: Cells, pearson: Pearson)
    ensures forall r | r in CorrelationTable(cells, pearson) :: r.assetI != r.assetJ
  {
    forall r | r in CorrelationTable(cells, pearson) ensures r.assetI != r.assetJ {
      TableRowIff(cells, pearson, r);
      MonthRowIff(cells, r.month, pearson, r);
    }
  }

  /** Exchanging the two series exchanges the coordinates of their aligned pairs. */
  lemma AlignedSwap(si: Series, sj: Series)
    ensures AlignedOf(sj, si) == Swapped(AlignedOf(si, sj))
  {
  }

  /**
   * With a symmetric coefficient the table is symmetric: (m, i, j, c) is a
   * row exactly when (m, j, i, c) is.
   */
  lemma TableSymmetric(cells: Cells, pearson: Pearson, r: CorrRow)
    requires Symmetric(pearson)
    ensures r in CorrelationTable(cells, pearson) <==>
      CorrRow(r.month, r.assetJ, r.assetI, r.corr) in CorrelationTable(cells, pearson)
  {
    var s := CorrRow(r.month, r.assetJ, r.assetI, r.corr);
    TableRowIff(cells, pearson, r);
    TableRowIff(cells, pearson, s);
    MonthRowIff(cells, r.month, pearson, r);
    MonthRowIff(cells, r.month, pearson, s);
    var ci := Column(cells, r.month, r.assetI);
    var cj := Column(cells, r.month, r.assetJ);
    AlignedSwap(ci, cj);
    assert pearson(AlignedOf(cj, ci)) == pearson(AlignedOf(ci, cj));
  }

  /**
   * The correlation of a pair depends on the two assets' returns in that
   * month only: data that agrees on those two columns yields the same row,
   * whatever the other assets hold.
   */
  lemma PairLocality(cells1: Cells, cells2: Cells, m: Date, pearson: Pearson, r: CorrRow)
    requires r.month == m
    requires Column(cells1, m, r.assetI) == Column(cells2, m, r.assetI)
    requires Column(cells1, m, r.assetJ) == Column(cells2, m, r.assetJ)
    ensures r in MonthCorrelations(cells1, m, pearson) <==> r in MonthCorrelations(cells2, m, pearson)
  {
    MonthRowIff(cells1, m, pearson, r);
    MonthRowIff(cells2, m, pearson, r);
  }
}
