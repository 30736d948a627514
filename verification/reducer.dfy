/**
 * The label reducer: how many rows of the index bar fit in its height, and
 * which strings are shown in them (`desiredHeight`,
 * `numberOfDisplayableRows`, `updateDisplaedIndexStrings`).
 *
 * When every label fits, the labels are shown as they are. Otherwise the
 * number of rows is forced odd, every odd row shows the truncation marker
 * and every even row shows the label found by striding through the labels
 * with the whole-number step `N / rows`.
 */
module Reducer {
  import opened Geometry

  /** The measurements the reducer works from. */
  datatype Sizing = Sizing(lineHeight: real, textSpacing: real, boundsHeight: real)
  {
    /** A row has height, so the bounds can be divided into rows. */
    predicate Valid()
    {
      RowHeight() > 0.0
    }

    function RowHeight(): real
    {
      lineHeight + textSpacing
    }
  }

  /**
   * `desiredHeight`: the height needed to show `n` rows between two
   * spacings. With no rows it is the two spacings; with rows of height it
   * strictly grows with the row count.
   */
  function DesiredHeight(sz: Sizing, n: nat): (h: real)
    ensures n == 0 ==> h == 2.0 * sz.textSpacing
    ensures sz.Valid() && n > 0 ==> h > 2.0 * sz.textSpacing
  {
    sz.textSpacing * 2.0 + sz.RowHeight() * n as real
  }

  /** Every further label adds exactly one row's height. */
  lemma DesiredHeightAddsARow(sz: Sizing, n: nat)
    ensures DesiredHeight(sz, n + 1) == DesiredHeight(sz, n) + sz.RowHeight()
  {
  }

  /** When `n` labels fit, so do fewer: fitting is closed downwards. */
  lemma FewerLabelsStillFit(sz: Sizing, m: nat, n: nat)
    requires sz.Valid() && m <= n && Fits(sz, n)
    ensures Fits(sz, m)
  {
    MulMonotone(m as real, n as real, sz.RowHeight());
  }

  /** All `n` labels fit in the bar's bounds. */
  predicate Fits(sz: Sizing, n: nat)
  {
    DesiredHeight(sz, n) <= sz.boundsHeight
  }

  /** Whole rows in the bounds height, truncated as `Int(_:)` does. */
  function RowsThatFit(sz: Sizing): (k: int)
    requires sz.Valid()
    ensures sz.boundsHeight >= 0.0 ==> k >= 0 && k as real * sz.RowHeight() <= sz.boundsHeight
    ensures sz.boundsHeight >= 0.0 ==> sz.boundsHeight < (k as real + 1.0) * sz.RowHeight()
    ensures k >= 1 <==> sz.boundsHeight >= sz.RowHeight()
  {
    WholeRowsFacts(sz.boundsHeight, sz.RowHeight());
    Trunc(sz.boundsHeight / sz.RowHeight())
  }

  /** What truncating `h / rh` says about whole rows of height `rh` in `h`. */
  lemma WholeRowsFacts(h: real, rh: real)
    requires rh > 0.0
    ensures h >= 0.0 ==> Trunc(h / rh) >= 0
    ensures h >= 0.0 ==> Trunc(h / rh) as real * rh <= h
    ensures h >= 0.0 ==> h < (Trunc(h / rh) as real + 1.0) * rh
    ensures Trunc(h / rh) >= 1 <==> h >= rh
  {
    var q := h / rh;
    DivTimes(h, rh);
    if h >= 0.0 {
      DivMonotone(0.0, h, rh);
      WholeRowsBetween(h, rh, q);
    }
    TruncAtLeastOne(q);
    DivAtLeastOne(h, rh);
  }

  lemma WholeRowsBetween(h: real, rh: real, q: real)
    requires rh > 0.0 && q >= 0.0 && q * rh == h
    ensures q.Floor >= 0
    ensures q.Floor as real * rh <= h
    ensures h < (q.Floor as real + 1.0) * rh
  {
    var k := q.Floor as real;
    assert k <= q < k + 1.0;
    var up := k + 1.0;
    MulMonotone(k, q, rh);
    MulMonotone(q, up, rh);
    assert q * rh < up * rh;
    assert h < up * rh;
  }

  lemma TruncAtLeastOne(q: real)
    ensures Trunc(q) >= 1 <==> q >= 1.0
  {
  }

  lemma DivAtLeastOne(h: real, rh: real)
    requires rh > 0.0
    ensures h / rh >= 1.0 <==> h >= rh
  {
  }

  lemma DivTimes(h: real, rh: real)
    requires rh > 0.0
    ensures (h / rh) * rh == h
  {
  }

  /**
   * `numberOfDisplayableRows`: `n` when all labels fit, otherwise the
   * largest odd number not above the rows that fit. It is then at least one
   * exactly when one row's height fits, and, for a line of positive
   * height, at most one more than `n`. Only the truncating path divides, so
   * only it needs rows of positive height.
   */
  function DisplayableRows(sz: Sizing, n: nat): (rows: int)
    requires Fits(sz, n) || sz.Valid()
    ensures Fits(sz, n) ==> rows == n
    ensures !Fits(sz, n) ==> rows % 2 == 1 && rows <= RowsThatFit(sz) <= rows + 1
    ensures !Fits(sz, n) ==> (rows >= 1 <==> sz.boundsHeight >= sz.RowHeight())
    ensures !Fits(sz, n) && sz.lineHeight > 0.0 ==> rows <= n + 1
  {
    if DesiredHeight(sz, n) > sz.boundsHeight then
      var fit := RowsThatFit(sz);
      assert sz.lineHeight > 0.0 ==> fit <= n + 1 by {
        if sz.lineHeight > 0.0 { RowsThatFitBound(sz, n); }
      }
      fit - (if fit % 2 == 0 then 1 else 0)
    else
      n
  }

  /**
   * When the labels do not fit, the rows that fit are fewer than `n + 2`:
   * the two spacings are together less than two rows.
   */
  lemma RowsThatFitBound(sz: Sizing, n: nat)
    requires sz.Valid() && sz.lineHeight > 0.0 && !Fits(sz, n)
    ensures RowsThatFit(sz) <= n + 1
  {
    var k := RowsThatFit(sz);
    BelowTwoMoreRows(sz, n);
    if sz.boundsHeight >= 0.0 {
      WholeCancel(k, n + 2, sz.RowHeight(), sz.boundsHeight);
    }
  }

  /** A bar too short for `n` labels is shorter than `n + 2` rows. */
  lemma BelowTwoMoreRows(sz: Sizing, n: nat)
    requires sz.lineHeight > 0.0 && !Fits(sz, n)
    ensures sz.boundsHeight < (n + 2) as real * sz.RowHeight()
  {
    var rh := sz.RowHeight();
    assert sz.boundsHeight < 2.0 * sz.textSpacing + rh * n as real;
    assert 2.0 * sz.textSpacing < 2.0 * rh;
    assert (n + 2) as real * rh == n as real * rh + 2.0 * rh;
  }

  /**
   * The bar can show one row more than there are labels: two labels, rows
   * 10 high with 9 of them spacing, in a bar 35 high give three rows.
   */
  lemma RowsCanExceedLabelCount()
    ensures DisplayableRows(Sizing(1.0, 9.0, 35.0), 2) == 3
  {
    var sz := Sizing(1.0, 9.0, 35.0);
    assert !Fits(sz, 2);
    assert Trunc(3.5) == 3;
  }

  /**
   * The reducer does not trap: either every label fits, or rows have a
   * positive height, at least one row fits and there is a last label to
   * fall back on. The source traps on a row count that is not positive (the
   * range `0..<rows`) and on `indexStrings.last!` of an empty list.
   */
  predicate Reducible(sz: Sizing, n: nat)
  {
    Fits(sz, n) || (sz.Valid() && n >= 1 && sz.boundsHeight >= sz.RowHeight())
  }

  /**
   * Index of the label shown in even row `i` of `rows` when the labels are
   * truncated: the stride position `i * (n / rows)`, the last label once
   * that runs past the end, and on the last row the last label unless the
   * stride position equals `rows - 1`.
   */
  function LabelIndex(n: nat, rows: nat, i: nat): (k: nat)
    requires n >= 1 && rows >= 1
    ensures k < n
  {
    var candidate := i * (n / rows);
    if candidate >= n then n - 1
    else if i + 1 == rows && candidate != rows - 1 then n - 1
    else candidate
  }

  /** The string shown in row `i` of a truncated plan of `rows` rows. */
  function RowText(labels: seq<string>, marker: string, rows: nat, i: nat): string
    requires |labels| >= 1 && rows >= 1
  {
    if i % 2 == 1 then marker else labels[LabelIndex(|labels|, rows, i)]
  }

  /** The truncated plan of `rows` rows, row by row. */
  function TruncatedPlan(labels: seq<string>, marker: string, rows: nat): (plan: seq<string>)
    requires |labels| >= 1 && rows >= 1
    ensures |plan| == rows
    ensures forall i | 0 <= i < rows :: plan[i] == RowText(labels, marker, rows, i)
  {
    seq(rows, i requires 0 <= i < rows => RowText(labels, marker, rows, i))
  }

  /** `displayedIndexStrings` after `updateDisplaedIndexStrings`. */
  function DisplayPlan(labels: seq<string>, marker: string, sz: Sizing): (plan: seq<string>)
    requires Reducible(sz, |labels|)
    ensures Fits(sz, |labels|) ==> plan == labels
    ensures !Fits(sz, |labels|) ==> |plan| == DisplayableRows(sz, |labels|)
    ensures forall i | 0 <= i < |plan| :: plan[i] == marker || plan[i] in labels
    ensures !Fits(sz, |labels|) ==> forall i | 0 <= i < |plan| && i % 2 == 1 :: plan[i] == marker
    ensures !Fits(sz, |labels|) ==> plan[0] == labels[0]
  {
    if Fits(sz, |labels|) then labels
    else TruncatedPlan(labels, marker, DisplayableRows(sz, |labels|))
  }

  /**
   * `updateDisplaedIndexStrings` as the source runs it: the labels as they
   * are when they fit, and the row-by-row loop otherwise.
   */
  method UpdateDisplayedIndexStrings(labels: seq<string>, marker: string, sz: Sizing)
    returns (displayed: seq<string>)
    requires Reducible(sz, |labels|)
    ensures displayed == DisplayPlan(labels, marker, sz)
  {
    if !(DesiredHeight(sz, |labels|) > sz.boundsHeight) {
      return labels;
    }
    var rows := DisplayableRows(sz, |labels|);
    displayed := FillRows(labels, marker, rows);
  }

  /**
   * The loop of `updateDisplaedIndexStrings`: the stride index grows by
   * `count / rows` per row, and each `insert(_:at: i)` lands at the end of
   * the list built so far.
   */
  method FillRows(labels: seq<string>, marker: string, rows: nat) returns (displayed: seq<string>)
    requires |labels| >= 1 && rows >= 1
    ensures displayed == TruncatedPlan(labels, marker, rows)
  {
    displayed := [];
    var step := |labels| / rows;
    var stepIndex := 0;
    var i := 0;
    while i < rows
      invariant 0 <= i <= rows
      invariant stepIndex == i * step
      invariant |displayed| == i
      invariant forall j | 0 <= j < i :: displayed[j] == RowText(labels, marker, rows, j)
    {
      var text := RowAt(labels, marker, rows, i, stepIndex);
      displayed := displayed + [text];
      stepIndex := stepIndex + step;
      i := i + 1;
    }
  }

  /**
   * The body of that loop for row `i`, whose stride index is
   * `letterIndex`: the marker on an odd row; on an even row the label at
   * the stride index, or the last label when the index is past the end or
   * when this is the last row and the index is not `rows - 1`.
   */
  method RowAt(labels: seq<string>, marker: string, rows: nat, i: nat, letterIndex: nat)
    returns (text: string)
    requires |labels| >= 1 && rows >= 1 && letterIndex == i * (|labels| / rows)
    ensures text == RowText(labels, marker, rows, i)
  {
    if i % 2 == 1 {
      text := marker;
    } else {
      if letterIndex < |labels| {
        if i + 1 == rows && letterIndex != rows - 1 {
          text := labels[|labels| - 1];
        } else {
          text := labels[letterIndex];
        }
      } else {
        text := labels[|labels| - 1];
      }
    }
  }

  /**
   * The row rule of a truncated plan: even row `i` shows the label at its
   * stride position `i * (n / rows)`; past the end it shows the last label;
   * on the last row it shows the last label unless the stride position is
   * `rows - 1`.
   */
  lemma EvenRowShowsStrideLabel(labels: seq<string>, marker: string, sz: Sizing, i: nat)
    requires Reducible(sz, |labels|) && !Fits(sz, |labels|)
    requires i < DisplayableRows(sz, |labels|) && i % 2 == 0
    ensures var n := |labels|;
      var rows := DisplayableRows(sz, n);
      var p := i * (n / rows);
      var shown := DisplayPlan(labels, marker, sz)[i];
      && (p >= n ==> shown == labels[n - 1])
      && (p < n && i + 1 < rows ==> shown == labels[p])
      && (p < n && i + 1 == rows ==> shown == labels[if p == rows - 1 then p else n - 1])
  {
  }

  /**
   * The labels of a truncated plan appear in their original order: the
   * source index of a row never decreases further down the bar.
   */
  lemma ShownLabelsKeepSourceOrder(n: nat, rows: nat, i: nat, j: nat)
    requires n >= 1 && rows >= 1 && i <= j < rows
    ensures LabelIndex(n, rows, i) <= LabelIndex(n, rows, j)
  {
    MulMonotoneNat(i, j, n / rows);
  }

  /**
   * As written, the last row misses the last label exactly when there are
   * fewer rows than labels and either there is a single row or the stride
   * is one: then the stride position of the last row is `rows - 1`, which
   * is what the last-row test compares against.
   */
  lemma LastRowMissesLastLabelIff(n: nat, rows: nat)
    requires n >= 1 && rows >= 1
    ensures LabelIndex(n, rows, rows - 1) != n - 1 <==> rows < n && (rows == 1 || n / rows == 1)
  {
    var q := n / rows;
    var c := (rows - 1) * q;
    if q >= 2 {
      MulMonotoneNat(2, q, rows - 1);
    }
    if rows == 1 || q == 1 {
      assert c == rows - 1;
    }
  }

  /** Nine rows of height 15 fit in 135 points; 26 such rows do not. */
  lemma NineRowsOfFifteen()
    ensures var sz := Sizing(10.0, 5.0, 135.0);
      sz.Valid() && !Fits(sz, 26) && DisplayableRows(sz, 26) == 9
  {
    var sz := Sizing(10.0, 5.0, 135.0);
    assert DesiredHeight(sz, 26) == 400.0;
    assert sz.boundsHeight / sz.RowHeight() == 9.0;
    assert Trunc(9.0) == 9;
  }

  /**
   * Twenty-six labels (A to Z, say) in a bar nine rows high: stride two,
   * markers on the odd rows, and the last label forced onto the last row.
   */
  lemma TwentySixLabelsInNineRows(labels: seq<string>, marker: string)
    requires |labels| == 26
    ensures DisplayPlan(labels, marker, Sizing(10.0, 5.0, 135.0))
         == [labels[0], marker, labels[4], marker, labels[8], marker, labels[12], marker, labels[25]]
  {
    NineRowsOfFifteen();
    var plan := DisplayPlan(labels, marker, Sizing(10.0, 5.0, 135.0));
    assert |plan| == 9;
    assert 26 / 9 == 2;
    assert plan[0] == labels[LabelIndex(26, 9, 0)] && LabelIndex(26, 9, 0) == 0;
    assert plan[2] == labels[LabelIndex(26, 9, 2)] && LabelIndex(26, 9, 2) == 4;
    assert plan[4] == labels[LabelIndex(26, 9, 4)] && LabelIndex(26, 9, 4) == 8;
    assert plan[6] == labels[LabelIndex(26, 9, 6)] && LabelIndex(26, 9, 6) == 12;
    assert plan[8] == labels[LabelIndex(26, 9, 8)] && LabelIndex(26, 9, 8) == 25;
  }

  /** Fifteen rows of height 15 fit in 225 points; 26 such rows do not. */
  lemma FifteenRowsOfFifteen()
    ensures var sz := Sizing(10.0, 5.0, 225.0);
      sz.Valid() && !Fits(sz, 26) && DisplayableRows(sz, 26) == 15
  {
    var sz := Sizing(10.0, 5.0, 225.0);
    assert DesiredHeight(sz, 26) == 400.0;
    assert sz.boundsHeight / sz.RowHeight() == 15.0;
    assert Trunc(15.0) == 15;
  }

  /**
   * Twenty-six distinct labels in a bar fifteen rows high: the stride is
   * one, the last row's stride position is 14 = rows - 1, so the bar ends
   * on the fifteenth label and never shows the last one.
   */
  lemma TwentySixLabelsInFifteenRowsHideTheLast(labels: seq<string>, marker: string)
    requires |labels| == 26 && marker != labels[25]
    requires forall i | 0 <= i < 25 :: labels[i] != labels[25]
    ensures var plan := DisplayPlan(labels, marker, Sizing(10.0, 5.0, 225.0));
      |plan| == 15 && plan[14] == labels[14] && labels[25] !in plan
  {
    FifteenRowsOfFifteen();
    var plan := DisplayPlan(labels, marker, Sizing(10.0, 5.0, 225.0));
    assert |plan| == 15;
    forall i | 0 <= i < 15
      ensures plan[i] != labels[25]
    {
      if i % 2 == 0 {
        assert LabelIndex(26, 15, i) == i;
      }
    }
  }

  /**
   * The last-row rule as the comment above it describes it: compare the
   * stride position with the last label's index, so that the last row
   * always shows the last label.
   */
  function LabelIndexCorrected(n: nat, rows: nat, i: nat): (k: nat)
    requires n >= 1 && rows >= 1
    ensures k < n
    ensures i + 1 == rows ==> k == n - 1
    ensures i + 1 != rows ==> k == LabelIndex(n, rows, i)
  {
    var candidate := i * (n / rows);
    if candidate >= n then n - 1
    else if i + 1 == rows && candidate != n - 1 then n - 1
    else candidate
  }

  /** The string shown in row `i` with the corrected last-row rule. */
  function RowTextCorrected(labels: seq<string>, marker: string, rows: nat, i: nat): string
    requires |labels| >= 1 && rows >= 1
  {
    if i % 2 == 1 then marker else labels[LabelIndexCorrected(|labels|, rows, i)]
  }

  /** The display plan with the corrected last-row rule. */
  function DisplayPlanCorrected(labels: seq<string>, marker: string, sz: Sizing): (plan: seq<string>)
    requires Reducible(sz, |labels|)
    ensures Fits(sz, |labels|) ==> plan == labels
    ensures |plan| >= 2 ==> plan[0] == labels[0]
    ensures |plan| >= 1 ==> plan[|plan| - 1] == labels[|labels| - 1]
  {
    if Fits(sz, |labels|) then labels
    else
      var rows := DisplayableRows(sz, |labels|);
      var plan := seq(rows, i requires 0 <= i < rows => RowTextCorrected(labels, marker, rows, i));
      assert plan[rows - 1] == labels[|labels| - 1] by {
        assert (rows - 1) % 2 == 0;
      }
      plan
  }

  /** The correction changes the last row of the plan and nothing else. */
  lemma CorrectionOnlyTouchesLastRow(labels: seq<string>, marker: string, sz: Sizing)
    requires Reducible(sz, |labels|)
    ensures var plan := DisplayPlan(labels, marker, sz);
      var fixed := DisplayPlanCorrected(labels, marker, sz);
      |fixed| == |plan| && forall i | 0 <= i < |plan| - 1 :: fixed[i] == plan[i]
  {
  }
}
