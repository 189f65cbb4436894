/**
  What the layout pass computes, stated on values: the size chosen for each
  child, its padding and padded totals, the row height, each child's bounds
  from the x/y cursors, and the content size used to crop the container.
*/
module Geometry {
  import opened JavaLang
  import opened Awt
  import opened StyleDirectives
  import opened RowPartition

  /** What the pass reads from one visible child before placing it. */
  datatype MemberInput = MemberInput(size: Dim, pref: Dim, styles: map<string, string>)

  /** What the pass records for one child (the fields of its `DebugInfo`). */
  datatype Measured = Measured(
    width: int, height: int, totalWidth: int, totalHeight: int,
    paddingLeft: Byte, paddingRight: Byte, paddingTop: Byte, paddingBottom: Byte)

  /** The current size, unless it falls short of the preferred size in either dimension. */
  function ChosenSize(size: Dim, pref: Dim): (d: Dim)
  {
    if size.width < pref.width || size.height < pref.height then pref else size
  }

  /** The chosen size never falls short of the preferred size and is one of the two sizes. */
  lemma ChosenSizeMeaning(size: Dim, pref: Dim)
    ensures ChosenSize(size, pref).width >= pref.width && ChosenSize(size, pref).height >= pref.height
    ensures ChosenSize(size, pref) == size <==> (size.width >= pref.width && size.height >= pref.height) || size == pref
    ensures ChosenSize(size, pref) != size ==> ChosenSize(size, pref) == pref
  {
  }

  /** One short dimension replaces both: a wide but short child is narrowed to its preferred width. */
  lemma ShortDimensionReplacesBoth()
    ensures ChosenSize(Dim(200, 10), Dim(50, 20)) == Dim(50, 20)
  {
  }

  /** A padding entry: absent counts as 0, present must parse as a byte. */
  function PaddingOf(styles: map<string, string>, key: string): (r: Result<Byte>)
    ensures key !in styles ==> r == Ok(0)
    ensures key in styles ==> r == ParseByte(styles[key])
  {
    if key in styles then ParseByte(styles[key]) else Ok(0)
  }

  /** The size and padding of one child: padding adds to the chosen size, and an unparsable entry fails. */
  function Measure(input: MemberInput): (r: Result<Measured>)
    ensures r.Err? ==> r.error == NumberFormatException
  {
    var d := ChosenSize(input.size, input.pref);
    var left :- PaddingOf(input.styles, PaddingLeft.key);
    var right :- PaddingOf(input.styles, PaddingRight.key);
    var top :- PaddingOf(input.styles, PaddingTop.key);
    var bottom :- PaddingOf(input.styles, PaddingBottom.key);
    Ok(Measured(d.width, d.height, d.width + left + right, d.height + top + bottom, left, right, top, bottom))
  }

  /**
    A member measures successfully exactly when its four padding entries parse;
    then its size is the chosen size, its paddings are the parsed entries, and
    each total is the size plus the two paddings on that axis.
  */
  lemma MeasureMeaning(input: MemberInput)
    ensures Measure(input).Ok? <==>
      PaddingOf(input.styles, PaddingLeft.key).Ok? && PaddingOf(input.styles, PaddingRight.key).Ok? &&
      PaddingOf(input.styles, PaddingTop.key).Ok? && PaddingOf(input.styles, PaddingBottom.key).Ok?
    ensures Measure(input).Ok? ==>
      var m := Measure(input).value;
      var d := ChosenSize(input.size, input.pref);
      m.width == d.width && m.height == d.height &&
      m.paddingLeft == PaddingOf(input.styles, PaddingLeft.key).value &&
      m.paddingRight == PaddingOf(input.styles, PaddingRight.key).value &&
      m.paddingTop == PaddingOf(input.styles, PaddingTop.key).value &&
      m.paddingBottom == PaddingOf(input.styles, PaddingBottom.key).value &&
      m.totalWidth == m.width + m.paddingLeft + m.paddingRight &&
      m.totalHeight == m.height + m.paddingTop + m.paddingBottom
  {
  }

  /** Without padding entries the totals are the chosen size itself. */
  lemma MeasureWithoutPadding(input: MemberInput)
    requires forall k :: k in PaddingKeys ==> k !in input.styles
    ensures Measure(input).Ok?
    ensures Measure(input).value.totalWidth == ChosenSize(input.size, input.pref).width
    ensures Measure(input).value.totalHeight == ChosenSize(input.size, input.pref).height
  {
  }

  /** The default child style pads every side by 5. */
  lemma MeasureDefaultStyles(size: Dim, pref: Dim)
    ensures Measure(MemberInput(size, pref, DefaultChildStyles)).Ok?
    ensures Measure(MemberInput(size, pref, DefaultChildStyles)).value.totalWidth == ChosenSize(size, pref).width + 10
    ensures Measure(MemberInput(size, pref, DefaultChildStyles)).value.totalHeight == ChosenSize(size, pref).height + 10
  {
    DefaultPaddingParses();
  }

  /**
    A padding set with `paddingLeft(px)` (or any of the four setters) is read
    back by the pass as `(byte) px`.
  */
  lemma PaddingSetterRoundTrip(styles: map<string, string>, key: string, px: int)
    ensures PaddingOf(styles[key := IntToDecimal(ToByte(px))], key) == Ok(ToByte(px))
  {
    ParseByteOfDecimal(ToByte(px));
  }

  /** Each member's axis flag, as `isHorizontal` reads it from the member's directives. */
  function AxesOf(ins: seq<MemberInput>): (flags: seq<bool>)
    ensures |flags| == |ins|
    ensures forall j :: 0 <= j < |ins| ==> flags[j] == IsHorizontal(ins[j].styles)
  {
    seq(|ins|, j requires 0 <= j < |ins| => IsHorizontal(ins[j].styles))
  }

  /** What a pass measures, row by row: the visible members' inputs cut along the rows of their axis flags. */
  function PassRows(ins: seq<MemberInput>): seq<seq<MemberInput>>
  {
    CutAll(ins, RowSlices(AxesOf(ins)))
  }

  // ROWS

  /** Measures the members of one row in order; the first unparsable padding fails the row. */
  function MeasureAll(ins: seq<MemberInput>): (r: Result<seq<Measured>>)
    ensures r.Err? ==> r.error == NumberFormatException
    ensures r.Ok? ==> |r.value| == |ins|
    decreases |ins|
  {
    if ins == [] then Ok([])
    else
      var init :- MeasureAll(ins[..|ins| - 1]);
      var m :- Measure(ins[|ins| - 1]);
      Ok(init + [m])
  }

  /** Measures every row in order. */
  function MeasureRows(rows: seq<seq<MemberInput>>): (r: Result<seq<seq<Measured>>>)
    ensures r.Err? ==> r.error == NumberFormatException
    ensures r.Ok? ==> |r.value| == |rows|
    decreases |rows|
  {
    if rows == [] then Ok([])
    else
      var init :- MeasureRows(rows[..|rows| - 1]);
      var ms :- MeasureAll(rows[|rows| - 1]);
      Ok(init + [ms])
  }

  /** A row measures exactly when each of its members does, member by member in order. */
  lemma {:induction false} MeasureAllMeaning(ins: seq<MemberInput>)
    ensures MeasureAll(ins).Ok? <==> forall j :: 0 <= j < |ins| ==> Measure(ins[j]).Ok?
    ensures MeasureAll(ins).Ok? ==> forall j :: 0 <= j < |ins| ==> MeasureAll(ins).value[j] == Measure(ins[j]).value
    decreases |ins|
  {
    if ins != [] {
      var init := ins[..|ins| - 1];
      MeasureAllMeaning(init);
      assert forall j :: 0 <= j < |init| ==> init[j] == ins[j];
    }
  }

  /** Measuring a row prefix one member further. */
  lemma MeasureAllExtend(ins: seq<MemberInput>, j: nat, ms: seq<Measured>, m: Measured)
    requires j < |ins| && MeasureAll(ins[..j]) == Ok(ms) && Measure(ins[j]) == Ok(m)
    ensures MeasureAll(ins[..j + 1]) == Ok(ms + [m])
  {
    assert ins[..j + 1][..j] == ins[..j];
  }

  /** One member that fails to measure makes the whole row fail. */
  lemma MeasureAllFails(ins: seq<MemberInput>, j: nat)
    requires j < |ins| && Measure(ins[j]).Err?
    ensures MeasureAll(ins).Err?
  {
    MeasureAllMeaning(ins);
  }

  /** The rows measure exactly when each row does, row by row in order. */
  lemma {:induction false} MeasureRowsMeaning(rows: seq<seq<MemberInput>>)
    ensures MeasureRows(rows).Ok? <==> forall k :: 0 <= k < |rows| ==> MeasureAll(rows[k]).Ok?
    ensures MeasureRows(rows).Ok? ==> forall k :: 0 <= k < |rows| ==> MeasureRows(rows).value[k] == MeasureAll(rows[k]).value
    decreases |rows|
  {
    if rows != [] {
      var init := rows[..|rows| - 1];
      MeasureRowsMeaning(init);
      assert forall k :: 0 <= k < |init| ==> init[k] == rows[k];
    }
  }

  /** Measuring a prefix of the rows one row further. */
  lemma MeasureRowsExtend(rows: seq<seq<MemberInput>>, k: nat, mss: seq<seq<Measured>>, ms: seq<Measured>)
    requires k < |rows| && MeasureRows(rows[..k]) == Ok(mss) && MeasureAll(rows[k]) == Ok(ms)
    ensures MeasureRows(rows[..k + 1]) == Ok(mss + [ms])
  {
    assert rows[..k + 1][..k] == rows[..k];
  }

  /** One row that fails to measure makes the whole pass fail. */
  lemma MeasureRowsFails(rows: seq<seq<MemberInput>>, k: nat)
    requires k < |rows| && MeasureAll(rows[k]).Err?
    ensures MeasureRows(rows).Err?
  {
    MeasureRowsMeaning(rows);
  }

  /** The tallest padded height in a row, and 0 for a row with nothing taller. */
  function RowHeight(ms: seq<Measured>): (h: int)
    ensures h >= 0
    decreases |ms|
  {
    if ms == [] then 0
    else
      var h := RowHeight(ms[..|ms| - 1]);
      if ms[|ms| - 1].totalHeight > h then ms[|ms| - 1].totalHeight else h
  }

  /** The row height bounds every member's total height and is one of them unless it is 0. */
  lemma {:induction false} RowHeightIsMax(ms: seq<Measured>)
    ensures forall j :: 0 <= j < |ms| ==> ms[j].totalHeight <= RowHeight(ms)
    ensures RowHeight(ms) == 0 || exists j :: 0 <= j < |ms| && ms[j].totalHeight == RowHeight(ms)
    decreases |ms|
  {
    if ms != [] {
      var init := ms[..|ms| - 1];
      RowHeightIsMax(init);
      assert forall j :: 0 <= j < |init| ==> init[j] == ms[j];
    }
  }

  /** The padded widths of a row added up. */
  function SumWidths(ms: seq<Measured>): int
    decreases |ms|
  {
    if ms == [] then 0 else SumWidths(ms[..|ms| - 1]) + ms[|ms| - 1].totalWidth
  }

  /** The heights of a run of rows added up. */
  function SumRowHeights(mss: seq<seq<Measured>>): (h: int)
    ensures h >= 0
    decreases |mss|
  {
    if mss == [] then 0 else SumRowHeights(mss[..|mss| - 1]) + RowHeight(mss[|mss| - 1])
  }

  /**
    Where member `j` of a row whose top is `y` lands: the x cursor has passed
    the padded widths of the earlier members, and the member is inset by its
    own left and top padding.
  */
  function PlaceInRow(ms: seq<Measured>, startX: int, y: int, j: nat): (b: Rect)
    requires j < |ms|
  {
    var m := ms[j];
    Rect(startX + SumWidths(ms[..j]) + m.paddingLeft, y + m.paddingTop, m.width, m.height)
  }

  /** Where member `j` of row `r` lands: the y cursor has passed the heights of the earlier rows. */
  function Placement(mss: seq<seq<Measured>>, startX: int, startY: int, r: nat, j: nat): (b: Rect)
    requires r < |mss| && j < |mss[r]|
  {
    PlaceInRow(mss[r], startX, startY + SumRowHeights(mss[..r]), j)
  }

  /** The record of a row after the pass: every member's padded height becomes the row height. */
  function Stamp(ms: seq<Measured>, h: int): (s: seq<Measured>)
    ensures |s| == |ms|
    ensures forall j :: 0 <= j < |ms| ==> s[j] == ms[j].(totalHeight := h)
  {
    seq(|ms|, j requires 0 <= j < |ms| => ms[j].(totalHeight := h))
  }

  function StampRows(mss: seq<seq<Measured>>): (s: seq<seq<Measured>>)
    ensures |s| == |mss|
    ensures forall k :: 0 <= k < |mss| ==> s[k] == Stamp(mss[k], RowHeight(mss[k]))
  {
    seq(|mss|, k requires 0 <= k < |mss| => Stamp(mss[k], RowHeight(mss[k])))
  }

  lemma {:induction false} SumWidthsAppend(ms: seq<Measured>, j: nat)
    requires j < |ms|
    ensures SumWidths(ms[..j + 1]) == SumWidths(ms[..j]) + ms[j].totalWidth
  {
    assert ms[..j + 1][..j] == ms[..j];
  }

  lemma {:induction false} SumRowHeightsAppend(mss: seq<seq<Measured>>, r: nat)
    requires r < |mss|
    ensures SumRowHeights(mss[..r + 1]) == SumRowHeights(mss[..r]) + RowHeight(mss[r])
  {
    assert mss[..r + 1][..r] == mss[..r];
  }

  /**
    Neighbours in a row do not overlap when paddings are non-negative: the
    next member starts after this one's right padding.
  */
  lemma RowMembersDoNotOverlap(mss: seq<seq<Measured>>, startX: int, startY: int, r: nat, j: nat)
    requires r < |mss| && j + 1 < |mss[r]|
    requires mss[r][j].width >= 0
    requires mss[r][j].totalWidth == mss[r][j].width + mss[r][j].paddingLeft + mss[r][j].paddingRight
    requires mss[r][j].paddingRight >= 0 && mss[r][j + 1].paddingLeft >= 0
    ensures Placement(mss, startX, startY, r, j).x + mss[r][j].width <= Placement(mss, startX, startY, r, j + 1).x
    ensures Placement(mss, startX, startY, r, j).y - mss[r][j].paddingTop ==
            Placement(mss, startX, startY, r, j + 1).y - mss[r][j + 1].paddingTop
  {
    SumWidthsAppend(mss[r], j);
  }

  /** Stamping the row height does not move anyone: placement reads only widths and paddings. */
  lemma PlaceInRowStamp(ms: seq<Measured>, h: int, startX: int, y: int, j: nat)
    requires j < |ms|
    ensures PlaceInRow(Stamp(ms, h), startX, y, j) == PlaceInRow(ms, startX, y, j)
  {
    assert Stamp(ms, h)[..j] == Stamp(ms[..j], h);
    SumWidthsStamp(ms[..j], h);
  }

  /** Measuring one more row does not move the members of the earlier rows. */
  lemma PlacementExtend(mss: seq<seq<Measured>>, ms: seq<Measured>, startX: int, startY: int, r: nat, j: nat)
    requires r < |mss| && j < |mss[r]|
    ensures Placement(mss + [ms], startX, startY, r, j) == Placement(mss, startX, startY, r, j)
  {
    assert (mss + [ms])[..r] == mss[..r];
  }

  /** `tops[r]` is the y cursor when row `r` is drawn: `startY` plus the heights of the rows above. */
  ghost predicate RowTops(mss: seq<seq<Measured>>, startY: int, tops: seq<int>)
  {
    |tops| == |mss| && forall r :: 0 <= r < |mss| ==> tops[r] == startY + SumRowHeights(mss[..r])
  }

  /** Drawing one more row at the cursor `startY + SumRowHeights(mss)` keeps the tops in step. */
  lemma RowTopsExtend(mss: seq<seq<Measured>>, ms: seq<Measured>, startY: int, tops: seq<int>)
    requires RowTops(mss, startY, tops)
    ensures RowTops(mss + [ms], startY, tops + [startY + SumRowHeights(mss)])
  {
    var mss' := mss + [ms];
    assert mss'[..|mss|] == mss;
    forall r | 0 <= r < |mss|
      ensures mss'[..r] == mss[..r]
    {
    }
  }

  /** Each row starts where the previous one ends: its top is the previous top plus the previous row height. */
  lemma RowsStack(mss: seq<seq<Measured>>, startX: int, startY: int, r: nat)
    requires r + 1 < |mss| && |mss[r]| > 0 && |mss[r + 1]| > 0
    ensures Placement(mss, startX, startY, r + 1, 0).y - mss[r + 1][0].paddingTop ==
            Placement(mss, startX, startY, r, 0).y - mss[r][0].paddingTop + RowHeight(mss[r])
    ensures Placement(mss, startX, startY, r + 1, 0).x - mss[r + 1][0].paddingLeft == startX
  {
    SumRowHeightsAppend(mss, r);
  }

  // CONTENT SIZE

  function Max(a: int, b: int): int
  {
    if a < b then b else a
  }

  /** The widest row's padded width, or 0. */
  function ContentWidth(mss: seq<seq<Measured>>): (w: int)
    ensures w >= 0
    decreases |mss|
  {
    if mss == [] then 0
    else
      Max(ContentWidth(mss[..|mss| - 1]), SumWidths(mss[|mss| - 1]))
  }

  /** The content width bounds every row's padded width and is one of them unless it is 0. */
  lemma {:induction false} ContentWidthIsMax(mss: seq<seq<Measured>>)
    ensures forall k :: 0 <= k < |mss| ==> SumWidths(mss[k]) <= ContentWidth(mss)
    ensures ContentWidth(mss) == 0 || exists k :: 0 <= k < |mss| && SumWidths(mss[k]) == ContentWidth(mss)
    decreases |mss|
  {
    if mss != [] {
      var init := mss[..|mss| - 1];
      ContentWidthIsMax(init);
      assert forall k :: 0 <= k < |init| ==> init[k] == mss[k];
    }
  }

  /** The padded heights of the first member of every non-empty row, added up. */
  function ContentHeight(mss: seq<seq<Measured>>): int
    decreases |mss|
  {
    if mss == [] then 0
    else
      var rest := ContentHeight(mss[..|mss| - 1]);
      var row := mss[|mss| - 1];
      if |row| != 0 then rest + row[0].totalHeight else rest
  }

  lemma {:induction false} SumWidthsStamp(ms: seq<Measured>, h: int)
    ensures SumWidths(Stamp(ms, h)) == SumWidths(ms)
    decreases |ms|
  {
    if ms != [] {
      assert Stamp(ms, h)[..|ms| - 1] == Stamp(ms[..|ms| - 1], h);
      SumWidthsStamp(ms[..|ms| - 1], h);
    }
  }

  /**
    Read after the pass, the content height is the sum of the row heights:
    an empty row adds nothing either way.
  */
  lemma {:induction false} ContentHeightOfStamped(mss: seq<seq<Measured>>)
    ensures ContentHeight(StampRows(mss)) == SumRowHeights(mss)
    decreases |mss|
  {
    if mss != [] {
      var n := |mss|;
      var stamped := StampRows(mss);
      assert stamped[..n - 1] == StampRows(mss[..n - 1]);
      ContentHeightOfStamped(mss[..n - 1]);
      var row := mss[n - 1];
      if |row| != 0 {
        assert stamped[n - 1][0].totalHeight == RowHeight(row);
      } else {
        assert RowHeight(row) == 0;
      }
    }
  }

  /** The content width depends only on the rows' padded widths. */
  lemma {:induction false} ContentWidthByRowWidths(a: seq<seq<Measured>>, b: seq<seq<Measured>>)
    requires |a| == |b|
    requires forall k :: 0 <= k < |a| ==> SumWidths(a[k]) == SumWidths(b[k])
    ensures ContentWidth(a) == ContentWidth(b)
    decreases |a|
  {
    if a != [] {
      var n := |a|;
      ContentWidthByRowWidths(a[..n - 1], b[..n - 1]);
    }
  }

  /** Stamping the row heights leaves the content width as measured. */
  lemma ContentWidthOfStamped(mss: seq<seq<Measured>>)
    ensures ContentWidth(StampRows(mss)) == ContentWidth(mss)
  {
    var stamped := StampRows(mss);
    forall k | 0 <= k < |mss|
      ensures SumWidths(stamped[k]) == SumWidths(mss[k])
    {
      SumWidthsStamp(mss[k], RowHeight(mss[k]));
    }
    ContentWidthByRowWidths(stamped, mss);
  }

  /** The container is cropped only when it is narrower or shorter than its content. */
  predicate CropNeeded(bounds: Rect, content: Dim)
  {
    bounds.width < content.width || bounds.height < content.height
  }

  /**
    The bounds a crop leaves: the content's size at the same location when a
    crop is needed, the bounds as they were otherwise. Afterwards no crop is
    needed, so cropping again changes nothing; this is what keeps the crop
    from triggering another layout pass forever.
  */
  function CropBounds(bounds: Rect, content: Dim): (r: Rect)
    ensures r.x == bounds.x && r.y == bounds.y
    ensures !CropNeeded(r, content)
    ensures CropNeeded(bounds, content) <==> r != bounds
  {
    if CropNeeded(bounds, content) then Rect(bounds.x, bounds.y, content.width, content.height) else bounds
  }

  /** Cropping twice with the same content is cropping once. */
  lemma CropIdempotent(bounds: Rect, content: Dim)
    ensures CropBounds(CropBounds(bounds, content), content) == CropBounds(bounds, content)
  {
  }

  /**
    A crop always grows the container in a dimension where the content did
    not fit, but it takes the content's size in both: it shrinks the other
    dimension exactly when the content is smaller there.
  */
  lemma CropCanShrink(bounds: Rect, content: Dim)
    requires CropNeeded(bounds, content)
    ensures var r := CropBounds(bounds, content);
      (r.width > bounds.width || r.height > bounds.height) &&
      (r.width < bounds.width <==> content.width < bounds.width) &&
      (r.height < bounds.height <==> content.height < bounds.height)
  {
  }
}
