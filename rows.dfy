/**
  The row partition of a layout pass, on the axis flags of the visible
  children alone (`true` for horizontal). A vertical child acts like a line
  break placed before itself. Rows are index ranges into the visible children.
*/
module RowPartition {

  /** The half-open range `[lo, hi)` of visible children forming one row. */
  datatype Slice = Slice(lo: nat, hi: nat)

  /** What the partition loop holds after scanning a prefix: the rows so far and the start of the open one. */
  datatype Scan = Scan(rows: seq<Slice>, last: nat)

  /** The loop over the children, expressed on the prefix scanned so far. */
  function ScanOf(horizontal: seq<bool>): (s: Scan)
    decreases |horizontal|
  {
    if horizontal == [] then Scan([], 0)
    else
      var s := ScanOf(horizontal[..|horizontal| - 1]);
      var i := |horizontal| - 1;
      if horizontal[i] then s else Scan(s.rows + [Slice(s.last, i)], i)
  }

  /**
    The rows `toRows` returns: the rows the loop closed, then a single-member
    row when the last child is vertical, and one row holding everything when
    no row was produced at all.
  */
  function RowSlices(horizontal: seq<bool>): (rows: seq<Slice>)
  {
    var n := |horizontal|;
    var closed := ScanOf(horizontal).rows;
    var rows := if n > 0 && !horizontal[n - 1] then closed + [Slice(n - 1, n)] else closed;
    if rows == [] then [Slice(0, n)] else rows
  }

  predicate AllHorizontal(horizontal: seq<bool>, lo: nat, hi: nat)
    requires lo <= hi <= |horizontal|
  {
    forall j :: lo <= j < hi ==> horizontal[j]
  }

  /** The members of one row: the part of `members` its range spans, or nothing when the range does not fit. */
  function Cut<T>(members: seq<T>, s: Slice): seq<T>
  {
    if s.lo <= s.hi <= |members| then members[s.lo..s.hi] else []
  }

  /** A member of a cut row is the member its range starts from, shifted by its place in the row. */
  lemma CutAt<T>(members: seq<T>, s: Slice, j: nat)
    requires j < |Cut(members, s)|
    ensures s.lo + j < |members| && Cut(members, s)[j] == members[s.lo + j]
  {
  }

  /** The members of every row, in row order. */
  function CutAll<T>(members: seq<T>, rows: seq<Slice>): (cut: seq<seq<T>>)
    ensures |cut| == |rows|
    ensures forall k :: 0 <= k < |rows| ==> cut[k] == Cut(members, rows[k])
  {
    seq(|rows|, k requires 0 <= k < |rows| => Cut(members, rows[k]))
  }

  /** The position of the last vertical child, or -1 when every child is horizontal. */
  function LastVertical(horizontal: seq<bool>): (k: int)
    ensures -1 <= k < |horizontal|
    ensures k >= 0 ==> !horizontal[k]
    ensures forall j :: k < j < |horizontal| ==> horizontal[j]
  {
    if horizontal == [] then -1
    else if !horizontal[|horizontal| - 1] then |horizontal| - 1
    else LastVertical(horizontal[..|horizontal| - 1])
  }

  /**
    How many visible children the rows cover: all of them when none is
    vertical or the last one is, otherwise those before the last vertical one.
  */
  function Covered(horizontal: seq<bool>): (c: nat)
    ensures c <= |horizontal|
  {
    var k := LastVertical(horizontal);
    if k < 0 || k == |horizontal| - 1 then |horizontal| else k
  }

  /**
    The shape of a partition: contiguous ranges from 0 to `end`, a first row
    of horizontal children only, and every later row non-empty, opening with a
    vertical child and holding no other vertical child.
  */
  ghost predicate IsPartition(horizontal: seq<bool>, rows: seq<Slice>, end: nat)
  {
    |rows| >= 1 && rows[0].lo == 0 && rows[|rows| - 1].hi == end &&
    (forall r :: 0 <= r < |rows| ==> rows[r].lo <= rows[r].hi <= |horizontal|) &&
    (forall r :: 0 <= r < |rows| - 1 ==> rows[r].hi == rows[r + 1].lo) &&
    AllHorizontal(horizontal, 0, rows[0].hi) &&
    (forall r :: 1 <= r < |rows| ==>
      rows[r].lo < rows[r].hi && !horizontal[rows[r].lo] &&
      AllHorizontal(horizontal, rows[r].lo + 1, rows[r].hi))
  }

  /** What the loop keeps true: the closed rows tile `[0, last)`, and only `last` may be vertical after it. */
  ghost predicate ScanShape(horizontal: seq<bool>, s: Scan)
  {
    s.last <= |horizontal| &&
    (s.rows == [] ==> s.last == 0 && AllHorizontal(horizontal, 0, |horizontal|)) &&
    (s.rows != [] ==>
      s.last < |horizontal| && !horizontal[s.last] &&
      AllHorizontal(horizontal, s.last + 1, |horizontal|) &&
      IsPartition(horizontal, s.rows, s.last))
  }

  /** A partition of a prefix is a partition of the whole sequence, up to the same end. */
  lemma PartitionOnLonger(horizontal: seq<bool>, n: nat, rows: seq<Slice>, end: nat)
    requires n <= |horizontal| && IsPartition(horizontal[..n], rows, end)
    ensures IsPartition(horizontal, rows, end)
  {
    assert forall j :: 0 <= j < n ==> horizontal[..n][j] == horizontal[j];
  }

  /** Closing the open row `[last, i)` at the vertical child `i` extends the partition to `i`. */
  lemma PartitionAppend(horizontal: seq<bool>, rows: seq<Slice>, last: nat, i: nat)
    requires IsPartition(horizontal, rows, last)
    requires last < i < |horizontal| && !horizontal[last] && AllHorizontal(horizontal, last + 1, i)
    ensures IsPartition(horizontal, rows + [Slice(last, i)], i)
  {
    var rows' := rows + [Slice(last, i)];
    assert forall r :: 0 <= r < |rows| ==> rows'[r] == rows[r];
  }

  /** A run of horizontal children in a prefix is one in the whole sequence. */
  lemma AllHorizontalOnLonger(horizontal: seq<bool>, n: nat, lo: nat, hi: nat)
    requires lo <= hi <= n <= |horizontal| && AllHorizontal(horizontal[..n], lo, hi)
    ensures AllHorizontal(horizontal, lo, hi)
  {
    forall j | lo <= j < hi
      ensures horizontal[j]
    {
      assert horizontal[..n][j] == horizontal[j];
    }
  }

  /** A run of horizontal children in a prefix stays one when a horizontal child follows the prefix. */
  lemma AllHorizontalExtend(horizontal: seq<bool>, lo: nat)
    requires |horizontal| >= 1 && horizontal[|horizontal| - 1] && lo <= |horizontal| - 1
    requires AllHorizontal(horizontal[..|horizontal| - 1], lo, |horizontal| - 1)
    ensures AllHorizontal(horizontal, lo, |horizontal|)
  {
    var n := |horizontal|;
    forall j | lo <= j < n
      ensures horizontal[j]
    {
      if j < n - 1 {
        assert horizontal[..n - 1][j] == horizontal[j];
      }
    }
  }

  /** A horizontal child leaves the scan as it was. */
  lemma ScanShapeHorizontal(horizontal: seq<bool>, s: Scan)
    requires |horizontal| >= 1 && horizontal[|horizontal| - 1]
    requires ScanShape(horizontal[..|horizontal| - 1], s)
    ensures ScanShape(horizontal, s)
  {
    var n := |horizontal|;
    if s.rows == [] {
      AllHorizontalExtend(horizontal, 0);
    } else {
      assert horizontal[..n - 1][s.last] == horizontal[s.last];
      AllHorizontalExtend(horizontal, s.last + 1);
      PartitionOnLonger(horizontal, n - 1, s.rows, s.last);
    }
  }

  /** A vertical child closes the open row and opens the next one at itself. */
  lemma ScanShapeVertical(horizontal: seq<bool>, s: Scan)
    requires |horizontal| >= 1 && !horizontal[|horizontal| - 1]
    requires ScanShape(horizontal[..|horizontal| - 1], s)
    ensures ScanShape(horizontal, Scan(s.rows + [Slice(s.last, |horizontal| - 1)], |horizontal| - 1))
  {
    var n := |horizontal|;
    if s.rows == [] {
      AllHorizontalOnLonger(horizontal, n - 1, 0, n - 1);
      assert IsPartition(horizontal, [Slice(0, n - 1)], n - 1);
    } else {
      assert horizontal[..n - 1][s.last] == horizontal[s.last];
      AllHorizontalOnLonger(horizontal, n - 1, s.last + 1, n - 1);
      PartitionOnLonger(horizontal, n - 1, s.rows, s.last);
      PartitionAppend(horizontal, s.rows, s.last, n - 1);
    }
  }

  lemma {:induction false} ScanOfShape(horizontal: seq<bool>)
    ensures ScanShape(horizontal, ScanOf(horizontal))
    decreases |horizontal|
  {
    if horizontal != [] {
      var n := |horizontal|;
      var prefix := horizontal[..n - 1];
      ScanOfShape(prefix);
      if horizontal[n - 1] {
        ScanShapeHorizontal(horizontal, ScanOf(prefix));
      } else {
        ScanShapeVertical(horizontal, ScanOf(prefix));
      }
    }
  }

  lemma {:induction false} LastVerticalNone(horizontal: seq<bool>)
    requires AllHorizontal(horizontal, 0, |horizontal|)
    ensures LastVertical(horizontal) == -1
    decreases |horizontal|
  {
    if horizontal != [] {
      LastVerticalNone(horizontal[..|horizontal| - 1]);
    }
  }

  /** The partition has the shape above and reaches exactly `Covered` children. */
  lemma RowSlicesArePartition(horizontal: seq<bool>)
    ensures IsPartition(horizontal, RowSlices(horizontal), Covered(horizontal))
  {
    var n := |horizontal|;
    var s := ScanOf(horizontal);
    ScanOfShape(horizontal);
    var rows := RowSlices(horizontal);
    if s.rows == [] {
      LastVerticalNone(horizontal);
      assert rows == [Slice(0, n)];
    } else {
      assert LastVertical(horizontal) == s.last;
      if !horizontal[n - 1] {
        assert s.last == n - 1;
        assert rows == s.rows + [Slice(n - 1, n)];
        assert forall r :: 0 <= r < |s.rows| ==> rows[r] == s.rows[r];
      }
    }
  }

  /** An earlier row ends before a later one starts, so no child lies in two rows. */
  lemma PartitionOrdered(horizontal: seq<bool>, rows: seq<Slice>, end: nat)
    requires IsPartition(horizontal, rows, end)
    ensures forall k1, k2 :: 0 <= k1 < k2 < |rows| ==> rows[k1].hi <= rows[k2].lo
  {
    forall k1, k2 | 0 <= k1 < k2 < |rows|
      ensures rows[k1].hi <= rows[k2].lo
    {
      var k := k1 + 1;
      while k < k2
        invariant k1 < k <= k2
        invariant rows[k1].hi <= rows[k].lo
      {
        k := k + 1;
      }
    }
  }

  /** The rows are ranges within the flags, each ending before the next one starts. */
  lemma RowSlicesOrdered(horizontal: seq<bool>)
    ensures var rows := RowSlices(horizontal);
      (forall k :: 0 <= k < |rows| ==> rows[k].lo <= rows[k].hi <= |horizontal|) &&
      forall k1, k2 :: 0 <= k1 < k2 < |rows| ==> rows[k1].hi <= rows[k2].lo
  {
    RowSlicesArePartition(horizontal);
    PartitionOrdered(horizontal, RowSlices(horizontal), Covered(horizontal));
  }

  /** With no vertical child there is exactly one row, holding every visible child. */
  lemma NoVerticalOneRow(horizontal: seq<bool>)
    requires AllHorizontal(horizontal, 0, |horizontal|)
    ensures RowSlices(horizontal) == [Slice(0, |horizontal|)]
  {
    ScanOfShape(horizontal);
  }

  /** The rows concatenate to every visible child exactly when none is vertical or the last one is. */
  lemma CoverageIff(horizontal: seq<bool>)
    ensures Covered(horizontal) == |horizontal| <==>
      AllHorizontal(horizontal, 0, |horizontal|) || !horizontal[|horizontal| - 1]
    ensures Covered(horizontal) < |horizontal| ==>
      !horizontal[Covered(horizontal)] && AllHorizontal(horizontal, Covered(horizontal) + 1, |horizontal|)
  {
    var n := |horizontal|;
    var k := LastVertical(horizontal);
    if AllHorizontal(horizontal, 0, n) {
      LastVerticalNone(horizontal);
    }
  }

  /** A leading vertical child leaves the first row empty. */
  lemma LeadingVerticalEmptyFirstRow(horizontal: seq<bool>)
    requires |horizontal| >= 1 && !horizontal[0]
    ensures RowSlices(horizontal)[0] == Slice(0, 0)
  {
    RowSlicesArePartition(horizontal);
  }

  /** Horizontal, vertical, horizontal: only the first child is placed. */
  lemma TrailingHorizontalDropped()
    ensures RowSlices([true, false, true]) == [Slice(0, 1)]
    ensures RowSlices([true, false]) == [Slice(0, 1), Slice(1, 2)]
    ensures RowSlices([false, true, false]) == [Slice(0, 0), Slice(0, 2), Slice(2, 3)]
    ensures RowSlices([]) == [Slice(0, 0)]
  {
    assert [true, false, true][..2] == [true, false];
    assert [true, false][..1] == [true];
    assert [true][..0] == [];
    assert [false, true, false][..2] == [false, true];
    assert [false, true][..1] == [false];
    assert [false][..0] == [];
  }

  /**
    The partition loop of `toRows`: a row closes just before each vertical
    child, and the vertical child opens the next one.
  */
  method Partition(horizontal: seq<bool>) returns (rows: seq<Slice>)
    ensures rows == RowSlices(horizontal)
  {
    var n := |horizontal|;
    rows := [];
    var lastVertical := 0;
    var i := 0;
    while i < n
      invariant 0 <= i <= n
      invariant ScanOf(horizontal[..i]) == Scan(rows, lastVertical)
    {
      assert horizontal[..i + 1][..i] == horizontal[..i];
      if !horizontal[i] {
        rows := rows + [Slice(lastVertical, i)];
        lastVertical := i;
      }
      i := i + 1;
    }
    assert horizontal[..n] == horizontal;
    if n > 0 && !horizontal[n - 1] {
      rows := rows + [Slice(n - 1, n)];
    }
    if rows == [] {
      rows := [Slice(0, n)];
    }
  }
}
