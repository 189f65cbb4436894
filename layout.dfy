/**
  The container (`BLayout`) and its layout manager (`InternalBetterLayout`).
  They live in one module because each refers to the other: the pass reads
  the container's map, template and flags, and the container owns the manager.
*/
module Layout {
  import opened JavaLang
  import opened Awt
  import opened StyleDirectives
  import opened Debug
  import opened Wrapper
  import opened RowPartition
  import opened Geometry

  /** A visible child paired with its wrapper, as a row holds it. */
  datatype StyledComponent = StyledComponent(component: Component, compWrapper: CompWrapper)

  // THE HEAP BEHIND A ROW

  /*
    The pass touches four kinds of object per member: the widget (read for its
    sizes, then moved), the wrapper (read for its record), the wrapper's
    directive map (read) and the record (written). The record references are
    carried alongside the rows as ghost sequences, so that every frame below
    is a set that does not depend on the heap.
  */

  ghost function Components(row: seq<StyledComponent>): (cs: set<Component>)
  {
    set j | 0 <= j < |row| :: row[j].component
  }

  ghost function Wrappers(row: seq<StyledComponent>): (ws: set<CompWrapper>)
  {
    set j | 0 <= j < |row| :: row[j].compWrapper
  }

  ghost function StyleMaps(row: seq<StyledComponent>): (ms: set<StyleMap>)
  {
    set j | 0 <= j < |row| :: row[j].compWrapper.styleMap
  }

  ghost function Records(infos: seq<DebugInfo>): (rs: set<DebugInfo>)
  {
    set j | 0 <= j < |infos| :: infos[j]
  }

  ghost function AllComponents(rows: seq<seq<StyledComponent>>): (cs: set<Component>)
  {
    set k, j | 0 <= k < |rows| && 0 <= j < |rows[k]| :: rows[k][j].component
  }

  ghost function AllWrappers(rows: seq<seq<StyledComponent>>): (ws: set<CompWrapper>)
  {
    set k, j | 0 <= k < |rows| && 0 <= j < |rows[k]| :: rows[k][j].compWrapper
  }

  ghost function AllStyleMaps(rows: seq<seq<StyledComponent>>): (ms: set<StyleMap>)
  {
    set k, j | 0 <= k < |rows| && 0 <= j < |rows[k]| :: rows[k][j].compWrapper.styleMap
  }

  ghost function AllRecords(infoss: seq<seq<DebugInfo>>): (rs: set<DebugInfo>)
  {
    set k, j | 0 <= k < |infoss| && 0 <= j < |infoss[k]| :: infoss[k][j]
  }

  /** `infos` lists the records the wrappers of `row` currently hold. */
  ghost predicate Linked(row: seq<StyledComponent>, infos: seq<DebugInfo>)
    reads Wrappers(row)`info
  {
    |infos| == |row| && forall j :: 0 <= j < |row| ==> row[j].compWrapper.info == infos[j]
  }

  ghost predicate AllLinked(rows: seq<seq<StyledComponent>>, infoss: seq<seq<DebugInfo>>)
    reads AllWrappers(rows)`info
  {
    |infoss| == |rows| && forall k {:trigger Linked(rows[k], infoss[k])} :: 0 <= k < |rows| ==> Linked(rows[k], infoss[k])
  }

  /** No widget and no record appears twice in the row. */
  ghost predicate Distinct(row: seq<StyledComponent>, infos: seq<DebugInfo>)
  {
    (forall j1, j2 :: 0 <= j1 < j2 < |row| ==> row[j1].component != row[j2].component) &&
    (forall j1, j2 :: 0 <= j1 < j2 < |infos| ==> infos[j1] != infos[j2])
  }

  /** No widget and no record is shared between two rows. */
  ghost predicate RowsApart(row1: seq<StyledComponent>, infos1: seq<DebugInfo>, row2: seq<StyledComponent>, infos2: seq<DebugInfo>)
  {
    Components(row1) !! Components(row2) && Records(infos1) !! Records(infos2)
  }

  /** Every row is distinct in itself, and no widget or record appears in two rows. */
  ghost predicate AllDistinct(rows: seq<seq<StyledComponent>>, infoss: seq<seq<DebugInfo>>)
    requires |infoss| == |rows|
  {
    (forall k {:trigger Distinct(rows[k], infoss[k])} :: 0 <= k < |rows| ==> Distinct(rows[k], infoss[k])) &&
    (forall k1, k2 {:trigger RowsApart(rows[k1], infoss[k1], rows[k2], infoss[k2])} :: 0 <= k1 < k2 < |rows| ==>
      RowsApart(rows[k1], infoss[k1], rows[k2], infoss[k2]))
  }

  /** What the pass reads from one member: its size, its preferred size and its directives. */
  ghost function InputOf(s: StyledComponent): MemberInput
    reads s.component, s.compWrapper.styleMap
  {
    MemberInput(s.component.Size(), s.component.prefSize, s.compWrapper.styleMap.entries)
  }

  /** `ins` is what the pass reads from the members of `row`. */
  ghost predicate InputsAre(row: seq<StyledComponent>, ins: seq<MemberInput>)
    reads Components(row), StyleMaps(row)
  {
    |ins| == |row| && forall j :: 0 <= j < |row| ==> InputOf(row[j]) == ins[j]
  }

  /** The `DebugInfo` fields as a value. */
  ghost function RecordOf(info: DebugInfo): Measured
    reads info
  {
    Measured(info.width, info.height, info.totalWidth, info.totalHeight,
             info.paddingLeft, info.paddingRight, info.paddingTop, info.paddingBottom)
  }

  /** `ms` is what the records `infos` hold. */
  ghost predicate RecordsAre(infos: seq<DebugInfo>, ms: seq<Measured>)
    reads Records(infos)
  {
    |ms| == |infos| && forall j :: 0 <= j < |infos| ==> RecordOf(infos[j]) == ms[j]
  }

  /** Every row's records hold that row's measurements in `mss`. */
  ghost predicate AllRecordsAre(infoss: seq<seq<DebugInfo>>, mss: seq<seq<Measured>>)
    reads AllRecords(infoss)
  {
    |mss| == |infoss| && forall k :: 0 <= k < |infoss| ==> RecordsAre(infoss[k], mss[k])
  }

  /** Rows `k` onwards still hold the inputs `inss` the pass is about to read. */
  ghost predicate Pending(rows: seq<seq<StyledComponent>>, inss: seq<seq<MemberInput>>, k: nat)
    reads AllComponents(rows), AllStyleMaps(rows)
  {
    |inss| == |rows| && k <= |rows| &&
    forall k' {:trigger InputsAre(rows[k'], inss[k'])} :: k <= k' < |rows| ==> InputsAre(rows[k'], inss[k'])
  }

  /**
    A drawn row: each record holds its member's measurements with the row
    height stamped in, and each widget sits where the row, topped at `top`,
    places it.
  */
  ghost predicate RowDrawn(row: seq<StyledComponent>, infos: seq<DebugInfo>, ms: seq<Measured>, top: int, startX: int)
    reads Components(row), Records(infos)
  {
    |ms| == |row| && RecordsAre(infos, Stamp(ms, RowHeight(ms))) &&
    forall j :: 0 <= j < |row| ==> row[j].component.Bounds() == PlaceInRow(ms, startX, top, j)
  }

  /** The first `|mss|` rows are drawn, row `k` measured as `mss[k]` and topped at `tops[k]`. */
  ghost predicate Drawn(rows: seq<seq<StyledComponent>>, infoss: seq<seq<DebugInfo>>,
                        mss: seq<seq<Measured>>, tops: seq<int>, startX: int)
    reads AllComponents(rows), AllRecords(infoss)
  {
    |mss| == |tops| && |mss| <= |rows| && |infoss| == |rows| &&
    forall k' {:trigger RowDrawn(rows[k'], infoss[k'], mss[k'], tops[k'], startX)} :: 0 <= k' < |mss| ==>
      RowDrawn(rows[k'], infoss[k'], mss[k'], tops[k'], startX)
  }

  /** One row's widgets and records lie within those of all the rows. */
  lemma RowInFrame(rows: seq<seq<StyledComponent>>, infoss: seq<seq<DebugInfo>>, k: nat)
    requires k < |rows| && k < |infoss|
    ensures Components(rows[k]) <= AllComponents(rows)
    ensures Records(infoss[k]) <= AllRecords(infoss)
  {
  }

  /** Nothing a row's widgets or records hold has changed. */
  twostate predicate RowUntouched(row: seq<StyledComponent>, infos: seq<DebugInfo>)
    reads Components(row), Records(infos)
  {
    unchanged(Components(row)) && unchanged(Records(infos))
  }

  /** The pass stops at row `k`: the rows before it measure, row `k` does not. */
  ghost predicate FailsAt(inss: seq<seq<MemberInput>>, k: nat)
  {
    k < |inss| && MeasureRows(inss[..k]).Ok? && MeasureAll(inss[k]).Err?
  }

  /** With the first `|mss|` rows drawn and the tops in step, those rows' widgets sit at their `Placement`. */
  lemma DrawnPrefix(rows: seq<seq<StyledComponent>>, infoss: seq<seq<DebugInfo>>,
                    mss: seq<seq<Measured>>, tops: seq<int>, startX: int, startY: int)
    requires Drawn(rows, infoss, mss, tops, startX) && RowTops(mss, startY, tops)
    ensures forall k :: 0 <= k < |mss| ==> RecordsAre(infoss[k], StampRows(mss)[k])
    ensures Placed(rows[..|mss|], mss, startX, startY)
  {
    var n := |mss|;
    forall k | 0 <= k < n
      ensures RowDrawn(rows[..n][k], infoss[..n][k], mss[k], tops[k], startX)
    {
      assert RowDrawn(rows[k], infoss[k], mss[k], tops[k], startX);
    }
    DrawnComplete(rows[..n], infoss[..n], mss, tops, startX, startY);
  }

  /** A pass from (`startX`, `startY`) stopped at row `k`, the widgets of the rows before it at their `Placement`. */
  ghost predicate PlacedBefore(rows: seq<seq<StyledComponent>>, inss: seq<seq<MemberInput>>,
                               k: nat, startX: int, startY: int)
    reads AllComponents(rows)
  {
    |inss| == |rows| && FailsAt(inss, k) && Placed(rows[..k], MeasureRows(inss[..k]).value, startX, startY)
  }

  /**
    `PlacedBefore`, and also: the rows before `k` hold their stamped records,
    the rows after it are as they were.
  */
  twostate predicate StoppedAt(rows: seq<seq<StyledComponent>>, infoss: seq<seq<DebugInfo>>,
                               inss: seq<seq<MemberInput>>, k: nat, startX: int, startY: int)
    reads AllComponents(rows), AllRecords(infoss)
  {
    |infoss| == |rows| && PlacedBefore(rows, inss, k, startX, startY) &&
    (forall k' :: 0 <= k' < k ==> RecordsAre(infoss[k'], StampRows(MeasureRows(inss[..k]).value)[k'])) &&
    forall k' {:trigger RowUntouched(rows[k'], infoss[k'])} :: k < k' < |rows| ==> RowUntouched(rows[k'], infoss[k'])
  }

  /** With every row drawn and the tops in step, each widget sits at its `Placement`. */
  lemma DrawnComplete(rows: seq<seq<StyledComponent>>, infoss: seq<seq<DebugInfo>>,
                      mss: seq<seq<Measured>>, tops: seq<int>, startX: int, startY: int)
    requires Drawn(rows, infoss, mss, tops, startX) && RowTops(mss, startY, tops) && |mss| == |rows|
    ensures forall k :: 0 <= k < |rows| ==> |mss[k]| == |rows[k]| && RecordsAre(infoss[k], StampRows(mss)[k])
    ensures forall k, j :: 0 <= k < |rows| && 0 <= j < |rows[k]| ==>
      rows[k][j].component.Bounds() == Placement(mss, startX, startY, k, j)
  {
    forall k | 0 <= k < |rows|
      ensures RowDrawn(rows[k], infoss[k], mss[k], tops[k], startX)
    {
    }
  }

  // THE CHILDREN AS A PASS SEES THEM

  /** What a record holds before the pass measures its member: a fresh `DebugInfo`. */
  const Unmeasured := Measured(0, 0, 0, 0, 0, 0, 0, 0)

  /** The children that are in `shown`, in child order. */
  function Shown(children: seq<Component>, shown: set<Component>): (vis: seq<Component>)
    ensures |vis| <= |children|
    ensures forall i :: 0 <= i < |vis| ==> vis[i] in children && vis[i] in shown
    decreases |children|
  {
    if children == [] then []
    else
      var init := Shown(children[..|children| - 1], shown);
      var c := children[|children| - 1];
      if c in shown then init + [c] else init
  }

  /** The children whose visibility flag is set. */
  ghost function VisibleSet(children: seq<Component>): set<Component>
    reads (set c | c in children)`visible
  {
    set c | c in children && c.visible
  }

  /** The visible children, in child order: the only ones `toRows` puts into rows. */
  ghost function VisibleChildren(children: seq<Component>): (vis: seq<Component>)
    reads (set c | c in children)`visible
    ensures forall i :: 0 <= i < |vis| ==> vis[i] in children && vis[i].visible
  {
    Shown(children, VisibleSet(children))
  }

  /** Every child in `shown` is kept, and a child list without repeats gives a selection without repeats. */
  lemma {:induction false} ShownComplete(children: seq<Component>, shown: set<Component>)
    ensures forall c :: c in children && c in shown ==> c in Shown(children, shown)
    ensures Unique(children) ==> Unique(Shown(children, shown))
    decreases |children|
  {
    if children != [] {
      var n := |children|;
      var init := children[..n - 1];
      ShownComplete(init, shown);
      assert children == init + [children[n - 1]];
      if Unique(children) {
        assert Unique(init);
        var vis := Shown(init, shown);
        forall i | 0 <= i < |vis|
          ensures vis[i] != children[n - 1]
        {
          var m :| 0 <= m < n - 1 && init[m] == vis[i];
        }
      }
    }
  }

  /** Every visible child is kept, and a child list without repeats gives visible children without repeats. */
  lemma VisibleChildrenComplete(children: seq<Component>)
    ensures forall c :: c in children && c.visible ==> c in VisibleChildren(children)
    ensures Unique(children) ==> Unique(VisibleChildren(children))
  {
    ShownComplete(children, VisibleSet(children));
  }

  /** One more child of a prefix: it joins the selection exactly when it is in `shown`. */
  lemma ShownPrefix(children: seq<Component>, i: nat, shown: set<Component>)
    requires i < |children|
    ensures Shown(children[..i + 1], shown) == Shown(children[..i], shown) + (if children[i] in shown then [children[i]] else [])
  {
    assert children[..i + 1][..i] == children[..i];
  }

  /** Each of `vis` paired with the wrapper `styles` maps it to: the members `toRows` builds. */
  function Members(vis: seq<Component>, styles: map<Component, CompWrapper>): (members: seq<StyledComponent>)
    requires forall c :: c in vis ==> c in styles
    ensures |members| == |vis|
    ensures forall i :: 0 <= i < |vis| ==> members[i] == StyledComponent(vis[i], styles[vis[i]])
  {
    seq(|vis|, i requires 0 <= i < |vis| => StyledComponent(vis[i], styles[vis[i]]))
  }

  lemma MembersSnoc(vis: seq<Component>, c: Component, styles: map<Component, CompWrapper>)
    requires forall c' :: c' in vis ==> c' in styles
    requires c in styles
    ensures Members(vis + [c], styles) == Members(vis, styles) + [StyledComponent(c, styles[c])]
  {
  }

  /** A member's wrapper holds `info`, a record not yet measured whose axis flag is `flag`, the member's axis. */
  ghost predicate Attached(s: StyledComponent, info: DebugInfo, flag: bool)
    reads s.compWrapper`info, info, s.compWrapper.styleMap`entries
  {
    s.compWrapper.info == info && RecordOf(info) == Unmeasured &&
    info.isHorizontal == flag && flag == IsHorizontal(s.compWrapper.styleMap.entries)
  }

  /** Each member of the rows holds its record, still unmeasured and carrying the member's axis flag. */
  ghost predicate RowsAttached(rows: seq<seq<StyledComponent>>, infoss: seq<seq<DebugInfo>>)
    reads AllWrappers(rows)`info, AllRecords(infoss), AllStyleMaps(rows)`entries
  {
    |infoss| == |rows| &&
    forall k, j :: 0 <= k < |rows| && 0 <= j < |rows[k]| && j < |infoss[k]| ==>
      Attached(rows[k][j], infoss[k][j], IsHorizontal(rows[k][j].compWrapper.styleMap.entries))
  }

  /** Each record of a row carries the axis flag of the directives its member was read with. */
  ghost predicate RowAxesAre(infos: seq<DebugInfo>, ins: seq<MemberInput>)
    reads Records(infos)`isHorizontal
  {
    |infos| == |ins| && forall j :: 0 <= j < |ins| ==> infos[j].isHorizontal == IsHorizontal(ins[j].styles)
  }

  /** `RowAxesAre` for every row. */
  ghost predicate AxesAre(infoss: seq<seq<DebugInfo>>, inss: seq<seq<MemberInput>>)
    reads AllRecords(infoss)`isHorizontal
  {
    |infoss| == |inss| && forall k :: 0 <= k < |inss| ==> RowAxesAre(infoss[k], inss[k])
  }

  /** Freshly attached records carry the axis flags of the directives the rows are about to be read with. */
  lemma AxesOfInputs(rows: seq<seq<StyledComponent>>, infoss: seq<seq<DebugInfo>>, inss: seq<seq<MemberInput>>)
    requires AllLinked(rows, infoss) && RowsAttached(rows, infoss) && Pending(rows, inss, 0)
    ensures AxesAre(infoss, inss)
  {
    forall k | 0 <= k < |inss|
      ensures RowAxesAre(infoss[k], inss[k])
    {
      assert InputsAre(rows[k], inss[k]) && Linked(rows[k], infoss[k]);
      forall j | 0 <= j < |inss[k]|
        ensures infoss[k][j].isHorizontal == IsHorizontal(inss[k][j].styles)
      {
        assert InputOf(rows[k][j]) == inss[k][j];
      }
    }
  }

  /** Every wrapper in the map belongs to the widget it is filed under, so no two widgets share a wrapper. */
  ghost predicate Keyed(styles: map<Component, CompWrapper>)
  {
    forall c :: c in styles ==> styles[c].component == c
  }

  /** The directives a child's wrapper holds once the map is rebuilt: its own wrapper's, or a copy of the template's. */
  ghost function RebuiltStyles(c: Component, styles: map<Component, CompWrapper>, template: StyleMap): map<string, string>
    reads (set w | w in styles.Values :: w.styleMap)`entries, template`entries
  {
    if c in styles then styles[c].styleMap.entries else template.entries
  }

  /** What a pass reads from each of the visible children `vis`: size, preferred size and rebuilt directives. */
  ghost function PassInputs(vis: seq<Component>, styles: map<Component, CompWrapper>, template: StyleMap): (ins: seq<MemberInput>)
    reads (set c | c in vis)`width, (set c | c in vis)`height, (set c | c in vis)`prefSize
    reads (set w | w in styles.Values :: w.styleMap)`entries, template`entries
    ensures |ins| == |vis|
    ensures forall i :: 0 <= i < |vis| ==>
      ins[i] == MemberInput(Dim(vis[i].width, vis[i].height), vis[i].prefSize, RebuiltStyles(vis[i], styles, template))
    decreases |vis|
  {
    if vis == [] then []
    else
      var c := vis[|vis| - 1];
      PassInputs(vis[..|vis| - 1], styles, template) + [MemberInput(Dim(c.width, c.height), c.prefSize, RebuiltStyles(c, styles, template))]
  }

  /** Once each visible child's wrapper holds its rebuilt directives, the members read exactly `PassInputs`. */
  lemma RebuiltInputsAre(vis: seq<Component>, styles: map<Component, CompWrapper>, template: StyleMap,
                         rebuilt: map<Component, CompWrapper>)
    requires forall c :: c in vis ==> c in rebuilt && rebuilt[c].styleMap.entries == RebuiltStyles(c, styles, template)
    ensures InputsAre(Members(vis, rebuilt), PassInputs(vis, styles, template))
  {
  }

  /** Two rows cut from distinct members along ranges one after the other share no widget and no record. */
  lemma CutsApart(members: seq<StyledComponent>, infos: seq<DebugInfo>, s1: Slice, s2: Slice)
    requires |infos| == |members| && Distinct(members, infos)
    requires s1.lo <= s1.hi <= s2.lo <= s2.hi <= |members|
    ensures RowsApart(Cut(members, s1), Cut(infos, s1), Cut(members, s2), Cut(infos, s2))
  {
    var r1, r2 := Cut(members, s1), Cut(members, s2);
    var i1, i2 := Cut(infos, s1), Cut(infos, s2);
    forall c | c in Components(r1)
      ensures c !in Components(r2)
    {
      var j1 :| 0 <= j1 < |r1| && r1[j1].component == c;
      forall j2 | 0 <= j2 < |r2|
        ensures r2[j2].component != c
      {
        assert r1[j1] == members[s1.lo + j1] && r2[j2] == members[s2.lo + j2];
      }
    }
    forall d | d in Records(i1)
      ensures d !in Records(i2)
    {
      var j1 :| 0 <= j1 < |i1| && i1[j1] == d;
      forall j2 | 0 <= j2 < |i2|
        ensures i2[j2] != d
      {
        assert i1[j1] == infos[s1.lo + j1] && i2[j2] == infos[s2.lo + j2];
      }
    }
  }

  /**
    Cutting linked, distinct members along ordered ranges gives rows that are
    linked, distinct, pairwise apart, and read the inputs cut the same way.
  */
  lemma RowsFromMembers(members: seq<StyledComponent>, infos: seq<DebugInfo>, ins: seq<MemberInput>, slices: seq<Slice>)
    requires Linked(members, infos) && Distinct(members, infos) && InputsAre(members, ins)
    requires forall k :: 0 <= k < |slices| ==> slices[k].lo <= slices[k].hi <= |members|
    requires forall k1, k2 :: 0 <= k1 < k2 < |slices| ==> slices[k1].hi <= slices[k2].lo
    ensures AllLinked(CutAll(members, slices), CutAll(infos, slices))
    ensures AllDistinct(CutAll(members, slices), CutAll(infos, slices))
    ensures forall k :: 0 <= k < |slices| ==> InputsAre(CutAll(members, slices)[k], CutAll(ins, slices)[k])
  {
    var rows, infoss := CutAll(members, slices), CutAll(infos, slices);
    forall k | 0 <= k < |slices|
      ensures Linked(rows[k], infoss[k]) && Distinct(rows[k], infoss[k])
      ensures InputsAre(rows[k], CutAll(ins, slices)[k])
    {
    }
    forall k1, k2 | 0 <= k1 < k2 < |slices|
      ensures RowsApart(rows[k1], infoss[k1], rows[k2], infoss[k2])
    {
      CutsApart(members, infos, slices[k1], slices[k2]);
    }
  }

  /**
    The rows `toRows` returns, cut from linked, distinct members along their
    axis flags: linked, distinct, apart, reading the inputs cut the same way,
    and holding no record beyond the members' own.
  */
  lemma RowsOfMembers(members: seq<StyledComponent>, infos: seq<DebugInfo>, ins: seq<MemberInput>)
    requires Linked(members, infos) && Distinct(members, infos) && InputsAre(members, ins)
    ensures var slices := RowSlices(AxesOf(ins));
      AllLinked(CutAll(members, slices), CutAll(infos, slices)) &&
      AllDistinct(CutAll(members, slices), CutAll(infos, slices)) &&
      Pending(CutAll(members, slices), PassRows(ins), 0) &&
      AllRecords(CutAll(infos, slices)) <= Records(infos)
  {
    var slices := RowSlices(AxesOf(ins));
    RowSlicesOrdered(AxesOf(ins));
    RowsFromMembers(members, infos, ins, slices);
    CutRecords(infos, slices);
  }

  /** Rows cut from members that hold their fresh records still hold them. */
  lemma CutsAttached(members: seq<StyledComponent>, infos: seq<DebugInfo>, flags: seq<bool>, slices: seq<Slice>)
    requires |infos| == |members| && |flags| == |members|
    requires forall j :: 0 <= j < |members| ==> Attached(members[j], infos[j], flags[j])
    requires forall k :: 0 <= k < |slices| ==> slices[k].lo <= slices[k].hi <= |members|
    ensures RowsAttached(CutAll(members, slices), CutAll(infos, slices))
  {
    var rows: seq<seq<StyledComponent>>, infoss: seq<seq<DebugInfo>> := CutAll(members, slices), CutAll(infos, slices);
    forall k, j | 0 <= k < |rows| && 0 <= j < |rows[k]| && j < |infoss[k]|
      ensures Attached(rows[k][j], infoss[k][j], IsHorizontal(rows[k][j].compWrapper.styleMap.entries))
    {
      CutAt(members, slices[k], j);
      CutAt(infos, slices[k], j);
      assert Attached(members[slices[k].lo + j], infos[slices[k].lo + j], flags[slices[k].lo + j]);
    }
  }

  lemma CutRecord(infos: seq<DebugInfo>, slice: Slice, j: nat)
    requires slice.lo <= slice.hi <= |infos| && j < |Cut(infos, slice)|
    ensures Cut(infos, slice)[j] in Records(infos)
  {
    assert Cut(infos, slice)[j] == infos[slice.lo + j];
  }

  /** The rows' records are among the records they were cut from. */
  lemma CutRecords(infos: seq<DebugInfo>, slices: seq<Slice>)
    requires forall k :: 0 <= k < |slices| ==> slices[k].lo <= slices[k].hi <= |infos|
    ensures AllRecords(CutAll(infos, slices)) <= Records(infos)
  {
    var infoss := CutAll(infos, slices);
    forall d | d in AllRecords(infoss)
      ensures d in Records(infos)
    {
      var k, j :| 0 <= k < |infoss| && 0 <= j < |infoss[k]| && infoss[k][j] == d;
      CutRecord(infos, slices[k], j);
    }
  }

  /** Every widget in the rows cut from `Members(vis, styles)` is one of `vis`. */
  lemma RowsWithin(vis: seq<Component>, styles: map<Component, CompWrapper>, slices: seq<Slice>)
    requires forall c :: c in vis ==> c in styles
    ensures forall c :: c in AllComponents(CutAll(Members(vis, styles), slices)) ==> c in vis
  {
    var members := Members(vis, styles);
    var rows := CutAll(members, slices);
    forall c | c in AllComponents(rows)
      ensures c in vis
    {
      var k, j :| 0 <= k < |rows| && 0 <= j < |rows[k]| && rows[k][j].component == c;
      CutAt(members, slices[k], j);
    }
  }

  /** Each widget of the rows sits at its `Placement` for the measurements `mss`. */
  ghost predicate Placed(rows: seq<seq<StyledComponent>>, mss: seq<seq<Measured>>, startX: int, startY: int)
    reads AllComponents(rows)
  {
    |mss| == |rows| && (forall k :: 0 <= k < |rows| ==> |mss[k]| == |rows[k]|) &&
    forall k, j :: 0 <= k < |rows| && 0 <= j < |rows[k]| ==>
      rows[k][j].component.Bounds() == Placement(mss, startX, startY, k, j)
  }

  /** The size the content of the measured rows `mss` takes: the widest row by the summed row heights. */
  function ContentSize(mss: seq<seq<Measured>>): Dim
  {
    Dim(ContentWidth(mss), SumRowHeights(mss))
  }

  /**
    The size a pass over the measured rows leaves as content, or none when a
    padding directive does not parse.
  */
  function PassContent(inss: seq<seq<MemberInput>>): Dim
  {
    if MeasureRows(inss).Ok? then ContentSize(MeasureRows(inss).value) else Dim(0, 0)
  }

  /**
    The container `panel`, which had `before` as bounds and `pref`, `max`, `min`
    as sizes: when `crop` is on and the content does not fit, it now has the
    content's size at the same location, as all three sizes too; otherwise it
    is as it was.
  */
  ghost predicate CropOutcome(panel: Component, before: Rect, pref: Dim, max: Dim, min: Dim, content: Dim, crop: bool)
    reads panel
  {
    if crop && CropNeeded(before, content) then
      panel.Bounds() == Rect(before.x, before.y, content.width, content.height) &&
      panel.prefSize == content && panel.maxSize == content && panel.minSize == content
    else
      panel.Bounds() == before && panel.prefSize == pref && panel.maxSize == max && panel.minSize == min
  }

  class InternalBetterLayout {
    var minWidth: int
    var minHeight: int
    var preferredWidth: int
    var preferredHeight: int
    /** What `minimumLayoutSize` reports. */
    var minimumSize: Dim
    /** What `preferredLayoutSize` reports. */
    var preferredSize: Dim
    /** The cursor origin: the container's left and top insets. */
    var startX: int
    var startY: int

    /** `InternalBetterLayout(size)`: the same size as minimum and preferred. */
    constructor (size: Dim)
      ensures minimumSize == size && preferredSize == size
      ensures minWidth == 0 && minHeight == 0 && preferredWidth == 0 && preferredHeight == 0
      ensures startX == 0 && startY == 0
    {
      minimumSize, preferredSize := size, size;
      minWidth, minHeight, preferredWidth, preferredHeight := 0, 0, 0, 0;
      startX, startY := 0, 0;
    }

    constructor WithSizes(minimumSize: Dim, preferredSize: Dim)
      ensures this.minimumSize == minimumSize && this.preferredSize == preferredSize
      ensures minWidth == 0 && minHeight == 0 && preferredWidth == 0 && preferredHeight == 0
      ensures startX == 0 && startY == 0
    {
      this.minimumSize, this.preferredSize := minimumSize, preferredSize;
      minWidth, minHeight, preferredWidth, preferredHeight := 0, 0, 0, 0;
      startX, startY := 0, 0;
    }

    /**
      The first half of one member's step in `drawRows`: choose its size and
      read its four paddings, failing on an unparsable one.
    */
    static method MeasureMember(s: StyledComponent) returns (r: Result<Measured>)
      ensures r == Measure(InputOf(s))
    {
      var compSize := s.component.Size();
      var compPrefSize := s.component.prefSize;
      if compSize.width < compPrefSize.width || compSize.height < compPrefSize.height {
        compSize := compPrefSize;
      }
      var width, height := compSize.width, compSize.height;
      var totalWidth, totalHeight := compSize.width, compSize.height;
      var paddingLeft: Byte, paddingRight: Byte, paddingTop: Byte, paddingBottom: Byte := 0, 0, 0, 0;
      var valPaddingLeft := s.compWrapper.styleMap.Get(PaddingLeft.key);
      var valPaddingRight := s.compWrapper.styleMap.Get(PaddingRight.key);
      var valPaddingTop := s.compWrapper.styleMap.Get(PaddingTop.key);
      var valPaddingBottom := s.compWrapper.styleMap.Get(PaddingBottom.key);
      if valPaddingLeft.Some? {
        paddingLeft :- ParseByte(valPaddingLeft.value);
        totalWidth := totalWidth + paddingLeft;
      }
      if valPaddingRight.Some? {
        paddingRight :- ParseByte(valPaddingRight.value);
        totalWidth := totalWidth + paddingRight;
      }
      if valPaddingTop.Some? {
        paddingTop :- ParseByte(valPaddingTop.value);
        totalHeight := totalHeight + paddingTop;
      }
      if valPaddingBottom.Some? {
        paddingBottom :- ParseByte(valPaddingBottom.value);
        totalHeight := totalHeight + paddingBottom;
      }
      r := Ok(Measured(width, height, totalWidth, totalHeight, paddingLeft, paddingRight, paddingTop, paddingBottom));
    }

    /** The eight writes into a member's record once it is measured. */
    static method WriteRecord(info: DebugInfo, m: Measured)
      modifies info`width, info`height, info`totalWidth, info`totalHeight
      modifies info`paddingLeft, info`paddingRight, info`paddingTop, info`paddingBottom
      ensures RecordOf(info) == m
    {
      info.width := m.width;
      info.height := m.height;
      info.totalWidth := m.totalWidth;
      info.totalHeight := m.totalHeight;
      info.paddingLeft := m.paddingLeft;
      info.paddingRight := m.paddingRight;
      info.paddingTop := m.paddingTop;
      info.paddingBottom := m.paddingBottom;
    }

    /** One member's step in the first loop of `drawRows`: measure it, then fill in its record. */
    static method RecordMember(s: StyledComponent, ghost input: MemberInput) returns (r: Result<Measured>)
      requires s.compWrapper.info != null && InputOf(s) == input
      modifies s.compWrapper.info`width, s.compWrapper.info`height, s.compWrapper.info`totalWidth, s.compWrapper.info`totalHeight
      modifies s.compWrapper.info`paddingLeft, s.compWrapper.info`paddingRight, s.compWrapper.info`paddingTop, s.compWrapper.info`paddingBottom
      ensures r == Measure(input)
      ensures r.Ok? ==> RecordOf(s.compWrapper.info) == r.value
    {
      r := MeasureMember(s);
      if r.Ok? {
        WriteRecord(s.compWrapper.info, r.value);
      }
    }

    /** The first loop of one row in `drawRows`: measure every member and write its record. */
    static method RecordRow(row: seq<StyledComponent>, ghost infos: seq<DebugInfo>, ghost ins: seq<MemberInput>)
      returns (r: Outcome)
      requires Linked(row, infos) && Distinct(row, infos) && InputsAre(row, ins)
      modifies Records(infos)`width, Records(infos)`height, Records(infos)`totalWidth, Records(infos)`totalHeight
      modifies Records(infos)`paddingLeft, Records(infos)`paddingRight, Records(infos)`paddingTop, Records(infos)`paddingBottom
      ensures r.Pass? <==> MeasureAll(ins).Ok?
      ensures r.Fail? ==> r.error == NumberFormatException
      ensures r.Pass? ==> RecordsAre(infos, MeasureAll(ins).value)
    {
      ghost var ms: seq<Measured> := [];
      var j := 0;
      while j < |row|
        invariant 0 <= j <= |row|
        invariant Linked(row, infos) && InputsAre(row, ins)
        invariant MeasureAll(ins[..j]) == Ok(ms)
        invariant forall k :: 0 <= k < j ==> RecordOf(infos[k]) == ms[k]
      {
        var measured := RecordMember(row[j], ins[j]);
        if measured.Err? {
          MeasureAllFails(ins, j);
          return Fail(measured.error);
        }
        MeasureAllExtend(ins, j, ms, measured.value);
        ms := ms + [measured.value];
        j := j + 1;
      }
      assert ins[..|row|] == ins;
      r := Pass;
    }

    /** The second loop of one row in `drawRows`: the tallest recorded total height, or 0. */
    static method TallestMember(row: seq<StyledComponent>, ghost infos: seq<DebugInfo>, ghost ms: seq<Measured>)
      returns (rowHeight: int)
      requires Linked(row, infos) && RecordsAre(infos, ms)
      ensures rowHeight == RowHeight(ms)
    {
      rowHeight := 0;
      var j := 0;
      while j < |row|
        invariant 0 <= j <= |row|
        invariant rowHeight == RowHeight(ms[..j])
      {
        assert ms[..j + 1][..j] == ms[..j];
        if row[j].compWrapper.info.totalHeight > rowHeight {
          rowHeight := row[j].compWrapper.info.totalHeight;
        }
        j := j + 1;
      }
      assert ms[..|row|] == ms;
    }

    /** The third loop of one row in `drawRows`: every record's total height becomes `rowHeight`. */
    static method StampRowHeight(row: seq<StyledComponent>, rowHeight: int, ghost infos: seq<DebugInfo>, ghost ms: seq<Measured>)
      requires Linked(row, infos) && Distinct(row, infos) && RecordsAre(infos, ms)
      modifies Records(infos)`totalHeight
      ensures RecordsAre(infos, Stamp(ms, rowHeight))
    {
      var j := 0;
      while j < |row|
        invariant 0 <= j <= |row|
        invariant Linked(row, infos)
        invariant forall k :: 0 <= k < |row| ==>
          RecordOf(infos[k]) == if k < j then ms[k].(totalHeight := rowHeight) else ms[k]
      {
        row[j].compWrapper.info.totalHeight := rowHeight;
        j := j + 1;
      }
    }

    /** The last loop of one row in `drawRows`: place each member and move the x cursor past it. */
    static method PlaceRow(row: seq<StyledComponent>, startX: int, y: int, ghost infos: seq<DebugInfo>, ghost ms: seq<Measured>)
      requires Linked(row, infos) && Distinct(row, infos) && RecordsAre(infos, ms)
      modifies Components(row)`x, Components(row)`y, Components(row)`width, Components(row)`height
      ensures forall j :: 0 <= j < |row| ==> row[j].component.Bounds() == PlaceInRow(ms, startX, y, j)
    {
      var x := startX;
      var j := 0;
      while j < |row|
        invariant 0 <= j <= |row|
        invariant x == startX + SumWidths(ms[..j])
        invariant forall k :: 0 <= k < j ==> row[k].component.Bounds() == PlaceInRow(ms, startX, y, k)
      {
        var info := row[j].compWrapper.info;
        row[j].component.SetBounds(x + info.paddingLeft, y + info.paddingTop, info.width, info.height);
        SumWidthsAppend(ms, j);
        x := x + info.totalWidth;
        j := j + 1;
      }
    }

    /**
      The rest of one row of `drawRows` once every member is recorded: stamp
      the row height, then place the members left to right from `startX` at
      top `y`. Returns the row height.
    */
    static method StampAndPlaceRow(row: seq<StyledComponent>, startX: int, y: int, ghost infos: seq<DebugInfo>, ghost ms: seq<Measured>)
      returns (rowHeight: int)
      requires Linked(row, infos) && Distinct(row, infos) && RecordsAre(infos, ms)
      modifies Components(row)`x, Components(row)`y, Components(row)`width, Components(row)`height
      modifies Records(infos)`width, Records(infos)`height, Records(infos)`totalWidth, Records(infos)`totalHeight
      modifies Records(infos)`paddingLeft, Records(infos)`paddingRight, Records(infos)`paddingTop, Records(infos)`paddingBottom
      ensures rowHeight == RowHeight(ms)
      ensures RecordsAre(infos, Stamp(ms, rowHeight))
      ensures forall j :: 0 <= j < |row| ==> row[j].component.Bounds() == PlaceInRow(ms, startX, y, j)
    {
      rowHeight := TallestMember(row, infos, ms);
      StampRowHeight(row, rowHeight, infos, ms);
      ghost var stamped := Stamp(ms, rowHeight);
      PlaceRow(row, startX, y, infos, stamped);
      forall j | 0 <= j < |row|
        ensures PlaceInRow(stamped, startX, y, j) == PlaceInRow(ms, startX, y, j)
      {
        PlaceInRowStamp(ms, rowHeight, startX, y, j);
      }
    }

    /**
      One row of `drawRows`: record every member, stamp the row height, then
      place the members left to right from `startX` at top `y`. Returns the row
      height, by which the y cursor advances.
    */
    static method DrawRow(row: seq<StyledComponent>, startX: int, y: int, ghost infos: seq<DebugInfo>, ghost ins: seq<MemberInput>)
      returns (r: Result<int>)
      requires Linked(row, infos) && Distinct(row, infos) && InputsAre(row, ins)
      modifies Components(row)`x, Components(row)`y, Components(row)`width, Components(row)`height
      modifies Records(infos)`width, Records(infos)`height, Records(infos)`totalWidth, Records(infos)`totalHeight
      modifies Records(infos)`paddingLeft, Records(infos)`paddingRight, Records(infos)`paddingTop, Records(infos)`paddingBottom
      ensures r.Ok? <==> MeasureAll(ins).Ok?
      ensures r.Err? ==> r.error == NumberFormatException
      ensures r.Ok? ==>
        var ms := MeasureAll(ins).value;
        r.value == RowHeight(ms) &&
        RecordsAre(infos, Stamp(ms, RowHeight(ms))) &&
        forall j :: 0 <= j < |row| ==> row[j].component.Bounds() == PlaceInRow(ms, startX, y, j)
    {
      var recorded := RecordRow(row, infos, ins);
      if recorded.Fail? {
        return Err(recorded.error);
      }
      var rowHeight := StampAndPlaceRow(row, startX, y, infos, MeasureAll(ins).value);
      r := Ok(rowHeight);
    }

    /** `DrawRow` on row `k` of `rows`, which leaves the widgets, maps and records of the other rows alone. */
    static method DrawRowAmong(rows: seq<seq<StyledComponent>>, startX: int, y: int, k: nat,
                               ghost infoss: seq<seq<DebugInfo>>, ghost ins: seq<MemberInput>)
      returns (r: Result<int>)
      requires k < |rows| && AllLinked(rows, infoss) && AllDistinct(rows, infoss) && InputsAre(rows[k], ins)
      modifies Components(rows[k])`x, Components(rows[k])`y, Components(rows[k])`width, Components(rows[k])`height
      modifies Records(infoss[k])`width, Records(infoss[k])`height, Records(infoss[k])`totalWidth, Records(infoss[k])`totalHeight
      modifies Records(infoss[k])`paddingLeft, Records(infoss[k])`paddingRight, Records(infoss[k])`paddingTop, Records(infoss[k])`paddingBottom
      ensures AllLinked(rows, infoss)
      ensures r.Ok? <==> MeasureAll(ins).Ok?
      ensures r.Err? ==> r.error == NumberFormatException
      ensures r.Ok? ==>
        var ms := MeasureAll(ins).value;
        r.value == RowHeight(ms) && RowDrawn(rows[k], infoss[k], ms, y, startX)
      ensures forall k' {:trigger RowUntouched(rows[k'], infoss[k'])} :: 0 <= k' < |rows| && k' != k ==>
        RowUntouched(rows[k'], infoss[k'])
    {
      forall k' | 0 <= k' < |rows|
        ensures Linked(rows[k'], infoss[k'])
      {
      }
      assert Distinct(rows[k], infoss[k]);
      r := DrawRow(rows[k], startX, y, infoss[k], ins);
      forall k' | 0 <= k' < |rows|
        ensures Linked(rows[k'], infoss[k'])
      {
        assert old(Linked(rows[k'], infoss[k']));
      }
      forall k' | 0 <= k' < |rows| && k' != k
        ensures RowUntouched(rows[k'], infoss[k'])
      {
        if k' < k {
          assert RowsApart(rows[k'], infoss[k'], rows[k], infoss[k]);
        } else {
          assert RowsApart(rows[k], infoss[k], rows[k'], infoss[k']);
        }
      }
    }

    /**
      One turn of the outer loop of `drawRows`: draw row `k` with its top at
      `y`, below the rows `mss` drawn so far, leaving every other row's widgets
      and records as they were.
    */
    static method DrawNextRow(rows: seq<seq<StyledComponent>>, startX: int, y: int, k: nat,
                              ghost infoss: seq<seq<DebugInfo>>, ghost inss: seq<seq<MemberInput>>,
                              ghost mss: seq<seq<Measured>>, ghost tops: seq<int>)
      returns (r: Result<int>)
      requires k < |rows| && AllLinked(rows, infoss) && AllDistinct(rows, infoss)
      requires Pending(rows, inss, k) && Drawn(rows, infoss, mss, tops, startX) && |mss| == k
      modifies Components(rows[k])`x, Components(rows[k])`y, Components(rows[k])`width, Components(rows[k])`height
      modifies Records(infoss[k])`width, Records(infoss[k])`height, Records(infoss[k])`totalWidth, Records(infoss[k])`totalHeight
      modifies Records(infoss[k])`paddingLeft, Records(infoss[k])`paddingRight, Records(infoss[k])`paddingTop, Records(infoss[k])`paddingBottom
      ensures AllLinked(rows, infoss)
      ensures r.Ok? <==> MeasureAll(inss[k]).Ok?
      ensures r.Err? ==> r.error == NumberFormatException
      ensures r.Ok? ==>
        var ms := MeasureAll(inss[k]).value;
        r.value == RowHeight(ms) && Pending(rows, inss, k + 1) && Drawn(rows, infoss, mss + [ms], tops + [y], startX)
      ensures r.Err? ==> Drawn(rows, infoss, mss, tops, startX)
      ensures forall k' {:trigger RowUntouched(rows[k'], infoss[k'])} :: 0 <= k' < |rows| && k' != k ==>
        RowUntouched(rows[k'], infoss[k'])
    {
      assert InputsAre(rows[k], inss[k]);
      r := DrawRowAmong(rows, startX, y, k, infoss, inss[k]);
      if r.Err? {
        forall k' | 0 <= k' < k
          ensures RowDrawn(rows[k'], infoss[k'], mss[k'], tops[k'], startX)
        {
          assert RowUntouched(rows[k'], infoss[k']);
          assert old(RowDrawn(rows[k'], infoss[k'], mss[k'], tops[k'], startX));
        }
        return;
      }
      ghost var ms := MeasureAll(inss[k]).value;
      forall k' | k < k' < |rows|
        ensures InputsAre(rows[k'], inss[k'])
      {
        assert RowUntouched(rows[k'], infoss[k']);
        assert old(InputsAre(rows[k'], inss[k']));
      }
      forall k' | 0 <= k' <= k
        ensures RowDrawn(rows[k'], infoss[k'], (mss + [ms])[k'], (tops + [y])[k'], startX)
      {
        if k' < k {
          assert RowUntouched(rows[k'], infoss[k']);
          assert old(RowDrawn(rows[k'], infoss[k'], mss[k'], tops[k'], startX));
        }
      }
    }

    /**
      `drawRows`: measure, record and place each row in turn, the y cursor
      moving down by each row's height; the first unparsable padding ends the
      pass with the rows before it already placed and the rows after it
      untouched.
    */
    method DrawRows(rows: seq<seq<StyledComponent>>, ghost infoss: seq<seq<DebugInfo>>, ghost inss: seq<seq<MemberInput>>)
      returns (r: Outcome)
      requires AllLinked(rows, infoss) && AllDistinct(rows, infoss)
      requires |inss| == |rows| && forall k :: 0 <= k < |rows| ==> InputsAre(rows[k], inss[k])
      modifies AllComponents(rows)`x, AllComponents(rows)`y, AllComponents(rows)`width, AllComponents(rows)`height
      modifies AllRecords(infoss)`width, AllRecords(infoss)`height, AllRecords(infoss)`totalWidth, AllRecords(infoss)`totalHeight
      modifies AllRecords(infoss)`paddingLeft, AllRecords(infoss)`paddingRight, AllRecords(infoss)`paddingTop, AllRecords(infoss)`paddingBottom
      ensures r.Pass? <==> MeasureRows(inss).Ok?
      ensures r.Fail? ==> r.error == NumberFormatException
      ensures r.Pass? ==>
        forall k :: 0 <= k < |rows| ==> |MeasureRows(inss).value[k]| == |rows[k]|
      ensures AllLinked(rows, infoss)
      ensures r.Pass? ==>
        var mss := MeasureRows(inss).value;
        (forall k :: 0 <= k < |rows| ==> RecordsAre(infoss[k], StampRows(mss)[k])) &&
        Placed(rows, mss, startX, startY)
      ensures r.Fail? ==> exists k: nat :: StoppedAt(rows, infoss, inss, k, startX, startY)
    {
      var x, y := startX, startY;
      ghost var y0 := y;
      ghost var mss: seq<seq<Measured>> := [];
      ghost var tops: seq<int> := [];
      var k := 0;
      while k < |rows|
        invariant 0 <= k <= |rows|
        invariant AllLinked(rows, infoss)
        invariant MeasureRows(inss[..k]) == Ok(mss)
        invariant RowTops(mss, y0, tops) && y == y0 + SumRowHeights(mss)
        invariant Pending(rows, inss, k) && Drawn(rows, infoss, mss, tops, x)
        invariant forall k' {:trigger RowUntouched(rows[k'], infoss[k'])} :: k <= k' < |rows| ==> RowUntouched(rows[k'], infoss[k'])
      {
        RowInFrame(rows, infoss, k);
        label beforeRow:
        var rowHeight := DrawNextRow(rows, x, y, k, infoss, inss, mss, tops);
        forall k' | k < k' < |rows|
          ensures RowUntouched(rows[k'], infoss[k'])
        {
          assert RowUntouched@beforeRow(rows[k'], infoss[k']);
        }
        if rowHeight.Err? {
          MeasureRowsFails(inss, k);
          DrawnPrefix(rows, infoss, mss, tops, x, y0);
          assert StoppedAt(rows, infoss, inss, k, startX, startY);
          return Fail(rowHeight.error);
        }
        MeasureRowsExtend(inss, k, mss, MeasureAll(inss[k]).value);
        RowTopsExtend(mss, MeasureAll(inss[k]).value, y0, tops);
        mss := mss + [MeasureAll(inss[k]).value];
        tops := tops + [y];
        y := y + rowHeight.value;
        k := k + 1;
      }
      assert inss[..k] == inss;
      DrawnComplete(rows, infoss, mss, tops, x, y0);
      r := Pass;
    }

    /** `calcContainerHeight`: the first member's total height in every non-empty row, added up. */
    static method CalcContainerHeight(rows: seq<seq<StyledComponent>>, ghost infoss: seq<seq<DebugInfo>>, ghost mss: seq<seq<Measured>>)
      returns (height: int)
      requires AllLinked(rows, infoss)
      requires |mss| == |rows| && forall k :: 0 <= k < |rows| ==> RecordsAre(infoss[k], mss[k])
      ensures height == ContentHeight(mss)
    {
      height := 0;
      var k := 0;
      while k < |rows|
        invariant 0 <= k <= |rows|
        invariant height == ContentHeight(mss[..k])
      {
        assert mss[..k + 1][..k] == mss[..k];
        assert Linked(rows[k], infoss[k]);
        if |rows[k]| != 0 {
          height := height + rows[k][0].compWrapper.info.totalHeight;
        }
        k := k + 1;
      }
      assert mss[..|rows|] == mss;
    }

    /** `calcContainerWidth`: the widest row's padded width, or 0. */
    static method CalcContainerWidth(rows: seq<seq<StyledComponent>>, ghost infoss: seq<seq<DebugInfo>>, ghost mss: seq<seq<Measured>>)
      returns (width: int)
      requires AllLinked(rows, infoss)
      requires |mss| == |rows| && forall k :: 0 <= k < |rows| ==> RecordsAre(infoss[k], mss[k])
      ensures width == ContentWidth(mss)
    {
      forall k | 0 <= k < |rows|
        ensures Linked(rows[k], infoss[k])
      {
      }
      width := 0;
      var k := 0;
      while k < |rows|
        invariant 0 <= k <= |rows|
        invariant width == ContentWidth(mss[..k])
      {
        assert mss[..k + 1][..k] == mss[..k];
        var row := rows[k];
        assert Linked(row, infoss[k]) && RecordsAre(infoss[k], mss[k]);
        var rowWidth := 0;
        var j := 0;
        while j < |row|
          invariant 0 <= j <= |row|
          invariant rowWidth == SumWidths(mss[k][..j])
        {
          SumWidthsAppend(mss[k], j);
          rowWidth := rowWidth + row[j].compWrapper.info.totalWidth;
          j := j + 1;
        }
        assert mss[k][..|row|] == mss[k];
        if rowWidth > width {
          width := rowWidth;
        }
        k := k + 1;
      }
      assert mss[..|rows|] == mss;
    }

    /** `updateSizes`: the preferred, maximum and minimum sizes all become `width` by `height`. */
    static method UpdateSizes(comp: Component, width: int, height: int)
      modifies comp`prefSize, comp`maxSize, comp`minSize
      ensures comp.prefSize == Dim(width, height) && comp.maxSize == Dim(width, height) && comp.minSize == Dim(width, height)
    {
      comp.SetPreferredSize(Dim(width, height));
      comp.SetMaximumSize(Dim(width, height));
      comp.SetMinimumSize(Dim(width, height));
    }

    /**
      The map rebuild of `layoutContainer`: every child keeps the wrapper it
      was mapped to, and a child added without a wrapper gets a fresh one
      holding a copy of the template's directives. Entries for widgets that
      are no longer children are dropped.
    */
    static method RebuildMap(children: seq<Component>, styles: map<Component, CompWrapper>, template: CompWrapper)
      returns (rebuilt: map<Component, CompWrapper>)
      ensures rebuilt.Keys == set c | c in children
      ensures forall c :: c in children && c in styles ==> rebuilt[c] == styles[c]
      ensures forall c :: c in children && c !in styles ==>
        fresh(rebuilt[c]) && fresh(rebuilt[c].styleMap) && rebuilt[c].component == c &&
        rebuilt[c].info == null && rebuilt[c].styleMap.entries == template.styleMap.entries
      ensures Keyed(styles) ==> Keyed(rebuilt)
    {
      rebuilt := map[];
      var i := 0;
      while i < |children|
        invariant 0 <= i <= |children|
        invariant rebuilt.Keys == set c | c in children[..i]
        invariant forall c :: c in rebuilt && c in styles ==> rebuilt[c] == styles[c]
        invariant forall c :: c in rebuilt && c !in styles ==>
          fresh(rebuilt[c]) && fresh(rebuilt[c].styleMap) && rebuilt[c].component == c &&
          rebuilt[c].info == null && rebuilt[c].styleMap.entries == template.styleMap.entries
        invariant Keyed(styles) ==> Keyed(rebuilt)
      {
        var comp := children[i];
        var compWrapper: CompWrapper;
        if comp in styles {
          compWrapper := styles[comp];
        } else {
          compWrapper := WrapperWithDefaults(comp, template);
        }
        rebuilt := rebuilt[comp := compWrapper];
        assert children[..i + 1] == children[..i] + [comp];
        i := i + 1;
      }
      assert children[..i] == children;
    }

    /** A new wrapper for `comp` holding a copy of the template's directives, so later edits to either leave the other alone. */
    static method WrapperWithDefaults(comp: Component, template: CompWrapper) returns (compWrapper: CompWrapper)
      ensures fresh(compWrapper) && fresh(compWrapper.styleMap)
      ensures compWrapper.component == comp && compWrapper.info == null
      ensures compWrapper.styleMap.entries == template.styleMap.entries
    {
      compWrapper := new CompWrapper.Of(comp);
      compWrapper.styleMap.PutAll(template.styleMap);
    }

    /** A fresh record for one visible child's wrapper, holding the child's axis flag. */
    static method AttachRecord(compWrapper: CompWrapper) returns (ghost info: DebugInfo)
      modifies compWrapper`info
      ensures fresh(info) && compWrapper.info == info
      ensures RecordOf(info) == Unmeasured && info.isHorizontal == IsHorizontal(compWrapper.styleMap.entries)
    {
      var record := new DebugInfo();
      record.isHorizontal := IsHorizontal(compWrapper.styleMap.entries);
      compWrapper.info := record;
      info := record;
    }

    /**
      One visible child joins the members: its wrapper gets a fresh record
      holding its axis flag, and the records already handed out stay as they are.
    */
    static method CollectOne(s: StyledComponent, members: seq<StyledComponent>, flags: seq<bool>, ghost infos: seq<DebugInfo>)
      returns (members': seq<StyledComponent>, flags': seq<bool>, ghost infos': seq<DebugInfo>)
      requires |flags| == |members| && |infos| == |members|
      requires forall j :: 0 <= j < |members| ==> members[j].compWrapper != s.compWrapper
      requires forall j :: 0 <= j < |members| ==> Attached(members[j], infos[j], flags[j])
      requires forall j1, j2 :: 0 <= j1 < j2 < |infos| ==> infos[j1] != infos[j2]
      modifies s.compWrapper`info
      ensures members' == members + [s] && |flags'| == |members'| && |infos'| == |members'|
      ensures infos'[..|infos|] == infos && fresh(infos'[|infos|])
      ensures forall j :: 0 <= j < |members'| ==> Attached(members'[j], infos'[j], flags'[j])
      ensures forall j1, j2 :: 0 <= j1 < j2 < |infos'| ==> infos'[j1] != infos'[j2]
    {
      ghost var info := AttachRecord(s.compWrapper);
      members' := members + [s];
      flags' := flags + [IsHorizontal(s.compWrapper.styleMap.entries)];
      infos' := infos + [info];
      assert infos'[..|infos|] == infos;
    }

    /**
      One pass of the first loop of `toRows`, over the child at `i`: a visible
      child joins the members with a fresh record; a hidden one is skipped.
      `shown` is the set of visible children.
    */
    static method CollectChild(styles: map<Component, CompWrapper>, components: seq<Component>, i: nat, ghost shown: set<Component>,
                               members: seq<StyledComponent>, flags: seq<bool>, ghost infos: seq<DebugInfo>)
      returns (members': seq<StyledComponent>, flags': seq<bool>, ghost infos': seq<DebugInfo>)
      requires i < |components| && (forall c :: c in components ==> c in styles)
      requires Unique(components) && Keyed(styles)
      requires components[i] in shown <==> components[i].visible
      requires members == Members(Shown(components[..i], shown), styles)
      requires |flags| == |members| && |infos| == |members|
      requires forall j :: 0 <= j < |members| ==> Attached(members[j], infos[j], flags[j])
      requires forall j1, j2 :: 0 <= j1 < j2 < |infos| ==> infos[j1] != infos[j2]
      modifies styles.Values`info
      ensures members' == Members(Shown(components[..i + 1], shown), styles)
      ensures |flags'| == |members'| && |infos'| == |members'|
      ensures forall j :: 0 <= j < |members'| ==> Attached(members'[j], infos'[j], flags'[j])
      ensures forall j1, j2 :: 0 <= j1 < j2 < |infos'| ==> infos'[j1] != infos'[j2]
      ensures |infos| <= |infos'| && infos'[..|infos|] == infos && forall j :: |infos| <= j < |infos'| ==> fresh(infos'[j])
      ensures forall w :: w in styles.Values && !(w.component == components[i] && components[i].visible) ==>
        w.info == old(w.info)
    {
      var comp := components[i];
      ShownPrefix(components, i, shown);
      members', flags', infos' := members, flags, infos;
      if comp.visible {
        MembersSnoc(Shown(components[..i], shown), comp, styles);
        var compWrapper := styles[comp];
        UniqueNotBefore(components, i);
        forall j | 0 <= j < |members|
          ensures members[j].compWrapper != compWrapper
        {
          assert members[j].component in components[..i];
          assert members[j].compWrapper.component == members[j].component;
        }
        members', flags', infos' := CollectOne(StyledComponent(comp, compWrapper), members, flags, infos);
      }
    }

    /**
      The first loop of `toRows`: each visible child, in child order, is paired
      with its wrapper, its axis flag is read, and its wrapper gets a fresh
      record holding that flag.
    */
    static method CollectMembers(styles: map<Component, CompWrapper>, components: seq<Component>)
      returns (members: seq<StyledComponent>, flags: seq<bool>, ghost infos: seq<DebugInfo>)
      requires forall c :: c in components ==> c in styles
      requires Unique(components) && Keyed(styles)
      modifies styles.Values`info
      ensures members == Members(old(VisibleChildren(components)), styles)
      ensures |flags| == |members| && |infos| == |members|
      ensures forall j :: 0 <= j < |members| ==> Attached(members[j], infos[j], flags[j])
      ensures Distinct(members, infos) && forall j :: 0 <= j < |infos| ==> fresh(infos[j])
      ensures forall w :: w in styles.Values && w.component !in VisibleSet(components) ==> w.info == old(w.info)
    {
      members, flags, infos := [], [], [];
      ghost var shown := VisibleSet(components);
      var i := 0;
      while i < |components|
        invariant 0 <= i <= |components|
        invariant shown == VisibleSet(components)
        invariant members == Members(Shown(components[..i], shown), styles)
        invariant |flags| == |members| && |infos| == |members|
        invariant forall j :: 0 <= j < |members| ==> Attached(members[j], infos[j], flags[j])
        invariant forall j :: 0 <= j < |infos| ==> fresh(infos[j])
        invariant forall j1, j2 :: 0 <= j1 < j2 < |infos| ==> infos[j1] != infos[j2]
        invariant forall w :: w in styles.Values && w.component !in shown ==> w.info == old(w.info)
      {
        ghost var before := infos;
        members, flags, infos := CollectChild(styles, components, i, shown, members, flags, infos);
        assert forall j :: 0 <= j < |before| ==> infos[j] == before[j];
        i := i + 1;
      }
      assert components[..i] == components;
      ShownComplete(components, shown);
    }

    /**
      `toRows`: give each visible child's wrapper a fresh record holding the
      child's axis flag, then cut the visible children into rows along those
      flags. `styles` holds a wrapper for every child; the records and
      wrappers are carried alongside, row by row, in `infoss`.
    */
    static method ToRows(styles: map<Component, CompWrapper>, components: seq<Component>, ghost ins: seq<MemberInput>)
      returns (rows: seq<seq<StyledComponent>>, ghost infoss: seq<seq<DebugInfo>>)
      requires forall c :: c in components ==> c in styles
      requires Unique(components) && Keyed(styles)
      requires InputsAre(Members(VisibleChildren(components), styles), ins)
      modifies styles.Values`info
      ensures rows == CutAll(Members(old(VisibleChildren(components)), styles), RowSlices(AxesOf(ins)))
      ensures AllLinked(rows, infoss) && AllDistinct(rows, infoss) && Pending(rows, PassRows(ins), 0)
      ensures fresh(AllRecords(infoss)) && RowsAttached(rows, infoss)
      ensures forall w :: w in styles.Values && w.component !in VisibleSet(components) ==> w.info == old(w.info)
    {
      var members, flags, infos := CollectMembers(styles, components);
      forall j | 0 <= j < |members|
        ensures members[j].compWrapper.info == infos[j] && flags[j] == IsHorizontal(members[j].compWrapper.styleMap.entries)
      {
        assert Attached(members[j], infos[j], flags[j]);
      }
      assert InputsAre(members, ins);
      assert flags == AxesOf(ins);
      var slices := Partition(flags);
      rows := CutAll(members, slices);
      infoss := CutAll(infos, slices);
      RowsOfMembers(members, infos, ins);
      RowSlicesOrdered(flags);
      CutsAttached(members, infos, flags, slices);
    }

    /**
      The map rebuild of `layoutContainer` on the container itself: the new
      map replaces `compsAndStyles`. `ins` is what the pass reads from the
      visible children, taken before the rebuild, with the directives each
      child's wrapper holds after it.
    */
    static method RebuildContainerMap(container: BLayout) returns (ghost ins: seq<MemberInput>)
      requires container.Valid()
      modifies container`compsAndStyles
      ensures container.Valid()
      ensures ins == old(PassInputs(VisibleChildren(container.panel.children), container.compsAndStyles,
                                    container.defaultCompCompWrapper.styleMap))
      ensures container.compsAndStyles.Keys == set c | c in container.panel.children
      ensures forall c :: c in container.panel.children && c in old(container.compsAndStyles) ==>
        container.compsAndStyles[c] == old(container.compsAndStyles[c])
      ensures forall c :: c in container.panel.children && c !in old(container.compsAndStyles) ==>
        fresh(container.compsAndStyles[c]) && container.compsAndStyles[c].component == c &&
        container.compsAndStyles[c].styleMap.entries == old(container.defaultCompCompWrapper.styleMap.entries)
      ensures forall w :: w in container.compsAndStyles.Values ==> w in old(container.compsAndStyles.Values) || fresh(w)
      ensures InputsAre(Members(old(VisibleChildren(container.panel.children)), container.compsAndStyles), ins)
    {
      ghost var vis := VisibleChildren(container.panel.children);
      ghost var styles := container.compsAndStyles;
      ghost var template := container.defaultCompCompWrapper.styleMap;
      ins := PassInputs(vis, styles, template);
      var rebuilt := RebuildMap(container.panel.children, container.compsAndStyles, container.defaultCompCompWrapper);
      container.compsAndStyles := rebuilt;
      RebuiltInputsAre(vis, styles, template, rebuilt);
      forall w | w in rebuilt.Values
        ensures w in styles.Values || fresh(w)
      {
        var c :| c in rebuilt && rebuilt[c] == w;
      }
    }

    /**
      The first half of `layoutContainer`: rebuild the container's map over
      its current children, then cut the visible children into rows, each
      member's wrapper holding a fresh record.
    */
    static method RowsOfContainer(container: BLayout)
      returns (rows: seq<seq<StyledComponent>>, ghost infoss: seq<seq<DebugInfo>>, ghost ins: seq<MemberInput>)
      requires container.Valid()
      modifies container`compsAndStyles, container.compsAndStyles.Values`info
      ensures container.Valid()
      ensures ins == old(PassInputs(VisibleChildren(container.panel.children), container.compsAndStyles,
                                    container.defaultCompCompWrapper.styleMap))
      ensures container.compsAndStyles.Keys == set c | c in container.panel.children
      ensures rows == CutAll(Members(old(VisibleChildren(container.panel.children)), container.compsAndStyles), RowSlices(AxesOf(ins)))
      ensures AllLinked(rows, infoss) && AllDistinct(rows, infoss) && Pending(rows, PassRows(ins), 0)
      ensures fresh(AllRecords(infoss)) && RowsAttached(rows, infoss)
      ensures forall c :: c in AllComponents(rows) ==> c in container.panel.children
      ensures container.panel !in AllComponents(rows)
      ensures forall w :: w in old(container.compsAndStyles.Values) && w.component !in old(VisibleSet(container.panel.children)) ==>
        w.info == old(w.info)
      ensures container.panel.children == old(container.panel.children)
      ensures forall c :: c in container.panel.children ==> c.Bounds() == old(c.Bounds())
    {
      ghost var vis := VisibleChildren(container.panel.children);
      ghost var oldWrappers := container.compsAndStyles.Values;
      ghost var shown := VisibleSet(container.panel.children);
      ins := RebuildContainerMap(container);
      assert VisibleChildren(container.panel.children) == vis;
      assert VisibleSet(container.panel.children) == shown;
      label rebuilt:
      rows, infoss := ToRows(container.compsAndStyles, container.panel.children, ins);
      RowsWithin(vis, container.compsAndStyles, RowSlices(AxesOf(ins)));
      forall w | w in oldWrappers && w.component !in shown
        ensures w.info == old(w.info)
      {
        assert w.info == old@rebuilt(w.info);
      }
    }

    /**
      The two sums the crop step reads off the stamped records: the widest
      row (`calcContainerWidth`) and the summed row heights
      (`calcContainerHeight`), that is, the content size of `mss`.
    */
    static method ContentOfRows(rows: seq<seq<StyledComponent>>, ghost infoss: seq<seq<DebugInfo>>, ghost mss: seq<seq<Measured>>)
      returns (content: Dim)
      requires AllLinked(rows, infoss)
      requires AllRecordsAre(infoss, StampRows(mss))
      ensures content == ContentSize(mss)
    {
      forall k | 0 <= k < |rows|
        ensures Linked(rows[k], infoss[k])
      {
      }
      label measured:
      var containerWidth := CalcContainerWidth(rows, infoss, StampRows(mss));
      forall k | 0 <= k < |rows|
        ensures Linked(rows[k], infoss[k])
      {
        assert old@measured(Linked(rows[k], infoss[k]));
      }
      var containerHeight := CalcContainerHeight(rows, infoss, StampRows(mss));
      ContentWidthOfStamped(mss);
      ContentHeightOfStamped(mss);
      content := Dim(containerWidth, containerHeight);
    }

    /**
      The guarded resize of the crop step: a container narrower than `width`
      or shorter than `height` takes that size, keeping its location, and
      that size becomes its preferred, maximum and minimum size. A container
      already big enough is left alone, which keeps a crop inside a scroll
      pane from growing it again on every pass.
    */
    static method ResizeToContent(container: Component, width: int, height: int,
                                  ghost rows: seq<seq<StyledComponent>>, ghost infoss: seq<seq<DebugInfo>>,
                                  ghost stamped: seq<seq<Measured>>)
      requires AllLinked(rows, infoss) && AllRecordsAre(infoss, stamped)
      requires container !in AllComponents(rows)
      modifies container`x, container`y, container`width, container`height
      modifies container`prefSize, container`maxSize, container`minSize
      ensures AllLinked(rows, infoss) && AllRecordsAre(infoss, stamped)
      ensures unchanged(AllComponents(rows))
      ensures if CropNeeded(old(container.Bounds()), Dim(width, height)) then
          container.Bounds() == Rect(old(container.x), old(container.y), width, height) &&
          container.prefSize == Dim(width, height) && container.maxSize == Dim(width, height) &&
          container.minSize == Dim(width, height)
        else
          container.Bounds() == old(container.Bounds()) && container.prefSize == old(container.prefSize) &&
          container.maxSize == old(container.maxSize) && container.minSize == old(container.minSize)
    {
      forall k | 0 <= k < |rows|
        ensures Linked(rows[k], infoss[k])
      {
      }
      label before:
      var boundsNow := container.Bounds();
      if boundsNow.width < width || boundsNow.height < height {
        container.SetBounds(boundsNow.x, boundsNow.y, width, height);
        UpdateSizes(container, width, height);
      }
      forall k | 0 <= k < |rows|
        ensures Linked(rows[k], infoss[k])
      {
        assert old@before(Linked(rows[k], infoss[k]));
      }
    }

    /**
      The crop step of `layoutContainer`, on rows whose records hold the
      stamped measurements `mss`: a container narrower or shorter than its
      content takes the content's size, keeping its location. Afterwards it
      needs no crop, so a second call with the same rows changes nothing.
    */
    static method CropToContent(container: Component, rows: seq<seq<StyledComponent>>,
                                ghost infoss: seq<seq<DebugInfo>>, ghost mss: seq<seq<Measured>>)
      requires AllLinked(rows, infoss)
      requires AllRecordsAre(infoss, StampRows(mss))
      requires container !in AllComponents(rows)
      modifies container`x, container`y, container`width, container`height
      modifies container`prefSize, container`maxSize, container`minSize
      ensures var content := ContentSize(mss);
        if CropNeeded(old(container.Bounds()), content) then
          container.Bounds() == Rect(old(container.x), old(container.y), content.width, content.height) &&
          container.prefSize == content && container.maxSize == content && container.minSize == content
        else
          container.Bounds() == old(container.Bounds()) && container.prefSize == old(container.prefSize) &&
          container.maxSize == old(container.maxSize) && container.minSize == old(container.minSize)
      ensures container.Bounds() == CropBounds(old(container.Bounds()), ContentSize(mss))
      ensures !CropNeeded(container.Bounds(), ContentSize(mss))
      ensures AllLinked(rows, infoss) && AllRecordsAre(infoss, StampRows(mss))
      ensures unchanged(AllComponents(rows))
    {
      forall k | 0 <= k < |rows|
        ensures Linked(rows[k], infoss[k])
      {
      }
      var content := ContentOfRows(rows, infoss, mss);
      ResizeToContent(container, content.width, content.height, rows, infoss, StampRows(mss));
    }

    /**
      The cursor origin and the drawing of `layoutContainer`: the origin is
      taken from the container's insets, then the rows are drawn from it.
      (The source sets the origin before rebuilding the map; the two steps
      touch disjoint state.)
    */
    method DrawFromInsets(panel: Component, rows: seq<seq<StyledComponent>>,
                          ghost infoss: seq<seq<DebugInfo>>, ghost inss: seq<seq<MemberInput>>)
      returns (r: Outcome)
      requires AllLinked(rows, infoss) && AllDistinct(rows, infoss) && Pending(rows, inss, 0)
      modifies this`startX, this`startY
      modifies AllComponents(rows)`x, AllComponents(rows)`y, AllComponents(rows)`width, AllComponents(rows)`height
      modifies AllRecords(infoss)`width, AllRecords(infoss)`height, AllRecords(infoss)`totalWidth, AllRecords(infoss)`totalHeight
      modifies AllRecords(infoss)`paddingLeft, AllRecords(infoss)`paddingRight, AllRecords(infoss)`paddingTop, AllRecords(infoss)`paddingBottom
      ensures startX == old(panel.insetLeft) && startY == old(panel.insetTop)
      ensures r.Pass? <==> MeasureRows(inss).Ok?
      ensures r.Fail? ==> r.error == NumberFormatException
      ensures AllLinked(rows, infoss)
      ensures r.Pass? ==>
        var mss := MeasureRows(inss).value;
        AllRecordsAre(infoss, StampRows(mss)) &&
        Placed(rows, mss, startX, startY)
      ensures r.Fail? ==> exists k: nat :: StoppedAt(rows, infoss, inss, k, startX, startY)
    {
      forall k | 0 <= k < |rows|
        ensures InputsAre(rows[k], inss[k])
      {
      }
      startX := panel.insetLeft;
      startY := panel.insetTop;
      label drawing:
      r := DrawRows(rows, infoss, inss);
      if r.Fail? {
        ghost var k: nat :| StoppedAt@drawing(rows, infoss, inss, k, startX, startY);
        forall k' | k < k' < |rows|
          ensures RowUntouched(rows[k'], infoss[k'])
        {
          assert RowUntouched@drawing(rows[k'], infoss[k']);
        }
        assert StoppedAt(rows, infoss, inss, k, startX, startY);
      }
    }

    /**
      The second half of `layoutContainer`: draw the rows from the
      container's insets, then, for a container that crops to its content,
      give it the content's size when it is narrower or shorter. An
      unparsable padding ends the pass with no crop.
    */
    method DrawAndCrop(container: BLayout, rows: seq<seq<StyledComponent>>,
                       ghost infoss: seq<seq<DebugInfo>>, ghost inss: seq<seq<MemberInput>>,
                       ghost wrappers: set<CompWrapper>, ghost widgets: set<Component>)
      returns (r: Outcome)
      requires AllLinked(rows, infoss) && AllDistinct(rows, infoss) && Pending(rows, inss, 0)
      requires container.panel !in AllComponents(rows)
      modifies this`startX, this`startY
      modifies AllComponents(rows)`x, AllComponents(rows)`y, AllComponents(rows)`width, AllComponents(rows)`height
      modifies AllRecords(infoss)`width, AllRecords(infoss)`height, AllRecords(infoss)`totalWidth, AllRecords(infoss)`totalHeight
      modifies AllRecords(infoss)`paddingLeft, AllRecords(infoss)`paddingRight, AllRecords(infoss)`paddingTop, AllRecords(infoss)`paddingBottom
      modifies container.panel`x, container.panel`y, container.panel`width, container.panel`height
      modifies container.panel`prefSize, container.panel`maxSize, container.panel`minSize
      ensures unchanged(container) && container.panel.children == old(container.panel.children)
      ensures startX == container.panel.insetLeft && startY == container.panel.insetTop
      ensures r.Pass? <==> MeasureRows(inss).Ok?
      ensures r.Fail? ==> r.error == NumberFormatException
      ensures AllLinked(rows, infoss)
      ensures r.Pass? ==>
        var mss := MeasureRows(inss).value;
        AllRecordsAre(infoss, StampRows(mss)) &&
        Placed(rows, mss, startX, startY)
      ensures r.Fail? ==> exists k: nat :: StoppedAt(rows, infoss, inss, k, startX, startY)
      ensures forall w :: w in wrappers ==> w.info == old(w.info)
      ensures forall c :: c in widgets && c !in AllComponents(rows) && c != container.panel ==> c.Bounds() == old(c.Bounds())
      ensures CropOutcome(container.panel, old(container.panel.Bounds()), old(container.panel.prefSize),
                          old(container.panel.maxSize), old(container.panel.minSize), PassContent(inss),
                          r.Pass? && container.isCropToContent)
    {
      r := DrawFromInsets(container.panel, rows, infoss, inss);
      if r.Pass? && container.isCropToContent {
        CropToContent(container.panel, rows, infoss, MeasureRows(inss).value);
      }
    }

    /**
      `layoutContainer`: take the cursor origin from the container's insets,
      rebuild the map and cut the rows (`RowsOfContainer`), then draw them and
      crop (`DrawAndCrop`). `ins` is what the pass reads from the visible
      children; the map is replaced even when an unparsable padding ends the pass.
    */
    method LayoutContainer(container: BLayout)
      returns (r: Outcome, ghost rows: seq<seq<StyledComponent>>, ghost infoss: seq<seq<DebugInfo>>, ghost ins: seq<MemberInput>)
      requires container.Valid()
      modifies this`startX, this`startY
      modifies container`compsAndStyles, container.compsAndStyles.Values`info
      modifies (set c | c in container.panel.children)`x, (set c | c in container.panel.children)`y
      modifies (set c | c in container.panel.children)`width, (set c | c in container.panel.children)`height
      modifies container.panel`x, container.panel`y, container.panel`width, container.panel`height
      modifies container.panel`prefSize, container.panel`maxSize, container.panel`minSize
      ensures container.Valid()
      ensures startX == container.panel.insetLeft && startY == container.panel.insetTop
      ensures ins == old(PassInputs(VisibleChildren(container.panel.children), container.compsAndStyles,
                                    container.defaultCompCompWrapper.styleMap))
      ensures container.compsAndStyles.Keys == set c | c in container.panel.children
      ensures rows == CutAll(Members(old(VisibleChildren(container.panel.children)), container.compsAndStyles), RowSlices(AxesOf(ins)))
      ensures r.Pass? <==> MeasureRows(PassRows(ins)).Ok?
      ensures r.Fail? ==> r.error == NumberFormatException
      ensures r.Pass? ==> Placed(rows, MeasureRows(PassRows(ins)).value, startX, startY)
      ensures AllLinked(rows, infoss)
      ensures r.Pass? ==>
        var mss := MeasureRows(PassRows(ins)).value;
        AllRecordsAre(infoss, StampRows(mss))
      ensures r.Fail? ==> exists k: nat :: PlacedBefore(rows, PassRows(ins), k, startX, startY)
      ensures forall w :: w in old(container.compsAndStyles.Values) && w.component !in old(VisibleSet(container.panel.children)) ==>
        w.info == old(w.info)
      ensures forall c :: c in old(container.panel.children) && c !in AllComponents(rows) ==> c.Bounds() == old(c.Bounds())
      ensures CropOutcome(container.panel, old(container.panel.Bounds()), old(container.panel.prefSize),
                          old(container.panel.maxSize), old(container.panel.minSize), PassContent(PassRows(ins)),
                          r.Pass? && container.isCropToContent)
    {
      ghost var oldWrappers := container.compsAndStyles.Values;
      ghost var shown := VisibleSet(container.panel.children);
      ghost var kids := set c | c in container.panel.children;
      var cut;
      cut, infoss, ins := RowsOfContainer(container);
      rows := cut;
      label drawing:
      r := DrawAndCrop(container, cut, infoss, PassRows(ins), oldWrappers, kids);
      if r.Fail? {
        ghost var k: nat :| StoppedAt@drawing(rows, infoss, PassRows(ins), k, startX, startY);
        assert PlacedBefore(rows, PassRows(ins), k, startX, startY);
      }
      forall c | c in old(container.panel.children) && c !in AllComponents(rows)
        ensures c.Bounds() == old(c.Bounds())
      {
        assert c in kids && c != container.panel;
      }
    }
  }

  /** Appending a widget other than the panel, filed under a wrapper of its own, keeps a container valid. */
  lemma AddKeepsValid(children: seq<Component>, panel: Component, comp: Component,
                      styles: map<Component, CompWrapper>, compWrapper: CompWrapper)
    requires panel !in children && Unique(children) && Keyed(styles)
    requires comp != panel && compWrapper.component == comp
    ensures panel !in Without(children, comp) + [comp] && Unique(Without(children, comp) + [comp])
    ensures Keyed(styles[comp := compWrapper])
  {
    WithoutUnique(children, comp);
    WithoutElements(children, comp);
  }

  /** The child list after appending each of `comps` in turn: each one leaves its place and goes last. */
  function AppendAll(children: seq<Component>, comps: seq<Component>): (r: seq<Component>)
    decreases |comps|
  {
    if comps == [] then children
    else
      var c := comps[|comps| - 1];
      Without(AppendAll(children, comps[..|comps| - 1]), c) + [c]
  }

  /** Appending one more widget of `s` takes it from its place to the end. */
  lemma AppendAllStep(children: seq<Component>, s: seq<Component>, n: nat)
    requires n < |s|
    ensures AppendAll(children, s[..n + 1]) == Without(AppendAll(children, s[..n]), s[n]) + [s[n]]
    ensures forall c :: c in s[..n + 1] ==> c in s[..n] || c == s[n]
  {
    assert s[..n + 1][..n] == s[..n];
  }

  /** Appending widgets in turn loses no child and adds exactly the appended widgets. */
  lemma {:induction false} AppendAllMembers(children: seq<Component>, comps: seq<Component>)
    ensures forall x :: x in AppendAll(children, comps) <==> x in children || x in comps
    decreases |comps|
  {
    if comps != [] {
      var init := comps[..|comps| - 1];
      var c := comps[|comps| - 1];
      AppendAllMembers(children, init);
      WithoutElements(AppendAll(children, init), c);
      assert comps == init + [c];
    }
  }

  /** Appending widgets in turn keeps a child list free of repeats, and the last one appended ends it. */
  lemma {:induction false} AppendAllUnique(children: seq<Component>, comps: seq<Component>)
    requires Unique(children)
    ensures Unique(AppendAll(children, comps))
    ensures comps != [] ==> AppendAll(children, comps)[|AppendAll(children, comps)| - 1] == comps[|comps| - 1]
    decreases |comps|
  {
    if comps != [] {
      AppendAllUnique(children, comps[..|comps| - 1]);
      WithoutUnique(AppendAll(children, comps[..|comps| - 1]), comps[|comps| - 1]);
    }
  }

  /** The template's directives with the axis entry `addH` (when `horizontal`) or `addV` puts. */
  function WithAxis(entries: map<string, string>, horizontal: bool): (m: map<string, string>)
    ensures IsHorizontal(m) == horizontal
    ensures forall k :: k in entries && k != Vertical.key ==> k in m && m[k] == entries[k]
  {
    IsHorizontalMeaning(entries);
    if horizontal then entries[Horizontal.key := Horizontal.value] else entries[Vertical.key := Vertical.value]
  }

  /**
    The map `styles` is `before` with a wrapper filed under each widget of
    `done`: that widget's own, holding `entries`; every other entry is kept.
  */
  ghost predicate FiledAs(styles: map<Component, CompWrapper>, before: map<Component, CompWrapper>,
                          done: set<Component>, entries: map<string, string>)
    reads set c | c in done && c in styles :: styles[c].styleMap
  {
    styles.Keys == before.Keys + done &&
    (forall c :: c in before && c !in done ==> styles[c] == before[c]) &&
    (forall c :: c in done ==> styles[c].component == c && styles[c].styleMap.entries == entries)
  }

  /** The widgets among the first `n` of `s`. */
  ghost function Prefix(s: seq<Component>, n: nat): (done: set<Component>)
    requires n <= |s|
    ensures forall c :: c in done ==> c in s[..n]
    ensures forall k :: 0 <= k < n ==> s[k] in done
  {
    set c | c in s[..n]
  }

  /** One more widget of `s` joins the prefix. */
  lemma PrefixStep(s: seq<Component>, n: nat)
    requires n < |s|
    ensures Prefix(s, n + 1) == Prefix(s, n) + {s[n]}
  {
    assert s[..n + 1] == s[..n] + [s[n]];
  }

  /** Filing one more widget under a wrapper of its own holding `entries` extends `FiledAs` by that widget. */
  lemma FiledAsStep(styles: map<Component, CompWrapper>, styles': map<Component, CompWrapper>,
                    before: map<Component, CompWrapper>, done: set<Component>, entries: map<string, string>, comp: Component)
    requires FiledAs(styles, before, done, entries)
    requires comp in styles' && styles' == styles[comp := styles'[comp]]
    requires styles'[comp].component == comp && styles'[comp].styleMap.entries == entries
    ensures FiledAs(styles', before, done + {comp}, entries)
  {
  }

  /** What `setLayout` may be handed: the layout manager this container is built for, or any other kind. */
  datatype LayoutManager = Better(manager: InternalBetterLayout) | OtherManager

  /** The size `updateSize` gives: percentages of `basis`, each dividing by 100 before multiplying. */
  function PercentSize(basis: Dim, widthPercent: int, heightPercent: int): Dim
  {
    Dim(PercentOf(basis.width, widthPercent), PercentOf(basis.height, heightPercent))
  }

  /**
    `BLayout`: a panel laid out by an `InternalBetterLayout`. It keeps a
    wrapper per child in `compsAndStyles`, a template wrapper whose
    directives new children start from, the crop and debug flags, and the
    scroll pane it may be wrapped in.
  */
  class BLayout {
    /** The panel this container is: its bounds, sizes, insets and child list. */
    const panel: Component
    var parent: Component?
    var defaultCompCompWrapper: CompWrapper
    var compsAndStyles: map<Component, CompWrapper>
    var isDebug: bool
    var isCropToContent: bool
    var scrollPane: Component?
    var layout: InternalBetterLayout

    /**
      What the toolkit and this class keep true: the panel is not its own
      child, no child appears twice, and every wrapper in the map belongs to
      the child it is filed under.
    */
    ghost predicate Valid()
      reads this`compsAndStyles, panel`children
    {
      panel !in panel.children && Unique(panel.children) && Keyed(compsAndStyles)
    }

    /**
      `BLayout(parent, widthPercent, heightPercent)`: an empty panel sized to
      the given percentages of the parent, or of `screen`, the screen size,
      when there is no parent. The template is `center()` plus the default
      padding on an empty wrapper.
    */
    constructor (parent: Component?, widthPercent: int, heightPercent: int, screen: Dim)
      ensures Valid() && fresh(panel) && panel.children == [] && panel.parent == null
      ensures this.parent == parent && compsAndStyles == map[] && !isDebug && !isCropToContent && scrollPane == null
      ensures fresh(defaultCompCompWrapper) && fresh(defaultCompCompWrapper.styleMap)
      ensures defaultCompCompWrapper.component == null && defaultCompCompWrapper.styleMap.entries == DefaultChildStyles
      ensures fresh(layout)
      ensures var size := PercentSize(if parent != null then parent.Size() else screen, widthPercent, heightPercent);
        layout.minimumSize == size && layout.preferredSize == size && panel.Size() == size &&
        panel.prefSize == size && panel.minSize == size && panel.maxSize == size
    {
      panel := new Component();
      this.parent := parent;
      var template := new CompWrapper.Of(null);
      var centered := template.Center();
      var padded := centered.DefaultPadding();
      defaultCompCompWrapper := template;
      compsAndStyles := map[];
      isDebug, isCropToContent := false, false;
      scrollPane := null;
      layout := new InternalBetterLayout(Dim(0, 0));
      new;
      UpdateSize(widthPercent, heightPercent, screen);
    }

    /**
      `BLayout(parent, isCropToContent)`: sized at 0% of the parent (or
      screen), cropping to its content when the flag is set.
    */
    constructor Cropped(parent: Component?, isCropToContent: bool)
      ensures Valid() && fresh(panel) && panel.children == [] && panel.parent == null
      ensures this.parent == parent && compsAndStyles == map[] && !isDebug && this.isCropToContent == isCropToContent
      ensures scrollPane == null
      ensures fresh(defaultCompCompWrapper) && fresh(defaultCompCompWrapper.styleMap)
      ensures defaultCompCompWrapper.component == null && defaultCompCompWrapper.styleMap.entries == DefaultChildStyles
      ensures fresh(layout) && layout.minimumSize == Dim(0, 0) && layout.preferredSize == Dim(0, 0)
      ensures panel.Size() == Dim(0, 0) && panel.prefSize == Dim(0, 0) && panel.minSize == Dim(0, 0) && panel.maxSize == Dim(0, 0)
    {
      panel := new Component();
      this.parent := parent;
      var template := new CompWrapper.Of(null);
      var centered := template.Center();
      var padded := centered.DefaultPadding();
      defaultCompCompWrapper := template;
      compsAndStyles := map[];
      isDebug := false;
      scrollPane := null;
      layout := new InternalBetterLayout(Dim(0, 0));
      this.isCropToContent := isCropToContent;
      new;
      UpdateSize(0, 0, Dim(0, 0));
    }

    /**
      `updateSize`: the layout's minimum and preferred sizes and the panel's
      size, preferred, minimum and maximum sizes all become the given
      percentages of the parent's size, or of `screen` without a parent.
    */
    method UpdateSize(widthPercent: int, heightPercent: int, screen: Dim)
      modifies layout`minimumSize, layout`preferredSize
      modifies panel`width, panel`height, panel`prefSize, panel`minSize, panel`maxSize
      ensures var size := PercentSize(if parent != null then old(parent.Size()) else screen, widthPercent, heightPercent);
        layout.minimumSize == size && layout.preferredSize == size && panel.Size() == size &&
        panel.prefSize == size && panel.minSize == size && panel.maxSize == size
    {
      var parentWidth, parentHeight;
      if parent != null {
        parentWidth, parentHeight := parent.width, parent.height;
      } else {
        parentWidth, parentHeight := screen.width, screen.height;
      }
      var size := Dim(PercentOf(parentWidth, widthPercent), PercentOf(parentHeight, heightPercent));
      layout.minimumSize := size;
      layout.preferredSize := size;
      panel.SetSize(size);
      panel.SetPreferredSize(size);
      panel.SetMinimumSize(size);
      panel.SetMaximumSize(size);
    }

    /**
      `addH(comp)`: append `comp` to the panel, then file under it a new
      wrapper holding a copy of the template's directives plus the horizontal
      axis entry. Adding the panel to itself throws before anything changes.
    */
    method AddH(comp: Component) returns (r: Result<CompWrapper>)
      requires Valid()
      modifies panel`children, comp`parent, AsSet(comp.parent)`children, this`compsAndStyles
      ensures Valid()
      ensures r.Err? <==> comp == panel
      ensures r.Err? ==>
        r.error == IllegalArgumentException && panel.children == old(panel.children) && compsAndStyles == old(compsAndStyles)
      ensures r.Ok? ==> panel.children == Without(old(panel.children), comp) + [comp] && comp.parent == panel
      ensures r.Ok? && old(comp.parent) != null && old(comp.parent) != panel ==>
        old(comp.parent).children == Without(old(comp.parent.children), comp)
      ensures r.Ok? ==> fresh(r.value) && fresh(r.value.styleMap) && r.value.component == comp && r.value.info == null
      ensures r.Ok? ==> compsAndStyles == old(compsAndStyles)[comp := r.value]
      ensures r.Ok? ==>
        r.value.styleMap.entries == old(defaultCompCompWrapper.styleMap.entries)[Horizontal.key := Horizontal.value] &&
        IsHorizontal(r.value.styleMap.entries)
    {
      var added := panel.Add(comp);
      if added.Fail? {
        return Err(added.error);
      }
      var compWrapper := InternalBetterLayout.WrapperWithDefaults(comp, defaultCompCompWrapper);
      compWrapper := compWrapper.Horizontal();
      compsAndStyles := compsAndStyles[comp := compWrapper];
      AddKeepsValid(old(panel.children), panel, comp, old(compsAndStyles), compWrapper);
      IsHorizontalMeaning(old(defaultCompCompWrapper.styleMap.entries));
      r := Ok(compWrapper);
    }

    /**
      `addV(comp)`: as `addH`, with the vertical axis entry, so the new
      wrapper always reads as vertical.
    */
    method AddV(comp: Component) returns (r: Result<CompWrapper>)
      requires Valid()
      modifies panel`children, comp`parent, AsSet(comp.parent)`children, this`compsAndStyles
      ensures Valid()
      ensures r.Err? <==> comp == panel
      ensures r.Err? ==>
        r.error == IllegalArgumentException && panel.children == old(panel.children) && compsAndStyles == old(compsAndStyles)
      ensures r.Ok? ==> panel.children == Without(old(panel.children), comp) + [comp] && comp.parent == panel
      ensures r.Ok? && old(comp.parent) != null && old(comp.parent) != panel ==>
        old(comp.parent).children == Without(old(comp.parent.children), comp)
      ensures r.Ok? ==> fresh(r.value) && fresh(r.value.styleMap) && r.value.component == comp && r.value.info == null
      ensures r.Ok? ==> compsAndStyles == old(compsAndStyles)[comp := r.value]
      ensures r.Ok? ==>
        r.value.styleMap.entries == old(defaultCompCompWrapper.styleMap.entries)[Vertical.key := Vertical.value] &&
        !IsHorizontal(r.value.styleMap.entries)
    {
      var added := panel.Add(comp);
      if added.Fail? {
        return Err(added.error);
      }
      var compWrapper := InternalBetterLayout.WrapperWithDefaults(comp, defaultCompCompWrapper);
      compWrapper := compWrapper.Vertical();
      compsAndStyles := compsAndStyles[comp := compWrapper];
      AddKeepsValid(old(panel.children), panel, comp, old(compsAndStyles), compWrapper);
      IsHorizontalMeaning(old(defaultCompCompWrapper.styleMap.entries));
      r := Ok(compWrapper);
    }

    /** `addH(comp)` when `horizontal`, `addV(comp)` otherwise. */
    method AddOnAxis(comp: Component, horizontal: bool, ghost before: map<Component, CompWrapper>,
                     ghost done: set<Component>, ghost entries: map<string, string>) returns (r: Result<CompWrapper>)
      requires Valid()
      requires FiledAs(compsAndStyles, before, done, entries)
      requires entries == WithAxis(defaultCompCompWrapper.styleMap.entries, horizontal)
      modifies panel`children, comp`parent, AsSet(comp.parent)`children, this`compsAndStyles
      ensures Valid()
      ensures r.Err? <==> comp == panel
      ensures r.Err? ==>
        r.error == IllegalArgumentException && panel.children == old(panel.children) && compsAndStyles == old(compsAndStyles)
      ensures r.Ok? ==> panel.children == Without(old(panel.children), comp) + [comp] && comp.parent == panel
      ensures r.Ok? ==> compsAndStyles == old(compsAndStyles)[comp := r.value] && r.value.component == comp
      ensures r.Ok? ==> FiledAs(compsAndStyles, before, done + {comp}, entries)
    {
      ghost var styles := compsAndStyles;
      if horizontal {
        r := AddH(comp);
      } else {
        r := AddV(comp);
      }
      if r.Ok? {
        FiledAsStep(styles, compsAndStyles, before, done, entries, comp);
      }
    }

    /** One turn of the `addH(components...)`/`addV(components...)` loop: the widget at `i` is added on the axis. */
    method AddNext(components: seq<Component>, i: nat, horizontal: bool, ghost start: seq<Component>,
                   ghost before: map<Component, CompWrapper>, ghost entries: map<string, string>)
      returns (r: Outcome)
      requires i < |components| && panel !in components[..i]
      requires Valid() && panel.children == AppendAll(start, components[..i])
      requires (forall c :: c in components[..i] ==> c.parent == panel)
      requires FiledAs(compsAndStyles, before, Prefix(components, i), entries)
      requires entries == WithAxis(defaultCompCompWrapper.styleMap.entries, horizontal)
      modifies panel`children, this`compsAndStyles, {components[i]}`parent, AsSet(components[i].parent)`children
      ensures Valid()
      ensures r.Fail? <==> components[i] == panel
      ensures r.Fail? ==>
        r.error == IllegalArgumentException && panel.children == old(panel.children) && compsAndStyles == old(compsAndStyles)
      ensures r.Pass? ==>
        panel !in components[..i + 1] &&
        panel.children == AppendAll(start, components[..i + 1]) &&
        (forall c :: c in components[..i + 1] ==> c.parent == panel) &&
        FiledAs(compsAndStyles, before, Prefix(components, i + 1), entries)
    {
      var comp := components[i];
      AppendAllStep(start, components, i);
      var w := AddOnAxis(comp, horizontal, before, Prefix(components, i), entries);
      if w.Err? {
        return Fail(w.error);
      }
      PrefixStep(components, i);
      r := Pass;
    }

    /**
      The loop of `addH(components...)` (when `horizontal`) and
      `addV(components...)`: the widgets are added in turn. The panel itself
      among them throws when its turn comes, with the widgets before it
      already added and the rest not; `added` counts the widgets added.
    */
    method AddAll(components: seq<Component>, horizontal: bool) returns (r: Outcome, ghost added: nat)
      requires Valid()
      modifies panel`children, this`compsAndStyles, (set c | c in components)`parent
      modifies (set c | c in components && c.parent != null :: c.parent)`children
      ensures Valid()
      ensures added == IndexOf(components, panel)
      ensures r.Pass? <==> panel !in components
      ensures r.Fail? ==> r.error == IllegalArgumentException
      ensures panel.children == AppendAll(old(panel.children), components[..added])
      ensures forall c :: c in components[..added] ==> c.parent == panel
      ensures FiledAs(compsAndStyles, old(compsAndStyles), Prefix(components, added),
                      WithAxis(old(defaultCompCompWrapper.styleMap.entries), horizontal))
    {
      ghost var entries := WithAxis(defaultCompCompWrapper.styleMap.entries, horizontal);
      var i := 0;
      while i < |components|
        invariant i <= |components| && panel !in components[..i]
        invariant Valid()
        invariant panel.children == AppendAll(old(panel.children), components[..i])
        invariant forall c :: c in components[..i] ==> c.parent == panel
        invariant FiledAs(compsAndStyles, old(compsAndStyles), Prefix(components, i), entries)
        invariant forall c :: c in components ==> c.parent == old(c.parent) || c.parent == panel
      {
        r := AddNext(components, i, horizontal, old(panel.children), old(compsAndStyles), entries);
        if r.Fail? {
          added := i;
          return;
        }
        i := i + 1;
      }
      assert components[..i] == components;
      added := i;
      r := Pass;
    }

    /** `addH(components...)`: `addH` on each widget in turn, stopping at the panel itself. */
    method AddHAll(components: seq<Component>) returns (r: Outcome, ghost added: nat)
      requires Valid()
      modifies panel`children, this`compsAndStyles, (set c | c in components)`parent
      modifies (set c | c in components && c.parent != null :: c.parent)`children
      ensures Valid()
      ensures added == IndexOf(components, panel)
      ensures r.Pass? <==> panel !in components
      ensures r.Fail? ==> r.error == IllegalArgumentException
      ensures panel.children == AppendAll(old(panel.children), components[..added])
      ensures forall c :: c in components[..added] ==> c.parent == panel
      ensures FiledAs(compsAndStyles, old(compsAndStyles), Prefix(components, added),
                      old(defaultCompCompWrapper.styleMap.entries)[Horizontal.key := Horizontal.value])
    {
      r, added := AddAll(components, true);
    }

    /** `addV(components...)`: `addV` on each widget in turn, stopping at the panel itself. */
    method AddVAll(components: seq<Component>) returns (r: Outcome, ghost added: nat)
      requires Valid()
      modifies panel`children, this`compsAndStyles, (set c | c in components)`parent
      modifies (set c | c in components && c.parent != null :: c.parent)`children
      ensures Valid()
      ensures added == IndexOf(components, panel)
      ensures r.Pass? <==> panel !in components
      ensures r.Fail? ==> r.error == IllegalArgumentException
      ensures panel.children == AppendAll(old(panel.children), components[..added])
      ensures forall c :: c in components[..added] ==> c.parent == panel
      ensures FiledAs(compsAndStyles, old(compsAndStyles), Prefix(components, added),
                      old(defaultCompCompWrapper.styleMap.entries)[Vertical.key := Vertical.value])
    {
      r, added := AddAll(components, false);
    }

    /**
      `setLayout(mgr)`: only an `InternalBetterLayout` is accepted; anything
      else throws and leaves the current layout in place.
    */
    method SetLayout(mgr: LayoutManager) returns (r: Outcome)
      modifies this`layout
      ensures r.Pass? <==> mgr.Better?
      ensures r.Pass? ==> layout == mgr.manager
      ensures r.Fail? ==> r.error == IllegalArgumentException && layout == old(layout)
    {
      if mgr.Better? {
        layout := mgr.manager;
        r := Pass;
      } else {
        r := Fail(IllegalArgumentException);
      }
    }

    /** `getChildStyles(comp)`: the wrapper filed under `comp`, or null when there is none. */
    function GetChildStyles(comp: Component): (w: CompWrapper?)
      reads this
      ensures w != null <==> comp in compsAndStyles
      ensures w != null ==> w == compsAndStyles[comp]
    {
      if comp in compsAndStyles then compsAndStyles[comp] else null
    }

    /**
      `makeScrollable()`: throws NullPointerException without a parent;
      otherwise the panel leaves the parent, goes into a new scroll pane as
      its only child, crops to its content from now on, and the pane, as
      large as the panel would like to be, is appended to the parent. The
      `parent` field keeps naming the parent, for `makeUnscrollable`.
    */
    method MakeScrollable() returns (r: Outcome)
      modifies this`scrollPane, this`isCropToContent, AsSet(parent)`children, panel`parent, AsSet(panel.parent)`children
      ensures r.Fail? <==> old(parent) == null
      ensures r.Fail? ==> r.error == NullPointerException && unchanged(this) && unchanged(panel)
      ensures r.Pass? ==> scrollPane != null && fresh(scrollPane) && isCropToContent
      ensures r.Pass? ==> scrollPane.children == [panel] && panel.parent == scrollPane
      ensures r.Pass? ==> scrollPane.prefSize == old(panel.prefSize) && scrollPane.parent == parent
      ensures r.Pass? ==> parent.children == Without(old(parent.children), panel) + [scrollPane]
      ensures r.Pass? && old(panel.parent) != null && old(panel.parent) != parent ==>
        old(panel.parent).children == Without(old(panel.parent.children), panel)
    {
      if parent == null {
        return Fail(NullPointerException);
      }
      parent.Remove(panel);
      var pane := new Component();
      var viewed := pane.Add(panel);
      scrollPane := pane;
      isCropToContent := true;
      pane.SetPreferredSize(panel.prefSize);
      var shown := parent.Add(pane);
      WithoutAbsent(Without(old(parent.children), panel), pane);
      r := Pass;
    }

    /**
      `makeUnscrollable()`: nothing happens without a scroll pane; without a
      parent it throws NullPointerException. Otherwise the position of the
      scroll pane among the parent's children is counted (the child count
      when it is not there), the pane is removed and the panel is inserted
      at that position, with what `add(comp, index)` throws. The scroll pane
      stays recorded.
    */
    method MakeUnscrollable() returns (r: Outcome)
      modifies AsSet(parent)`children, AsSet(scrollPane)`parent, panel`parent, AsSet(panel.parent)`children
      ensures old(scrollPane) == null ==> r.Pass? && unchanged(this) && unchanged(panel)
      ensures old(scrollPane) != null && old(parent) == null ==>
        r == Fail(NullPointerException) && unchanged(this) && unchanged(panel)
      ensures old(scrollPane) != null && old(parent) != null ==>
        var k := IndexOf(old(parent.children), old(scrollPane));
        var rest := Without(Without(old(parent.children), old(scrollPane)), panel);
        (r.Pass? <==> panel != parent && k <= |rest|) &&
        (r.Pass? ==> panel.parent == parent && parent.children == rest[..k] + [panel] + rest[k..])
      ensures old(scrollPane) != null && old(parent) != null && panel != parent &&
              Unique(old(parent.children)) && old(scrollPane) in old(parent.children) && panel !in old(parent.children) ==>
        r.Pass? && parent.children == old(parent.children)[IndexOf(old(parent.children), old(scrollPane)) := panel]
      ensures old(scrollPane) != null && old(parent) != null && panel != parent &&
              old(scrollPane) !in old(parent.children) && panel in old(parent.children) ==>
        r == Fail(IllegalArgumentException) && panel.parent == null
    {
      if scrollPane == null {
        return Pass;
      }
      if parent == null {
        return Fail(NullPointerException);
      }
      var children := parent.children;
      var i := 0;
      while i < |children| && children[i] != scrollPane
        invariant i <= |children|
        invariant forall k :: 0 <= k < i ==> children[k] != scrollPane
      {
        i := i + 1;
      }
      if scrollPane !in children {
        WithoutAbsent(children, scrollPane);
        if panel in children {
          WithoutShorter(children, panel);
        }
      }
      parent.Remove(scrollPane);
      r := parent.AddAt(panel, i);
      ReplaceAtIndex(old(parent.children), old(scrollPane), panel);
    }

    /** `scrollToEndV()`: without a scroll pane nothing happens; otherwise its vertical bar is set to its maximum. */
    method ScrollToEndV()
      modifies AsSet(scrollPane)`verticalBar
      ensures scrollPane != null ==> scrollPane.verticalBar == SetValue(old(scrollPane.verticalBar), old(scrollPane.verticalBar).maximum)
    {
      if scrollPane == null {
        return;
      }
      var bar := scrollPane.verticalBar;
      scrollPane.verticalBar := SetValue(bar, bar.maximum);
    }

    /** `scrollToStartV()`: without a scroll pane nothing happens; otherwise its vertical bar is set to its minimum. */
    method ScrollToStartV()
      modifies AsSet(scrollPane)`verticalBar
      ensures scrollPane != null ==> scrollPane.verticalBar == SetValue(old(scrollPane.verticalBar), old(scrollPane.verticalBar).minimum)
    {
      if scrollPane == null {
        return;
      }
      var bar := scrollPane.verticalBar;
      scrollPane.verticalBar := SetValue(bar, bar.minimum);
    }

    /** `scrollToEndH()`: without a scroll pane nothing happens; otherwise its horizontal bar is set to its maximum. */
    method ScrollToEndH()
      modifies AsSet(scrollPane)`horizontalBar
      ensures scrollPane != null ==> scrollPane.horizontalBar == SetValue(old(scrollPane.horizontalBar), old(scrollPane.horizontalBar).maximum)
    {
      if scrollPane == null {
        return;
      }
      var bar := scrollPane.horizontalBar;
      scrollPane.horizontalBar := SetValue(bar, bar.maximum);
    }

    /** `scrollToStartH()`: without a scroll pane nothing happens; otherwise its horizontal bar is set to its minimum. */
    method ScrollToStartH()
      modifies AsSet(scrollPane)`horizontalBar
      ensures scrollPane != null ==> scrollPane.horizontalBar == SetValue(old(scrollPane.horizontalBar), old(scrollPane.horizontalBar).minimum)
    {
      if scrollPane == null {
        return;
      }
      var bar := scrollPane.horizontalBar;
      scrollPane.horizontalBar := SetValue(bar, bar.minimum);
    }
  }

  /**
    In a list without repeats that holds `c` and not `d`, removing `c` and
    inserting `d` where `c` was replaces `c` by `d` in place.
  */
  lemma ReplaceAtIndex(s: seq<Component>, c: Component, d: Component)
    ensures Unique(s) && c in s && d !in s && c != d ==>
      var rest := Without(Without(s, c), d);
      IndexOf(s, c) <= |rest| && rest[..IndexOf(s, c)] + [d] + rest[IndexOf(s, c)..] == s[IndexOf(s, c) := d]
  {
    if Unique(s) && c in s && d !in s && c != d {
      var k := IndexOf(s, c);
      UniqueNotBefore(s, k);
      assert c !in s[k + 1..] by {
        forall j | k + 1 <= j < |s|
          ensures s[j] != c
        {
        }
      }
      WithoutAtIndex(s, c);
      var rest := s[..k] + s[k + 1..];
      WithoutElements(s, c);
      WithoutAbsent(rest, d);
      assert rest[..k] + [d] + rest[k..] == s[k := d];
    }
  }
}
