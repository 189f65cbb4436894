# Better-Layout, modelled in Dafny

Better-Layout is a Swing layout library. A `BLayout` is a panel. Its children are
added with `addH` (next to the previous child) or `addV` (on a new line). Each
child carries a `CompWrapper`: a map of style directives (axis, position,
padding) plus the geometry record (`DebugInfo`) of the last layout pass. The
layout manager, `InternalBetterLayout`, runs one pass in `layoutContainer`:

- it rebuilds the child→wrapper map;
- it cuts the visible children into rows, where a vertical child acts as a line break;
- it measures each child and its padding;
- it sets every member of a row to the row height;
- it places the children with an x/y cursor;
- when crop-to-content is set, it grows the panel to fit its content.

`Styles` is an older copy of the wrapper that works on its own map reference.
The `UI` helpers revalidate a widget tree upwards or downwards.

The project holds these modules:

- `JavaLang` (`java_lang.dfy`): the Java semantics the core relies on.
  - Exceptions as values (`Result`, `Outcome`).
  - The `(byte)` cast, written out as a wrap into [-128, 127].
  - Java's truncating `/`.
  - `"" + b` and `Byte.parseByte`.
- `Awt` (`awt.dfy`): the parts of the toolkit the core calls, as a `Component` class.
  - Fields: bounds, sizes, flags, parent and child list.
  - `add`, `add(c, index)` and `remove` on the child list.
  - A scroll bar's value clamp.
- `StyleDirectives` (`style_directives.dfy`): the `Style` constants, the `isHorizontal` test, and the directive map held by reference (`StyleMap`).
- `Debug` (`debug_info.dfy`): the `DebugInfo` record, a class whose fields the pass overwrites.
- `Wrapper` (`comp_wrapper.dfy`): `CompWrapper`, a class whose mutators update the shared map in place and return the wrapper.
- `LegacyStyles` (`styles.dfy`): `Styles`, the same mutators over a map reference that `setMap` may replace or clear.
- `RowPartition` (`rows.dfy`): `toRows` as a function from the axis flags of the visible children to index slices, with the loop that computes it.
- `Geometry` (`geometry.dfy`): the reference definitions of one pass.
  - Per-child measurement.
  - Row height.
  - Placement.
  - Content size.
- `Layout` (`layout.dfy`): `InternalBetterLayout` and `BLayout` as classes whose methods do what the Java code does.
  - Each method is proved against the functions of `Geometry` and `RowPartition`.
  - The two classes share one module because each uses the other.
- `Revalidation` (`ui.dfy`): `validateAllUp`, `revalidateAllUp`, `findFurthestChildContainer` and `validateDown`.
  - They are modelled over a parent-linked tree of widgets.
  - Each method returns the trace of `invalidate`/`validate` calls it makes.
  - Each method is proved equal to a function that states the visiting order.

### Modelling decisions

- **Style constants.** The `Style` enum is not part of this model. It is stood in for by constants:
  - the two axis directives write different values under one shared key, because `isHorizontal` looks for the horizontal value under the vertical key;
  - every other key is distinct;
  - each default padding value is the decimal string `"5"`.
- **Rows as written.** `toRows` is followed as written, not as a flow layout would behave. Its documentation describes a newline before each vertical child.
  - Children after the last vertical child belong to no row, unless the last child is itself vertical. So `[H, V, H]` gives the single row `[H]`.
  - A leading vertical child produces an empty first row.
  - See `RowPartition.TrailingHorizontalDropped`.
- **Crop-to-content as written.** Crop-to-content overwrites both dimensions as soon as either is too small. It can therefore shrink the panel in the other dimension (`Geometry.CropCanShrink`). After a crop no further crop is needed (`Geometry.CropBounds`), which is what the guard at line 98 relies on to avoid a layout loop.
- **`Styles.width`/`height` as written.** `Styles.width(pct)` passes the component's current height as the height *percentage* of the parent. `CompWrapper.width(pct)` keeps the current height. Both are modelled as written (`LegacyStyles.WidthUsesHeightAsPercent`).
- **Screen size.** The screen size used when a `BLayout` has no parent is a parameter, `screen`.

## Model

| member | source | states |
|---|---|---|
| JavaLang.ToByteWraps | src/main/java/com/osiris/betterlayout/CompWrapper.java:108-114 | `(byte)px` differs from `px` by a multiple of 256 and is `px` itself inside [-128, 127] |
| JavaLang.JavaDivNonNegative | src/main/java/com/osiris/betterlayout/BLayout.java:91-92 | for a non-negative size and positive divisor, Java's `/` is floor division, and quotient times divisor lies in [0, size] |
| JavaLang.JavaDivNegative | src/main/java/com/osiris/betterlayout/BLayout.java:91-92 | for a negative size, Java's `/` rounds toward zero, so quotient times divisor lies in [size, 0] |
| JavaLang.PercentOfBounds | src/main/java/com/osiris/betterlayout/CompWrapper.java:215-224 | `total / 100 * pct` for 0 ≤ pct ≤ 100 lies in [0, total]; at 100 % it loses less than 100 pixels to the early division |
| JavaLang.PercentOfTruncates | src/main/java/com/osiris/betterlayout/BLayout.java:91-92 | dividing before multiplying: 50 % of 150 is 50 (not 75), and 50 % of -150 is -50 |
| JavaLang.DigitChar | src/main/java/com/osiris/betterlayout/CompWrapper.java:121-124 | the character written for a digit d is a decimal digit whose value is d |
| JavaLang.NatToDecimal | src/main/java/com/osiris/betterlayout/CompWrapper.java:121-124 | the decimal text of a natural number is non-empty, all digits, and has no leading zero unless it is `"0"` |
| JavaLang.DigitsValueOfDecimal | src/main/java/com/osiris/betterlayout/InternalBetterLayout.java:153-168 | reading back the decimal text of n gives n |
| JavaLang.ParseByteOfDecimal | src/main/java/com/osiris/betterlayout/InternalBetterLayout.java:153-168 | `Byte.parseByte("" + b)` is `b` for every byte, negative ones included |
| JavaLang.PaddingStringRoundTrip | src/main/java/com/osiris/betterlayout/CompWrapper.java:121-124 | the text a padding setter stores parses back to `(byte)px`, which is `px` modulo 256 |
| JavaLang.ParseByteRejects | src/main/java/com/osiris/betterlayout/InternalBetterLayout.java:153-168 | `Byte.parseByte` throws NumberFormatException on "", "-", "128" and "5px", and accepts "+007" as 7 |
| StyleDirectives.IsHorizontalMeaning | src/main/java/com/osiris/betterlayout/InternalBetterLayout.java:287-291 | a map is horizontal iff it has no axis entry or its axis entry is the horizontal value; `vertical()` makes it vertical, `horizontal()` horizontal, and the empty map is horizontal |
| StyleDirectives.DefaultChildStylesAreHorizontal | src/main/java/com/osiris/betterlayout/BLayout.java:28 | the default template `center().padding()` holds exactly the centre and four padding keys, and no axis entry, so it is horizontal |
| StyleDirectives.DefaultPaddingParses | src/main/java/com/osiris/betterlayout/CompWrapper.java:100-106 | each default padding value parses as the byte 5 |
| StyleDirectives.RemovePaddingKeys | src/main/java/com/osiris/betterlayout/CompWrapper.java:159-165 | removing the padding keys removes exactly those four, keeps every other entry, and doing it twice equals doing it once |
| Debug.DebugInfo.constructor | src/main/java/com/osiris/betterlayout/DebugInfo.java:28-29 | a fresh record is not horizontal and all its sizes and paddings are 0 |
| Debug.DebugInfo.Of | src/main/java/com/osiris/betterlayout/DebugInfo.java:31-39 | the seven-argument constructor stores each argument in its field and leaves `width`/`height` at 0; paddings are bytes by type |
| Wrapper.CompWrapper.constructor | src/main/java/com/osiris/betterlayout/CompWrapper.java:42-44 | no component, no record, a fresh empty map |
| Wrapper.CompWrapper.Of | src/main/java/com/osiris/betterlayout/CompWrapper.java:46-48 | the given component, a fresh empty map |
| Wrapper.CompWrapper.With | src/main/java/com/osiris/betterlayout/CompWrapper.java:50-54 | the given map is used by reference, or a fresh empty map when it is null |
| Wrapper.CompWrapper.Vertical | src/main/java/com/osiris/betterlayout/CompWrapper.java:58-61 | returns the same wrapper; the map gains the vertical axis pair and nothing else changes |
| Wrapper.CompWrapper.Horizontal | src/main/java/com/osiris/betterlayout/CompWrapper.java:63-66 | returns the same wrapper; the map gains the horizontal axis pair and nothing else changes |
| Wrapper.CompWrapper.Left | src/main/java/com/osiris/betterlayout/CompWrapper.java:70-73 | returns the same wrapper; the map gains the left pair only |
| Wrapper.CompWrapper.Right | src/main/java/com/osiris/betterlayout/CompWrapper.java:75-78 | returns the same wrapper; the map gains the right pair only |
| Wrapper.CompWrapper.Top | src/main/java/com/osiris/betterlayout/CompWrapper.java:80-83 | returns the same wrapper; the map gains the top pair only |
| Wrapper.CompWrapper.Bottom | src/main/java/com/osiris/betterlayout/CompWrapper.java:85-88 | returns the same wrapper; the map gains the bottom pair only |
| Wrapper.CompWrapper.Center | src/main/java/com/osiris/betterlayout/CompWrapper.java:90-93 | returns the same wrapper; the map gains the centre pair only |
| Wrapper.CompWrapper.DefaultPadding | src/main/java/com/osiris/betterlayout/CompWrapper.java:100-106 | the four padding keys get their default values; other keys are kept |
| Wrapper.CompWrapper.Padding | src/main/java/com/osiris/betterlayout/CompWrapper.java:108-114 | the four padding keys, and only they, get the text of `(byte)px`; every other entry is kept |
| Wrapper.CompWrapper.DefaultPaddingLeft | src/main/java/com/osiris/betterlayout/CompWrapper.java:116-119 | only the left padding key gets its default value |
| Wrapper.CompWrapper.PaddingLeft | src/main/java/com/osiris/betterlayout/CompWrapper.java:121-124 | only the left padding key changes, to the text of `(byte)px` |
| Wrapper.CompWrapper.DefaultPaddingRight | src/main/java/com/osiris/betterlayout/CompWrapper.java:126-129 | only the right padding key gets its default value |
| Wrapper.CompWrapper.PaddingRight | src/main/java/com/osiris/betterlayout/CompWrapper.java:131-134 | only the right padding key changes, to the text of `(byte)px` |
| Wrapper.CompWrapper.DefaultPaddingTop | src/main/java/com/osiris/betterlayout/CompWrapper.java:136-139 | only the top padding key gets its default value |
| Wrapper.CompWrapper.PaddingTop | src/main/java/com/osiris/betterlayout/CompWrapper.java:141-144 | only the top padding key changes, to the text of `(byte)px` |
| Wrapper.CompWrapper.DefaultPaddingBottom | src/main/java/com/osiris/betterlayout/CompWrapper.java:146-149 | only the bottom padding key gets its default value |
| Wrapper.CompWrapper.PaddingBottom | src/main/java/com/osiris/betterlayout/CompWrapper.java:151-154 | only the bottom padding key changes, to the text of `(byte)px` |
| Wrapper.CompWrapper.DelPadding | src/main/java/com/osiris/betterlayout/CompWrapper.java:159-165 | the map loses exactly the four padding keys |
| Wrapper.CompWrapper.WidthFull | src/main/java/com/osiris/betterlayout/CompWrapper.java:172-175 | NullPointerException without a component or parent; otherwise size, preferred, minimum and maximum size all become (parentWidth / 100 * 100, current height), i.e. the parent's width rounded down to whole hundreds; only those four sizes can change; on NullPointerException a present widget is left unchanged |
| Wrapper.CompWrapper.Width | src/main/java/com/osiris/betterlayout/CompWrapper.java:185-190 | NullPointerException, with nothing changed, without a component or parent; otherwise size, preferred, minimum and maximum size all become (parentWidth / 100 * pct, current height); its frame lets only those four sizes change, so location, visibility, parent and children are kept |
| Wrapper.CompWrapper.HeightFull | src/main/java/com/osiris/betterlayout/CompWrapper.java:195-198 | as `WidthFull`, for the height: all four sizes become (current width, parentHeight / 100 * 100); only those four sizes can change; on NullPointerException a present widget is left unchanged |
| Wrapper.CompWrapper.Height | src/main/java/com/osiris/betterlayout/CompWrapper.java:208-213 | as `Width`, for the height: all four sizes become (current width, parentHeight / 100 * pct); only those four sizes can change |
| Wrapper.CompWrapper.UpdateWidth | src/main/java/com/osiris/betterlayout/CompWrapper.java:215-224 | all four sizes become (parentWidth / 100 * pct, target height); its frame lets nothing else of the target change |
| Wrapper.CompWrapper.UpdateHeight | src/main/java/com/osiris/betterlayout/CompWrapper.java:226-235 | all four sizes become (target width, parentHeight / 100 * pct); its frame lets nothing else of the target change |
| Wrapper.CompWrapper.Background | src/main/java/com/osiris/betterlayout/CompWrapper.java:245-249 | NullPointerException without a component; otherwise its background colour becomes the given one. Its frame is that one field of the component, so nothing else of the component (location, sizes, parent, children, insets, scroll bars, other flags and colours) can change |
| Wrapper.CompWrapper.Foreground | src/main/java/com/osiris/betterlayout/CompWrapper.java:259-263 | NullPointerException without a component; otherwise its foreground colour becomes the given one. Its frame is that one field of the component, so nothing else of the component (location, sizes, parent, children, insets, scroll bars, other flags and colours) can change |
| Wrapper.CompWrapper.Enable | src/main/java/com/osiris/betterlayout/CompWrapper.java:273-277 | NullPointerException without a component; otherwise its enabled flag becomes true. Its frame is that one field of the component, so nothing else of the component (location, sizes, parent, children, insets, scroll bars, other flags and colours) can change |
| Wrapper.CompWrapper.Disable | src/main/java/com/osiris/betterlayout/CompWrapper.java:287-291 | NullPointerException without a component; otherwise its enabled flag becomes false. Its frame is that one field of the component, so nothing else of the component (location, sizes, parent, children, insets, scroll bars, other flags and colours) can change |
| Wrapper.CompWrapper.Show | src/main/java/com/osiris/betterlayout/CompWrapper.java:301-305 | NullPointerException without a component; otherwise its visibility becomes true. Its frame is that one field of the component, so nothing else of the component (location, sizes, parent, children, insets, scroll bars, other flags and colours) can change |
| Wrapper.CompWrapper.Hide | src/main/java/com/osiris/betterlayout/CompWrapper.java:315-319 | NullPointerException without a component; otherwise its visibility becomes false. Its frame is that one field of the component, so nothing else of the component (location, sizes, parent, children, insets, scroll bars, other flags and colours) can change |
| LegacyStyles.Styles.constructor | src/main/java/com/osiris/betterlayout/Styles.java:38-40 | no component, no record, a fresh empty map |
| LegacyStyles.Styles.Of | src/main/java/com/osiris/betterlayout/Styles.java:42-44 | the given component, a fresh empty map |
| LegacyStyles.Styles.With | src/main/java/com/osiris/betterlayout/Styles.java:46-50 | the given map is used by reference, or a fresh empty map when it is null |
| LegacyStyles.Styles.Vertical | src/main/java/com/osiris/betterlayout/Styles.java:54-57 | NullPointerException when the map was cleared with `setMap(null)`; otherwise returns `this` and the map gains the vertical axis pair only |
| LegacyStyles.Styles.Horizontal | src/main/java/com/osiris/betterlayout/Styles.java:59-62 | as `Vertical`, with the horizontal axis pair |
| LegacyStyles.Styles.Left | src/main/java/com/osiris/betterlayout/Styles.java:66-69 | as `Vertical`, with the left pair |
| LegacyStyles.Styles.Right | src/main/java/com/osiris/betterlayout/Styles.java:71-74 | as `Vertical`, with the right pair |
| LegacyStyles.Styles.Top | src/main/java/com/osiris/betterlayout/Styles.java:76-79 | as `Vertical`, with the top pair |
| LegacyStyles.Styles.Bottom | src/main/java/com/osiris/betterlayout/Styles.java:81-84 | as `Vertical`, with the bottom pair |
| LegacyStyles.Styles.Center | src/main/java/com/osiris/betterlayout/Styles.java:86-89 | as `Vertical`, with the centre pair |
| LegacyStyles.Styles.DefaultPadding | src/main/java/com/osiris/betterlayout/Styles.java:96-102 | NullPointerException on a null map; otherwise the four padding keys get their defaults |
| LegacyStyles.Styles.Padding | src/main/java/com/osiris/betterlayout/Styles.java:104-110 | NullPointerException on a null map; otherwise the four padding keys, and only they, get the text of `(byte)px` |
| LegacyStyles.Styles.DefaultPaddingLeft | src/main/java/com/osiris/betterlayout/Styles.java:112-115 | only the left padding key gets its default |
| LegacyStyles.Styles.PaddingLeft | src/main/java/com/osiris/betterlayout/Styles.java:117-120 | only the left padding key changes, to the text of `(byte)px` |
| LegacyStyles.Styles.DefaultPaddingRight | src/main/java/com/osiris/betterlayout/Styles.java:122-125 | only the right padding key gets its default |
| LegacyStyles.Styles.PaddingRight | src/main/java/com/osiris/betterlayout/Styles.java:127-130 | only the right padding key changes, to the text of `(byte)px` |
| LegacyStyles.Styles.DefaultPaddingTop | src/main/java/com/osiris/betterlayout/Styles.java:132-135 | only the top padding key gets its default |
| LegacyStyles.Styles.PaddingTop | src/main/java/com/osiris/betterlayout/Styles.java:137-140 | only the top padding key changes, to the text of `(byte)px` |
| LegacyStyles.Styles.DefaultPaddingBottom | src/main/java/com/osiris/betterlayout/Styles.java:142-145 | only the bottom padding key gets its default |
| LegacyStyles.Styles.PaddingBottom | src/main/java/com/osiris/betterlayout/Styles.java:147-150 | only the bottom padding key changes, to the text of `(byte)px` |
| LegacyStyles.Styles.DelPadding | src/main/java/com/osiris/betterlayout/Styles.java:155-161 | NullPointerException on a null map; otherwise exactly the four padding keys are removed |
| LegacyStyles.Styles.GetMap | src/main/java/com/osiris/betterlayout/Styles.java:164-166 | returns the map reference currently held |
| LegacyStyles.Styles.SetMap | src/main/java/com/osiris/betterlayout/Styles.java:168-170 | replaces the map reference, so later mutators write into the new map |
| LegacyStyles.Styles.WidthFull | src/main/java/com/osiris/betterlayout/Styles.java:177-180 | NullPointerException without a component or parent; otherwise all four sizes become (parentWidth / 100 * 100, parentHeight / 100 * currentHeight), the current height taken as a percentage; only those four sizes can change; on NullPointerException a present widget is left unchanged |
| LegacyStyles.Styles.Width | src/main/java/com/osiris/betterlayout/Styles.java:189-194 | NullPointerException, with nothing changed, without a component or parent; otherwise all four sizes become (parentWidth / 100 * pct, parentHeight / 100 * currentHeight); its frame lets only those four sizes change |
| LegacyStyles.Styles.HeightFull | src/main/java/com/osiris/betterlayout/Styles.java:199-202 | as `WidthFull`, for the height: all four sizes become (parentWidth / 100 * currentWidth, parentHeight / 100 * 100); only those four sizes can change; on NullPointerException a present widget is left unchanged |
| LegacyStyles.Styles.Height | src/main/java/com/osiris/betterlayout/Styles.java:211-216 | as `Width`, with the current width as the width percentage: all four sizes become (parentWidth / 100 * currentWidth, parentHeight / 100 * pct); only those four sizes can change |
| LegacyStyles.Styles.UpdateSizes | src/main/java/com/osiris/betterlayout/Styles.java:218-236 | all four sizes become (parentWidth / 100 * w, parentHeight / 100 * h); its frame lets nothing else of the target change |
| LegacyStyles.Styles.Background | src/main/java/com/osiris/betterlayout/Styles.java:245-249 | NullPointerException without a component; otherwise its background colour becomes the given one. Its frame is that one field of the component, so nothing else of the component (location, sizes, parent, children, insets, scroll bars, other flags and colours) can change |
| LegacyStyles.Styles.Foreground | src/main/java/com/osiris/betterlayout/Styles.java:258-262 | NullPointerException without a component; otherwise its foreground colour becomes the given one. Its frame is that one field of the component, so nothing else of the component (location, sizes, parent, children, insets, scroll bars, other flags and colours) can change |
| LegacyStyles.Styles.Enable | src/main/java/com/osiris/betterlayout/Styles.java:271-275 | NullPointerException without a component; otherwise its enabled flag becomes true. Its frame is that one field of the component, so nothing else of the component (location, sizes, parent, children, insets, scroll bars, other flags and colours) can change |
| LegacyStyles.Styles.Disable | src/main/java/com/osiris/betterlayout/Styles.java:284-288 | NullPointerException without a component; otherwise its enabled flag becomes false. Its frame is that one field of the component, so nothing else of the component (location, sizes, parent, children, insets, scroll bars, other flags and colours) can change |
| LegacyStyles.Styles.Show | src/main/java/com/osiris/betterlayout/Styles.java:297-301 | NullPointerException without a component; otherwise its visibility becomes true. Its frame is that one field of the component, so nothing else of the component (location, sizes, parent, children, insets, scroll bars, other flags and colours) can change |
| LegacyStyles.Styles.Hide | src/main/java/com/osiris/betterlayout/Styles.java:310-314 | NullPointerException without a component; otherwise its visibility becomes false. Its frame is that one field of the component, so nothing else of the component (location, sizes, parent, children, insets, scroll bars, other flags and colours) can change |
| LegacyStyles.WidthUsesHeightAsPercent | src/main/java/com/osiris/betterlayout/Styles.java:189-194 | for every parent height pH ≥ 0 and widget height h, the height `Styles.width` gives, pH / 100 * h, equals h (what `CompWrapper.width` keeps) iff h = 0 or 100 ≤ pH < 200 |
| RowPartition.ScanOfShape | src/main/java/com/osiris/betterlayout/InternalBetterLayout.java:266-274 | after any prefix, the rows the loop closed tile `[0, last)`, the child at `last` is vertical and every later one horizontal |
| RowPartition.RowSlicesArePartition | src/main/java/com/osiris/betterlayout/InternalBetterLayout.java:266-279 | the rows are contiguous slices from 0 to the covered end; the first holds horizontal children only; every later one is non-empty, opens with a vertical child and holds no other vertical child |
| RowPartition.RowSlicesOrdered | src/main/java/com/osiris/betterlayout/InternalBetterLayout.java:266-279 | every row lies within the children, and rows are disjoint and in child order, so no child is in two rows |
| RowPartition.NoVerticalOneRow | src/main/java/com/osiris/betterlayout/InternalBetterLayout.java:277-279 | with no vertical child there is exactly one row holding all children (an empty row when there are none) |
| RowPartition.CoverageIff | src/main/java/com/osiris/betterlayout/InternalBetterLayout.java:268-279 | the rows cover all children iff none is vertical or the last one is; otherwise they stop just before the last vertical child, and only horizontal children follow it |
| RowPartition.LeadingVerticalEmptyFirstRow | src/main/java/com/osiris/betterlayout/InternalBetterLayout.java:270-272 | a leading vertical child yields an empty first row |
| RowPartition.TrailingHorizontalDropped | src/main/java/com/osiris/betterlayout/InternalBetterLayout.java:268-279 | `[H, V, H]` gives only the row of the first child; `[H, V]`, `[V, H, V]` and `[]` give the rows shown |
| RowPartition.Partition | src/main/java/com/osiris/betterlayout/InternalBetterLayout.java:266-279 | the loop with `lastVerticalCompIndex` returns exactly `RowSlices` of the axis flags |
| Geometry.ChosenSizeMeaning | src/main/java/com/osiris/betterlayout/InternalBetterLayout.java:139-144 | the chosen size is at least the preferred size in both dimensions; the current size is kept iff it is at least preferred in both (or equals it); otherwise the preferred size replaces both |
| Geometry.ShortDimensionReplacesBoth | src/main/java/com/osiris/betterlayout/InternalBetterLayout.java:141-142 | a 200×10 child preferring 50×20 becomes 50×20: the width shrinks although it was large enough |
| Geometry.Measure | src/main/java/com/osiris/betterlayout/InternalBetterLayout.java:136-168 | measuring a child can fail only with NumberFormatException |
| Geometry.MeasureMeaning | src/main/java/com/osiris/betterlayout/InternalBetterLayout.java:136-187 | measuring succeeds iff every padding present parses as a byte; then width/height are the chosen size, each padding is its parsed value (0 when absent), and the totals add the paddings |
| Geometry.MeasureWithoutPadding | src/main/java/com/osiris/betterlayout/InternalBetterLayout.java:143-168 | with no padding entry, measuring succeeds and the totals equal the chosen size |
| Geometry.MeasureDefaultStyles | src/main/java/com/osiris/betterlayout/InternalBetterLayout.java:149-168 | a child with the default template measures 10 wider and 10 taller than its chosen size |
| Geometry.PaddingSetterRoundTrip | src/main/java/com/osiris/betterlayout/CompWrapper.java:121-124 | after a padding setter stores the text of `(byte)px`, the layout reads back `(byte)px` under that key |
| Geometry.AxesOf | src/main/java/com/osiris/betterlayout/InternalBetterLayout.java:258-259 | one axis flag per visible child, equal to `isHorizontal` of its map |
| Geometry.MeasureAll | src/main/java/com/osiris/betterlayout/InternalBetterLayout.java:136-188 | measuring a row fails only with NumberFormatException, and otherwise gives one result per member |
| Geometry.MeasureAllMeaning | src/main/java/com/osiris/betterlayout/InternalBetterLayout.java:136-188 | measuring a row succeeds iff every member measures, and then its j-th result is member j's measurement |
| Geometry.MeasureAllFails | src/main/java/com/osiris/betterlayout/InternalBetterLayout.java:153-168 | one unparsable padding anywhere in a row fails the row |
| Geometry.MeasureRows | src/main/java/com/osiris/betterlayout/InternalBetterLayout.java:133-188 | measuring all rows fails only with NumberFormatException, and otherwise gives one result per row |
| Geometry.MeasureRowsMeaning | src/main/java/com/osiris/betterlayout/InternalBetterLayout.java:133-188 | measuring all rows succeeds iff every row measures, and then row k's result is that row's measurement |
| Geometry.MeasureRowsFails | src/main/java/com/osiris/betterlayout/InternalBetterLayout.java:133-188 | one failing row fails the pass |
| Geometry.RowHeight | src/main/java/com/osiris/betterlayout/InternalBetterLayout.java:191-195 | the row height is never negative |
| Geometry.RowHeightIsMax | src/main/java/com/osiris/betterlayout/InternalBetterLayout.java:191-195 | the row height is at least every member's total height, and is 0 or some member's total height |
| Geometry.Stamp | src/main/java/com/osiris/betterlayout/InternalBetterLayout.java:197-199 | stamping keeps each member's record except its total height, which becomes the row height |
| Geometry.StampRows | src/main/java/com/osiris/betterlayout/InternalBetterLayout.java:190-199 | each row is stamped with its own row height |
| Geometry.RowMembersDoNotOverlap | src/main/java/com/osiris/betterlayout/InternalBetterLayout.java:205-213 | within a row, a member ends at or before the next one starts, and their padded tops align |
| Geometry.PlaceInRowStamp | src/main/java/com/osiris/betterlayout/InternalBetterLayout.java:197-213 | stamping the row height does not move any member |
| Geometry.RowsStack | src/main/java/com/osiris/betterlayout/InternalBetterLayout.java:215-216 | the next row's padded top is this row's padded top plus this row's height, and each row starts at `startX` again |
| Geometry.ContentWidthIsMax | src/main/java/com/osiris/betterlayout/InternalBetterLayout.java:118-128 | the content width is at least every row's total width, and is 0 or some row's total width |
| Geometry.SumWidthsStamp | src/main/java/com/osiris/betterlayout/InternalBetterLayout.java:197-199 | stamping does not change a row's total width |
| Geometry.ContentHeightOfStamped | src/main/java/com/osiris/betterlayout/InternalBetterLayout.java:109-116 | summing the first member's stamped total height over non-empty rows gives the sum of row heights |
| Geometry.ContentWidthOfStamped | src/main/java/com/osiris/betterlayout/InternalBetterLayout.java:118-128 | the content width read after stamping equals the content width of the measurements |
| Geometry.CropBounds | src/main/java/com/osiris/betterlayout/InternalBetterLayout.java:98-101 | the crop keeps the location, changes the bounds exactly when a crop is needed, and leaves bounds that need no further crop (the guard against a layout loop) |
| Geometry.CropIdempotent | src/main/java/com/osiris/betterlayout/InternalBetterLayout.java:98-101 | cropping twice with the same content gives the bounds of cropping once |
| Geometry.CropCanShrink | src/main/java/com/osiris/betterlayout/InternalBetterLayout.java:98-102 | for all bounds and content that need a crop: it grows the panel in some dimension, and it shrinks a dimension exactly when the content is smaller there |
| Layout.DrawnComplete | src/main/java/com/osiris/betterlayout/InternalBetterLayout.java:130-218 | once every row is drawn, each record holds its stamped measurement, and each member's bounds are its placement |
| Layout.VisibleChildren | src/main/java/com/osiris/betterlayout/InternalBetterLayout.java:253-262 | the filtered children are visible children of the panel |
| Layout.VisibleChildrenComplete | src/main/java/com/osiris/betterlayout/InternalBetterLayout.java:253-262 | every visible child survives the filter, and no child appears twice |
| Layout.Members | src/main/java/com/osiris/betterlayout/InternalBetterLayout.java:256-257 | each visible child is paired with the wrapper the map holds for it, in child order |
| Layout.InternalBetterLayout.constructor | src/main/java/com/osiris/betterlayout/InternalBetterLayout.java:33-35 | minimum and preferred size are both the given size |
| Layout.InternalBetterLayout.WithSizes | src/main/java/com/osiris/betterlayout/InternalBetterLayout.java:37-40 | the two sizes are stored as given |
| Layout.InternalBetterLayout.MeasureMember | src/main/java/com/osiris/betterlayout/InternalBetterLayout.java:137-168 | the member's reads and parses give exactly `Measure` of its size, preferred size and map |
| Layout.InternalBetterLayout.WriteRecord | src/main/java/com/osiris/betterlayout/InternalBetterLayout.java:180-187 | the record afterwards holds exactly the measurement |
| Layout.InternalBetterLayout.RecordMember | src/main/java/com/osiris/betterlayout/InternalBetterLayout.java:136-187 | returns `Measure` of the member and, on success, its record holds that measurement |
| Layout.InternalBetterLayout.RecordRow | src/main/java/com/osiris/betterlayout/InternalBetterLayout.java:136-188 | the measuring loop fails (NumberFormatException) iff `MeasureAll` does, and otherwise leaves every record holding its measurement |
| Layout.InternalBetterLayout.TallestMember | src/main/java/com/osiris/betterlayout/InternalBetterLayout.java:191-195 | the loop returns `RowHeight` of the records |
| Layout.InternalBetterLayout.StampRowHeight | src/main/java/com/osiris/betterlayout/InternalBetterLayout.java:197-199 | every record afterwards is its old value stamped with the row height |
| Layout.InternalBetterLayout.PlaceRow | src/main/java/com/osiris/betterlayout/InternalBetterLayout.java:205-213 | member j's bounds become `PlaceInRow` j: cursor plus padding, width and height |
| Layout.InternalBetterLayout.StampAndPlaceRow | src/main/java/com/osiris/betterlayout/InternalBetterLayout.java:190-213 | the row height is the tallest member's, all records are stamped with it, and every member is placed |
| Layout.InternalBetterLayout.DrawRow | src/main/java/com/osiris/betterlayout/InternalBetterLayout.java:136-213 | one row succeeds iff all its members measure; then its height is `RowHeight`, records are stamped and members placed |
| Layout.InternalBetterLayout.DrawRowAmong | src/main/java/com/osiris/betterlayout/InternalBetterLayout.java:133-216 | drawing row k as `DrawRow` does leaves every other row's components and records unchanged |
| Layout.InternalBetterLayout.DrawNextRow | src/main/java/com/osiris/betterlayout/InternalBetterLayout.java:133-216 | drawing the next row extends the drawn prefix by one row at the current y cursor |
| Layout.InternalBetterLayout.DrawRows | src/main/java/com/osiris/betterlayout/InternalBetterLayout.java:130-218 | the pass fails (NumberFormatException) iff `MeasureRows` does; on success every record holds its stamped measurement and every member is at its `Placement`; on failure there is a row k, the first that does not measure, such that the rows before it are recorded and placed as measured and the rows after it are untouched |
| Layout.InternalBetterLayout.CalcContainerHeight | src/main/java/com/osiris/betterlayout/InternalBetterLayout.java:109-116 | returns the sum of the first member's total height over non-empty rows (`ContentHeight`) |
| Layout.InternalBetterLayout.CalcContainerWidth | src/main/java/com/osiris/betterlayout/InternalBetterLayout.java:118-128 | returns the widest row's total width (`ContentWidth`) |
| Layout.InternalBetterLayout.UpdateSizes | src/main/java/com/osiris/betterlayout/InternalBetterLayout.java:223-234 | preferred, maximum and minimum size all become (width, height) |
| Layout.InternalBetterLayout.RebuildMap | src/main/java/com/osiris/betterlayout/InternalBetterLayout.java:77-88 | the new map's keys are exactly the children; a mapped child keeps its wrapper; an unmapped one gets a new wrapper bound to it holding the template's directives |
| Layout.InternalBetterLayout.WrapperWithDefaults | src/main/java/com/osiris/betterlayout/InternalBetterLayout.java:83-84 | a fresh wrapper bound to the child, with its own fresh map equal to the template's entries |
| Layout.InternalBetterLayout.AttachRecord | src/main/java/com/osiris/betterlayout/InternalBetterLayout.java:258-259 | the wrapper gets a fresh zero record whose `isHorizontal` is `isHorizontal` of its map |
| Layout.InternalBetterLayout.CollectOne | src/main/java/com/osiris/betterlayout/InternalBetterLayout.java:256-260 | appends the member and a fresh record distinct from all earlier ones |
| Layout.InternalBetterLayout.CollectChild | src/main/java/com/osiris/betterlayout/InternalBetterLayout.java:254-261 | one step of the visibility filter: the members are those of the visible children among the first i + 1; a visible child's wrapper gets a fresh unmeasured record whose axis flag is its directives' axis; every other wrapper keeps its record |
| Layout.InternalBetterLayout.CollectMembers | src/main/java/com/osiris/betterlayout/InternalBetterLayout.java:253-263 | the members are exactly the visible children, in order, with their wrappers, each with its own fresh unmeasured record carrying its axis flag; the wrappers of hidden children keep their records |
| Layout.InternalBetterLayout.ToRows | src/main/java/com/osiris/betterlayout/InternalBetterLayout.java:251-281 | the rows are the visible members cut by `RowSlices` of their axis flags, with distinct fresh records, each unmeasured and carrying its member's axis flag (`RowsAttached`), not yet drawn; the wrappers of hidden children keep their records |
| Layout.AxesOfInputs | src/main/java/com/osiris/betterlayout/InternalBetterLayout.java:254-258 | the records `toRows` attaches carry the axis flag of the directives each member is then read with |
| Layout.InternalBetterLayout.RebuildContainerMap | src/main/java/com/osiris/betterlayout/InternalBetterLayout.java:77-88 | the panel's map is rebuilt as `RebuildMap` states and keeps the panel's invariant |
| Layout.InternalBetterLayout.RowsOfContainer | src/main/java/com/osiris/betterlayout/InternalBetterLayout.java:77-89 | rebuilding the map then `toRows` gives rows of children of the panel, never the panel itself, with fresh unmeasured records carrying each member's axis flag; the panel's children, their bounds and the records of hidden children's wrappers are unchanged |
| Layout.InternalBetterLayout.CropToContent | src/main/java/com/osiris/betterlayout/InternalBetterLayout.java:92-104 | when the content is wider or taller than the panel, its bounds become (x, y, content width, content height) and pref/max/min the content size; otherwise the panel is unchanged (the crop flag is tested by `DrawAndCrop`). Either way the panel then needs no crop, so a second call changes nothing; the rows' records and widgets are left as they were |
| Layout.InternalBetterLayout.ContentOfRows | src/main/java/com/osiris/betterlayout/InternalBetterLayout.java:95-96 | the two sums read off records holding the stamped measurements `mss` are the content size of `mss`: the widest padded row by the summed row heights |
| Layout.InternalBetterLayout.ResizeToContent | src/main/java/com/osiris/betterlayout/InternalBetterLayout.java:97-103 | a panel narrower or shorter than the given size takes it, keeping its location, with pref/max/min set to it; a panel already big enough is left alone; the rows' records and widgets are untouched |
| Layout.InternalBetterLayout.DrawFromInsets | src/main/java/com/osiris/betterlayout/InternalBetterLayout.java:71-90 | the cursor starts at the panel's left and top insets, and the rows are drawn as `DrawRows` states, the failure case included |
| Layout.InternalBetterLayout.DrawAndCrop | src/main/java/com/osiris/betterlayout/InternalBetterLayout.java:90-104 | draws the rows, then crops as `CropToContent` states, without touching the panel's children or map; on success every record holds its stamped measurement and every member is at its `Placement`; any other widget and every wrapper keep their bounds and records; when a padding does not parse, the rows before the failing one are recorded and placed, the rows after it untouched, and the panel is not cropped |
| Layout.InternalBetterLayout.LayoutContainer | src/main/java/com/osiris/betterlayout/InternalBetterLayout.java:63-107 | one pass: map rebuilt, rows cut from the visible children, the pass fails iff a padding does not parse; on success every member is placed and every record holds its stamped measurement (the totals the crop reads), and the crop is applied; hidden children keep their bounds and their wrappers' records; when a padding does not parse, the members of the rows before the failing one are at their `Placement` |
| Layout.AddKeepsValid | src/main/java/com/osiris/betterlayout/BLayout.java:130-137 | adding a child other than the panel keeps the child list free of duplicates and of the panel, and keeps each wrapper bound to its own child |
| Layout.AppendAllMembers | src/main/java/com/osiris/betterlayout/BLayout.java:142-147 | after adding several children, the child list holds exactly the old children and the added ones |
| Layout.AppendAllUnique | src/main/java/com/osiris/betterlayout/BLayout.java:142-147 | adding several children keeps the child list free of duplicates, and the last one added is last |
| Layout.WithAxis | src/main/java/com/osiris/betterlayout/BLayout.java:133-134 | the directives `addH` gives a child are horizontal and those of `addV` vertical, whatever the template says; every other template entry is kept |
| Layout.ReplaceAtIndex | src/main/java/com/osiris/betterlayout/BLayout.java:215-229 | removing the pane and then inserting the panel at the pane's index puts the panel exactly where the pane was |
| Layout.BLayout.constructor | src/main/java/com/osiris/betterlayout/BLayout.java:71-76 | a fresh empty panel, the parent stored, the template `center().padding()`, and every size set to `PercentSize` of the parent's (or the screen's) size |
| Layout.BLayout.Cropped | src/main/java/com/osiris/betterlayout/BLayout.java:66-69 | as the constructor at 0 %, with the crop flag as given |
| Layout.BLayout.UpdateSize | src/main/java/com/osiris/betterlayout/BLayout.java:81-103 | the layout's min/pref and the panel's size/pref/min/max all become (pW / 100 * w, pH / 100 * h), from the parent or else the screen |
| Layout.BLayout.AddH | src/main/java/com/osiris/betterlayout/BLayout.java:130-137 | IllegalArgumentException, with nothing changed, when adding the panel to itself; otherwise the child moves to the end of the panel's children, leaves its old parent, and is filed under a fresh wrapper holding the template's directives made horizontal |
| Layout.BLayout.AddV | src/main/java/com/osiris/betterlayout/BLayout.java:155-162 | as `AddH`, with the child's directives made vertical |
| Layout.BLayout.AddOnAxis | src/main/java/com/osiris/betterlayout/BLayout.java:130-137 | one add on either axis, stated so that a loop of adds can keep track of every wrapper filed |
| Layout.BLayout.AddNext | src/main/java/com/osiris/betterlayout/BLayout.java:142-147 | one iteration of the varargs loop keeps the loop invariant, or stops with IllegalArgumentException at the panel itself |
| Layout.BLayout.AddAll | src/main/java/com/osiris/betterlayout/BLayout.java:142-147 | adds the components in order up to the first one that is the panel; fails iff the panel is among them; each added component is a child, filed under its own wrapper with the axis directives |
| Layout.BLayout.AddHAll | src/main/java/com/osiris/betterlayout/BLayout.java:142-147 | the varargs `addH`: `AddAll` with horizontal directives |
| Layout.BLayout.AddVAll | src/main/java/com/osiris/betterlayout/BLayout.java:167-172 | the varargs `addV`: `AddAll` with vertical directives |
| Layout.BLayout.SetLayout | src/main/java/com/osiris/betterlayout/BLayout.java:179-184 | accepts only a better layout; anything else throws IllegalArgumentException and keeps the current layout |
| Layout.BLayout.GetChildStyles | src/main/java/com/osiris/betterlayout/BLayout.java:189-191 | the wrapper mapped to the child, or null iff it is unmapped |
| Layout.BLayout.MakeScrollable | src/main/java/com/osiris/betterlayout/BLayout.java:203-213 | NullPointerException, with nothing changed, without a parent; otherwise the panel leaves the parent, a fresh pane holding only the panel and with its preferred size is appended to the parent, and crop is set; `parent` is unchanged |
| Layout.BLayout.MakeUnscrollable | src/main/java/com/osiris/betterlayout/BLayout.java:215-229 | without a pane, nothing happens; otherwise the index is recounted on each call and the panel is inserted where the pane was; when the pane is no longer among the parent's children but the panel is (as on a second call), the count reaches the old size, `add` first detaches the panel and then rejects that index with IllegalArgumentException, leaving the panel without a parent; the pane field is not cleared |
| Layout.BLayout.ScrollToEndV | src/main/java/com/osiris/betterlayout/BLayout.java:231-236 | with a pane, its vertical bar is set to its maximum, as the bar clamps it |
| Layout.BLayout.ScrollToStartV | src/main/java/com/osiris/betterlayout/BLayout.java:238-243 | with a pane, its vertical bar is set to its minimum |
| Layout.BLayout.ScrollToEndH | src/main/java/com/osiris/betterlayout/BLayout.java:245-250 | with a pane, its horizontal bar is set to its maximum, as the bar clamps it |
| Layout.BLayout.ScrollToStartH | src/main/java/com/osiris/betterlayout/BLayout.java:252-257 | with a pane, its horizontal bar is set to its minimum |
| Revalidation.Start | src/main/java/com/osiris/betterlayout/utils/UI.java:63-65 | the walk starts at the widget if it is a container, else at its parent; there is no start iff it is a leaf without a parent |
| Revalidation.FirstContainer | src/main/java/com/osiris/betterlayout/utils/UI.java:92-95 | the position of the first container child, every child before it not a container |
| Revalidation.FurthestIsLeaf | src/main/java/com/osiris/betterlayout/utils/UI.java:91-97 | the furthest child container is a container at or below the start that has no container child |
| Revalidation.FindFurthestChildContainer | src/main/java/com/osiris/betterlayout/utils/UI.java:91-97 | the recursive search returns `Furthest` |
| Revalidation.ChainBelowShape | src/main/java/com/osiris/betterlayout/utils/UI.java:73-80 | a child chain starts at its furthest container, goes up parent by parent, and stops just below the start container |
| Revalidation.ChainToRootShape | src/main/java/com/osiris/betterlayout/utils/UI.java:83-87 | the upward walk starts at the container, goes up parent by parent through containers, and ends at a root |
| Revalidation.CallsOfShape | src/main/java/com/osiris/betterlayout/utils/UI.java:144-149 | validating makes one `validate` per visited container; revalidating makes `invalidate` then `validate` on each, in order |
| Revalidation.UpOrderParentsLater | src/main/java/com/osiris/betterlayout/utils/UI.java:61-89 | every container visited by the up-walks has its parent visited later, so parents are validated after their children |
| Revalidation.OnlyUpIsPathToRoot | src/main/java/com/osiris/betterlayout/utils/UI.java:83-87 | with `onlyUp`, the walk is empty without a start container, and is otherwise the path from the start container to the root |
| Revalidation.WalkUp | src/main/java/com/osiris/betterlayout/utils/UI.java:61-89 | the loops make exactly the calls of `UpOrder`: each child chain, then the path to the root |
| Revalidation.ValidateAllUp | src/main/java/com/osiris/betterlayout/utils/UI.java:61-89 | i-th call is `validate` on the i-th container of `UpOrder`, and nothing else is called |
| Revalidation.RevalidateAllUp | src/main/java/com/osiris/betterlayout/utils/UI.java:121-151 | calls 2i and 2i + 1 are `invalidate` then `validate` on the i-th container of `UpOrder` |
| Revalidation.CollectFurthest | src/main/java/com/osiris/betterlayout/utils/UI.java:68-72 | collects the furthest container of each container child, in child order |
| Revalidation.RootCalls | src/main/java/com/osiris/betterlayout/utils/UI.java:83-87 | the loop up to the root makes the calls of `ChainToRoot` |
| Revalidation.ChainCalls | src/main/java/com/osiris/betterlayout/utils/UI.java:73-80 | the loop over the collected containers makes the calls of every chain, one after another |
| Revalidation.ChainUpCalls | src/main/java/com/osiris/betterlayout/utils/UI.java:74-79 | the inner loop makes the calls of one chain up to the start container |
| Revalidation.DownOrderTopDown | src/main/java/com/osiris/betterlayout/utils/UI.java:26-37 | `validateDown` starts at the container, validates containers only, and each after its parent |
| Revalidation.ValidateDown | src/main/java/com/osiris/betterlayout/utils/UI.java:26-37 | the recursion validates exactly `DownFrom`: the start container, then each container child's subtree in pre-order |

## Left out

- Event-listener registration (`onClick` … `onPropertyChange` in `CompWrapper`): callback wiring into the toolkit, with no state to check.
- `drawDebugLines` and the `isDebug` rendering: drawing on a graphics surface.
- `UI.refresh` and `BLayout.refresh`: deferred scheduling on the event thread.
- `BLayout.access`: it runs caller code and then revalidates. The revalidation is `Revalidation.RevalidateAllUp`.
- Locking (`synchronized`, `getTreeLock`): the model is single-threaded.
- `preferredLayoutSize`, `minimumLayoutSize`, `addLayoutComponent` and `removeLayoutComponent`: field returns or empty bodies.
- The unused `containerSize` computation in `layoutContainer`: dead state.
- The `(BLayout)` cast in `layoutContainer`: `LayoutContainer` takes a `BLayout`, so the ClassCastException path is not modelled.
- `UIDebugWindow`, the test window, and `StyledComponent` as a class. `StyledComponent` becomes a (component, wrapper) pair inside rows.
- The `Style` enum is not part of this model. Its keys and values are stand-in constants, as described above.
- 32-bit integer overflow: sizes, sums of widths and heights, and `px` are unbounded integers.
  - Only the `(byte)` cast of padding and Java's truncating division are modelled exactly.
- `Wrapper.CompWrapper.UpdateWidth`: the branch that uses the screen width when there is no parent is not modelled. Its only callers have already thrown on a null parent.
- `Wrapper.CompWrapper.UpdateHeight`: the same, for the screen height.
- `LegacyStyles.Styles.UpdateSizes`: the branch that uses the screen size when there is no parent (Styles.java:220-226) is not modelled. Its only callers, `width` and `height`, have already thrown on a null parent.
- `JavaLang.ParseByte`: only the ASCII digits '0'–'9' are accepted as digits. `Byte.parseByte` goes through `Character.digit`, which also accepts the other Unicode decimal digits (Arabic-Indic, Devanagari, fullwidth, …). The model would reject a padding written with those; it has no Unicode character database.
- `Layout.InternalBetterLayout.LayoutContainer`: on failure it states only that the rows before the failing one are placed. That the later rows are untouched is stated one level down, by `DrawAndCrop`. At this level the rows hold wrappers the map rebuild may have created, so the earlier state cannot be spoken of.
- `Layout.InternalBetterLayout.LayoutContainer`: it does not restate the records' axis flags after drawing. `RowsOfContainer` states them when the records are attached (`RowsAttached`, `AxesOfInputs`), and no later step may write `isHorizontal`, as the modifies clauses of the drawing and crop members show.
- `Layout.InternalBetterLayout.LayoutContainer`: it requires `BLayout.Valid`, which includes `Keyed`: every wrapper in `compsAndStyles` belongs to the widget it is filed under. The same holds for `RowsOfContainer`, `RebuildContainerMap`, `AddH`, `AddV`, `AddAll`, `AddHAll`, `AddVAll` and the other members that require `Valid`. The library's own adds keep this true, but `compsAndStyles` and `CompWrapper.component` are public fields. A map that files a wrapper under another widget is accepted by the source and not covered by the model. The frame proofs use `Keyed` to tell which wrappers a pass touches.
- `Layout.InternalBetterLayout.DrawRows`: on failure it says nothing about the records of the failing row's members that come before the bad padding. The source has already written their measurements; the model states only that the earlier rows are drawn and the later rows untouched.
- `Layout.BLayout.constructor`: it covers `BLayout()` and `BLayout(parent)` through their percentages (100, 100) rather than as separate constructors.
- `Layout.BLayout.AddH`: it does not reject adding an ancestor of the panel, which the toolkit's `add` also refuses. Only adding the panel to itself throws.
- `Layout.BLayout.AddV`: the same ancestor check is not modelled.
- `Layout.BLayout.MakeUnscrollable`: the ancestor check on `parent.add(this, i)` is not modelled either. When the panel has since become an ancestor of the pane's parent, the toolkit throws IllegalArgumentException, where the model passes.
- `Layout.BLayout.MakeScrollable`: the same ancestor check is not modelled for `parent.add(scrollPane)`; a parent that is inside the panel would be accepted.
- `Layout.BLayout.AddAll`: the child lists of the added components' previous parents are not stated (each `AddH`/`AddV` states them). The freshness of each new wrapper is not stated either.
- `Layout.BLayout.AddHAll`: the same as `AddAll`.
- `Layout.BLayout.AddVAll`: the same as `AddAll`.
- A null varargs array, and null components passed to `addH`/`addV`: components are never null in the model.
- `Layout.BLayout.MakeScrollable`: the scroll pane's viewport is collapsed into the pane, so the panel is the pane's only child.
- `Layout.BLayout.ScrollToEndV`: `JScrollBar.setValue` is reduced to its clamp of the value into [minimum, maximum - extent]. The same holds for the other three `ScrollTo` methods.
- The one-argument `validateAllUp(comp)` and `revalidateAllUp(comp)`: they mean `onlyUp = false`, covered by the two-argument members.
- `Revalidation`: widgets form a finite map with a depth and a height measure, which stands in for the toolkit's acyclic parent links. `invalidate`/`validate` are recorded as a call trace rather than performed.
- `Layout.InternalBetterLayout.DrawFromInsets`: the cursor origin (`startX`, `startY`) is written after the map rebuild rather than before it. The rebuild does not read it.
