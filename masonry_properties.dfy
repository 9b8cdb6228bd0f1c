/** Properties of the grid layout of Masonry.swift, stated about the value
    functions the classes are proved against: where each item goes, what the
    columns keep, how the sections stack, and what a rectangle query returns. */
module MasonryProperties {
  import opened Geometry
  import opened Functional
  import opened Host
  import opened Masonry

  // ----- One item -----

  /** A placement step takes the first column of least `maxY`, appends the item's frame
      to it and its attributes to the list, and leaves every other column alone. */
  lemma PlaceStepPlaces(sectionX: real, columnWidth: real, placed: (seq<ColumnState>, seq<Attributes>),
                        path: Path, aspectRatio: real)
    requires |placed.0| > 0
    ensures var r := PlaceStep(sectionX, columnWidth, placed, path, aspectRatio);
            var p := PreferredIndex(placed.0);
            var rect := ItemRect(sectionX, placed.0[p], columnWidth, aspectRatio);
            && IsLowestShortest(placed.0, p)
            && r.1 == placed.1 + [Attributes(path, rect)]
            && r.0[p] == AddRect(placed.0[p], rect)
            && r.0[p].rects == placed.0[p].rects + [rect]
            && (forall j :: 0 <= j < |placed.0| && j != p ==> r.0[j] == placed.0[j])
  {
    PreferredIndexIsLowest(placed.0);
  }

  /** A placement step keeps every column's index and never decreases a column's
      `maxY` (the bottom of a rectangle is never above its origin). */
  lemma PlaceStepKeeps(sectionX: real, columnWidth: real, placed: (seq<ColumnState>, seq<Attributes>),
                       path: Path, aspectRatio: real)
    requires |placed.0| > 0
    ensures var r := PlaceStep(sectionX, columnWidth, placed, path, aspectRatio);
            forall j :: 0 <= j < |placed.0| ==>
              && r.0[j].index == placed.0[j].index
              && placed.0[j].maxY <= r.0[j].maxY
              && placed.0[j].rects <= r.0[j].rects
  {
    var p := PreferredIndex(placed.0);
    var rect := ItemRect(sectionX, placed.0[p], columnWidth, aspectRatio);
    assert rect.y == placed.0[p].maxY;
  }

  /** Replacing one column changes the rectangle total by the difference of the
      two columns' rectangle counts. */
  lemma {:induction false} RectCountUpdate(columns: seq<ColumnState>, p: nat, c: ColumnState)
    requires p < |columns|
    ensures RectCount(columns[p := c]) + |columns[p].rects| == RectCount(columns) + |c.rects|
  {
    if p == 0 {
      assert columns[p := c][1..] == columns[1..];
    } else {
      assert columns[p := c][1..] == columns[1..][p - 1 := c];
      RectCountUpdate(columns[1..], p - 1, c);
    }
  }

  /** Columns without rectangles hold none together. */
  lemma {:induction false} RectCountOfEmpties(columns: seq<ColumnState>)
    requires forall j :: 0 <= j < |columns| ==> columns[j].rects == []
    ensures RectCount(columns) == 0
  {
    if columns != [] {
      RectCountOfEmpties(columns[1..]);
    }
  }

  /** A placement step keeps every column's `maxY` at the bottom of its last
      rectangle, because the item is placed at the chosen column's `maxY`. */
  lemma PlaceStepBottoms(sectionX: real, columnWidth: real, placed: (seq<ColumnState>, seq<Attributes>),
                         path: Path, aspectRatio: real)
    requires |placed.0| > 0 && BottomsHold(placed.0)
    ensures BottomsHold(PlaceStep(sectionX, columnWidth, placed, path, aspectRatio).0)
  {
    var p := PreferredIndex(placed.0);
    var column := placed.0[p];
    var rect := ItemRect(sectionX, column, columnWidth, aspectRatio);
    var c := AddRect(column, rect);
    assert MaxYIsBottom(column);
    assert column.maxY <= rect.MaxY() by {
      assert rect.y == column.maxY;
    }
    forall q | q in c.rects ensures q.MaxY() <= c.maxY {
      if q != rect {
        assert q in column.rects;
      }
    }
    assert MaxYIsBottom(c);
  }

  /** A placement step adds exactly one rectangle to the columns. */
  lemma PlaceStepRectCount(sectionX: real, columnWidth: real, placed: (seq<ColumnState>, seq<Attributes>),
                           path: Path, aspectRatio: real)
    requires |placed.0| > 0
    ensures RectCount(PlaceStep(sectionX, columnWidth, placed, path, aspectRatio).0) == RectCount(placed.0) + 1
  {
    var p := PreferredIndex(placed.0);
    var rect := ItemRect(sectionX, placed.0[p], columnWidth, aspectRatio);
    RectCountUpdate(placed.0, p, AddRect(placed.0[p], rect));
  }

  // ----- The item loop -----

  /** The item loop keeps the numbering of the columns. */
  lemma {:induction false} LayoutItemsNumbered(delegate: Option<Delegate>, section: nat, sectionX: real,
                                               columnWidth: real, columns: seq<ColumnState>, count: nat)
    requires |columns| > 0 && Numbered(columns)
    ensures Numbered(LayoutItems(delegate, section, sectionX, columnWidth, columns, count).0)
  {
    if count > 0 {
      var path := Path(section, count - 1);
      var prev := LayoutItems(delegate, section, sectionX, columnWidth, columns, count - 1);
      LayoutItemsNumbered(delegate, section, sectionX, columnWidth, columns, count - 1);
      PlaceStepKeeps(sectionX, columnWidth, prev, path, AspectRatio(ItemSizeAtIndexPath(delegate, path)));
    }
  }

  /** No column's `maxY` goes down while items are placed, and each column only
      gains rectangles at its end. */
  lemma {:induction false} LayoutItemsGrow(delegate: Option<Delegate>, section: nat, sectionX: real,
                                           columnWidth: real, columns: seq<ColumnState>, count: nat)
    requires |columns| > 0
    ensures var r := LayoutItems(delegate, section, sectionX, columnWidth, columns, count).0;
            forall j :: 0 <= j < |columns| ==>
              columns[j].maxY <= r[j].maxY && columns[j].rects <= r[j].rects
  {
    if count > 0 {
      var path := Path(section, count - 1);
      var prev := LayoutItems(delegate, section, sectionX, columnWidth, columns, count - 1);
      LayoutItemsGrow(delegate, section, sectionX, columnWidth, columns, count - 1);
      PlaceStepKeeps(sectionX, columnWidth, prev, path, AspectRatio(ItemSizeAtIndexPath(delegate, path)));
      var r := LayoutItems(delegate, section, sectionX, columnWidth, columns, count).0;
      forall j | 0 <= j < |columns| ensures columns[j].maxY <= r[j].maxY && columns[j].rects <= r[j].rects {
        assert columns[j].rects <= prev.0[j].rects <= r[j].rects;
      }
    }
  }

  /** The item loop keeps every column's `maxY` at the bottom of its last
      rectangle. */
  lemma {:induction false} LayoutItemsBottoms(delegate: Option<Delegate>, section: nat, sectionX: real,
                                              columnWidth: real, columns: seq<ColumnState>, count: nat)
    requires |columns| > 0 && BottomsHold(columns)
    ensures BottomsHold(LayoutItems(delegate, section, sectionX, columnWidth, columns, count).0)
  {
    if count > 0 {
      var path := Path(section, count - 1);
      var prev := LayoutItems(delegate, section, sectionX, columnWidth, columns, count - 1);
      var aspectRatio := AspectRatio(ItemSizeAtIndexPath(delegate, path));
      var next := PlaceStep(sectionX, columnWidth, prev, path, aspectRatio).0;
      assert LayoutItems(delegate, section, sectionX, columnWidth, columns, count).0 == next by {
        LayoutItemsStep(delegate, section, sectionX, columnWidth, columns, count - 1, count);
      }
      assert BottomsHold(next) by {
        LayoutItemsBottoms(delegate, section, sectionX, columnWidth, columns, count - 1);
        PlaceStepBottoms(sectionX, columnWidth, prev, path, aspectRatio);
      }
    }
  }

  /** The item loop adds one rectangle to the columns per item. */
  lemma {:induction false} LayoutItemsRectCount(delegate: Option<Delegate>, section: nat, sectionX: real,
                                                columnWidth: real, columns: seq<ColumnState>, count: nat)
    requires |columns| > 0
    ensures RectCount(LayoutItems(delegate, section, sectionX, columnWidth, columns, count).0) == RectCount(columns) + count
  {
    if count > 0 {
      var path := Path(section, count - 1);
      var prev := LayoutItems(delegate, section, sectionX, columnWidth, columns, count - 1);
      var aspectRatio := AspectRatio(ItemSizeAtIndexPath(delegate, path));
      var next := PlaceStep(sectionX, columnWidth, prev, path, aspectRatio).0;
      assert LayoutItems(delegate, section, sectionX, columnWidth, columns, count).0 == next by {
        LayoutItemsStep(delegate, section, sectionX, columnWidth, columns, count - 1, count);
      }
      assert RectCount(next) == RectCount(columns) + count by {
        LayoutItemsRectCount(delegate, section, sectionX, columnWidth, columns, count - 1);
        PlaceStepRectCount(sectionX, columnWidth, prev, path, aspectRatio);
      }
    }
  }

  /** The first `k` passes of the item loop give the first `k` attributes. */
  lemma {:induction false} LayoutItemsPrefix(delegate: Option<Delegate>, section: nat, sectionX: real,
                                             columnWidth: real, columns: seq<ColumnState>, count: nat, k: nat)
    requires |columns| > 0 && k <= count
    ensures LayoutItems(delegate, section, sectionX, columnWidth, columns, k).1 ==
            LayoutItems(delegate, section, sectionX, columnWidth, columns, count).1[..k]
  {
    if k < count {
      var path := Path(section, count - 1);
      var prev := LayoutItems(delegate, section, sectionX, columnWidth, columns, count - 1);
      LayoutItemsPrefix(delegate, section, sectionX, columnWidth, columns, count - 1, k);
      PlaceStepPlaces(sectionX, columnWidth, prev, path, AspectRatio(ItemSizeAtIndexPath(delegate, path)));
      var all := LayoutItems(delegate, section, sectionX, columnWidth, columns, count).1;
      assert all[..count - 1] == prev.1;
      assert all[..k] == prev.1[..k];
    }
  }

  /** The attributes list the items of the section once each, in item order. */
  lemma {:induction false} LayoutItemsPaths(delegate: Option<Delegate>, section: nat, sectionX: real,
                                            columnWidth: real, columns: seq<ColumnState>, count: nat)
    requires |columns| > 0 || count == 0
    ensures PathsOf(LayoutItems(delegate, section, sectionX, columnWidth, columns, count).1) == ItemPaths(section, count)
  {
    if count > 0 {
      var path := Path(section, count - 1);
      var prev := LayoutItems(delegate, section, sectionX, columnWidth, columns, count - 1);
      LayoutItemsPaths(delegate, section, sectionX, columnWidth, columns, count - 1);
      PlaceStepPlaces(sectionX, columnWidth, prev, path, AspectRatio(ItemSizeAtIndexPath(delegate, path)));
      var rect := ItemRect(sectionX, prev.0[PreferredIndex(prev.0)], columnWidth,
                           AspectRatio(ItemSizeAtIndexPath(delegate, path)));
      PathsOfAppend(prev.1, [Attributes(path, rect)]);
      ItemPathsSnoc(section, count - 1);
    }
  }

  /** Item `k` goes into the first column of least `maxY` as the columns stood after the
      items before it: at that column's slot across the section, directly below
      its `maxY`, one column wide and as tall as the width times the item's
      aspect ratio, floored. */
  lemma ItemPlacement(delegate: Option<Delegate>, section: nat, sectionX: real,
                      columnWidth: real, columns: seq<ColumnState>, count: nat, k: nat)
    requires |columns| > 0 && Numbered(columns) && k < count
    ensures var before := LayoutItems(delegate, section, sectionX, columnWidth, columns, k).0;
            var p := PreferredIndex(before);
            var path := Path(section, k);
            var a := LayoutItems(delegate, section, sectionX, columnWidth, columns, count).1[k];
            && IsLowestShortest(before, p)
            && a.path == path
            && a.frame == Rect(ColumnX(sectionX, p, columnWidth), before[p].maxY, columnWidth,
                               ItemHeight(columnWidth, AspectRatio(ItemSizeAtIndexPath(delegate, path))))
  {
    var path := Path(section, k);
    var prev := LayoutItems(delegate, section, sectionX, columnWidth, columns, k);
    LayoutItemsPrefix(delegate, section, sectionX, columnWidth, columns, count, k + 1);
    LayoutItemsNumbered(delegate, section, sectionX, columnWidth, columns, k);
    PlaceStepPlaces(sectionX, columnWidth, prev, path, AspectRatio(ItemSizeAtIndexPath(delegate, path)));
  }

  /** Item `k` starts right at the bottom of what its column already holds: at 0
      in a column without rectangles, otherwise at the bottom of the column's
      last rectangle, and below every rectangle the column holds. */
  lemma ItemBelowColumnContents(delegate: Option<Delegate>, section: nat, sectionX: real,
                                columnWidth: real, columns: seq<ColumnState>, count: nat, k: nat)
    requires |columns| > 0 && Numbered(columns) && k < count
    requires BottomsHold(columns)
    ensures var before := LayoutItems(delegate, section, sectionX, columnWidth, columns, k).0;
            var c := before[PreferredIndex(before)];
            var a := LayoutItems(delegate, section, sectionX, columnWidth, columns, count).1[k];
            && (c.rects == [] ==> a.frame.y == 0.0)
            && (c.rects != [] ==> a.frame.y == c.rects[|c.rects| - 1].MaxY())
            && (forall q :: q in c.rects ==> q.MaxY() <= a.frame.y)
  {
    ItemPlacement(delegate, section, sectionX, columnWidth, columns, count, k);
    LayoutItemsBottoms(delegate, section, sectionX, columnWidth, columns, k);
    var before := LayoutItems(delegate, section, sectionX, columnWidth, columns, k).0;
    assert MaxYIsBottom(before[PreferredIndex(before)]);
  }

  // ----- One section -----

  /** A section is laid out starting at the left inset, right below the previous
      section's rectangle, as wide as the collection view; it has the delegate's
      number of columns, numbered from 0, holds its items in item order, and is
      exactly as tall as its tallest column. */
  lemma LayoutSectionShape(delegate: Option<Delegate>, view: Option<View>, index: nat, itemCount: nat,
                           previousSectionRect: Rect)
    requires HasColumnsForItems(delegate, index, itemCount)
    ensures var s := LayoutSection(delegate, view, index, itemCount, previousSectionRect);
            && s.rect.x == SectionInsetLeft
            && s.rect.y == previousSectionRect.MaxY() + SectionInsetTop
            && s.rect.width == FrameWidth(view)
            && s.itemCount == itemCount
            && |s.columns| == ColumnCountForSectionAtIndex(delegate, index)
            && Numbered(s.columns)
            && PathsOf(s.itemAttributes) == ItemPaths(index, itemCount)
            && IsMaxY(s.columns, s.rect.height)
  {
    LayoutSectionPlaces(delegate, view, index, itemCount, previousSectionRect);
    var rect := Rect(SectionInsetLeft, previousSectionRect.MaxY() + SectionInsetTop, FrameWidth(view), 0.0);
    var n := ColumnCountForSectionAtIndex(delegate, index);
    var initial := InitialColumns(n);
    var placed := LayoutItems(delegate, index, rect.x, FlooredColumnWidth(rect.width, n), initial, itemCount);
    LayoutItemsPaths(delegate, index, rect.x, FlooredColumnWidth(rect.width, n), initial, itemCount);
    if n > 0 {
      LayoutItemsNumbered(delegate, index, rect.x, FlooredColumnWidth(rect.width, n), initial, itemCount);
    }
    SectionMaxYIsMax(placed.0);
  }

  /** Fresh columns are at height 0 and hold no rectangle. */
  lemma InitialColumnsBottoms(count: nat)
    ensures forall j :: 0 <= j < count ==> MaxYIsBottom(InitialColumns(count)[j])
    ensures RectCount(InitialColumns(count)) == 0
  {
    RectCountOfEmpties(InitialColumns(count));
  }

  /** In a laid-out section every column's `maxY` is the bottom of its last
      rectangle (0 without any), and the columns hold one rectangle per item. */
  lemma LayoutSectionColumns(delegate: Option<Delegate>, view: Option<View>, index: nat, itemCount: nat,
                             previousSectionRect: Rect)
    requires HasColumnsForItems(delegate, index, itemCount)
    ensures var s := LayoutSection(delegate, view, index, itemCount, previousSectionRect);
            && (forall j :: 0 <= j < |s.columns| ==> MaxYIsBottom(s.columns[j]))
            && RectCount(s.columns) == itemCount
  {
    LayoutSectionPlaces(delegate, view, index, itemCount, previousSectionRect);
    var n := ColumnCountForSectionAtIndex(delegate, index);
    var initial := InitialColumns(n);
    InitialColumnsBottoms(n);
    if n > 0 {
      LayoutItemsBottoms(delegate, index, SectionInsetLeft, FlooredColumnWidth(FrameWidth(view), n), initial, itemCount);
      LayoutItemsRectCount(delegate, index, SectionInsetLeft, FlooredColumnWidth(FrameWidth(view), n), initial, itemCount);
    }
  }

  /** The columns of a section start at height 0 whatever the section's own
      origin is, so the first item of every section is placed at y = 0 in the
      first column. */
  lemma FirstItemAtTop(delegate: Option<Delegate>, view: Option<View>, index: nat, itemCount: nat,
                       previousSectionRect: Rect)
    requires HasColumnsForItems(delegate, index, itemCount) && itemCount > 0
    ensures var s := LayoutSection(delegate, view, index, itemCount, previousSectionRect);
            s.itemAttributes[0].frame.y == 0.0 && s.itemAttributes[0].frame.x == 0.0
  {
    LayoutSectionPlaces(delegate, view, index, itemCount, previousSectionRect);
    var n := ColumnCountForSectionAtIndex(delegate, index);
    var width := FrameWidth(view);
    var initial := InitialColumns(n);
    LowestShortestIsLowest(initial);
    assert PreferredIndex(initial) == 0 by {
      assert initial[0].maxY == 0.0;
    }
    var columnWidth := FlooredColumnWidth(width, n);
    assert ColumnX(SectionInsetLeft, 0, columnWidth) == 0.0 by {
      assert 0 as real * columnWidth == 0.0;
    }
    ItemPlacement(delegate, index, SectionInsetLeft, columnWidth, initial, itemCount, 0);
  }

  // ----- A worked layout: four squares in two columns -----

  function TwoColumns(index: nat): nat { 2 }

  function FourItems(index: nat): nat { 4 }

  function Square(indexPath: Path): ItemSize { Size(100.0, 100.0) }

  /** One step of the worked layout: item `k` goes to column `p` at `rect`. */
  lemma SquareStep(delegate: Option<Delegate>, initial: seq<ColumnState>, k: nat,
                   before: (seq<ColumnState>, seq<Attributes>), p: nat, rect: Rect,
                   after: (seq<ColumnState>, seq<Attributes>))
    requires delegate == Some(Delegate(TwoColumns, Some(Square))) && |initial| == 2
    requires LayoutItems(delegate, 0, 0.0, 100.0, initial, k) == before
    requires SquarePlaced(before, p, rect, after, k)
    ensures LayoutItems(delegate, 0, 0.0, 100.0, initial, k + 1) == after
  {
    LayoutItemsStep(delegate, 0, 0.0, 100.0, initial, k, k + 1);
    assert AspectRatio(ItemSizeAtIndexPath(delegate, Path(0, k))) == 1.0;
    SquarePlace(before, p, rect, after, k);
  }

  /** Item `k` of the worked layout goes to column `p` at `rect`. */
  ghost predicate SquarePlaced(before: (seq<ColumnState>, seq<Attributes>), p: nat, rect: Rect,
                               after: (seq<ColumnState>, seq<Attributes>), k: nat)
  {
    && |before.0| == 2 && p == PreferredIndex(before.0) && p == before.0[p].index
    && rect == Rect(p as real * 100.0, before.0[p].maxY, 100.0, 100.0)
    && |after.0| == 2 && after.0[p] == ColumnState(p, rect.y + 100.0, before.0[p].rects + [rect])
    && after.0[1 - p] == before.0[1 - p]
    && after.1 == before.1 + [Attributes(Path(0, k), rect)]
  }

  lemma SquarePlace(before: (seq<ColumnState>, seq<Attributes>), p: nat, rect: Rect,
                    after: (seq<ColumnState>, seq<Attributes>), k: nat)
    requires SquarePlaced(before, p, rect, after, k)
    ensures PlaceStep(0.0, 100.0, before, Path(0, k), 1.0) == after
  {
    assert ItemHeight(100.0, 1.0) == 100.0;
    assert ColumnX(0.0, p, 100.0) == p as real * 100.0;
    assert ItemRect(0.0, before.0[p], 100.0, 1.0) == rect;
    assert after.0 == before.0[p := after.0[p]];
  }

  /** Two columns across a 200-point-wide collection view and four 100 by 100
      items: the items fill the columns left, right, left, right, in two rows
      of 100 points, and the only section (and so the content) is 200 tall. */
  lemma FourSquaresInTwoColumns()
    ensures var delegate := Some(Delegate(TwoColumns, Some(Square)));
            var view := Some(View(200.0, 200.0, 1, FourItems));
            var s := LayoutSection(delegate, view, 0, 4, ZeroRect);
            && s.itemAttributes == [Attributes(Path(0, 0), Rect(0.0, 0.0, 100.0, 100.0)),
                                    Attributes(Path(0, 1), Rect(100.0, 0.0, 100.0, 100.0)),
                                    Attributes(Path(0, 2), Rect(0.0, 100.0, 100.0, 100.0)),
                                    Attributes(Path(0, 3), Rect(100.0, 100.0, 100.0, 100.0))]
            && s.rect == Rect(0.0, 0.0, 200.0, 200.0)
            && PreparedSections(delegate, view, NumberOfSections(view)) == [s]
  {
    var delegate := Some(Delegate(TwoColumns, Some(Square)));
    var view := Some(View(200.0, 200.0, 1, FourItems));
    var width := FlooredColumnWidth(200.0, 2);
    assert width == 100.0 by {
      assert 200.0 / 2 as real == 100.0;
    }
    var initial := InitialColumns(2);
    var c0 := ColumnState(0, 0.0, []);
    var c1 := ColumnState(1, 0.0, []);
    var r0 := Rect(0.0, 0.0, 100.0, 100.0);
    var r1 := Rect(100.0, 0.0, 100.0, 100.0);
    var r2 := Rect(0.0, 100.0, 100.0, 100.0);
    var r3 := Rect(100.0, 100.0, 100.0, 100.0);
    assert initial == [c0, c1];
    var a0, a1 := Attributes(Path(0, 0), r0), Attributes(Path(0, 1), r1);
    var a2, a3 := Attributes(Path(0, 2), r2), Attributes(Path(0, 3), r3);
    var s1 := ([ColumnState(0, 100.0, [r0]), c1], [a0]);
    var s2 := ([ColumnState(0, 100.0, [r0]), ColumnState(1, 100.0, [r1])], [a0, a1]);
    var s3 := ([ColumnState(0, 200.0, [r0, r2]), ColumnState(1, 100.0, [r1])], [a0, a1, a2]);
    var s4 := ([ColumnState(0, 200.0, [r0, r2]), ColumnState(1, 200.0, [r1, r3])], [a0, a1, a2, a3]);
    SquareStep(delegate, initial, 0, (initial, []), 0, r0, s1);
    SquareStep(delegate, initial, 1, s1, 1, r1, s2);
    SquareStep(delegate, initial, 2, s2, 0, r2, s3);
    SquareStep(delegate, initial, 3, s3, 1, r3, s4);
    var placed := LayoutItems(delegate, 0, 0.0, width, initial, 4);
    assert SectionMaxY(placed.0) == 200.0;
    LayoutSectionPlaces(delegate, view, 0, 4, ZeroRect);
    assert EverySectionHasColumnsForItems(delegate, view, 1);
    PreparedSectionsStep(delegate, view, 0);
  }

  // ----- prepareLayout -----

  /** Laying out more sections does not change the ones before. */
  lemma {:induction false} PreparedSectionsPrefix(delegate: Option<Delegate>, view: Option<View>, count: nat, k: nat)
    requires EverySectionHasColumnsForItems(delegate, view, count) && k <= count
    ensures PreparedSections(delegate, view, k) == PreparedSections(delegate, view, count)[..k]
  {
    if k < count {
      PreparedSectionsPrefix(delegate, view, count - 1, k);
      var prev := PreparedSections(delegate, view, count - 1);
      assert PreparedSections(delegate, view, count)[..count - 1] == prev;
      assert PreparedSections(delegate, view, count)[..k] == prev[..k];
    }
  }

  /** Section `i` of the prepared layout is laid out from its own item count, right
      below section `i - 1` (the first one at the top), and lists its own items. */
  lemma PreparedSection(delegate: Option<Delegate>, view: Option<View>, count: nat, i: nat)
    requires EverySectionHasColumnsForItems(delegate, view, count) && i < count
    ensures var ss := PreparedSections(delegate, view, count);
            && ss[i] == LayoutSection(delegate, view, i, NumberOfItems(view, i), if i == 0 then ZeroRect else ss[i - 1].rect)
            && ss[i].rect.y == (if i == 0 then 0.0 else ss[i - 1].rect.MaxY())
            && ss[i].itemCount == NumberOfItems(view, i)
            && PathsOf(ss[i].itemAttributes) == ItemPaths(i, NumberOfItems(view, i))
  {
    var ss := PreparedSections(delegate, view, count);
    PreparedSectionsPrefix(delegate, view, count, i + 1);
    PreparedSectionsPrefix(delegate, view, count, i);
    var before := PreparedSections(delegate, view, i);
    assert EverySectionHasColumnsForItems(delegate, view, i + 1);
    PreparedSectionsStep(delegate, view, i);
    assert ss[i] == PreparedSections(delegate, view, i + 1)[i];
    assert PreviousRect(before) == if i == 0 then ZeroRect else ss[i - 1].rect;
    LayoutSectionShape(delegate, view, i, NumberOfItems(view, i), PreviousRect(before));
  }

  /** Every prepared section keeps each column's `maxY` at the bottom of its last
      rectangle, and its columns hold exactly its item count of rectangles. */
  lemma PreparedSectionColumns(delegate: Option<Delegate>, view: Option<View>, count: nat, i: nat)
    requires EverySectionHasColumnsForItems(delegate, view, count) && i < count
    ensures var s := PreparedSections(delegate, view, count)[i];
            && (forall j :: 0 <= j < |s.columns| ==> MaxYIsBottom(s.columns[j]))
            && RectCount(s.columns) == s.itemCount
  {
    var ss := PreparedSections(delegate, view, count);
    PreparedSection(delegate, view, count, i);
    LayoutSectionColumns(delegate, view, i, NumberOfItems(view, i), if i == 0 then ZeroRect else ss[i - 1].rect);
  }

  // ----- layoutAttributesForElementsInRect -----

  /** An item is returned exactly when its section's rectangle meets the query,
      the section lists it and its frame meets the query. */
  lemma {:induction false} VisibleItemsMembership(query: Rect, sections: seq<SectionState>, a: Attributes)
    ensures a in VisibleItems(query, sections) <==>
              exists i :: 0 <= i < |sections| && Intersects(sections[i].rect, query) &&
                          a in sections[i].itemAttributes && Intersects(query, a.frame)
  {
    if sections != [] {
      var prefix := sections[..|sections| - 1];
      var last := sections[|sections| - 1];
      VisibleItemsMembership(query, prefix, a);
      if a in VisibleItems(query, sections) && a in VisibleItems(query, prefix) {
        var i :| 0 <= i < |prefix| && Intersects(prefix[i].rect, query) &&
                 a in prefix[i].itemAttributes && Intersects(query, a.frame);
        assert sections[i] == prefix[i];
      }
      if exists i :: 0 <= i < |sections| && Intersects(sections[i].rect, query) &&
                     a in sections[i].itemAttributes && Intersects(query, a.frame) {
        var i :| 0 <= i < |sections| && Intersects(sections[i].rect, query) &&
                 a in sections[i].itemAttributes && Intersects(query, a.frame);
        if i < |prefix| {
          assert prefix[i] == sections[i];
        }
      }
    }
  }

  /** The query returns, in section order and then in each section's item order,
      the items of the sections whose rectangle meets the query, with the items
      whose frame misses the query left out. */
  lemma {:induction false} VisibleItemsIsFilter(query: Rect, sections: seq<SectionState>)
    ensures VisibleItems(query, sections) == Visible(query, Flatten(ItemsOfSectionsMeeting(query, sections)))
  {
    if sections != [] {
      var prefix := sections[..|sections| - 1];
      VisibleItemsIsFilter(query, prefix);
      var meeting := ItemsOfSectionsMeeting(query, sections);
      assert meeting[..|prefix|] == ItemsOfSectionsMeeting(query, prefix);
      VisibleAppend(query, Flatten(ItemsOfSectionsMeeting(query, prefix)), meeting[|prefix|]);
    }
  }

  /** The query returns an item whose frame meets the query as often as the
      sections whose rectangle meets the query hold it together, and no other. */
  lemma VisibleItemsCount(query: Rect, sections: seq<SectionState>, a: Attributes)
    ensures multiset(VisibleItems(query, sections))[a] ==
              if Intersects(query, a.frame) then multiset(Flatten(ItemsOfSectionsMeeting(query, sections)))[a] else 0
  {
    VisibleItemsIsFilter(query, sections);
    VisibleCount(query, Flatten(ItemsOfSectionsMeeting(query, sections)), a);
  }

  /** A query that meets no section's rectangle returns nothing. */
  lemma {:induction false} VisibleItemsOutside(query: Rect, sections: seq<SectionState>)
    requires forall i :: 0 <= i < |sections| ==> !Intersects(sections[i].rect, query)
    ensures VisibleItems(query, sections) == []
  {
    if sections != [] {
      VisibleItemsOutside(query, sections[..|sections| - 1]);
    }
  }
}
