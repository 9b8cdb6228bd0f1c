/** Masonry.swift: the imperative grid layout. A GridLayout owns one
    GridLayoutSection object per section, and each section owns one
    GridLayoutColumn object per column; preparing the layout places every item,
    in item order, at the bottom of the section's first column of least `maxY`.

    The classes below are proved against value-level functions (ColumnState,
    SectionState, LayoutItems, LayoutSection, PreparedSections), and the
    properties of the layout are lemmas about those functions. */
module Masonry {
  import opened Geometry
  import opened Functional
  import opened Host

  const DefaultColumnCount: nat := 1
  const DefaultItemSize: ItemSize := Size(600.0, 800.0)
  /** `sectionInsets`: all four insets are zero; the layout uses the top and left ones. */
  const SectionInsetTop: real := 0.0
  const SectionInsetLeft: real := 0.0

  // ----- Values the classes are proved against -----

  /** The fields of a GridLayoutColumn. */
  datatype ColumnState = ColumnState(index: nat, maxY: real, rects: seq<Rect>)

  /** The fields of a GridLayoutSection, its columns by value. */
  datatype SectionState = SectionState(columns: seq<ColumnState>, itemAttributes: seq<Attributes>,
                                       itemCount: nat, rect: Rect)

  /** `columnCountForSectionAtIndex`: the delegate's count, or 1 without a delegate. */
  function ColumnCountForSectionAtIndex(delegate: Option<Delegate>, index: nat): (n: nat)
    ensures delegate.Some? ==> n == delegate.value.numberOfColumns(index)
    ensures delegate.None? ==> n == DefaultColumnCount
  {
    match delegate
    case Some(d) => d.numberOfColumns(index)
    case None => DefaultColumnCount
  }

  /** `itemSizeAtIndexPath`: the delegate's optional size method, else 600x800. */
  function ItemSizeAtIndexPath(delegate: Option<Delegate>, indexPath: Path): (s: ItemSize)
    ensures delegate.Some? && delegate.value.sizeForItem.Some? ==> s == delegate.value.sizeForItem.value(indexPath)
    ensures delegate.None? || delegate.value.sizeForItem.None? ==> s == DefaultItemSize
  {
    match delegate
    case Some(Delegate(_, Some(sizeForItem))) => sizeForItem(indexPath)
    case _ => DefaultItemSize
  }

  /** `columnWidth`: the section width over the column count, floored. With no
      column CGFloat's quotient is not finite; the layout never uses it then
      (no item can be placed) and this model gives 0. */
  function FlooredColumnWidth(sectionWidth: real, count: nat): (w: real)
    ensures count > 0 ==> w <= sectionWidth / count as real < w + 1.0 && w.Floor as real == w
    ensures count == 0 ==> w == 0.0
  {
    if count == 0 then 0.0 else Floor(sectionWidth / count as real)
  }

  /** The columns fit side by side into the section's width. */
  lemma ColumnsFitSectionWidth(sectionWidth: real, count: nat)
    requires count > 0
    ensures count as real * FlooredColumnWidth(sectionWidth, count) <= sectionWidth
  {
    var w := FlooredColumnWidth(sectionWidth, count);
    var n := count as real;
    assert w <= sectionWidth / n;
    assert n * w <= n * (sectionWidth / n);
  }

  /** `i` is the first column of least `maxY`. */
  predicate IsLowestShortest(columns: seq<ColumnState>, i: int) {
    && 0 <= i < |columns|
    && (forall j :: 0 <= j < |columns| ==> columns[i].maxY <= columns[j].maxY)
    && (forall j :: 0 <= j < i ==> columns[i].maxY < columns[j].maxY)
  }

  lemma LowestShortestUnique(columns: seq<ColumnState>, i: int, k: int)
    requires IsLowestShortest(columns, i) && IsLowestShortest(columns, k)
    ensures i == k
  {
    assert columns[i].maxY <= columns[k].maxY && columns[k].maxY <= columns[i].maxY;
  }

  /** What `shortestColumnIndex` computes: scanning left to right, a column
      replaces the best so far only when its `maxY` is strictly smaller. */
  function LowestShortest(columns: seq<ColumnState>): (i: nat)
    requires |columns| > 0
    ensures i < |columns|
  {
    if |columns| == 1 then 0
    else
      var best := LowestShortest(columns[..|columns| - 1]);
      if columns[|columns| - 1].maxY < columns[best].maxY then |columns| - 1 else best
  }

  /** The scan finds the first column of least `maxY`. */
  lemma {:induction false} LowestShortestIsLowest(columns: seq<ColumnState>)
    requires |columns| > 0
    ensures IsLowestShortest(columns, LowestShortest(columns))
  {
    if |columns| > 1 {
      var prefix := columns[..|columns| - 1];
      LowestShortestIsLowest(prefix);
      assert forall j :: 0 <= j < |prefix| ==> columns[j] == prefix[j];
    }
  }

  /** `preferredColumnIndex`: 0 for a single column, otherwise the shortest
      column's index; the shortcut agrees with the scan. */
  function PreferredIndex(columns: seq<ColumnState>): (i: nat)
    requires |columns| > 0
    ensures i < |columns|
    ensures i == LowestShortest(columns)
  {
    if |columns| == 1 then 0 else LowestShortest(columns)
  }

  /** Either way the preferred column is the first one of least `maxY`. */
  lemma PreferredIndexIsLowest(columns: seq<ColumnState>)
    requires |columns| > 0
    ensures IsLowestShortest(columns, PreferredIndex(columns))
  {
    LowestShortestIsLowest(columns);
  }

  /** `m` is 0 without columns, and otherwise the largest `maxY` of the columns. */
  predicate IsMaxY(columns: seq<ColumnState>, m: real) {
    && (|columns| == 0 ==> m == 0.0)
    && (|columns| > 0 ==> exists i :: 0 <= i < |columns| && columns[i].maxY == m)
    && (forall i :: 0 <= i < |columns| ==> columns[i].maxY <= m)
  }

  /** What the `maxY` property of a section computes: a running `max` from the
      first column's `maxY`. */
  function SectionMaxY(columns: seq<ColumnState>): real
  {
    if |columns| == 0 then 0.0
    else if |columns| == 1 then columns[0].maxY
    else Max(columns[|columns| - 1].maxY, SectionMaxY(columns[..|columns| - 1]))
  }

  /** The running `max` is the largest `maxY`, and 0 without columns. */
  lemma {:induction false} SectionMaxYIsMax(columns: seq<ColumnState>)
    ensures IsMaxY(columns, SectionMaxY(columns))
  {
    if |columns| > 1 {
      var prefix := columns[..|columns| - 1];
      SectionMaxYIsMax(prefix);
      assert forall i :: 0 <= i < |prefix| ==> columns[i] == prefix[i];
    }
  }

  /** The frame an item takes in `column`: the column's slot across the section,
      directly below the column's `maxY`, one column wide and as tall as the
      item's aspect ratio (height over width) makes it, floored. */
  function ItemRect(sectionX: real, column: ColumnState, columnWidth: real, aspectRatio: real): (r: Rect)
    ensures r.y == column.maxY && r.width == columnWidth
    ensures r.x <= sectionX + column.index as real * columnWidth < r.x + 1.0
    ensures r.height <= columnWidth * aspectRatio < r.height + 1.0
  {
    Rect(ColumnX(sectionX, column.index, columnWidth), column.maxY, columnWidth, ItemHeight(columnWidth, aspectRatio))
  }

  /** The left edge of column `index`: the section's left edge plus `index`
      column widths, floored. */
  function ColumnX(sectionX: real, index: nat, columnWidth: real): (x: real)
    ensures x <= sectionX + index as real * columnWidth < x + 1.0
    ensures x.Floor as real == x
  {
    Floor(sectionX + index as real * columnWidth)
  }

  /** The height of an item in a column of the given width: the width times the
      item's aspect ratio, floored. */
  function ItemHeight(columnWidth: real, aspectRatio: real): (h: real)
    ensures h <= columnWidth * aspectRatio < h + 1.0
    ensures h.Floor as real == h
  {
    Floor(columnWidth * aspectRatio)
  }

  /** `addItemRect`: the rectangle is kept and the column's bottom becomes its bottom. */
  function AddRect(column: ColumnState, rect: Rect): (c: ColumnState)
    ensures c.index == column.index && c.rects == column.rects + [rect]
    ensures c.maxY == rect.MaxY()
  {
    ColumnState(column.index, rect.MaxY(), column.rects + [rect])
  }

  /** Column `j` has index `j`, as `addColumns` numbers the columns of a section. */
  predicate Numbered(columns: seq<ColumnState>) {
    forall j :: 0 <= j < |columns| ==> columns[j].index == j
  }

  /** The invariant behind `addItemRect` overwriting `maxY`: a column without
      rectangles is at its start height 0; otherwise `maxY` is the bottom of its
      last rectangle, and no rectangle it holds reaches below `maxY`. */
  ghost predicate MaxYIsBottom(c: ColumnState) {
    && (c.rects == [] ==> c.maxY == 0.0)
    && (c.rects != [] ==> c.maxY == c.rects[|c.rects| - 1].MaxY())
    && (forall r :: r in c.rects ==> r.MaxY() <= c.maxY)
  }

  /** `MaxYIsBottom` of every column. */
  ghost predicate BottomsHold(columns: seq<ColumnState>) {
    forall j :: 0 <= j < |columns| ==> MaxYIsBottom(columns[j])
  }

  /** The number of rectangles all the columns hold together. */
  function RectCount(columns: seq<ColumnState>): nat {
    if columns == [] then 0 else |columns[0].rects| + RectCount(columns[1..])
  }

  /** `addColumns(count)` on a section without columns. */
  function InitialColumns(count: nat): (cs: seq<ColumnState>)
    ensures |cs| == count
    ensures forall j :: 0 <= j < count ==> cs[j] == ColumnState(j, 0.0, [])
  {
    seq(count, j requires 0 <= j < count => ColumnState(j, 0.0, []))
  }

  /** One turn of the item loop of `prepareLayoutForSection`, by value: the item
      goes to the preferred column, in that column's slot below its `maxY`; the
      column takes the frame and the frame's attributes are appended. */
  function PlaceStep(sectionX: real, columnWidth: real, placed: (seq<ColumnState>, seq<Attributes>),
                     path: Path, aspectRatio: real): (r: (seq<ColumnState>, seq<Attributes>))
    requires |placed.0| > 0
    ensures |r.0| == |placed.0| && |r.1| == |placed.1| + 1
  {
    var p := PreferredIndex(placed.0);
    var rect := ItemRect(sectionX, placed.0[p], columnWidth, aspectRatio);
    (placed.0[p := AddRect(placed.0[p], rect)], placed.1 + [Attributes(path, rect)])
  }

  /** The item loop of `prepareLayoutForSection`: the columns and the attributes
      after placing items 0..count-1 of `section`. */
  function LayoutItems(delegate: Option<Delegate>, section: nat, sectionX: real, columnWidth: real,
                       columns: seq<ColumnState>, count: nat): (r: (seq<ColumnState>, seq<Attributes>))
    requires |columns| > 0 || count == 0
    ensures |r.0| == |columns| && |r.1| == count
  {
    if count == 0 then (columns, [])
    else
      var path := Path(section, count - 1);
      PlaceStep(sectionX, columnWidth, LayoutItems(delegate, section, sectionX, columnWidth, columns, count - 1),
                path, AspectRatio(ItemSizeAtIndexPath(delegate, path)))
  }

  /** LayoutItems places one more item with PlaceStep. */
  lemma LayoutItemsStep(delegate: Option<Delegate>, section: nat, sectionX: real, columnWidth: real,
                        columns: seq<ColumnState>, count: nat, next: nat)
    requires |columns| > 0 && next == count + 1
    ensures LayoutItems(delegate, section, sectionX, columnWidth, columns, next) ==
            PlaceStep(sectionX, columnWidth, LayoutItems(delegate, section, sectionX, columnWidth, columns, count),
                      Path(section, count), AspectRatio(ItemSizeAtIndexPath(delegate, Path(section, count))))
  {
  }

  /** A freshly made `GridLayoutSection(itemCount)`. */
  function EmptySection(itemCount: nat): (s: SectionState)
    ensures s.columns == [] && s.itemAttributes == []
    ensures s.itemCount == itemCount && s.rect == ZeroRect
  {
    SectionState([], [], itemCount, ZeroRect)
  }

  /** Either the section gets a column, or it has no item to place. */
  predicate HasColumnsForItems(delegate: Option<Delegate>, index: nat, itemCount: nat) {
    ColumnCountForSectionAtIndex(delegate, index) > 0 || itemCount == 0
  }

  /** `prepareLayoutForSection` on a fresh section: the section starts at the left
      inset, below the previous section's rectangle, as wide as the collection
      view; its columns start at height 0; its height is its columns' `maxY`. */
  function LayoutSection(delegate: Option<Delegate>, view: Option<View>, index: nat, itemCount: nat,
                         previousSectionRect: Rect): SectionState
    requires HasColumnsForItems(delegate, index, itemCount)
  {
    var rect := Rect(SectionInsetLeft, previousSectionRect.MaxY() + SectionInsetTop, FrameWidth(view), 0.0);
    var n := ColumnCountForSectionAtIndex(delegate, index);
    var placed := LayoutItems(delegate, index, rect.x, FlooredColumnWidth(rect.width, n), InitialColumns(n), itemCount);
    SectionState(placed.0, placed.1, itemCount, rect.(height := SectionMaxY(placed.0)))
  }

  /** Unfolding helper: LayoutSection spelled out, the section's rectangle and
      the item loop it runs, so that proofs about a section need not unfold it. */
  lemma LayoutSectionPlaces(delegate: Option<Delegate>, view: Option<View>, index: nat, itemCount: nat,
                            previousSectionRect: Rect)
    requires HasColumnsForItems(delegate, index, itemCount)
    ensures var rect := Rect(SectionInsetLeft, previousSectionRect.MaxY() + SectionInsetTop, FrameWidth(view), 0.0);
            var n := ColumnCountForSectionAtIndex(delegate, index);
            var placed := LayoutItems(delegate, index, rect.x, FlooredColumnWidth(rect.width, n), InitialColumns(n), itemCount);
            LayoutSection(delegate, view, index, itemCount, previousSectionRect) ==
            SectionState(placed.0, placed.1, itemCount, rect.(height := SectionMaxY(placed.0)))
  {
  }

  /** `previousSectionRectForSectionWithIndex` over the sections prepared so far. */
  function PreviousRect(sections: seq<SectionState>): (r: Rect)
    ensures sections == [] ==> r == ZeroRect
    ensures sections != [] ==> r == sections[|sections| - 1].rect
  {
    if sections == [] then ZeroRect else sections[|sections| - 1].rect
  }

  predicate EverySectionHasColumnsForItems(delegate: Option<Delegate>, view: Option<View>, count: nat) {
    forall k :: 0 <= k < count ==> HasColumnsForItems(delegate, k, NumberOfItems(view, k))
  }

  /** `prepareLayout` from no sections: sections 0..count-1, each laid out below
      the one before. */
  function PreparedSections(delegate: Option<Delegate>, view: Option<View>, count: nat): (r: seq<SectionState>)
    requires EverySectionHasColumnsForItems(delegate, view, count)
    ensures |r| == count
  {
    if count == 0 then []
    else
      var prev := PreparedSections(delegate, view, count - 1);
      prev + [LayoutSection(delegate, view, count - 1, NumberOfItems(view, count - 1), PreviousRect(prev))]
  }

  /** PreparedSections lays out one more section below the last. */
  lemma PreparedSectionsStep(delegate: Option<Delegate>, view: Option<View>, count: nat)
    requires EverySectionHasColumnsForItems(delegate, view, count + 1)
    ensures PreparedSections(delegate, view, count + 1) ==
            PreparedSections(delegate, view, count) +
            [LayoutSection(delegate, view, count, NumberOfItems(view, count), PreviousRect(PreparedSections(delegate, view, count)))]
  {
  }

  /** `layoutAttributesForElementsInRect`: the sections whose rectangle meets the
      query, in order, each contributing its items whose frame meets the query. */
  function VisibleItems(query: Rect, sections: seq<SectionState>): seq<Attributes>
  {
    if sections == [] then []
    else
      var last := sections[|sections| - 1];
      VisibleItems(query, sections[..|sections| - 1]) +
      (if Intersects(last.rect, query) then Visible(query, last.itemAttributes) else [])
  }

  /** Per section, its items when its rectangle meets the query, else nothing. */
  function ItemsOfSectionsMeeting(query: Rect, sections: seq<SectionState>): (r: seq<seq<Attributes>>)
    ensures |r| == |sections|
    ensures forall i :: 0 <= i < |sections| ==>
              r[i] == if Intersects(sections[i].rect, query) then sections[i].itemAttributes else []
  {
    seq(|sections|, i requires 0 <= i < |sections| =>
      if Intersects(sections[i].rect, query) then sections[i].itemAttributes else [])
  }

  // ----- The classes of Masonry.swift -----

  class GridLayoutColumn {
    var index: nat
    var maxY: real
    var rects: seq<Rect>

    /** `init(index:)`: an empty column whose bottom is at 0. */
    constructor (index: nat)
      ensures State() == ColumnState(index, 0.0, [])
    {
      this.index := index;
      maxY := 0.0;
      rects := [];
    }

    function State(): ColumnState
      reads this
    {
      ColumnState(index, maxY, rects)
    }

    /** `addItemRect`: the column keeps the rectangle and its bottom becomes the
        rectangle's bottom. */
    method AddItemRect(rect: Rect)
      modifies this`rects, this`maxY
      ensures State() == AddRect(old(State()), rect)
    {
      rects := rects + [rect];
      maxY := rect.MaxY();
    }
  }

  /** The fields of each column object, in order. */
  function StatesOf(columns: seq<GridLayoutColumn>): (cs: seq<ColumnState>)
    reads columns
    ensures |cs| == |columns|
    ensures forall j :: 0 <= j < |columns| ==> cs[j] == columns[j].State()
  {
    seq(|columns|, j reads columns requires 0 <= j < |columns| => columns[j].State())
  }

  class GridLayoutSection {
    var columns: seq<GridLayoutColumn>
    var itemAttributesArray: seq<Attributes>
    var itemCount: nat
    var rect: Rect

    /** Column `j` of the section has index `j`. */
    ghost predicate Valid()
      reads this`columns, columns`index
    {
      forall j :: 0 <= j < |columns| ==> columns[j].index == j
    }

    function ColumnStates(): (cs: seq<ColumnState>)
      reads this`columns, columns
    {
      StatesOf(columns)
    }

    function State(): SectionState
      reads this, columns
    {
      SectionState(ColumnStates(), itemAttributesArray, itemCount, rect)
    }

    /** `init(_ numberOfItems:)`: no columns, no attributes and a zero rectangle. */
    constructor (numberOfItems: nat)
      ensures State() == EmptySection(numberOfItems) && Valid()
    {
      columns := [];
      itemAttributesArray := [];
      itemCount := numberOfItems;
      rect := ZeroRect;
    }

    /** `maxY`: the largest `maxY` of the columns, 0 without columns. */
    method MaxY() returns (columnMaxY: real)
      ensures columnMaxY == SectionMaxY(ColumnStates())
      ensures IsMaxY(ColumnStates(), columnMaxY)
    {
      ghost var cs := ColumnStates();
      if |columns| == 0 {
        return 0.0;
      }
      columnMaxY := columns[0].maxY;
      var k := 1;
      assert cs[..1] == [cs[0]];
      while k < |columns|
        invariant 1 <= k <= |columns|
        invariant columnMaxY == SectionMaxY(cs[..k])
      {
        assert cs[..k + 1][..k] == cs[..k];
        columnMaxY := Max(columns[k].maxY, columnMaxY);
        k := k + 1;
      }
      assert cs[..k] == cs;
      SectionMaxYIsMax(cs);
    }

    /** `shortestColumnIndex`: the first column of least `maxY`. The source
        asserts that there is a column. */
    method ShortestColumnIndex() returns (shortestColumnIndex: nat)
      requires |columns| > 0
      ensures shortestColumnIndex == LowestShortest(ColumnStates())
      ensures IsLowestShortest(ColumnStates(), shortestColumnIndex)
    {
      ghost var cs := ColumnStates();
      shortestColumnIndex := 0;
      var k := 1;
      assert cs[..1] == [cs[0]];
      while k < |columns|
        invariant 1 <= k <= |columns|
        invariant shortestColumnIndex == LowestShortest(cs[..k])
      {
        assert cs[..k + 1][..k] == cs[..k];
        if columns[k].maxY < columns[shortestColumnIndex].maxY {
          shortestColumnIndex := k;
        }
        k := k + 1;
      }
      assert cs[..k] == cs;
      LowestShortestIsLowest(cs);
    }

    /** `preferredColumnIndex`: 0 for a single column, else the shortest column. */
    method PreferredColumnIndex() returns (i: nat)
      requires |columns| > 0
      ensures i == PreferredIndex(ColumnStates())
      ensures IsLowestShortest(ColumnStates(), i)
    {
      if |columns| == 1 {
        i := 0;
        PreferredIndexIsLowest(ColumnStates());
      } else {
        i := ShortestColumnIndex();
      }
    }

    /** `column.addItemRect(rect)` for the column at position `p`: only that
        column's state changes. */
    method AddItemRectAt(p: nat, itemRect: Rect)
      requires p < |columns| && Valid()
      modifies columns[p]
      ensures columns == old(columns)
      ensures Valid()
      ensures ColumnStates() == old(ColumnStates())[p := AddRect(old(ColumnStates())[p], itemRect)]
    {
      ghost var before := ColumnStates();
      var column := columns[p];
      assert forall j :: 0 <= j < |columns| && j != p ==> columns[j].index != column.index;
      column.AddItemRect(itemRect);
      forall j | 0 <= j < |columns|
        ensures ColumnStates()[j] == before[p := AddRect(before[p], itemRect)][j]
      {
        if j != p {
          assert columns[j] != column;
        }
      }
    }

    /** One pass of the item loop of `prepareLayoutForSection`: the item goes into
        the preferred column, at its `maxY`, one column width wide and as tall as
        the width times the item's aspect ratio; its attributes are appended. */
    method PlaceItem(itemPath: Path, columnWidth: real, itemAspectRatio: real) returns (p: nat)
      requires |columns| > 0 && Valid()
      modifies columns
      modifies this`itemAttributesArray
      ensures columns == old(columns) && rect == old(rect) && itemCount == old(itemCount)
      ensures Valid()
      ensures p == PreferredIndex(old(ColumnStates()))
      ensures (ColumnStates(), itemAttributesArray) ==
              PlaceStep(rect.x, columnWidth, (old(ColumnStates()), old(itemAttributesArray)), itemPath, itemAspectRatio)
    {
      ghost var before := ColumnStates();
      p := PreferredColumnIndex();
      var column := columns[p];
      var itemRect := Rect(ColumnX(rect.x, column.index, columnWidth), column.maxY,
                           columnWidth, ItemHeight(columnWidth, itemAspectRatio));
      assert itemRect == ItemRect(rect.x, before[p], columnWidth, itemAspectRatio);
      AddItemRectAt(p, itemRect);
      itemAttributesArray := itemAttributesArray + [Attributes(itemPath, itemRect)];
      assert ColumnStates() == before[p := AddRect(before[p], itemRect)];
    }

    /** The item loop of `prepareLayoutForSection`: items 0 to `itemCount - 1` of
        section `index` are placed in turn, each at the size the delegate gives. */
    method PlaceItems(delegate: Option<Delegate>, index: nat, columnWidth: real)
      requires Valid() && (|columns| > 0 || itemCount == 0) && itemAttributesArray == []
      modifies columns, this`itemAttributesArray
      ensures columns == old(columns) && rect == old(rect) && itemCount == old(itemCount)
      ensures Valid()
      ensures (ColumnStates(), itemAttributesArray) ==
              LayoutItems(delegate, index, rect.x, columnWidth, old(ColumnStates()), itemCount)
    {
      ghost var start := ColumnStates();
      var itemIndex := 0;
      while itemIndex < itemCount
        invariant 0 <= itemIndex <= itemCount
        invariant Valid()
        invariant (ColumnStates(), itemAttributesArray) == LayoutItems(delegate, index, rect.x, columnWidth, start, itemIndex)
      {
        var itemPath := Path(index, itemIndex);
        var itemSize := ItemSizeAtIndexPath(delegate, itemPath);
        var itemAspectRatio := AspectRatio(itemSize);
        var p := PlaceItem(itemPath, columnWidth, itemAspectRatio);
        ghost var previous := itemIndex;
        itemIndex := itemIndex + 1;
        LayoutItemsStep(delegate, index, rect.x, columnWidth, start, previous, itemIndex);
      }
    }

    /** The last step of `prepareLayoutForSection`: the section becomes as tall
        as its tallest column. */
    method FitHeight()
      modifies this`rect
      ensures rect == old(rect).(height := SectionMaxY(ColumnStates()))
      ensures ColumnStates() == old(ColumnStates())
    {
      var maxY := MaxY();
      rect := rect.(height := maxY);
    }

    /** `columnWidth`: the section's width over its column count, floored. The
        method only delegates; `FlooredColumnWidth`'s own contract states the floor. */
    function ColumnWidth(): (w: real)
      reads this
      ensures w == FlooredColumnWidth(rect.width, |columns|)
    {
      FlooredColumnWidth(rect.width, |columns|)
    }

    /** `addColumns(count)`: appends `count` new columns numbered from 0. */
    method AddColumns(count: nat)
      modifies this
      ensures old(columns) == [] ==> Valid()
      ensures itemAttributesArray == old(itemAttributesArray) && itemCount == old(itemCount) && rect == old(rect)
      ensures |columns| == old(|columns|) + count && columns[..old(|columns|)] == old(columns)
      ensures forall j :: old(|columns|) <= j < |columns| ==> fresh(columns[j])
      ensures ColumnStates() == old(ColumnStates()) + InitialColumns(count)
    {
      ghost var start := columns;
      ghost var startStates := ColumnStates();
      var columnIndex := 0;
      while columnIndex < count
        invariant 0 <= columnIndex <= count
        invariant itemAttributesArray == old(itemAttributesArray) && itemCount == old(itemCount) && rect == old(rect)
        invariant |columns| == |start| + columnIndex && columns[..|start|] == start
        invariant forall j :: |start| <= j < |columns| ==> fresh(columns[j])
        invariant ColumnStates() == startStates + InitialColumns(columnIndex)
      {
        var column := new GridLayoutColumn(columnIndex);
        columns := columns + [column];
        columnIndex := columnIndex + 1;
      }
      assert start == [] ==> ColumnStates() == InitialColumns(count);
    }
  }

  class GridLayout {
    var sections: seq<GridLayoutSection>
    var delegate: Option<Delegate>

    constructor ()
      ensures sections == [] && delegate.None?
      ensures Valid()
    {
      sections := [];
      delegate := None;
    }

    /** No section object is listed twice, and every section is valid. */
    ghost predicate Valid()
      reads this, sections, ColumnObjects()
    {
      && (forall i, j :: 0 <= i < j < |sections| ==> sections[i] != sections[j])
      && (forall i :: 0 <= i < |sections| ==> sections[i].Valid())
    }

    /** The column objects of all sections. */
    ghost function ColumnObjects(): set<object>
      reads this, sections
    {
      set i, j | 0 <= i < |sections| && 0 <= j < |sections[i].columns| :: sections[i].columns[j]
    }

    /** Every section by value. */
    ghost function States(): (ss: seq<SectionState>)
      reads this, sections, ColumnObjects()
      ensures |ss| == |sections|
      ensures forall i :: 0 <= i < |sections| ==> ss[i] == sections[i].State()
    {
      seq(|sections|, i reads this, sections, ColumnObjects() requires 0 <= i < |sections| => sections[i].State())
    }

    /** `previousSectionRectForSectionWithIndex`: the zero rectangle for the first
        section, else the rectangle of the section before. */
    function PreviousSectionRectForSectionWithIndex(index: nat): (r: Rect)
      requires index <= |sections|
      reads this, sections
      ensures index == 0 ==> r == ZeroRect
      ensures index > 0 ==> r == sections[index - 1].rect
    {
      if index > 0 then sections[index - 1].rect else ZeroRect
    }

    /** `collectionViewContentSize`: zero without sections, else the collection
        view's width by the last section's `maxY` (the view is force-unwrapped). */
    method CollectionViewContentSize(view: Option<View>) returns (size: Size)
      requires sections != [] ==> view.Some?
      ensures sections == [] ==> size == Size(0.0, 0.0)
      ensures sections != [] ==>
                size == Size(view.value.frameWidth, SectionMaxY(sections[|sections| - 1].ColumnStates()))
    {
      var height := 0.0;
      var width := 0.0;
      if sections != [] {
        var lastSection := sections[|sections| - 1];
        height := lastSection.MaxY();
        width := view.value.frameWidth;
      }
      size := Size(width, height);
    }

    /** `prepareLayout`, from no sections: one fresh section per section of the
        collection view, then each laid out in turn. */
    method PrepareLayout(view: Option<View>)
      requires sections == []
      requires EverySectionHasColumnsForItems(delegate, view, NumberOfSections(view))
      modifies this`sections
      ensures Valid()
      ensures States() == PreparedSections(delegate, view, NumberOfSections(view))
    {
      var numberOfSections := NumberOfSections(view);
      if numberOfSections == 0 {
        return;
      }
      AddSections(view, numberOfSections);
      PrepareSections(view);
      assert forall i :: 0 <= i < |sections| ==> States()[i] == PreparedSections(delegate, view, numberOfSections)[i];
    }

    /** The first loop of `prepareLayout`: a fresh section per section of the
        collection view. */
    method AddSections(view: Option<View>, numberOfSections: nat)
      requires sections == []
      requires EverySectionHasColumnsForItems(delegate, view, numberOfSections)
      modifies this`sections
      ensures |sections| == numberOfSections
      ensures forall i :: 0 <= i < |sections| ==> fresh(sections[i])
      ensures LaidOut(view, [])
    {
      var index := 0;
      while index < numberOfSections
        invariant 0 <= index <= numberOfSections && |sections| == index
        invariant forall i :: 0 <= i < index ==> fresh(sections[i])
        invariant forall i, j :: 0 <= i < j < index ==> sections[i] != sections[j]
        invariant forall i :: 0 <= i < index ==> sections[i].State() == EmptySection(NumberOfItems(view, i))
      {
        var itemCount := NumberOfItems(view, index);
        var section := new GridLayoutSection(itemCount);
        sections := sections + [section];
        index := index + 1;
      }
    }

    /** The sections are distinct objects; those before `|prepared|` are valid and
        in the states `prepared` lists, and the others are as made. */
    ghost predicate LaidOut(view: Option<View>, prepared: seq<SectionState>)
      reads this, sections, ColumnObjects()
    {
      && |prepared| <= |sections|
      && (forall i, j :: 0 <= i < j < |sections| ==> sections[i] != sections[j])
      && (forall i :: 0 <= i < |prepared| ==> sections[i].Valid() && sections[i].State() == prepared[i])
      && (forall i :: |prepared| <= i < |sections| ==> sections[i].State() == EmptySection(NumberOfItems(view, i)))
    }

    /** The second loop of `prepareLayout`: every section laid out in turn. */
    method PrepareSections(view: Option<View>)
      requires delegate.Some? ==> view.Some?
      requires EverySectionHasColumnsForItems(delegate, view, |sections|)
      requires LaidOut(view, [])
      modifies set i | 0 <= i < |sections| :: sections[i]
      ensures sections == old(sections)
      ensures LaidOut(view, PreparedSections(delegate, view, |sections|))
    {
      var sectionIndex := 0;
      ghost var prepared: seq<SectionState> := [];
      while sectionIndex < |sections|
        invariant sectionIndex <= |sections|
        invariant prepared == PreparedSections(delegate, view, sectionIndex)
        invariant LaidOut(view, prepared)
      {
        prepared := PrepareSectionAt(view, sectionIndex, prepared);
        sectionIndex := sectionIndex + 1;
      }
    }

    /** One turn of the second loop of `prepareLayout`. */
    method PrepareSectionAt(view: Option<View>, index: nat, ghost prepared: seq<SectionState>)
        returns (ghost next: seq<SectionState>)
      requires index < |sections|
      requires delegate.Some? ==> view.Some?
      requires EverySectionHasColumnsForItems(delegate, view, |sections|)
      requires prepared == PreparedSections(delegate, view, index)
      requires LaidOut(view, prepared)
      modifies sections[index]
      ensures sections == old(sections)
      ensures next == PreparedSections(delegate, view, index + 1)
      ensures LaidOut(view, next)
    {
      var section := sections[index];
      PreparedSectionsStep(delegate, view, index);
      assert section.itemCount == NumberOfItems(view, index);
      assert PreviousSectionRectForSectionWithIndex(index) == PreviousRect(prepared);
      PrepareLayoutForSection(section, index, view);
      next := prepared + [section.State()];
      forall i | 0 <= i < |sections| && i != index
        ensures sections[i].State() == old(sections[i].State())
        ensures sections[i].Valid() == old(sections[i].Valid())
      {
        assert sections[i] != section;
      }
    }

    /** `prepareLayoutForSection` on a section that has not been laid out. The
        delegate is asked with the collection view force-unwrapped, and placing an
        item asserts that the section has a column. */
    method PrepareLayoutForSection(section: GridLayoutSection, index: nat, view: Option<View>)
      requires index < |sections| && sections[index] == section
      requires index > 0 ==> sections[index - 1] != section
      requires section.State() == EmptySection(section.itemCount)
      requires delegate.Some? ==> view.Some?
      requires HasColumnsForItems(delegate, index, section.itemCount)
      modifies section
      ensures section.Valid()
      ensures section.State() ==
                LayoutSection(delegate, view, index, old(section.itemCount), old(PreviousSectionRectForSectionWithIndex(index)))
    {
      var previousSectionRect := PreviousSectionRectForSectionWithIndex(index);
      section.rect := section.rect.(x := SectionInsetLeft);
      section.rect := section.rect.(y := previousSectionRect.MaxY() + SectionInsetTop);
      section.rect := section.rect.(width := FrameWidth(view));

      var columnCount := ColumnCountForSectionAtIndex(delegate, index);
      section.AddColumns(columnCount);
      var columnWidth := section.ColumnWidth();

      assert section.ColumnStates() == InitialColumns(columnCount) && section.itemAttributesArray == [];
      ghost var rect0 := section.rect;
      ghost var initial := section.ColumnStates();
      section.PlaceItems(delegate, index, columnWidth);
      assert section.rect == rect0 && initial == InitialColumns(columnCount);
      ghost var placed := LayoutItems(delegate, index, rect0.x, columnWidth, initial, section.itemCount);
      assert section.ColumnStates() == placed.0 && section.itemAttributesArray == placed.1;
      section.FitHeight();
      assert rect0 == Rect(SectionInsetLeft, previousSectionRect.MaxY() + SectionInsetTop, FrameWidth(view), 0.0);
      assert section.ColumnStates() == placed.0;
      assert section.itemAttributesArray == placed.1;
      assert section.rect == rect0.(height := SectionMaxY(placed.0));
      assert section.State() == SectionState(placed.0, placed.1, section.itemCount, rect0.(height := SectionMaxY(placed.0)));
      LayoutSectionPlaces(delegate, view, index, section.itemCount, previousSectionRect);
    }

    /** `layoutAttributesForElementsInRect`: the sections whose rectangle meets
        the query, each contributing its items whose frame meets the query. */
    method LayoutAttributesForElementsInRect(rect: Rect) returns (attributesArray: seq<Attributes>)
      ensures attributesArray == VisibleItems(rect, States())
    {
      attributesArray := [];
      var k := 0;
      while k < |sections|
        invariant 0 <= k <= |sections|
        invariant attributesArray == VisibleItems(rect, States()[..k])
      {
        assert States()[..k + 1][..k] == States()[..k];
        var section := sections[k];
        if Intersects(section.rect, rect) {
          attributesArray := attributesArray + Visible(rect, section.itemAttributesArray);
        }
        k := k + 1;
      }
      assert States()[..k] == States();
    }

    /** `shouldInvalidateLayoutForBoundsChange`: without a collection view, no;
        otherwise exactly when the width changes. */
    function ShouldInvalidateLayoutForBoundsChange(view: Option<View>, newBounds: Rect): (r: bool)
      ensures view.None? ==> !r
      ensures view.Some? ==> (r <==> newBounds.Width() != view.value.boundsWidth)
    {
      match view
      case Some(v) => newBounds.Width() != v.boundsWidth
      case None => false
    }

    /** `invalidateLayout`: all sections are dropped. */
    method InvalidateLayout()
      modifies this`sections
      ensures sections == []
      ensures Valid()
    {
      sections := [];
    }
  }
}
