/** CascadeLayout.swift: the value-based cascade layout. `prepareLayout` folds
    over the sections, and for each section folds over its items, putting each
    item into a shortest column and re-appending that column at the end. */
module Cascade {
  import opened Geometry
  import opened Functional
  import opened Host
  import opened Columns
  import opened Sections

  const DefaultColumnCount: nat := 1
  const DefaultItemSize: ItemSize := Size(600.0, 800.0)

  /** `columnCountForSectionAtIndex`: the delegate's answer when both a delegate
      and a collection view exist, the default otherwise. */
  function ColumnCountForSectionAtIndex(delegate: Option<Delegate>, view: Option<View>, index: nat): (n: nat)
    ensures delegate.Some? && view.Some? ==> n == delegate.value.numberOfColumns(index)
    ensures delegate.None? || view.None? ==> n == DefaultColumnCount
  {
    match (delegate, view)
    case (Some(d), Some(_)) => d.numberOfColumns(index)
    case _ => DefaultColumnCount
  }

  /** `itemSizeAtIndexPath`: the delegate's optional size method, else 600x800. */
  function ItemSizeAtIndexPath(delegate: Option<Delegate>, view: Option<View>, indexPath: Path): (s: ItemSize)
    ensures delegate.Some? && view.Some? && delegate.value.sizeForItem.Some? ==>
              s == delegate.value.sizeForItem.value(indexPath)
    ensures delegate.None? || view.None? || delegate.value.sizeForItem.None? ==> s == DefaultItemSize
  {
    match (delegate, view)
    case (Some(d), Some(_)) => OrElse(Map((f: Path -> ItemSize) => f(indexPath), d.sizeForItem), DefaultItemSize)
    case _ => DefaultItemSize
  }

  /** One step of the item fold: add the item to a shortest column, then
      `(replaceColumn(columns) <^> oldColumn <*> newColumn) ?? columns`. */
  function AddNextItem(columns: seq<Column>, indexPath: Path, itemSize: ItemSize): seq<Column>
  {
    var oldColumn := ShortestColumn(columns);
    var newColumn := Apply(Apply(Map(AddItemToColumn, oldColumn), Some(indexPath)), Some(itemSize));
    OrElse(Apply(Map((o: Column) => (n: Column) => ReplaceColumn(columns, o, n), oldColumn), newColumn), columns)
  }

  /** The body of the item fold of section `index`: item `itemIndex` is sized and
      put into a shortest column. */
  function ItemStep(delegate: Option<Delegate>, view: Option<View>, index: nat): (seq<Column>, nat) -> seq<Column>
  {
    (columns: seq<Column>, itemIndex: nat) =>
      var indexPath := Path(index, itemIndex);
      AddNextItem(columns, indexPath, ItemSizeAtIndexPath(delegate, view, indexPath))
  }

  /** `map(0..<numberOfColumns) { Column(index:width:minY:) }` */
  function InitialColumns(numberOfColumns: nat, containerWidth: real, minY: real): (r: seq<Column>)
    ensures |r| == numberOfColumns
    ensures forall i :: 0 <= i < numberOfColumns ==>
              r[i].index == i && r[i].width == containerWidth / numberOfColumns as real &&
              r[i].BottomEdge() == minY && r[i].attributes == []
  {
    seq(numberOfColumns, i requires 0 <= i < numberOfColumns =>
      NewColumn(i, containerWidth / numberOfColumns as real, minY))
  }

  /** `columnsForSectionAtIndex`: fresh columns start at the previous section's
      bottom edge, then the section's items are folded in. */
  function ColumnsForSectionAtIndex(delegate: Option<Delegate>, view: Option<View>, index: nat,
                                    numberOfItems: nat, previousSection: Option<Section>): seq<Column>
  {
    var previousBottomEdge := PreviousBottomEdge(previousSection);
    var numberOfColumns := ColumnCountForSectionAtIndex(delegate, view, index);
    var columns := InitialColumns(numberOfColumns, FrameWidth(view), previousBottomEdge);
    Reduce(numberOfItems, columns, ItemStep(delegate, view, index))
  }

  /** `previousSection?.bottomEdge ?? 0` */
  function PreviousBottomEdge(previousSection: Option<Section>): (y: real)
    ensures previousSection.None? ==> y == 0.0
    ensures previousSection.Some? ==> y == previousSection.value.BottomEdge()
  {
    OrElse(Map((s: Section) => s.BottomEdge(), previousSection), 0.0)
  }

  /** `sections.last` */
  function Last(sections: seq<Section>): (r: Option<Section>)
    ensures r.None? <==> sections == []
    ensures r.Some? ==> r.value == sections[|sections| - 1]
  {
    if sections == [] then None else Some(sections[|sections| - 1])
  }

  /** The body of the section fold of `prepareLayout`: section `index` is laid out
      below the last of `sections` and appended. */
  function SectionStep(delegate: Option<Delegate>, view: Option<View>): (step: (seq<Section>, nat) -> seq<Section>)
    ensures forall sections, i :: |step(sections, i)| == |sections| + 1 && step(sections, i)[..|sections|] == sections
  {
    (sections: seq<Section>, index: nat) =>
      var numberOfItems := NumberOfItems(view, index);
      var columns := ColumnsForSectionAtIndex(delegate, view, index, numberOfItems, Last(sections));
      sections + [Section(numberOfItems, columns)]
  }

  /** The section fold of `prepareLayout`, over the first `count` sections. */
  function PrepareSections(delegate: Option<Delegate>, view: Option<View>, count: nat): (r: seq<Section>)
    ensures |r| == count
  {
    ReducePrefix(SectionStep(delegate, view), count, 0);
    Reduce(count, [], SectionStep(delegate, view))
  }

  /** `map(sections) { $0.itemAttributes.filter { rect.intersects($0.frame) } }` */
  function VisibleBySection(sections: seq<Section>, rect: Rect): (r: seq<seq<Attributes>>)
    ensures |r| == |sections|
    ensures forall i :: 0 <= i < |sections| ==> r[i] == Visible(rect, sections[i].ItemAttributes())
  {
    seq(|sections|, i requires 0 <= i < |sections| => Visible(rect, sections[i].ItemAttributes()))
  }

  /** Filtering section by section and concatenating is filtering the
      concatenation of all sections' items. */
  lemma {:induction false} VisibleBySectionIsFilter(sections: seq<Section>, rect: Rect)
    ensures Flatten(VisibleBySection(sections, rect)) == Visible(rect, Flatten(ItemAttributesBySection(sections)))
  {
    if sections != [] {
      var prefix := sections[..|sections| - 1];
      VisibleBySectionIsFilter(prefix, rect);
      assert VisibleBySection(sections, rect)[..|prefix|] == VisibleBySection(prefix, rect);
      assert ItemAttributesBySection(sections)[..|prefix|] == ItemAttributesBySection(prefix);
      VisibleAppend(rect, Flatten(ItemAttributesBySection(prefix)), sections[|prefix|].ItemAttributes());
    }
  }

  /** An item is in the concatenated query result exactly when some section holds
      it and its frame meets the query. */
  lemma VisibleBySectionMembership(sections: seq<Section>, rect: Rect)
    ensures forall a :: a in Flatten(VisibleBySection(sections, rect)) <==>
              exists i :: 0 <= i < |sections| && a in sections[i].ItemAttributes() && Intersects(rect, a.frame)
  {
    var v := VisibleBySection(sections, rect);
    forall a ensures a in Flatten(v) <==>
                     exists i :: 0 <= i < |sections| && a in sections[i].ItemAttributes() && Intersects(rect, a.frame) {
      FlattenMembershipAt(v, a);
      if a in Flatten(v) {
        var i :| 0 <= i < |v| && a in v[i];
        assert a in sections[i].ItemAttributes() && Intersects(rect, a.frame);
      }
      if exists i :: 0 <= i < |sections| && a in sections[i].ItemAttributes() && Intersects(rect, a.frame) {
        var i :| 0 <= i < |sections| && a in sections[i].ItemAttributes() && Intersects(rect, a.frame);
        assert a in v[i];
      }
    }
  }

  class CascadeLayout {
    var delegate: Option<Delegate>
    var sections: seq<Section>

    constructor ()
      ensures delegate.None? && sections == []
    {
      delegate := None;
      sections := [];
    }

    /** `collectionViewContentSize`: the frame width by the tallest section's
        bottom edge, or zero without a collection view or without sections. */
    function CollectionViewContentSize(view: Option<View>): (size: Size)
      reads this
      ensures view.None? || sections == [] ==> size == Size(0.0, 0.0)
      ensures view.Some? && sections != [] ==>
                size.width == view.value.frameWidth &&
                (exists s :: s in sections && size.height == s.BottomEdge()) &&
                forall s :: s in sections ==> s.BottomEdge() <= size.height
    {
      var makeSize := (w: real) => (h: real) => Size(w, h);
      var width := Map((v: View) => v.frameWidth, view);
      var height := Map((s: Section) => s.BottomEdge(), TallestSection(sections));
      OrElse(Apply(Map(makeSize, width), height), Size(0.0, 0.0))
    }

    /** `prepareLayout`: the sections are rebuilt from the inputs alone, so a
        second call with the same inputs gives the same sections. */
    method PrepareLayout(view: Option<View>)
      modifies this`sections
      ensures sections == PrepareSections(delegate, view, NumberOfSections(view))
    {
      sections := PrepareSections(delegate, view, NumberOfSections(view));
    }

    /** `layoutAttributesForElementsInRect`: per section, the items whose frame
        meets the query, concatenated in section order; that is, all sections'
        items in order with those missing the query left out. */
    function LayoutAttributesForElementsInRect(rect: Rect): (r: seq<Attributes>)
      reads this
      ensures r == Visible(rect, Flatten(ItemAttributesBySection(sections)))
      ensures forall a :: a in r <==>
                exists i :: 0 <= i < |sections| && a in sections[i].ItemAttributes() && Intersects(rect, a.frame)
    {
      VisibleBySectionIsFilter(sections, rect);
      VisibleBySectionMembership(sections, rect);
      Flatten(VisibleBySection(sections, rect))
    }

    /** `collectionView?.bounds.width != .Some(newBounds.width)` */
    function ShouldInvalidateLayoutForBoundsChange(view: Option<View>, newBounds: Rect): (r: bool)
      ensures view.None? ==> r
      ensures view.Some? ==> (r <==> newBounds.Width() != view.value.boundsWidth)
    {
      match view
      case Some(v) => v.boundsWidth != newBounds.Width()
      case None => true
    }

    method InvalidateLayout()
      modifies this`sections
      ensures sections == []
    {
      sections := [];
    }
  }

  // ----- Properties of the item fold -----

  /** The multiset of index paths held by a list of columns. */
  function AllPaths(columns: seq<Column>): multiset<Path>
  {
    multiset(PathsOf(Flatten(AttributesOf(columns))))
  }

  lemma AllPathsAppend(a: seq<Column>, b: seq<Column>)
    ensures AllPaths(a + b) == AllPaths(a) + AllPaths(b)
  {
    AttributesOfAppend(a, b);
    FlattenAppend(AttributesOf(a), AttributesOf(b));
    PathsOfAppend(Flatten(AttributesOf(a)), Flatten(AttributesOf(b)));
  }

  lemma AllPathsSingleton(c: Column)
    ensures AllPaths([c]) == multiset(PathsOf(c.attributes))
  {
    assert AttributesOf([c]) == [c.attributes];
    FlattenSingleton(c.attributes);
  }

  function Range(n: nat): (r: seq<int>)
    ensures |r| == n && forall i :: 0 <= i < n ==> r[i] == i
  {
    seq(n, i requires 0 <= i < n => i)
  }

  /** What every fold step keeps: the indices 0..n-1 once each, the common
      width, every column's bottom edge at the bottom of its last item (or at the
      section's start `minY` while it holds none) and never less than `minY`,
      and, for a non-negative width, every frame spanning its column's slot. */
  ghost predicate ColumnsInvariant(columns: seq<Column>, n: nat, width: real, minY: real)
  {
    && |columns| == n
    && DistinctIndices(columns)
    && multiset(Indices(columns)) == multiset(Range(n))
    && (forall j :: 0 <= j < |columns| ==>
          && columns[j].width == width
          && BottomOfItems(columns[j], minY)
          && (0.0 <= width ==> SpansSlot(columns[j])))
  }

  /** `columns` with the column at `i` taken out and `m` appended at the end. */
  function MoveToEnd(columns: seq<Column>, i: nat, m: Column): (r: seq<Column>)
    requires i < |columns|
    ensures |r| == |columns| && r[|r| - 1] == m
    ensures forall j :: 0 <= j < |r| - 1 ==> r[j] == columns[if j < i then j else j + 1]
  {
    columns[..i] + columns[i + 1..] + [m]
  }

  /** Replacing a column by one with the same index keeps the indices distinct. */
  lemma MoveToEndDistinct(columns: seq<Column>, i: nat, m: Column)
    requires i < |columns| && m.index == columns[i].index && DistinctIndices(columns)
    ensures DistinctIndices(MoveToEnd(columns, i, m))
  {
    var r := MoveToEnd(columns, i, m);
    forall j, k | 0 <= j < k < |r| ensures r[j].index != r[k].index {
      var j' := if j < i then j else j + 1;
      if k == |r| - 1 {
        assert r[j] == columns[j'];
      } else {
        var k' := if k < i then k else k + 1;
        assert r[j] == columns[j'] && r[k] == columns[k'];
      }
    }
  }

  /** Replacing a column by one with the same index keeps the multiset of indices. */
  lemma MoveToEndIndices(columns: seq<Column>, i: nat, m: Column)
    requires i < |columns| && m.index == columns[i].index
    ensures multiset(Indices(MoveToEnd(columns, i, m))) == multiset(Indices(columns))
  {
    var before, after := columns[..i], columns[i + 1..];
    assert columns == before + [columns[i]] + after;
    IndicesAppend(before + [columns[i]], after);
    IndicesAppend(before, [columns[i]]);
    IndicesAppend(before + after, [m]);
    IndicesAppend(before, after);
    assert Indices([columns[i]]) == Indices([m]);
    MultisetRotate(Indices(before), m.index, Indices(after));
  }

  lemma MultisetRotate<T>(a: seq<T>, x: T, b: seq<T>)
    ensures multiset(a + [x] + b) == multiset(a + b + [x])
  {
  }

  lemma IndicesAppend(a: seq<Column>, b: seq<Column>)
    ensures Indices(a + b) == Indices(a) + Indices(b)
  {
  }

  /** Replacing a column swaps its paths for the new column's. */
  lemma MoveToEndPaths(columns: seq<Column>, i: nat, m: Column)
    requires i < |columns|
    ensures AllPaths(MoveToEnd(columns, i, m)) + AllPaths([columns[i]]) == AllPaths(columns) + AllPaths([m])
  {
    var before, after := columns[..i], columns[i + 1..];
    assert columns == before + [columns[i]] + after;
    AllPathsAppend(before + [columns[i]], after);
    AllPathsAppend(before, [columns[i]]);
    AllPathsAppend(before + after, [m]);
    AllPathsAppend(before, after);
  }

  /** With no column there is nowhere to put an item, so it is dropped (`?? columns`). */
  lemma AddNextItemWithoutColumns(indexPath: Path, itemSize: ItemSize)
    ensures AddNextItem([], indexPath, itemSize) == []
  {
  }

  /** With columns, a fold step takes out a shortest column and appends that column
      with the item added. */
  lemma AddNextItemStep(columns: seq<Column>, indexPath: Path, itemSize: ItemSize)
    requires columns != [] && DistinctIndices(columns)
    ensures exists i :: 0 <= i < |columns| &&
              (forall c :: c in columns ==> columns[i].BottomEdge() <= c.BottomEdge()) &&
              AddNextItem(columns, indexPath, itemSize) ==
                MoveToEnd(columns, i, columns[i].AddItemWithSize(itemSize, indexPath))
  {
    var m := ShortestColumn(columns).value;
    var i :| 0 <= i < |columns| && columns[i] == m;
    FindMember(columns, i);
    assert AddNextItem(columns, indexPath, itemSize) ==
             MoveToEnd(columns, i, columns[i].AddItemWithSize(itemSize, indexPath));
  }

  /** Putting an item into column `i` keeps the invariant. */
  lemma AddToColumnInvariant(columns: seq<Column>, n: nat, width: real, minY: real, i: nat,
                             indexPath: Path, itemSize: ItemSize)
    requires ColumnsInvariant(columns, n, width, minY) && i < |columns|
    ensures ColumnsInvariant(MoveToEnd(columns, i, columns[i].AddItemWithSize(itemSize, indexPath)), n, width, minY)
  {
    var m' := columns[i].AddItemWithSize(itemSize, indexPath);
    MoveToEndDistinct(columns, i, m');
    MoveToEndIndices(columns, i, m');
    AddItemKeepsBottom(columns[i], minY, itemSize, indexPath);
    if 0.0 <= width {
      AddItemKeepsSlot(columns[i], itemSize, indexPath);
    }
  }

  /** Putting an item into column `i` adds exactly the item's path. */
  lemma AddToColumnPaths(columns: seq<Column>, i: nat, indexPath: Path, itemSize: ItemSize)
    requires i < |columns|
    ensures AllPaths(MoveToEnd(columns, i, columns[i].AddItemWithSize(itemSize, indexPath))) ==
              AllPaths(columns) + multiset{indexPath}
  {
    var m := columns[i];
    var a := Attributes(indexPath, m.ItemRect(itemSize));
    var m' := m.AddItemWithSize(itemSize, indexPath);
    var r := MoveToEnd(columns, i, m');
    var before := multiset(PathsOf(m.attributes));
    MoveToEndPaths(columns, i, m');
    AllPathsSingleton(m);
    AllPathsSingleton(m');
    PathsOfAppend(m.attributes, [a]);
    assert PathsOf([a]) == [indexPath];
    assert AllPaths([m']) == before + multiset{indexPath};
    MultisetCancel(AllPaths(r), AllPaths(columns) + multiset{indexPath}, before);
  }

  lemma MultisetAddAssociative<T>(a: multiset<T>, b: multiset<T>, c: multiset<T>)
    ensures (a + b) + c == a + (b + c)
  {
    forall t ensures ((a + b) + c)[t] == (a + (b + c))[t] {
    }
  }

  lemma MultisetCancel<T>(x: multiset<T>, y: multiset<T>, p: multiset<T>)
    requires x + p == y + p
    ensures x == y
  {
    forall t ensures x[t] == y[t] {
      assert (x + p)[t] == (y + p)[t];
    }
  }

  /** A fold step keeps the column count, the column indices and widths, and adds
      exactly the new item's path. */
  lemma AddNextItemPreserves(columns: seq<Column>, n: nat, width: real, minY: real, indexPath: Path, itemSize: ItemSize)
    requires n > 0 && ColumnsInvariant(columns, n, width, minY)
    ensures ColumnsInvariant(AddNextItem(columns, indexPath, itemSize), n, width, minY)
    ensures AllPaths(AddNextItem(columns, indexPath, itemSize)) == AllPaths(columns) + multiset{indexPath}
  {
    AddNextItemStep(columns, indexPath, itemSize);
    var i :| 0 <= i < |columns| &&
             (forall c :: c in columns ==> columns[i].BottomEdge() <= c.BottomEdge()) &&
             AddNextItem(columns, indexPath, itemSize) ==
               MoveToEnd(columns, i, columns[i].AddItemWithSize(itemSize, indexPath));
    AddToColumnInvariant(columns, n, width, minY, i, indexPath, itemSize);
    AddToColumnPaths(columns, i, indexPath, itemSize);
  }

  /** One step of the item fold keeps the invariant and adds the item's path. */
  lemma ItemStepPreserves(delegate: Option<Delegate>, view: Option<View>, index: nat,
                          columns: seq<Column>, n: nat, width: real, minY: real, k: nat)
    requires n > 0 && ColumnsInvariant(columns, n, width, minY)
    ensures ColumnsInvariant(ItemStep(delegate, view, index)(columns, k), n, width, minY)
    ensures AllPaths(ItemStep(delegate, view, index)(columns, k)) == AllPaths(columns) + multiset{Path(index, k)}
  {
    var indexPath := Path(index, k);
    AddNextItemPreserves(columns, n, width, minY, indexPath, ItemSizeAtIndexPath(delegate, view, indexPath));
  }

  /** The item fold over a section with at least one column keeps the columns'
      invariant and adds each item path of the section exactly once. */
  lemma {:induction false} ItemFoldPreserves(delegate: Option<Delegate>, view: Option<View>, index: nat,
                                             columns: seq<Column>, n: nat, width: real, minY: real, count: nat)
    requires n > 0 && ColumnsInvariant(columns, n, width, minY)
    ensures var r := Reduce(count, columns, ItemStep(delegate, view, index));
            ColumnsInvariant(r, n, width, minY) && AllPaths(r) == AllPaths(columns) + multiset(ItemPaths(index, count))
  {
    if count == 0 {
      assert ItemPaths(index, 0) == [];
    } else {
      ItemFoldPreserves(delegate, view, index, columns, n, width, minY, count - 1);
      var prev := Reduce(count - 1, columns, ItemStep(delegate, view, index));
      ItemPathsSnoc(index, count - 1);
      ItemStepPreserves(delegate, view, index, prev, n, width, minY, count - 1);
      var p := multiset{Path(index, count - 1)};
      assert multiset(ItemPaths(index, count)) == multiset(ItemPaths(index, count - 1)) + p;
      MultisetAddAssociative(AllPaths(columns), multiset(ItemPaths(index, count - 1)), p);
    }
  }

  lemma ItemStepWithoutColumns(delegate: Option<Delegate>, view: Option<View>, index: nat, k: nat)
    ensures ItemStep(delegate, view, index)([], k) == []
  {
    AddNextItemWithoutColumns(Path(index, k), ItemSizeAtIndexPath(delegate, view, Path(index, k)));
  }

  /** With zero columns every item is silently dropped. */
  lemma ItemFoldWithoutColumns(delegate: Option<Delegate>, view: Option<View>, index: nat, count: nat)
    ensures Reduce(count, [], ItemStep(delegate, view, index)) == []
  {
    var step := ItemStep(delegate, view, index);
    forall cs: seq<Column>, k: nat | 0 <= k < count && cs == [] ensures step(cs, k) == [] {
      ItemStepWithoutColumns(delegate, view, index, k);
    }
    ReduceInvariant(count, [], step, (cs: seq<Column>, k: nat) => cs == []);
  }

  /** Fresh columns satisfy the invariant and hold no item. */
  lemma InitialColumnsInvariant(n: nat, containerWidth: real, minY: real)
    requires n > 0
    ensures ColumnsInvariant(InitialColumns(n, containerWidth, minY), n, containerWidth / n as real, minY)
    ensures AllPaths(InitialColumns(n, containerWidth, minY)) == multiset{}
  {
    var cs := InitialColumns(n, containerWidth, minY);
    assert Indices(cs) == Range(n);
    forall j | 0 <= j < n
      ensures BottomOfItems(cs[j], minY) && (0.0 <= containerWidth / n as real ==> SpansSlot(cs[j]))
    {
      assert cs[j] == NewColumn(j, containerWidth / n as real, minY);
    }
    FlattenOfEmpties(AttributesOf(cs));
  }

  // ----- Properties of prepareLayout -----

  /** The section fold appends one section per step, so its first `k` steps
      give its first `k` sections. */
  lemma PrepareSectionsPrefix(delegate: Option<Delegate>, view: Option<View>, count: nat, k: nat)
    requires k <= count
    ensures |PrepareSections(delegate, view, count)| == count
    ensures PrepareSections(delegate, view, k) == PrepareSections(delegate, view, count)[..k]
  {
    ReducePrefix(SectionStep(delegate, view), count, k);
  }

  /** The section fold lays out section `i` below the last of the first `i`. */
  lemma PrepareSectionsStep(delegate: Option<Delegate>, view: Option<View>, i: nat)
    ensures var before := PrepareSections(delegate, view, i);
            var items := NumberOfItems(view, i);
            PrepareSections(delegate, view, i + 1) ==
              before + [Section(items, ColumnsForSectionAtIndex(delegate, view, i, items, Last(before)))]
  {
  }

  /** Section `i` of a prepared layout is the item fold over fresh columns placed
      at the previous section's bottom edge. */
  lemma PreparedSectionFold(delegate: Option<Delegate>, view: Option<View>, count: nat, i: nat)
    requires i < count
    ensures var sections := PrepareSections(delegate, view, count);
            var n := ColumnCountForSectionAtIndex(delegate, view, i);
            var items := NumberOfItems(view, i);
            var minY := if i == 0 then 0.0 else sections[i - 1].BottomEdge();
            && |sections| == count
            && sections[i] == Section(items, Reduce(items, InitialColumns(n, FrameWidth(view), minY), ItemStep(delegate, view, i)))
  {
    var sections := PrepareSections(delegate, view, count);
    var before := PrepareSections(delegate, view, i);
    var items := NumberOfItems(view, i);
    var minY := if i == 0 then 0.0 else sections[i - 1].BottomEdge();
    var next := PrepareSections(delegate, view, i + 1);
    var section := Section(items, ColumnsForSectionAtIndex(delegate, view, i, items, Last(before)));
    PrepareSectionsPrefix(delegate, view, count, i + 1);
    PrepareSectionsStep(delegate, view, i);
    assert next == before + [section];
    assert next[i] == section;
    assert sections[i] == next[i];
    assert PreviousBottomEdge(Last(before)) == minY by {
      PrepareSectionsPrefix(delegate, view, count, i);
      if i > 0 {
        assert Last(before) == Some(sections[i - 1]);
      }
    }
    ColumnsForSectionFold(delegate, view, i, items, Last(before));
  }

  /** `columnsForSectionAtIndex` is the item fold over fresh columns at the
      previous section's bottom edge. */
  lemma ColumnsForSectionFold(delegate: Option<Delegate>, view: Option<View>, index: nat,
                              numberOfItems: nat, previousSection: Option<Section>)
    ensures ColumnsForSectionAtIndex(delegate, view, index, numberOfItems, previousSection) ==
            Reduce(numberOfItems, InitialColumns(ColumnCountForSectionAtIndex(delegate, view, index), FrameWidth(view),
                                                 PreviousBottomEdge(previousSection)), ItemStep(delegate, view, index))
  {
  }

  /** Section `i` of a prepared layout: its item count; with a column count n > 0, its
      columns (n of them, indices 0..n-1, each of width containerWidth / n, with no bottom
      edge less than the previous section's) and its item paths (each of 0..items-1 once);
      with no column, no columns and no items. */
  lemma PreparedSection(delegate: Option<Delegate>, view: Option<View>, count: nat, i: nat)
    requires i < count
    ensures var sections := PrepareSections(delegate, view, count);
            var n := ColumnCountForSectionAtIndex(delegate, view, i);
            var items := NumberOfItems(view, i);
            var minY := if i == 0 then 0.0 else sections[i - 1].BottomEdge();
            && |sections| == count
            && sections[i].numberOfItems == items
            && (n > 0 ==> && ColumnsInvariant(sections[i].columns, n, FrameWidth(view) / n as real, minY)
                          && multiset(PathsOf(sections[i].ItemAttributes())) == multiset(ItemPaths(i, items))
                          && sections[i].BottomEdge() >= minY)
            && (n == 0 ==> sections[i].columns == [] && sections[i].ItemAttributes() == [])
  {
    PreparedSectionFold(delegate, view, count, i);
    var sections := PrepareSections(delegate, view, count);
    var n := ColumnCountForSectionAtIndex(delegate, view, i);
    var items := NumberOfItems(view, i);
    var minY := if i == 0 then 0.0 else sections[i - 1].BottomEdge();
    var initial := InitialColumns(n, FrameWidth(view), minY);
    var section := sections[i];
    if n > 0 {
      InitialColumnsInvariant(n, FrameWidth(view), minY);
      ItemFoldPreserves(delegate, view, i, initial, n, FrameWidth(view) / n as real, minY, items);
      BottomEdgeIsTallest(section);
      assert section.columns[0].BottomEdge() >= minY;
    } else {
      assert initial == [];
      ItemFoldWithoutColumns(delegate, view, i, items);
      assert AttributesOf(section.columns) == [];
    }
  }

  /** Every item of a section with columns is laid out exactly once. */
  lemma EveryItemExactlyOnce(delegate: Option<Delegate>, view: Option<View>, count: nat, i: nat, p: Path)
    requires i < count && ColumnCountForSectionAtIndex(delegate, view, i) > 0
    ensures multiset(PathsOf(PrepareSections(delegate, view, count)[i].ItemAttributes()))[p] ==
              if p.section == i && p.item < NumberOfItems(view, i) then 1 else 0
  {
    PreparedSection(delegate, view, count, i);
    var ps := ItemPaths(i, NumberOfItems(view, i));
    ItemPathsCount(i, NumberOfItems(view, i), p);
  }

  /** `sections.map { $0.itemAttributes }` */
  function ItemAttributesBySection(sections: seq<Section>): (r: seq<seq<Attributes>>)
    ensures |r| == |sections|
    ensures forall i :: 0 <= i < |sections| ==> r[i] == sections[i].ItemAttributes()
  {
    seq(|sections|, i requires 0 <= i < |sections| => sections[i].ItemAttributes())
  }

  /** The query returns an attribute whose frame meets the query as often as the
      sections hold it together, and no other attribute. */
  lemma QueryCount(layout: CascadeLayout, rect: Rect, a: Attributes)
    ensures multiset(layout.LayoutAttributesForElementsInRect(rect))[a] ==
              if Intersects(rect, a.frame) then multiset(Flatten(ItemAttributesBySection(layout.sections)))[a] else 0
  {
    VisibleCount(rect, Flatten(ItemAttributesBySection(layout.sections)), a);
  }

  /** A query that meets every item frame returns every section's items, in order. */
  lemma QueryCoveringEverything(layout: CascadeLayout, rect: Rect)
    requires forall i, a :: 0 <= i < |layout.sections| && a in layout.sections[i].ItemAttributes() ==> Intersects(rect, a.frame)
    ensures layout.LayoutAttributesForElementsInRect(rect) == Flatten(ItemAttributesBySection(layout.sections))
  {
    var all := ItemAttributesBySection(layout.sections);
    var visible := VisibleBySection(layout.sections, rect);
    forall i | 0 <= i < |layout.sections| ensures visible[i] == all[i] {
      VisibleAll(rect, all[i]);
    }
    assert visible == all;
  }
}
