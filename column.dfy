/** Column.swift: an immutable column of the cascade layout. Adding an item
    builds a new column whose frame grows by the item's rectangle. */
module Columns {
  import opened Geometry
  import opened Functional

  datatype Column = Column(index: int, frame: Rect, width: real, attributes: seq<Attributes>) {

    /** `bottomEdge`: the bottom of the column's frame. */
    function BottomEdge(): real { frame.MaxY() }

    /** `addItemWithSize(_:atIndexPath:)`: the item goes at the column's left edge,
        directly below its bottom edge, with the floored column width and a height
        kept in the item's aspect ratio. */
    function AddItemWithSize(itemSize: ItemSize, indexPath: Path): (r: Column)
      ensures r.index == index && r.width == width
      ensures r.attributes == attributes + [Attributes(indexPath, ItemRect(itemSize))]
      ensures r.BottomEdge() == BottomEdge() + Max(0.0, ItemRect(itemSize).height)
      ensures r.frame.MinY() == Min(frame.MinY(), ItemRect(itemSize).MinY())
      ensures r.frame.MinX() == Min(frame.MinX(), frame.MinX() + Floor(width))
      ensures r.frame.MaxX() == Max(frame.MaxX(), frame.MinX() + Floor(width))
    {
      var itemRect := ItemRect(itemSize);
      Column(index, Union(frame, itemRect), width, attributes + [Attributes(indexPath, itemRect)])
    }

    /** The rectangle `addItemWithSize` gives an item of the given size. */
    function ItemRect(itemSize: ItemSize): (r: Rect)
      ensures r.x == frame.MinX() && r.y == BottomEdge()
      ensures r.width == Floor(width)
      ensures r.height == Floor(width * AspectRatio(itemSize))
    {
      Rect(frame.MinX(), BottomEdge(), Floor(width), Floor(width * AspectRatio(itemSize)))
    }
  }

  /** `Column(index:width:minY:)`: an empty column of zero height starting at `minY`. */
  function NewColumn(index: int, width: real, minY: real): (c: Column)
    ensures c.index == index && c.width == width && c.attributes == []
    ensures c.BottomEdge() == minY && c.frame.MinY() == minY
    ensures c.frame.x == index as real * width && c.frame.width == width
    ensures BottomOfItems(c, minY) && (0.0 <= width ==> SpansSlot(c))
  {
    Column(index, Rect(index as real * width, minY, width, 0.0), width, [])
  }

  /** The invariant of a column made by `Column(index:width:minY:)` and grown by
      `addItemWithSize`: its bottom edge is never less than the start `minY`; it
      is `minY` while the column holds nothing and the bottom of the last item
      otherwise; and no item reaches below it. */
  ghost predicate BottomOfItems(c: Column, minY: real) {
    && minY <= c.BottomEdge()
    && (c.attributes == [] ==> c.BottomEdge() == minY)
    && (c.attributes != [] ==> c.BottomEdge() == c.attributes[|c.attributes| - 1].frame.MaxY())
    && (forall a :: a in c.attributes ==> a.frame.MaxY() <= c.BottomEdge())
  }

  /** The frame spans the column's slot across: from `index` widths to one
      width further. */
  ghost predicate SpansSlot(c: Column) {
    c.frame.MinX() == c.index as real * c.width && c.frame.MaxX() == c.frame.MinX() + c.width
  }

  /** Adding an item keeps the bottom edge at the bottom of the last item. */
  lemma AddItemKeepsBottom(c: Column, minY: real, itemSize: ItemSize, indexPath: Path)
    requires BottomOfItems(c, minY)
    ensures BottomOfItems(c.AddItemWithSize(itemSize, indexPath), minY)
  {
    var rect := c.ItemRect(itemSize);
    assert rect.MaxY() >= c.BottomEdge();
  }

  /** A column of non-negative width keeps its slot across, so every later item
      is placed at the same left edge. */
  lemma AddItemKeepsSlot(c: Column, itemSize: ItemSize, indexPath: Path)
    requires 0.0 <= c.width && SpansSlot(c)
    ensures SpansSlot(c.AddItemWithSize(itemSize, indexPath))
    ensures c.AddItemWithSize(itemSize, indexPath).frame.MinX() == c.frame.MinX()
  {
    assert Floor(c.width) <= c.width;
  }

  /** The `==` of Column.swift: only the index and the bottom edge take part. */
  predicate SameColumn(a: Column, b: Column) {
    a.index == b.index && a.BottomEdge() == b.BottomEdge()
  }

  lemma SameColumnIsEquivalence(a: Column, b: Column, c: Column)
    ensures SameColumn(a, a)
    ensures SameColumn(a, b) ==> SameColumn(b, a)
    ensures SameColumn(a, b) && SameColumn(b, c) ==> SameColumn(a, c)
  {
  }

  /** Two columns that differ only in their attributes and in the part of the
      frame above the bottom edge are `==`. */
  lemma SameColumnIgnoresContents(a: Column, b: Column)
    requires a.index == b.index && a.frame.MaxY() == b.frame.MaxY()
    ensures SameColumn(a, b)
  {
  }

  /** `sorted(columns) { $0.bottomEdge < $1.bottomEdge }.first`. The sort is not
      promised to be stable, so only minimality is stated; this model keeps the
      earliest minimum. */
  function ShortestColumn(columns: seq<Column>): (r: Option<Column>)
    ensures r.None? <==> columns == []
    ensures r.Some? ==> r.value in columns
    ensures r.Some? ==> forall c :: c in columns ==> r.value.BottomEdge() <= c.BottomEdge()
  {
    if columns == [] then None
    else
      match ShortestColumn(columns[1..])
      case None => Some(columns[0])
      case Some(m) => if m.BottomEdge() < columns[0].BottomEdge() then Some(m) else Some(columns[0])
  }

  /** `sorted(columns) { $0.bottomEdge > $1.bottomEdge }.first`: a tallest column. */
  function TallestColumn(columns: seq<Column>): (r: Option<Column>)
    ensures r.None? <==> columns == []
    ensures r.Some? ==> r.value in columns
    ensures r.Some? ==> forall c :: c in columns ==> c.BottomEdge() <= r.value.BottomEdge()
  {
    if columns == [] then None
    else
      match TallestColumn(columns[1..])
      case None => Some(columns[0])
      case Some(m) => if m.BottomEdge() > columns[0].BottomEdge() then Some(m) else Some(columns[0])
  }

  /** The curried `addItemToColumn(column)(indexPath)(size)`. It only delegates;
      `Column.AddItemWithSize`'s own contract states what adding an item does. */
  function AddItemToColumn(column: Column): (add: Path -> ItemSize -> Column)
    ensures forall p, s :: add(p)(s) == column.AddItemWithSize(s, p)
  {
    (p: Path) => (s: ItemSize) => column.AddItemWithSize(s, p)
  }

  /** Swift's `find(columns, column)`, which compares with `==` (SameColumn). */
  function Find(columns: seq<Column>, column: Column): (r: Option<nat>)
    ensures r.None? ==> forall j :: 0 <= j < |columns| ==> !SameColumn(columns[j], column)
    ensures r.Some? ==> r.value < |columns| && SameColumn(columns[r.value], column)
    ensures r.Some? ==> forall j :: 0 <= j < r.value ==> !SameColumn(columns[j], column)
  {
    if columns == [] then None
    else if SameColumn(columns[0], column) then Some(0)
    else Map((i: nat) => i + 1, Find(columns[1..], column))
  }

  /** `replaceColumn(columns)(oldColumn)(newColumn)`: drop the first column `==` to
      `oldColumn`, if any, then append `newColumn` at the end. */
  function ReplaceColumn(columns: seq<Column>, oldColumn: Column, newColumn: Column): (r: seq<Column>)
    ensures Find(columns, oldColumn).None? ==> r == columns + [newColumn]
    ensures Find(columns, oldColumn).Some? ==>
              var i := Find(columns, oldColumn).value;
              r == columns[..i] + columns[i + 1..] + [newColumn]
    ensures (exists j :: 0 <= j < |columns| && SameColumn(columns[j], oldColumn)) ==> |r| == |columns|
  {
    var remaining :=
      match Find(columns, oldColumn)
      case Some(i) => columns[..i] + columns[i + 1..]
      case None => columns;
    remaining + [newColumn]
  }

  /** `columns.map { $0.attributes }` */
  function AttributesOf(columns: seq<Column>): (r: seq<seq<Attributes>>)
    ensures |r| == |columns|
    ensures forall i :: 0 <= i < |columns| ==> r[i] == columns[i].attributes
  {
    seq(|columns|, i requires 0 <= i < |columns| => columns[i].attributes)
  }

  lemma AttributesOfAppend(a: seq<Column>, b: seq<Column>)
    ensures AttributesOf(a + b) == AttributesOf(a) + AttributesOf(b)
  {
  }

  function Indices(columns: seq<Column>): (r: seq<int>)
    ensures |r| == |columns|
    ensures forall i :: 0 <= i < |columns| ==> r[i] == columns[i].index
  {
    seq(|columns|, i requires 0 <= i < |columns| => columns[i].index)
  }

  predicate DistinctIndices(columns: seq<Column>) {
    forall i, j :: 0 <= i < j < |columns| ==> columns[i].index != columns[j].index
  }

  /** With distinct indices, `find` locates a member of the list at its own position. */
  lemma FindMember(columns: seq<Column>, i: nat)
    requires DistinctIndices(columns) && i < |columns|
    ensures Find(columns, columns[i]) == Some(i)
  {
    var r := Find(columns, columns[i]);
    assert SameColumn(columns[i], columns[i]);
  }
}
