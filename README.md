# Cascade layouts in Dafny

This project models the two collection-view layouts of thoughtbot's Cascade.
Both arrange the items of every section in columns, each new item going to
a shortest column.

- **The grid layout** (`Source/Masonry.swift`) is imperative. A `GridLayout`
  owns one `GridLayoutSection` object per section, and each section owns one
  `GridLayoutColumn` object per column.
  - `prepareLayout` makes the sections, then lays each one out in turn.
  - A section starts below the previous section's rectangle and gets the
    delegate's number of columns.
  - Each item goes, in item order, to the first column of least `maxY`. It is
    placed at that column's slot and is one floored column width wide.
  - The model keeps these as Dafny classes (`masonry.dfy`). Their methods are
    proved against value functions on column and section states.
  - The properties of those functions are lemmas (`masonry_properties.dfy`).
- **The value layout** is built from immutable values:
  - `Source/CascadeLayout.swift` holds the layout;
  - `Source/Column.swift` and `Source/Section.swift` hold the values;
  - `Source/Functional.swift` holds the optional-chaining combinators.

  Here `prepareLayout` is a fold over the sections. Inside it a fold over each
  section's items takes out a shortest column and appends that column again
  with the item added. This is modelled with datatypes and functions:
  - `functional.dfy`
  - `column.dfy`
  - `section.dfy`
  - `cascade.dfy`

Shared modules:

- `geometry.dfy` models CGRect, CGSize, NSIndexPath and the layout attributes.
  - CGFloat is an exact real.
  - Rectangle accessors standardise negative sizes, as CoreGraphics does.
  - `CGRectIntersectsRect` holds when the standardised edges overlap strictly
    on both axes.
- `host.dfy` models what UIKit supplies as plain inputs: the collection view's
  widths (never negative, as `CGRectGetWidth` reports them) and counts, and the
  delegate's column count and optional item size.

Main results:

- Grid layout:
  - every method agrees with its value function;
  - each item goes into the first column of least `maxY`, at that column's slot;
  - columns keep their numbering, and no column's `maxY` ever decreases;
  - a column's `maxY` is the bottom of its last rectangle, 0 while it holds
    none, and no rectangle reaches below it. So `addItemRect` may overwrite
    `maxY`, and each item starts where its column's contents end;
  - a section's columns hold exactly its item count of rectangles;
  - a section lists its items once each, in item order;
  - sections stack, each starting below the rectangle of the one before;
  - the first item of every section is placed at y = 0, because columns
    always start at height 0. This matches the source as written.
- Value layout:
  - the columns of each prepared section keep their indices 0..n-1, once
    each, and their common width;
  - every item path of a section with at least one column appears in it
    exactly once; a section without columns keeps none of its items;
  - no column's bottom edge is less than the previous section's bottom edge;
    it is the bottom of the column's last item, or that edge while the column
    holds none, and no item reaches below it;
  - a column frame of non-negative width keeps spanning its slot across, so
    every item of a column has the same left edge;
  - Functional.swift's combinators satisfy the functor and monad laws.

## Model

| member | source | states |
|---|---|---|
| `Functional.Map` | Source/Functional.swift:1-7 | `<^>`: no value gives no value, and `Some(x)` gives `Some(f(x))` |
| `Functional.Apply` | Source/Functional.swift:9-15 | `<*>` has a value exactly when both the function and the argument do, and it is then the application |
| `Functional.Bind` | Source/Functional.swift:17-23 | `>>-`: no value gives no value, and `Some(x)` gives `f(x)` |
| `Functional.MapIdentity` | Source/Functional.swift:1-7 | mapping the identity changes nothing |
| `Functional.MapComposition` | Source/Functional.swift:1-7 | mapping `f` and then `g` is mapping their composition |
| `Functional.ApplyOfSome` | Source/Functional.swift:9-15 | applying a present function is mapping it |
| `Functional.BindRightIdentity` | Source/Functional.swift:17-23 | binding to `Some` changes nothing |
| `Functional.BindAssociative` | Source/Functional.swift:17-23 | binding is associative |
| `Functional.OrElse` | Source/CascadeLayout.swift:17 | `??` gives the value when there is one, else the default |
| `Functional.ReduceInvariant` | Source/CascadeLayout.swift:23-28 | a property that every step of `reduce(0..<count, ...)` carries from `i` to `i + 1` holds of the result |
| `Functional.Reduce` | Source/CascadeLayout.swift:23-28 | `reduce(0..<count, initial, combine)` applies `combine` to 0, 1, ..., count - 1 in turn; what it gives is stated by `ReduceInvariant` and `ReducePrefix` |
| `Functional.ReducePrefix` | Source/CascadeLayout.swift:23-28 | a fold whose every step appends one element gives `count` elements, and its first `k` steps give the first `k` |
| `Functional.FlattenAppend` | Source/Functional.swift:25-27 | flattening a concatenation concatenates the flattenings |
| `Functional.Flatten` | Source/Functional.swift:25-27 | `flatten` is the left fold of `+` over the inner lists; what it gives is stated by the `Functional.Flatten...` lemmas below |
| `Functional.FlattenSingleton` | Source/Functional.swift:25-27 | flattening a single list gives that list |
| `Functional.FlattenLength` | Source/Functional.swift:25-27 | the flattening is as long as the inner lists together |
| `Functional.FlattenOfEmpties` | Source/Functional.swift:25-27 | flattening empty lists gives nothing |
| `Functional.FlattenMembership` | Source/Functional.swift:25-27 | an element is in the flattening exactly when it is in one of the inner lists |
| `Geometry.Floor` | Source/Column.swift:37-38 | `floor` gives an integral value not above its argument and within 1 of it |
| `Geometry.AspectRatio` | Source/Masonry.swift:56 | the item's aspect ratio, height over width: multiplied by the width it gives back the height |
| `Geometry.Union` | Source/Column.swift:44 | `rectByUnion` spans from the smaller minimum to the larger maximum of both rectangles on each axis |
| `Geometry.Visible` | Source/CascadeLayout.swift:71 | the filter keeps exactly the attributes whose frame meets the query, and never more than it was given |
| `Geometry.VisibleAppend` | Source/CascadeLayout.swift:71 | filtering a concatenation filters each part and keeps the parts in order |
| `Geometry.VisibleCount` | Source/CascadeLayout.swift:71 | the filter keeps an attribute whose frame meets the query as often as the list holds it, and drops every other |
| `Geometry.VisibleAll` | Source/CascadeLayout.swift:71 | a query meeting every frame keeps the whole list, in order |
| `Geometry.VisibleNone` | Source/CascadeLayout.swift:71 | a query meeting no frame keeps nothing |
| `Geometry.IntersectsSymmetric` | Source/Masonry.swift:101-103 | whether two rectangles intersect does not depend on the order they are given in |
| `Geometry.Intersects` | Source/Masonry.swift:101-103 | `CGRectIntersectsRect` of finite rectangles: after standardising, their edges overlap strictly on both axes (each minimum lies below the other's maximum); `IntersectsSymmetric` states that the order of the two does not matter |
| `Host.NumberOfSections` | Source/Masonry.swift:27 | the collection view's section count, 0 without a collection view |
| `Host.NumberOfItems` | Source/Masonry.swift:33 | the collection view's item count for the section, 0 without a collection view |
| `Host.FrameWidth` | Source/Masonry.swift:46 | the collection view's frame width, 0 without a collection view; never negative |
| `Columns.Column.AddItemWithSize` | Source/Column.swift:33-47 | the new column keeps index and width; it gains exactly one attribute, the item's; its bottom edge grows by the item's height, or stays if that height is negative; across, the frame runs from the lesser of its left edge and the item's right edge to the greater of its right edge and the item's right edge |
| `Columns.AddItemKeepsBottom` | Source/Column.swift:33-47 | adding an item keeps the column invariant: the bottom edge is never less than the start `minY`, is `minY` while the column holds nothing and the bottom of its last item otherwise, and no item reaches below it |
| `Columns.AddItemKeepsSlot` | Source/Column.swift:35-44 | a column of non-negative width whose frame spans its slot (`index` widths from the left, one width wide) keeps spanning it, so its next item lands at the same left edge |
| `Columns.Column.BottomEdge` | Source/Column.swift:11-13 | `bottomEdge` is the frame's standardised max Y; how it moves is stated by `Columns.NewColumn` and `Columns.Column.AddItemWithSize` |
| `Columns.Column.ItemRect` | Source/Column.swift:34-38 | the item's frame: at the column's left edge, directly below its bottom edge, the floored column width wide and the floored product of that width and the aspect ratio tall |
| `Columns.NewColumn` | Source/Column.swift:15-22 | a fresh column holds nothing; its frame starts and ends at `minY`, at `index` column widths from the left; it meets the column invariant, and with a non-negative width its frame spans its slot |
| `Columns.SameColumnIsEquivalence` | Source/Column.swift:50-54 | the `==` of columns is reflexive, symmetric and transitive |
| `Columns.SameColumn` | Source/Column.swift:52-54 | `==` of columns compares the index and the bottom edge only; what follows is stated by `SameColumnIsEquivalence` and `SameColumnIgnoresContents` |
| `Columns.SameColumnIgnoresContents` | Source/Column.swift:50-54 | columns with the same index and bottom edge are `==`, whatever their items |
| `Columns.ShortestColumn` | Source/Column.swift:56-58 | no column exactly for an empty list, otherwise a member of the list with the least bottom edge (no greater than any other's) |
| `Columns.TallestColumn` | Source/Column.swift:60-62 | no column exactly for an empty list, otherwise a member with the greatest bottom edge (no less than any other's) |
| `Columns.Find` | Source/Column.swift:69 | `find` gives the first position whose column is `==` to the one sought, or none if no column is |
| `Columns.AddItemToColumn` | Source/Column.swift:64-66 | the curried `addItemToColumn(column)(indexPath)(size)` adds that item to that column, for every path and size |
| `Columns.FindMember` | Source/Column.swift:69 | with distinct indices, `find` locates a member of the list at its own position |
| `Columns.ReplaceColumn` | Source/Column.swift:68-71 | the first column `==` to the old one is removed, if there is one, and the new column is appended at the end |
| `Sections.BottomEdgeIsTallest` | Source/Section.swift:13-15 | a section's bottom edge is 0 without columns, and otherwise the largest bottom edge of its columns |
| `Sections.Section.BottomEdge` | Source/Section.swift:13-15 | the tallest column's bottom edge, or 0; stated by `Sections.BottomEdgeIsTallest` |
| `Sections.Section.ItemAttributes` | Source/Section.swift:8-11 | every column's attributes, column after column; stated by the three `Sections.ItemAttributes...` lemmas |
| `Columns.AttributesOf` | Source/Section.swift:9 | `columns.map { $0.attributes }`: one list per column, in column order, each that column's attributes |
| `Sections.ItemAttributesSnoc` | Source/Section.swift:8-11 | one more column appends that column's attributes to the section's |
| `Sections.ItemAttributesLength` | Source/Section.swift:8-11 | a section lists as many attributes as its columns hold together |
| `Sections.ItemAttributesMembership` | Source/Section.swift:8-11 | an attribute is listed exactly when one of the columns holds it |
| `Sections.TallestSection` | Source/Section.swift:23-25 | no section exactly for an empty list, otherwise a member with the greatest bottom edge (no less than any other's) |
| `Cascade.ColumnCountForSectionAtIndex` | Source/CascadeLayout.swift:50-58 | the delegate's column count when there is both a delegate and a collection view, otherwise 1 |
| `Cascade.ItemSizeAtIndexPath` | Source/CascadeLayout.swift:60-67 | the delegate's size when it has the size method and there is a collection view, otherwise 600 by 800 |
| `Cascade.InitialColumns` | Source/CascadeLayout.swift:36-38 | `n` fresh columns, numbered 0..n-1, each one n-th of the container wide, empty and with its bottom edge at `minY` |
| `Cascade.ColumnsForSectionAtIndex` | Source/CascadeLayout.swift:31-48 | fresh columns at the previous section's bottom edge, or at 0 without one, then the item fold; stated by `Cascade.PreparedSectionFold` and `Cascade.PreparedSection` |
| `Cascade.PreviousBottomEdge` | Source/CascadeLayout.swift:32 | `previousSection?.bottomEdge ?? 0`: 0 without a previous section, otherwise that section's bottom edge |
| `Cascade.Last` | Source/CascadeLayout.swift:25 | `sections.last`: nothing exactly when no section has been laid out yet, otherwise the last section laid out |
| `Cascade.ColumnsForSectionFold` | Source/CascadeLayout.swift:31-48 | `columnsForSectionAtIndex` is the item fold over the section's fresh columns, placed at the previous section's bottom edge |
| `Cascade.AddNextItem` | Source/CascadeLayout.swift:43-45 | one pass of the item fold; stated by `Cascade.AddNextItemWithoutColumns` and `Cascade.AddNextItemStep` |
| `Cascade.ItemStep` | Source/CascadeLayout.swift:40-47 | the body of the item fold: item `itemIndex` of the section is sized and added by `AddNextItem`; `Cascade.ItemFoldPreserves` states what folding it keeps |
| `Cascade.SectionStep` | Source/CascadeLayout.swift:23-28 | the body of the section fold appends exactly one section and keeps the sections before it |
| `Cascade.PrepareSections` | Source/CascadeLayout.swift:20-29 | the section fold gives one section per section of the collection view; `Cascade.PreparedSection` states what each holds |
| `Cascade.AddNextItemWithoutColumns` | Source/CascadeLayout.swift:43-45 | with no column the item is dropped and the columns stay empty |
| `Cascade.AddNextItemStep` | Source/CascadeLayout.swift:43-45 | with columns, one step removes a column with the least bottom edge and appends it again with the item added |
| `Cascade.AddToColumnInvariant` | Source/CascadeLayout.swift:43-45 | such a step keeps the column count, the distinct indices 0..n-1 and the common width; every column's bottom edge stays at the bottom of its last item, or at `minY` while it holds none, and is never less than `minY`; with a non-negative width every frame keeps spanning its slot |
| `Cascade.AddToColumnPaths` | Source/CascadeLayout.swift:43-45 | such a step adds exactly the item's path to the paths the columns hold |
| `Cascade.ItemFoldPreserves` | Source/CascadeLayout.swift:40-47 | with at least one column, the item fold keeps that invariant and adds each path of the section's items exactly once |
| `Cascade.ItemFoldWithoutColumns` | Source/CascadeLayout.swift:40-47 | with no column every item is dropped |
| `Cascade.InitialColumnsInvariant` | Source/CascadeLayout.swift:31-38 | fresh columns satisfy the invariant and hold no item |
| `Cascade.PrepareSectionsPrefix` | Source/CascadeLayout.swift:20-29 | the section fold gives one section per section, and laying out more sections leaves the first ones unchanged |
| `Cascade.PrepareSectionsStep` | Source/CascadeLayout.swift:23-28 | one more pass of the section fold appends section `i`, laid out below the last of the sections before it |
| `Cascade.PreparedSectionFold` | Source/CascadeLayout.swift:23-38 | section `i` is the item fold over fresh columns placed at the previous section's bottom edge, or at 0 for the first section |
| `Cascade.PreparedSection` | Source/CascadeLayout.swift:20-48 | section `i` keeps its item count. With columns, it has the column invariant: each bottom edge is the bottom of the column's last item, or the previous section's bottom edge for a column without items, and is never less than that edge; the frames span their slots. It holds each of its item paths once. Without columns it is empty. |
| `Cascade.EveryItemExactlyOnce` | Source/CascadeLayout.swift:20-48 | in a section with columns, each path of its items occurs exactly once and no other path occurs |
| `Cascade.VisibleBySectionMembership` | Source/CascadeLayout.swift:69-75 | an attribute is in the concatenated query result exactly when a section holds it and its frame meets the query |
| `Cascade.VisibleBySection` | Source/CascadeLayout.swift:70-72 | one filtered list per section, in section order, each keeping that section's items whose frame meets the query |
| `Cascade.VisibleBySectionIsFilter` | Source/CascadeLayout.swift:69-75 | filtering section by section and concatenating is filtering all sections' items, concatenated in section order |
| `Cascade.QueryCoveringEverything` | Source/CascadeLayout.swift:69-75 | a query that meets every frame returns every section's items, section after section |
| `Cascade.QueryCount` | Source/CascadeLayout.swift:69-75 | the query returns an attribute whose frame meets the query as often as the sections hold it together, and no other attribute |
| `Cascade.CascadeLayout.constructor` | Source/CascadeLayout.swift:4-10 | a new layout has no delegate and no sections |
| `Cascade.CascadeLayout.CollectionViewContentSize` | Source/CascadeLayout.swift:12-18 | zero without a collection view or without sections; otherwise the frame width by the largest bottom edge of the sections |
| `Cascade.CascadeLayout.PrepareLayout` | Source/CascadeLayout.swift:20-29 | the sections become the section fold over the collection view's sections and depend on nothing else |
| `Cascade.CascadeLayout.LayoutAttributesForElementsInRect` | Source/CascadeLayout.swift:69-75 | the result is all sections' items, section after section and in each section's order, with those whose frame misses the query left out; so an attribute is returned exactly when a section holds it and its frame meets the query |
| `Cascade.CascadeLayout.ShouldInvalidateLayoutForBoundsChange` | Source/CascadeLayout.swift:77-79 | always without a collection view, otherwise exactly when the width changes |
| `Cascade.CascadeLayout.InvalidateLayout` | Source/CascadeLayout.swift:81-84 | the sections are dropped |
| `Masonry.ColumnCountForSectionAtIndex` | Source/Masonry.swift:87-90 | the delegate's column count, or 1 without a delegate |
| `Masonry.ItemSizeAtIndexPath` | Source/Masonry.swift:92-94 | the delegate's size when it has the size method, otherwise 600 by 800 |
| `Masonry.ColumnsFitSectionWidth` | Source/Masonry.swift:156-158 | the floored column width times the column count fits into the section's width |
| `Masonry.FlooredColumnWidth` | Source/Masonry.swift:156-158 | with columns, the section's width over the column count rounded down to an integral value; 0 without columns (see below) |
| `Masonry.ColumnX` | Source/Masonry.swift:61 | the left edge of a column's slot: the section's left edge plus `index` column widths, rounded down to an integral value |
| `Masonry.ItemHeight` | Source/Masonry.swift:63 | the item's height: the column width times the aspect ratio, rounded down to an integral value |
| `Masonry.ItemRect` | Source/Masonry.swift:60-63 | the item's frame: its top is the column's `maxY`, it is one column width wide, its left edge is the floor of the section's left edge plus `index` column widths and its height the floor of the column width times the aspect ratio |
| `Masonry.InitialColumns` | Source/Masonry.swift:165-169 | `addColumns(count)` on a section without columns: exactly `count` columns, column `j` with index `j`, `maxY` 0 and no rectangles |
| `Masonry.EmptySection` | Source/Masonry.swift:160-163 | a fresh `GridLayoutSection(itemCount)`: the given item count, no columns, no attributes and the zero rectangle |
| `Masonry.PreviousRect` | Source/Masonry.swift:76-85 | `previousSectionRectForSectionWithIndex` over the sections prepared so far: the zero rectangle before the first section, otherwise the last section's rectangle |
| `Masonry.LowestShortestUnique` | Source/Masonry.swift:171-183 | there is only one first column of least `maxY` |
| `Masonry.LowestShortestIsLowest` | Source/Masonry.swift:171-183 | the left-to-right scan that moves only to a column of strictly smaller `maxY` finds the first column of least `maxY` |
| `Masonry.LowestShortest` | Source/Masonry.swift:171-183 | the scan gives a position of the columns; `Masonry.LowestShortestIsLowest` states which |
| `Masonry.PreferredIndex` | Source/Masonry.swift:147-154 | the single-column shortcut agrees with the scan |
| `Masonry.PreferredIndexIsLowest` | Source/Masonry.swift:143-154 | the preferred column is the first column of least `maxY` |
| `Masonry.SectionMaxYIsMax` | Source/Masonry.swift:132-141 | the running `max` is the largest `maxY` of the columns, and 0 without columns |
| `Masonry.SectionMaxY` | Source/Masonry.swift:132-141 | the running `max` from the first column's `maxY`; `Masonry.SectionMaxYIsMax` states what it gives |
| `Masonry.AddRect` | Source/Masonry.swift:195-198 | `addItemRect` by value: the index is kept, the rectangle is appended and `maxY` becomes the rectangle's max Y |
| `Masonry.PlaceStep` | Source/Masonry.swift:54-68 | one pass of the item loop adds one attribute and keeps the column count; where the item goes is stated by `MasonryProperties.PlaceStepPlaces` and `MasonryProperties.PlaceStepKeeps` |
| `Masonry.LayoutItems` | Source/Masonry.swift:53-69 | the item loop gives one attribute per item and keeps the column count; stated further by the `MasonryProperties.LayoutItems...` lemmas and `MasonryProperties.ItemPlacement` |
| `Masonry.LayoutSection` | Source/Masonry.swift:42-72 | `prepareLayoutForSection` on a fresh section, by value; stated by `MasonryProperties.LayoutSectionShape` and `MasonryProperties.FirstItemAtTop` |
| `Masonry.PreparedSections` | Source/Masonry.swift:26-40 | one section state per section of the collection view; stated further by `MasonryProperties.PreparedSectionsPrefix` and `MasonryProperties.PreparedSection` |
| `Masonry.VisibleItems` | Source/Masonry.swift:98-108 | the query by value, section by section; stated by `MasonryProperties.VisibleItemsIsFilter`, `VisibleItemsCount`, `VisibleItemsMembership` and `VisibleItemsOutside` |
| `Masonry.ItemsOfSectionsMeeting` | Source/Masonry.swift:101-103 | per section, its items when its rectangle meets the query, and nothing otherwise |
| `Masonry.GridLayoutColumn.constructor` | Source/Masonry.swift:186-193 | a new column has its index, `maxY` 0 and no rectangles |
| `Masonry.GridLayoutColumn.AddItemRect` | Source/Masonry.swift:195-198 | the rectangle is appended and the column's `maxY` becomes the rectangle's bottom; the index is unchanged |
| `Masonry.GridLayoutSection.constructor` | Source/Masonry.swift:160-163 | a new section has the item count, no columns, no attributes and the zero rectangle |
| `Masonry.GridLayoutSection.MaxY` | Source/Masonry.swift:132-141 | 0 without columns, otherwise the largest `maxY` of the columns |
| `Masonry.GridLayoutSection.ShortestColumnIndex` | Source/Masonry.swift:171-183 | the first column of least `maxY` |
| `Masonry.GridLayoutSection.PreferredColumnIndex` | Source/Masonry.swift:143-154 | the first column of least `maxY`, via the single-column shortcut |
| `Masonry.GridLayoutSection.AddColumns` | Source/Masonry.swift:165-169 | `count` fresh columns numbered from 0 are appended and nothing else changes; a section that had no columns ends up numbered |
| `Masonry.GridLayoutSection.ColumnWidth` | Source/Masonry.swift:156-158 | `columnWidth` is `FlooredColumnWidth` of the section's width and its column count |
| `Masonry.GridLayoutSection.AddItemRectAt` | Source/Masonry.swift:64 | `column.addItemRect` changes only that column's state, and the numbering is kept |
| `Masonry.GridLayoutSection.PlaceItem` | Source/Masonry.swift:53-69 | one pass of the item loop is one placement step on the columns' and attributes' values, and the numbering is kept |
| `Masonry.GridLayoutSection.PlaceItems` | Source/Masonry.swift:53-69 | the item loop leaves the columns and attributes `LayoutItems` describes and keeps the numbering |
| `Masonry.GridLayoutSection.FitHeight` | Source/Masonry.swift:71 | the section's height becomes its columns' largest `maxY`; nothing else changes |
| `Masonry.GridLayout.constructor` | Source/Masonry.swift:7-9 | a new layout has no sections and no delegate, and satisfies the layout's invariant `Valid` |
| `Masonry.GridLayout.PreviousSectionRectForSectionWithIndex` | Source/Masonry.swift:76-85 | the zero rectangle for the first section, otherwise the rectangle of the section before |
| `Masonry.GridLayout.CollectionViewContentSize` | Source/Masonry.swift:14-24 | zero without sections, otherwise the collection view's width by the last section's `maxY` |
| `Masonry.GridLayout.PrepareLayout` | Source/Masonry.swift:26-40 | afterwards the section objects are distinct and numbered, and their states are exactly `PreparedSections` for the collection view's sections |
| `Masonry.GridLayout.AddSections` | Source/Masonry.swift:30-35 | one fresh, distinct, empty section per section of the collection view, holding that section's item count |
| `Masonry.GridLayout.PrepareSections` | Source/Masonry.swift:37-39 | every section is laid out in turn; the sections list is unchanged |
| `Masonry.GridLayout.PrepareSectionAt` | Source/Masonry.swift:37-39 | section `index` takes its `PreparedSections` state; the sections before it keep theirs and those after it stay fresh |
| `Masonry.GridLayout.PrepareLayoutForSection` | Source/Masonry.swift:42-72 | a fresh section becomes `LayoutSection` below the previous section's rectangle, with numbered columns |
| `Masonry.GridLayout.LayoutAttributesForElementsInRect` | Source/Masonry.swift:98-108 | the result is `VisibleItems` of the sections' states; its order and counts are stated by `MasonryProperties.VisibleItemsIsFilter` and `MasonryProperties.VisibleItemsCount` |
| `Masonry.GridLayout.ShouldInvalidateLayoutForBoundsChange` | Source/Masonry.swift:110-118 | no without a collection view, otherwise exactly when the width changes |
| `Masonry.GridLayout.InvalidateLayout` | Source/Masonry.swift:120-123 | all sections are dropped, and the invariant `Valid` holds again |
| `MasonryProperties.PlaceStepPlaces` | Source/Masonry.swift:58-68 | a placement step uses the first column of least `maxY`: that column becomes `AddRect` of it and the item's frame (the frame appended, `maxY` the frame's bottom), the item's attributes are appended to the list, and every other column is left alone |
| `MasonryProperties.PlaceStepKeeps` | Source/Masonry.swift:58-64 | a placement step keeps each column's index, never decreases a column's `maxY` and only appends rectangles |
| `MasonryProperties.RectCountUpdate` | Source/Masonry.swift:195-198 | replacing one column changes the columns' rectangle total by the difference of the two columns' rectangle counts |
| `MasonryProperties.RectCountOfEmpties` | Source/Masonry.swift:165-169 | columns without rectangles hold none together |
| `MasonryProperties.PlaceStepBottoms` | Source/Masonry.swift:58-68 | a placement step keeps every column's `maxY` at the bottom of its last rectangle (0 without any) with no rectangle reaching below it, which is what lets `addItemRect` overwrite `maxY` |
| `MasonryProperties.PlaceStepRectCount` | Source/Masonry.swift:58-68 | a placement step adds exactly one rectangle to the columns |
| `MasonryProperties.LayoutItemsNumbered` | Source/Masonry.swift:53-69 | the item loop keeps column `j` at index `j` |
| `MasonryProperties.LayoutItemsGrow` | Source/Masonry.swift:53-69 | during the item loop no column's `maxY` goes down, and each column's rectangles only grow at the end |
| `MasonryProperties.LayoutItemsBottoms` | Source/Masonry.swift:53-69 | the item loop keeps every column's `maxY` at the bottom of its last rectangle, 0 without any, with no rectangle below it |
| `MasonryProperties.LayoutItemsRectCount` | Source/Masonry.swift:53-69 | the item loop adds one rectangle to the columns per item |
| `MasonryProperties.LayoutItemsPrefix` | Source/Masonry.swift:53-69 | the first `k` passes of the loop give the first `k` attributes |
| `MasonryProperties.LayoutItemsPaths` | Source/Masonry.swift:53-69 | the attributes hold the section's item paths once each, in item order |
| `MasonryProperties.ItemPlacement` | Source/Masonry.swift:53-69 | item `k` goes into the first column of least `maxY` as the columns stood before it. It sits at that column's slot, directly below its `maxY`, one column width wide and as tall as the width times the aspect ratio, floored. |
| `MasonryProperties.ItemBelowColumnContents` | Source/Masonry.swift:58-64 | item `k`'s top is where its column's contents end: 0 in a column without rectangles, otherwise the bottom of the column's last rectangle, and below every rectangle the column holds |
| `MasonryProperties.LayoutSectionShape` | Source/Masonry.swift:42-72 | a section starts at the left inset, right below the previous rectangle, as wide as the collection view. It has the delegate's columns, numbered, holds its item paths in order and is as tall as its tallest column. |
| `MasonryProperties.InitialColumnsBottoms` | Source/Masonry.swift:165-169 | fresh columns are at height 0 and hold no rectangle together |
| `MasonryProperties.LayoutSectionColumns` | Source/Masonry.swift:42-72 | in a laid-out section every column's `maxY` is the bottom of its last rectangle, 0 without any, and the columns hold exactly one rectangle per item |
| `MasonryProperties.FirstItemAtTop` | Source/Masonry.swift:42-72 | the first item of any section is placed at (0, 0), whatever the section's own origin |
| `MasonryProperties.FourSquaresInTwoColumns` | Source/Masonry.swift:42-72 | two columns across a 200-point-wide view and four 100 by 100 items: frames at (0, 0), (100, 0), (0, 100) and (100, 100), and the section, the only one, is 200 tall |
| `MasonryProperties.PreparedSectionsPrefix` | Source/Masonry.swift:26-40 | laying out more sections does not change the ones before |
| `MasonryProperties.PreparedSection` | Source/Masonry.swift:37-85 | prepared section `i` starts right below section `i - 1`, or at the top for the first, and holds its own item count and item paths |
| `MasonryProperties.PreparedSectionColumns` | Source/Masonry.swift:26-40 | in every prepared section each column's `maxY` is the bottom of its last rectangle, 0 without any, and the columns hold exactly the section's item count of rectangles |
| `MasonryProperties.VisibleItemsMembership` | Source/Masonry.swift:98-108 | an item is returned exactly when its section's rectangle meets the query, the section lists it and its frame meets the query |
| `MasonryProperties.VisibleItemsIsFilter` | Source/Masonry.swift:98-108 | the query returns, in section order and then item order, the items of the sections whose rectangle meets the query, with those whose frame misses it left out |
| `MasonryProperties.VisibleItemsCount` | Source/Masonry.swift:98-108 | an item whose frame meets the query is returned as often as the sections whose rectangle meets the query hold it, and no other item is |
| `MasonryProperties.VisibleItemsOutside` | Source/Masonry.swift:98-108 | a query that meets no section's rectangle returns nothing |

## Left out

- UIKit plumbing is not modelled: the `super` calls, `reserveCapacity`, and the identity of `UICollectionViewLayoutAttributes` objects. Attributes are (index path, frame) values.
- The collection view and the delegate are inputs (`Host.View`, `Host.Delegate`). The delegate protocols are the `Delegate` record: `Source/CascadeLayoutDelegate.swift` and `UICollectionViewDelegateGridLayout` in `Source/Masonry.swift:201-203`. The sample app is not part of this model.
- CGFloat is an exact real. Rounding, NaN and infinities are not modelled.
- `Geometry.ItemSize` excludes a zero item width. The source's aspect ratio `height / width` is then NaN for a 0 by 0 size and an infinity otherwise, and exact reals have neither. Negative widths are kept: they give a negative aspect ratio and negative item heights, as in the source.
- Counts from the collection view and the delegate are natural numbers. A negative count would make Swift's `0..<n` trap.
- CoreGraphics's null, infinite and empty (zero-width or zero-height) rectangles get no special handling, so `CGRectIntersectsRect` and `rectByUnion` follow only the rules for finite rectangles of positive size. In particular, an empty rectangle strictly inside the query counts as intersecting it here.
- `Masonry.FlooredColumnWidth`: with zero columns the source divides by zero. The model gives 0 instead, a width no item can use, because placing an item traps first.
- The count of columns is asked with `NSIndexPath(index:)`; the model passes the section number itself.
- `Masonry.GridLayout.PrepareLayout` requires that there are no sections yet. The source appends to whatever `sections` holds, and relies on UIKit calling `invalidateLayout`, which empties it, before each new layout pass.
- `Masonry.GridLayout.PrepareLayout` requires that every section with items gets at least one column. Otherwise the source's `assert` in `shortestColumnIndex` or the index `columns[0]` traps.
- `Masonry.GridLayout.PrepareSections`, `Masonry.GridLayout.PrepareSectionAt` and `Masonry.GridLayout.PrepareLayoutForSection` require a collection view whenever there is a delegate, because the source force-unwraps `collectionView` when it asks the delegate.
- `Masonry.GridLayout.PrepareLayoutForSection` is stated only for a fresh section, the only kind `prepareLayout` passes to it.
- `Masonry.GridLayout.CollectionViewContentSize` requires a collection view when there are sections, because the source force-unwraps it.
- `Masonry.GridLayoutSection.ShortestColumnIndex`, `Masonry.GridLayoutSection.PreferredColumnIndex` and `Masonry.GridLayoutSection.PlaceItem` require a column, where the source asserts or traps.
- `Masonry.GridLayoutSection.PlaceItems` starts from an empty attributes list, which is how `prepareLayoutForSection` reaches it on a fresh section.
- `Masonry.GridLayoutSection.AddColumns` promises the numbering only for a section that had no columns. The source numbers the new columns from 0 on every call.
- The methods `PlaceItem`, `AddItemRectAt`, `PlaceItems` and `FitHeight` of `Masonry.GridLayoutSection`, and `AddSections`, `PrepareSections` and `PrepareSectionAt` of `Masonry.GridLayout`, are not functions of the source. Each is one stretch of `prepareLayout` or `prepareLayoutForSection`, given its own contract.
- `Columns.ShortestColumn`, `Columns.TallestColumn` and `Sections.TallestSection` model `sorted(...).first`. The source does not promise a stable sort, so with ties it may pick a different column or section. The contracts promise only a member with the least or the greatest bottom edge, and the model keeps the earliest one.
