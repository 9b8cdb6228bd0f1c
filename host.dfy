/** What both layouts ask of UIKit, as inputs: the collection view and the delegate. */
module Host {
  import opened Geometry
  import opened Functional

  /** A width as `CGRectGetWidth` reports it: never negative. */
  type Width = w: real | 0.0 <= w

  /** The collection view: its frame and bounds widths, `numberOfSections()` and
      `numberOfItemsInSection(_:)`. */
  datatype View = View(frameWidth: Width, boundsWidth: Width, numberOfSections: nat, numberOfItems: nat -> nat)

  /** The layout delegate: the required column count per section and the optional
      `sizeForItemAtIndexPath` method (None when the delegate does not implement it). */
  datatype Delegate = Delegate(numberOfColumns: nat -> nat, sizeForItem: Option<Path -> ItemSize>)

  /** `collectionView?.numberOfSections() ?? 0` */
  function NumberOfSections(view: Option<View>): (n: nat)
    ensures view.None? ==> n == 0
    ensures view.Some? ==> n == view.value.numberOfSections
  {
    match view
    case Some(v) => v.numberOfSections
    case None => 0
  }

  /** `collectionView?.numberOfItemsInSection(index) ?? 0` */
  function NumberOfItems(view: Option<View>, index: nat): (n: nat)
    ensures view.None? ==> n == 0
    ensures view.Some? ==> n == view.value.numberOfItems(index)
  {
    match view
    case Some(v) => v.numberOfItems(index)
    case None => 0
  }

  /** The width of `collectionView?.frame ?? CGRectZero` */
  function FrameWidth(view: Option<View>): (w: real)
    ensures 0.0 <= w
    ensures view.None? ==> w == 0.0
    ensures view.Some? ==> w == view.value.frameWidth
  {
    match view
    case Some(v) => v.frameWidth
    case None => 0.0
  }
}
