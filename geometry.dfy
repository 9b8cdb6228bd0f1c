/** Core Graphics values used by both layouts: CGFloat is an exact real,
    CGRect a datatype whose accessors standardise a negative width or height as
    CoreGraphics does, NSIndexPath a (section, item) pair and
    UICollectionViewLayoutAttributes a (path, frame) record. */
module Geometry {

  function Min(a: real, b: real): real { if a <= b then a else b }

  function Max(a: real, b: real): real { if a >= b then a else b }

  /** `floor` on CGFloat: the largest integral value not above `x`. */
  function Floor(x: real): (f: real)
    ensures f <= x < f + 1.0
    ensures f.Floor as real == f
  {
    x.Floor as real
  }

  datatype Size = Size(width: real, height: real)

  /** An intrinsic item size whose aspect ratio is a finite number: any width
      but 0, for which CGFloat's quotient is NaN or infinite. A negative width
      gives a negative aspect ratio, as in the source. */
  type ItemSize = s: Size | s.width != 0.0 witness Size(1.0, 1.0)

  /** The item's height over its width: the factor that scales the width back to the height. */
  function AspectRatio(s: ItemSize): (r: real)
    ensures r * s.width == s.height
  {
    s.height / s.width
  }

  datatype Rect = Rect(x: real, y: real, width: real, height: real) {
    function MinX(): real { Min(x, x + width) }
    function MaxX(): real { Max(x, x + width) }
    function MinY(): real { Min(y, y + height) }
    function MaxY(): real { Max(y, y + height) }
    /** `CGRectGetWidth`, which is never negative. */
    function Width(): real { MaxX() - MinX() }
  }

  const ZeroRect: Rect := Rect(0.0, 0.0, 0.0, 0.0)

  /** `rectByUnion`: the smallest rectangle holding both (neither is the null rectangle). */
  function Union(a: Rect, b: Rect): (r: Rect)
    ensures r.MinX() == Min(a.MinX(), b.MinX()) && r.MaxX() == Max(a.MaxX(), b.MaxX())
    ensures r.MinY() == Min(a.MinY(), b.MinY()) && r.MaxY() == Max(a.MaxY(), b.MaxY())
  {
    var x := Min(a.MinX(), b.MinX());
    var y := Min(a.MinY(), b.MinY());
    Rect(x, y, Max(a.MaxX(), b.MaxX()) - x, Max(a.MaxY(), b.MaxY()) - y)
  }

  /** `CGRectIntersectsRect` of finite rectangles: the standardised edges overlap strictly on both axes. */
  predicate Intersects(a: Rect, b: Rect)
  {
    a.MinX() < b.MaxX() && b.MinX() < a.MaxX() && a.MinY() < b.MaxY() && b.MinY() < a.MaxY()
  }

  lemma IntersectsSymmetric(a: Rect, b: Rect)
    ensures Intersects(a, b) <==> Intersects(b, a)
  {
  }

  /** NSIndexPath(forItem:inSection:). */
  datatype Path = Path(section: nat, item: nat)

  /** UICollectionViewLayoutAttributes for a cell: its index path and frame. */
  datatype Attributes = Attributes(path: Path, frame: Rect)

  function PathsOf(attrs: seq<Attributes>): (ps: seq<Path>)
    ensures |ps| == |attrs|
    ensures forall i :: 0 <= i < |attrs| ==> ps[i] == attrs[i].path
  {
    if attrs == [] then [] else PathsOf(attrs[..|attrs| - 1]) + [attrs[|attrs| - 1].path]
  }

  lemma PathsOfAppend(a: seq<Attributes>, b: seq<Attributes>)
    ensures PathsOf(a + b) == PathsOf(a) + PathsOf(b)
  {
  }

  /** `attrs.filter { query intersects $0.frame }`, in the order of `attrs`. */
  function Visible(query: Rect, attrs: seq<Attributes>): (r: seq<Attributes>)
    ensures |r| <= |attrs|
    ensures forall a :: a in r <==> a in attrs && Intersects(query, a.frame)
  {
    if attrs == [] then []
    else (if Intersects(query, attrs[0].frame) then [attrs[0]] else []) + Visible(query, attrs[1..])
  }

  /** A query that meets every frame keeps the whole list, in order. */
  lemma {:induction false} VisibleAll(query: Rect, attrs: seq<Attributes>)
    requires forall a :: a in attrs ==> Intersects(query, a.frame)
    ensures Visible(query, attrs) == attrs
  {
    if attrs != [] {
      VisibleAll(query, attrs[1..]);
    }
  }

  /** Filtering a concatenation filters each part, in the same order. */
  lemma {:induction false} VisibleAppend(query: Rect, a: seq<Attributes>, b: seq<Attributes>)
    ensures Visible(query, a + b) == Visible(query, a) + Visible(query, b)
  {
    if a == [] {
      assert a + b == b;
    } else {
      assert (a + b)[1..] == a[1..] + b;
      VisibleAppend(query, a[1..], b);
    }
  }

  /** The filter keeps an attribute whose frame meets the query as often as the
      list holds it, and drops every other. */
  lemma {:induction false} VisibleCount(query: Rect, attrs: seq<Attributes>, x: Attributes)
    ensures multiset(Visible(query, attrs))[x] == if Intersects(query, x.frame) then multiset(attrs)[x] else 0
  {
    if attrs != [] {
      VisibleCount(query, attrs[1..], x);
      assert attrs == [attrs[0]] + attrs[1..];
    }
  }

  /** A query that meets no frame keeps nothing. */
  lemma VisibleNone(query: Rect, attrs: seq<Attributes>)
    requires forall a :: a in attrs ==> !Intersects(query, a.frame)
    ensures Visible(query, attrs) == []
  {
  }

  /** The paths of the items 0..count-1 of section `index`, in item order. */
  function ItemPaths(index: nat, count: nat): (r: seq<Path>)
    ensures |r| == count
    ensures forall j :: 0 <= j < count ==> r[j] == Path(index, j)
  {
    seq(count, j requires 0 <= j < count => Path(index, j))
  }

  lemma ItemPathsSnoc(index: nat, count: nat)
    ensures ItemPaths(index, count + 1) == ItemPaths(index, count) + [Path(index, count)]
  {
    assert ItemPaths(index, count + 1)[..count] == ItemPaths(index, count);
  }

  lemma {:induction false} ItemPathsCount(index: nat, count: nat, p: Path)
    ensures multiset(ItemPaths(index, count))[p] == if p.section == index && p.item < count then 1 else 0
  {
    if count > 0 {
      ItemPathsCount(index, count - 1, p);
      ItemPathsSnoc(index, count - 1);
    }
  }
}
