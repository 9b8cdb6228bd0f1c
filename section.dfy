/** Section.swift: a section of the cascade layout is its item count and its columns. */
module Sections {
  import opened Geometry
  import opened Functional
  import opened Columns

  datatype Section = Section(numberOfItems: nat, columns: seq<Column>) {

    /** `itemAttributes`: every column's attributes, column after column. */
    function ItemAttributes(): seq<Attributes> { Flatten(AttributesOf(columns)) }

    /** `bottomEdge`: the tallest column's bottom edge, 0 without columns
        (see BottomEdgeIsTallest). */
    function BottomEdge(): real
    {
      OrElse(Map((c: Column) => c.BottomEdge(), TallestColumn(columns)), 0.0)
    }
  }

  /** A section's bottom edge is 0 without columns, and otherwise the largest of
      its columns' bottom edges. */
  lemma BottomEdgeIsTallest(s: Section)
    ensures s.columns == [] ==> s.BottomEdge() == 0.0
    ensures s.columns != [] ==> exists c :: c in s.columns && s.BottomEdge() == c.BottomEdge()
    ensures forall c :: c in s.columns ==> c.BottomEdge() <= s.BottomEdge()
  {
    if s.columns != [] {
      var m := TallestColumn(s.columns).value;
      assert s.BottomEdge() == m.BottomEdge();
    }
  }

  /** Appending a column appends its attributes to the section's. */
  lemma ItemAttributesSnoc(n: nat, columns: seq<Column>, c: Column)
    ensures Section(n, columns + [c]).ItemAttributes() == Section(n, columns).ItemAttributes() + c.attributes
  {
    assert AttributesOf(columns + [c])[..|columns|] == AttributesOf(columns);
  }

  /** The count of `itemAttributes` is the sum of the columns' counts. */
  lemma ItemAttributesLength(s: Section)
    ensures |s.ItemAttributes()| == SumLengths(AttributesOf(s.columns))
  {
    FlattenLength(AttributesOf(s.columns));
  }

  /** An attribute is listed by the section exactly when one of its columns holds it. */
  lemma ItemAttributesMembership(s: Section, a: Attributes)
    ensures a in s.ItemAttributes() <==> exists i :: 0 <= i < |s.columns| && a in s.columns[i].attributes
  {
    FlattenMembership(AttributesOf(s.columns));
  }

  /** `sections.sort { $0.bottomEdge > $1.bottomEdge }.first`: a tallest section. */
  function TallestSection(sections: seq<Section>): (r: Option<Section>)
    ensures r.None? <==> sections == []
    ensures r.Some? ==> r.value in sections
    ensures r.Some? ==> forall s :: s in sections ==> s.BottomEdge() <= r.value.BottomEdge()
  {
    if sections == [] then None
    else
      match TallestSection(sections[1..])
      case None => Some(sections[0])
      case Some(m) => if m.BottomEdge() > sections[0].BottomEdge() then Some(m) else Some(sections[0])
  }
}
