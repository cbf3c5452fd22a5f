/** Identifier namespaces, identifier records and source tables: the four
    namespace columns `chebi_id`, `kegg_id`, `hmdb_id`, `pubchem_id` that every
    metabolite mapping table carries. */
module Identifiers {
  import opened Frames

  /** One cell of an identifier column. */
  type Cell = Option<string>

  datatype Namespace = Chebi | Kegg | Hmdb | Pubchem

  /** The namespaces other than the anchor of a pass, in column order: the
      `str2`, `str3`, `str4` of `fill_missing_values` for each of the four
      calls of the driver. */
  function Others(anchor: Namespace): (r: seq<Namespace>)
    ensures |r| == 3
    ensures anchor !in r
    ensures r[0] != r[1] && r[0] != r[2] && r[1] != r[2]
  {
    match anchor
    case Chebi => [Kegg, Hmdb, Pubchem]
    case Kegg => [Chebi, Hmdb, Pubchem]
    case Hmdb => [Chebi, Kegg, Pubchem]
    case Pubchem => [Chebi, Kegg, Hmdb]
  }

  /** Every namespace but the anchor is one of the others. */
  lemma OthersCover(anchor: Namespace, n: Namespace)
    requires n != anchor
    ensures n in Others(anchor)
  {
    match n
    case Chebi =>
    case Kegg =>
    case Hmdb =>
    case Pubchem =>
  }

  /** One identifier record: a cell per namespace. */
  datatype Row = Row(chebi: Cell, kegg: Cell, hmdb: Cell, pubchem: Cell) {

    function Get(n: Namespace): Cell
    {
      match n
      case Chebi => chebi
      case Kegg => kegg
      case Hmdb => hmdb
      case Pubchem => pubchem
    }

    /** The record with the cell of namespace n replaced. */
    function Set(n: Namespace, v: Cell): (r: Row)
      ensures r.Get(n) == v
      ensures forall m :: m != n ==> r.Get(m) == Get(m)
    {
      match n
      case Chebi => this.(chebi := v)
      case Kegg => this.(kegg := v)
      case Hmdb => this.(hmdb := v)
      case Pubchem => this.(pubchem := v)
    }
  }

  const EmptyRow: Row := Row(None, None, None, None)

  /** Two records are equal when they agree on every namespace. */
  lemma RowExtensionality(a: Row, b: Row)
    requires forall n :: a.Get(n) == b.Get(n)
    ensures a == b
  {
    assert a.Get(Chebi) == b.Get(Chebi) && a.Get(Kegg) == b.Get(Kegg);
    assert a.Get(Hmdb) == b.Get(Hmdb) && a.Get(Pubchem) == b.Get(Pubchem);
  }

  /** A source or reconciled table: an ordered sequence of records. */
  type Table = seq<Row>

  /** Row b keeps every value that row a has: reconciliation only fills. */
  ghost predicate RowExtends(a: Row, b: Row)
  {
    forall n :: a.Get(n).Some? ==> b.Get(n) == a.Get(n)
  }

  /** Table b has the same rows as table a, in the same order, each keeping
      every value it had. */
  ghost predicate Extends(a: Table, b: Table)
  {
    |a| == |b| && forall i :: 0 <= i < |a| ==> RowExtends(a[i], b[i])
  }

  lemma ExtendsTransitive(a: Table, b: Table, c: Table)
    requires Extends(a, b) && Extends(b, c)
    ensures Extends(a, c)
  {
  }

  /** The number of rows of t whose cell in namespace n is present. */
  function PresentCount(t: Table, n: Namespace): (c: nat)
    ensures c <= |t|
    decreases |t|
  {
    if t == [] then 0
    else PresentCount(t[..|t| - 1], n) + (if t[|t| - 1].Get(n).Some? then 1 else 0)
  }

  /** Filling cells never lowers a per-namespace count of present values. */
  lemma {:induction false} PresentCountMonotone(a: Table, b: Table, n: Namespace)
    requires Extends(a, b)
    ensures PresentCount(a, n) <= PresentCount(b, n)
    decreases |a|
  {
    if a != [] {
      var k := |a| - 1;
      assert Extends(a[..k], b[..k]) by {
        forall i | 0 <= i < k ensures RowExtends(a[..k][i], b[..k][i]) {
          assert a[..k][i] == a[i] && b[..k][i] == b[i];
        }
      }
      PresentCountMonotone(a[..k], b[..k], n);
      assert RowExtends(a[k], b[k]);
    }
  }

  /** Three cells of one namespace, one per source table of a merged row
      (the `_x`, `_y` and unsuffixed columns after the two merges). */
  datatype Slots = Slots(x: Cell, y: Cell, z: Cell)

  /** `row[~row.isna()][0]`: the first present cell in column order, or
      missing when all three are missing. */
  function FirstPresent(s: Slots): (c: Cell)
    ensures c.Some? <==> s.x.Some? || s.y.Some? || s.z.Some?
    ensures s.x.Some? ==> c == s.x
    ensures s.x.None? && s.y.Some? ==> c == s.y
    ensures s.x.None? && s.y.None? ==> c == s.z
  {
    if s.x.Some? then s.x else if s.y.Some? then s.y else s.z
  }
}
