/** The reaction network side of the adapter: pairs extracted from the
    stoichiometric matrix and from the reaction-to-gene matrix, the
    reversibility and flux direction of reactions read off their bounds, and
    the metabolite-to-gene links that join them. */
module Reactions {
  import opened Frames

  // ------------------------------------------------------------- matrices

  /** One labelled line of a matrix. */
  datatype Line = Line(name: string, values: seq<int>)

  /** A matrix with labelled lines and labelled columns: `S` (metabolites by
      reactions) or `rxnGeneMat` (reactions by gene symbols). */
  datatype Matrix = Matrix(cols: seq<string>, lines: seq<Line>)

  predicate WellFormed(m: Matrix)
  {
    forall l :: l in m.lines ==> |l.values| == |m.cols|
  }

  /** One row of `stack().reset_index()`: line name, column name, value. */
  datatype Entry = Entry(row: string, col: string, value: int)

  function StackLine(l: Line, cols: seq<string>): (r: seq<Entry>)
    requires |l.values| == |cols|
    ensures |r| == |cols|
    ensures forall j :: 0 <= j < |cols| ==> r[j] == Entry(l.name, cols[j], l.values[j])
  {
    seq(|cols|, j requires 0 <= j < |cols| => Entry(l.name, cols[j], l.values[j]))
  }

  /** The stacked entries of each line, in line order. */
  function StackBlocks(m: Matrix): (b: seq<seq<Entry>>)
    requires WellFormed(m)
    ensures |b| == |m.lines|
    ensures forall i :: 0 <= i < |m.lines| ==> b[i] == StackLine(m.lines[i], m.cols)
  {
    seq(|m.lines|, i requires 0 <= i < |m.lines| => StackLine(m.lines[i], m.cols))
  }

  /** `stack().reset_index()`: every entry, line by line. */
  function Stack(m: Matrix): seq<Entry>
    requires WellFormed(m)
  {
    Flatten(StackBlocks(m))
  }

  /** The stacked matrix has one entry per line and column. */
  lemma StackLength(m: Matrix)
    requires WellFormed(m)
    ensures |Stack(m)| == |m.lines| * |m.cols|
  {
    var blocks := StackBlocks(m);
    assert forall i :: 0 <= i < |m.lines| ==> |blocks[i]| == |m.cols| by {
      forall i | 0 <= i < |m.lines| ensures |blocks[i]| == |m.cols| {
        assert m.lines[i] in m.lines;
      }
    }
    FlattenLength(blocks, |m.cols|);
  }

  /** The stacked matrix lists the entries line by line: the entry of line i
      and column j sits at position i * |cols| + j. */
  lemma StackAt(m: Matrix, i: nat, j: nat)
    requires WellFormed(m) && i < |m.lines| && j < |m.cols|
    ensures i * |m.cols| + j < |Stack(m)| && Stack(m)[i * |m.cols| + j] == Entry(m.lines[i].name, m.cols[j], m.lines[i].values[j])
  {
    var blocks := StackBlocks(m);
    FlattenAt(blocks, |m.cols|, i, j);
    assert blocks[i] == StackLine(m.lines[i], m.cols);
  }

  /** Every entry of the matrix is stacked. */
  lemma EntryStacked(m: Matrix, i: nat, j: nat)
    requires WellFormed(m) && i < |m.lines| && j < |m.cols|
    ensures Entry(m.lines[i].name, m.cols[j], m.lines[i].values[j]) in Stack(m)
  {
    var blocks := StackBlocks(m);
    assert blocks[i] == StackLine(m.lines[i], m.cols);
    assert blocks[i][j] in blocks[i];
    FlattenMembership(blocks);
  }

  /** The line and the column of a stacked entry. */
  lemma StackedEntry(m: Matrix, e: Entry) returns (i: nat, j: nat)
    requires WellFormed(m) && e in Stack(m)
    ensures i < |m.lines| && j < |m.cols| && e == Entry(m.lines[i].name, m.cols[j], m.lines[i].values[j])
  {
    var blocks := StackBlocks(m);
    FlattenMembership(blocks);
    i :| 0 <= i < |blocks| && e in blocks[i];
    assert blocks[i] == StackLine(m.lines[i], m.cols);
    j :| 0 <= j < |m.cols| && blocks[i][j] == e;
  }

  /** The stacked matrix holds exactly the matrix's entries. */
  lemma StackEntries(m: Matrix, e: Entry)
    requires WellFormed(m)
    ensures e in Stack(m) <==> exists i, j :: (0 <= i < |m.lines| && 0 <= j < |m.cols| &&
      e == Entry(m.lines[i].name, m.cols[j], m.lines[i].values[j]))
  {
    if e in Stack(m) {
      var i, j := StackedEntry(m, e);
    }
    if exists i, j :: (0 <= i < |m.lines| && 0 <= j < |m.cols| &&
      e == Entry(m.lines[i].name, m.cols[j], m.lines[i].values[j]))
    {
      var i, j :| 0 <= i < |m.lines| && 0 <= j < |m.cols| &&
        e == Entry(m.lines[i].name, m.cols[j], m.lines[i].values[j]);
      EntryStacked(m, i, j);
    }
  }

  predicate IsOne(e: Entry)
  {
    e.value == 1
  }

  /** `df[df['value'] == 1].drop('value', axis=1)`: the name pairs of the
      entries equal to 1, in order. */
  function KeepOnes(es: seq<Entry>): (r: seq<(string, string)>)
  {
    var ones := Filter(es, IsOne);
    seq(|ones|, k requires 0 <= k < |ones| => (ones[k].row, ones[k].col))
  }

  lemma KeepOnesMembership(es: seq<Entry>, p: (string, string))
    ensures p in KeepOnes(es) <==> exists e :: e in es && e.value == 1 && p == (e.row, e.col)
  {
    var ones := Filter(es, IsOne);
    FilterMembership(es, IsOne);
    if p in KeepOnes(es) {
      var k :| 0 <= k < |ones| && KeepOnes(es)[k] == p;
      assert ones[k] in ones;
    }
    if exists e :: e in es && e.value == 1 && p == (e.row, e.col) {
      var e :| e in es && e.value == 1 && p == (e.row, e.col);
      var k :| 0 <= k < |ones| && ones[k] == e;
      assert KeepOnes(es)[k] == p;
    }
  }

  // ------------------------------------------------------- get_metabolites

  /** `S[S != d] = 0` followed by `S[S == d] = 1`, on one entry. */
  function Binarise(v: int, d: int): int
  {
    var w := if v != d then 0 else v;
    if w == d then 1 else w
  }

  function BinariseMatrix(m: Matrix, d: int): (r: Matrix)
    requires WellFormed(m)
    ensures WellFormed(r) && r.cols == m.cols && |r.lines| == |m.lines|
    ensures forall i :: 0 <= i < |m.lines| ==> (r.lines[i].name == m.lines[i].name
      && |r.lines[i].values| == |m.cols|
      && forall j :: 0 <= j < |m.cols| ==> r.lines[i].values[j] == Binarise(m.lines[i].values[j], d))
  {
    var lines := seq(|m.lines|, i requires 0 <= i < |m.lines| =>
      Line(m.lines[i].name, seq(|m.cols|, j requires 0 <= j < |m.cols| => Binarise(m.lines[i].values[j], d))));
    Matrix(m.cols, lines)
  }

  /** `get_metabolites(S, d)`: the (metabolite, reaction) pairs of the masked
      matrix, without duplicates. */
  function GetMetabolites(s: Matrix, d: int): (r: seq<(string, string)>)
    requires WellFormed(s)
    ensures Distinct(r)
  {
    DropDuplicates(KeepOnes(Stack(BinariseMatrix(s, d))))
  }

  /** A pair is extracted exactly when some entry of its metabolite and
      reaction equals d; for d = 0 the two masks turn every entry into 1, so
      every pair of labels is extracted. */
  lemma GetMetabolitesMembership(s: Matrix, d: int, met: string, rxn: string)
    requires WellFormed(s)
    ensures (met, rxn) in GetMetabolites(s, d) <==> exists i, j :: (0 <= i < |s.lines| && 0 <= j < |s.cols|
      && s.lines[i].name == met && s.cols[j] == rxn && (s.lines[i].values[j] == d || d == 0))
  {
    if (met, rxn) in GetMetabolites(s, d) {
      ExtractedMetaboliteEntry(s, d, met, rxn);
    }
    if exists i, j :: (0 <= i < |s.lines| && 0 <= j < |s.cols|
      && s.lines[i].name == met && s.cols[j] == rxn && (s.lines[i].values[j] == d || d == 0))
    {
      var i, j :| 0 <= i < |s.lines| && 0 <= j < |s.cols|
        && s.lines[i].name == met && s.cols[j] == rxn && (s.lines[i].values[j] == d || d == 0);
      MetaboliteEntryExtracted(s, d, i, j);
    }
  }

  lemma ExtractedMetaboliteEntry(s: Matrix, d: int, met: string, rxn: string)
    requires WellFormed(s)
    requires (met, rxn) in GetMetabolites(s, d)
    ensures exists i, j :: (0 <= i < |s.lines| && 0 <= j < |s.cols|
      && s.lines[i].name == met && s.cols[j] == rxn && (s.lines[i].values[j] == d || d == 0))
  {
    var b := BinariseMatrix(s, d);
    KeepOnesMembership(Stack(b), (met, rxn));
    var e :| e in Stack(b) && e.value == 1 && (met, rxn) == (e.row, e.col);
    StackEntries(b, e);
    var i, j :| 0 <= i < |b.lines| && 0 <= j < |b.cols| && e == Entry(b.lines[i].name, b.cols[j], b.lines[i].values[j]);
    assert s.lines[i].name == met && s.cols[j] == rxn && (s.lines[i].values[j] == d || d == 0);
  }

  lemma MetaboliteEntryExtracted(s: Matrix, d: int, i: nat, j: nat)
    requires WellFormed(s)
    requires i < |s.lines| && j < |s.cols| && (s.lines[i].values[j] == d || d == 0)
    ensures (s.lines[i].name, s.cols[j]) in GetMetabolites(s, d)
  {
    var b := BinariseMatrix(s, d);
    KeepOnesMembership(Stack(b), (s.lines[i].name, s.cols[j]));
    var e := Entry(b.lines[i].name, b.cols[j], b.lines[i].values[j]);
    StackEntries(b, e);
    assert e in Stack(b) && e.value == 1;
  }

  // ------------------------------------------------------ get_gene_symbols

  /** `sum(axis=1)` of one line. */
  function RowSum(vs: seq<int>): int
    decreases |vs|
  {
    if vs == [] then 0 else RowSum(vs[..|vs| - 1]) + vs[|vs| - 1]
  }

  /** With no negative entry, a line sums to at least each of its entries. */
  lemma {:induction false} RowSumAtLeast(vs: seq<int>, j: nat)
    requires j < |vs|
    requires forall k :: 0 <= k < |vs| ==> vs[k] >= 0
    ensures RowSum(vs) >= vs[j]
    decreases |vs|
  {
    var init := vs[..|vs| - 1];
    assert RowSum(init) >= 0 by { RowSumNonNegative(init); }
    if j < |vs| - 1 {
      RowSumAtLeast(init, j);
    }
  }

  lemma {:induction false} RowSumNonNegative(vs: seq<int>)
    requires forall k :: 0 <= k < |vs| ==> vs[k] >= 0
    ensures RowSum(vs) >= 0
    decreases |vs|
  {
    if vs != [] {
      RowSumNonNegative(vs[..|vs| - 1]);
    }
  }

  /** `row_sums > 0`. */
  predicate Active(l: Line)
  {
    RowSum(l.values) > 0
  }

  /** The lines with a positive sum: `rxn_gene_df.loc[rxn_genes]`. */
  function ActiveLines(m: Matrix): (r: Matrix)
    requires WellFormed(m)
    ensures WellFormed(r) && r.cols == m.cols
    ensures forall l :: l in r.lines <==> l in m.lines && Active(l)
  {
    FilterMembership(m.lines, Active);
    Matrix(m.cols, Filter(m.lines, Active))
  }

  /** `get_gene_symbols`: the (reaction, gene) pairs whose entry is 1, taken
      from the reactions with a positive line sum, without duplicates. */
  function GetGeneSymbols(g: Matrix): (r: seq<(string, string)>)
    requires WellFormed(g)
    ensures Distinct(r)
  {
    DropDuplicates(KeepOnes(Stack(ActiveLines(g))))
  }

  lemma GetGeneSymbolsMembership(g: Matrix, rxn: string, gene: string)
    requires WellFormed(g)
    ensures (rxn, gene) in GetGeneSymbols(g) <==> exists i, j :: (0 <= i < |g.lines| && 0 <= j < |g.cols|
      && g.lines[i].name == rxn && g.cols[j] == gene && g.lines[i].values[j] == 1 && RowSum(g.lines[i].values) > 0)
  {
    if (rxn, gene) in GetGeneSymbols(g) {
      ExtractedGeneEntry(g, rxn, gene);
    }
    if exists i, j :: (0 <= i < |g.lines| && 0 <= j < |g.cols|
      && g.lines[i].name == rxn && g.cols[j] == gene && g.lines[i].values[j] == 1 && RowSum(g.lines[i].values) > 0)
    {
      var i, j :| 0 <= i < |g.lines| && 0 <= j < |g.cols|
        && g.lines[i].name == rxn && g.cols[j] == gene && g.lines[i].values[j] == 1 && RowSum(g.lines[i].values) > 0;
      GeneEntryExtracted(g, i, j);
    }
  }

  lemma ExtractedGeneEntry(g: Matrix, rxn: string, gene: string)
    requires WellFormed(g)
    requires (rxn, gene) in GetGeneSymbols(g)
    ensures exists i, j :: (0 <= i < |g.lines| && 0 <= j < |g.cols|
      && g.lines[i].name == rxn && g.cols[j] == gene && g.lines[i].values[j] == 1 && RowSum(g.lines[i].values) > 0)
  {
    var a := ActiveLines(g);
    KeepOnesMembership(Stack(a), (rxn, gene));
    var e :| e in Stack(a) && e.value == 1 && (rxn, gene) == (e.row, e.col);
    StackEntries(a, e);
    var i, j :| 0 <= i < |a.lines| && 0 <= j < |a.cols| && e == Entry(a.lines[i].name, a.cols[j], a.lines[i].values[j]);
    assert a.lines[i] in a.lines;
    var k :| 0 <= k < |g.lines| && g.lines[k] == a.lines[i];
    assert g.lines[k].name == rxn && g.cols[j] == gene && g.lines[k].values[j] == 1;
  }

  lemma GeneEntryExtracted(g: Matrix, i: nat, j: nat)
    requires WellFormed(g)
    requires i < |g.lines| && j < |g.cols| && g.lines[i].values[j] == 1 && RowSum(g.lines[i].values) > 0
    ensures (g.lines[i].name, g.cols[j]) in GetGeneSymbols(g)
  {
    var a := ActiveLines(g);
    KeepOnesMembership(Stack(a), (g.lines[i].name, g.cols[j]));
    assert g.lines[i] in a.lines;
    var k :| 0 <= k < |a.lines| && a.lines[k] == g.lines[i];
    var e := Entry(a.lines[k].name, a.cols[j], a.lines[k].values[j]);
    StackEntries(a, e);
    assert e in Stack(a) && e.value == 1;
  }

  /** On a matrix without negative entries (the 0/1 `rxnGeneMat`) the
      positive-sum filter removes nothing that matters: a pair is extracted
      exactly when its entry is 1. */
  lemma GeneSymbolsOfBinaryMatrix(g: Matrix, rxn: string, gene: string)
    requires WellFormed(g)
    requires forall l, j :: l in g.lines && 0 <= j < |l.values| ==> l.values[j] >= 0
    ensures (rxn, gene) in GetGeneSymbols(g) <==> exists i, j :: (0 <= i < |g.lines| && 0 <= j < |g.cols|
      && g.lines[i].name == rxn && g.cols[j] == gene && g.lines[i].values[j] == 1)
  {
    GetGeneSymbolsMembership(g, rxn, gene);
    if exists i, j :: (0 <= i < |g.lines| && 0 <= j < |g.cols|
      && g.lines[i].name == rxn && g.cols[j] == gene && g.lines[i].values[j] == 1)
    {
      var i, j :| 0 <= i < |g.lines| && 0 <= j < |g.cols|
        && g.lines[i].name == rxn && g.cols[j] == gene && g.lines[i].values[j] == 1;
      assert g.lines[i] in g.lines;
      RowSumAtLeast(g.lines[i].values, j);
    }
  }

  // ------------------------------------------------- bounds of a reaction

  /** A reaction's flux bounds, one row of `lb_ub`. */
  datatype Bounds = Bounds(reaction: string, lb: int, ub: int)

  datatype Reversibility = Reversible | Irreversible

  datatype FluxDirection = Forward | Backward

  /** Line 92: the `rev` column of `lb_ub`. */
  function Rev(b: Bounds): Reversibility
  {
    if b.lb < 0 && b.ub > 0 then Reversible else Irreversible
  }

  /** Line 93: the `direction` column of `lb_ub`. */
  function Flux(b: Bounds): FluxDirection
  {
    if b.ub > 0 then Forward else Backward
  }

  /** The two columns together split the bounds into three classes: a
      reversible reaction always runs forward, an irreversible one runs forward
      exactly when its upper bound is positive, and none is reversible and
      backward. */
  lemma BoundsClasses(b: Bounds)
    ensures (Rev(b), Flux(b)) == (Reversible, Forward) <==> b.lb < 0 < b.ub
    ensures (Rev(b), Flux(b)) == (Irreversible, Forward) <==> 0 <= b.lb && 0 < b.ub
    ensures (Rev(b), Flux(b)) == (Irreversible, Backward) <==> b.ub <= 0
    ensures (Rev(b), Flux(b)) != (Reversible, Backward)
  {
  }

  /** `lb_ub[lb_ub['rev'] == 'reversible'].index`. */
  function ReversibleReactions(bounds: seq<Bounds>): (rs: set<string>)
    ensures forall x :: x in rs <==> exists b :: b in bounds && b.reaction == x && b.lb < 0 < b.ub
  {
    set b | b in bounds && Rev(b) == Reversible :: b.reaction
  }

  // ------------------------------------------------ get_metabolite_to_gene

  datatype Direction = Producing | Degrading

  /** One row of `metabolite_to_gene`. */
  datatype Link = Link(metabolite: string, reaction: string, gene: string, direction: Direction, rev: Reversibility)

  /** The genes of p's reaction, in the order of `genes`, each as a
      (metabolite, reaction, gene) row. */
  function Partners(p: (string, string), genes: seq<(string, string)>): (r: seq<(string, string, string)>)
    decreases |genes|
  {
    if genes == [] then []
    else
      var last := genes[|genes| - 1];
      Partners(p, genes[..|genes| - 1]) + (if last.0 == p.1 then [(p.0, p.1, last.1)] else [])
  }

  lemma {:induction false} PartnersMembership(p: (string, string), genes: seq<(string, string)>)
    ensures forall t :: t in Partners(p, genes) <==> t.0 == p.0 && t.1 == p.1 && (t.1, t.2) in genes
    decreases |genes|
  {
    if genes != [] {
      var init := genes[..|genes| - 1];
      PartnersMembership(p, init);
      assert genes == init + [genes[|genes| - 1]];
    }
  }

  /** `pd.merge(pairs, genes, on='reaction_id')`: an inner join that keeps
      the order of the left rows. */
  function InnerMerge(pairs: seq<(string, string)>, genes: seq<(string, string)>): seq<(string, string, string)>
  {
    Flatten(seq(|pairs|, i requires 0 <= i < |pairs| => Partners(pairs[i], genes)))
  }

  lemma InnerMergeMembership(pairs: seq<(string, string)>, genes: seq<(string, string)>, t: (string, string, string))
    ensures t in InnerMerge(pairs, genes) <==> (t.0, t.1) in pairs && (t.1, t.2) in genes
  {
    var blocks := seq(|pairs|, i requires 0 <= i < |pairs| => Partners(pairs[i], genes));
    FlattenMembership(blocks);
    if t in InnerMerge(pairs, genes) {
      var i :| 0 <= i < |blocks| && t in blocks[i];
      PartnersMembership(pairs[i], genes);
    }
    if (t.0, t.1) in pairs && (t.1, t.2) in genes {
      var i :| 0 <= i < |pairs| && pairs[i] == (t.0, t.1);
      PartnersMembership(pairs[i], genes);
      assert t in blocks[i];
    }
  }

  /** The `direction` and `rev` columns added to merged rows. */
  function Label(ts: seq<(string, string, string)>, d: Direction, reversible: set<string>): (r: seq<Link>)
    ensures |r| == |ts|
    ensures forall k :: 0 <= k < |ts| ==> (r[k].metabolite == ts[k].0 && r[k].reaction == ts[k].1
      && r[k].gene == ts[k].2 && r[k].direction == d)
  {
    seq(|ts|, k requires 0 <= k < |ts| =>
      Link(ts[k].0, ts[k].1, ts[k].2, d, if ts[k].1 in reversible then Reversible else Irreversible))
  }

  /** `get_metabolite_to_gene`: the producing links, then the degrading ones. */
  function GetMetaboliteToGene(prod: seq<(string, string)>, deg: seq<(string, string)>,
                               genes: seq<(string, string)>, bounds: seq<Bounds>): seq<Link>
  {
    var rs := ReversibleReactions(bounds);
    Label(InnerMerge(prod, genes), Producing, rs) + Label(InnerMerge(deg, genes), Degrading, rs)
  }

  /** The producing links come first, then the degrading ones: a link's
      position tells its direction. */
  lemma GetMetaboliteToGeneOrder(prod: seq<(string, string)>, deg: seq<(string, string)>,
                                 genes: seq<(string, string)>, bounds: seq<Bounds>, k: nat)
    requires k < |GetMetaboliteToGene(prod, deg, genes, bounds)|
    ensures GetMetaboliteToGene(prod, deg, genes, bounds)[k].direction == Producing
      <==> k < |InnerMerge(prod, genes)|
  {
    var rs := ReversibleReactions(bounds);
    var lp := Label(InnerMerge(prod, genes), Producing, rs);
    var ld := Label(InnerMerge(deg, genes), Degrading, rs);
    if k >= |lp| {
      assert GetMetaboliteToGene(prod, deg, genes, bounds)[k] == ld[k - |lp|];
    }
  }

  /** A link is produced exactly for a producing (or degrading) pair and a
      gene of the same reaction; it is labelled reversible exactly when some
      bounds row of its reaction has lb < 0 < ub. */
  lemma GetMetaboliteToGeneMembership(prod: seq<(string, string)>, deg: seq<(string, string)>,
                                      genes: seq<(string, string)>, bounds: seq<Bounds>, l: Link)
    ensures l in GetMetaboliteToGene(prod, deg, genes, bounds) <==>
      (if l.direction == Producing then (l.metabolite, l.reaction) in prod else (l.metabolite, l.reaction) in deg)
      && (l.reaction, l.gene) in genes
      && (l.rev == Reversible <==> exists b :: b in bounds && b.reaction == l.reaction && b.lb < 0 < b.ub)
  {
    var rs := ReversibleReactions(bounds);
    var t := (l.metabolite, l.reaction, l.gene);
    var left := if l.direction == Producing then prod else deg;
    var lp := Label(InnerMerge(prod, genes), Producing, rs);
    var ld := Label(InnerMerge(deg, genes), Degrading, rs);
    var block := if l.direction == Producing then lp else ld;
    var ts := InnerMerge(left, genes);
    InnerMergeMembership(left, genes, t);
    assert l in lp + ld <==> l in block;
    if l in block {
      var k :| 0 <= k < |block| && block[k] == l;
      assert ts[k] == t;
    }
    if t in ts && (l.rev == Reversible <==> l.reaction in rs) {
      var k :| 0 <= k < |ts| && ts[k] == t;
      assert block[k] == l;
    }
  }
}
