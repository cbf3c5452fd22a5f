/** The emitter: each metabolite-to-gene link is given the HMDB id that the
    reconciled recon table holds for its metabolite, the id columns are
    dropped, duplicates are removed and rows without an HMDB id are
    discarded. Also the whole of `get_edges` up to that point, composed. */
module Edges {
  import opened Frames
  import opened Identifiers
  import opened Normaliser
  import opened Reactions
  import opened Annotation
  import opened Propagation

  // ------------------------------------------------------------- met_dict

  /** The `hmdb_id` column of a table. */
  function HmdbColumn(t: Table): (c: seq<Cell>)
    ensures |c| == |t|
    ensures forall i :: 0 <= i < |t| ==> c[i] == t[i].hmdb
  {
    seq(|t|, i requires 0 <= i < |t| => t[i].hmdb)
  }

  /** Line 162: `dict(zip(mets, test[0]['hmdb_id']))`. */
  function MetDict(mets: seq<string>, recon: Table): map<string, Cell>
  {
    ZipDict(Zip(mets, HmdbColumn(recon)))
  }

  /** The metabolites with an entry are those paired with a recon row, and
      each entry is the HMDB cell of a row paired with the metabolite. */
  lemma MetDictEntries(mets: seq<string>, recon: Table, m: string)
    ensures m in MetDict(mets, recon) <==> exists i :: 0 <= i < |mets| && i < |recon| && mets[i] == m
    ensures m in MetDict(mets, recon) ==>
      exists i :: 0 <= i < |mets| && i < |recon| && mets[i] == m && MetDict(mets, recon)[m] == recon[i].hmdb
  {
    var pairs := Zip(mets, HmdbColumn(recon));
    if m in MetDict(mets, recon) {
      ZipDictValue(pairs, m);
    }
    if exists i :: 0 <= i < |mets| && i < |recon| && mets[i] == m {
      var i :| 0 <= i < |mets| && i < |recon| && mets[i] == m;
      assert pairs[i].0 == m;
    }
  }

  /** A metabolite occurring once among the paired ones gets the HMDB cell
      of its own row. */
  lemma MetDictOfUniqueMetabolite(mets: seq<string>, recon: Table, i: nat)
    requires i < |mets| && i < |recon|
    requires forall j :: i < j < |mets| && j < |recon| ==> mets[j] != mets[i]
    ensures mets[i] in MetDict(mets, recon) && MetDict(mets, recon)[mets[i]] == recon[i].hmdb
  {
    ZipDictLastWins(Zip(mets, HmdbColumn(recon)), i);
  }

  // ------------------------------------------------------------- emitting

  /** A row of `metabolite_to_gene` once `metabolite_id` and `reaction_id`
      are dropped and `hmdb_id` added. */
  datatype EdgeRow = EdgeRow(gene: string, direction: Direction, rev: Reversibility, subsystem: string,
                             compartment: string, transport: string, transportDirection: TransportDirection,
                             hmdb: Cell)

  function Strip(a: AnnotatedLink, hmdb: Cell): EdgeRow
  {
    EdgeRow(a.link.gene, a.link.direction, a.link.rev, a.subsystem, a.compartment, a.transport,
            a.transportDirection, hmdb)
  }

  /** The rows `dropna(subset=['hmdb_id'])` keeps. */
  predicate HasHmdb(e: EdgeRow)
  {
    e.hmdb.Some?
  }

  /** Line 163 and the drop at line 165: each link as a stripped row with
      the HMDB cell of its metabolite. */
  function StrippedRows(links: seq<AnnotatedLink>, metDict: map<string, Cell>): (rows: seq<EdgeRow>)
    requires forall i :: 0 <= i < |links| ==> links[i].link.metabolite in metDict
    ensures |rows| == |links|
    ensures forall i :: 0 <= i < |links| ==> rows[i] == Strip(links[i], metDict[links[i].link.metabolite])
  {
    seq(|links|, i requires 0 <= i < |links| => Strip(links[i], metDict[links[i].link.metabolite]))
  }

  /** Lines 163-167: the lookup raises KeyError for a metabolite without an
      entry; otherwise the stripped rows, without duplicates, without the
      rows whose HMDB id is missing. */
  function Emit(links: seq<AnnotatedLink>, metDict: map<string, Cell>): (r: Option<seq<EdgeRow>>)
    ensures r.None? <==> exists i :: 0 <= i < |links| && links[i].link.metabolite !in metDict
    ensures r.Some? ==> Distinct(r.value) && |r.value| <= |links|
  {
    if forall i :: 0 <= i < |links| ==> links[i].link.metabolite in metDict then
      var rows := StrippedRows(links, metDict);
      FilterDistinct(DropDuplicates(rows), HasHmdb);
      Some(Filter(DropDuplicates(rows), HasHmdb))
    else None
  }

  /** An emitted row is exactly a stripped link whose metabolite has a
      present HMDB id in the dictionary. */
  lemma EmitMembership(links: seq<AnnotatedLink>, metDict: map<string, Cell>, e: EdgeRow)
    requires forall i :: 0 <= i < |links| ==> links[i].link.metabolite in metDict
    ensures e in Emit(links, metDict).value <==> (e.hmdb.Some? &&
      exists i :: 0 <= i < |links| && e == Strip(links[i], metDict[links[i].link.metabolite]))
  {
    var rows := StrippedRows(links, metDict);
    FilterMembership(DropDuplicates(rows), HasHmdb);
    if e in rows {
      var i :| 0 <= i < |rows| && rows[i] == e;
    }
  }

  /** An emitted row comes from a link whose metabolite's dictionary entry is
      the row's present HMDB id. */
  lemma EmitProvenance(links: seq<Link>, ss: map<string, string>, metDict: map<string, Cell>, e: EdgeRow)
    requires AnnotateAll(links, ss).Some?
    requires Emit(AnnotateAll(links, ss).value, metDict).Some?
    requires e in Emit(AnnotateAll(links, ss).value, metDict).value
    ensures e.hmdb.Some?
    ensures exists k :: (0 <= k < |links| && links[k].gene == e.gene && links[k].metabolite in metDict
      && metDict[links[k].metabolite] == e.hmdb)
  {
    var annotated := AnnotateAll(links, ss).value;
    EmitMembership(annotated, metDict, e);
    var k :| 0 <= k < |annotated| && e == Strip(annotated[k], metDict[annotated[k].link.metabolite]);
    assert Some(annotated[k]) == Annotate(links[k], ss);
  }

  // ------------------------------------------------------------ get_edges

  /** The annotated links emitted against the dictionary built from the
      reconciled recon table; an error when annotation or lookup fails. */
  function EmitLinks(links: seq<Link>, ss: map<string, string>, mets: seq<string>, recon: Table): Option<seq<EdgeRow>>
  {
    match AnnotateAll(links, ss)
    case None => None
    case Some(annotated) => Emit(annotated, MetDict(mets, recon))
  }

  /** Every emitted row carries a present HMDB id that the recon table holds
      in a row paired with the metabolite of one of the links, and the gene
      of that link. */
  lemma EmitLinksProvenance(links: seq<Link>, ss: map<string, string>, mets: seq<string>, recon: Table, e: EdgeRow)
    requires EmitLinks(links, ss, mets, recon).Some?
    requires e in EmitLinks(links, ss, mets, recon).value
    ensures e.hmdb.Some?
    ensures exists k, i :: (0 <= k < |links| && 0 <= i < |mets| && i < |recon| && links[k].gene == e.gene
      && mets[i] == links[k].metabolite && recon[i].hmdb == e.hmdb)
  {
    var md := MetDict(mets, recon);
    EmitProvenance(links, ss, md, e);
    var k :| 0 <= k < |links| && links[k].gene == e.gene && links[k].metabolite in md && md[links[k].metabolite] == e.hmdb;
    MetDictEntries(mets, recon, links[k].metabolite);
  }

  /** The links of lines 98-103. */
  function Links(s: Matrix, g: Matrix, bounds: seq<Bounds>): seq<Link>
    requires WellFormed(s) && WellFormed(g)
  {
    GetMetaboliteToGene(GetMetabolites(s, 1), GetMetabolites(s, -1), GetGeneSymbols(g), bounds)
  }

  /** `test[0]` after line 158, from the mapping tables as loaded. */
  function Reconciled(raw: Sources): Table
  {
    Run(Initial(PreprocessMetmaps(raw)))[|Schedule|].first
  }

  /** The edge rows of `get_edges` up to line 167, from the metabolite
      mapping tables as loaded, the metabolite ids, `S`, `rxnGeneMat`, the
      bounds and the reaction subsystems. */
  function EdgeRows(raw: Sources, mets: seq<string>, s: Matrix, g: Matrix, bounds: seq<Bounds>,
                    reactionIds: seq<string>, subsystems: seq<string>): Option<seq<EdgeRow>>
    requires WellFormed(s) && WellFormed(g)
  {
    EmitLinks(Links(s, g, bounds), SubsystemDict(reactionIds, subsystems), mets, Reconciled(raw))
  }

  /** `get_edges` up to line 167: the links, their annotation, the
      reconciliation of the mapping tables and the emitter, in the order the
      adapter runs them. */
  method GetEdgeRows(raw: Sources, mets: seq<string>, s: Matrix, g: Matrix, bounds: seq<Bounds>,
                     reactionIds: seq<string>, subsystems: seq<string>) returns (r: Option<seq<EdgeRow>>)
    requires WellFormed(s) && WellFormed(g)
    ensures r == EdgeRows(raw, mets, s, g, bounds, reactionIds, subsystems)
  {
    var genes := GetGeneSymbols(g);
    var prod := GetMetabolites(s, 1);
    var deg := GetMetabolites(s, -1);
    var links := GetMetaboliteToGene(prod, deg, genes, bounds);
    var annotated := AnnotateLinks(links, SubsystemDict(reactionIds, subsystems));
    var dfs := PreprocessMetmaps(raw);
    var test, conflicts := Reconcile(dfs);
    if annotated.None? {
      return None;
    }
    r := Emit(annotated.value, MetDict(mets, test.first));
    assert test.first == Reconciled(raw);
  }
}
