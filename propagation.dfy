/** The driver of the reconciliation: four anchor passes, on ChEBI, KEGG, HMDB
    and PubChem in that order, threading the recon table, the HMDB mapping
    table and the curated table through `fill_missing_values`. */
module Propagation {
  import opened Frames
  import opened Identifiers
  import opened Normaliser
  import opened AnchorMerge

  /** The three tables the driver threads, by position: `test[0]` (the recon
      table), `test[1]` (the HMDB mapping table), `test[2]` (the curated
      table). */
  datatype Tables = Tables(first: Table, second: Table, third: Table)

  /** The anchors of the four passes, in the order they run. */
  const Schedule: seq<Namespace> := [Chebi, Kegg, Hmdb, Pubchem]

  /** The first call passes the preprocessed tables in the order recon,
      HMDB mapping, curated: `df2=dfs[2]`, `df3=dfs[1]`. */
  function Initial(s: Sources): (ts: Tables)
    ensures ts.first == s.recon && ts.second == s.hmdbMapping && ts.third == s.curated
  {
    Tables(s.recon, s.hmdbMapping, s.curated)
  }

  /** One pass on the given anchor. */
  function Step(ts: Tables, anchor: Namespace): Tables
  {
    var p := Pass(ts.first, ts.second, ts.third, anchor);
    Tables(p.0, p.1, p.2)
  }

  /** The tables of a run of the four passes from ts: element k is what
      pass k receives and element k + 1 what it leaves. */
  function Run(ts: Tables): (r: seq<Tables>)
    ensures |r| == |Schedule| + 1 && r[0] == ts
  {
    var s1 := Step(ts, Chebi);
    var s2 := Step(s1, Kegg);
    var s3 := Step(s2, Hmdb);
    var s4 := Step(s3, Pubchem);
    [ts, s1, s2, s3, s4]
  }

  /** The conflicts each pass of the run from ts counts in the tables it
      receives. */
  function RunConflicts(ts: Tables): (c: seq<nat>)
    ensures |c| == |Schedule|
  {
    var r := Run(ts);
    [PassConflicts(r[0].first, r[0].second, r[0].third, Chebi),
     PassConflicts(r[1].first, r[1].second, r[1].third, Kegg),
     PassConflicts(r[2].first, r[2].second, r[2].third, Hmdb),
     PassConflicts(r[3].first, r[3].second, r[3].third, Pubchem)]
  }

  /** Every table of b has the rows of its counterpart in a, in order, and
      keeps every value that was present. */
  ghost predicate TablesExtend(a: Tables, b: Tables)
  {
    Extends(a.first, b.first) && Extends(a.second, b.second) && Extends(a.third, b.third)
  }

  lemma TablesExtendTransitive(a: Tables, b: Tables, c: Tables)
    requires TablesExtend(a, b) && TablesExtend(b, c)
    ensures TablesExtend(a, c)
  {
    ExtendsTransitive(a.first, b.first, c.first);
    ExtendsTransitive(a.second, b.second, c.second);
    ExtendsTransitive(a.third, b.third, c.third);
  }

  /** A pass keeps the rows of the tables it receives, in order, keeps every
      present value, and leaves its anchor column as it was. */
  lemma StepExtends(ts: Tables, anchor: Namespace)
    ensures TablesExtend(ts, Step(ts, anchor))
    ensures var r := Step(ts, anchor);
      (forall i :: 0 <= i < |ts.first| ==> r.first[i].Get(anchor) == ts.first[i].Get(anchor))
      && (forall i :: 0 <= i < |ts.second| ==> r.second[i].Get(anchor) == ts.second[i].Get(anchor))
      && (forall i :: 0 <= i < |ts.third| ==> r.third[i].Get(anchor) == ts.third[i].Get(anchor))
  {
    PassExtends(ts.first, ts.second, ts.third, anchor);
  }

  /** Every element of r extends the one before it. */
  ghost predicate Chain(r: seq<Tables>)
  {
    forall k :: 0 <= k < |r| - 1 ==> TablesExtend(r[k], r[k + 1])
  }

  lemma ChainOfFive(r: seq<Tables>)
    requires |r| == 5
    requires TablesExtend(r[0], r[1]) && TablesExtend(r[1], r[2])
    requires TablesExtend(r[2], r[3]) && TablesExtend(r[3], r[4])
    ensures Chain(r)
  {
  }

  /** Each pass of the run extends the tables it receives. */
  lemma RunChain(ts: Tables)
    ensures Chain(Run(ts))
  {
    var r := Run(ts);
    StepExtends(r[0], Chebi);
    StepExtends(r[1], Kegg);
    StepExtends(r[2], Hmdb);
    StepExtends(r[3], Pubchem);
    ChainOfFive(r);
  }

  /** In a chain, later elements extend earlier ones. */
  lemma {:induction false} ChainExtends(r: seq<Tables>, k: nat, l: nat)
    requires Chain(r)
    requires k <= l < |r|
    ensures TablesExtend(r[k], r[l])
    decreases l
  {
    if l > k {
      ChainExtends(r, k, l - 1);
      TablesExtendTransitive(r[k], r[l - 1], r[l]);
    }
  }

  /** Along a run no pass drops a row, reorders rows or changes a value that
      was present: table lengths never change and every per-table,
      per-namespace count of present values is non-decreasing. */
  lemma RunPresentCounts(ts: Tables, k: nat, l: nat, n: Namespace)
    requires k <= l <= |Schedule|
    ensures var r := Run(ts);
      |r[l].first| == |ts.first| && |r[l].second| == |ts.second| && |r[l].third| == |ts.third|
      && PresentCount(r[k].first, n) <= PresentCount(r[l].first, n)
      && PresentCount(r[k].second, n) <= PresentCount(r[l].second, n)
      && PresentCount(r[k].third, n) <= PresentCount(r[l].third, n)
  {
    RunChain(ts);
    ChainPresentCounts(Run(ts), k, l, n);
  }

  lemma ChainPresentCounts(r: seq<Tables>, k: nat, l: nat, n: Namespace)
    requires Chain(r)
    requires k <= l < |r|
    ensures |r[l].first| == |r[0].first| && |r[l].second| == |r[0].second| && |r[l].third| == |r[0].third|
    ensures PresentCount(r[k].first, n) <= PresentCount(r[l].first, n)
    ensures PresentCount(r[k].second, n) <= PresentCount(r[l].second, n)
    ensures PresentCount(r[k].third, n) <= PresentCount(r[l].third, n)
  {
    ChainExtends(r, 0, l);
    ChainExtends(r, k, l);
    PresentCountMonotone(r[k].first, r[l].first, n);
    PresentCountMonotone(r[k].second, r[l].second, n);
    PresentCountMonotone(r[k].third, r[l].third, n);
  }

  /** One rebinding `test = fill_missing_values(test[0], test[1], test[2], ...)`. */
  method RunPass(ts: Tables, anchor: Namespace) returns (next: Tables, conflicts: nat)
    ensures next == Step(ts, anchor)
    ensures conflicts == PassConflicts(ts.first, ts.second, ts.third, anchor)
  {
    var t0, t1, t2, c := FillMissingValues(ts.first, ts.second, ts.third, anchor);
    next, conflicts := Tables(t0, t1, t2), c;
  }

  /** Lines 155-158: the four calls of `fill_missing_values`, each rebinding
      the three tables. The result is the end of the run from the
      preprocessed tables, each pass counts the conflicts of the tables it
      receives, and every pass extends the tables before it. */
  method Reconcile(dfs: Sources) returns (test: Tables, conflicts: seq<nat>)
    ensures test == Run(Initial(dfs))[|Schedule|]
    ensures conflicts == RunConflicts(Initial(dfs))
    ensures Chain(Run(Initial(dfs)))
    ensures TablesExtend(Initial(dfs), test)
  {
    var c0, c1, c2, c3;
    test := Initial(dfs);
    test, c0 := RunPass(test, Chebi);
    test, c1 := RunPass(test, Kegg);
    test, c2 := RunPass(test, Hmdb);
    test, c3 := RunPass(test, Pubchem);
    conflicts := [c0, c1, c2, c3];
    RunChain(Initial(dfs));
    ChainExtends(Run(Initial(dfs)), 0, |Schedule|);
  }

  // ------------------------------------------- running the driver twice

  /** The tables of the example below: a recon row known only by its KEGG
      id, a mapping row linking that KEGG id to a ChEBI id, and a curated row
      linking the same ChEBI id to an HMDB id. */
  const ReconRow: Row := Row(None, Some("K"), None, None)
  const LinkRow: Row := Row(Some("C"), Some("K"), None, None)
  const HmdbRow: Row := Row(Some("C"), None, Some("H"), None)

  /** The dictionary of namespace n in the KEGG pass on those tables maps
      the KEGG id to the mapping row's cell c of n, when it is present. */
  lemma ExampleKeggDictionary(t1: Table, t2: Table, t3: Table, n: Namespace, k: nat, c: Cell)
    requires t1 == [ReconRow] && t2 == [LinkRow] && t3 == [HmdbRow]
    requires k < 3 && Others(Kegg)[k] == n && LinkRow.Get(n) == c
    ensures var d := PassDict(Join(t1, t2, t3, Kegg), Kegg, k);
      ("K" in d <==> c.Some?) && (c.Some? ==> d["K"] == c.value)
  {
    OfferedAt(t2, Kegg, "K", c, 0);
    OfferedAbsent(t3, Kegg, "K", None);
    PassDictUniform(t1, t2, t3, Kegg, "K", n, k, 0, None, c, None);
  }

  /** The dictionaries of the KEGG pass on those tables: the KEGG id maps
      to the ChEBI id of the mapping row, and to no HMDB or PubChem id. */
  lemma ExampleKeggDictionaries(t1: Table, t2: Table, t3: Table)
    requires t1 == [ReconRow] && t2 == [LinkRow] && t3 == [HmdbRow]
    ensures var ds := Dictionaries(Join(t1, t2, t3, Kegg), Kegg);
      "K" in ds[0] && ds[0]["K"] == "C" && "K" !in ds[1] && "K" !in ds[2]
  {
    ExampleKeggDictionary(t1, t2, t3, Chebi, 0, Some("C"));
    ExampleKeggDictionary(t1, t2, t3, Hmdb, 1, None);
    ExampleKeggDictionary(t1, t2, t3, Pubchem, 2, None);
  }

  /** The KEGG pass gives the recon row the ChEBI id of the mapping row,
      and nothing else changes. */
  lemma ExampleKeggPass(t1: Table, t2: Table, t3: Table)
    requires t1 == [ReconRow] && t2 == [LinkRow] && t3 == [HmdbRow]
    ensures Step(Tables(t1, t2, t3), Kegg) == Tables([LinkRow], [LinkRow], [HmdbRow])
  {
    var ds := Dictionaries(Join(t1, t2, t3, Kegg), Kegg);
    ExampleKeggDictionaries(t1, t2, t3);
    var r1, r2 := FillNa(t1, Kegg, ds), FillNa(t2, Kegg, ds);
    FillsFromDict(t1, Kegg, ds, 0, 0, "K");
    StaysMissing(t1, Kegg, ds, 0, 1, "K");
    StaysMissing(t1, Kegg, ds, 0, 2, "K");
    StaysMissing(t2, Kegg, ds, 0, 1, "K");
    StaysMissing(t2, Kegg, ds, 0, 2, "K");
    RowExtensionality(r1[0], LinkRow);
    RowExtensionality(r2[0], LinkRow);
    PassIgnoresForeignAnchors(t1, t2, t3, Kegg, t3, 0);
    assert r1 == [LinkRow] && r2 == [LinkRow];
  }

  /** The ChEBI pass on those tables gives the recon row the HMDB id of the
      curated row. */
  lemma ExampleChebiPass(t1: Table, t2: Table, t3: Table)
    requires t1 == [LinkRow] && t2 == [LinkRow] && t3 == [HmdbRow]
    ensures Step(Tables(t1, t2, t3), Chebi).first[0].hmdb == Some("H")
  {
    OfferedAt(t2, Chebi, "C", None, 0);
    OfferedAt(t3, Chebi, "C", Some("H"), 0);
    PassDictUniform(t1, t2, t3, Chebi, "C", Hmdb, 1, 0, None, None, Some("H"));
    var js := Join(t1, t2, t3, Chebi);
    var ds := Dictionaries(js, Chebi);
    assert ds[1] == PassDict(js, Chebi, 1);
    FillsFromDict(t1, Chebi, ds, 0, 1, "C");
  }

  /** A pass whose first table has no anchor value leaves the tables as
      they are. */
  lemma StepWithoutAnchors(ts: Tables, anchor: Namespace)
    requires forall q :: 0 <= q < |ts.first| ==> ts.first[q].Get(anchor).None?
    ensures Step(ts, anchor) == ts
  {
    PassWithoutAnchors(ts.first, ts.second, ts.third, anchor);
  }

  /** A run whose passes leave the tables as given ends in the last of them. */
  lemma RunThrough(ts: Tables, s1: Tables, s2: Tables, s3: Tables, s4: Tables)
    requires Step(ts, Chebi) == s1 && Step(s1, Kegg) == s2 && Step(s2, Hmdb) == s3 && Step(s3, Pubchem) == s4
    ensures Run(ts)[|Schedule|] == s4
  {
  }

  /** In a run, what the first pass fills stays filled. */
  lemma RunKeepsFirstPass(ts: Tables, i: nat, n: Namespace, v: string)
    requires i < |Step(ts, Chebi).first| && Step(ts, Chebi).first[i].Get(n) == Some(v)
    ensures i < |Run(ts)[|Schedule|].first| && Run(ts)[|Schedule|].first[i].Get(n) == Some(v)
  {
    var r := Run(ts);
    RunChain(ts);
    ChainExtends(r, 1, |Schedule|);
    assert RowExtends(r[1].first[i], r[|Schedule|].first[i]);
  }

  /** Once the recon row is known by ChEBI and KEGG ids only, the HMDB
      and PubChem passes change nothing. */
  lemma ExampleQuietPasses(done: Tables)
    requires done == Tables([LinkRow], [LinkRow], [HmdbRow])
    ensures Step(done, Hmdb) == done && Step(done, Pubchem) == done
  {
    StepWithoutAnchors(done, Hmdb);
    StepWithoutAnchors(done, Pubchem);
  }

  /** The first run: only the KEGG pass changes anything. */
  lemma ExampleFirstRun(ts: Tables, done: Tables)
    requires ts == Tables([ReconRow], [LinkRow], [HmdbRow])
    requires done == Tables([LinkRow], [LinkRow], [HmdbRow])
    ensures Run(ts)[|Schedule|] == done
  {
    StepWithoutAnchors(ts, Chebi);
    ExampleKeggPass(ts.first, ts.second, ts.third);
    ExampleQuietPasses(done);
    RunThrough(ts, ts, done, done, done);
  }

  /** The second run: its ChEBI pass fills the recon row's HMDB id, and the
      later passes keep it. */
  lemma ExampleSecondRun(done: Tables)
    requires done == Tables([LinkRow], [LinkRow], [HmdbRow])
    ensures Run(done)[|Schedule|].first[0].hmdb == Some("H")
  {
    ExampleChebiPass(done.first, done.second, done.third);
    RunKeepsFirstPass(done, 0, Hmdb, "H");
  }

  /** The four passes are not idempotent: running them again on their own
      output can still fill cells. Here the first run leaves the recon row
      without an HMDB id, because it learns its ChEBI id only in the KEGG
      pass, after the ChEBI pass; the second run's ChEBI pass then fills it. */
  lemma RunNotIdempotent(ts: Tables, done: Tables)
    requires ts == Tables([ReconRow], [LinkRow], [HmdbRow])
    requires done == Tables([LinkRow], [LinkRow], [HmdbRow])
    ensures Run(ts)[|Schedule|] == done
    ensures Run(ts)[|Schedule|].first[0].hmdb == None
    ensures Run(Run(ts)[|Schedule|])[|Schedule|].first[0].hmdb == Some("H")
  {
    ExampleFirstRun(ts, done);
    ExampleSecondRun(done);
  }
}
