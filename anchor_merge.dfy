/** One reconciliation pass on one anchor namespace (`fill_missing_values`):
    merge the first table with the other two on the anchor, resolve each other
    namespace row by row, build anchor -> value dictionaries from the first
    table's side of the merge (`create_dict`) and fill only the missing cells of
    all three tables from them (`fillna_with_map`). */
module AnchorMerge {
  import opened Frames
  import opened Identifiers
  import opened Resolver

  // ------------------------------------------------------------- the merge

  /** One row of the merged table: the anchor value, then for each of the three
      tables its cells of the other three namespaces (its anchor cell is held as
      missing). Two such rows are equal exactly when the ten merged columns are. */
  datatype Joined = Joined(key: string, x: Row, y: Row, z: Row)

  /** A record without its anchor cell. */
  function Drop(r: Row, anchor: Namespace): (d: Row)
    ensures d.Get(anchor).None?
    ensures forall n :: n != anchor ==> d.Get(n) == r.Get(n)
  {
    r.Set(anchor, None)
  }

  /** The anchor values that occur in a table. */
  ghost predicate HasAnchor(t: Table, anchor: Namespace, key: string)
  {
    exists i :: 0 <= i < |t| && t[i].Get(anchor) == Some(key)
  }

  /** `df1.dropna(subset=[anchor])`: the first table's rows whose anchor is
      present, in order, with nothing joined yet. */
  function Anchored(t: Table, anchor: Namespace): (r: seq<Joined>)
    ensures |r| <= |t|
    ensures forall j :: j in r ==> HasAnchor(t, anchor, j.key)
    decreases |t|
  {
    if t == [] then []
    else
      var init := Anchored(t[..|t| - 1], anchor);
      assert forall i :: 0 <= i < |t| - 1 ==> t[..|t| - 1][i] == t[i];
      var last := t[|t| - 1];
      if last.Get(anchor).Some? then init + [Joined(last.Get(anchor).value, Drop(last, anchor), EmptyRow, EmptyRow)]
      else init
  }

  /** The anchored rows are exactly the first table's rows with a present
      anchor, each carrying that row's own other cells and nothing joined. */
  lemma {:induction false} AnchoredMembership(t: Table, anchor: Namespace)
    ensures forall j :: j in Anchored(t, anchor) <==>
      exists i :: 0 <= i < |t| && t[i].Get(anchor) == Some(j.key)
        && j == Joined(j.key, Drop(t[i], anchor), EmptyRow, EmptyRow)
    decreases |t|
  {
    if t != [] {
      var init := t[..|t| - 1];
      AnchoredMembership(init, anchor);
      assert forall i :: 0 <= i < |init| ==> init[i] == t[i];
    }
  }

  /** Which table a merge joins in: `df2` (the `_y` columns) or `df3`. */
  datatype Side = Second | Third

  function Attach(l: Joined, side: Side, r: Row): Joined
  {
    match side
    case Second => l.(y := r)
    case Third => l.(z := r)
  }

  /** The rows of t whose anchor cell holds key, in t's order, each without
      its anchor cell. */
  function Matches(t: Table, anchor: Namespace, key: string): (m: seq<Row>)
    ensures |m| <= |t|
    decreases |t|
  {
    if t == [] then []
    else
      var init := Matches(t[..|t| - 1], anchor, key);
      if t[|t| - 1].Get(anchor) == Some(key) then init + [Drop(t[|t| - 1], anchor)] else init
  }

  /** The rows collected for a key are exactly t's rows carrying that anchor
      value, each without its anchor cell. */
  lemma {:induction false} MatchesMembership(t: Table, anchor: Namespace, key: string)
    ensures forall r :: r in Matches(t, anchor, key) <==>
      exists i :: 0 <= i < |t| && t[i].Get(anchor) == Some(key) && r == Drop(t[i], anchor)
    decreases |t|
  {
    if t != [] {
      var init := t[..|t| - 1];
      MatchesMembership(init, anchor, key);
      assert forall i :: 0 <= i < |init| ==> init[i] == t[i];
    }
  }

  /** The rows one left row contributes to a left merge: one per row of t
      that matches its anchor value, carrying that row's cells, or the left row
      itself, with missing cells, when none matches. */
  function Block(l: Joined, t: Table, anchor: Namespace, side: Side): (b: seq<Joined>)
    ensures forall j :: j in b ==> j.key == l.key
  {
    var ms := Matches(t, anchor, l.key);
    if ms == [] then [l] else seq(|ms|, k requires 0 <= k < |ms| => Attach(l, side, ms[k]))
  }

  /** `pd.merge(left, t, how='left', on=anchor)`: every left row in order,
      followed by the rows it contributes. */
  function LeftMerge(left: seq<Joined>, t: Table, anchor: Namespace, side: Side): (r: seq<Joined>)
    ensures forall j :: j in r ==> exists l :: l in left && l.key == j.key
    decreases |left|
  {
    if left == [] then []
    else
      var init := LeftMerge(left[..|left| - 1], t, anchor, side);
      var l := left[|left| - 1];
      assert forall j :: j in init ==> exists l' :: l' in left && l'.key == j.key by {
        forall j | j in init ensures exists l' :: l' in left && l'.key == j.key {
          var l' :| l' in left[..|left| - 1] && l'.key == j.key;
          assert l' in left;
        }
      }
      init + Block(l, t, anchor, side)
  }

  /** The rows one left row contributes to a left merge: itself, with
      missing cells, when no row of t matches its key, and otherwise one row
      per match, carrying that match's cells. */
  ghost predicate MergedFrom(l: Joined, t: Table, anchor: Namespace, side: Side, j: Joined)
  {
    var ms := Matches(t, anchor, l.key);
    (ms == [] && j == l) || exists m :: m in ms && j == Attach(l, side, m)
  }

  lemma BlockMembership(l: Joined, t: Table, anchor: Namespace, side: Side, j: Joined)
    ensures j in Block(l, t, anchor, side) <==> MergedFrom(l, t, anchor, side, j)
  {
    var ms := Matches(t, anchor, l.key);
    if ms != [] && MergedFrom(l, t, anchor, side, j) {
      var m :| m in ms && j == Attach(l, side, m);
      var k :| 0 <= k < |ms| && ms[k] == m;
      assert Block(l, t, anchor, side)[k] == j;
    }
  }

  /** A left merge holds exactly the rows its left rows contribute. */
  lemma {:induction false} LeftMergeMembership(left: seq<Joined>, t: Table, anchor: Namespace, side: Side)
    ensures forall j :: j in LeftMerge(left, t, anchor, side) <==>
      exists l :: l in left && MergedFrom(l, t, anchor, side, j)
    decreases |left|
  {
    if left != [] {
      var init := left[..|left| - 1];
      var l := left[|left| - 1];
      LeftMergeMembership(init, t, anchor, side);
      assert left == init + [l];
      assert LeftMerge(left, t, anchor, side) == LeftMerge(init, t, anchor, side) + Block(l, t, anchor, side);
      forall j ensures j in LeftMerge(left, t, anchor, side) <==>
        exists l' :: l' in left && MergedFrom(l', t, anchor, side, j)
      {
        BlockMembership(l, t, anchor, side, j);
        if j in LeftMerge(init, t, anchor, side) {
          var l' :| l' in init && MergedFrom(l', t, anchor, side, j);
          assert l' in left;
        }
        if l' :| l' in left && MergedFrom(l', t, anchor, side, j) {
          if l' != l {
            assert l' in init;
          }
        }
      }
    }
  }

  /** The first left merge, on the second table, followed by
      `drop_duplicates()`. */
  function FirstMerge(t1: Table, t2: Table, anchor: Namespace): (r: seq<Joined>)
    ensures forall j :: j in r ==> HasAnchor(t1, anchor, j.key)
  {
    var a := Anchored(t1, anchor);
    var m1 := DropDuplicates(LeftMerge(a, t2, anchor, Second));
    assert forall j :: j in m1 ==> HasAnchor(t1, anchor, j.key) by {
      forall j | j in m1 ensures HasAnchor(t1, anchor, j.key) {
        var l :| l in a && l.key == j.key;
      }
    }
    m1
  }

  /** The merged table of a pass: the two left merges, each followed by
      `drop_duplicates()`. Every merged row's anchor value comes from the first
      table, and no row occurs twice. */
  function Join(t1: Table, t2: Table, t3: Table, anchor: Namespace): (r: seq<Joined>)
    ensures forall j :: j in r ==> HasAnchor(t1, anchor, j.key)
    ensures Distinct(r)
  {
    var m1 := FirstMerge(t1, t2, anchor);
    var m2 := DropDuplicates(LeftMerge(m1, t3, anchor, Third));
    assert forall j :: j in m2 ==> HasAnchor(t1, anchor, j.key) by {
      forall j | j in m2 ensures HasAnchor(t1, anchor, j.key) {
        var l :| l in m1 && l.key == j.key;
      }
    }
    m2
  }

  /** The cells a merge on t gives a key: missing when no row of t carries
      the key, otherwise those of one of the rows that do. */
  ghost predicate JoinsCells(t: Table, anchor: Namespace, key: string, r: Row)
  {
    var ms := Matches(t, anchor, key);
    if ms == [] then r == EmptyRow else r in ms
  }

  /** The other cells of a first-table row carrying the key. */
  ghost predicate AnchoredCells(t1: Table, anchor: Namespace, key: string, x: Row)
  {
    exists i :: 0 <= i < |t1| && t1[i].Get(anchor) == Some(key) && x == Drop(t1[i], anchor)
  }

  /** A row after the first merge: an anchored first-table row with the cells
      the second table gives its key, and nothing from the third yet. */
  ghost predicate FirstMergedFrom(t1: Table, t2: Table, anchor: Namespace, l: Joined)
  {
    AnchoredCells(t1, anchor, l.key, l.x) && JoinsCells(t2, anchor, l.key, l.y) && l.z == EmptyRow
  }

  /** A row of the merged table: the other cells of a first-table row with a
      present anchor, then the cells the second and the third table give its
      anchor value. */
  ghost predicate JoinedFrom(t1: Table, t2: Table, t3: Table, anchor: Namespace, j: Joined)
  {
    AnchoredCells(t1, anchor, j.key, j.x) && JoinsCells(t2, anchor, j.key, j.y) && JoinsCells(t3, anchor, j.key, j.z)
  }

  /** One left row contributes j to a merge exactly when j is that row with
      the cells the merge gives its key attached. */
  lemma MergedFromSecond(l: Joined, t: Table, anchor: Namespace, j: Joined)
    requires l.y == EmptyRow
    ensures MergedFrom(l, t, anchor, Second, j) <==>
      JoinsCells(t, anchor, l.key, j.y) && j == l.(y := j.y)
  {
    var ms := Matches(t, anchor, l.key);
    if ms != [] && JoinsCells(t, anchor, l.key, j.y) && j == l.(y := j.y) {
      assert j == Attach(l, Second, j.y);
    }
  }

  lemma MergedFromThird(l: Joined, t: Table, anchor: Namespace, j: Joined)
    requires l.z == EmptyRow
    ensures MergedFrom(l, t, anchor, Third, j) <==>
      JoinsCells(t, anchor, l.key, j.z) && j == l.(z := j.z)
  {
    var ms := Matches(t, anchor, l.key);
    if ms != [] && JoinsCells(t, anchor, l.key, j.z) && j == l.(z := j.z) {
      assert j == Attach(l, Third, j.z);
    }
  }

  /** The first merge holds exactly the anchored first-table rows with the
      cells the second table gives their keys. */
  lemma FirstMergeMembership(t1: Table, t2: Table, anchor: Namespace, l: Joined)
    ensures l in FirstMerge(t1, t2, anchor) <==> FirstMergedFrom(t1, t2, anchor, l)
  {
    var a := Anchored(t1, anchor);
    AnchoredMembership(t1, anchor);
    LeftMergeMembership(a, t2, anchor, Second);
    if l in FirstMerge(t1, t2, anchor) {
      var l0 :| l0 in a && MergedFrom(l0, t2, anchor, Second, l);
      MergedFromSecond(l0, t2, anchor, l);
    }
    if FirstMergedFrom(t1, t2, anchor, l) {
      var i :| 0 <= i < |t1| && t1[i].Get(anchor) == Some(l.key) && l.x == Drop(t1[i], anchor);
      var l0 := Joined(l.key, Drop(t1[i], anchor), EmptyRow, EmptyRow);
      assert l0 in a;
      MergedFromSecond(l0, t2, anchor, l);
    }
  }

  /** The merged table holds exactly the rows built that way: every anchored
      row of the first table enters with its own cells, paired with every
      matching row of the second table and then of the third, or with missing
      cells where a table has no match. */
  lemma JoinMembership(t1: Table, t2: Table, t3: Table, anchor: Namespace, j: Joined)
    ensures j in Join(t1, t2, t3, anchor) <==> JoinedFrom(t1, t2, t3, anchor, j)
  {
    var m1 := FirstMerge(t1, t2, anchor);
    LeftMergeMembership(m1, t3, anchor, Third);
    if j in Join(t1, t2, t3, anchor) {
      var l :| l in m1 && MergedFrom(l, t3, anchor, Third, j);
      FirstMergeMembership(t1, t2, anchor, l);
      MergedFromThird(l, t3, anchor, j);
    }
    if JoinedFrom(t1, t2, t3, anchor, j) {
      var l := j.(z := EmptyRow);
      FirstMergeMembership(t1, t2, anchor, l);
      MergedFromThird(l, t3, anchor, j);
    }
  }

  // --------------------------------------------------- resolving the merge

  /** The three cells of namespace n in a merged row (`test.iloc[:, [k, k+3, k+6]]`). */
  function Column(j: Joined, n: Namespace): Slots
  {
    Slots(j.x.Get(n), j.y.Get(n), j.z.Get(n))
  }

  /** Writing back the three cells of namespace n. */
  function WriteColumn(j: Joined, n: Namespace, s: Slots): (r: Joined)
    ensures r.key == j.key
    ensures Column(r, n) == s
    ensures forall m :: m != n ==> Column(r, m) == Column(j, m)
  {
    Joined(j.key, j.x.Set(n, s.x), j.y.Set(n, s.y), j.z.Set(n, s.z))
  }

  /** Two merged rows with the same key and the same cells in every namespace
      are the same row. */
  lemma JoinedExtensionality(a: Joined, b: Joined)
    requires a.key == b.key
    requires forall n :: Column(a, n) == Column(b, n)
    ensures a == b
  {
    forall n ensures a.x.Get(n) == b.x.Get(n) && a.y.Get(n) == b.y.Get(n) && a.z.Get(n) == b.z.Get(n) {
      assert Column(a, n) == Column(b, n);
    }
    RowExtensionality(a.x, b.x);
    RowExtensionality(a.y, b.y);
    RowExtensionality(a.z, b.z);
  }

  function Columns(js: seq<Joined>, n: Namespace): (r: seq<Slots>)
    ensures |r| == |js|
    ensures forall i :: 0 <= i < |js| ==> r[i] == Column(js[i], n)
  {
    seq(|js|, i requires 0 <= i < |js| => Column(js[i], n))
  }

  function WriteColumns(js: seq<Joined>, n: Namespace, s: seq<Slots>): (r: seq<Joined>)
    requires |s| == |js|
    ensures |r| == |js|
    ensures forall i :: 0 <= i < |js| ==> r[i] == WriteColumn(js[i], n, s[i])
  {
    seq(|js|, i requires 0 <= i < |js| => WriteColumn(js[i], n, s[i]))
  }

  /** What a pass leaves in namespace n of a merged row: the anchor's cells are
      untouched, every other namespace's cells are resolved. */
  function ResolvedColumn(j: Joined, anchor: Namespace, n: Namespace): Slots
  {
    if n == anchor then Column(j, n) else Resolve(Column(j, n)).slots
  }

  /** A merged row after the three `check_fill` calls, each namespace resolved
      on its own cells only. */
  function ResolveRow(j: Joined, anchor: Namespace): (r: Joined)
    ensures r.key == j.key
  {
    var c := (n: Namespace) => ResolvedColumn(j, anchor, n);
    Joined(j.key,
      Row(c(Chebi).x, c(Kegg).x, c(Hmdb).x, c(Pubchem).x),
      Row(c(Chebi).y, c(Kegg).y, c(Hmdb).y, c(Pubchem).y),
      Row(c(Chebi).z, c(Kegg).z, c(Hmdb).z, c(Pubchem).z))
  }

  lemma ResolveRowColumn(j: Joined, anchor: Namespace, n: Namespace)
    ensures Column(ResolveRow(j, anchor), n) == ResolvedColumn(j, anchor, n)
  {
    match n
    case Chebi =>
    case Kegg =>
    case Hmdb =>
    case Pubchem =>
  }

  function Resolved(js: seq<Joined>, anchor: Namespace): (r: seq<Joined>)
    ensures |r| == |js|
    ensures forall i :: 0 <= i < |js| ==> r[i] == ResolveRow(js[i], anchor)
  {
    seq(|js|, i requires 0 <= i < |js| => ResolveRow(js[i], anchor))
  }

  /** The three successive `check_fill` calls of a pass, each on the table the
      previous one left, amount to resolving every non-anchor namespace of the
      original merged table independently: each call reads and writes only its
      own namespace's cells. */
  lemma {:induction false} SuccessiveCheckFills(js: seq<Joined>, anchor: Namespace)
    ensures var o := Others(anchor);
      var j1 := WriteColumns(js, o[0], ResolveAll(Columns(js, o[0])));
      var j2 := WriteColumns(j1, o[1], ResolveAll(Columns(j1, o[1])));
      var j3 := WriteColumns(j2, o[2], ResolveAll(Columns(j2, o[2])));
      Columns(j1, o[1]) == Columns(js, o[1]) && Columns(j2, o[2]) == Columns(js, o[2])
      && j3 == Resolved(js, anchor)
  {
    var o := Others(anchor);
    var j1 := WriteColumns(js, o[0], ResolveAll(Columns(js, o[0])));
    var j2 := WriteColumns(j1, o[1], ResolveAll(Columns(j1, o[1])));
    var j3 := WriteColumns(j2, o[2], ResolveAll(Columns(j2, o[2])));
    WriteColumnsKeepsOthers(js, o[0], ResolveAll(Columns(js, o[0])), o[1]);
    WriteColumnsKeepsOthers(js, o[0], ResolveAll(Columns(js, o[0])), o[2]);
    WriteColumnsKeepsOthers(j1, o[1], ResolveAll(Columns(j1, o[1])), o[2]);
    forall i | 0 <= i < |js| ensures j3[i] == ResolveRow(js[i], anchor) {
      ThreeWritesRow(js[i], j1[i], j2[i], j3[i], anchor);
    }
    assert j3 == Resolved(js, anchor);
  }

  /** Writing the cells of one namespace leaves the other namespaces' cells. */
  lemma WriteColumnsKeepsOthers(js: seq<Joined>, n: Namespace, s: seq<Slots>, m: Namespace)
    requires |s| == |js| && m != n
    ensures Columns(WriteColumns(js, n, s), m) == Columns(js, m)
  {
  }

  /** One merged row through the three writes of a pass. */
  lemma ThreeWritesRow(j: Joined, j1: Joined, j2: Joined, j3: Joined, anchor: Namespace)
    requires var o := Others(anchor);
      j1 == WriteColumn(j, o[0], Resolve(Column(j, o[0])).slots)
      && j2 == WriteColumn(j1, o[1], Resolve(Column(j, o[1])).slots)
      && j3 == WriteColumn(j2, o[2], Resolve(Column(j, o[2])).slots)
    ensures j3 == ResolveRow(j, anchor)
  {
    forall n ensures Column(j3, n) == Column(ResolveRow(j, anchor), n) {
      ResolveRowColumn(j, anchor, n);
      ThreeWritesColumn(j, j1, j2, j3, anchor, n);
    }
    JoinedExtensionality(j3, ResolveRow(j, anchor));
  }

  lemma ThreeWritesColumn(j: Joined, j1: Joined, j2: Joined, j3: Joined, anchor: Namespace, n: Namespace)
    requires var o := Others(anchor);
      j1 == WriteColumn(j, o[0], Resolve(Column(j, o[0])).slots)
      && j2 == WriteColumn(j1, o[1], Resolve(Column(j, o[1])).slots)
      && j3 == WriteColumn(j2, o[2], Resolve(Column(j, o[2])).slots)
    ensures Column(j3, n) == ResolvedColumn(j, anchor, n)
  {
    var o := Others(anchor);
    if n != anchor {
      OthersCover(anchor, n);
    }
    if n == o[0] {
      assert Column(j1, n) == Resolve(Column(j, n)).slots;
    } else if n == o[1] {
      assert Column(j2, n) == Resolve(Column(j, n)).slots;
    } else if n == o[2] {
      assert Column(j3, n) == Resolve(Column(j, n)).slots;
    } else {
      assert n == anchor;
    }
  }

  // ---------------------------------------------------------- dictionaries

  /** `zip(test[anchor], test[n + '_x'])`: the first table's side of the merge. */
  function Pairs(js: seq<Joined>, n: Namespace): (p: seq<(string, Cell)>)
    ensures |p| == |js|
    ensures forall i :: 0 <= i < |js| ==> p[i] == (js[i].key, js[i].x.Get(n))
  {
    seq(|js|, i requires 0 <= i < |js| => (js[i].key, js[i].x.Get(n)))
  }

  /** `dropna(subset=[value column])`: the pairs whose value is present. */
  function PresentPairs(pairs: seq<(string, Cell)>): (r: seq<(string, string)>)
    decreases |pairs|
  {
    if pairs == [] then []
    else
      var last := pairs[|pairs| - 1];
      PresentPairs(pairs[..|pairs| - 1]) + (if last.1.Some? then [(last.0, last.1.value)] else [])
  }

  lemma {:induction false} PresentPairsKeys(pairs: seq<(string, Cell)>, k: string)
    ensures (exists i :: 0 <= i < |PresentPairs(pairs)| && PresentPairs(pairs)[i].0 == k)
        <==> (exists i :: 0 <= i < |pairs| && pairs[i].0 == k && pairs[i].1.Some?)
    decreases |pairs|
  {
    if pairs != [] {
      var init := pairs[..|pairs| - 1];
      var last := pairs[|pairs| - 1];
      var p0 := PresentPairs(init);
      var p := PresentPairs(pairs);
      PresentPairsKeys(init, k);
      assert forall i :: 0 <= i < |p0| ==> p[i] == p0[i];
      assert forall i :: 0 <= i < |init| ==> init[i] == pairs[i];
      if i :| 0 <= i < |pairs| && pairs[i].0 == k && pairs[i].1.Some? {
        if i == |pairs| - 1 {
          assert p[|p| - 1].0 == k;
        } else {
          assert init[i].0 == k;
        }
      }
    }
  }

  /** `create_dict`: `dict(zip(keys, values))` over the pairs with a present
      value. */
  function CreateDict(pairs: seq<(string, Cell)>): map<string, string>
  {
    ZipDict(PresentPairs(pairs))
  }

  /** A key is in the dictionary exactly when some pair with a present value
      carries it. */
  lemma CreateDictKeys(pairs: seq<(string, Cell)>, k: string)
    ensures k in CreateDict(pairs) <==> exists i :: 0 <= i < |pairs| && pairs[i].0 == k && pairs[i].1.Some?
  {
    var p := PresentPairs(pairs);
    PresentPairsKeys(pairs, k);
    assert k in ZipDict(p) <==> exists i :: 0 <= i < |p| && p[i].0 == k;
  }

  /** Adding a pair at the end writes its key when its value is present. */
  lemma CreateDictSnoc(pairs: seq<(string, Cell)>)
    requires pairs != []
    ensures var init := pairs[..|pairs| - 1]; var last := pairs[|pairs| - 1];
      CreateDict(pairs) == if last.1.Some? then CreateDict(init)[last.0 := last.1.value] else CreateDict(init)
  {
    var init := pairs[..|pairs| - 1];
    var last := pairs[|pairs| - 1];
    var p := PresentPairs(pairs);
    if last.1.Some? {
      assert p[..|p| - 1] == PresentPairs(init);
    } else {
      assert p == PresentPairs(init);
    }
  }

  /** For a repeated key the last pair with a present value wins. */
  lemma {:induction false} CreateDictLastWins(pairs: seq<(string, Cell)>, i: nat)
    requires i < |pairs| && pairs[i].1.Some?
    requires forall j :: i < j < |pairs| && pairs[j].0 == pairs[i].0 ==> pairs[j].1.None?
    ensures pairs[i].0 in CreateDict(pairs)
    ensures CreateDict(pairs)[pairs[i].0] == pairs[i].1.value
    decreases |pairs|
  {
    var init := pairs[..|pairs| - 1];
    CreateDictSnoc(pairs);
    if i < |pairs| - 1 {
      assert init[i] == pairs[i];
      CreateDictLastWins(init, i);
    }
  }

  /** A key whose every pair carries the same present value maps to it. */
  lemma {:induction false} CreateDictAgreeing(pairs: seq<(string, Cell)>, key: string, v: string)
    requires exists i :: 0 <= i < |pairs| && pairs[i].0 == key
    requires forall i :: 0 <= i < |pairs| && pairs[i].0 == key ==> pairs[i].1 == Some(v)
    ensures key in CreateDict(pairs) && CreateDict(pairs)[key] == v
    decreases |pairs|
  {
    var init := pairs[..|pairs| - 1];
    CreateDictSnoc(pairs);
    if pairs[|pairs| - 1].0 != key {
      var i :| 0 <= i < |pairs| && pairs[i].0 == key;
      assert init[i] == pairs[i];
      assert forall q :: 0 <= q < |init| ==> init[q] == pairs[q];
      CreateDictAgreeing(init, key, v);
    }
  }

  /** The dictionary of the k-th non-anchor namespace, built from the first
      table's side of the resolved merged table. */
  function PassDict(js: seq<Joined>, anchor: Namespace, k: nat): map<string, string>
    requires k < 3
  {
    CreateDict(Pairs(Resolved(js, anchor), Others(anchor)[k]))
  }

  /** The three dictionaries of a pass, one per non-anchor namespace. */
  function Dictionaries(js: seq<Joined>, anchor: Namespace): (ds: seq<map<string, string>>)
    ensures |ds| == 3
    ensures forall k :: 0 <= k < 3 ==> ds[k] == PassDict(js, anchor, k)
  {
    seq(3, k requires 0 <= k < 3 => PassDict(js, anchor, k))
  }

  /** The dictionaries of a pass, one by one. */
  lemma DictionariesUnfold(js: seq<Joined>, anchor: Namespace)
    ensures Dictionaries(js, anchor) == [PassDict(js, anchor, 0), PassDict(js, anchor, 1), PassDict(js, anchor, 2)]
  {
    var ds := Dictionaries(js, anchor);
    var es := [PassDict(js, anchor, 0), PassDict(js, anchor, 1), PassDict(js, anchor, 2)];
    assert ds[0] == es[0] && ds[1] == es[1] && ds[2] == es[2];
  }

  /** Every key of a pass dictionary is the anchor value of a merged row. */
  lemma PassDictKeys(js: seq<Joined>, anchor: Namespace, k: nat, key: string)
    requires k < 3 && key in PassDict(js, anchor, k)
    ensures exists j :: j in js && j.key == key
  {
    var p := Pairs(Resolved(js, anchor), Others(anchor)[k]);
    CreateDictKeys(p, key);
    var i :| 0 <= i < |p| && p[i].0 == key && p[i].1.Some?;
    assert js[i] in js;
  }

  /** Only the first table's rows drive the dictionaries: every key is an
      anchor value present in the first table. */
  lemma DictionaryKeysFromFirstTable(t1: Table, t2: Table, t3: Table, anchor: Namespace, k: nat, key: string)
    requires k < 3
    ensures key in Dictionaries(Join(t1, t2, t3, anchor), anchor)[k] ==> HasAnchor(t1, anchor, key)
  {
    if key in Dictionaries(Join(t1, t2, t3, anchor), anchor)[k] {
      PassDictKeys(Join(t1, t2, t3, anchor), anchor, k, key);
    }
  }

  // ------------------------------------------------------------ filling

  /** What `df[n].fillna(df[anchor].map(d))` leaves in a row's cell of n. */
  function Filled(r: Row, anchor: Namespace, n: Namespace, d: map<string, string>): Cell
  {
    if r.Get(n).None? && r.Get(anchor).Some? && r.Get(anchor).value in d
    then Some(d[r.Get(anchor).value])
    else r.Get(n)
  }

  /** One column assignment of `fillna_with_map`. */
  function FillColumn(t: Table, anchor: Namespace, n: Namespace, d: map<string, string>): (r: Table)
    ensures |r| == |t|
    ensures forall i :: 0 <= i < |t| ==> r[i] == t[i].Set(n, Filled(t[i], anchor, n, d))
  {
    seq(|t|, i requires 0 <= i < |t| => t[i].Set(n, Filled(t[i], anchor, n, d)))
  }

  function FillRow(r: Row, anchor: Namespace, ds: seq<map<string, string>>): Row
    requires |ds| == 3
  {
    var o := Others(anchor);
    r.Set(o[0], Filled(r, anchor, o[0], ds[0]))
     .Set(o[1], Filled(r, anchor, o[1], ds[1]))
     .Set(o[2], Filled(r, anchor, o[2], ds[2]))
  }

  /** A table after `fillna_with_map`: same rows in the same order, the anchor
      column unchanged, and in each other namespace a present cell kept while a
      missing cell is filled exactly when the row's anchor is present and is a
      key of that namespace's dictionary. */
  function FillNa(t: Table, anchor: Namespace, ds: seq<map<string, string>>): (r: Table)
    requires |ds| == 3
    ensures |r| == |t|
    ensures forall i :: 0 <= i < |t| ==> r[i].Get(anchor) == t[i].Get(anchor)
    ensures forall i, k :: 0 <= i < |t| && 0 <= k < 3 && t[i].Get(Others(anchor)[k]).Some? ==>
      r[i].Get(Others(anchor)[k]) == t[i].Get(Others(anchor)[k])
    ensures forall i, k :: 0 <= i < |t| && 0 <= k < 3 && t[i].Get(Others(anchor)[k]).None? ==>
      r[i].Get(Others(anchor)[k]) ==
        (if t[i].Get(anchor).Some? && t[i].Get(anchor).value in ds[k]
         then Some(ds[k][t[i].Get(anchor).value]) else None)
  {
    seq(|t|, i requires 0 <= i < |t| => FillRow(t[i], anchor, ds))
  }

  /** Filling keeps every row and every present value. */
  lemma FillNaExtends(t: Table, anchor: Namespace, ds: seq<map<string, string>>)
    requires |ds| == 3
    ensures Extends(t, FillNa(t, anchor, ds))
  {
    var r := FillNa(t, anchor, ds);
    forall i | 0 <= i < |t| ensures RowExtends(t[i], r[i]) {
      forall n | t[i].Get(n).Some? ensures r[i].Get(n) == t[i].Get(n) {
        if n != anchor {
          OthersCover(anchor, n);
        }
      }
    }
  }

  /** `fillna_with_map`: on a copy of the table, fills one namespace column
      after the other, each from its own dictionary. */
  method FillNaWithMap(df: Table, anchor: Namespace, ds: seq<map<string, string>>) returns (r: Table)
    requires |ds| == 3
    ensures r == FillNa(df, anchor, ds)
  {
    var cols := Others(anchor);
    r := df;
    for counter := 0 to 3
      invariant |r| == |df|
      invariant forall i :: 0 <= i < |df| ==> r[i].Get(anchor) == df[i].Get(anchor)
      invariant forall i, k :: 0 <= i < |df| && 0 <= k < counter ==>
        r[i].Get(cols[k]) == Filled(df[i], anchor, cols[k], ds[k])
      invariant forall i, k :: 0 <= i < |df| && counter <= k < 3 ==> r[i].Get(cols[k]) == df[i].Get(cols[k])
    {
      r := FillColumn(r, anchor, cols[counter], ds[counter]);
    }
    forall i | 0 <= i < |df| ensures r[i] == FillRow(df[i], anchor, ds) {
      forall n ensures r[i].Get(n) == FillRow(df[i], anchor, ds).Get(n) {
        if n != anchor {
          OthersCover(anchor, n);
        }
      }
      RowExtensionality(r[i], FillRow(df[i], anchor, ds));
    }
  }

  // ------------------------------------------------------------- the pass

  /** The three tables after a pass on the given anchor. */
  function Pass(t1: Table, t2: Table, t3: Table, anchor: Namespace): (Table, Table, Table)
  {
    var ds := Dictionaries(Join(t1, t2, t3, anchor), anchor);
    (FillNa(t1, anchor, ds), FillNa(t2, anchor, ds), FillNa(t3, anchor, ds))
  }

  /** The conflicts the three `check_fill` calls of a pass count. */
  function PassConflicts(t1: Table, t2: Table, t3: Table, anchor: Namespace): nat
  {
    MergedConflicts(Join(t1, t2, t3, anchor), anchor)
  }

  /** A pass keeps every table's rows, in order, keeps every present value,
      and leaves the anchor column exactly as it was. */
  lemma PassExtends(t1: Table, t2: Table, t3: Table, anchor: Namespace)
    ensures var p := Pass(t1, t2, t3, anchor);
      Extends(t1, p.0) && Extends(t2, p.1) && Extends(t3, p.2)
    ensures var p := Pass(t1, t2, t3, anchor);
      (forall i :: 0 <= i < |t1| ==> p.0[i].Get(anchor) == t1[i].Get(anchor))
      && (forall i :: 0 <= i < |t2| ==> p.1[i].Get(anchor) == t2[i].Get(anchor))
      && (forall i :: 0 <= i < |t3| ==> p.2[i].Get(anchor) == t3[i].Get(anchor))
  {
    var ds := Dictionaries(Join(t1, t2, t3, anchor), anchor);
    FillNaExtends(t1, anchor, ds);
    FillNaExtends(t2, anchor, ds);
    FillNaExtends(t3, anchor, ds);
  }

  /** A row whose anchor value does not occur in the first table, or is
      missing, is left as it is by the pass, whichever table it is in. */
  lemma PassIgnoresForeignAnchors(t1: Table, t2: Table, t3: Table, anchor: Namespace, t: Table, i: nat)
    requires t == t1 || t == t2 || t == t3
    requires i < |t|
    requires t[i].Get(anchor).None? || !HasAnchor(t1, anchor, t[i].Get(anchor).value)
    ensures FillNa(t, anchor, Dictionaries(Join(t1, t2, t3, anchor), anchor))[i] == t[i]
  {
    var ds := Dictionaries(Join(t1, t2, t3, anchor), anchor);
    var o := Others(anchor);
    var r := FillNa(t, anchor, ds);
    forall n ensures r[i].Get(n) == t[i].Get(n) {
      if n != anchor {
        OthersCover(anchor, n);
        var k :| 0 <= k < 3 && o[k] == n;
        if t[i].Get(anchor).Some? && t[i].Get(anchor).value in ds[k] {
          DictionaryKeysFromFirstTable(t1, t2, t3, anchor, k, t[i].Get(anchor).value);
        }
      }
    }
    RowExtensionality(r[i], t[i]);
  }

  /** A table with no row carrying the key has nothing to merge for it. */
  lemma {:induction false} NoMatches(t: Table, anchor: Namespace, key: string)
    requires forall q :: 0 <= q < |t| ==> t[q].Get(anchor) != Some(key)
    ensures Matches(t, anchor, key) == []
    decreases |t|
  {
    if t != [] {
      NoMatches(t[..|t| - 1], anchor, key);
    }
  }

  /** The cells a merge on t gives a key that t's rows all fill with v in
      namespace n hold v there. */
  lemma JoinsCellsValue(t: Table, anchor: Namespace, key: string, n: Namespace, v: string, r: Row, i: nat)
    requires n != anchor
    requires i < |t| && t[i].Get(anchor) == Some(key)
    requires forall q :: 0 <= q < |t| && t[q].Get(anchor) == Some(key) ==> t[q].Get(n) == Some(v)
    requires JoinsCells(t, anchor, key, r)
    ensures r.Get(n) == Some(v)
  {
    MatchesMembership(t, anchor, key);
    assert Drop(t[i], anchor) in Matches(t, anchor, key);
    var q :| 0 <= q < |t| && t[q].Get(anchor) == Some(key) && r == Drop(t[q], anchor);
  }

  /** Under the conditions of PassFillsFromSecondTable every merged row for
      the key resolves namespace n to v. */
  lemma MergedRowResolvesToSecond(t1: Table, t2: Table, t3: Table, anchor: Namespace,
                                  key: string, n: Namespace, v: string, i2: nat, j: Joined)
    requires n != anchor
    requires forall q :: 0 <= q < |t1| && t1[q].Get(anchor) == Some(key) ==> t1[q].Get(n).None?
    requires i2 < |t2| && t2[i2].Get(anchor) == Some(key)
    requires forall q :: 0 <= q < |t2| && t2[q].Get(anchor) == Some(key) ==> t2[q].Get(n) == Some(v)
    requires forall q :: 0 <= q < |t3| ==> t3[q].Get(anchor) != Some(key)
    requires j in Join(t1, t2, t3, anchor) && j.key == key
    ensures ResolveRow(j, anchor).x.Get(n) == Some(v)
  {
    JoinMembership(t1, t2, t3, anchor, j);
    var q :| 0 <= q < |t1| && t1[q].Get(anchor) == Some(key) && j.x == Drop(t1[q], anchor);
    JoinsCellsValue(t2, anchor, key, n, v, j.y, i2);
    NoMatches(t3, anchor, key);
    assert Column(j, n) == Slots(None, Some(v), None);
    SparseRows(Column(j, n));
    ResolveRowColumn(j, anchor, n);
  }

  /** The cells a merge on t gives a key: a matching row's without its
      anchor cell, or missing cells when no row matches. */
  function Offer(t: Table, anchor: Namespace, key: string): (r: Row)
  {
    var ms := Matches(t, anchor, key);
    if ms == [] then EmptyRow else ms[0]
  }

  /** Every anchored row of the first table reaches the merged table. */
  lemma KeyInJoin(t1: Table, t2: Table, t3: Table, anchor: Namespace, key: string, i: nat)
    returns (p: nat)
    requires i < |t1| && t1[i].Get(anchor) == Some(key)
    ensures p < |Join(t1, t2, t3, anchor)| && Join(t1, t2, t3, anchor)[p].key == key
  {
    var j0 := Joined(key, Drop(t1[i], anchor), Offer(t2, anchor, key), Offer(t3, anchor, key));
    assert AnchoredCells(t1, anchor, key, j0.x);
    assert JoinsCells(t2, anchor, key, j0.y);
    assert JoinsCells(t3, anchor, key, j0.z);
    JoinMembership(t1, t2, t3, anchor, j0);
    var js := Join(t1, t2, t3, anchor);
    p :| 0 <= p < |js| && js[p] == j0;
  }

  /** Under the same conditions the pass dictionary of namespace n maps the
      key to v. */
  lemma PassDictFromSecondTable(t1: Table, t2: Table, t3: Table, anchor: Namespace,
                                key: string, n: Namespace, v: string, i: nat, i2: nat, k: nat)
    requires n != anchor && k < 3 && Others(anchor)[k] == n
    requires i < |t1| && t1[i].Get(anchor) == Some(key)
    requires forall q :: 0 <= q < |t1| && t1[q].Get(anchor) == Some(key) ==> t1[q].Get(n).None?
    requires i2 < |t2| && t2[i2].Get(anchor) == Some(key)
    requires forall q :: 0 <= q < |t2| && t2[q].Get(anchor) == Some(key) ==> t2[q].Get(n) == Some(v)
    requires forall q :: 0 <= q < |t3| ==> t3[q].Get(anchor) != Some(key)
    ensures key in PassDict(Join(t1, t2, t3, anchor), anchor, k)
    ensures PassDict(Join(t1, t2, t3, anchor), anchor, k)[key] == v
  {
    var js := Join(t1, t2, t3, anchor);
    var p := KeyInJoin(t1, t2, t3, anchor, key, i);
    var pairs := Pairs(Resolved(js, anchor), n);
    forall q | 0 <= q < |pairs| && pairs[q].0 == key ensures pairs[q].1 == Some(v) {
      MergedRowResolvesToSecond(t1, t2, t3, anchor, key, n, v, i2, js[q]);
    }
    assert pairs[p].0 == key;
    CreateDictAgreeing(pairs, key, v);
  }

  /** Propagation through the second table: when every first-table row
      with anchor value key lacks namespace n, every second-table row with that
      value holds v in n, and the third table has no row with it, the pass
      fills the first table's row with v. */
  lemma PassFillsFromSecondTable(t1: Table, t2: Table, t3: Table, anchor: Namespace,
                                 key: string, n: Namespace, v: string, i: nat, i2: nat)
    requires n != anchor
    requires i < |t1| && t1[i].Get(anchor) == Some(key)
    requires forall q :: 0 <= q < |t1| && t1[q].Get(anchor) == Some(key) ==> t1[q].Get(n).None?
    requires i2 < |t2| && t2[i2].Get(anchor) == Some(key)
    requires forall q :: 0 <= q < |t2| && t2[q].Get(anchor) == Some(key) ==> t2[q].Get(n) == Some(v)
    requires forall q :: 0 <= q < |t3| ==> t3[q].Get(anchor) != Some(key)
    ensures Pass(t1, t2, t3, anchor).0[i].Get(n) == Some(v)
  {
    var js := Join(t1, t2, t3, anchor);
    var ds := Dictionaries(js, anchor);
    OthersCover(anchor, n);
    var k :| 0 <= k < 3 && Others(anchor)[k] == n;
    PassDictFromSecondTable(t1, t2, t3, anchor, key, n, v, i, i2, k);
    assert ds[k] == PassDict(js, anchor, k);
    assert t1[i].Get(Others(anchor)[k]).None?;
  }

  /** Every row of t carrying the key holds c in namespace n. */
  ghost predicate KeyCells(t: Table, anchor: Namespace, key: string, n: Namespace, c: Cell)
  {
    forall q :: 0 <= q < |t| && t[q].Get(anchor) == Some(key) ==> t[q].Get(n) == c
  }

  /** The cell a merge on t gives namespace n of the key when t's rows with
      that key all hold c there: c, or missing when no row carries the key. */
  ghost function Offered(t: Table, anchor: Namespace, key: string, c: Cell): Cell
  {
    if HasAnchor(t, anchor, key) then c else None
  }

  lemma JoinsCellsUniform(t: Table, anchor: Namespace, key: string, n: Namespace, c: Cell, r: Row)
    requires n != anchor
    requires KeyCells(t, anchor, key, n, c)
    requires JoinsCells(t, anchor, key, r)
    ensures r.Get(n) == Offered(t, anchor, key, c)
  {
    MatchesMembership(t, anchor, key);
    if HasAnchor(t, anchor, key) {
      var i :| 0 <= i < |t| && t[i].Get(anchor) == Some(key);
      assert Drop(t[i], anchor) in Matches(t, anchor, key);
      var q :| 0 <= q < |t| && t[q].Get(anchor) == Some(key) && r == Drop(t[q], anchor);
    } else {
      NoMatches(t, anchor, key);
    }
  }

  /** When, in each table, the rows carrying the key all hold the same cell
      of namespace n, every merged row of the key has the same three cells,
      and the pass dictionary of n holds the key exactly when resolving those
      cells leaves the first table's slot present, mapping it to that value. */
  lemma PassDictUniform(t1: Table, t2: Table, t3: Table, anchor: Namespace, key: string,
                        n: Namespace, k: nat, i: nat, c1: Cell, c2: Cell, c3: Cell)
    requires k < 3 && Others(anchor)[k] == n
    requires i < |t1| && t1[i].Get(anchor) == Some(key)
    requires KeyCells(t1, anchor, key, n, c1) && KeyCells(t2, anchor, key, n, c2) && KeyCells(t3, anchor, key, n, c3)
    ensures var v := Resolve(Slots(c1, Offered(t2, anchor, key, c2), Offered(t3, anchor, key, c3))).slots.x;
      var d := PassDict(Join(t1, t2, t3, anchor), anchor, k);
      (key in d <==> v.Some?) && (v.Some? ==> d[key] == v.value)
  {
    var js := Join(t1, t2, t3, anchor);
    var sl := Slots(c1, Offered(t2, anchor, key, c2), Offered(t3, anchor, key, c3));
    var v := Resolve(sl).slots.x;
    var pairs := Pairs(Resolved(js, anchor), n);
    forall q | 0 <= q < |pairs| && pairs[q].0 == key ensures pairs[q].1 == v {
      var j := js[q];
      JoinMembership(t1, t2, t3, anchor, j);
      var i' :| 0 <= i' < |t1| && t1[i'].Get(anchor) == Some(key) && j.x == Drop(t1[i'], anchor);
      JoinsCellsUniform(t2, anchor, key, n, c2, j.y);
      JoinsCellsUniform(t3, anchor, key, n, c3, j.z);
      assert Column(j, n) == sl;
      ResolveRowColumn(j, anchor, n);
    }
    var p := KeyInJoin(t1, t2, t3, anchor, key, i);
    assert pairs[p].0 == key;
    CreateDictKeys(pairs, key);
    if v.Some? {
      CreateDictAgreeing(pairs, key, v.value);
    }
  }

  /** A table with a row carrying the key offers that key the cell its rows
      hold. */
  lemma OfferedAt(t: Table, anchor: Namespace, key: string, c: Cell, q: nat)
    requires q < |t| && t[q].Get(anchor) == Some(key)
    ensures Offered(t, anchor, key, c) == c
  {
  }

  /** A table without a row carrying the key offers it a missing cell. */
  lemma OfferedAbsent(t: Table, anchor: Namespace, key: string, c: Cell)
    requires forall q :: 0 <= q < |t| ==> t[q].Get(anchor) != Some(key)
    ensures Offered(t, anchor, key, c) == None
  {
  }

  /** A missing cell whose row's anchor is no key of that namespace's
      dictionary stays missing. */
  lemma StaysMissing(t: Table, anchor: Namespace, ds: seq<map<string, string>>, i: nat, k: nat, key: string)
    requires |ds| == 3 && k < 3 && i < |t|
    requires t[i].Get(anchor) == Some(key) && t[i].Get(Others(anchor)[k]).None?
    requires key !in ds[k]
    ensures FillNa(t, anchor, ds)[i].Get(Others(anchor)[k]) == None
  {
  }

  /** A missing cell whose row's anchor is a key of that namespace's
      dictionary is filled with the dictionary's value. */
  lemma FillsFromDict(t: Table, anchor: Namespace, ds: seq<map<string, string>>, i: nat, k: nat, key: string)
    requires |ds| == 3 && k < 3 && i < |t|
    requires t[i].Get(anchor) == Some(key) && t[i].Get(Others(anchor)[k]).None?
    requires key in ds[k]
    ensures FillNa(t, anchor, ds)[i].Get(Others(anchor)[k]) == Some(ds[k][key])
  {
  }

  /** A pass whose first table has no anchor value changes nothing. */
  lemma PassWithoutAnchors(t1: Table, t2: Table, t3: Table, anchor: Namespace)
    requires forall q :: 0 <= q < |t1| ==> t1[q].Get(anchor).None?
    ensures Pass(t1, t2, t3, anchor) == (t1, t2, t3)
  {
    var p := Pass(t1, t2, t3, anchor);
    forall i | 0 <= i < |t1| ensures p.0[i] == t1[i] {
      PassIgnoresForeignAnchors(t1, t2, t3, anchor, t1, i);
    }
    forall i | 0 <= i < |t2| ensures p.1[i] == t2[i] {
      PassIgnoresForeignAnchors(t1, t2, t3, anchor, t2, i);
    }
    forall i | 0 <= i < |t3| ensures p.2[i] == t3[i] {
      PassIgnoresForeignAnchors(t1, t2, t3, anchor, t3, i);
    }
    assert p.0 == t1 && p.1 == t2 && p.2 == t3;
  }

  /** The conflicts the three `check_fill` calls count on a merged table. */
  function MergedConflicts(js: seq<Joined>, anchor: Namespace): nat
  {
    var o := Others(anchor);
    Conflicts(Columns(js, o[0])) + Conflicts(Columns(js, o[1])) + Conflicts(Columns(js, o[2]))
  }

  /** Lines 242-244: `check_fill` on the three non-anchor namespaces of the
      merged table, in column order, each result written back before the next. */
  method CheckFillMerged(js: seq<Joined>, anchor: Namespace) returns (merged: seq<Joined>, conflicts: nat)
    ensures merged == Resolved(js, anchor)
    ensures conflicts == MergedConflicts(js, anchor)
  {
    var o := Others(anchor);
    SuccessiveCheckFills(js, anchor);
    merged := js;
    var col, c := CheckFill(Columns(merged, o[0]));
    merged := WriteColumns(merged, o[0], col);
    conflicts := c;
    col, c := CheckFill(Columns(merged, o[1]));
    merged := WriteColumns(merged, o[1], col);
    conflicts := conflicts + c;
    col, c := CheckFill(Columns(merged, o[2]));
    merged := WriteColumns(merged, o[2], col);
    conflicts := conflicts + c;
  }

  /** `fill_missing_values`: merges, resolves the merged table, builds the
      three dictionaries and fills the three tables, returning the conflicts
      counted on the way. */
  method FillMissingValues(df1: Table, df2: Table, df3: Table, anchor: Namespace)
    returns (r1: Table, r2: Table, r3: Table, conflicts: nat)
    ensures (r1, r2, r3) == Pass(df1, df2, df3, anchor)
    ensures conflicts == PassConflicts(df1, df2, df3, anchor)
    ensures Extends(df1, r1) && Extends(df2, r2) && Extends(df3, r3)
  {
    var o := Others(anchor);
    var test := Join(df1, df2, df3, anchor);
    ghost var original := test;
    test, conflicts := CheckFillMerged(test, anchor);

    var d1 := CreateDict(Pairs(test, o[0]));
    var d2 := CreateDict(Pairs(test, o[1]));
    var d3 := CreateDict(Pairs(test, o[2]));
    assert d1 == PassDict(original, anchor, 0);
    assert d2 == PassDict(original, anchor, 1);
    assert d3 == PassDict(original, anchor, 2);
    DictionariesUnfold(original, anchor);
    var ds := [d1, d2, d3];

    r1 := FillNaWithMap(df1, anchor, ds);
    r2 := FillNaWithMap(df2, anchor, ds);
    r3 := FillNaWithMap(df3, anchor, ds);
    PassExtends(df1, df2, df3, anchor);
  }
}
