/** The per-namespace string normalisers of `preprocess_metmaps` and
    `drop_nan`: ChEBI prefixing, KEGG compound extraction and HMDB zero
    padding, applied to the three mapping tables before reconciliation. */
module Normaliser {
  import opened Frames
  import opened Identifiers

  const ChebiPrefix: string := "CHEBI:"

  function Min(a: int, b: int): int
  {
    if a <= b then a else b
  }

  // ---------------------------------------------------------------- ChEBI

  /** The recon table's ChEBI rule: prefix a present value with `CHEBI:` unless
      it already starts with it; a missing value stays missing. */
  function ReconChebi(c: Cell): (r: Cell)
    ensures r.None? <==> c.None?
    ensures r.Some? ==> StartsWith(r.value, ChebiPrefix)
    ensures c.Some? && StartsWith(c.value, ChebiPrefix) ==> r == c
    ensures c.Some? && !StartsWith(c.value, ChebiPrefix) ==> r.value[|ChebiPrefix|..] == c.value
  {
    if c.Some? && !StartsWith(c.value, ChebiPrefix) then Some(ChebiPrefix + c.value) else c
  }

  /** The recon rule never prefixes twice, so applying it again changes nothing. */
  lemma ReconChebiIdempotent(c: Cell)
    ensures ReconChebi(ReconChebi(c)) == ReconChebi(c)
  {
  }

  /** The curated and HMDB-mapping tables' ChEBI rule: `'CHEBI:' + x` on every
      present value, with no test for an existing prefix. */
  function PrefixChebi(c: Cell): (r: Cell)
    ensures r.None? <==> c.None?
    ensures r.Some? ==> StartsWith(r.value, ChebiPrefix) && |r.value| == |ChebiPrefix| + |c.value|
  {
    match c
    case None => None
    case Some(s) => Some(ChebiPrefix + s)
  }

  /** The unconditional rule does prefix twice: a value that already carries
      the prefix gets a second one. */
  lemma PrefixChebiUnconditional(s: string)
    ensures PrefixChebi(Some(s)).value[|ChebiPrefix|..] == s
    ensures PrefixChebi(PrefixChebi(Some(s))) != PrefixChebi(Some(s))
  {
    assert |PrefixChebi(PrefixChebi(Some(s))).value| == |PrefixChebi(Some(s)).value| + 6;
  }

  // ----------------------------------------------------------------- KEGG

  /** One end of a Python slice: a negative index counts from the end, and
      both kinds are clamped to the string. */
  function SliceBound(len: nat, i: int): (b: nat)
    ensures b <= len
    ensures 0 <= i <= len ==> b == i
    ensures i < 0 && 0 <= i + len ==> b == i + len
    ensures i > len ==> b == len
    ensures i + len < 0 ==> b == 0
  {
    if i < 0 then (if i + len < 0 then 0 else i + len) else if i > len then len else i
  }

  /** `s[start:stop]` with Python's slice semantics. */
  function PySlice(s: string, start: int, stop: int): (r: string)
    ensures |r| <= |s|
  {
    var lo, hi := SliceBound(|s|, start), SliceBound(|s|, stop);
    if lo < hi then s[lo..hi] else ""
  }

  /** `x[x.find('C'):x.find('C')+6]` on a present value. */
  function Kegg(c: Cell): (r: Cell)
    ensures r.None? <==> c.None?
    ensures r.Some? ==> |r.value| <= 6
  {
    match c
    case None => None
    case Some(s) => var i := Find(s, 'C'); Some(PySlice(s, i, i + 6))
  }

  /** When `C` occurs, the result is the substring of at most six characters
      that starts at its first occurrence. */
  lemma KeggWithC(s: string)
    requires 'C' in s
    ensures var i := Find(s, 'C'); var r := Kegg(Some(s)).value;
      |r| == Min(6, |s| - i) && r == s[i..i + |r|] && r[0] == 'C' && 'C' !in s[..i]
  {
  }

  /** When `C` does not occur, `find` gives -1 and the slice is `x[-1:5]`: the
      last character of a value of one to five characters, and the empty string
      otherwise. The value is not turned into a missing one. */
  lemma KeggWithoutC(s: string)
    requires 'C' !in s
    ensures Kegg(Some(s)) == Some(if 1 <= |s| <= 5 then [s[|s| - 1]] else [])
  {
    assert Find(s, 'C') == -1;
    if s == [] {
      assert PySlice(s, -1, 5) == [];
    } else if |s| <= 5 {
      assert SliceBound(|s|, -1) == |s| - 1 && SliceBound(|s|, 5) == |s|;
      assert s[|s| - 1..|s|] == [s[|s| - 1]];
    } else {
      assert SliceBound(|s|, -1) == |s| - 1 && SliceBound(|s|, 5) == 5;
    }
  }

  /** Normalising a KEGG value twice is normalising it once. */
  lemma KeggIdempotent(c: Cell)
    ensures Kegg(Kegg(c)) == Kegg(c)
  {
    if c.Some? {
      var s := c.value;
      if 'C' in s {
        KeggWithC(s);
        var r := Kegg(c).value;
        assert Find(r, 'C') == 0;
        assert SliceBound(|r|, 0) == 0 && SliceBound(|r|, 6) == |r|;
        assert r[0..|r|] == r;
      } else {
        KeggWithoutC(s);
        var r := Kegg(c).value;
        assert 'C' !in r by {
          if |r| == 1 { assert r[0] == s[|s| - 1]; }
        }
        KeggWithoutC(r);
      }
    }
  }

  // ----------------------------------------------------------------- HMDB

  /** `'0' * k` for k >= 0. */
  function Zeros(k: nat): (z: string)
    ensures |z| == k
    ensures forall i :: 0 <= i < k ==> z[i] == '0'
  {
    if k == 0 then "" else "0" + Zeros(k - 1)
  }

  /** `x if len(x) == 11 else x[:4] + '0'*(11-len(x)) + x[4:]`: zeros go right
      after the first four characters, as many as bring the value to eleven
      characters; a longer value is kept as it is (a negative repeat count
      gives the empty string). */
  function PadHmdb(s: string): (r: string)
    ensures |r| == if |s| < 11 then 11 else |s|
    ensures var p := Min(4, |s|); var tail := |s| - p;
      r[..p] == s[..p] && r[|r| - tail..] == s[p..]
      && forall i :: p <= i < |r| - tail ==> r[i] == '0'
  {
    if |s| == 11 then s
    else
      var p := Min(4, |s|);
      s[..p] + Zeros(if |s| < 11 then 11 - |s| else 0) + s[p..]
  }

  /** A padded value is left as it is by a second padding. */
  lemma PadHmdbIdempotent(s: string)
    ensures PadHmdb(PadHmdb(s)) == PadHmdb(s)
  {
    var r := PadHmdb(s);
    if |r| != 11 {
      assert r[..4] + Zeros(0) + r[4..] == r;
    }
  }

  /** Padding keeps the first three characters of a long enough value and
      inserts zeros otherwise, so it neither creates nor removes a leading `nan`. */
  lemma PadKeepsNan(s: string)
    ensures StartsWith(PadHmdb(s), "nan") <==> StartsWith(s, "nan")
  {
    var r := PadHmdb(s);
    if |s| >= 4 {
      assert r[..3] == r[..4][..3] && s[..3] == s[..4][..3];
    } else if |s| == 3 {
      assert r[..3] == s[..3];
    } else {
      assert r[..3][|s|] == r[|s|] == '0';
      assert "nan"[|s|] != '0';
    }
  }

  /** The HMDB rule of both the curated and the recon table: `astype(str)`
      writes a missing value as `"nan"`, the value is padded, and any padded
      value that starts with `nan` becomes missing. */
  function Hmdb(c: Cell): (r: Cell)
    ensures c.None? ==> r.None?
    ensures r.Some? ==> |r.value| == (if |c.value| < 11 then 11 else |c.value|)
    ensures c.Some? ==> (r.None? <==> StartsWith(c.value, "nan"))
    ensures r.Some? ==> r.value == PadHmdb(c.value)
  {
    var s := if c.None? then "nan" else c.value;
    PadKeepsNan(s);
    var p := PadHmdb(s);
    if StartsWith(p, "nan") then None else Some(p)
  }

  /** Normalising an HMDB value twice is normalising it once. */
  lemma HmdbIdempotent(c: Cell)
    ensures Hmdb(Hmdb(c)) == Hmdb(c)
  {
    if Hmdb(c).Some? {
      PadHmdbIdempotent(c.value);
    }
  }

  // ------------------------------------------------------------- drop_nan

  /** A row as `drop_nan` sees it: the three candidate columns and the rest of
      the row. */
  datatype CandidateRow<R> = CandidateRow(rest: R, candidates: Slots)

  /** Line 277: a nine-character value gets `00` inserted after position 4. */
  function Widen(s: string): (r: string)
    ensures |s| == 9 ==> |r| == 11 && r[..4] == s[..4] && r[4..6] == "00" && r[6..] == s[4..]
    ensures |s| != 9 ==> r == s
  {
    if |s| == 9 then s[..4] + "00" + s[4..] else s
  }

  /** `drop_nan`: drops the rows whose three candidates are all missing, fills
      the first column from the second and then the third, keeps only that
      column, and widens nine-character values. */
  function DropNan<R>(rows: seq<CandidateRow<R>>): (r: seq<(R, string)>)
    ensures |r| <= |rows|
    decreases |rows|
  {
    if rows == [] then []
    else
      var init := DropNan(rows[..|rows| - 1]);
      var last := rows[|rows| - 1];
      var v := FirstPresent(last.candidates);
      if v.None? then init else init + [(last.rest, Widen(v.value))]
  }

  /** A row survives `drop_nan` exactly when one of its candidates is present,
      and it then carries its first present candidate, widened. */
  lemma {:induction false} DropNanRows<R(!new)>(rows: seq<CandidateRow<R>>)
    ensures forall p :: p in DropNan(rows) <==>
      exists i :: 0 <= i < |rows| && FirstPresent(rows[i].candidates).Some?
        && p == (rows[i].rest, Widen(FirstPresent(rows[i].candidates).value))
    decreases |rows|
  {
    if rows != [] {
      var init := rows[..|rows| - 1];
      DropNanRows(init);
      assert forall i :: 0 <= i < |init| ==> init[i] == rows[i];
    }
  }

  // ------------------------------------------------------ preprocess_metmaps

  /** The recon table's record: ChEBI prefixed if needed, KEGG extracted, HMDB
      padded, PubChem unchanged. */
  function NormaliseRecon(r: Row): Row
  {
    Row(ReconChebi(r.chebi), Kegg(r.kegg), Hmdb(r.hmdb), r.pubchem)
  }

  /** The curated table's record: ChEBI always prefixed, KEGG extracted, HMDB
      padded, PubChem unchanged. */
  function NormaliseCurated(r: Row): Row
  {
    Row(PrefixChebi(r.chebi), Kegg(r.kegg), Hmdb(r.hmdb), r.pubchem)
  }

  /** The HMDB mapping table's record: only ChEBI changes, always prefixed. */
  function NormaliseHmdbMapping(r: Row): Row
  {
    Row(PrefixChebi(r.chebi), r.kegg, r.hmdb, r.pubchem)
  }

  /** The three mapping tables, in the order `preprocess_metmaps` returns them. */
  datatype Sources = Sources(recon: Table, curated: Table, hmdbMapping: Table)

  function MapRows(t: Table, f: Row -> Row): (r: Table)
    ensures |r| == |t|
    ensures forall i :: 0 <= i < |t| ==> r[i] == f(t[i])
  {
    seq(|t|, i requires 0 <= i < |t| => f(t[i]))
  }

  /** `preprocess_metmaps`: each table keeps its rows and their order, and each
      record is normalised by its table's rule. */
  function PreprocessMetmaps(s: Sources): (r: Sources)
    ensures |r.recon| == |s.recon| && |r.curated| == |s.curated| && |r.hmdbMapping| == |s.hmdbMapping|
    ensures forall i :: 0 <= i < |s.recon| ==> r.recon[i] == NormaliseRecon(s.recon[i])
    ensures forall i :: 0 <= i < |s.curated| ==> r.curated[i] == NormaliseCurated(s.curated[i])
    ensures forall i :: 0 <= i < |s.hmdbMapping| ==> r.hmdbMapping[i] == NormaliseHmdbMapping(s.hmdbMapping[i])
  {
    Sources(MapRows(s.recon, NormaliseRecon), MapRows(s.curated, NormaliseCurated),
            MapRows(s.hmdbMapping, NormaliseHmdbMapping))
  }

  /** The recon table's normalisation is idempotent, and none of the three
      normalisations turns a missing cell into a present one. */
  lemma NormalisationProperties(r: Row)
    ensures NormaliseRecon(NormaliseRecon(r)) == NormaliseRecon(r)
    ensures forall n :: r.Get(n).None? ==> NormaliseRecon(r).Get(n).None?
    ensures forall n :: r.Get(n).None? ==> NormaliseCurated(r).Get(n).None?
    ensures forall n :: r.Get(n).None? ==> NormaliseHmdbMapping(r).Get(n).None?
  {
    ReconChebiIdempotent(r.chebi);
    KeggIdempotent(r.kegg);
    HmdbIdempotent(r.hmdb);
    assert ReconChebi(None) == None && PrefixChebi(None) == None && Kegg(None) == None && Hmdb(None) == None;
    forall n | r.Get(n).None?
      ensures NormaliseRecon(r).Get(n).None? && NormaliseCurated(r).Get(n).None? && NormaliseHmdbMapping(r).Get(n).None?
    {
      match n
      case Chebi =>
      case Kegg =>
      case Hmdb =>
      case Pubchem =>
    }
  }
}
