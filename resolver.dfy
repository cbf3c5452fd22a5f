/** The per-row three-slot conflict resolver (`check_fill`): reconciles the
    three cells that the three source tables hold for one namespace of one
    merged row, and counts the rows in conflict. */
module Resolver {
  import opened Frames
  import opened Identifiers

  /** Pandas' `==` on two cells: a missing value equals nothing, not even
      another missing value. */
  predicate Same(a: Cell, b: Cell)
  {
    a.Some? && b.Some? && a.value == b.value
  }

  /** `row.isna().sum()`. */
  function Missing(s: Slots): (m: nat)
    ensures m <= 3
    ensures m == 0 <==> s.x.Some? && s.y.Some? && s.z.Some?
    ensures m == 3 <==> s.x.None? && s.y.None? && s.z.None?
  {
    (if s.x.None? then 1 else 0) + (if s.y.None? then 1 else 0) + (if s.z.None? then 1 else 0)
  }

  /** `df.iloc[i, row.isna()] = v`: every missing slot takes v. */
  function FillMissing(s: Slots, v: Cell): Slots
  {
    Slots(if s.x.None? then v else s.x, if s.y.None? then v else s.y, if s.z.None? then v else s.z)
  }

  /** All three slots holding c. */
  function Uniform(c: Cell): Slots
  {
    Slots(c, c, c)
  }

  /** The present values among the slots. */
  function Values(s: Slots): set<string>
  {
    (if s.x.Some? then {s.x.value} else {}) + (if s.y.Some? then {s.y.value} else {})
      + (if s.z.Some? then {s.z.value} else {})
  }

  /** What one iteration of `check_fill` does to a row: the new slots, and
      whether the row is appended to the conflict list. */
  datatype Outcome = Outcome(slots: Slots, conflict: bool)

  /** The decision of `check_fill` for one row. Whatever the case, a row with
      any present value leaves with all three slots present, every value it
      leaves with is one it came with, and it is a conflict exactly when at
      most one slot is missing and no two slots hold the same value. */
  function Resolve(s: Slots): (o: Outcome)
    ensures Missing(s) < 3 ==> Missing(o.slots) == 0
    ensures Values(o.slots) <= Values(s)
    ensures o.conflict <==> Missing(s) <= 1 && !Same(s.x, s.y) && !Same(s.x, s.z) && !Same(s.y, s.z)
  {
    if Missing(s) <= 1 then
      if Same(s.x, s.y) && Same(s.x, s.z) then Outcome(s, false)
      else if Same(s.x, s.y) then Outcome(s.(z := s.x), false)
      else if Same(s.x, s.z) then Outcome(s.(y := s.x), false)
      else if Same(s.y, s.z) then Outcome(s.(x := s.y), false)
      else Outcome(FillMissing(s, FirstPresent(s)), true)
    else if Missing(s) == 2 then Outcome(FillMissing(s, FirstPresent(s)), false)
    else Outcome(s, false)
  }

  /** Sparse rows: a row with two missing slots gets both filled with its one
      present value; a row with three missing slots, or with three equal
      values, is left as it is; neither is a conflict. */
  lemma SparseRows(s: Slots)
    ensures Missing(s) == 2 ==> Resolve(s) == Outcome(Uniform(FirstPresent(s)), false)
    ensures Missing(s) == 3 ==> Resolve(s) == Outcome(s, false)
    ensures Same(s.x, s.y) && Same(s.y, s.z) ==> Resolve(s) == Outcome(s, false)
  {
  }

  /** Majority rule: with at most one slot missing, any two slots holding the
      same value make that value the row's value in all three slots, whether
      the third slot was missing or held a different value, and the row is no
      conflict. (The three pairs are tested in the order x=y, x=z, y=z, but two
      agreeing pairs always share a slot, so the order cannot change the
      outcome.) */
  lemma MajorityRule(s: Slots)
    requires Missing(s) <= 1
    ensures Same(s.x, s.y) ==> Resolve(s) == Outcome(Uniform(s.x), false)
    ensures Same(s.x, s.z) ==> Resolve(s) == Outcome(Uniform(s.x), false)
    ensures Same(s.y, s.z) ==> Resolve(s) == Outcome(Uniform(s.y), false)
  {
  }

  /** Conflict rule: with at most one slot missing and no two slots equal,
      only a missing slot changes, to the first present value in column order,
      and the row is a conflict; three pairwise distinct values stay as they
      are. */
  lemma ConflictRule(s: Slots)
    requires Missing(s) <= 1
    requires !Same(s.x, s.y) && !Same(s.x, s.z) && !Same(s.y, s.z)
    ensures Resolve(s) == Outcome(FillMissing(s, FirstPresent(s)), true)
    ensures Missing(s) == 0 ==> Resolve(s).slots == s
    ensures s.x.Some? ==> Resolve(s).slots.x == s.x
    ensures s.y.Some? ==> Resolve(s).slots.y == s.y
    ensures s.z.Some? ==> Resolve(s).slots.z == s.z
  {
  }

  /** The slots of every row after `check_fill`. */
  function ResolveAll(rows: seq<Slots>): (r: seq<Slots>)
    ensures |r| == |rows|
    ensures forall i :: 0 <= i < |rows| ==> r[i] == Resolve(rows[i]).slots
  {
    seq(|rows|, i requires 0 <= i < |rows| => Resolve(rows[i]).slots)
  }

  /** The length of `check_fill`'s conflict list: one per conflicting row. */
  function Conflicts(rows: seq<Slots>): (c: nat)
    ensures c <= |rows|
    decreases |rows|
  {
    if rows == [] then 0
    else Conflicts(rows[..|rows| - 1]) + (if Resolve(rows[|rows| - 1]).conflict then 1 else 0)
  }

  /** No conflict is counted exactly when no row is a conflict. */
  lemma {:induction false} ConflictsZero(rows: seq<Slots>)
    ensures Conflicts(rows) == 0 <==> forall i :: 0 <= i < |rows| ==> !Resolve(rows[i]).conflict
    decreases |rows|
  {
    if rows != [] {
      var init := rows[..|rows| - 1];
      ConflictsZero(init);
      assert forall i :: 0 <= i < |init| ==> init[i] == rows[i];
    }
  }

  /** The indices of the rows that `check_fill` appends to its conflict list. */
  ghost function ConflictRows(rows: seq<Slots>): set<int>
  {
    set i | 0 <= i < |rows| && Resolve(rows[i]).conflict
  }

  /** A trailing row adds its own index when it is a conflict. */
  lemma ConflictRowsSnoc(rows: seq<Slots>, c: bool)
    requires rows != [] && c == Resolve(rows[|rows| - 1]).conflict
    ensures ConflictRows(rows) == ConflictRows(rows[..|rows| - 1]) + (if c then {|rows| - 1} else {})
  {
    var n := |rows| - 1;
    var init := rows[..n];
    forall i ensures i in ConflictRows(rows) <==> i in ConflictRows(init) + (if c then {n} else {}) {
      if 0 <= i < n { assert init[i] == rows[i]; }
    }
  }

  /** The conflict count is exactly the number of conflicting rows. */
  lemma {:induction false} ConflictsCount(rows: seq<Slots>)
    ensures Conflicts(rows) == |ConflictRows(rows)|
    decreases |rows|
  {
    if rows != [] {
      var n := |rows| - 1;
      var c := Resolve(rows[n]).conflict;
      ConflictsCount(rows[..n]);
      ConflictRowsSnoc(rows, c);
      assert n !in ConflictRows(rows[..n]);
    }
  }

  /** `check_fill`: works on a copy of the three columns, row by row, writing
      the decided cells and counting the rows in conflict. */
  method CheckFill(df: seq<Slots>) returns (out: seq<Slots>, conflicts: nat)
    ensures out == ResolveAll(df)
    ensures conflicts == Conflicts(df)
  {
    out := df;
    conflicts := 0;
    for i := 0 to |df|
      invariant |out| == |df|
      invariant forall k :: 0 <= k < i ==> out[k] == Resolve(df[k]).slots
      invariant forall k :: i <= k < |df| ==> out[k] == df[k]
      invariant conflicts == Conflicts(df[..i])
    {
      var row := df[i];
      assert df[..i + 1][..i] == df[..i];
      assert Conflicts(df[..i + 1]) == Conflicts(df[..i]) + if Resolve(row).conflict then 1 else 0;
      if Missing(row) <= 1 {
        if Same(row.x, row.y) && Same(row.x, row.z) {
          continue;
        } else if Same(row.x, row.y) {
          out := out[i := row.(z := row.x)];
          continue;
        } else if Same(row.x, row.z) {
          out := out[i := row.(y := row.x)];
          continue;
        } else if Same(row.y, row.z) {
          out := out[i := row.(x := row.y)];
          continue;
        } else {
          out := out[i := FillMissing(row, FirstPresent(row))];
          conflicts := conflicts + 1;
        }
      } else if Missing(row) == 2 {
        out := out[i := FillMissing(row, FirstPresent(row))];
      }
    }
    assert df[..|df|] == df;
  }
}
