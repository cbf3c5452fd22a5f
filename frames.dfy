/** The few data-frame operations the adapter relies on, stated on sequences:
    a cell that may be missing, `drop_duplicates()`, `zip` and `dict(zip(...))`. */
module Frames {

  /** A cell of a data frame: a value, or missing (`NaN`). */
  datatype Option<+T> = None | Some(value: T)

  /** True when no element occurs twice. */
  ghost predicate Distinct<T>(s: seq<T>)
  {
    forall i, j :: 0 <= i < j < |s| ==> s[i] != s[j]
  }

  /** `drop_duplicates()`: keeps the first occurrence of every element, in order.
      (pandas compares whole rows and treats two missing cells as equal, which is
      what equality of datatype values does.) */
  function DropDuplicates<T(==,!new)>(s: seq<T>): (r: seq<T>)
    ensures forall x :: x in r <==> x in s
    ensures Distinct(r)
    ensures |r| <= |s|
    decreases |s|
  {
    if s == [] then []
    else
      var init := DropDuplicates(s[..|s| - 1]);
      if s[|s| - 1] in s[..|s| - 1] then init else init + [s[|s| - 1]]
  }

  /** A sequence that holds no duplicates is left as it is. */
  lemma {:induction false} DropDuplicatesOfDistinct<T(!new)>(s: seq<T>)
    requires Distinct(s)
    ensures DropDuplicates(s) == s
    decreases |s|
  {
    if s != [] {
      var init := s[..|s| - 1];
      assert Distinct(init);
      DropDuplicatesOfDistinct(init);
      assert s[|s| - 1] !in init by {
        forall i | 0 <= i < |init| ensures init[i] != s[|s| - 1] {
          assert s[i] != s[|s| - 1];
        }
      }
      assert init + [s[|s| - 1]] == s;
    }
  }

  /** `zip(a, b)`: pairs elements by position, up to the shorter length. */
  function Zip<A, B>(a: seq<A>, b: seq<B>): (r: seq<(A, B)>)
    ensures |r| == if |a| <= |b| then |a| else |b|
    ensures forall i :: 0 <= i < |r| ==> r[i] == (a[i], b[i])
  {
    if |a| == 0 || |b| == 0 then [] else [(a[0], b[0])] + Zip(a[1..], b[1..])
  }

  /** `dict(zip(keys, values))`: each pair writes its key in turn, so a later
      pair overrides an earlier one with the same key. */
  function ZipDict<K(!new), V>(pairs: seq<(K, V)>): (d: map<K, V>)
    ensures forall k :: k in d <==> exists i :: 0 <= i < |pairs| && pairs[i].0 == k
    decreases |pairs|
  {
    if pairs == [] then map[]
    else
      var init := pairs[..|pairs| - 1];
      var d0 := ZipDict(init);
      assert forall i :: 0 <= i < |init| ==> init[i] == pairs[i];
      d0[pairs[|pairs| - 1].0 := pairs[|pairs| - 1].1]
  }

  /** The value stored for a key is the value of some pair carrying the key. */
  lemma {:induction false} ZipDictValue<K(!new), V>(pairs: seq<(K, V)>, k: K)
    requires k in ZipDict(pairs)
    ensures exists i :: 0 <= i < |pairs| && pairs[i] == (k, ZipDict(pairs)[k])
    decreases |pairs|
  {
    var last := pairs[|pairs| - 1];
    if last.0 != k {
      var init := pairs[..|pairs| - 1];
      ZipDictValue(init, k);
      var i :| 0 <= i < |init| && init[i] == (k, ZipDict(init)[k]);
      assert pairs[i] == init[i];
    } else {
      assert pairs[|pairs| - 1] == (k, ZipDict(pairs)[k]);
    }
  }

  /** The value stored for a key is that of the LAST pair carrying the key. */
  lemma {:induction false} ZipDictLastWins<K(!new), V>(pairs: seq<(K, V)>, i: nat)
    requires i < |pairs|
    requires forall j :: i < j < |pairs| ==> pairs[j].0 != pairs[i].0
    ensures pairs[i].0 in ZipDict(pairs)
    ensures ZipDict(pairs)[pairs[i].0] == pairs[i].1
    decreases |pairs|
  {
    if i < |pairs| - 1 {
      var init := pairs[..|pairs| - 1];
      ZipDictLastWins(init, i);
    }
  }

  /** The elements of s that satisfy p, in order (a boolean mask `df[mask]`). */
  function Filter<T>(s: seq<T>, p: T -> bool): (r: seq<T>)
    ensures |r| <= |s|
    decreases |s|
  {
    if s == [] then []
    else Filter(s[..|s| - 1], p) + (if p(s[|s| - 1]) then [s[|s| - 1]] else [])
  }

  lemma {:induction false} FilterMembership<T(!new)>(s: seq<T>, p: T -> bool)
    ensures forall x :: x in Filter(s, p) <==> x in s && p(x)
    decreases |s|
  {
    if s != [] {
      var init := s[..|s| - 1];
      FilterMembership(init, p);
      assert s == init + [s[|s| - 1]];
    }
  }

  /** Filtering a duplicate-free sequence leaves it duplicate-free. */
  lemma {:induction false} FilterDistinct<T(!new)>(s: seq<T>, p: T -> bool)
    requires Distinct(s)
    ensures Distinct(Filter(s, p))
    decreases |s|
  {
    if s != [] {
      var init := s[..|s| - 1];
      assert Distinct(init);
      FilterDistinct(init, p);
      FilterMembership(init, p);
      assert s[|s| - 1] !in init by {
        forall i | 0 <= i < |init| ensures init[i] != s[|s| - 1] {
          assert s[i] != s[|s| - 1];
        }
      }
    }
  }

  /** The blocks laid end to end, in order. */
  function Flatten<T>(blocks: seq<seq<T>>): (r: seq<T>)
    decreases |blocks|
  {
    if blocks == [] then [] else Flatten(blocks[..|blocks| - 1]) + blocks[|blocks| - 1]
  }

  lemma {:induction false} FlattenMembership<T(!new)>(blocks: seq<seq<T>>)
    ensures forall x :: x in Flatten(blocks) <==> exists i :: 0 <= i < |blocks| && x in blocks[i]
    decreases |blocks|
  {
    if blocks != [] {
      var init := blocks[..|blocks| - 1];
      FlattenMembership(init);
      assert forall i :: 0 <= i < |init| ==> init[i] == blocks[i];
    }
  }

  /** Blocks of equal width w laid end to end hold |blocks| * w elements. */
  lemma {:induction false} FlattenLength<T>(blocks: seq<seq<T>>, w: nat)
    requires forall i :: 0 <= i < |blocks| ==> |blocks[i]| == w
    ensures |Flatten(blocks)| == |blocks| * w
    decreases |blocks|
  {
    if blocks != [] {
      var init := blocks[..|blocks| - 1];
      FlattenLength(init, w);
      assert |blocks| * w == |init| * w + w;
    }
  }

  /** In blocks of equal width w laid end to end, block i's element j sits at
      position i * w + j. */
  lemma {:induction false} FlattenAt<T>(blocks: seq<seq<T>>, w: nat, i: nat, j: nat)
    requires forall q :: 0 <= q < |blocks| ==> |blocks[q]| == w
    requires i < |blocks| && j < w
    ensures i * w + j < |Flatten(blocks)| && Flatten(blocks)[i * w + j] == blocks[i][j]
    decreases |blocks|
  {
    var init := blocks[..|blocks| - 1];
    var f := Flatten(blocks);
    FlattenLength(init, w);
    assert f == Flatten(init) + blocks[|blocks| - 1];
    if i < |init| {
      FlattenAt(init, w, i, j);
      assert init[i] == blocks[i];
    } else {
      assert i * w == |init| * w;
    }
  }

  /** `df.loc[mask, col] = value`: the masked cells of the column take the
      value, the others keep theirs. */
  method LocAssign<T>(column: seq<T>, mask: seq<bool>, value: T) returns (r: seq<T>)
    requires |mask| == |column|
    ensures |r| == |column|
    ensures forall i :: 0 <= i < |column| ==> r[i] == if mask[i] then value else column[i]
  {
    r := column;
    for i := 0 to |column|
      invariant |r| == |column|
      invariant forall k :: 0 <= k < i ==> r[k] == if mask[k] then value else column[k]
      invariant forall k :: i <= k < |column| ==> r[k] == column[k]
    {
      if mask[i] {
        r := r[i := value];
      }
    }
  }

  // ------------------------------------------------ Python string methods

  /** `s.startswith(p)`. */
  predicate StartsWith(s: string, p: string)
  {
    |p| <= |s| && s[..|p|] == p
  }

  /** `s.find(c)`: the first index of c in s, or -1 when c does not occur. */
  function Find(s: string, c: char): (r: int)
    ensures -1 <= r < |s|
    ensures r == -1 <==> c !in s
    ensures r >= 0 ==> s[r] == c && c !in s[..r]
    decreases |s|
  {
    if s == [] then -1
    else if s[0] == c then 0
    else
      var f := Find(s[1..], c);
      assert forall i :: 0 <= i < f ==> s[1..][..f][i] == s[..f + 1][i + 1];
      if f < 0 then -1 else f + 1
  }

  /** Any index holding the first occurrence of c is the one `find` reports. */
  lemma FindFirst(s: string, c: char, i: nat)
    requires i < |s| && s[i] == c && c !in s[..i]
    ensures Find(s, c) == i
  {
  }

  /** `s.split(sep)[0]`: the text before the first sep, or all of s. */
  function SplitHead(s: string, sep: char): (r: string)
    ensures r <= s && sep !in r
    ensures sep in s ==> |r| < |s| && s[|r|] == sep
    ensures sep !in s ==> r == s
  {
    var i := Find(s, sep);
    if i < 0 then s else s[..i]
  }

  /** `s.split(sep)[1]`: the text between the first and the second sep (or
      the end); missing when sep does not occur, where Python raises
      IndexError. */
  function SplitSecond(s: string, sep: char): (r: Option<string>)
    ensures r.None? <==> sep !in s
    ensures r.Some? ==> sep !in r.value
  {
    var i := Find(s, sep);
    if i < 0 then None else Some(SplitHead(s[i + 1..], sep))
  }

  /** The pieces `split` returns around a separator-free head. */
  lemma SplitOfJoin(head: string, sep: char, rest: string)
    requires sep !in head
    ensures SplitHead(head + [sep] + rest, sep) == head
    ensures SplitSecond(head + [sep] + rest, sep) == Some(SplitHead(rest, sep))
    ensures sep !in rest ==> SplitHead(rest, sep) == rest
  {
    var s := head + [sep] + rest;
    assert s[..|head|] == head;
    FindFirst(s, sep, |head|);
    assert s[|head| + 1..] == rest;
  }

  /** `sub in s` on strings (`str.contains`): sub occurs as a substring. */
  predicate Contains(s: string, sub: string)
    decreases |s|
  {
    StartsWith(s, sub) || (s != [] && Contains(s[1..], sub))
  }

}
