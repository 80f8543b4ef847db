/**
 * Top-N and bottom-N selection on one column of a table (a table's
 * `nlargest` and `nsmallest`). Which of several rows with equal values is
 * kept is not specified: every property below holds up to ties.
 */
module Ranking {
  import opened Grouping

  function Min(a: int, b: int): int { if a <= b then a else b }

  /** `s` is in non-increasing order of `f`. */
  ghost predicate SortedDesc<T>(s: seq<T>, f: T -> real) {
    forall i, j :: 0 <= i < j < |s| ==> f(s[i]) >= f(s[j])
  }

  /** `s` is in non-decreasing order of `f`. */
  ghost predicate SortedAsc<T>(s: seq<T>, f: T -> real) {
    forall i, j :: 0 <= i < j < |s| ==> f(s[i]) <= f(s[j])
  }

  /** Insert `x` into `s`, before the first row whose value it does not exceed from below. */
  function InsertDesc<T(==)>(x: T, s: seq<T>, f: T -> real): (r: seq<T>)
    requires SortedDesc(s, f)
    ensures SortedDesc(r, f)
    ensures multiset(r) == multiset(s) + multiset{x}
  {
    if s == [] || f(x) >= f(s[0]) then [x] + s
    else
      var rest := InsertDesc(x, s[1..], f);
      assert s == [s[0]] + s[1..];
      HeadDominates(s[0], s[1..], x, rest, f);
      [s[0]] + rest
  }

  /** A head at least as large as every other row, above a sorted rest made of those rows, gives a sorted table. */
  lemma HeadDominates<T>(h: T, t: seq<T>, x: T, rest: seq<T>, f: T -> real)
    requires SortedDesc([h] + t, f) && f(h) >= f(x)
    requires SortedDesc(rest, f) && multiset(rest) == multiset(t) + multiset{x}
    ensures SortedDesc([h] + rest, f)
  {
    forall i | 0 <= i < |rest| ensures f(h) >= f(rest[i]) {
      assert rest[i] in multiset(rest);
      if rest[i] != x {
        assert rest[i] in multiset(t);
        var k :| 0 <= k < |t| && t[k] == rest[i];
        assert ([h] + t)[0] == h && ([h] + t)[k + 1] == t[k];
      }
    }
  }

  /** The rows of `s` in non-increasing order of `f`; rows with equal values keep their table order. */
  function SortDesc<T(==)>(s: seq<T>, f: T -> real): (r: seq<T>)
    ensures SortedDesc(r, f)
    ensures multiset(r) == multiset(s)
  {
    if s == [] then []
    else
      assert s == [s[0]] + s[1..];
      InsertDesc(s[0], SortDesc(s[1..], f), f)
  }

  /**
   * `r` is a choice of the `n` rows of `s` with the largest values of `f`,
   * largest first: all rows when there are fewer than `n`, each taken from
   * `s`, and every row kept at least as large as every row dropped.
   */
  ghost predicate IsTopN<T>(s: seq<T>, r: seq<T>, n: nat, f: T -> real) {
    && |r| == Min(n, |s|)
    && multiset(r) <= multiset(s)
    && SortedDesc(r, f)
    && (forall i, j :: 0 <= i < |r| && 0 <= j < |s| && multiset(r)[s[j]] < multiset(s)[s[j]] ==>
         f(r[i]) >= f(s[j]))
    // the same two facts, for tables without repeated rows
    && (forall i :: 0 <= i < |r| ==> r[i] in s)
    && (forall i, j :: 0 <= i < |r| && 0 <= j < |s| && s[j] !in r ==> f(r[i]) >= f(s[j]))
  }

  /** `r` is a choice of the `n` rows of `s` with the smallest values of `f`, smallest first. */
  ghost predicate IsBottomN<T>(s: seq<T>, r: seq<T>, n: nat, f: T -> real) {
    && |r| == Min(n, |s|)
    && multiset(r) <= multiset(s)
    && SortedAsc(r, f)
    && (forall i, j :: 0 <= i < |r| && 0 <= j < |s| && multiset(r)[s[j]] < multiset(s)[s[j]] ==>
         f(r[i]) <= f(s[j]))
    && (forall i :: 0 <= i < |r| ==> r[i] in s)
    && (forall i, j :: 0 <= i < |r| && 0 <= j < |s| && s[j] !in r ==> f(r[i]) <= f(s[j]))
  }

  /** The `n` rows of `s` with the largest values of `f` (a table's `nlargest`). */
  function NLargest<T(==)>(s: seq<T>, n: nat, f: T -> real): (r: seq<T>)
    ensures IsTopN(s, r, n, f)
  {
    var t := SortDesc(s, f);
    SortedPrefixIsTopN(s, t, n, f);
    t[..Min(n, |s|)]
  }

  /** The first `n` rows of a sorted rearrangement of `s` are a top-`n` selection from `s`. */
  lemma SortedPrefixIsTopN<T>(s: seq<T>, t: seq<T>, n: nat, f: T -> real)
    requires SortedDesc(t, f) && multiset(t) == multiset(s)
    ensures |t| == |s|
    ensures IsTopN(s, t[..Min(n, |s|)], n, f)
  {
    var m := Min(n, |s|);
    assert |t| == |multiset(t)| == |s|;
    PrefixDominates(t, m, f);
    var r := t[..m];
    assert SortedDesc(r, f) by {
      forall i, j | 0 <= i < j < |r| ensures f(r[i]) >= f(r[j]) {
        assert r[i] == t[i] && r[j] == t[j];
      }
    }
    DroppedRows(s, r, f, true);
  }

  /**
   * For a selection `r` from `s`: each kept row is a row of `s`, and a row
   * of `s` absent from `r` is one of those dropped, so the bound on dropped
   * rows applies to it.
   */
  lemma DroppedRows<T>(s: seq<T>, r: seq<T>, f: T -> real, largest: bool)
    requires multiset(r) <= multiset(s)
    requires forall i, j :: 0 <= i < |r| && 0 <= j < |s| && multiset(r)[s[j]] < multiset(s)[s[j]] ==>
      if largest then f(r[i]) >= f(s[j]) else f(r[i]) <= f(s[j])
    ensures forall i :: 0 <= i < |r| ==> r[i] in s
    ensures forall i, j :: 0 <= i < |r| && 0 <= j < |s| && s[j] !in r ==>
      if largest then f(r[i]) >= f(s[j]) else f(r[i]) <= f(s[j])
  {
    forall i | 0 <= i < |r| ensures r[i] in s {
      assert r[i] in multiset(r);
    }
    forall i, j | 0 <= i < |r| && 0 <= j < |s| && s[j] !in r
      ensures if largest then f(r[i]) >= f(s[j]) else f(r[i]) <= f(s[j])
    {
      assert multiset(r)[s[j]] == 0;
    }
  }

  /** In a sorted table, the first `m` rows are at least as large as any row left out of them. */
  lemma PrefixDominates<T>(t: seq<T>, m: nat, f: T -> real)
    requires SortedDesc(t, f) && m <= |t|
    ensures multiset(t[..m]) <= multiset(t)
    ensures forall i, y :: 0 <= i < m && multiset(t[..m])[y] < multiset(t)[y] ==> f(t[i]) >= f(y)
  {
    assert t == t[..m] + t[m..];
    forall i, y | 0 <= i < m && multiset(t[..m])[y] < multiset(t)[y]
      ensures f(t[i]) >= f(y)
    {
      assert y in multiset(t[m..]);
      var k :| m <= k < |t| && t[k] == y;
    }
  }

  /** The negation of a column: its largest values are the smallest of `f`. */
  function Negated<T>(f: T -> real): T -> real {
    x => -f(x)
  }

  /** The `n` rows of `s` with the smallest values of `f` (a table's `nsmallest`). */
  function NSmallest<T(==)>(s: seq<T>, n: nat, f: T -> real): (r: seq<T>)
    ensures IsBottomN(s, r, n, f)
  {
    var r := NLargest(s, n, Negated(f));
    NegatedTopIsBottom(s, r, n, f);
    r
  }

  /** A top-`n` selection on the negated column is a bottom-`n` selection on the column. */
  lemma NegatedTopIsBottom<T>(s: seq<T>, r: seq<T>, n: nat, f: T -> real)
    requires IsTopN(s, r, n, Negated(f))
    ensures IsBottomN(s, r, n, f)
  {
    var g := Negated(f);
    assert SortedAsc(r, f) by {
      forall i, j | 0 <= i < j < |r| ensures f(r[i]) <= f(r[j]) {
        assert g(r[i]) >= g(r[j]);
      }
    }
    forall i, j | 0 <= i < |r| && 0 <= j < |s| && multiset(r)[s[j]] < multiset(s)[s[j]]
      ensures f(r[i]) <= f(s[j])
    {
      assert g(r[i]) >= g(s[j]);
    }
    forall i, j | 0 <= i < |r| && 0 <= j < |s| && s[j] !in r
      ensures f(r[i]) <= f(s[j])
    {
      assert g(r[i]) >= g(s[j]);
    }
  }

  /** With at most `n` rows, both selections keep the whole table. */
  lemma KeepsAllWhenFew<T>(s: seq<T>, n: nat, f: T -> real)
    requires |s| <= n
    ensures multiset(NLargest(s, n, f)) == multiset(s)
    ensures multiset(NSmallest(s, n, f)) == multiset(s)
  {
    var a, b := NLargest(s, n, f), NSmallest(s, n, f);
    assert |multiset(s) - multiset(a)| == 0;
    assert |multiset(s) - multiset(b)| == 0;
  }

  /** A row whose value is strictly larger than every other row's is always among the top `n` (for `n` > 0). */
  lemma StrictMaximumKept<T>(s: seq<T>, n: nat, f: T -> real, k: nat)
    requires 0 < n && k < |s|
    requires forall j :: 0 <= j < |s| && j != k ==> f(s[j]) < f(s[k])
    ensures s[k] in NLargest(s, n, f)
  {
    var r := NLargest(s, n, f);
    assert r[0] in s;
    var j :| 0 <= j < |s| && s[j] == r[0];
    if j != k {
      assert f(r[0]) < f(s[k]);
    }
  }


  /** A row whose value is strictly smaller than every other row's is always among the bottom `n` (for `n` > 0). */
  lemma StrictMinimumKept<T>(s: seq<T>, n: nat, f: T -> real, k: nat)
    requires 0 < n && k < |s|
    requires forall j :: 0 <= j < |s| && j != k ==> f(s[j]) > f(s[k])
    ensures s[k] in NSmallest(s, n, f)
  {
    var r := NSmallest(s, n, f);
    assert r[0] in s;
    var j :| 0 <= j < |s| && s[j] == r[0];
    if j != k {
      assert f(r[0]) > f(s[k]);
    }
  }


  /** The best `n` rows of each group in `ks`, group after group. */
  function TopOfGroups<T(==), K(==)>(s: seq<T>, key: T -> K, ks: seq<K>, n: nat, f: T -> real): seq<T>
  {
    if ks == [] then []
    else NLargest(Select(s, key, ks[0]), n, f) + TopOfGroups(s, key, ks[1..], n, f)
  }

  /**
   * For every group separately, the `n` rows with the largest values of
   * `f`: the rows of one group in the result are a top-`n` selection from
   * that group's rows, and nothing else is in the result.
   */
  function TopPerGroup<T(==), K(==, !new)>(s: seq<T>, key: T -> K, n: nat, f: T -> real): (r: seq<T>)
    ensures forall k :: IsTopN(Select(s, key, k), Select(r, key, k), n, f)
    ensures forall i :: 0 <= i < |r| ==> r[i] in s
  {
    var ks := Keys(s, key);
    var r := TopOfGroups(s, key, ks, n, f);
    forall k ensures IsTopN(Select(s, key, k), Select(r, key, k), n, f) {
      GroupSlice(s, key, ks, n, f, k);
      if k !in ks {
        AbsentKey(s, key, k);
      }
    }
    GroupwiseFromTable(s, key, r, n, f);
    r
  }

  /** Each group's slice of the concatenation is that group's own selection. */
  lemma {:induction false} GroupSlice<T, K>(s: seq<T>, key: T -> K, ks: seq<K>, n: nat, f: T -> real, k: K)
    requires Distinct(ks)
    ensures Select(TopOfGroups(s, key, ks, n, f), key, k) ==
      if k in ks then NLargest(Select(s, key, k), n, f) else []
  {
    if ks != [] {
      var top := NLargest(Select(s, key, ks[0]), n, f);
      GroupTopRows(s, key, ks[0], n, f);
      assert Distinct(ks[1..]);
      GroupSlice(s, key, ks[1..], n, f, k);
      SelectConcat(top, TopOfGroups(s, key, ks[1..], n, f), key, k);
      SelectUniform(top, key, ks[0], k);
      if k == ks[0] {
        assert k !in ks[1..];
      }
    }
  }

  /** The rows of one group's selection come from the table and carry that group's key. */
  lemma GroupTopRows<T, K>(s: seq<T>, key: T -> K, k: K, n: nat, f: T -> real)
    ensures forall i :: 0 <= i < |NLargest(Select(s, key, k), n, f)| ==>
      NLargest(Select(s, key, k), n, f)[i] in s && key(NLargest(Select(s, key, k), n, f)[i]) == k
  {
    var group := Select(s, key, k);
    var top := NLargest(group, n, f);
    forall i | 0 <= i < |top| ensures top[i] in s && key(top[i]) == k {
      var m :| 0 <= m < |group| && group[m] == top[i];
    }
  }

  /** A table whose every group is a selection from the same group of `s` holds only rows of `s`. */
  lemma GroupwiseFromTable<T, K(!new)>(s: seq<T>, key: T -> K, r: seq<T>, n: nat, f: T -> real)
    requires forall k :: IsTopN(Select(s, key, k), Select(r, key, k), n, f)
    ensures forall i :: 0 <= i < |r| ==> r[i] in s
  {
    forall i | 0 <= i < |r| ensures r[i] in s {
      var own := Select(r, key, key(r[i]));
      assert r[i] in own;
      var m :| 0 <= m < |own| && own[m] == r[i];
      assert IsTopN(Select(s, key, key(r[i])), own, n, f);
      assert own[m] in Select(s, key, key(r[i]));
    }
  }

  /** A key no row carries has an empty group. */
  lemma AbsentKey<T, K>(s: seq<T>, key: T -> K, k: K)
    requires k !in Keys(s, key)
    ensures Select(s, key, k) == []
  {
  }
}
