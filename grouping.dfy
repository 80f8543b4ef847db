/**
 * The grouping engine behind every report: split a table into one group per
 * distinct key, keeping each group's rows in table order, and fold a group
 * into counts and sums. Groups with no rows never appear.
 */
module Grouping {

  /** One group: its key and the rows that carry that key, in table order. */
  datatype Group<K, T> = Group(key: K, rows: seq<T>)

  ghost predicate Distinct<K>(ks: seq<K>) {
    forall i, j :: 0 <= i < j < |ks| ==> ks[i] != ks[j]
  }

  /** The rows of `s` whose key is `k`, in table order. */
  function Select<T, K(==)>(s: seq<T>, key: T -> K, k: K): (r: seq<T>)
    ensures |r| <= |s|
    ensures forall i :: 0 <= i < |r| ==> r[i] in s && key(r[i]) == k
    ensures forall i :: 0 <= i < |s| && key(s[i]) == k ==> s[i] in r
  {
    if s == [] then []
    else (if key(s[0]) == k then [s[0]] else []) + Select(s[1..], key, k)
  }

  /** The rows of `s` whose key is one of `ks`, in table order. */
  function SelectIn<T, K(==)>(s: seq<T>, key: T -> K, ks: set<K>): (r: seq<T>)
  {
    if s == [] then []
    else (if key(s[0]) in ks then [s[0]] else []) + SelectIn(s[1..], key, ks)
  }

  /** The distinct keys of `s`, each once. */
  function Keys<T, K(==)>(s: seq<T>, key: T -> K): (ks: seq<K>)
    ensures Distinct(ks)
    ensures forall i :: 0 <= i < |s| ==> key(s[i]) in ks
    ensures forall k :: k in ks ==> Select(s, key, k) != []
  {
    if s == [] then []
    else
      var rest := Keys(s[1..], key);
      if key(s[0]) in rest then rest else [key(s[0])] + rest
  }

  /** `gs` groups `s` by `key`: one non-empty group per key present, holding exactly that key's rows. */
  ghost predicate IsGrouping<T, K>(s: seq<T>, key: T -> K, gs: seq<Group<K, T>>) {
    && (forall i, j :: 0 <= i < j < |gs| ==> gs[i].key != gs[j].key)
    && (forall n :: 0 <= n < |s| ==> exists i :: 0 <= i < |gs| && gs[i].key == key(s[n]))
    && (forall i :: 0 <= i < |gs| ==> gs[i].rows != [] && gs[i].rows == Select(s, key, gs[i].key))
  }

  /** Group `s` by `key` (the order of the groups is not specified). */
  function GroupBy<T, K(==)>(s: seq<T>, key: T -> K): (gs: seq<Group<K, T>>)
    ensures IsGrouping(s, key, gs)
    ensures |gs| <= |s|
  {
    var ks := Keys(s, key);
    KeysBound(s, key);
    var gs := seq(|ks|, i requires 0 <= i < |ks| => Group(ks[i], Select(s, key, ks[i])));
    forall i | 0 <= i < |ks| ensures Select(s, key, ks[i]) != [] {
      assert ks[i] in ks;
    }
    GroupsOfKeys(s, key, ks, gs);
    gs
  }

  /** One group per distinct key, each holding that key's non-empty selection, is a grouping. */
  lemma GroupsOfKeys<T, K>(s: seq<T>, key: T -> K, ks: seq<K>, gs: seq<Group<K, T>>)
    requires Distinct(ks)
    requires forall n :: 0 <= n < |s| ==> key(s[n]) in ks
    requires |gs| == |ks|
    requires forall i :: 0 <= i < |ks| ==>
      gs[i].key == ks[i] && gs[i].rows == Select(s, key, ks[i]) && gs[i].rows != []
    ensures IsGrouping(s, key, gs)
  {
    GroupKeysDistinct(s, key, ks, gs);
    GroupKeysCover(s, key, ks, gs);
    GroupRowsSelected(s, key, ks, gs);
  }

  lemma GroupKeysDistinct<T, K>(s: seq<T>, key: T -> K, ks: seq<K>, gs: seq<Group<K, T>>)
    requires Distinct(ks)
    requires forall n :: 0 <= n < |s| ==> key(s[n]) in ks
    requires |gs| == |ks|
    requires forall i :: 0 <= i < |ks| ==>
      gs[i].key == ks[i] && gs[i].rows == Select(s, key, ks[i]) && gs[i].rows != []
    ensures forall i, j :: 0 <= i < j < |gs| ==> gs[i].key != gs[j].key
  {
    forall i, j | 0 <= i < j < |gs| ensures gs[i].key != gs[j].key {
      assert gs[i].key == ks[i] && gs[j].key == ks[j];
    }
  }

  lemma GroupKeysCover<T, K>(s: seq<T>, key: T -> K, ks: seq<K>, gs: seq<Group<K, T>>)
    requires Distinct(ks)
    requires forall n :: 0 <= n < |s| ==> key(s[n]) in ks
    requires |gs| == |ks|
    requires forall i :: 0 <= i < |ks| ==>
      gs[i].key == ks[i] && gs[i].rows == Select(s, key, ks[i]) && gs[i].rows != []
    ensures forall n :: 0 <= n < |s| ==> exists i :: 0 <= i < |gs| && gs[i].key == key(s[n])
  {
    forall n | 0 <= n < |s| ensures exists i :: 0 <= i < |gs| && gs[i].key == key(s[n]) {
      GroupKeyCovers(s, key, ks, gs, n);
    }
  }

  lemma GroupRowsSelected<T, K>(s: seq<T>, key: T -> K, ks: seq<K>, gs: seq<Group<K, T>>)
    requires Distinct(ks)
    requires forall n :: 0 <= n < |s| ==> key(s[n]) in ks
    requires |gs| == |ks|
    requires forall i :: 0 <= i < |ks| ==>
      gs[i].key == ks[i] && gs[i].rows == Select(s, key, ks[i]) && gs[i].rows != []
    ensures forall i :: 0 <= i < |gs| ==> gs[i].rows != [] && gs[i].rows == Select(s, key, gs[i].key)
  {
  }

  /** Groups built one per listed key carry the key of row `n`. */
  lemma GroupKeyCovers<T, K>(s: seq<T>, key: T -> K, ks: seq<K>, gs: seq<Group<K, T>>, n: int)
    requires 0 <= n < |s| && key(s[n]) in ks
    requires |gs| == |ks| && forall i :: 0 <= i < |ks| ==> gs[i].key == ks[i]
    ensures exists i :: 0 <= i < |gs| && gs[i].key == key(s[n])
  {
    var i :| 0 <= i < |ks| && ks[i] == key(s[n]);
    assert gs[i].key == key(s[n]);
  }

  /** A table has no more distinct keys than rows. */
  lemma {:induction false} KeysBound<T, K>(s: seq<T>, key: T -> K)
    ensures |Keys(s, key)| <= |s|
  {
    if s != [] {
      KeysBound(s[1..], key);
    }
  }

  /** The sum of `f` over the rows of `s`. */
  function SumOf<T>(s: seq<T>, f: T -> real): real
  {
    if s == [] then 0.0 else f(s[0]) + SumOf(s[1..], f)
  }

  /** The number of rows over all groups. */
  function TotalRows<K, T>(gs: seq<Group<K, T>>): nat
  {
    if gs == [] then 0 else |gs[0].rows| + TotalRows(gs[1..])
  }

  /** The sum of `f` over the rows of all groups. */
  function TotalOf<K, T>(gs: seq<Group<K, T>>, f: T -> real): real
  {
    if gs == [] then 0.0 else SumOf(gs[0].rows, f) + TotalOf(gs[1..], f)
  }

  function KeySet<K, T>(gs: seq<Group<K, T>>): set<K>
  {
    set i | 0 <= i < |gs| :: gs[i].key
  }

  /** Selecting one more key adds exactly that key's rows, to the count and to every sum. */
  lemma {:induction false} SelectInAdd<T, K>(s: seq<T>, key: T -> K, k: K, ks: set<K>, f: T -> real)
    requires k !in ks
    ensures |SelectIn(s, key, ks + {k})| == |Select(s, key, k)| + |SelectIn(s, key, ks)|
    ensures SumOf(SelectIn(s, key, ks + {k}), f) == SumOf(Select(s, key, k), f) + SumOf(SelectIn(s, key, ks), f)
  {
    if s != [] {
      SelectInAdd(s[1..], key, k, ks, f);
      var x := s[0];
      if key(x) == k {
        SumOfConcat([x], SelectIn(s[1..], key, ks + {k}), f);
        SumOfConcat([x], Select(s[1..], key, k), f);
        assert SelectIn(s, key, ks) == SelectIn(s[1..], key, ks);
      } else if key(x) in ks {
        SumOfConcat([x], SelectIn(s[1..], key, ks + {k}), f);
        SumOfConcat([x], SelectIn(s[1..], key, ks), f);
        assert Select(s, key, k) == Select(s[1..], key, k);
      } else {
        assert SelectIn(s, key, ks + {k}) == SelectIn(s[1..], key, ks + {k});
        assert Select(s, key, k) == Select(s[1..], key, k);
        assert SelectIn(s, key, ks) == SelectIn(s[1..], key, ks);
      }
    }
  }

  lemma {:induction false} SumOfConcat<T>(a: seq<T>, b: seq<T>, f: T -> real)
    ensures SumOf(a + b, f) == SumOf(a, f) + SumOf(b, f)
  {
    if a == [] {
      assert a + b == b;
    } else {
      assert (a + b)[1..] == a[1..] + b;
      SumOfConcat(a[1..], b, f);
    }
  }

  /** Selecting every key present keeps the whole table. */
  lemma {:induction false} SelectInAll<T, K>(s: seq<T>, key: T -> K, ks: set<K>)
    requires forall i :: 0 <= i < |s| ==> key(s[i]) in ks
    ensures SelectIn(s, key, ks) == s
  {
    if s != [] {
      SelectInAll(s[1..], key, ks);
      assert s == [s[0]] + s[1..];
    }
  }

  /** Groups with distinct keys hold, together, exactly the rows whose key is one of theirs. */
  lemma {:induction false} GroupsCoverSelected<T, K>(s: seq<T>, key: T -> K, gs: seq<Group<K, T>>, f: T -> real)
    requires forall i, j :: 0 <= i < j < |gs| ==> gs[i].key != gs[j].key
    requires forall i :: 0 <= i < |gs| ==> gs[i].rows == Select(s, key, gs[i].key)
    ensures TotalRows(gs) == |SelectIn(s, key, KeySet(gs))|
    ensures TotalOf(gs, f) == SumOf(SelectIn(s, key, KeySet(gs)), f)
  {
    if gs == [] {
      assert KeySet(gs) == {};
      EmptySelection(s, key);
    } else {
      var tail := gs[1..];
      assert KeySet(gs) == KeySet(tail) + {gs[0].key} by {
        forall k | k in KeySet(gs) ensures k in KeySet(tail) + {gs[0].key} {
          var i :| 0 <= i < |gs| && gs[i].key == k;
          if i > 0 { assert tail[i - 1].key == k; }
        }
        forall k | k in KeySet(tail) ensures k in KeySet(gs) {
          var i :| 0 <= i < |tail| && tail[i].key == k;
          assert gs[i + 1].key == k;
        }
      }
      assert gs[0].key !in KeySet(tail);
      GroupsCoverSelected(s, key, tail, f);
      SelectInAdd(s, key, gs[0].key, KeySet(tail), f);
    }
  }

  lemma {:induction false} EmptySelection<T, K>(s: seq<T>, key: T -> K)
    ensures SelectIn(s, key, {}) == []
  {
    if s != [] {
      EmptySelection(s[1..], key);
    }
  }

  /**
   * Grouping conserves the table: the group sizes add up to the number of
   * rows, and the group sums of any column add up to that column's total.
   */
  lemma GroupingConserves<T, K>(s: seq<T>, key: T -> K, gs: seq<Group<K, T>>, f: T -> real)
    requires IsGrouping(s, key, gs)
    ensures TotalRows(gs) == |s|
    ensures TotalOf(gs, f) == SumOf(s, f)
  {
    GroupsCoverSelected(s, key, gs, f);
    forall n | 0 <= n < |s| ensures key(s[n]) in KeySet(gs) {
      var i :| 0 <= i < |gs| && gs[i].key == key(s[n]);
    }
    SelectInAll(s, key, KeySet(gs));
  }

  /** Rows of a concatenation with a given key are those of each part. */
  lemma {:induction false} SelectConcat<T, K>(a: seq<T>, b: seq<T>, key: T -> K, k: K)
    ensures Select(a + b, key, k) == Select(a, key, k) + Select(b, key, k)
  {
    if a == [] {
      assert a + b == b;
    } else {
      assert (a + b)[1..] == a[1..] + b;
      SelectConcat(a[1..], b, key, k);
    }
  }

  /** Selecting a key every row carries keeps the table; a key no row carries keeps nothing. */
  lemma {:induction false} SelectUniform<T, K>(s: seq<T>, key: T -> K, k: K, k': K)
    requires forall i :: 0 <= i < |s| ==> key(s[i]) == k
    ensures Select(s, key, k) == s
    ensures k' != k ==> Select(s, key, k') == []
  {
    if s != [] {
      SelectUniform(s[1..], key, k, k');
      assert s == [s[0]] + s[1..];
    }
  }

  /** The key column of a summary table. */
  function KeysOf<R, K>(r: seq<R>, rkey: R -> K): (ks: seq<K>)
    ensures |ks| == |r| && forall i :: 0 <= i < |r| ==> ks[i] == rkey(r[i])
  {
    seq(|r|, i requires 0 <= i < |r| => rkey(r[i]))
  }

  /**
   * The summary table `r`, keyed by `rkey`, has exactly one row for each key
   * present in `s` and no row for a key that does not occur in `s`.
   */
  ghost predicate OneRowPerKey<T, K, R>(s: seq<T>, key: T -> K, r: seq<R>, rkey: R -> K) {
    && Distinct(KeysOf(r, rkey))
    && (forall n :: 0 <= n < |s| ==> key(s[n]) in KeysOf(r, rkey))
    && (forall i :: 0 <= i < |r| ==> Select(s, key, rkey(r[i])) != [])
  }

  /** A table with one summary row per group, carrying the group's key, has one row per key. */
  lemma SummaryHasOneRowPerKey<T, K, R>(s: seq<T>, key: T -> K, gs: seq<Group<K, T>>, r: seq<R>, rkey: R -> K)
    requires IsGrouping(s, key, gs)
    requires |r| == |gs| && forall i :: 0 <= i < |gs| ==> rkey(r[i]) == gs[i].key
    ensures OneRowPerKey(s, key, r, rkey)
  {
    var ks := KeysOf(r, rkey);
    forall n | 0 <= n < |s| ensures key(s[n]) in ks {
      var i :| 0 <= i < |gs| && gs[i].key == key(s[n]);
      assert ks[i] == key(s[n]);
    }
  }

  /** When every row of a non-empty table carries the key `k`, a table with one row per key has exactly one row, keyed `k`. */
  lemma SingleKey<T, K, R>(s: seq<T>, key: T -> K, r: seq<R>, rkey: R -> K, k: K)
    requires OneRowPerKey(s, key, r, rkey)
    requires s != [] && forall n :: 0 <= n < |s| ==> key(s[n]) == k
    ensures |r| == 1 && rkey(r[0]) == k
  {
    var ks := KeysOf(r, rkey);
    forall i | 0 <= i < |r| ensures ks[i] == k {
      var own := Select(s, key, rkey(r[i]));
      assert own[0] in s;
    }
    assert key(s[0]) in ks;
    if |r| > 1 {
      DistinctPair(ks, 0, 1);
      assert false;
    }
  }

  lemma DistinctPair<K>(ks: seq<K>, i: int, j: int)
    requires Distinct(ks) && 0 <= i < j < |ks|
    ensures ks[i] != ks[j]
  {
  }
}
