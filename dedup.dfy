// pandas' duplicate removal on a subset of columns, keeping the first
// occurrence: df[~df.duplicated(subset, keep="first")] in
// clean_data_enhanced.py remove_duplicates and
// df.drop_duplicates(subset, keep="first") in clean_data.py clean_and_fix.
module Dedup {
  import opened Table

  /** The cells of the subset columns; NaN equals NaN here, as it does for pandas. */
  function KeyOf(r: Row, subset: seq<string>): (k: seq<Cell>)
    ensures |k| == |subset| && forall i :: 0 <= i < |subset| ==> k[i] == Get(r, subset[i])
  {
    seq(|subset|, i requires 0 <= i < |subset| => Get(r, subset[i]))
  }

  /** Changing a column outside the subset leaves the key alone. */
  lemma KeyIgnoresOtherColumns(r: Row, subset: seq<string>, col: string, v: Cell)
    requires col !in subset
    ensures KeyOf(r[col := v], subset) == KeyOf(r, subset)
  {
    forall i | 0 <= i < |subset| ensures Get(r[col := v], subset[i]) == Get(r, subset[i]) {
      assert subset[i] != col;
    }
  }

  /** Rows that agree on the subset columns have the same key. */
  lemma KeyOfAgrees(r1: Row, r2: Row, subset: seq<string>)
    requires forall i :: 0 <= i < |subset| ==> Get(r1, subset[i]) == Get(r2, subset[i])
    ensures KeyOf(r1, subset) == KeyOf(r2, subset)
  {
  }

  function KeysOf(rows: seq<Row>, subset: seq<string>): set<seq<Cell>>
  {
    set i | 0 <= i < |rows| :: KeyOf(rows[i], subset)
  }

  /** The records whose key no earlier record has, in input order. */
  function KeepFirst(rows: seq<Row>, subset: seq<string>): (out: seq<Row>)
    ensures |out| <= |rows|
  {
    if rows == [] then []
    else
      var init := rows[..|rows| - 1];
      var last := rows[|rows| - 1];
      KeepFirst(init, subset) + (if KeyOf(last, subset) in KeysOf(init, subset) then [] else [last])
  }

  lemma KeysOfSnoc(rows: seq<Row>, x: Row, subset: seq<string>)
    ensures KeysOf(rows + [x], subset) == KeysOf(rows, subset) + {KeyOf(x, subset)}
  {
    var l := rows + [x];
    assert KeyOf(l[|rows|], subset) == KeyOf(x, subset);
    forall k | k in KeysOf(l, subset) ensures k in KeysOf(rows, subset) + {KeyOf(x, subset)} {
      var i :| 0 <= i < |l| && KeyOf(l[i], subset) == k;
      if i < |rows| { assert l[i] == rows[i]; }
    }
    forall k | k in KeysOf(rows, subset) ensures k in KeysOf(l, subset) {
      var i :| 0 <= i < |rows| && KeyOf(rows[i], subset) == k;
      assert l[i] == rows[i];
    }
  }

  /** Every key of the input survives. */
  lemma {:induction false} KeepFirstKeys(rows: seq<Row>, subset: seq<string>)
    ensures KeysOf(KeepFirst(rows, subset), subset) == KeysOf(rows, subset)
  {
    if rows != [] {
      var init := rows[..|rows| - 1];
      var last := rows[|rows| - 1];
      KeepFirstKeys(init, subset);
      KeysOfSnoc(init, last, subset);
      assert rows == init + [last];
      if KeyOf(last, subset) !in KeysOf(init, subset) {
        assert KeepFirst(rows, subset) == KeepFirst(init, subset) + [last];
        KeysOfSnoc(KeepFirst(init, subset), last, subset);
      } else {
        assert KeepFirst(rows, subset) == KeepFirst(init, subset);
      }
    }
  }

  /** Nothing but input records survive. */
  lemma {:induction false} KeepFirstSubset(rows: seq<Row>, subset: seq<string>, x: Row)
    requires x in KeepFirst(rows, subset)
    ensures x in rows
  {
    var init := rows[..|rows| - 1];
    if x in KeepFirst(init, subset) {
      KeepFirstSubset(init, subset, x);
    }
    assert rows == init + [rows[|rows| - 1]];
  }

  /** No two records share a key. */
  predicate DistinctKeys(rows: seq<Row>, subset: seq<string>)
  {
    forall i, j :: 0 <= i < j < |rows| ==> KeyOf(rows[i], subset) != KeyOf(rows[j], subset)
  }

  /** No two surviving records share a key. */
  lemma {:induction false} KeepFirstDistinct(rows: seq<Row>, subset: seq<string>)
    ensures DistinctKeys(KeepFirst(rows, subset), subset)
  {
    if rows != [] {
      var init := rows[..|rows| - 1];
      var last := rows[|rows| - 1];
      KeepFirstDistinct(init, subset);
      KeepFirstKeys(init, subset);
      var p := KeepFirst(init, subset);
      if KeyOf(last, subset) !in KeysOf(init, subset) {
        assert forall i :: 0 <= i < |p| ==> KeyOf(p[i], subset) in KeysOf(p, subset);
        assert KeyOf(last, subset) !in KeysOf(p, subset);
      }
    }
  }

  /** Every first occurrence of a key survives. */
  lemma {:induction false} KeepFirstKeepsFirsts(rows: seq<Row>, subset: seq<string>, i: nat)
    requires i < |rows| && forall j :: 0 <= j < i ==> KeyOf(rows[j], subset) != KeyOf(rows[i], subset)
    ensures rows[i] in KeepFirst(rows, subset)
  {
    var init := rows[..|rows| - 1];
    if i < |rows| - 1 {
      assert forall j :: 0 <= j <= i ==> init[j] == rows[j];
      KeepFirstKeepsFirsts(init, subset, i);
    } else {
      forall j | 0 <= j < |init| ensures KeyOf(init[j], subset) != KeyOf(rows[i], subset) {
        assert init[j] == rows[j];
      }
    }
  }

  /** Dropping the last record keeps the keys distinct, and that record's key is new. */
  lemma DistinctSplit(rows: seq<Row>, subset: seq<string>)
    requires rows != [] && DistinctKeys(rows, subset)
    ensures DistinctKeys(rows[..|rows| - 1], subset)
    ensures KeyOf(rows[|rows| - 1], subset) !in KeysOf(rows[..|rows| - 1], subset)
  {
    var init := rows[..|rows| - 1];
    assert forall j :: 0 <= j < |init| ==> init[j] == rows[j];
  }

  /** Without duplicates nothing is dropped. */
  lemma {:induction false} KeepFirstOfDistinct(rows: seq<Row>, subset: seq<string>)
    requires DistinctKeys(rows, subset)
    ensures KeepFirst(rows, subset) == rows
  {
    if rows != [] {
      var init := rows[..|rows| - 1];
      DistinctSplit(rows, subset);
      KeepFirstOfDistinct(init, subset);
      assert init + [rows[|rows| - 1]] == rows;
    }
  }

  /** Removing duplicates twice removes nothing more. */
  lemma KeepFirstIdempotent(rows: seq<Row>, subset: seq<string>)
    ensures KeepFirst(KeepFirst(rows, subset), subset) == KeepFirst(rows, subset)
  {
    KeepFirstDistinct(rows, subset);
    KeepFirstOfDistinct(KeepFirst(rows, subset), subset);
  }

  /** The duplicated() mask and the filter, over a set of seen keys; count is the number of dropped records. */
  method DropDuplicates(rows: seq<Row>, subset: seq<string>) returns (out: seq<Row>, count: nat)
    ensures out == KeepFirst(rows, subset)
    ensures count == |rows| - |out|
  {
    out, count := [], 0;
    var seen: set<seq<Cell>> := {};
    for i := 0 to |rows|
      invariant out == KeepFirst(rows[..i], subset)
      invariant seen == KeysOf(rows[..i], subset)
      invariant count == i - |out|
    {
      assert rows[..i + 1] == rows[..i] + [rows[i]];
      KeysOfSnoc(rows[..i], rows[i], subset);
      var key := KeyOf(rows[i], subset);
      if key in seen {
        count := count + 1;
      } else {
        out := out + [rows[i]];
      }
      seen := seen + {key};
    }
    assert rows[..|rows|] == rows;
  }
}
