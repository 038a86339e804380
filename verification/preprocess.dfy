/**
  The CSV side of the import (app/services/product_service.py): the parsed
  rows, `_preprocess_dataframe`, and the per-row staging rule of
  `_process_batches`, as functions over sequences.
*/
module Staging {
  import Text

  /** One parsed CSV row; a missing description column reads as "". */
  datatype Row = Row(name: string, sku: string, description: string)

  /** The raw SKUs of the rows. */
  function RawSkus(rows: seq<Row>): set<string> {
    set i | 0 <= i < |rows| :: rows[i].sku
  }

  /** No later row carries the same raw SKU as row `k`. */
  predicate IsLastOccurrence(rows: seq<Row>, k: nat)
    requires k < |rows|
  {
    forall j :: k < j < |rows| ==> rows[j].sku != rows[k].sku
  }

  /** `drop_duplicates(subset=['sku'], keep='last')`: a row stays when no later row has its raw SKU. */
  function DropDuplicates(rows: seq<Row>): (r: seq<Row>)
    ensures |r| <= |rows|
  {
    if rows == [] then []
    else if rows[0].sku in RawSkus(rows[1..]) then DropDuplicates(rows[1..])
    else [rows[0]] + DropDuplicates(rows[1..])
  }

  /** The positions increase. */
  predicate Increasing(ks: seq<nat>) {
    forall t, u :: 0 <= t < u < |ks| ==> ks[t] < ks[u]
  }

  function Shift(ks: seq<nat>): (r: seq<nat>)
    ensures |r| == |ks| && forall t :: 0 <= t < |ks| ==> r[t] == ks[t] + 1
    ensures Increasing(ks) ==> Increasing(r) && Increasing([0] + r)
  {
    seq(|ks|, t requires 0 <= t < |ks| => ks[t] + 1)
  }

  /** The positions of the rows `DropDuplicates` keeps. */
  ghost function KeptIndices(rows: seq<Row>): (ks: seq<nat>)
    ensures Increasing(ks)
  {
    if rows == [] then []
    else if rows[0].sku in RawSkus(rows[1..]) then Shift(KeptIndices(rows[1..]))
    else [0] + Shift(KeptIndices(rows[1..]))
  }

  lemma RawSkusTail(rows: seq<Row>)
    requires rows != []
    ensures RawSkus(rows) == {rows[0].sku} + RawSkus(rows[1..])
  {
    forall s | s in RawSkus(rows) ensures s in {rows[0].sku} + RawSkus(rows[1..]) {
      var i :| 0 <= i < |rows| && rows[i].sku == s;
      if i > 0 { assert rows[1..][i - 1].sku == s; }
    }
    forall s | s in RawSkus(rows[1..]) ensures s in RawSkus(rows) {
      var i :| 0 <= i < |rows[1..]| && rows[1..][i].sku == s;
      assert rows[i + 1].sku == s;
    }
  }

  /** The kept positions point at the rows drop-duplicates returns, in the same order. */
  lemma {:induction false} KeptIndicesSelect(rows: seq<Row>)
    ensures var d, ks := DropDuplicates(rows), KeptIndices(rows);
      && |d| == |ks|
      && (forall t :: 0 <= t < |ks| ==> ks[t] < |rows| && d[t] == rows[ks[t]])
  {
    if rows != [] {
      var tail := rows[1..];
      KeptIndicesSelect(tail);
      var d', ks' := DropDuplicates(tail), KeptIndices(tail);
      var d, ks := DropDuplicates(rows), KeptIndices(rows);
      var sks := Shift(ks');
      if rows[0].sku in RawSkus(tail) {
        forall t | 0 <= t < |ks| ensures ks[t] < |rows| && d[t] == rows[ks[t]] {
          assert d[t] == tail[ks'[t]];
        }
      } else {
        assert d == [rows[0]] + d' && ks == [0] + sks;
        forall t | 0 <= t < |ks| ensures ks[t] < |rows| && d[t] == rows[ks[t]] {
          if t > 0 {
            assert d[t] == d'[t - 1] == tail[ks'[t - 1]];
          }
        }
      }
    }
  }

  /** The first row is the last of its SKU exactly when no later row has that SKU. */
  lemma FirstIsLast(rows: seq<Row>)
    requires rows != []
    ensures IsLastOccurrence(rows, 0) <==> rows[0].sku !in RawSkus(rows[1..])
  {
    if rows[0].sku in RawSkus(rows[1..]) {
      var i :| 0 <= i < |rows[1..]| && rows[1..][i].sku == rows[0].sku;
      assert rows[i + 1].sku == rows[0].sku;
    }
  }

  /** A later row is the last of its SKU exactly when it is so in the tail. */
  lemma LaterIsLast(rows: seq<Row>, k: nat)
    requires 1 <= k < |rows|
    ensures IsLastOccurrence(rows, k) <==> IsLastOccurrence(rows[1..], k - 1)
  {
    assert forall j :: k < j < |rows| ==> rows[j] == rows[1..][j - 1];
  }

  /** Shifting moves every position up by one, so 0 is never a shifted position. */
  lemma ShiftMembers(ks: seq<nat>, k: nat)
    ensures 0 !in Shift(ks)
    ensures k + 1 in Shift(ks) <==> k in ks
  {
    var sks := Shift(ks);
    if k + 1 in sks {
      var t :| 0 <= t < |sks| && sks[t] == k + 1;
      assert ks[t] == k;
    }
    if k in ks {
      var t :| 0 <= t < |ks| && ks[t] == k;
      assert sks[t] == k + 1;
    }
  }

  /** A position is kept exactly when it is the last occurrence of its raw SKU. */
  lemma {:induction false} KeptIndicesAreLast(rows: seq<Row>)
    ensures var ks := KeptIndices(rows);
      forall k :: 0 <= k < |rows| ==> (k in ks <==> IsLastOccurrence(rows, k))
  {
    if rows != [] {
      var tail := rows[1..];
      KeptIndicesAreLast(tail);
      var ks', ks := KeptIndices(tail), KeptIndices(rows);
      FirstIsLast(rows);
      ShiftMembers(ks', 0);
      forall k | 1 <= k < |rows| ensures (k in ks <==> IsLastOccurrence(rows, k)) {
        LaterIsLast(rows, k);
        ShiftMembers(ks', k - 1);
      }
    }
  }

  /**
    Drop-duplicates keeps exactly the last occurrence of each raw SKU, in the
    original order: the kept rows are `rows[ks[0]], rows[ks[1]], ...` for the
    increasing positions `ks` that are last occurrences, and no others.
  */
  lemma DropDuplicatesKeepsLast(rows: seq<Row>)
    ensures var d, ks := DropDuplicates(rows), KeptIndices(rows);
      && |d| == |ks|
      && (forall t :: 0 <= t < |ks| ==> ks[t] < |rows| && d[t] == rows[ks[t]])
      && (forall t, u :: 0 <= t < u < |ks| ==> ks[t] < ks[u])
      && (forall k :: 0 <= k < |rows| ==> (k in ks <==> IsLastOccurrence(rows, k)))
  {
    KeptIndicesSelect(rows);
    KeptIndicesAreLast(rows);
  }

  /** After drop-duplicates every raw SKU is still present, and only once. */
  lemma {:induction false} DropDuplicatesSkus(rows: seq<Row>)
    ensures RawSkus(DropDuplicates(rows)) == RawSkus(rows)
    ensures var d := DropDuplicates(rows);
      forall t, u :: 0 <= t < u < |d| ==> d[t].sku != d[u].sku
  {
    if rows != [] {
      var tail := rows[1..];
      DropDuplicatesSkus(tail);
      RawSkusTail(rows);
      var d := DropDuplicates(rows);
      if rows[0].sku !in RawSkus(tail) {
        assert d == [rows[0]] + DropDuplicates(tail);
        RawSkusTail(d);
        assert d[1..] == DropDuplicates(tail);
        forall u | 0 < u < |d| ensures d[0].sku != d[u].sku {
          assert d[u] == DropDuplicates(tail)[u - 1];
          assert d[u].sku in RawSkus(DropDuplicates(tail));
        }
      }
    }
  }

  /** A file whose raw SKUs are pairwise distinct passes `drop_duplicates` unchanged. */
  lemma {:induction false} DropDuplicatesDistinct(rows: seq<Row>)
    requires forall i, j :: 0 <= i < j < |rows| ==> rows[i].sku != rows[j].sku
    ensures DropDuplicates(rows) == rows
  {
    if rows != [] {
      var tail := rows[1..];
      forall i, j | 0 <= i < j < |tail| ensures tail[i].sku != tail[j].sku {
        assert tail[i] == rows[i + 1] && tail[j] == rows[j + 1];
      }
      DropDuplicatesDistinct(tail);
      assert rows == [rows[0]] + tail;
    }
  }

  function NormalizeRow(r: Row): Row {
    r.(sku := Text.Normalize(r.sku))
  }

  /** `_preprocess_dataframe`: drop duplicates on the raw SKU, then strip and lower-case the SKU. */
  function Preprocess(rows: seq<Row>): (p: seq<Row>)
    ensures |p| <= |rows|
  {
    var d := DropDuplicates(rows);
    seq(|d|, t requires 0 <= t < |d| => NormalizeRow(d[t]))
  }

  /**
    Preprocessing keeps one row per distinct raw SKU, the last occurrence,
    in the original order, with its SKU normalized and name and description
    untouched.
  */
  lemma PreprocessSpec(rows: seq<Row>)
    ensures var p, ks := Preprocess(rows), KeptIndices(rows);
      && |p| == |ks|
      && (forall t :: 0 <= t < |ks| ==> ks[t] < |rows| && p[t] == NormalizeRow(rows[ks[t]]))
      && (forall t, u :: 0 <= t < u < |ks| ==> ks[t] < ks[u])
      && (forall k :: 0 <= k < |rows| ==> (k in ks <==> IsLastOccurrence(rows, k)))
      && (forall t :: 0 <= t < |p| ==> Text.IsNormalized(p[t].sku))
  {
    DropDuplicatesKeepsLast(rows);
    forall t | 0 <= t < |Preprocess(rows)| ensures Text.IsNormalized(Preprocess(rows)[t].sku) {
      Text.NormalizeIsNormalized(DropDuplicates(rows)[t].sku);
    }
  }

  // ---- the staging rule of _process_batches ----

  /** The row as staged for insert: its SKU lower-cased again (`str(row['sku']).lower()`). */
  function StagedRow(r: Row): Row {
    r.(sku := Text.Lower(r.sku))
  }

  /** The staged rows so far and the SKU set as the loop has grown it. */
  datatype Staged = Staged(rows: seq<Row>, seen: set<string>)

  /**
    Walking `rows` in order from the SKU set `existing`: a row is staged when
    its lower-cased SKU is not yet in the set, and the SKU is added at once.
    So staged SKUs are lower-case, pairwise distinct and new, and at most one
    row is staged per row read.
  */
  function Stage(rows: seq<Row>, existing: set<string>): (st: Staged)
    ensures existing <= st.seen
    ensures |st.rows| <= |rows|
    decreases |rows|
  {
    if rows == [] then Staged([], existing)
    else
      var prev := Stage(rows[..|rows| - 1], existing);
      var r := StagedRow(rows[|rows| - 1]);
      if r.sku in prev.seen then prev else Staged(prev.rows + [r], prev.seen + {r.sku})
  }

  /** Staged SKUs are lower-case, recorded in the grown set, new, and pairwise distinct. */
  lemma {:induction false} StageFresh(rows: seq<Row>, existing: set<string>)
    ensures forall t :: 0 <= t < |Stage(rows, existing).rows| ==>
      var sku := Stage(rows, existing).rows[t].sku;
      sku in Stage(rows, existing).seen && sku !in existing && Text.IsLowercase(sku)
    ensures forall t, u :: 0 <= t < u < |Stage(rows, existing).rows| ==>
      Stage(rows, existing).rows[t].sku != Stage(rows, existing).rows[u].sku
    decreases |rows|
  {
    if rows != [] {
      var prev := Stage(rows[..|rows| - 1], existing);
      var r := StagedRow(rows[|rows| - 1]);
      StageFresh(rows[..|rows| - 1], existing);
      var st := Stage(rows, existing);
      if r.sku !in prev.seen {
        assert st == Staged(prev.rows + [r], prev.seen + {r.sku});
        assert Text.IsLowercase(r.sku) && r.sku !in existing;
        forall t | 0 <= t < |st.rows|
          ensures st.rows[t].sku in st.seen && st.rows[t].sku !in existing && Text.IsLowercase(st.rows[t].sku)
        {
          if t < |prev.rows| {
            assert st.rows[t] == prev.rows[t];
          }
        }
        forall t, u | 0 <= t < u < |st.rows| ensures st.rows[t].sku != st.rows[u].sku {
          assert st.rows[t] == prev.rows[t];
          if u < |prev.rows| {
            assert st.rows[u] == prev.rows[u];
          }
        }
      } else {
        assert st == prev;
      }
    }
  }

  function LoweredSkus(rows: seq<Row>): set<string> {
    set i | 0 <= i < |rows| :: Text.Lower(rows[i].sku)
  }

  lemma LoweredSkusSnoc(rows: seq<Row>)
    requires rows != []
    ensures LoweredSkus(rows) == LoweredSkus(rows[..|rows| - 1]) + {Text.Lower(rows[|rows| - 1].sku)}
  {
    var init := rows[..|rows| - 1];
    forall s | s in LoweredSkus(rows) ensures s in LoweredSkus(init) + {Text.Lower(rows[|rows| - 1].sku)} {
      var i :| 0 <= i < |rows| && Text.Lower(rows[i].sku) == s;
      if i < |init| { assert init[i] == rows[i]; }
    }
    forall s | s in LoweredSkus(init) ensures s in LoweredSkus(rows) {
      var i :| 0 <= i < |init| && Text.Lower(init[i].sku) == s;
      assert rows[i] == init[i];
    }
  }

  lemma RawSkusSnoc(rows: seq<Row>, r: Row)
    ensures RawSkus(rows + [r]) == RawSkus(rows) + {r.sku}
  {
    var all := rows + [r];
    forall s | s in RawSkus(all) ensures s in RawSkus(rows) + {r.sku} {
      var i :| 0 <= i < |all| && all[i].sku == s;
      if i < |rows| { assert all[i] == rows[i]; }
    }
    forall s | s in RawSkus(rows) ensures s in RawSkus(all) {
      var i :| 0 <= i < |rows| && rows[i].sku == s;
      assert all[i] == rows[i];
    }
    assert all[|rows|] == r;
  }

  /** Row `k` is the first with its lower-cased SKU and that SKU was not already present. */
  predicate IsFirstNew(rows: seq<Row>, existing: set<string>, k: nat)
    requires k < |rows|
  {
    && Text.Lower(rows[k].sku) !in existing
    && forall j :: 0 <= j < k ==> Text.Lower(rows[j].sku) != Text.Lower(rows[k].sku)
  }

  /** The positions of the rows `Stage` stages. */
  ghost function StagedIndices(rows: seq<Row>, existing: set<string>): (ks: seq<nat>)
    ensures Increasing(ks)
    ensures forall t :: 0 <= t < |ks| ==> ks[t] < |rows|
    decreases |rows|
  {
    if rows == [] then []
    else
      var prev := StagedIndices(rows[..|rows| - 1], existing);
      if Text.Lower(rows[|rows| - 1].sku) in Stage(rows[..|rows| - 1], existing).seen then prev
      else prev + [|rows| - 1]
  }

  /**
    The SKU set staging ends with is the initial set plus every row's
    lower-cased SKU, and equally the initial set plus the staged SKUs.
  */
  lemma {:induction false} StageSeen(rows: seq<Row>, existing: set<string>)
    ensures Stage(rows, existing).seen == existing + LoweredSkus(rows)
    ensures Stage(rows, existing).seen == existing + RawSkus(Stage(rows, existing).rows)
  {
    if rows != [] {
      var init := rows[..|rows| - 1];
      StageSeen(init, existing);
      LoweredSkusSnoc(rows);
      var prev := Stage(init, existing);
      var r := StagedRow(rows[|rows| - 1]);
      if r.sku !in prev.seen {
        RawSkusSnoc(prev.rows, r);
      }
    }
  }

  /** The staged positions point at the rows staged, in the same order. */
  lemma {:induction false} StagedIndicesSelect(rows: seq<Row>, existing: set<string>)
    ensures var st, ks := Stage(rows, existing), StagedIndices(rows, existing);
      && |st.rows| == |ks|
      && (forall t :: 0 <= t < |ks| ==> st.rows[t] == StagedRow(rows[ks[t]]))
  {
    if rows != [] {
      var init := rows[..|rows| - 1];
      StagedIndicesSelect(init, existing);
      var pks := StagedIndices(init, existing);
      assert forall t :: 0 <= t < |pks| ==> rows[pks[t]] == init[pks[t]];
    }
  }

  /** A position is staged exactly when it is the first new occurrence of its lower-cased SKU. */
  lemma {:induction false} StagedIndicesAreFirst(rows: seq<Row>, existing: set<string>)
    ensures var ks := StagedIndices(rows, existing);
      forall k :: 0 <= k < |rows| ==> (k in ks <==> IsFirstNew(rows, existing, k))
  {
    if rows != [] {
      var n := |rows|;
      var init := rows[..n - 1];
      StagedIndicesAreFirst(init, existing);
      StageSeen(init, existing);
      var prev := Stage(init, existing);
      var pks := StagedIndices(init, existing);
      var ks := StagedIndices(rows, existing);
      var last := Text.Lower(rows[n - 1].sku);
      assert forall k :: 0 <= k < n - 1 ==> rows[k] == init[k];
      assert IsFirstNew(rows, existing, n - 1) <==> last !in prev.seen by {
        if last in prev.seen && last !in existing {
          assert last in LoweredSkus(init);
          var i :| 0 <= i < |init| && Text.Lower(init[i].sku) == last;
          assert Text.Lower(rows[i].sku) == last;
        }
      }
      assert n - 1 !in pks;
      forall k | 0 <= k < n ensures (k in ks <==> IsFirstNew(rows, existing, k)) {
        if k < n - 1 {
          assert IsFirstNew(rows, existing, k) <==> IsFirstNew(init, existing, k);
          assert k in ks <==> k in pks;
        }
      }
    }
  }

  /**
    Staging keeps exactly the rows that are the first with their lower-cased
    SKU among rows whose SKU was not already present, in order: among rows
    that collide after normalization the earliest is the one staged.
  */
  lemma StageKeepsFirst(rows: seq<Row>, existing: set<string>)
    ensures var st, ks := Stage(rows, existing), StagedIndices(rows, existing);
      && |st.rows| == |ks|
      && (forall t :: 0 <= t < |ks| ==> ks[t] < |rows| && st.rows[t] == StagedRow(rows[ks[t]]))
      && Increasing(ks)
      && (forall k :: 0 <= k < |rows| ==> (k in ks <==> IsFirstNew(rows, existing, k)))
  {
    StagedIndicesSelect(rows, existing);
    StagedIndicesAreFirst(rows, existing);
  }

  /** Rows whose lower-cased SKUs are all present stage nothing and leave the set alone. */
  lemma {:induction false} StageNothingNew(rows: seq<Row>, existing: set<string>)
    requires LoweredSkus(rows) <= existing
    ensures Stage(rows, existing) == Staged([], existing)
  {
    if rows != [] {
      var init := rows[..|rows| - 1];
      assert LoweredSkus(init) <= LoweredSkus(rows) by {
        forall s | s in LoweredSkus(init) ensures s in LoweredSkus(rows) {
          var i :| 0 <= i < |init| && Text.Lower(init[i].sku) == s;
          assert rows[i] == init[i];
        }
      }
      StageNothingNew(init, existing);
      assert Text.Lower(rows[|rows| - 1].sku) in LoweredSkus(rows);
    }
  }

  /** Staging a prefix stages a prefix of what staging the whole sequence does. */
  lemma {:induction false} StagePrefix(rows: seq<Row>, i: nat, existing: set<string>)
    requires i <= |rows|
    ensures var a, b := Stage(rows[..i], existing), Stage(rows, existing);
      |a.rows| <= |b.rows| && b.rows[..|a.rows|] == a.rows && a.seen <= b.seen
    decreases |rows| - i
  {
    if i < |rows| {
      StagePrefix(rows[..|rows| - 1], i, existing);
      assert rows[..|rows| - 1][..i] == rows[..i];
      assert rows[..|rows|] == rows;
    } else {
      assert rows[..i] == rows;
    }
  }

  /**
    Staging in chunks is staging in one go: staging `b` against what staging
    `a` has seen continues the staging of `a + b`. So the slice size of the
    import loop does not change what it stages.
  */
  lemma {:induction false} StageConcat(a: seq<Row>, b: seq<Row>, existing: set<string>)
    ensures var p := Stage(a, existing);
            var q := Stage(b, p.seen);
      Stage(a + b, existing) == Staged(p.rows + q.rows, q.seen)
    decreases |b|
  {
    if b == [] {
      assert a + b == a;
    } else {
      var b' := b[..|b| - 1];
      StageConcat(a, b', existing);
      assert (a + b)[..|a + b| - 1] == a + b';
      assert (a + b)[|a + b| - 1] == b[|b| - 1];
    }
  }
}
