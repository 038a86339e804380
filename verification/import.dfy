/**
  The import run of ProductService (app/services/product_service.py):
  `_process_batches` and `import_products_from_csv`.

  Other requests act on a running import concurrently; what the worker sees
  of them is given as parameters: `cancelSeen(i)` is the value
  `cancel_flags.get(task_id, False)` has when checked before the slice at
  offset `i`, and `commitError(i)` is the storage error, if any, raised while
  writing that slice. The parsed CSV is given as rows, or as the message of
  the parse failure.
*/
module Import {
  import opened Wrappers
  import Text
  import Catalog
  import Registry
  import opened Staging

  /** Rows per slice. */
  const BatchSize: nat := 5000

  function Min(a: nat, b: nat): nat {
    if a <= b then a else b
  }

  // ---- progress ----

  /** `x // n` for a positive `n`, by repeated subtraction (see `QuotientIsDivision`). */
  function Quotient(x: nat, n: nat): nat
    requires n > 0
    decreases x
  {
    if x < n then 0 else 1 + Quotient(x - n, n)
  }

  /**
    `min(95, int((i + batch_size) / len(df) * 85) + 10)`, with the float
    division replaced by integer division; `n` is the row count after
    preprocessing.
  */
  function ProgressAt(offset: nat, n: nat): (p: nat)
    requires n > 0
    ensures 10 <= p <= 95
  {
    Min(95, Quotient((offset + BatchSize) * 85, n) + 10)
  }

  lemma {:induction false} QuotientIsDivision(x: nat, n: nat)
    requires n > 0
    ensures Quotient(x, n) == x / n
    decreases x
  {
    if x < n {
      DivUnique(x, n, 0, x);
    } else {
      QuotientIsDivision(x - n, n);
      DivUnique(x, n, (x - n) / n + 1, (x - n) % n);
    }
  }

  /** The percentage is the integer formula of the source. */
  lemma ProgressAtFormula(offset: nat, n: nat)
    requires n > 0
    ensures ProgressAt(offset, n) == Min(95, (offset + BatchSize) * 85 / n + 10)
  {
    QuotientIsDivision((offset + BatchSize) * 85, n);
  }

  /** Quotient and remainder are determined by the dividend. */
  lemma DivUnique(x: nat, n: nat, q: nat, r: nat)
    requires 0 < n && r < n && x == q * n + r
    ensures x / n == q
  {
    var q', r' := x / n, x % n;
    assert x == q' * n + r';
    if q' > q {
      MulLe(q + 1, q', n);
    } else if q' < q {
      MulLe(q' + 1, q, n);
    }
  }

  lemma {:induction false} MulLe(a: nat, b: nat, n: nat)
    requires a <= b
    ensures a * n <= b * n
    decreases b - a
  {
    if a < b {
      MulLe(a, b - 1, n);
      assert b * n == (b - 1) * n + n;
    }
  }

  lemma {:induction false} QuotientMonotone(x: nat, y: nat, n: nat)
    requires n > 0 && x <= y
    ensures Quotient(x, n) <= Quotient(y, n)
    decreases x
  {
    if x >= n {
      QuotientMonotone(x - n, y - n, n);
    }
  }

  /** A later slice never publishes a smaller percentage. */
  lemma ProgressMonotone(a: nat, b: nat, n: nat)
    requires n > 0 && a <= b
    ensures ProgressAt(a, n) <= ProgressAt(b, n)
  {
    QuotientMonotone((a + BatchSize) * 85, (b + BatchSize) * 85, n);
  }

  // ---- where the slice loop stops ----

  datatype Halt =
    | Exhausted                            // every slice was written
    | CancelRequested(at: nat)             // the flag was seen before the slice at `at`
    | WriteFailed(at: nat, message: string) // writing the slice at `at` raised

  /**
    The first slice offset from `i` on (in steps of the slice size) where the
    loop stops: the cancel check comes first, then the write of the slice.
  */
  function HaltFrom(n: nat, cancelSeen: nat -> bool, commitError: nat -> Option<string>, i: nat): (h: Halt)
    ensures !h.Exhausted? ==> i <= h.at < n
    decreases if i < n then n - i else 0
  {
    if i >= n then Exhausted
    else if cancelSeen(i) then CancelRequested(i)
    else if commitError(i).Some? then WriteFailed(i, commitError(i).value)
    else HaltFrom(n, cancelSeen, commitError, i + BatchSize)
  }

  /**
    The loop stops at a slice offset, for the reason it names, and every
    slice checked before that one passed both the cancel check and the write.
  */
  lemma {:induction false} HaltFromStops(n: nat, cancelSeen: nat -> bool, commitError: nat -> Option<string>, i: nat)
    ensures var h := HaltFrom(n, cancelSeen, commitError, i);
      && (h.CancelRequested? ==> i <= h.at < n && (h.at - i) % BatchSize == 0 && cancelSeen(h.at))
      && (h.WriteFailed? ==>
            i <= h.at < n && (h.at - i) % BatchSize == 0 && !cancelSeen(h.at) && commitError(h.at) == Some(h.message))
      && (forall o :: i <= o < StopOffset(h, n) && (o - i) % BatchSize == 0 ==> !cancelSeen(o) && commitError(o).None?)
    decreases if i < n then n - i else 0
  {
    if i < n && !cancelSeen(i) && commitError(i).None? {
      HaltFromStops(n, cancelSeen, commitError, i + BatchSize);
    }
  }

  /** How many rows the loop walked through before stopping. */
  function StopOffset(h: Halt, n: nat): nat {
    match h
    case Exhausted => n
    case CancelRequested(at) => at
    case WriteFailed(at, _) => at
  }

  // ---- the bulk insert ----

  /** The table after the INSERT of each row in turn, every row active. */
  function WithInserted(ps: seq<Catalog.Product>, rows: seq<Row>): (r: seq<Catalog.Product>)
    ensures |r| == |ps| + |rows|
    decreases |rows|
  {
    if rows == [] then ps
    else WithInserted(Catalog.Inserted(ps, rows[0].name, rows[0].sku, rows[0].description, true), rows[1..])
  }

  /** The insert only appends: stored rows are kept, and each new row carries its input's fields and is active. */
  lemma {:induction false} WithInsertedAppends(ps: seq<Catalog.Product>, rows: seq<Row>)
    ensures WithInserted(ps, rows)[..|ps|] == ps
    ensures forall t :: 0 <= t < |rows| ==>
      var p := WithInserted(ps, rows)[|ps| + t];
      p.name == rows[t].name && p.sku == rows[t].sku && p.description == rows[t].description && p.active
    decreases |rows|
  {
    if rows != [] {
      var next := Catalog.Inserted(ps, rows[0].name, rows[0].sku, rows[0].description, true);
      WithInsertedAppends(next, rows[1..]);
      var r := WithInserted(ps, rows);
      assert r == WithInserted(next, rows[1..]);
      forall t | 1 <= t < |rows| ensures r[|ps| + t] == r[|next| + (t - 1)] && rows[1..][t - 1] == rows[t] {
      }
      assert r[|ps|] == r[..|next|][|ps|] == next[|ps|];
      assert r[..|ps|] == r[..|next|][..|ps|];
    }
  }

  lemma {:induction false} WithInsertedConcat(ps: seq<Catalog.Product>, a: seq<Row>, b: seq<Row>)
    ensures WithInserted(WithInserted(ps, a), b) == WithInserted(ps, a + b)
    decreases |a|
  {
    if a == [] {
      assert a + b == b;
    } else {
      var next := Catalog.Inserted(ps, a[0].name, a[0].sku, a[0].description, true);
      assert WithInserted(ps, a) == WithInserted(next, a[1..]);
      assert (a + b)[0] == a[0] && (a + b)[1..] == a[1..] + b;
      assert WithInserted(ps, a + b) == WithInserted(next, a[1..] + b);
      WithInsertedConcat(next, a[1..], b);
    }
  }

  /** Rows whose SKUs are lower-case, distinct and not yet stored can be inserted without breaking the table. */
  predicate Insertable(ps: seq<Catalog.Product>, rows: seq<Row>) {
    && (forall t :: 0 <= t < |rows| ==> Text.IsLowercase(rows[t].sku) && rows[t].sku !in Catalog.SkuSet(ps))
    && (forall t, u :: 0 <= t < u < |rows| ==> rows[t].sku != rows[u].sku)
  }

  lemma {:induction false} WithInsertedWellFormed(ps: seq<Catalog.Product>, rows: seq<Row>)
    requires Catalog.WellFormed(ps) && Insertable(ps, rows)
    ensures Catalog.WellFormed(WithInserted(ps, rows))
    decreases |rows|
  {
    if rows != [] {
      var r := rows[0];
      WithInsertedAppends(ps, rows);
      Catalog.InsertedWellFormed(ps, r.name, r.sku, r.description, true);
      var next := Catalog.Inserted(ps, r.name, r.sku, r.description, true);
      WithInsertedWellFormed(next, rows[1..]);
    }
  }

  /** Inserting lower-case SKUs adds exactly those SKUs to what `_get_existing_skus` reads. */
  lemma {:induction false} WithInsertedExisting(ps: seq<Catalog.Product>, rows: seq<Row>)
    requires forall t :: 0 <= t < |rows| ==> Text.IsLowercase(rows[t].sku)
    ensures Catalog.ExistingSkus(WithInserted(ps, rows)) == Catalog.ExistingSkus(ps) + RawSkus(rows)
  {
    var r := WithInserted(ps, rows);
    WithInsertedAppends(ps, rows);
    forall s | s in Catalog.ExistingSkus(r) ensures s in Catalog.ExistingSkus(ps) + RawSkus(rows) {
      var i :| 0 <= i < |r| && Text.Lower(r[i].sku) == s;
      if i < |ps| {
        assert r[i] == r[..|ps|][i] == ps[i];
      } else {
        assert r[|ps| + (i - |ps|)].sku == rows[i - |ps|].sku;
        assert rows[i - |ps|].sku in RawSkus(rows);
      }
    }
    forall s | s in Catalog.ExistingSkus(ps) + RawSkus(rows) ensures s in Catalog.ExistingSkus(r) {
      if s in Catalog.ExistingSkus(ps) {
        var i :| 0 <= i < |ps| && Text.Lower(ps[i].sku) == s;
        assert r[i] == r[..|ps|][i] == ps[i];
      } else {
        var t :| 0 <= t < |rows| && rows[t].sku == s;
        assert r[|ps| + t].sku == s;
      }
    }
  }

  /** Staging against the table's SKUs yields rows the table accepts. */
  lemma StagedInsertWellFormed(ps: seq<Catalog.Product>, rows: seq<Row>, existing: set<string>)
    requires Catalog.WellFormed(ps) && Catalog.ExistingSkus(ps) <= existing
    ensures Catalog.WellFormed(WithInserted(ps, Stage(rows, existing).rows))
  {
    var st := Stage(rows, existing);
    StageFresh(rows, existing);
    assert Catalog.SkuSet(ps) <= existing;
    WithInsertedWellFormed(ps, st.rows);
  }

  // ---- _process_batches ----

  /** The record published after the slice at `offset`. */
  function RecordAt(rows: seq<Row>, existing: set<string>, offset: nat): Registry.Record
    requires offset < |rows|
  {
    var n := |rows|;
    Registry.BatchRecord(ProgressAt(offset, n), offset + BatchSize, n,
                         |Stage(rows[..Min(offset + BatchSize, n)], existing).rows|)
  }

  /** The records published for the slices from `offset` on that start before `stop`. */
  function TrailFrom(rows: seq<Row>, existing: set<string>, offset: nat, stop: nat): (t: seq<Registry.Record>)
    requires stop <= |rows|
    ensures forall k :: 0 <= k < |t| ==> t[k].status.Processing? && !t[k].completed
    decreases if offset < stop then stop - offset else 0
  {
    if offset >= stop then [] else [RecordAt(rows, existing, offset)] + TrailFrom(rows, existing, offset + BatchSize, stop)
  }

  /** Appending the slice at `i` extends the trail up to any stop inside that slice. */
  lemma {:induction false} TrailFromSnoc(rows: seq<Row>, existing: set<string>, offset: nat, i: nat, stop: nat)
    requires offset <= i < stop <= |rows| && stop <= i + BatchSize && (i - offset) % BatchSize == 0
    ensures TrailFrom(rows, existing, offset, stop) == TrailFrom(rows, existing, offset, i) + [RecordAt(rows, existing, i)]
    decreases i - offset
  {
    if offset < i {
      TrailFromSnoc(rows, existing, offset + BatchSize, i, stop);
    }
  }

  /** The published percentages stay within 10..95 and never decrease, starting from the first slice's. */
  lemma {:induction false} TrailFromMonotone(rows: seq<Row>, existing: set<string>, offset: nat, stop: nat)
    requires stop <= |rows|
    ensures forall k :: 0 <= k < |TrailFrom(rows, existing, offset, stop)| ==>
      10 <= TrailFrom(rows, existing, offset, stop)[k].progress <= 95
    ensures forall k :: 0 <= k < |TrailFrom(rows, existing, offset, stop)| && |rows| > 0 ==>
      ProgressAt(offset, |rows|) <= TrailFrom(rows, existing, offset, stop)[k].progress
    ensures forall k, l :: 0 <= k <= l < |TrailFrom(rows, existing, offset, stop)| ==>
      TrailFrom(rows, existing, offset, stop)[k].progress <= TrailFrom(rows, existing, offset, stop)[l].progress
    decreases if offset < stop then stop - offset else 0
  {
    if offset < stop {
      var n := |rows|;
      var t := TrailFrom(rows, existing, offset, stop);
      var rest := TrailFrom(rows, existing, offset + BatchSize, stop);
      TrailFromMonotone(rows, existing, offset + BatchSize, stop);
      ProgressMonotone(offset, offset + BatchSize, n);
      assert t == [RecordAt(rows, existing, offset)] + rest;
      assert t[0].progress == ProgressAt(offset, n);
      forall k | 1 <= k < |t| ensures t[k] == rest[k - 1] && ProgressAt(offset, n) <= t[k].progress {
      }
      forall k, l | 0 <= k <= l < |t| ensures t[k].progress <= t[l].progress {
        if 0 < k {
          assert t[k] == rest[k - 1] && t[l] == rest[l - 1];
        }
      }
    }
  }

  /**
    Staging the rows through the slice at `i` is staging the rows before it,
    then the slice against the set that grew.
  */
  lemma StageStep(rows: seq<Row>, existing: set<string>, i: nat, end: nat, before: Staged, slice: Staged)
    requires i <= end <= |rows|
    requires before == Stage(rows[..i], existing) && slice == Stage(rows[i..end], before.seen)
    ensures Stage(rows[..end], existing) == Staged(before.rows + slice.rows, slice.seen)
  {
    StageConcat(rows[..i], rows[i..end], existing);
    assert rows[..i] + rows[i..end] == rows[..end];
  }

  /** Writing the slice at a boundary `i` publishes the record that extends the trail through that slice. */
  lemma TrailStep(rows: seq<Row>, existing: set<string>, i: nat, imported: nat)
    requires i < |rows| && i % BatchSize == 0
    requires imported == |Stage(rows[..Min(i + BatchSize, |rows|)], existing).rows|
    ensures TrailFrom(rows, existing, 0, Min(i + BatchSize, |rows|))
      == TrailFrom(rows, existing, 0, i) + [Registry.BatchRecord(ProgressAt(i, |rows|), i + BatchSize, |rows|, imported)]
  {
    TrailFromSnoc(rows, existing, 0, i, Min(i + BatchSize, |rows|));
  }

  /** The next slice boundary after a boundary. */
  lemma NextBoundary(i: nat)
    requires i % BatchSize == 0
    ensures (i + BatchSize) % BatchSize == 0
  {
  }

  /** A slice that is neither cancelled nor failed leaves the stopping point where it was. */
  lemma HaltStep(n: nat, cancelSeen: nat -> bool, commitError: nat -> Option<string>, i: nat)
    requires i < n && !cancelSeen(i) && commitError(i).None?
    ensures HaltFrom(n, cancelSeen, commitError, i) == HaltFrom(n, cancelSeen, commitError, i + BatchSize)
  {
  }

  /**
    The "prepare batch data" step of `_process_batches`: the rows of
    `rows[i..end]` whose lower-cased SKU is not yet in `seen`, each added to
    `seen` as it is taken.
  */
  method PrepareBatch(rows: seq<Row>, i: nat, end: nat, seen: set<string>)
    returns (batch: seq<Row>, seenAfter: set<string>)
    requires i <= end <= |rows|
    ensures Staged(batch, seenAfter) == Stage(rows[i..end], seen)
  {
    batch := [];
    seenAfter := seen;
    var j := i;
    while j < end
      invariant i <= j <= end
      invariant Stage(rows[i..j], seen) == Staged(batch, seenAfter)
    {
      assert rows[i..j + 1][..j - i] == rows[i..j];
      var sku := Text.Lower(rows[j].sku);
      if sku !in seenAfter {
        batch := batch + [Row(rows[j].name, sku, rows[j].description)];
        seenAfter := seenAfter + {sku};
      }
      j := j + 1;
    }
  }

  /** The progress store with the last of `written` stored under `k`, if any. */
  function Latest<K, V>(m: map<K, V>, k: K, written: seq<V>): map<K, V> {
    if written == [] then m else m[k := written[|written| - 1]]
  }

  /** Storing under `k` hides whatever earlier writes stored there. */
  lemma LatestOverwritten<K, V>(m: map<K, V>, k: K, written: seq<V>, v: V)
    ensures Latest(m, k, written)[k := v] == m[k := v] == Latest(m, k, written + [v])
  {
  }

  /**
    `_process_batches`: walks the preprocessed rows slice by slice. Before a
    slice it checks the cancel flag and, when set, stores the cancelled record
    and returns the count so far. Otherwise it stages the slice's new rows,
    writes them, and publishes a progress record. Slices written stay written
    when a later one fails. `published` is the sequence of progress records
    stored, in order.
  */
  method ProcessBatches(rows: seq<Row>, table: Catalog.ProductTable, taskId: Registry.TaskId,
                        registry: Registry.TaskRegistry, existing: set<string>,
                        cancelSeen: nat -> bool, commitError: nat -> Option<string>)
    returns (outcome: Result<nat, string>, ghost published: seq<Registry.Record>)
    modifies table, registry
    ensures registry.cancelFlags == old(registry.cancelFlags)
    ensures var h := HaltFrom(|rows|, cancelSeen, commitError, 0);
            var stop := StopOffset(h, |rows|);
            var st := Stage(rows[..stop], existing);
      && table.products == WithInserted(old(table.products), st.rows)
      && published == TrailFrom(rows, existing, 0, stop)
      && outcome == (if h.WriteFailed? then Failure(h.message) else Success(|st.rows|))
      && registry.progress == if h.CancelRequested? then old(registry.progress)[taskId := Registry.CancelledRecord()]
                              else Latest(old(registry.progress), taskId, published)
  {
    var n := |rows|;
    var imported: nat := 0;
    var seen := existing;
    var i: nat := 0;
    published := [];
    ghost var walked := Stage(rows[..0], existing);
    assert rows[..0] == [];
    while i < n
      invariant i % BatchSize == 0
      invariant HaltFrom(n, cancelSeen, commitError, i) == HaltFrom(n, cancelSeen, commitError, 0)
      invariant walked == Stage(rows[..Min(i, n)], existing)
      invariant seen == walked.seen && imported == |walked.rows|
      invariant table.products == WithInserted(old(table.products), walked.rows)
      invariant published == TrailFrom(rows, existing, 0, Min(i, n))
      invariant registry.cancelFlags == old(registry.cancelFlags)
      invariant registry.progress == Latest(old(registry.progress), taskId, published)
      decreases n - i
    {
      if cancelSeen(i) {
        LatestOverwritten(old(registry.progress), taskId, published, Registry.CancelledRecord());
        registry.Put(taskId, Registry.CancelledRecord());
        return Success(imported), published;
      }
      var end := Min(i + BatchSize, n);
      var batch, seenAfter := PrepareBatch(rows, i, end, seen);
      if commitError(i).Some? {
        return Failure(commitError(i).value), published;
      }
      HaltStep(n, cancelSeen, commitError, i);
      StageStep(rows, existing, i, end, walked, Staged(batch, seenAfter));
      WithInsertedConcat(old(table.products), walked.rows, batch);
      walked := Staged(walked.rows + batch, seenAfter);
      seen := seenAfter;
      imported := imported + |batch|;
      table.products := WithInserted(table.products, batch);
      TrailStep(rows, existing, i, imported);
      var record := Registry.BatchRecord(ProgressAt(i, n), i + BatchSize, n, imported);
      LatestOverwritten(old(registry.progress), taskId, published, record);
      registry.Put(taskId, record);
      published := published + [record];
      NextBoundary(i);
      i := i + BatchSize;
    }
    outcome := Success(imported);
  }

  // ---- import_products_from_csv ----

  /** Storing a record under a key hides whatever was stored under it before. */
  lemma PutHides<K, V>(m: map<K, V>, k: K, v: V, w: V)
    ensures m[k := v][k := w] == m[k := w]
  {
  }

  /** The result dictionary of a run that returns: `imported` and `total_processed`. */
  datatype ImportSummary = ImportSummary(imported: nat, totalProcessed: nat)

  /**
    `import_products_from_csv`: stores the loading and preprocessing records,
    preprocesses the rows, reads the stored SKUs, runs the slices and stores
    the final record. A run that returns, cancelled or not, ends with the
    "Completed!" record and reports the row count read before deduplication;
    a run that raises ends with the error record and passes the error on.
  */
  method ImportProductsFromCsv(parsed: Result<seq<Row>, string>, taskId: Registry.TaskId,
                               registry: Registry.TaskRegistry, table: Catalog.ProductTable,
                               cancelSeen: nat -> bool, commitError: nat -> Option<string>)
    returns (r: Result<ImportSummary, string>)
    requires table.Valid()
    modifies table, registry
    ensures table.Valid()
    ensures registry.cancelFlags == old(registry.cancelFlags)
    ensures parsed.Failure? ==>
      && r == Failure(parsed.error)
      && table.products == old(table.products)
      && registry.progress == old(registry.progress)[taskId := Registry.ErrorRecord(parsed.error)]
    ensures parsed.Success? ==>
      var rows := Preprocess(parsed.value);
      var h := HaltFrom(|rows|, cancelSeen, commitError, 0);
      var st := Stage(rows[..StopOffset(h, |rows|)], Catalog.ExistingSkus(old(table.products)));
      && table.products == WithInserted(old(table.products), st.rows)
      && (h.WriteFailed? ==>
            && r == Failure(h.message)
            && registry.progress == old(registry.progress)[taskId := Registry.ErrorRecord(h.message)])
      && (!h.WriteFailed? ==>
            && r == Success(ImportSummary(|st.rows|, |parsed.value|))
            && registry.progress == old(registry.progress)[taskId := Registry.CompletedRecord(|st.rows|)])
    ensures r.Success? ==> r.value.imported <= r.value.totalProcessed
  {
    registry.Put(taskId, Registry.LoadingRecord());
    if parsed.Failure? {
      registry.Put(taskId, Registry.ErrorRecord(parsed.error));
      return Failure(parsed.error);
    }
    var raw := parsed.value;
    var totalRows := |raw|;
    registry.Put(taskId, Registry.PreprocessingRecord());
    var rows := Preprocess(raw);
    var existing := Catalog.ExistingSkus(table.products);
    var outcome: Result<nat, string>;
    ghost var published: seq<Registry.Record>;
    ghost var before := registry.progress;
    outcome, published := ProcessBatches(rows, table, taskId, registry, existing, cancelSeen, commitError);
    var final := if outcome.Failure? then Registry.ErrorRecord(outcome.error) else Registry.CompletedRecord(outcome.value);
    ghost var h := HaltFrom(|rows|, cancelSeen, commitError, 0);
    if h.CancelRequested? {
      PutHides(before, taskId, Registry.CancelledRecord(), final);
    } else if published != [] {
      PutHides(before, taskId, published[|published| - 1], final);
    }
    PutHides(old(registry.progress)[taskId := Registry.LoadingRecord()], taskId, Registry.PreprocessingRecord(), final);
    PutHides(old(registry.progress), taskId, Registry.LoadingRecord(), final);
    StagedInsertWellFormed(old(table.products), rows[..StopOffset(h, |rows|)], existing);
    registry.Put(taskId, final);
    if outcome.Failure? {
      return Failure(outcome.error);
    }
    r := Success(ImportSummary(outcome.value, totalRows));
  }

  // ---- what a run means for a later run ----

  /**
    Importing the same rows again into the table a run left stages nothing:
    every SKU the first run staged or skipped is now stored.
  */
  lemma ReimportStagesNothing(ps: seq<Catalog.Product>, rows: seq<Row>)
    ensures Stage(rows, Catalog.ExistingSkus(WithInserted(ps, Stage(rows, Catalog.ExistingSkus(ps)).rows))).rows == []
  {
    var existing := Catalog.ExistingSkus(ps);
    var st := Stage(rows, existing);
    StageFresh(rows, existing);
    WithInsertedExisting(ps, st.rows);
    StageSeen(rows, existing);
    StageNothingNew(rows, Catalog.ExistingSkus(WithInserted(ps, st.rows)));
  }

  /** Two rows with the same raw SKU: `drop_duplicates` keeps the later one. */
  lemma SameRawSkuKeepsLast(a: Row, b: Row)
    requires a.sku == b.sku
    ensures Preprocess([a, b]) == [NormalizeRow(b)]
  {
    assert [a, b][1..] == [b] && [b][1..] == [];
    assert [b][0].sku == a.sku;
    assert DropDuplicates([b]) == [b];
    assert DropDuplicates([a, b]) == [b];
  }

  /**
    Two rows whose SKUs differ as written but agree once stripped and
    lower-cased both survive `drop_duplicates`; the slice loop then keeps the
    earlier one.
  */
  lemma NormalizedCollisionKeepsFirst(a: Row, b: Row, existing: set<string>)
    requires a.sku != b.sku && Text.Normalize(a.sku) == Text.Normalize(b.sku)
    requires Text.Normalize(a.sku) !in existing
    ensures Preprocess([a, b]) == [NormalizeRow(a), NormalizeRow(b)]
    ensures Stage(Preprocess([a, b]), existing).rows == [NormalizeRow(a)]
  {
    PreprocessDistinctPair(a, b);
    Text.LowerIdempotent(Text.Strip(a.sku));
    StageCollidingPair(NormalizeRow(a), NormalizeRow(b), existing);
  }

  /** Two rows with different raw SKUs both pass preprocessing, in order. */
  lemma PreprocessDistinctPair(a: Row, b: Row)
    requires a.sku != b.sku
    ensures Preprocess([a, b]) == [NormalizeRow(a), NormalizeRow(b)]
  {
    DropDuplicatesDistinct([a, b]);
  }

  /** Of two rows whose lower-cased SKUs agree and are new, staging keeps the first. */
  lemma StageCollidingPair(r: Row, q: Row, existing: set<string>)
    requires Text.Lower(r.sku) == Text.Lower(q.sku) && Text.Lower(r.sku) !in existing
    ensures Stage([r, q], existing).rows == [StagedRow(r)]
  {
    assert [r, q][..1] == [r] && [r][..0] == [];
    assert Stage([r], existing) == Staged([StagedRow(r)], existing + {Text.Lower(r.sku)});
  }

  /** A single row with a new lower-cased SKU is staged. */
  lemma StageNewSingle(r: Row, existing: set<string>)
    requires Text.Lower(r.sku) !in existing
    ensures Stage([r], existing).rows == [StagedRow(r)]
  {
    assert [r][..0] == [];
  }

  /**
    So cleaning the SKUs of a file before importing it changes which of two
    colliding rows is imported: the raw file imports the earlier row, the
    cleaned file the later one.
  */
  lemma CleaningFirstChangesWinner(a: Row, b: Row, existing: set<string>)
    requires a.sku != b.sku && Text.Normalize(a.sku) == Text.Normalize(b.sku)
    requires Text.Normalize(a.sku) !in existing
    ensures Stage(Preprocess([a, b]), existing).rows == [NormalizeRow(a)]
    ensures Stage(Preprocess([NormalizeRow(a), NormalizeRow(b)]), existing).rows == [NormalizeRow(b)]
  {
    NormalizedCollisionKeepsFirst(a, b, existing);
    var nb := NormalizeRow(b);
    SameRawSkuKeepsLast(NormalizeRow(a), nb);
    Text.NormalizeIdempotent(b.sku);
    assert NormalizeRow(nb) == nb;
    Text.LowerIdempotent(Text.Strip(b.sku));
    StageNewSingle(nb, existing);
  }

  /** Such rows exist: SKUs "A" and "a" differ as written and normalize alike. */
  lemma CaseOnlySkusCollide()
    ensures "A" != "a"
    ensures Text.Normalize("A") == Text.Normalize("a") == "a"
  {
    Text.StripUnchanged("A");
    assert Text.Strip("A") == "A";
    assert Text.Lower("A") == "a";
    Text.StripUnchanged("a");
    assert Text.Strip("a") == "a";
    assert Text.Lower("a") == "a";
  }
}
