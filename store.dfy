/**
 * The layered store (lines 144-206) and one run of the pipeline.
 *
 * Per run: the raw table and the quarantine table are replaced by the
 * batch only when the batch part is non-empty; the quarantine CSV is
 * always rewritten; the clean export is rewritten only when there are clean
 * rows; the clean table is upserted row by row, keyed by `id_encuesta`, and
 * is the only layer that accumulates across runs.
 */
module Store {
  import opened Wrappers
  import opened Schema
  import opened Validate
  import opened Report
  import Dedup
  import Text
  import Lex

  /** The non-key columns written by the upsert (lines 192-202). */
  datatype SilverRow = SilverRow(
    fecha: Date, satisfaccion: Option<int>,
    servicio: Option<string>, comentarios: Option<string>, ingestTs: string)

  function Silver(c: CleanRow): SilverRow {
    SilverRow(c.fecha, c.satisfaccion, c.servicio, c.comentarios, c.ingestTs)
  }

  /** `clean[clean_cols_parquet]` on one row. */
  function Business(c: CleanRow): BusinessRow {
    BusinessRow(c.id, c.fecha, c.satisfaccion, c.servicio, c.comentarios)
  }

  function BusinessAll(rows: seq<CleanRow>): (r: seq<BusinessRow>)
    ensures |r| == |rows|
    ensures forall i :: 0 <= i < |r| ==> r[i] == Business(rows[i])
  {
    seq(|rows|, i requires 0 <= i < |rows| => Business(rows[i]))
  }

  function BatchIds(batch: seq<CleanRow>): set<string> {
    if batch == [] then {} else BatchIds(batch[..|batch| - 1]) + {batch[|batch| - 1].id}
  }

  /** The clean table after upserting `batch` into `m` in order (`INSERT ... ON CONFLICT DO UPDATE`). */
  function UpsertAll(m: map<string, SilverRow>, batch: seq<CleanRow>): map<string, SilverRow> {
    if batch == [] then m
    else
      var last := batch[|batch| - 1];
      UpsertAll(m, batch[..|batch| - 1])[last.id := Silver(last)]
  }

  /** `batch[i]` is the last batch row with its id. */
  ghost predicate LastOfId(batch: seq<CleanRow>, i: int)
    requires 0 <= i < |batch|
  {
    forall j :: i < j < |batch| ==> batch[j].id != batch[i].id
  }

  lemma {:induction false} BatchIdsHas(batch: seq<CleanRow>)
    ensures forall i :: 0 <= i < |batch| ==> batch[i].id in BatchIds(batch)
  {
    if batch != [] {
      var n := |batch| - 1;
      BatchIdsHas(batch[..n]);
      forall i | 0 <= i < n ensures batch[i].id in BatchIds(batch) {
        assert batch[i] == batch[..n][i];
      }
    }
  }

  lemma {:induction false} BatchIdsLast(batch: seq<CleanRow>)
    ensures forall k :: k in BatchIds(batch) ==> exists i :: 0 <= i < |batch| && batch[i].id == k && LastOfId(batch, i)
  {
    if batch != [] {
      var n := |batch| - 1;
      var pre := batch[..n];
      BatchIdsLast(pre);
      forall k | k in BatchIds(batch)
        ensures exists i :: 0 <= i < |batch| && batch[i].id == k && LastOfId(batch, i)
      {
        if k != batch[n].id {
          assert k in BatchIds(pre);
          var i :| 0 <= i < |pre| && pre[i].id == k && LastOfId(pre, i);
          assert batch[i] == pre[i];
          forall j | i < j < |batch| ensures batch[j].id != batch[i].id {
            if j < n { assert batch[j] == pre[j]; }
          }
        } else {
          assert LastOfId(batch, n);
        }
      }
    }
  }

  /** The key set grows by exactly the batch ids; every other key keeps its old row. */
  lemma {:induction false} UpsertKeys(m: map<string, SilverRow>, batch: seq<CleanRow>)
    ensures UpsertAll(m, batch).Keys == m.Keys + BatchIds(batch)
    ensures forall k :: k in m && k !in BatchIds(batch) ==> UpsertAll(m, batch)[k] == m[k]
  {
    if batch != [] {
      UpsertKeys(m, batch[..|batch| - 1]);
    }
  }

  /** A batch id maps to the last batch row carrying it. */
  lemma {:induction false} UpsertLastWins(m: map<string, SilverRow>, batch: seq<CleanRow>)
    ensures forall i :: 0 <= i < |batch| && LastOfId(batch, i) ==>
              batch[i].id in UpsertAll(m, batch) && UpsertAll(m, batch)[batch[i].id] == Silver(batch[i])
  {
    if batch != [] {
      var n := |batch| - 1;
      var pre := batch[..n];
      UpsertLastWins(m, pre);
      forall i | 0 <= i < |batch| && LastOfId(batch, i)
        ensures batch[i].id in UpsertAll(m, batch) && UpsertAll(m, batch)[batch[i].id] == Silver(batch[i])
      {
        if i < n {
          assert batch[i] == pre[i];
          assert LastOfId(pre, i);
        }
      }
    }
  }

  /**
   * Upsert semantics: the key set grows by the batch ids; a batch id maps to
   * the last batch row carrying it; every other key keeps its old row.
   */
  lemma UpsertSpec(m: map<string, SilverRow>, batch: seq<CleanRow>)
    ensures UpsertAll(m, batch).Keys == m.Keys + BatchIds(batch)
    ensures forall i :: 0 <= i < |batch| ==> batch[i].id in BatchIds(batch)
    ensures forall k :: k in m && k !in BatchIds(batch) ==> UpsertAll(m, batch)[k] == m[k]
    ensures forall i :: 0 <= i < |batch| && LastOfId(batch, i) ==>
              batch[i].id in UpsertAll(m, batch) && UpsertAll(m, batch)[batch[i].id] == Silver(batch[i])
    ensures forall k :: k in BatchIds(batch) ==> exists i :: 0 <= i < |batch| && batch[i].id == k && LastOfId(batch, i)
  {
    BatchIdsHas(batch);
    BatchIdsLast(batch);
    UpsertKeys(m, batch);
    UpsertLastWins(m, batch);
  }

  /** With unique ids (as after deduplication) each batch row is stored under its own id. */
  lemma UpsertUnique(m: map<string, SilverRow>, batch: seq<CleanRow>)
    requires forall i, j :: 0 <= i < j < |batch| ==> batch[i].id != batch[j].id
    ensures forall i :: 0 <= i < |batch| ==>
              batch[i].id in UpsertAll(m, batch) && UpsertAll(m, batch)[batch[i].id] == Silver(batch[i])
  {
    UpsertLastWins(m, batch);
  }

  /** Upserting the same batch again changes nothing (the same rows, `_ingest_ts` included). */
  lemma UpsertIdempotent(m: map<string, SilverRow>, batch: seq<CleanRow>)
    ensures UpsertAll(UpsertAll(m, batch), batch) == UpsertAll(m, batch)
  {
    var once := UpsertAll(m, batch);
    var twice := UpsertAll(once, batch);
    UpsertSpec(m, batch);
    UpsertSpec(once, batch);
    forall k | k in twice ensures k in once && twice[k] == once[k] {
      if k in BatchIds(batch) {
        var i :| 0 <= i < |batch| && batch[i].id == k && LastOfId(batch, i);
      }
    }
  }

  /** Across two runs, an id present in the later batch holds the later run's values. */
  lemma UpsertLaterRunWins(m: map<string, SilverRow>, first: seq<CleanRow>, second: seq<CleanRow>, i: nat)
    requires i < |second| && LastOfId(second, i)
    ensures second[i].id in UpsertAll(UpsertAll(m, first), second)
    ensures UpsertAll(UpsertAll(m, first), second)[second[i].id] == Silver(second[i])
  {
    UpsertSpec(UpsertAll(m, first), second);
  }

  /** One ingestion run's output before persistence. */
  datatype Batch = Batch(raw: seq<RawRow>, quarantine: seq<Row>, clean: seq<CleanRow>)

  /** Lines 101-137: coerce, split, and deduplicate the clean part. */
  function Prepare(u: Text.Unicode, p: Parsers, raw: seq<RawRow>): Batch {
    var coerced := CoerceAll(u, p, raw);
    Batch(raw, Split(coerced).1, CleanPart(coerced))
  }

  /** The whole of lines 55-137 on a drop directory. */
  function PrepareRun(u: Text.Unicode, p: Parsers, dir: seq<InputFile>, clock: seq<string>): Batch
    requires |clock| == |dir|
  {
    var files := SortFiles(dir);
    assert |files| == |dir| by { assert |multiset(files)| == |multiset(dir)|; }
    Prepare(u, p, Ingested(files, clock))
  }

  /** A batch as the cleaning stage leaves it. */
  ghost predicate BatchOk(b: Batch) {
    && (forall r :: r in b.quarantine ==> !IsValid(r))
    && (forall c :: c in b.clean ==> CleanOk(c))
    && (forall i, j :: 0 <= i < j < |b.clean| ==> b.clean[i].id != b.clean[j].id)
  }

  /** The cleaning stage leaves a well-formed batch. */
  lemma PrepareOk(u: Text.Unicode, p: Parsers, raw: seq<RawRow>)
    ensures BatchOk(Prepare(u, p, raw))
  {
    var valid := ToCleanAll(Split(CoerceAll(u, p, raw)).0);
    Dedup.DedupIdsUnique(valid);
    Dedup.DedupKeepsClean(valid);
  }

  /** Quarantine is every invalid row, in input order, never deduplicated; the two parts account for every row. */
  lemma PrepareQuarantine(u: Text.Unicode, p: Parsers, raw: seq<RawRow>)
    ensures var b := Prepare(u, p, raw);
            var coerced := CoerceAll(u, p, raw);
            && b.raw == raw
            && b.quarantine == Split(coerced).1
            && (forall i :: 0 <= i < |coerced| && !IsValid(coerced[i]) ==> coerced[i] in b.quarantine)
            && |Split(coerced).0| + |b.quarantine| == |raw|
            && |b.clean| + |b.quarantine| <= |raw|
  {
    var valid := ToCleanAll(Split(CoerceAll(u, p, raw)).0);
    Dedup.DedupSubset(valid);
    SplitCounts(CoerceAll(u, p, raw));
  }

  /** The clean part of a coerced frame: valid rows, typed, deduplicated. */
  function CleanPart(rows: seq<Row>): seq<CleanRow> {
    Dedup.Dedup(ToCleanAll(Split(rows).0))
  }

  /** No id of a valid row is lost. */
  lemma {:induction false} CleanPartCovers(rows: seq<Row>)
    ensures forall i :: 0 <= i < |rows| && IsValid(rows[i]) ==>
              exists j :: 0 <= j < |CleanPart(rows)| && Some(CleanPart(rows)[j].id) == rows[i].id
  {
    var split := Split(rows);
    var valid := ToCleanAll(split.0);
    Dedup.DedupKeepsIds(valid);
    var d := CleanPart(rows);
    forall i | 0 <= i < |rows| && IsValid(rows[i])
      ensures exists j :: 0 <= j < |d| && Some(d[j].id) == rows[i].id
    {
      var k :| 0 <= k < |split.0| && split.0[k] == rows[i];
      var j :| 0 <= j < |d| && d[j].id == valid[k].id;
    }
  }

  /** The surviving row of an id carries the latest ingest timestamp among that id's valid rows. */
  lemma {:induction false} CleanPartLastWins(rows: seq<Row>)
    ensures forall c, i :: c in CleanPart(rows) && 0 <= i < |rows| && IsValid(rows[i]) && rows[i].id == Some(c.id)
              ==> Lex.StrLe(rows[i].ingestTs, c.ingestTs)
  {
    var split := Split(rows);
    var valid := ToCleanAll(split.0);
    Dedup.DedupLatest(valid);
    forall c, i | c in CleanPart(rows) && 0 <= i < |rows| && IsValid(rows[i]) && rows[i].id == Some(c.id)
      ensures Lex.StrLe(rows[i].ingestTs, c.ingestTs)
    {
      var k :| 0 <= k < |split.0| && split.0[k] == rows[i];
      assert valid[k].id == c.id;
    }
  }

  /** The persisted layers. */
  datatype Layers = Layers(
    raw: seq<RawRow>,                      // table raw_encuestas
    quarantine: seq<Row>,                  // table quarantine_encuestas
    quarantineCsv: seq<Row>,               // file encuestas_invalidas.csv
    clean: map<string, SilverRow>,         // table clean_encuestas
    parquet: Option<seq<BusinessRow>>)     // file clean_encuestas.parquet, None while absent

  /** Lines 148-206 as a function of the prior layers and the batch. */
  function Persist(l: Layers, b: Batch): Layers {
    Layers(
      if b.raw != [] then b.raw else l.raw,
      if b.quarantine != [] then b.quarantine else l.quarantine,
      b.quarantine,
      UpsertAll(l.clean, b.clean),
      if b.clean != [] then Some(BusinessAll(b.clean)) else l.parquet)
  }

  /** What the layers promise: clean rows keyed by a present id with a score in range, only invalid rows quarantined, an export with unique ids. */
  ghost predicate LayersOk(l: Layers) {
    && (forall k :: k in l.clean ==> k != "" && ScoreOk(l.clean[k].satisfaccion))
    && (forall r :: r in l.quarantine ==> !IsValid(r))
    && (forall r :: r in l.quarantineCsv ==> !IsValid(r))
    && (l.parquet.Some? ==>
          && l.parquet.value != []
          && (forall i :: 0 <= i < |l.parquet.value| ==>
                l.parquet.value[i].id != "" && ScoreOk(l.parquet.value[i].satisfaccion))
          && (forall i, j :: 0 <= i < j < |l.parquet.value| ==> l.parquet.value[i].id != l.parquet.value[j].id))
  }

  lemma PersistKeepsOk(l: Layers, b: Batch)
    requires LayersOk(l) && BatchOk(b)
    ensures LayersOk(Persist(l, b))
  {
    var m := UpsertAll(l.clean, b.clean);
    UpsertSpec(l.clean, b.clean);
    forall k | k in m ensures k != "" && ScoreOk(m[k].satisfaccion) {
      if k in BatchIds(b.clean) {
        var i :| 0 <= i < |b.clean| && b.clean[i].id == k && LastOfId(b.clean, i);
        assert b.clean[i] in b.clean;
      }
    }
    var e := BusinessAll(b.clean);
    forall i | 0 <= i < |e| ensures e[i].id != "" && ScoreOk(e[i].satisfaccion) {
      assert b.clean[i] in b.clean;
    }
  }

  /** Persisting the identical batch (the same clock readings) again leaves every layer as it was. */
  lemma PersistIdempotent(l: Layers, b: Batch)
    ensures Persist(Persist(l, b), b) == Persist(l, b)
  {
    UpsertIdempotent(l.clean, b.clean);
  }

  /**
   * After a run without clean rows the export is not rewritten, so the
   * report is computed from the previous run's export.
   */
  lemma EmptyRunReportsStaleExport(l: Layers, b: Batch)
    requires b.clean == [] && l.parquet.Some?
    ensures Summarize(Persist(l, b).parquet.GetOr([]), |b.raw|, 0, |b.quarantine|).total == |l.parquet.value|
  {
  }

  /** The store of one output directory, updated in place by each run. */
  class LayeredStore {
    var raw: seq<RawRow>
    var quarantine: seq<Row>
    var quarantineCsv: seq<Row>
    var clean: map<string, SilverRow>
    var parquet: Option<seq<BusinessRow>>

    function Contents(): Layers
      reads this
    {
      Layers(raw, quarantine, quarantineCsv, clean, parquet)
    }

    ghost predicate Valid()
      reads this
    {
      LayersOk(Contents())
    }

    /** A fresh output directory: empty tables, no export. */
    constructor ()
      ensures Valid()
      ensures Contents() == Layers([], [], [], map[], None)
    {
      raw, quarantine, quarantineCsv, clean, parquet := [], [], [], map[], None;
    }

    /** The loop of lines 190-204: one upsert per clean row. */
    method Upsert(batch: seq<CleanRow>)
      modifies this
      ensures clean == UpsertAll(old(clean), batch)
      ensures raw == old(raw) && quarantine == old(quarantine)
      ensures quarantineCsv == old(quarantineCsv) && parquet == old(parquet)
    {
      var i := 0;
      while i < |batch|
        invariant 0 <= i <= |batch|
        invariant clean == UpsertAll(old(clean), batch[..i])
        invariant raw == old(raw) && quarantine == old(quarantine)
        invariant quarantineCsv == old(quarantineCsv) && parquet == old(parquet)
      {
        var r := batch[i];
        assert batch[..i + 1][..i] == batch[..i];
        clean := clean[r.id := SilverRow(r.fecha, r.satisfaccion, r.servicio, r.comentarios, r.ingestTs)];
        i := i + 1;
      }
      assert batch[..i] == batch;
    }

    /** Lines 144-206: write the batch into the layers. */
    method Save(b: Batch)
      requires Valid() && BatchOk(b)
      modifies this
      ensures Valid()
      ensures Contents() == Persist(old(Contents()), b)
    {
      PersistKeepsOk(Contents(), b);
      quarantineCsv := b.quarantine;
      if b.clean != [] {
        parquet := Some(BusinessAll(b.clean));
      }
      if b.raw != [] {
        raw := b.raw;
      }
      if b.quarantine != [] {
        quarantine := b.quarantine;
      }
      if b.clean != [] {
        Upsert(b.clean);
      }
    }

    /**
     * One run of the script on a drop directory; `clock[k]` is the ingest
     * timestamp taken for the k-th file in name order.  The report is
     * computed from the export as it stands after the run.
     */
    method Run(u: Text.Unicode, p: Parsers, dir: seq<InputFile>, clock: seq<string>) returns (report: Kpis)
      requires Valid() && |clock| == |dir|
      modifies this
      ensures Valid()
      ensures var b := PrepareRun(u, p, dir, clock);
              && Contents() == Persist(old(Contents()), b)
              && report == Summarize(parquet.GetOr([]), |b.raw|, |b.clean|, |b.quarantine|)
    {
      var files, rawRows := Ingest(dir, clock);
      var b := Prepare(u, p, rawRows);
      PrepareOk(u, p, rawRows);
      Save(b);
      report := Summarize(parquet.GetOr([]), |b.raw|, |b.clean|, |b.quarantine|);
    }
  }
}
