/**
 * Ingestion and schema reconciliation (stage 1 of the pipeline): the drop
 * directory's files are taken in name order, each readable file is stamped
 * with its name and one ingest timestamp, and every row is reindexed to the
 * fixed column list.
 */
module Schema {
  import opened Wrappers
  import Lex
  import Sorting

  /** A spreadsheet cell read as text; None is an empty cell or a missing column. */
  type Cell = Option<string>

  const EXPECTED_COLUMNS: seq<string> :=
    ["id_encuesta", "fecha", "satisfaccion_general", "servicio_usado", "comentarios"]
  const SOURCE_FILE: string := "_source_file"
  const INGEST_TS: string := "_ingest_ts"
  const RAW_COLUMNS: seq<string> := EXPECTED_COLUMNS + [SOURCE_FILE, INGEST_TS]

  /** One spreadsheet row, keyed by the file's own header. */
  type SheetRow = map<string, Cell>

  /** A file of the drop directory: its rows, or None when reading it raised. */
  datatype InputFile = InputFile(name: string, contents: Option<seq<SheetRow>>)

  /** A reconciled row: exactly the columns of RAW_COLUMNS, in that order. */
  datatype RawRow = RawRow(
    id: Cell, fecha: Cell, satisfaccion: Cell, servicio: Cell, comentarios: Cell,
    sourceFile: string, ingestTs: string)
  {
    function Cells(): seq<Cell> {
      [id, fecha, satisfaccion, servicio, comentarios, Some(sourceFile), Some(ingestTs)]
    }
  }

  /** The value of column `col`, null when the row has no such column. */
  function Get(row: SheetRow, col: string): Cell {
    if col in row then row[col] else None
  }

  /** `DataFrame.reindex(columns=cols)` on one row. */
  function Reindex(row: SheetRow, cols: seq<string>): (r: seq<Cell>)
    ensures |r| == |cols|
    ensures forall i :: 0 <= i < |cols| ==> r[i] == Get(row, cols[i])
  {
    if cols == [] then [] else [Get(row, cols[0])] + Reindex(row, cols[1..])
  }

  /** Lines 73-80 on one row: the two provenance columns are set, then the row is reindexed. */
  function ReconcileRow(row: SheetRow, name: string, ts: string): RawRow {
    RawRow(Get(row, "id_encuesta"), Get(row, "fecha"), Get(row, "satisfaccion_general"),
           Get(row, "servicio_usado"), Get(row, "comentarios"), name, ts)
  }

  /** The reconciled row is the stamped row reindexed to RAW_COLUMNS: absent columns are null. */
  lemma ReconcileIsReindex(row: SheetRow, name: string, ts: string)
    ensures ReconcileRow(row, name, ts).Cells()
         == Reindex(row[SOURCE_FILE := Some(name)][INGEST_TS := Some(ts)], RAW_COLUMNS)
  {
    var stamped := row[SOURCE_FILE := Some(name)][INGEST_TS := Some(ts)];
    var r := Reindex(stamped, RAW_COLUMNS);
    assert |r| == 7;
    assert r[5] == Some(name) && r[6] == Some(ts);
  }

  /** Columns outside EXPECTED_COLUMNS are dropped: they cannot change the result. */
  lemma ReconcileDropsExtras(a: SheetRow, b: SheetRow, name: string, ts: string)
    requires forall i :: 0 <= i < |EXPECTED_COLUMNS| ==> Get(a, EXPECTED_COLUMNS[i]) == Get(b, EXPECTED_COLUMNS[i])
    ensures ReconcileRow(a, name, ts) == ReconcileRow(b, name, ts)
  {
    assert Get(a, EXPECTED_COLUMNS[0]) == Get(b, EXPECTED_COLUMNS[0]);
    assert Get(a, EXPECTED_COLUMNS[1]) == Get(b, EXPECTED_COLUMNS[1]);
    assert Get(a, EXPECTED_COLUMNS[2]) == Get(b, EXPECTED_COLUMNS[2]);
    assert Get(a, EXPECTED_COLUMNS[3]) == Get(b, EXPECTED_COLUMNS[3]);
    assert Get(a, EXPECTED_COLUMNS[4]) == Get(b, EXPECTED_COLUMNS[4]);
  }

  /** One file's frame: same row count, every row carrying this file's name and timestamp. */
  function ReconcileFile(rows: seq<SheetRow>, name: string, ts: string): (r: seq<RawRow>)
    ensures |r| == |rows|
    ensures forall i :: 0 <= i < |r| ==> r[i].sourceFile == name && r[i].ingestTs == ts
    ensures forall i :: 0 <= i < |r| ==> r[i].Cells()[..5] == Reindex(rows[i], EXPECTED_COLUMNS)
  {
    seq(|rows|, i requires 0 <= i < |rows| => ReconcileRow(rows[i], name, ts))
  }

  predicate NameLe(f: InputFile, g: InputFile) {
    Lex.StrLe(f.name, g.name)
  }

  /** `sorted(DATA.glob("*.xlsx"))`. */
  function SortFiles(dir: seq<InputFile>): seq<InputFile> {
    Sorting.Sort(dir, NameLe)
  }

  lemma SortFilesSpec(dir: seq<InputFile>)
    ensures multiset(SortFiles(dir)) == multiset(dir)
    ensures forall i, j :: 0 <= i < j < |SortFiles(dir)| ==>
              Lex.StrLe(SortFiles(dir)[i].name, SortFiles(dir)[j].name)
  {
    forall a: InputFile, b: InputFile ensures NameLe(a, b) || NameLe(b, a) {
      Lex.StrLeTotal(a.name, b.name);
    }
    forall a: InputFile, b: InputFile, c: InputFile | NameLe(a, b) && NameLe(b, c)
      ensures NameLe(a, c)
    {
      Lex.StrLeTransitive(a.name, b.name, c.name);
    }
    Sorting.SortSorted(dir, NameLe);
  }

  /** The list `raw` of per-file frames after the loop of lines 66-85; `clock[k]` is the reading of `datetime.now` for `files[k]`. */
  function Frames(files: seq<InputFile>, clock: seq<string>): (r: seq<seq<RawRow>>)
    requires |clock| == |files|
    ensures |r| <= |files|
  {
    if files == [] then []
    else
      var n := |files| - 1;
      match files[n].contents
      case None => Frames(files[..n], clock[..n])
      case Some(rows) => Frames(files[..n], clock[..n]) + [ReconcileFile(rows, files[n].name, clock[n])]
  }

  /** `pd.concat(frames, ignore_index=True)`. */
  function Concat(frames: seq<seq<RawRow>>): seq<RawRow> {
    if frames == [] then [] else Concat(frames[..|frames| - 1]) + frames[|frames| - 1]
  }

  /** Rows a frame list holds in all. */
  function TotalRows(frames: seq<seq<RawRow>>): nat {
    if frames == [] then 0 else TotalRows(frames[..|frames| - 1]) + |frames[|frames| - 1]|
  }

  /** The rows of files that could be read, in sorted-name order. */
  function Ingested(files: seq<InputFile>, clock: seq<string>): seq<RawRow>
    requires |clock| == |files|
  {
    Concat(Frames(files, clock))
  }

  /** Concatenation keeps every row: the row count is the sum of the frames' row counts. */
  lemma {:induction false} ConcatLength(frames: seq<seq<RawRow>>)
    ensures |Concat(frames)| == TotalRows(frames)
  {
    if frames != [] {
      ConcatLength(frames[..|frames| - 1]);
    }
  }

  /** Every ingested row comes from a readable file and carries that file's name and timestamp. */
  lemma {:induction false} IngestedProvenance(files: seq<InputFile>, clock: seq<string>, r: RawRow)
    requires |clock| == |files|
    requires r in Ingested(files, clock)
    ensures exists k :: 0 <= k < |files| && files[k].contents.Some?
              && r.sourceFile == files[k].name && r.ingestTs == clock[k]
  {
    var n := |files| - 1;
    var before := Ingested(files[..n], clock[..n]);
    var last := if files[n].contents.Some?
                then ReconcileFile(files[n].contents.value, files[n].name, clock[n]) else [];
    assert Ingested(files, clock) == before + last;
    if r in before {
      IngestedProvenance(files[..n], clock[..n], r);
      var k :| 0 <= k < n && files[..n][k].contents.Some?
             && r.sourceFile == files[..n][k].name && r.ingestTs == clock[..n][k];
      assert files[k] == files[..n][k];
    } else {
      var i :| 0 <= i < |last| && last[i] == r;
    }
  }

  /** Every row of every readable file reaches the ingested rows, reconciled with that file's name and timestamp. */
  lemma {:induction false} IngestedComplete(files: seq<InputFile>, clock: seq<string>, k: int, j: int)
    requires |clock| == |files|
    requires 0 <= k < |files| && files[k].contents.Some? && 0 <= j < |files[k].contents.value|
    ensures ReconcileRow(files[k].contents.value[j], files[k].name, clock[k]) in Ingested(files, clock)
  {
    var n := |files| - 1;
    var before := Ingested(files[..n], clock[..n]);
    var last := if files[n].contents.Some?
                then ReconcileFile(files[n].contents.value, files[n].name, clock[n]) else [];
    assert Ingested(files, clock) == before + last;
    if k < n {
      assert files[..n][k] == files[k] && clock[..n][k] == clock[k];
      IngestedComplete(files[..n], clock[..n], k, j);
    } else {
      assert last[j] in last;
    }
  }

  /** Lines 55-94: read the sorted files one by one, collecting one frame per readable file. */
  method Ingest(dir: seq<InputFile>, clock: seq<string>) returns (files: seq<InputFile>, raw: seq<RawRow>)
    requires |clock| == |dir|
    ensures files == SortFiles(dir) && |files| == |dir|
    ensures raw == Ingested(files, clock)
    ensures |raw| == TotalRows(Frames(files, clock))
  {
    files := SortFiles(dir);
    assert |files| == |dir| by { assert |multiset(files)| == |multiset(dir)|; }
    var frames: seq<seq<RawRow>> := [];
    var i := 0;
    while i < |files|
      invariant 0 <= i <= |files|
      invariant frames == Frames(files[..i], clock[..i])
    {
      var f := files[i];
      match f.contents {
        case None =>
        case Some(rows) =>
          frames := frames + [ReconcileFile(rows, f.name, clock[i])];
      }
      assert files[..i + 1][..i] == files[..i] && clock[..i + 1][..i] == clock[..i];
      i := i + 1;
    }
    assert files[..i] == files && clock[..i] == clock;
    raw := Concat(frames);
    ConcatLength(frames);
  }
}
