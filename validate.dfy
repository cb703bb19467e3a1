/**
 * Cleaning (lines 101-131): text normalisation, null tokens, type
 * coercion, the validity mask and the clean/quarantine split.
 */
module Validate {
  import opened Wrappers
  import opened Schema
  import Text

  type MonthNum = m: int | 1 <= m <= 12 witness 1
  type DayNum = d: int | 1 <= d <= 31 witness 1

  /** A calendar date (`.dt.date`). */
  datatype Date = Date(year: int, month: MonthNum, day: DayNum)

  /**
   * The coercions the source delegates to pandas, left abstract:
   * `pd.to_datetime(..., errors="coerce")` and `pd.to_numeric(..., errors="coerce")`,
   * each None where pandas gives NaT/NaN.  Satisfaction is taken to be integral.
   */
  datatype Parsers = Parsers(toDate: string -> Option<Date>, toNumber: string -> Option<int>)

  /** The texts that mean "no answer" (line 108); matched exactly, case included. */
  const NULL_TOKENS: seq<string> := ["NS/NC", "No contesta", "no sabe"]

  /** A row after coercion: the shape of both the clean and the quarantine frame. */
  datatype Row = Row(
    id: Cell, fecha: Option<Date>, satisfaccion: Option<int>,
    servicio: Option<string>, comentarios: Option<string>,
    sourceFile: string, ingestTs: string)

  /** `Series.replace(NULL_TOKENS, pd.NA)` on one cell. */
  function ReplaceNullTokens(c: Cell): (r: Cell)
    ensures r.None? <==> c.None? || c.value in NULL_TOKENS
    ensures r.Some? ==> r == c
  {
    match c
    case Some(s) => if s in NULL_TOKENS then None else c
    case None => None
  }

  /** Lines 110 and 116: null tokens become null, then the text is coerced to a number. */
  function ParseSatisfaction(p: Parsers, c: Cell): Option<int> {
    match ReplaceNullTokens(c)
    case None => None
    case Some(s) => p.toNumber(s)
  }

  function ParseDate(p: Parsers, c: Cell): Option<Date> {
    match c
    case None => None
    case Some(s) => p.toDate(s)
  }

  /** Lines 104-116 on one row; the raw id and the provenance are kept as they are. */
  function Coerce(u: Text.Unicode, p: Parsers, r: RawRow): Row {
    Row(r.id, ParseDate(p, r.fecha), ParseSatisfaction(p, r.satisfaccion),
        Text.NormalizeText(u, r.servicio), Text.NormalizeText(u, r.comentarios),
        r.sourceFile, r.ingestTs)
  }

  function CoerceAll(u: Text.Unicode, p: Parsers, rows: seq<RawRow>): (r: seq<Row>)
    ensures |r| == |rows|
    ensures forall i :: 0 <= i < |r| ==> r[i] == Coerce(u, p, rows[i])
  {
    seq(|rows|, i requires 0 <= i < |rows| => Coerce(u, p, rows[i]))
  }

  /** Each null token coerces to null, and no other text is treated as one. */
  lemma NullTokensBecomeNull(p: Parsers, s: string)
    ensures s in NULL_TOKENS ==> ParseSatisfaction(p, Some(s)).None?
    ensures s !in NULL_TOKENS ==> ParseSatisfaction(p, Some(s)) == p.toNumber(s)
  {
  }

  /** Matching is exact: a differently cased token goes through numeric coercion. */
  lemma NullTokensAreCaseSensitive(p: Parsers)
    ensures ParseSatisfaction(p, Some("ns/nc")) == p.toNumber("ns/nc")
    ensures ParseSatisfaction(p, Some("No Sabe")) == p.toNumber("No Sabe")
  {
    assert "ns/nc" != NULL_TOKENS[0] by { assert "ns/nc"[0] != NULL_TOKENS[0][0]; }
    assert "No Sabe" != NULL_TOKENS[2] by { assert "No Sabe"[0] != NULL_TOKENS[2][0]; }
  }

  predicate IdPresent(id: Cell) {
    id.Some? && id.value != ""
  }

  /** `between(1, 10) | isna()`. */
  predicate ScoreOk(s: Option<int>) {
    s.None? || 1 <= s.value <= 10
  }

  /** The `valid` mask of lines 120-125. */
  predicate IsValid(r: Row) {
    r.fecha.Some? && IdPresent(r.id) && ScoreOk(r.satisfaccion)
  }

  /** A null satisfaction (a token, non-numeric text, or an empty cell) never invalidates a row by itself. */
  lemma NullScoreNeverQuarantines(u: Text.Unicode, p: Parsers, r: RawRow)
    requires ParseSatisfaction(p, r.satisfaccion).None?
    ensures IsValid(Coerce(u, p, r)) <==> ParseDate(p, r.fecha).Some? && IdPresent(r.id)
  {
  }

  /** `s` is an order-preserving merge of `a` and `b`. */
  ghost predicate Interleaving(s: seq<Row>, a: seq<Row>, b: seq<Row>)
    decreases |s|
  {
    if s == [] then a == [] && b == []
    else
      || (a != [] && a[0] == s[0] && Interleaving(s[1..], a[1..], b))
      || (b != [] && b[0] == s[0] && Interleaving(s[1..], a, b[1..]))
  }

  /** `df.loc[valid]`: the valid rows, in order. */
  function ValidRows(rows: seq<Row>): (r: seq<Row>)
    ensures forall x :: x in r ==> IsValid(x)
    ensures forall i :: 0 <= i < |rows| && IsValid(rows[i]) ==> rows[i] in r
  {
    if rows == [] then []
    else
      assert forall i :: 1 <= i < |rows| ==> rows[i] == rows[1..][i - 1];
      (if IsValid(rows[0]) then [rows[0]] else []) + ValidRows(rows[1..])
  }

  /** `df.loc[~valid]`: the invalid rows, in order. */
  function InvalidRows(rows: seq<Row>): (r: seq<Row>)
    ensures forall x :: x in r ==> !IsValid(x)
    ensures forall i :: 0 <= i < |rows| && !IsValid(rows[i]) ==> rows[i] in r
  {
    if rows == [] then []
    else
      assert forall i :: 1 <= i < |rows| ==> rows[i] == rows[1..][i - 1];
      (if IsValid(rows[0]) then [] else [rows[0]]) + InvalidRows(rows[1..])
  }

  /** The mask's split of a frame into (clean, quarantine). */
  function Split(rows: seq<Row>): (seq<Row>, seq<Row>) {
    (ValidRows(rows), InvalidRows(rows))
  }

  /** Each part keeps input order: the input is an interleaving of the two. */
  lemma {:induction false} SplitInterleaves(rows: seq<Row>)
    ensures Interleaving(rows, ValidRows(rows), InvalidRows(rows))
  {
    if rows != [] {
      SplitInterleaves(rows[1..]);
      var a, b := ValidRows(rows[1..]), InvalidRows(rows[1..]);
      if IsValid(rows[0]) {
        var v := ValidRows(rows);
        assert v == [rows[0]] + a;
        assert v != [] && v[0] == rows[0] && v[1..] == a;
        assert InvalidRows(rows) == b;
      } else {
        var q := InvalidRows(rows);
        assert q == [rows[0]] + b;
        assert q != [] && q[0] == rows[0] && q[1..] == b;
        assert ValidRows(rows) == a;
      }
    }
  }

  /** Every row lands in exactly one part: the parts' multisets add up to the input's. */
  lemma {:induction false} SplitCounts(rows: seq<Row>)
    ensures multiset(ValidRows(rows)) + multiset(InvalidRows(rows)) == multiset(rows)
    ensures |ValidRows(rows)| + |InvalidRows(rows)| == |rows|
  {
    if rows != [] {
      SplitCounts(rows[1..]);
      assert rows == [rows[0]] + rows[1..];
    }
  }

  /** The clean and the quarantine part share no row. */
  lemma SplitDisjoint(rows: seq<Row>)
    ensures forall r :: !(r in Split(rows).0 && r in Split(rows).1)
  {
  }

  /** A row that passed validation, typed: the id is text and the date is known. */
  datatype CleanRow = CleanRow(
    id: string, fecha: Date, satisfaccion: Option<int>,
    servicio: Option<string>, comentarios: Option<string>,
    sourceFile: string, ingestTs: string)

  ghost predicate CleanOk(c: CleanRow) {
    c.id != "" && ScoreOk(c.satisfaccion)
  }

  function ToClean(r: Row): (c: CleanRow)
    requires IsValid(r)
    ensures CleanOk(c)
    ensures Some(c.id) == r.id && Some(c.fecha) == r.fecha && c.satisfaccion == r.satisfaccion
    ensures c.servicio == r.servicio && c.comentarios == r.comentarios
    ensures c.sourceFile == r.sourceFile && c.ingestTs == r.ingestTs
  {
    CleanRow(r.id.value, r.fecha.value, r.satisfaccion, r.servicio, r.comentarios, r.sourceFile, r.ingestTs)
  }

  function ToCleanAll(rows: seq<Row>): (r: seq<CleanRow>)
    requires forall x :: x in rows ==> IsValid(x)
    ensures |r| == |rows|
    ensures forall i :: 0 <= i < |r| ==> r[i] == ToClean(rows[i])
  {
    seq(|rows|, i requires 0 <= i < |rows| => ToClean(rows[i]))
  }
}
