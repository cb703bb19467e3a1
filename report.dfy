/**
 * The report's integer figures (lines 226-263), computed from the rows
 * re-read from the clean export: the total, the distribution of scores,
 * the per-month counts and the covered period.
 */
module Report {
  import opened Wrappers
  import opened Validate

  /** A row of the clean export: the business columns only. */
  datatype BusinessRow = BusinessRow(
    id: string, fecha: Date, satisfaccion: Option<int>,
    servicio: Option<string>, comentarios: Option<string>)

  /** A grouped count: (key, number of occurrences), like a `value_counts` or `groupby.count` table. */
  type Tally = seq<(int, nat)>

  /** Occurrences of `k` in `keys`. */
  function Count(keys: seq<int>, k: int): nat {
    if keys == [] then 0 else (if keys[0] == k then 1 else 0) + Count(keys[1..], k)
  }

  /** The count recorded for `k`, zero when `k` is not a key. */
  function Lookup(t: Tally, k: int): nat {
    if t == [] then 0 else if t[0].0 == k then t[0].1 else Lookup(t[1..], k)
  }

  function Sum(t: Tally): nat {
    if t == [] then 0 else t[0].1 + Sum(t[1..])
  }

  /** Keys strictly ascending (`sort_index`, groupby order) and every count positive. */
  ghost predicate WellFormed(t: Tally) {
    && (forall i, j :: 0 <= i < j < |t| ==> t[i].0 < t[j].0)
    && (forall i :: 0 <= i < |t| ==> t[i].1 > 0)
  }

  lemma {:induction false} LookupBelow(t: Tally, k: int)
    requires WellFormed(t) && (t == [] || k < t[0].0)
    ensures Lookup(t, k) == 0
  {
    if t != [] {
      assert WellFormed(t[1..]);
      assert t[1..] == [] || k < t[1..][0].0 by {
        if |t| > 1 { assert t[0].0 < t[1].0; }
      }
      LookupBelow(t[1..], k);
    }
  }

  /** Records one more occurrence of `k`. */
  function Bump(t: Tally, k: int): (r: Tally)
    requires WellFormed(t)
    ensures WellFormed(r)
    ensures r != [] && r[0].0 == (if t == [] || k < t[0].0 then k else t[0].0)
  {
    if t == [] then [(k, 1)]
    else if k < t[0].0 then
      var r := [(k, 1)] + t;
      assert r[1..] == t;
      r
    else if k == t[0].0 then
      var r := [(k, t[0].1 + 1)] + t[1..];
      assert r[1..] == t[1..];
      r
    else
      var rest := Bump(t[1..], k);
      var r := [t[0]] + rest;
      assert r[1..] == rest;
      assert |t| > 1 ==> t[0].0 < t[1].0;
      assert forall j :: 0 < j < |rest| ==> rest[0].0 < rest[j].0;
      r
  }

  /** Bumping `k` raises its count by one and leaves every other count alone, so the sum rises by one. */
  lemma {:induction false} BumpCounts(t: Tally, k: int)
    requires WellFormed(t)
    ensures Sum(Bump(t, k)) == Sum(t) + 1
    ensures forall x :: Lookup(Bump(t, k), x) == Lookup(t, x) + (if x == k then 1 else 0)
  {
    if t != [] {
      if k < t[0].0 {
        assert Bump(t, k)[1..] == t;
        LookupBelow(t, k);
      } else if k == t[0].0 {
        assert Bump(t, k)[1..] == t[1..];
      } else {
        assert WellFormed(t[1..]);
        BumpCounts(t[1..], k);
        assert Bump(t, k)[1..] == Bump(t[1..], k);
      }
    }
  }

  /**
   * A count table for `keys`: keys ascending, each key counted with its
   * number of occurrences, counts summing to |keys|.
   */
  function TallyOf(keys: seq<int>): (t: Tally)
    ensures WellFormed(t)
    ensures forall x :: Lookup(t, x) == Count(keys, x)
    ensures Sum(t) == |keys|
  {
    if keys == [] then []
    else
      var t := TallyOf(keys[1..]);
      BumpCounts(t, keys[0]);
      Bump(t, keys[0])
  }

  lemma {:induction false} LookupPresent(t: Tally, i: int)
    requires WellFormed(t) && 0 <= i < |t|
    ensures Lookup(t, t[i].0) == t[i].1
  {
    if i > 0 {
      assert t[0].0 < t[i].0;
      assert WellFormed(t[1..]);
      LookupPresent(t[1..], i - 1);
    }
  }

  lemma {:induction false} CountPositive(keys: seq<int>, x: int)
    ensures Count(keys, x) > 0 <==> x in keys
  {
    if keys != [] {
      CountPositive(keys[1..], x);
      assert keys == [keys[0]] + keys[1..];
    }
  }

  lemma {:induction false} LookupPositive(t: Tally, x: int)
    requires WellFormed(t) && Lookup(t, x) > 0
    ensures exists i :: 0 <= i < |t| && t[i].0 == x
  {
    if t[0].0 != x {
      assert WellFormed(t[1..]);
      LookupPositive(t[1..], x);
      var i :| 0 <= i < |t[1..]| && t[1..][i].0 == x;
      assert t[i + 1].0 == x;
    }
  }

  /** The table's keys are exactly the distinct values of `keys`. */
  lemma TallyKeys(keys: seq<int>)
    ensures forall i :: 0 <= i < |TallyOf(keys)| ==> TallyOf(keys)[i].0 in keys
    ensures forall x :: x in keys ==> exists i :: 0 <= i < |TallyOf(keys)| && TallyOf(keys)[i].0 == x
  {
    var t := TallyOf(keys);
    forall i | 0 <= i < |t| ensures t[i].0 in keys {
      LookupPresent(t, i);
      CountPositive(keys, t[i].0);
    }
    forall x | x in keys ensures exists i :: 0 <= i < |t| && t[i].0 == x {
      CountPositive(keys, x);
      assert Lookup(t, x) == Count(keys, x) > 0;
      LookupPositive(t, x);
    }
  }

  /** The non-null scores, in row order. */
  function Scores(rows: seq<BusinessRow>): (s: seq<int>)
    ensures |s| <= |rows|
    ensures forall x :: x in s <==> exists i :: 0 <= i < |rows| && rows[i].satisfaccion == Some(x)
  {
    if rows == [] then []
    else
      assert forall i :: 1 <= i < |rows| ==> rows[i] == rows[1..][i - 1];
      (if rows[0].satisfaccion.Some? then [rows[0].satisfaccion.value] else []) + Scores(rows[1..])
  }

  /** Rows whose score is `x`. */
  function RowsScoring(rows: seq<BusinessRow>, x: int): nat {
    if rows == [] then 0
    else (if rows[0].satisfaccion == Some(x) then 1 else 0) + RowsScoring(rows[1..], x)
  }

  lemma {:induction false} CountAppend(a: seq<int>, b: seq<int>, x: int)
    ensures Count(a + b, x) == Count(a, x) + Count(b, x)
  {
    if a == [] {
      assert a + b == b;
    } else {
      assert (a + b)[1..] == a[1..] + b;
      CountAppend(a[1..], b, x);
    }
  }

  /** Each score occurs in `Scores` once per row that holds it. */
  lemma {:induction false} ScoresCount(rows: seq<BusinessRow>, x: int)
    ensures Count(Scores(rows), x) == RowsScoring(rows, x)
  {
    if rows != [] {
      ScoresCount(rows[1..], x);
      var h := if rows[0].satisfaccion.Some? then [rows[0].satisfaccion.value] else [];
      CountAppend(h, Scores(rows[1..]), x);
    }
  }

  /** Period 'M' of a date as one integer: months counted from year 0. */
  function MonthKey(d: Date): int {
    d.year * 12 + (d.month - 1)
  }

  /** The (year, month) a month key stands for. */
  function MonthOf(key: int): (ym: (int, MonthNum)) {
    (key / 12, key % 12 + 1)
  }

  /** Month keys lose nothing: the period is recovered, and later months have larger keys. */
  lemma MonthKeyRoundTrip(d: Date, e: Date)
    ensures MonthOf(MonthKey(d)) == (d.year, d.month)
    ensures MonthKey(d) < MonthKey(e) <==> d.year < e.year || (d.year == e.year && d.month < e.month)
  {
    var k := MonthKey(d);
    assert k == d.year * 12 + (d.month - 1);
    assert k / 12 == d.year && k % 12 == d.month - 1 by {
      assert 0 <= d.month - 1 < 12;
    }
  }

  function MonthKeys(rows: seq<BusinessRow>): (s: seq<int>)
    ensures |s| == |rows|
    ensures forall i :: 0 <= i < |rows| ==> s[i] == MonthKey(rows[i].fecha)
  {
    seq(|rows|, i requires 0 <= i < |rows| => MonthKey(rows[i].fecha))
  }

  predicate DateLe(a: Date, b: Date) {
    a.year < b.year || (a.year == b.year && (a.month < b.month || (a.month == b.month && a.day <= b.day)))
  }

  /** `fecha.min()`. */
  function MinDate(rows: seq<BusinessRow>): (d: Date)
    requires rows != []
    ensures exists i :: 0 <= i < |rows| && rows[i].fecha == d
    ensures forall i :: 0 <= i < |rows| ==> DateLe(d, rows[i].fecha)
  {
    if |rows| == 1 then rows[0].fecha
    else
      var m := MinDate(rows[1..]);
      assert forall i :: 1 <= i < |rows| ==> rows[i] == rows[1..][i - 1];
      if DateLe(rows[0].fecha, m) then rows[0].fecha else m
  }

  /** `fecha.max()`. */
  function MaxDate(rows: seq<BusinessRow>): (d: Date)
    requires rows != []
    ensures exists i :: 0 <= i < |rows| && rows[i].fecha == d
    ensures forall i :: 0 <= i < |rows| ==> DateLe(rows[i].fecha, d)
  {
    if |rows| == 1 then rows[0].fecha
    else
      var m := MaxDate(rows[1..]);
      assert forall i :: 1 <= i < |rows| ==> rows[i] == rows[1..][i - 1];
      if DateLe(m, rows[0].fecha) then rows[0].fecha else m
  }

  /** The report header's period; NoData is rendered as "—" at both ends. */
  datatype Period = NoData | Range(first: Date, last: Date)

  /** The figures the report prints, floating-point ones aside. */
  datatype Kpis = Kpis(
    total: nat,
    distribution: Tally,
    evolution: Tally,
    period: Period,
    rawRows: nat, cleanRows: nat, quarantineRows: nat)

  /** Lines 234-263, plus the layer counts of line 280. */
  function Summarize(rep: seq<BusinessRow>, rawRows: nat, cleanRows: nat, quarantineRows: nat): (k: Kpis)
    ensures k.total == |rep|
    ensures k.rawRows == rawRows && k.cleanRows == cleanRows && k.quarantineRows == quarantineRows
    ensures rep == [] <==> k.period == NoData
    ensures rep == [] ==> k.distribution == [] && k.evolution == []
    ensures rep != [] ==> k.period == Range(MinDate(rep), MaxDate(rep))
  {
    if rep != [] then
      Kpis(|rep|, TallyOf(Scores(rep)), TallyOf(MonthKeys(rep)),
           Range(MinDate(rep), MaxDate(rep)), rawRows, cleanRows, quarantineRows)
    else
      Kpis(0, [], [], NoData, rawRows, cleanRows, quarantineRows)
  }

  /**
   * The distribution counts only non-null scores, so it sums to at most the
   * total, and each score's count is the number of rows holding it; the
   * monthly counts cover every row, so they sum to the total.
   */
  lemma SummarizeSums(rep: seq<BusinessRow>, rawRows: nat, cleanRows: nat, quarantineRows: nat)
    ensures var k := Summarize(rep, rawRows, cleanRows, quarantineRows);
            && Sum(k.distribution) == |Scores(rep)| <= k.total
            && Sum(k.evolution) == k.total
            && (forall x :: Lookup(k.distribution, x) == Count(Scores(rep), x))
            && (forall x :: Lookup(k.evolution, x) == Count(MonthKeys(rep), x))
            && (forall x :: Lookup(k.distribution, x) == RowsScoring(rep, x))
  {
    forall x ensures Count(Scores(rep), x) == RowsScoring(rep, x) {
      ScoresCount(rep, x);
    }
  }

  /** When every score is in range, the distribution has no key outside 1..10. */
  lemma DistributionInRange(rep: seq<BusinessRow>)
    requires forall i :: 0 <= i < |rep| ==> ScoreOk(rep[i].satisfaccion)
    ensures forall i :: 0 <= i < |TallyOf(Scores(rep))| ==> 1 <= TallyOf(Scores(rep))[i].0 <= 10
  {
    ScoresInRange(rep);
    TallyKeys(Scores(rep));
  }

  lemma {:induction false} ScoresInRange(rep: seq<BusinessRow>)
    requires forall i :: 0 <= i < |rep| ==> ScoreOk(rep[i].satisfaccion)
    ensures forall x :: x in Scores(rep) ==> 1 <= x <= 10
  {
    if rep != [] {
      assert forall i :: 1 <= i < |rep| ==> rep[i] == rep[1..][i - 1];
      ScoresInRange(rep[1..]);
    }
  }
}
