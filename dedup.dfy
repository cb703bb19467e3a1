/**
 * Deduplication of the clean rows (lines 134-137):
 * `sort_values("_ingest_ts").drop_duplicates(subset=["id_encuesta"], keep="last")`.
 *
 * Rows are tagged with their position in the clean frame and sorted by
 * (ingest timestamp, position); the last row of each id in that order
 * survives.  Among rows with equal timestamps the later one in
 * file-then-row order therefore wins.
 */
module Dedup {
  import opened Validate
  import Lex
  import Sorting

  datatype Tagged = Tagged(pos: nat, row: CleanRow)

  function Tag(rows: seq<CleanRow>): (t: seq<Tagged>)
    ensures |t| == |rows|
    ensures forall i :: 0 <= i < |t| ==> t[i] == Tagged(i, rows[i])
  {
    seq(|rows|, i requires 0 <= i < |rows| => Tagged(i, rows[i]))
  }

  function Untag(t: seq<Tagged>): (rows: seq<CleanRow>)
    ensures |rows| == |t|
    ensures forall i :: 0 <= i < |t| ==> rows[i] == t[i].row
  {
    seq(|t|, i requires 0 <= i < |t| => t[i].row)
  }

  /** The sort order: ingest timestamp as text, then position. */
  predicate KeyLe(a: Tagged, b: Tagged) {
    || (Lex.StrLe(a.row.ingestTs, b.row.ingestTs) && a.row.ingestTs != b.row.ingestTs)
    || (a.row.ingestTs == b.row.ingestTs && a.pos <= b.pos)
  }

  lemma KeyLeTotalPreorder()
    ensures Sorting.TotalPreorder(KeyLe)
  {
    forall a: Tagged, b: Tagged ensures KeyLe(a, b) || KeyLe(b, a) {
      Lex.StrLeTotal(a.row.ingestTs, b.row.ingestTs);
    }
    forall a: Tagged, b: Tagged, c: Tagged | KeyLe(a, b) && KeyLe(b, c) ensures KeyLe(a, c) {
      var x, y, z := a.row.ingestTs, b.row.ingestTs, c.row.ingestTs;
      if x != y && y != z {
        Lex.StrLeTransitive(x, y, z);
        if x == z { Lex.StrLeAntisymmetric(x, y); }
      }
    }
  }

  /** A later element carries the same id. */
  predicate Superseded(s: seq<Tagged>, k: int)
    requires 0 <= k < |s|
  {
    exists j :: k < j < |s| && s[j].row.id == s[k].row.id
  }

  /** `drop_duplicates(keep="last")`: keeps an element only when no later one has its id. */
  function KeepLast(s: seq<Tagged>): (r: seq<Tagged>)
    ensures forall x :: x in r ==> x in s
    ensures |r| <= |s|
  {
    if s == [] then []
    else if Superseded(s, 0) then KeepLast(s[1..])
    else [s[0]] + KeepLast(s[1..])
  }

  /** No two elements share an id. */
  ghost predicate UniqueIds(s: seq<Tagged>) {
    forall i, j :: 0 <= i < j < |s| ==> s[i].row.id != s[j].row.id
  }

  lemma {:induction false} KeepLastUnique(s: seq<Tagged>)
    ensures UniqueIds(KeepLast(s))
  {
    if s != [] {
      KeepLastUnique(s[1..]);
      if !Superseded(s, 0) {
        var rest := KeepLast(s[1..]);
        var r := [s[0]] + rest;
        forall x | x in rest ensures x.row.id != s[0].row.id {
          var j :| 0 <= j < |s[1..]| && s[1..][j] == x;
          assert s[j + 1] == x;
        }
        forall i, j | 0 <= i < j < |r| ensures r[i].row.id != r[j].row.id {
          assert r[j] == rest[j - 1];
          if i > 0 {
            assert r[i] == rest[i - 1];
          } else {
            assert r[j] in rest;
          }
        }
        assert UniqueIds(r);
      }
    }
  }

  lemma {:induction false} KeepLastCovers(s: seq<Tagged>)
    ensures forall k :: 0 <= k < |s| ==> exists x :: x in KeepLast(s) && x.row.id == s[k].row.id
  {
    if s != [] {
      KeepLastCovers(s[1..]);
      forall k | 0 <= k < |s| ensures exists x :: x in KeepLast(s) && x.row.id == s[k].row.id {
        if k > 0 {
          assert s[k] == s[1..][k - 1];
        } else if Superseded(s, 0) {
          var j :| 0 < j < |s| && s[j].row.id == s[0].row.id;
          assert s[j] == s[1..][j - 1];
        } else {
          assert s[0] in KeepLast(s);
        }
      }
    }
  }

  /** On a sorted sequence every survivor is greatest among the elements with its id. */
  lemma {:induction false} KeepLastKeepsGreatest(s: seq<Tagged>)
    requires Sorting.TotalPreorder(KeyLe) && Sorting.Sorted(s, KeyLe)
    ensures forall x, m :: x in KeepLast(s) && 0 <= m < |s| && s[m].row.id == x.row.id ==> KeyLe(s[m], x)
  {
    if s != [] {
      var t := s[1..];
      assert Sorting.Sorted(t, KeyLe);
      KeepLastKeepsGreatest(t);
      forall x, m | x in KeepLast(s) && 0 <= m < |s| && s[m].row.id == x.row.id
        ensures KeyLe(s[m], x)
      {
        if m > 0 {
          assert s[m] == t[m - 1];
          if x == s[0] && !Superseded(s, 0) {
            assert false;
          }
        } else if x in KeepLast(t) {
          var j :| 0 <= j < |t| && t[j] == x;
          assert s[j + 1] == x;
        } else {
          assert x == s[0];
        }
      }
    }
  }

  /** The surviving rows, still tagged with their positions in the clean frame. */
  function DedupTagged(rows: seq<CleanRow>): seq<Tagged> {
    KeepLast(Sorting.Sort(Tag(rows), KeyLe))
  }

  /** Lines 134-137. */
  function Dedup(rows: seq<CleanRow>): seq<CleanRow> {
    Untag(DedupTagged(rows))
  }

  /** The sorted tagged rows: sorted, and holding exactly the tags of the input. */
  lemma SortedTags(rows: seq<CleanRow>)
    ensures var s := Sorting.Sort(Tag(rows), KeyLe);
            && Sorting.TotalPreorder(KeyLe)
            && Sorting.Sorted(s, KeyLe)
            && |s| == |rows|
            && (forall t :: t in s ==> t.pos < |rows| && rows[t.pos] == t.row)
            && (forall j :: 0 <= j < |rows| ==> Tagged(j, rows[j]) in s)
  {
    var tagged := Tag(rows);
    var s := Sorting.Sort(tagged, KeyLe);
    KeyLeTotalPreorder();
    Sorting.SortSorted(tagged, KeyLe);
    assert |s| == |rows| by { assert |multiset(s)| == |multiset(tagged)|; }
    forall t | t in s ensures t.pos < |rows| && rows[t.pos] == t.row {
      assert t in multiset(tagged);
    }
    forall j | 0 <= j < |rows| ensures Tagged(j, rows[j]) in s {
      assert tagged[j] in multiset(s);
    }
  }

  /** Each id occurs at most once among the survivors. */
  lemma DedupUnique(rows: seq<CleanRow>)
    ensures UniqueIds(DedupTagged(rows))
  {
    KeepLastUnique(Sorting.Sort(Tag(rows), KeyLe));
  }

  /** Each survivor is the input row at its recorded position. */
  lemma DedupFromInput(rows: seq<CleanRow>)
    ensures forall t :: t in DedupTagged(rows) ==> t.pos < |rows| && rows[t.pos] == t.row
  {
    SortedTags(rows);
  }

  /** Each survivor is greatest in its id group by (timestamp, position): last ingested wins. */
  lemma DedupGreatest(rows: seq<CleanRow>)
    ensures forall t, j :: t in DedupTagged(rows) && 0 <= j < |rows| && rows[j].id == t.row.id
              ==> KeyLe(Tagged(j, rows[j]), t)
  {
    var s := Sorting.Sort(Tag(rows), KeyLe);
    SortedTags(rows);
    KeepLastKeepsGreatest(s);
    forall t, j | t in DedupTagged(rows) && 0 <= j < |rows| && rows[j].id == t.row.id
      ensures KeyLe(Tagged(j, rows[j]), t)
    {
      var m :| 0 <= m < |s| && s[m] == Tagged(j, rows[j]);
    }
  }

  /** No id of the input is lost. */
  lemma DedupCovers(rows: seq<CleanRow>)
    ensures forall j :: 0 <= j < |rows| ==> exists t :: t in DedupTagged(rows) && t.row.id == rows[j].id
  {
    var s := Sorting.Sort(Tag(rows), KeyLe);
    SortedTags(rows);
    KeepLastCovers(s);
    forall j | 0 <= j < |rows| ensures exists t :: t in DedupTagged(rows) && t.row.id == rows[j].id {
      var m :| 0 <= m < |s| && s[m] == Tagged(j, rows[j]);
    }
  }

  /** Deduplication only drops rows: every survivor is an input row. */
  lemma DedupSubset(rows: seq<CleanRow>)
    ensures |Dedup(rows)| <= |rows|
    ensures forall x :: x in Dedup(rows) ==> x in rows
  {
    SortedTags(rows);
    DedupFromInput(rows);
    var t := DedupTagged(rows);
    var d := Dedup(rows);
    forall x | x in d ensures x in rows {
      var i :| 0 <= i < |d| && d[i] == x;
      assert t[i] in t;
    }
  }

  /** After deduplication each id appears at most once. */
  lemma DedupIdsUnique(rows: seq<CleanRow>)
    ensures var d := Dedup(rows);
            forall i, j :: 0 <= i < j < |d| ==> d[i].id != d[j].id
  {
    DedupUnique(rows);
  }

  /** Every id present in the input survives. */
  lemma DedupKeepsIds(rows: seq<CleanRow>)
    ensures var d := Dedup(rows);
            forall j :: 0 <= j < |rows| ==> exists i :: 0 <= i < |d| && d[i].id == rows[j].id
  {
    DedupCovers(rows);
    var t := DedupTagged(rows);
    var d := Dedup(rows);
    forall j | 0 <= j < |rows| ensures exists i :: 0 <= i < |d| && d[i].id == rows[j].id {
      var y :| y in t && y.row.id == rows[j].id;
      var i :| 0 <= i < |t| && t[i] == y;
      assert d[i].id == rows[j].id;
    }
  }

  /** The survivor of an id has the greatest ingest timestamp among that id's rows. */
  lemma DedupLatest(rows: seq<CleanRow>)
    ensures forall x, j :: x in Dedup(rows) && 0 <= j < |rows| && rows[j].id == x.id
              ==> Lex.StrLe(rows[j].ingestTs, x.ingestTs)
  {
    DedupGreatest(rows);
    var t := DedupTagged(rows);
    var d := Dedup(rows);
    forall x, j | x in d && 0 <= j < |rows| && rows[j].id == x.id
      ensures Lex.StrLe(rows[j].ingestTs, x.ingestTs)
    {
      var i :| 0 <= i < |d| && d[i] == x;
      assert t[i] in t;
      assert KeyLe(Tagged(j, rows[j]), t[i]);
      if rows[j].ingestTs == x.ingestTs {
        Lex.StrLeTotal(x.ingestTs, x.ingestTs);
      }
    }
  }

  /** Rows that passed validation still do after deduplication. */
  lemma DedupKeepsClean(rows: seq<CleanRow>)
    requires forall x :: x in rows ==> CleanOk(x)
    ensures forall x :: x in Dedup(rows) ==> CleanOk(x)
  {
    DedupSubset(rows);
  }
}
