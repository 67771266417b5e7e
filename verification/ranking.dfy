/**
 * The order in which the recorder lists its records and addresses them by
 * offset: `ORDER BY learning_date DESC` over the `learning` table, with
 * ties between equal dates broken by ascending rowid, and the listing
 * query that keeps the rows dated on or after a threshold, in that order,
 * at most 20 of them.
 */
module Ranking {

  /** Most rows the listing shows (`displayLimit`). */
  const DisplayLimit := 20

  /** One row of the `learning` table. All five columns are TEXT; the
      rowid is SQLite's hidden integer key. */
  datatype Row = Row(
    rowid: nat,
    learningDate: string,
    genre: string,
    learningTime: string,
    createdAt: string,
    updatedAt: string)

  /** `a < b` for TEXT under SQLite's BINARY collation: character by
      character, a proper prefix first. */
  predicate Below(a: string, b: string)
    ensures Below(a, b) ==> a != b
    ensures |a| < |b| && a == b[..|a|] ==> Below(a, b)
  {
    if a == [] then b != []
    else if b == [] then false
    else if a[0] != b[0] then a[0] < b[0]
    else Below(a[1..], b[1..])
  }

  lemma {:induction false} BelowIrreflexive(a: string)
    ensures !Below(a, a)
  {
    if a != [] {
      BelowIrreflexive(a[1..]);
    }
  }

  lemma {:induction false} BelowTransitive(a: string, b: string, c: string)
    requires Below(a, b) && Below(b, c)
    ensures Below(a, c)
  {
    if a != [] && a[0] == b[0] && b[0] == c[0] {
      BelowTransitive(a[1..], b[1..], c[1..]);
    }
  }

  /** Two different strings are always ordered one way or the other. */
  lemma {:induction false} BelowTotal(a: string, b: string)
    requires a != b
    ensures Below(a, b) || Below(b, a)
  {
    if a != [] && b != [] && a[0] == b[0] {
      assert a == [a[0]] + a[1..] && b == [b[0]] + b[1..];
      BelowTotal(a[1..], b[1..]);
    }
  }

  /** `x` is listed before `y`: a later date first, and on equal dates
      the smaller rowid first. */
  predicate Precedes(x: Row, y: Row)
    ensures Precedes(x, y) ==> x != y
    ensures x.learningDate == y.learningDate ==> (Precedes(x, y) <==> x.rowid < y.rowid)
  {
    Below(y.learningDate, x.learningDate)
    || (x.learningDate == y.learningDate && x.rowid < y.rowid)
  }

  lemma PrecedesIrreflexive(x: Row)
    ensures !Precedes(x, x)
  {
    BelowIrreflexive(x.learningDate);
  }

  lemma PrecedesTransitive(x: Row, y: Row, z: Row)
    requires Precedes(x, y) && Precedes(y, z)
    ensures Precedes(x, z)
  {
    if Below(y.learningDate, x.learningDate) && Below(z.learningDate, y.learningDate) {
      BelowTransitive(z.learningDate, y.learningDate, x.learningDate);
    }
  }

  /** A row listed before another is dated the same or later. */
  lemma PrecedesDatedNoEarlier(x: Row, y: Row)
    requires Precedes(x, y)
    ensures !Below(x.learningDate, y.learningDate)
  {
    BelowIrreflexive(x.learningDate);
    if Below(x.learningDate, y.learningDate) {
      BelowTransitive(x.learningDate, y.learningDate, x.learningDate);
    }
  }

  /** Rows with different rowids are always ordered. */
  lemma PrecedesTotal(x: Row, y: Row)
    requires x.rowid != y.rowid
    ensures Precedes(x, y) || Precedes(y, x)
  {
    if x.learningDate != y.learningDate {
      BelowTotal(x.learningDate, y.learningDate);
    }
  }

  /** Listed in order: every row precedes every later one. */
  predicate Sorted(s: seq<Row>)
  {
    forall a, b :: 0 <= a < b < |s| ==> Precedes(s[a], s[b])
  }

  /** The table's rows are kept in ascending rowid order (the order of a
      full table scan), so no two share a rowid. */
  predicate RowidsIncreasing(rows: seq<Row>)
  {
    forall a, b :: 0 <= a < b < |rows| ==> rows[a].rowid < rows[b].rowid
  }

  /** `x` put into the ordered list `o` just before the first row it
      precedes. */
  function InsertSorted(o: seq<Row>, x: Row): (r: seq<Row>)
    ensures |r| == |o| + 1
    ensures multiset(r) == multiset(o) + multiset{x}
  {
    if o == [] then [x]
    else if Precedes(x, o[0]) then [x] + o
    else
      assert o == [o[0]] + o[1..];
      [o[0]] + InsertSorted(o[1..], x)
  }

  /** The table as `ORDER BY learning_date DESC` lists it: a stable sort
      of the rows in rowid order. */
  function Ranked(rows: seq<Row>): (r: seq<Row>)
    ensures |r| == |rows|
    ensures multiset(r) == multiset(rows)
  {
    if rows == [] then []
    else
      assert rows == rows[..|rows| - 1] + [rows[|rows| - 1]];
      InsertSorted(Ranked(rows[..|rows| - 1]), rows[|rows| - 1])
  }

  lemma {:induction false} InsertSortedSorted(o: seq<Row>, x: Row)
    requires Sorted(o)
    requires forall y :: y in o ==> y.rowid != x.rowid
    ensures Sorted(InsertSorted(o, x))
  {
    if o != [] {
      if Precedes(x, o[0]) {
        forall b | 0 < b < |o| ensures Precedes(x, o[b]) {
          PrecedesTransitive(x, o[0], o[b]);
        }
      } else {
        PrecedesTotal(x, o[0]);
        InsertSortedSorted(o[1..], x);
        var r := InsertSorted(o[1..], x);
        forall b | 0 <= b < |r| ensures Precedes(o[0], r[b]) {
          assert r[b] in multiset(r);
        }
      }
    }
  }

  /** The ranked list is in order and is a permutation of the table. */
  lemma {:induction false} RankedSorted(rows: seq<Row>)
    requires RowidsIncreasing(rows)
    ensures Sorted(Ranked(rows)) && multiset(Ranked(rows)) == multiset(rows)
  {
    if rows != [] {
      var front, last := rows[..|rows| - 1], rows[|rows| - 1];
      RankedSorted(front);
      forall y | y in Ranked(front) ensures y.rowid != last.rowid {
        assert y in multiset(front);
      }
      InsertSortedSorted(Ranked(front), last);
    }
  }

  /** An ordered list holds each row once. */
  lemma SortedDistinct(s: seq<Row>, a: nat, b: nat)
    requires Sorted(s) && a < |s| && b < |s| && a != b
    ensures s[a] != s[b]
  {
    if a < b { PrecedesIrreflexive(s[a]); } else { PrecedesIrreflexive(s[b]); }
  }

  /** The order is a strict total order, so two ordered lists of the same
      rows are the same list: the ranking does not depend on how it was
      computed. */
  lemma {:induction false} SortedUnique(p: seq<Row>, q: seq<Row>)
    requires Sorted(p) && Sorted(q)
    requires forall x :: x in p <==> x in q
    ensures p == q
  {
    assert |q| == 0 || q[0] in q;
    if p != [] {
      assert p[0] in q && q != [];
      assert q[0] in p;
      if p[0] != q[0] {
        var a :| 0 < a < |p| && p[a] == q[0];
        var b :| 0 < b < |q| && q[b] == p[0];
        PrecedesTransitive(p[0], q[0], p[0]);
        PrecedesIrreflexive(p[0]);
      }
      forall x ensures x in p[1..] <==> x in q[1..] {
        if x in p[1..] {
          var a :| 1 <= a < |p| && p[a] == x;
          SortedDistinct(p, 0, a);
          assert x in q;
        }
        if x in q[1..] {
          var b :| 1 <= b < |q| && q[b] == x;
          SortedDistinct(q, 0, b);
          assert x in p;
        }
      }
      SortedUnique(p[1..], q[1..]);
      assert p == [p[0]] + p[1..] && q == [q[0]] + q[1..];
    }
  }

  /** `WHERE learning_date >= threshold`: the rows dated on or after the
      threshold, in table order. */
  function Since(rows: seq<Row>, threshold: string): (r: seq<Row>)
    ensures |r| <= |rows|
    ensures forall x :: x in r <==> x in rows && !Below(x.learningDate, threshold)
  {
    if rows == [] then []
    else if Below(rows[0].learningDate, threshold) then Since(rows[1..], threshold)
    else [rows[0]] + Since(rows[1..], threshold)
  }

  /** A row put in front of rows with larger rowids keeps the rowid
      order. */
  lemma RowidsIncreasingCons(x: Row, r: seq<Row>)
    requires RowidsIncreasing(r)
    requires forall y :: y in r ==> x.rowid < y.rowid
    ensures RowidsIncreasing([x] + r)
  {
    var c := [x] + r;
    forall a, b | 0 <= a < b < |c| ensures c[a].rowid < c[b].rowid {
      assert c[b] == r[b - 1];
      if a > 0 {
        assert c[a] == r[a - 1];
      }
    }
  }

  /** The first row of a table in rowid order has the smallest rowid. */
  lemma RowidsIncreasingTail(rows: seq<Row>)
    requires RowidsIncreasing(rows) && rows != []
    ensures RowidsIncreasing(rows[1..])
    ensures forall y :: y in rows[1..] ==> rows[0].rowid < y.rowid
  {
    forall y | y in rows[1..] ensures rows[0].rowid < y.rowid {
      var b :| 0 <= b < |rows| - 1 && rows[1..][b] == y;
      assert rows[b + 1] == y;
    }
  }

  /** Filtering keeps the rowid order. */
  lemma {:induction false} SinceKeepsRowidOrder(rows: seq<Row>, threshold: string)
    requires RowidsIncreasing(rows)
    ensures RowidsIncreasing(Since(rows, threshold))
  {
    if rows != [] {
      RowidsIncreasingTail(rows);
      SinceKeepsRowidOrder(rows[1..], threshold);
      if !Below(rows[0].learningDate, threshold) {
        RowidsIncreasingCons(rows[0], Since(rows[1..], threshold));
      }
    }
  }

  /** The listing query: `WHERE learning_date >= threshold ORDER BY
      learning_date DESC LIMIT 20`. */
  function Selection(rows: seq<Row>, threshold: string): (r: seq<Row>)
    ensures |r| <= DisplayLimit
    ensures forall x :: x in r ==> x in rows && !Below(x.learningDate, threshold)
  {
    var s := Ranked(Since(rows, threshold));
    RankedMembers(Since(rows, threshold));
    if |s| <= DisplayLimit then s
    else assert forall x :: x in s[..DisplayLimit] ==> x in s; s[..DisplayLimit]
  }

  /** The number of leading rows of `s` dated on or after `threshold`. */
  function LeadingSince(s: seq<Row>, threshold: string): (n: nat)
    ensures n <= |s|
    ensures forall a :: 0 <= a < n ==> !Below(s[a].learningDate, threshold)
    ensures n < |s| ==> Below(s[n].learningDate, threshold)
  {
    if s == [] || Below(s[0].learningDate, threshold) then 0
    else 1 + LeadingSince(s[1..], threshold)
  }

  /** The ranking holds the same rows as the table. */
  lemma RankedMembers(rows: seq<Row>)
    ensures |Ranked(rows)| == |rows|
    ensures forall x :: x in Ranked(rows) <==> x in rows
  {
    assert |Ranked(rows)| == |multiset(Ranked(rows))| == |rows|;
    forall x ensures x in Ranked(rows) <==> x in rows {
      assert x in Ranked(rows) <==> x in multiset(Ranked(rows));
    }
  }

  /** In an ordered list, once a row is dated before the threshold so
      are all the rows after it. */
  lemma SortedSinceSplit(r: seq<Row>, threshold: string)
    requires Sorted(r)
    ensures forall b :: LeadingSince(r, threshold) <= b < |r| ==> Below(r[b].learningDate, threshold)
  {
    var p := LeadingSince(r, threshold);
    forall b | p < b < |r| ensures Below(r[b].learningDate, threshold) {
      PrecedesDatedNoEarlier(r[p], r[b]);
      if r[b].learningDate != r[p].learningDate {
        BelowTotal(r[b].learningDate, r[p].learningDate);
        BelowTransitive(r[b].learningDate, r[p].learningDate, threshold);
      }
    }
  }

  /** In the ranked list, the rows dated on or after a threshold come
      first: filtering then ordering gives a prefix of the whole ranking. */
  lemma SinceIsRankedPrefix(rows: seq<Row>, threshold: string)
    requires RowidsIncreasing(rows)
    ensures |Since(rows, threshold)| <= |Ranked(rows)|
    ensures Ranked(Since(rows, threshold)) == Ranked(rows)[..|Since(rows, threshold)|]
  {
    var r := Ranked(rows);
    var s := Since(rows, threshold);
    RankedSorted(rows);
    SinceKeepsRowidOrder(rows, threshold);
    RankedSorted(s);
    RankedMembers(rows);
    RankedMembers(s);
    var p := LeadingSince(r, threshold);
    SortedSinceSplit(r, threshold);
    assert forall x :: x in Ranked(s) <==> x in r[..p];
    SortedUnique(Ranked(s), r[..p]);
  }

  function Min(a: nat, b: nat): nat
  {
    if a <= b then a else b
  }

  /** The listing is the first min(20, n) rows of the whole ranking,
      where n is the number of rows dated on or after the threshold; so
      entry `k` of the listing is the row that `OFFSET k` over the whole
      ordered table names. */
  lemma SelectionIsRankedPrefix(rows: seq<Row>, threshold: string)
    requires RowidsIncreasing(rows)
    ensures |Selection(rows, threshold)| == Min(DisplayLimit, |Since(rows, threshold)|)
    ensures |Selection(rows, threshold)| <= |Ranked(rows)|
    ensures Selection(rows, threshold) == Ranked(rows)[..|Selection(rows, threshold)|]
    ensures forall x :: x in Selection(rows, threshold) ==> x in rows && !Below(x.learningDate, threshold)
  {
    var s := Since(rows, threshold);
    var sel := Selection(rows, threshold);
    assert sel == Ranked(rows)[..Min(DisplayLimit, |s|)] by {
      SinceIsRankedPrefix(rows, threshold);
    }
  }

  /** The listing is empty exactly when no row is dated on or after the
      threshold (the case in which the recorder exits with status 1). */
  lemma SelectionEmptyIff(rows: seq<Row>, threshold: string)
    requires RowidsIncreasing(rows)
    ensures Selection(rows, threshold) == [] <==> forall x :: x in rows ==> Below(x.learningDate, threshold)
  {
    SelectionIsRankedPrefix(rows, threshold);
    var s := Since(rows, threshold);
    if s != [] {
      assert s[0] in s;
    }
  }
}
