/**
 * The `learning` table and the statements the recorder runs on it:
 * inserting a record, and updating or deleting the record at a given
 * offset in the date-descending order, plus the listing shown before an
 * edit or a delete. Rows are kept in rowid order.
 */
module Recorder {
  import opened Wrappers
  import opened Ranking
  import opened Display

  /** The rowid SQLite gives a new row: one more than the largest in use,
      or 1 in an empty table. */
  function NextRowid(rows: seq<Row>): (id: nat)
    requires RowidsIncreasing(rows)
    ensures id >= 1
    ensures forall x :: x in rows ==> x.rowid < id
  {
    if rows == [] then 1 else rows[|rows| - 1].rowid + 1
  }

  /** `DELETE ... WHERE rowid = id`: the table without the row that has
      rowid `id`. */
  function RemoveRowid(rows: seq<Row>, id: nat): (r: seq<Row>)
    ensures forall x :: x in r <==> x in rows && x.rowid != id
  {
    if rows == [] then []
    else if rows[0].rowid == id then RemoveRowid(rows[1..], id)
    else [rows[0]] + RemoveRowid(rows[1..], id)
  }

  /** `UPDATE ... WHERE rowid = id`: the table with the row that has
      rowid `id` replaced by `updated`. */
  function ReplaceRowid(rows: seq<Row>, id: nat, updated: Row): (r: seq<Row>)
    ensures |r| == |rows|
    ensures forall i :: 0 <= i < |r| && rows[i].rowid != id ==> r[i] == rows[i]
    ensures forall i :: 0 <= i < |r| && rows[i].rowid == id ==> r[i] == updated
    ensures updated.rowid == id ==> forall i :: 0 <= i < |r| ==> r[i].rowid == rows[i].rowid
  {
    seq(|rows|, i requires 0 <= i < |rows| => if rows[i].rowid == id then updated else rows[i])
  }

  /** In rowid order, the rows before position `i` have smaller rowids
      and the rows after it larger ones. */
  lemma RowidsAround(rows: seq<Row>, i: nat)
    requires RowidsIncreasing(rows) && i < |rows|
    ensures forall y :: y in rows[..i] ==> y.rowid < rows[i].rowid && y.rowid != rows[i].rowid
    ensures forall y :: y in rows[i + 1..] ==> y.rowid > rows[i].rowid && y.rowid != rows[i].rowid
  {
    forall y | y in rows[..i] ensures y.rowid < rows[i].rowid {
      var a :| 0 <= a < i && rows[..i][a] == y;
      assert rows[a] == y;
    }
    forall y | y in rows[i + 1..] ensures y.rowid > rows[i].rowid {
      var b :| 0 <= b < |rows| - i - 1 && rows[i + 1..][b] == y;
      assert rows[i + 1 + b] == y;
    }
  }

  /** Removing by rowid removes exactly the one row with that rowid and
      keeps the others in their order. */
  lemma RemoveRowidAt(rows: seq<Row>, i: nat)
    requires RowidsIncreasing(rows) && i < |rows|
    ensures RemoveRowid(rows, rows[i].rowid) == rows[..i] + rows[i + 1..]
  {
    var x, front, back := rows[i], rows[..i], rows[i + 1..];
    RowidsAround(rows, i);
    assert rows == front + [x] + back;
    RemoveRowidSplit(front, x, back);
  }

  /** Removing the rowid of `x`, which no other row has, takes out `x`
      and nothing else. */
  lemma {:induction false} RemoveRowidSplit(front: seq<Row>, x: Row, back: seq<Row>)
    requires forall y :: y in front ==> y.rowid != x.rowid
    requires forall y :: y in back ==> y.rowid != x.rowid
    ensures RemoveRowid(front + [x] + back, x.rowid) == front + back
  {
    var all := front + [x] + back;
    if front == [] {
      assert all[1..] == back;
      NoRowidRemovesNothing(back, x.rowid);
    } else {
      assert all[0] == front[0] && all[1..] == front[1..] + [x] + back;
      RemoveRowidSplit(front[1..], x, back);
      assert front + back == [front[0]] + (front[1..] + back);
    }
  }

  /** Removing a rowid that no row has leaves the table as it is. */
  lemma {:induction false} NoRowidRemovesNothing(rows: seq<Row>, id: nat)
    requires forall x :: x in rows ==> x.rowid != id
    ensures RemoveRowid(rows, id) == rows
  {
    if rows != [] {
      NoRowidRemovesNothing(rows[1..], id);
      assert rows == [rows[0]] + rows[1..];
    }
  }

  /** Replacing by rowid changes exactly the one row with that rowid. */
  lemma ReplaceRowidAt(rows: seq<Row>, i: nat, updated: Row)
    requires RowidsIncreasing(rows) && i < |rows|
    ensures ReplaceRowid(rows, rows[i].rowid, updated) == rows[i := updated]
  {
  }

  /** Removing a row keeps the rowid order. */
  lemma {:induction false} RemoveKeepsRowidOrder(rows: seq<Row>, id: nat)
    requires RowidsIncreasing(rows)
    ensures RowidsIncreasing(RemoveRowid(rows, id))
  {
    if rows != [] {
      RowidsIncreasingTail(rows);
      RemoveKeepsRowidOrder(rows[1..], id);
      if rows[0].rowid != id {
        RowidsIncreasingCons(rows[0], RemoveRowid(rows[1..], id));
      }
    }
  }

  /** In a table with increasing rowids, two different rows have
      different rowids. */
  lemma DistinctRowsDistinctRowids(rows: seq<Row>, x: Row, y: Row)
    requires RowidsIncreasing(rows) && x in rows && y in rows && x != y
    ensures x.rowid != y.rowid
  {
  }

  /** An ordered list with the entry at position `k` taken out is still
      ordered. */
  lemma SortedWithout(r: seq<Row>, k: nat)
    requires Sorted(r) && k < |r|
    ensures Sorted(r[..k] + r[k + 1..])
  {
    var rest := r[..k] + r[k + 1..];
    forall a, b | 0 <= a < b < |rest| ensures Precedes(rest[a], rest[b]) {
      var a', b' := if a < k then a else a + 1, if b < k then b else b + 1;
      assert rest[a] == r[a'] && rest[b] == r[b'];
    }
  }

  /** Taking out the entry at position `k` of a list that holds each row
      once leaves exactly the other rows. */
  lemma MembersWithout(r: seq<Row>, k: nat)
    requires Sorted(r) && k < |r|
    ensures forall x :: x in r[..k] + r[k + 1..] <==> x in r && x != r[k]
  {
    var rest := r[..k] + r[k + 1..];
    forall x ensures x in rest <==> x in r && x != r[k] {
      if x in rest {
        var a :| 0 <= a < |rest| && rest[a] == x;
        var a' := if a < k then a else a + 1;
        assert x == r[a'];
        SortedDistinct(r, a', k);
      }
      if x in r && x != r[k] {
        var a :| 0 <= a < |r| && r[a] == x;
        assert x == rest[if a < k then a else a - 1];
      }
    }
  }

  /** Deleting the row at offset `k` leaves the other rows ranked as
      before: the rows after it move up one place. */
  lemma RankedAfterDelete(rows: seq<Row>, k: nat)
    requires RowidsIncreasing(rows) && k < |rows|
    ensures Ranked(RemoveRowid(rows, Ranked(rows)[k].rowid)) == Ranked(rows)[..k] + Ranked(rows)[k + 1..]
  {
    var r := Ranked(rows);
    var target := r[k];
    var d := RemoveRowid(rows, target.rowid);
    RankedSorted(rows);
    RemoveKeepsRowidOrder(rows, target.rowid);
    RankedSorted(d);
    RankedMembers(rows);
    RankedMembers(d);
    SortedWithout(r, k);
    MembersWithout(r, k);
    forall x ensures x in Ranked(d) <==> x in r && x != target {
      if x in r && x != target {
        DistinctRowsDistinctRowids(rows, x, target);
      }
    }
    SortedUnique(Ranked(d), r[..k] + r[k + 1..]);
  }

  /** A row added with the largest rowid is ranked after every row dated
      the same or later and before every row dated earlier. */
  lemma InsertedRowPlacement(rows: seq<Row>, added: Row, p: nat)
    requires RowidsIncreasing(rows + [added])
    requires p < |Ranked(rows + [added])| && Ranked(rows + [added])[p] == added
    ensures forall a :: 0 <= a < p ==> !Below(Ranked(rows + [added])[a].learningDate, added.learningDate)
    ensures forall b :: p < b < |Ranked(rows + [added])| ==> Below(Ranked(rows + [added])[b].learningDate, added.learningDate)
  {
    var all := rows + [added];
    var r := Ranked(all);
    RankedSorted(all);
    RankedMembers(all);
    forall a | 0 <= a < p ensures !Below(r[a].learningDate, added.learningDate) {
      PrecedesDatedNoEarlier(r[a], added);
    }
    forall b | p < b < |r| ensures Below(r[b].learningDate, added.learningDate) {
      assert Precedes(added, r[b]);
      SortedDistinct(r, p, b);
      assert r[b] in rows by {
        assert r[b] in all;
      }
      var i :| 0 <= i < |rows| && rows[i] == r[b];
      assert all[i] == r[b] && all[|rows|] == added;
    }
  }

  /** A new record dated on or after the listing threshold is listed,
      provided it ranks among the first 20. */
  lemma InsertedRowListed(rows: seq<Row>, added: Row, threshold: string, p: nat)
    requires RowidsIncreasing(rows + [added])
    requires p < |Ranked(rows + [added])| && Ranked(rows + [added])[p] == added
    requires !Below(added.learningDate, threshold) && p < DisplayLimit
    ensures added in Selection(rows + [added], threshold)
  {
    var all := rows + [added];
    var r := Ranked(all);
    var s := Since(all, threshold);
    SinceIsRankedPrefix(all, threshold);
    SelectionIsRankedPrefix(all, threshold);
    RankedSorted(all);
    RankedMembers(s);
    assert added in all;
    assert added in Ranked(s);
    var q :| 0 <= q < |s| && r[..|s|][q] == added;
    if q != p {
      SortedDistinct(r, p, q);
    }
  }

  /** The recorder's table. */
  class LearningTable {
    /** The rows, in rowid order. */
    var rows: seq<Row>

    ghost predicate Valid()
      reads this
    {
      RowidsIncreasing(rows)
    }

    /** `CREATE TABLE IF NOT EXISTS learning` on a new database. */
    constructor ()
      ensures Valid() && rows == []
    {
      rows := [];
    }

    /** `insertRow`: adds one row with the chosen date, genre and minutes,
        and with `created_at` and `updated_at` both set to the chosen date. */
    method Insert(date: string, genre: string, time: string)
      requires Valid()
      modifies this
      ensures Valid()
      ensures rows == old(rows) + [Row(NextRowid(old(rows)), date, genre, time, date, date)]
      ensures forall x :: x in old(rows) ==> x.rowid < rows[|rows| - 1].rowid
    {
      var id := NextRowid(rows);
      rows := rows + [Row(id, date, genre, time, date, date)];
    }

    /** `updateRow`: rewrites the date, genre and minutes of the row at
        offset `k` in the date-descending order and sets its `updated_at`
        to `now`; its rowid and `created_at` stay. An offset past the end
        names no row and changes nothing. */
    method UpdateAt(k: nat, date: string, genre: string, time: string, now: string)
      requires Valid()
      modifies this
      ensures Valid()
      ensures k >= |old(rows)| ==> rows == old(rows)
      ensures k < |old(rows)| ==>
        var target := Ranked(old(rows))[k];
        exists i :: 0 <= i < |old(rows)| && old(rows)[i] == target
          && rows == old(rows)[i := Row(target.rowid, date, genre, time, target.createdAt, now)]
    {
      RankedMembers(rows);
      if k < |rows| {
        var target := Ranked(rows)[k];
        var updated := Row(target.rowid, date, genre, time, target.createdAt, now);
        assert target in rows;
        ghost var i :| 0 <= i < |rows| && rows[i] == target;
        ReplaceRowidAt(rows, i, updated);
        rows := ReplaceRowid(rows, target.rowid, updated);
      }
    }

    /** `deleteRow`: removes the row at offset `k` in the date-descending
        order, keeping the others in their order. An offset past the end
        names no row and changes nothing. */
    method DeleteAt(k: nat)
      requires Valid()
      modifies this
      ensures Valid()
      ensures k >= |old(rows)| ==> rows == old(rows)
      ensures k < |old(rows)| ==> |rows| == |old(rows)| - 1
      ensures k < |old(rows)| ==>
        exists i :: 0 <= i < |old(rows)| && old(rows)[i] == Ranked(old(rows))[k]
          && rows == old(rows)[..i] + old(rows)[i + 1..]
      ensures k < |old(rows)| ==> Ranked(rows) == Ranked(old(rows))[..k] + Ranked(old(rows))[k + 1..]
    {
      RankedMembers(rows);
      if k < |rows| {
        var target := Ranked(rows)[k];
        assert target in rows;
        ghost var i :| 0 <= i < |rows| && rows[i] == target;
        RemoveRowidAt(rows, i);
        RemoveKeepsRowidOrder(rows, target.rowid);
        RankedAfterDelete(rows, k);
        rows := RemoveRowid(rows, target.rowid);
      }
    }

    /** The listing of `readRows`: the rows dated on or after `threshold`,
        newest first, at most 20, each shaped into its display line with
        its date written by `formatDate`. `None` when no row qualifies,
        where the recorder exits with status 1. */
    method ReadRows(threshold: string, formatDate: string -> string) returns (lines: Option<seq<string>>)
      requires Valid()
      ensures lines.None? <==> forall x :: x in rows ==> Below(x.learningDate, threshold)
      ensures lines.Some? ==> |lines.value| == Min(DisplayLimit, |Since(rows, threshold)|) >= 1
      ensures lines.Some? ==> |lines.value| <= |Ranked(rows)|
      ensures lines.Some? ==> forall k :: 0 <= k < |lines.value| ==>
        lines.value[k] == ShapeLine(Shown(formatDate(Ranked(rows)[k].learningDate),
                                          Ranked(rows)[k].genre, Ranked(rows)[k].learningTime))
    {
      var selected := Selection(rows, threshold);
      SelectionIsRankedPrefix(rows, threshold);
      SelectionEmptyIff(rows, threshold);
      var shown := seq(|selected|, i requires 0 <= i < |selected| =>
        Shown(formatDate(selected[i].learningDate), selected[i].genre, selected[i].learningTime));
      var shaped := ShapeRows(shown);
      if |shaped| < 1 {
        lines := None;
      } else {
        lines := Some(shaped);
      }
    }
  }
}
