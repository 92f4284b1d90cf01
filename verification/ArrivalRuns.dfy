/** insertFragment as written, over a run of arrivals: exactly when the table ends up right. */
module ArrivalRuns {
  import opened Bytes
  import opened DiskFiles
  import opened FragmentTable
  import opened FragmentInsert
  import opened FragmentLayout
  import opened ArrivalOrder

  // ----- One insert into any sorted table, right or wrong -----

  /** insertFragment's table, with the new row at k and every later one where its predecessor was, plus n. */
  function Entered(rows: seq<Row>, k: nat, row: Row): (r: seq<Row>)
    requires k <= |rows|
    ensures |r| == |rows| + 1
  {
    seq(|rows| + 1, i requires 0 <= i < |rows| + 1 =>
      if i < k then rows[i] else if i == k then row
      else rows[i - 1].(storedPos := (if i == k + 1 then row.storedPos else rows[i - 2].storedPos) + row.size))
  }

  lemma MovedIsEntered(rows: seq<Row>, k: nat, row: Row)
    requires k <= |rows|
    ensures Moved(rows[..k] + [row] + rows[k..], k + 1, row.storedPos, row.size) == Entered(rows, k, row)
  {
  }

  lemma WritePosAt(rows: seq<Row>, offset: nat, fileSize: nat)
    requires Below(rows, offset + 1) == Below(rows, offset)
    ensures var k := Below(rows, offset);
            WritePos(rows, offset, fileSize) == if k == 0 then 0 else if k == |rows| then fileSize else rows[k].storedPos
  {
    hide Below;
  }

  lemma InsertedIsEntered(rows: seq<Row>, offset: nat, n: nat, fileSize: nat)
    requires Sorted(rows) && !HasRow(rows, offset)
    ensures var k, w := Below(rows, offset), WritePos(rows, offset, fileSize);
            && w == (if k == 0 then 0 else if k == |rows| then fileSize else rows[k].storedPos)
            && InsertedRows(rows, offset, n, fileSize) == Entered(rows, k, Row(offset, w, n))
  {
    var k, w := Below(rows, offset), WritePos(rows, offset, fileSize);
    BelowIs(rows, offset + 1, k);
    WithRowSorted(rows, Row(offset, w, n));
    hide Sorted, Below, Moved, Entered, WritePos;
    WritePosAt(rows, offset, fileSize);
    MovedIsEntered(rows, k, Row(offset, w, n));
  }

  lemma EnteredPositions(rows: seq<Row>, k: nat, row: Row)
    requires Sorted(rows) && !HasRow(rows, row.pos) && k == Below(rows, row.pos)
    ensures Sorted(Entered(rows, k, row))
    ensures forall q :: HasRow(Entered(rows, k, row), q) ==> q == row.pos || HasRow(rows, q)
  {
    var t := Entered(rows, k, row);
    forall i | 0 <= i < |t|
      ensures i < k ==> t[i].pos < row.pos && HasRow(rows, t[i].pos)
      ensures i > k ==> row.pos < t[i].pos && HasRow(rows, t[i].pos)
    {
      var j := if i < k then i else i - 1;
      if i > k {
        assert rows[k].pos <= rows[j].pos && HasRow(rows, rows[k].pos);
      }
      assert i != k ==> t[i].pos == rows[j].pos;
    }
  }

  lemma EnteredSum(rows: seq<Row>, k: nat, row: Row, i: nat)
    requires k <= |rows| && i <= |rows| + 1
    ensures Sum(Entered(rows, k, row), i) == if i <= k then Sum(rows, i) else Sum(rows, i - 1) + row.size
  {
    SumOfSizes(Entered(rows, k, row), PlacedAt(rows, k, row), i);
    SumPlaced(rows, k, row, i);
  }

  /** Row by row: what is in place after the insert. */
  lemma EnteredInPlace(rows: seq<Row>, k: nat, row: Row, i: nat)
    requires k <= |rows| && i <= |rows|
    ensures InPlace(Entered(rows, k, row), i) <==>
              if i < k then InPlace(rows, i)
              else if i <= k + 1 then row.storedPos == Sum(rows, k)
              else rows[i - 2].storedPos == Sum(rows, i - 1)
  {
    hide Sum;
    EnteredSum(rows, k, row, i);
  }

  lemma SumNext(rows: seq<Row>, i: nat)
    requires i < |rows|
    ensures Sum(rows, 0) == 0 && Sum(rows, i + 1) == Sum(rows, i) + rows[i].size
  {
  }

  // ----- A table that has gone wrong stays wrong -----

  /** Row i is the first one out of place, and the row before it is not empty. */
  ghost predicate WrongFrom(rows: seq<Row>, i: nat) {
    && 0 < i < |rows|
    && (forall j :: 0 <= j < i ==> InPlace(rows, j))
    && !InPlace(rows, i) && rows[i - 1].size != 0
  }

  ghost predicate Wrong(rows: seq<Row>) {
    exists i: nat :: WrongFrom(rows, i)
  }

  lemma {:induction false} FirstNonEmpty(rows: seq<Row>, k: nat, hi: nat) returns (j: nat)
    requires k <= hi < |rows| && rows[hi].size != 0
    ensures k <= j <= hi && rows[j].size != 0 && forall m :: k <= m < j ==> rows[m].size == 0
    decreases hi - k
  {
    if rows[k].size != 0 {
      j := k;
    } else {
      j := FirstNonEmpty(rows, k + 1, hi);
    }
  }

  /** Data in front of a first non-empty row j, all in place up to it: two rows further on the table goes wrong. */
  lemma GoesWrong(rows: seq<Row>, k: nat, row: Row, j: nat)
    requires k <= j && j + 1 < |rows| && row.storedPos == Sum(rows, k)
    requires forall m :: 0 <= m <= j ==> InPlace(rows, m)
    requires rows[j].size != 0 && forall m :: k <= m < j ==> rows[m].size == 0
    ensures WrongFrom(Entered(rows, k, row), j + 2)
  {
    hide InPlace;
    var t := Entered(rows, k, row);
    forall m | 0 <= m <= j + 2
      ensures InPlace(t, m) <==> m < j + 2
    {
      EnteredInPlace(rows, k, row, m);
      if m > k + 1 {
        SumNext(rows, m - 2);
        PlaceOf(rows, m - 2);
      }
    }
  }

  lemma PlaceOf(rows: seq<Row>, i: nat)
    requires i < |rows| && InPlace(rows, i)
    ensures rows[i].storedPos == Sum(rows, i)
  {
  }

  /** An insert keeps a wrong table wrong, wherever it goes. */
  lemma StaysWrong(rows: seq<Row>, i: nat, k: nat, row: Row)
    requires WrongFrom(rows, i) && k <= |rows|
    requires k < |rows| ==> row.storedPos == if k == 0 then 0 else rows[k].storedPos
    ensures Wrong(Entered(rows, k, row))
  {
    hide Sum, Entered;
    var t := Entered(rows, k, row);
    if k < i {
      var j := FirstNonEmpty(rows, k, i - 1);
      SumNext(rows, 0);
      PlaceOf(rows, k);
      GoesWrong(rows, k, row, j);
    } else {
      forall m | 0 <= m <= i
        ensures InPlace(t, m) <==> m < i
      {
        EnteredInPlace(rows, k, row, m);
      }
      RowBefore(rows, k, row, i - 1);
      assert WrongFrom(t, i);
    }
  }

  lemma RowBefore(rows: seq<Row>, k: nat, row: Row, i: nat)
    requires i < k <= |rows|
    ensures Entered(rows, k, row)[i] == rows[i]
  {
  }

  // ----- Runs -----

  /** The offsets are pairwise distinct and none is in the table. */
  ghost predicate Fresh(rows: seq<Row>, pieces: Pieces) {
    && (forall i :: 0 <= i < |pieces| ==> !HasRow(rows, pieces[i].0))
    && (forall i, j :: 0 <= i < j < |pieces| ==> pieces[i].0 != pieces[j].0)
  }

  lemma InsertKeepsFresh(s: Store, pieces: Pieces)
    requires Sorted(s.rows) && pieces != [] && Fresh(s.rows, pieces)
    ensures Sorted(Insert(s, pieces[0]).rows) && Fresh(Insert(s, pieces[0]).rows, pieces[1..])
  {
    var p := pieces[0];
    var k, w := Below(s.rows, p.0), WritePos(s.rows, p.0, |s.f|);
    InsertedIsEntered(s.rows, p.0, |p.1|, |s.f|);
    EnteredPositions(s.rows, k, Row(p.0, w, |p.1|));
    hide Entered, Below, WritePos, InsertedRows, Sorted, HasRow;
    forall i | 0 <= i < |pieces[1..]|
      ensures !HasRow(Insert(s, p).rows, pieces[1..][i].0)
    {
      assert pieces[1..][i] == pieces[i + 1];
    }
  }

  lemma {:induction false} RunStaysWrong(s: Store, pieces: Pieces)
    requires Sorted(s.rows) && Wrong(s.rows) && Fresh(s.rows, pieces)
    ensures Wrong(InsertAll(s, pieces).rows)
    decreases |pieces|
  {
    if pieces != [] {
      var p := pieces[0];
      var k, w := Below(s.rows, p.0), WritePos(s.rows, p.0, |s.f|);
      var i: nat :| WrongFrom(s.rows, i);
      InsertKeepsFresh(s, pieces);
      InsertedIsEntered(s.rows, p.0, |p.1|, |s.f|);
      hide Entered, Below, WritePos, InsertedRows, Sorted, WrongFrom, Fresh, Wrong;
      StaysWrong(s.rows, i, k, Row(p.0, w, |p.1|));
      RunStaysWrong(Insert(s, p), pieces[1..]);
    }
  }

  /** The first insert that finds a non-empty row, not the last, behind it makes the table wrong. */
  lemma InsertGoesWrong(s: Store, p: (nat, Bytes))
    requires Good(s) && !HasRow(s.rows, p.0) && !LaterRowsEmpty(s.rows, p.0)
    ensures Wrong(Insert(s, p).rows)
  {
    var k, w := Below(s.rows, p.0), WritePos(s.rows, p.0, |s.f|);
    var hi :| k <= hi < |s.rows| - 1 && s.rows[hi].size != 0;
    var j := FirstNonEmpty(s.rows, k, hi);
    WritePosIsPlace(s.rows, s.f, p.0);
    InsertedIsEntered(s.rows, p.0, |p.1|, |s.f|);
    GoesWrong(s.rows, k, Row(p.0, w, |p.1|), j);
  }

  lemma WrongIsNotGood(s: Store)
    requires Wrong(s.rows)
    ensures !Good(s)
  {
  }

  lemma NewIsFresh(s: Store, pieces: Pieces)
    requires NewOffsets(s, pieces)
    ensures Fresh(s.rows, pieces)
  {
    forall i | 0 <= i < |pieces|
      ensures !HasRow(s.rows, pieces[i].0)
    {
      HeldKeys(s, |s.rows|, pieces[i].0);
    }
  }

  /**
   For a run of arrivals at new offsets, the table of the code as written
   describes the file in the end exactly when every arrival found only empty
   rows, but the last, behind it; only then is the outcome that of the
   shift-each-row update. One wrong insert is never made good by a later one.
   */
  lemma {:induction false} AsWrittenExactly(s: Store, pieces: Pieces)
    requires Good(s) && NewOffsets(s, pieces)
    ensures Good(InsertAll(s, pieces)) <==> NothingMuchBehind(s, pieces)
    ensures InsertAll(s, pieces) == PlaceAll(s, pieces) <==> NothingMuchBehind(s, pieces)
    decreases |pieces|
  {
    hide Good, Insert, Place, Held;
    AnyOrderKeepsLayout(s, pieces);
    if pieces != [] {
      var p := pieces[0];
      NewIsFresh(s, pieces);
      GoodIsSorted(s);
      if LaterRowsEmpty(s.rows, p.0) {
        OneAgrees(s, pieces);
        AsWrittenExactly(Place(s, p), pieces[1..]);
      } else {
        InsertGoesWrong(s, p);
        InsertKeepsFresh(s, pieces);
        RunStaysWrong(Insert(s, p), pieces[1..]);
        WrongIsNotGood(InsertAll(s, pieces));
      }
    }
  }
}
