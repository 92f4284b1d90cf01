/** When insertFragment and removeFragment keep the layout, and what they keep of the fragments. */
module FragmentLayout {
  import opened Bytes
  import opened DiskFiles
  import opened FragmentTable
  import opened FragmentInsert

  /** rows with a row put in before index k and every later one moved on by its size. */
  function PlacedAt(rows: seq<Row>, k: nat, row: Row): (r: seq<Row>)
    requires k <= |rows|
    ensures |r| == |rows| + 1
  {
    seq(|rows| + 1, i requires 0 <= i < |rows| + 1 =>
      if i < k then rows[i] else if i == k then row
      else rows[i - 1].(storedPos := rows[i - 1].storedPos + row.size))
  }

  /** The table that describes the file after n bytes for offset went between their neighbours. */
  function Placed(rows: seq<Row>, offset: nat, n: nat): seq<Row> {
    var k := Below(rows, offset);
    PlacedAt(rows, k, Row(offset, Sum(rows, k), n))
  }

  function PlacedFile(rows: seq<Row>, f: Bytes, offset: nat, data: Bytes): Bytes {
    Spliced(f, Sum(rows, Below(rows, offset)), data)
  }

  // ----- The intended table keeps the layout and every fragment -----

  lemma {:induction false} SumPlaced(rows: seq<Row>, k: nat, row: Row, i: nat)
    requires k <= |rows| && i <= |rows| + 1
    ensures Sum(PlacedAt(rows, k, row), i) == if i <= k then Sum(rows, i) else Sum(rows, i - 1) + row.size
  {
    if i > 0 {
      SumPlaced(rows, k, row, i - 1);
    }
  }

  lemma PlacedAtLayout(rows: seq<Row>, f: Bytes, k: nat, row: Row, g: Bytes)
    requires Layout(rows, f) && k <= |rows|
    requires k > 0 ==> rows[k - 1].pos < row.pos
    requires k < |rows| ==> row.pos < rows[k].pos
    requires row.storedPos == Sum(rows, k) && |g| == |f| + row.size
    ensures Layout(PlacedAt(rows, k, row), g)
  {
    var p := PlacedAt(rows, k, row);
    SumPlaced(rows, k, row, |p|);
    forall i | 0 <= i < |p|
      ensures InPlace(p, i)
    {
      PlacedInPlace(rows, f, k, row, i);
    }
  }

  lemma PlacedInPlace(rows: seq<Row>, f: Bytes, k: nat, row: Row, i: nat)
    requires Layout(rows, f) && k <= |rows| && row.storedPos == Sum(rows, k) && i <= |rows|
    ensures InPlace(PlacedAt(rows, k, row), i)
  {
    SumPlaced(rows, k, row, i);
    assert i < k ==> InPlace(rows, i);
    assert i > k ==> InPlace(rows, i - 1);
  }

  /** The bytes of a row that ends before, or starts behind, a place where data goes in. */
  lemma FragmentAround(row: Row, f: Bytes, w: nat, data: Bytes)
    requires w <= |f| && row.storedPos + row.size <= |f|
    ensures var g := f[..w] + data + f[w..];
            && (row.storedPos + row.size <= w ==> Fragment(row, g) == Fragment(row, f))
            && (row.storedPos >= w ==> Fragment(row.(storedPos := row.storedPos + |data|), g) == Fragment(row, f))
  {
  }

  lemma NewFragment(row: Row, f: Bytes, data: Bytes)
    requires row.storedPos <= |f| && row.size == |data|
    ensures Fragment(row, f[..row.storedPos] + data + f[row.storedPos..]) == data
  {
  }

  lemma PlacedAtFragment(rows: seq<Row>, f: Bytes, k: nat, row: Row, data: Bytes, i: nat)
    requires Layout(rows, f) && k <= |rows| && i <= |rows|
    requires row.storedPos == Sum(rows, k) <= |f| && row.size == |data|
    ensures Fragment(PlacedAt(rows, k, row)[i], f[..row.storedPos] + data + f[row.storedPos..])
         == if i < k then Fragment(rows[i], f) else if i == k then data else Fragment(rows[i - 1], f)
  {
    hide Fragment, Sum;
    if i == k {
      NewFragment(row, f, data);
    } else {
      var j := if i < k then i else i - 1;
      FragmentRange(rows, f, j);
      SumMonotone(rows, if i < k then i + 1 else k, if i < k then k else j);
      FragmentAround(rows[j], f, row.storedPos, data);
    }
  }

  lemma PlacedAtFragments(rows: seq<Row>, f: Bytes, k: nat, row: Row, data: Bytes)
    requires Layout(rows, f) && k <= |rows|
    requires row.storedPos == Sum(rows, k) <= |f| && row.size == |data|
    ensures Fragments(PlacedAt(rows, k, row), f[..row.storedPos] + data + f[row.storedPos..])
         == Fragments(rows, f)[..k] + [data] + Fragments(rows, f)[k..]
  {
    hide Fragment, Layout, Sum;
    var after := Fragments(PlacedAt(rows, k, row), f[..row.storedPos] + data + f[row.storedPos..]);
    var expected := Fragments(rows, f)[..k] + [data] + Fragments(rows, f)[k..];
    forall i | 0 <= i < |after|
      ensures after[i] == expected[i]
    {
      PlacedAtFragment(rows, f, k, row, data, i);
    }
  }

  /** With every row shifted, inserting at a new offset keeps the layout and every fragment. */
  lemma PlacedKeepsLayout(rows: seq<Row>, f: Bytes, offset: nat, data: Bytes)
    requires Layout(rows, f) && !HasRow(rows, offset)
    ensures var rows', f' := Placed(rows, offset, |data|), PlacedFile(rows, f, offset, data);
            var k := Below(rows, offset);
            && Layout(rows', f')
            && Fragments(rows', f') == Fragments(rows, f)[..k] + [data] + Fragments(rows, f)[k..]
  {
    var k := Below(rows, offset);
    var row := Row(offset, Sum(rows, k), |data|);
    SumMonotone(rows, k, |rows|);
    PlacedAtLayout(rows, f, k, row, PlacedFile(rows, f, offset, data));
    PlacedAtFragments(rows, f, k, row, data);
  }

  // ----- insertFragment as written -----

  lemma WritePosIsPlace(rows: seq<Row>, f: Bytes, offset: nat)
    requires Layout(rows, f) && !HasRow(rows, offset)
    ensures Below(rows, offset + 1) == Below(rows, offset)
    ensures WritePos(rows, offset, |f|) == Sum(rows, Below(rows, offset))
  {
    var k := Below(rows, offset);
    BelowIs(rows, offset + 1, k);
    assert k < |rows| ==> InPlace(rows, k);
  }

  lemma InsertedShape(rows: seq<Row>, f: Bytes, offset: nat, n: nat)
    requires Layout(rows, f) && !HasRow(rows, offset)
    ensures var k := Below(rows, offset);
            var w := Sum(rows, k);
            InsertedRows(rows, offset, n, |f|) == Moved(rows[..k] + [Row(offset, w, n)] + rows[k..], k + 1, w, n)
  {
    WritePosIsPlace(rows, f, offset);
    WithRowSorted(rows, Row(offset, WritePos(rows, offset, |f|), n));
  }

  /** Every row after the offset, but the last one, is empty. */
  predicate LaterRowsEmpty(rows: seq<Row>, offset: nat) {
    forall j :: Below(rows, offset) <= j < |rows| - 1 ==> rows[j].size == 0
  }

  /** Row by row, the table as written against the intended one. */
  lemma MovedAgainstPlaced(rows: seq<Row>, f: Bytes, k: nat, row: Row, i: nat)
    requires Layout(rows, f) && k <= |rows| && row.storedPos == Sum(rows, k) && i <= |rows|
    ensures var a := Moved(rows[..k] + [row] + rows[k..], k + 1, row.storedPos, row.size)[i];
            var b := PlacedAt(rows, k, row)[i];
            && a.pos == b.pos && a.size == b.size
            && (a == b <==> i <= k + 1 || rows[i - 2].size == 0)
  {
    var t := rows[..k] + [row] + rows[k..];
    assert i == k + 1 ==> InPlace(rows, k);
    if i > k + 1 {
      assert t[i] == rows[i - 1] && t[i - 1] == rows[i - 2];
      assert InPlace(rows, i - 1) && InPlace(rows, i - 2);
      assert Sum(rows, i - 1) == Sum(rows, i - 2) + rows[i - 2].size;
    }
  }

  lemma InsertedIsPlaced(rows: seq<Row>, f: Bytes, offset: nat, n: nat)
    requires Layout(rows, f) && !HasRow(rows, offset)
    ensures var a, b := InsertedRows(rows, offset, n, |f|), Placed(rows, offset, n);
            && |a| == |b|
            && (forall i :: 0 <= i < |a| ==> a[i].pos == b[i].pos && a[i].size == b[i].size)
            && (a == b <==> LaterRowsEmpty(rows, offset))
  {
    var k := Below(rows, offset);
    var row := Row(offset, Sum(rows, k), n);
    InsertedShape(rows, f, offset, n);
    var a, b := InsertedRows(rows, offset, n, |f|), Placed(rows, offset, n);
    forall i | 0 <= i < |a|
      ensures a[i].pos == b[i].pos && a[i].size == b[i].size
      ensures a[i] == b[i] <==> i <= k + 1 || rows[i - 2].size == 0
    {
      MovedAgainstPlaced(rows, f, k, row, i);
    }
    if a == b {
      forall j | k <= j < |rows| - 1
        ensures rows[j].size == 0
      {
        assert a[j + 2] == b[j + 2];
      }
    }
  }

  /** A file has at most one layout for given positions and sizes. */
  lemma LayoutIsUnique(a: seq<Row>, b: seq<Row>, f: Bytes)
    requires Layout(a, f) && Layout(b, f) && |a| == |b|
    requires forall i :: 0 <= i < |a| ==> a[i].pos == b[i].pos && a[i].size == b[i].size
    ensures a == b
  {
    forall i | 0 <= i < |a|
      ensures a[i] == b[i]
    {
      SumOfSizes(a, b, i);
      assert InPlace(a, i) && InPlace(b, i);
    }
  }

  /**
   insertFragment at a new offset: the bytes always go to the right place, and
   the table describes the file afterwards exactly when every later row but the
   last is empty, as when at most one row has a larger pos.
   */
  lemma InsertKeepsLayoutExactly(rows: seq<Row>, f: Bytes, offset: nat, data: Bytes)
    requires Layout(rows, f) && !HasRow(rows, offset)
    ensures var rows' := InsertedRows(rows, offset, |data|, |f|);
            var f' := Spliced(f, WritePos(rows, offset, |f|), data);
            && f' == PlacedFile(rows, f, offset, data)
            && (Layout(rows', f') <==> LaterRowsEmpty(rows, offset))
            && (LaterRowsEmpty(rows, offset) ==>
                  var k := Below(rows, offset);
                  Fragments(rows', f') == Fragments(rows, f)[..k] + [data] + Fragments(rows, f)[k..])
  {
    var rows', f' := InsertedRows(rows, offset, |data|, |f|), PlacedFile(rows, f, offset, data);
    WritePosIsPlace(rows, f, offset);
    PlacedKeepsLayout(rows, f, offset, data);
    InsertedIsPlaced(rows, f, offset, |data|);
    if Layout(rows', f') {
      LayoutIsUnique(rows', Placed(rows, offset, |data|), f');
    }
  }

  /** The failing case exists: three one-byte fragments arriving back to front leave a wrong table. */
  lemma BackwardArrivalBreaksLayout(a: Byte, b: Byte, c: Byte)
    ensures var rows := [Row(1, 0, 1), Row(2, 1, 1)];
            && Layout(rows, [b, c]) && !HasRow(rows, 0)
            && !Layout(InsertedRows(rows, 0, 1, 2), Spliced([b, c], WritePos(rows, 0, 2), [a]))
  {
    var rows := [Row(1, 0, 1), Row(2, 1, 1)];
    assert Sum(rows, 0) == 0 && Sum(rows, 1) == 1 && Sum(rows, 2) == 2;
    assert InPlace(rows, 0) && InPlace(rows, 1);
    InsertKeepsLayoutExactly(rows, [b, c], 0, [a]);
    assert rows[0].size != 0;
  }

  lemma DuplicateBelow(rows: seq<Row>, k: nat)
    requires Sorted(rows) && k < |rows|
    ensures Below(rows, rows[k].pos) == k && Below(rows, rows[k].pos + 1) == k + 1 && HasRow(rows, rows[k].pos)
  {
    BelowIs(rows, rows[k].pos, k);
    BelowIs(rows, rows[k].pos + 1, k + 1);
  }

  /** At an offset that is in the table nothing is added to it: row k stays, and the later rows move. */
  lemma DuplicateShape(rows: seq<Row>, k: nat, fileSize: nat, n: nat)
    requires Sorted(rows) && k < |rows|
    ensures var w := if k == 0 then 0 else if k == |rows| - 1 then fileSize else rows[k + 1].storedPos;
            && WritePos(rows, rows[k].pos, fileSize) == w
            && InsertedRows(rows, rows[k].pos, n, fileSize) == Moved(rows, k + 1, w, n)
  {
    DuplicateBelow(rows, k);
    hide Sorted, Below, Moved;
  }

  lemma DuplicatePlace(rows: seq<Row>, f: Bytes, k: nat)
    requires Layout(rows, f) && k < |rows|
    ensures var w := WritePos(rows, rows[k].pos, |f|);
            && w <= |f| && (k + 1 < |rows| ==> w == if k == 0 then 0 else Sum(rows, k + 1))
  {
    hide WritePos;
    DuplicateShape(rows, k, |f|, 0);
    if k + 1 < |rows| {
      FragmentRange(rows, f, k + 1);
    }
  }

  lemma MovedSum(rows: seq<Row>, k: nat, w: nat, n: nat, i: nat)
    requires i <= |rows|
    ensures Sum(Moved(rows, k, w, n), i) == Sum(rows, i)
  {
    SumOfSizes(Moved(rows, k, w, n), rows, i);
  }

  lemma SumFirst(rows: seq<Row>, i: nat)
    requires i < |rows|
    ensures Sum(rows, 0) == 0 && Sum(rows, i + 1) == Sum(rows, i) + rows[i].size
  {
  }

  /** Row by row, the table after empty data came for row k. */
  lemma DuplicateInPlace(rows: seq<Row>, k: nat, w: nat, i: nat)
    requires k < |rows| && i < |rows| && InPlace(rows, i) && (i > 0 ==> InPlace(rows, i - 1))
    requires k + 1 < |rows| ==> w == if k == 0 then 0 else Sum(rows, k + 1)
    ensures InPlace(Moved(rows, k + 1, w, 0), i) <==>
              (i == 1 && k == 0 ==> rows[0].size == 0) && (i > k + 1 ==> rows[i - 1].size == 0)
  {
    hide Sum;
    MovedSum(rows, k + 1, w, 0, i);
    if i > 0 {
      SumFirst(rows, i - 1);
    }
  }

  lemma DuplicateAllInPlace(rows: seq<Row>, f: Bytes, k: nat, w: nat)
    requires Layout(rows, f) && k < |rows|
    requires k + 1 < |rows| ==> w == if k == 0 then 0 else Sum(rows, k + 1)
    ensures Layout(Moved(rows, k + 1, w, 0), f) <==>
              (forall j :: k < j < |rows| - 1 ==> rows[j].size == 0) && (k == 0 && |rows| > 1 ==> rows[0].size == 0)
  {
    hide InPlace;
    var r := Moved(rows, k + 1, w, 0);
    assert Sorted(r);
    MovedSum(rows, k + 1, w, 0, |rows|);
    hide Sum, Moved;
    forall i | 0 <= i < |rows|
      ensures InPlace(r, i) <==>
                (i == 1 && k == 0 ==> rows[0].size == 0) && (i > k + 1 ==> rows[i - 1].size == 0)
    {
      DuplicateInPlace(rows, k, w, i);
    }
    if Layout(r, f) {
      forall j | k < j < |rows| - 1
        ensures rows[j].size == 0
      {
        assert InPlace(r, j + 1);
      }
      assert |rows| > 1 ==> InPlace(r, 1);
    }
  }

  /**
   insertFragment at an offset that is already in the table: the bytes go in,
   no row does. The layout is kept exactly when there are no bytes, every later
   row but the last is empty, and the row itself is if it is the first of
   several.
   */
  lemma DuplicateKeepsLayoutExactly(rows: seq<Row>, f: Bytes, k: nat, data: Bytes)
    requires Layout(rows, f) && k < |rows|
    ensures var offset := rows[k].pos;
            Layout(InsertedRows(rows, offset, |data|, |f|), Spliced(f, WritePos(rows, offset, |f|), data))
            <==> data == [] && (forall j :: k < j < |rows| - 1 ==> rows[j].size == 0)
                 && (k == 0 && |rows| > 1 ==> rows[0].size == 0)
  {
    hide InPlace, Sorted, InsertedRows, WritePos;
    var w := WritePos(rows, rows[k].pos, |f|);
    DuplicateShape(rows, k, |f|, |data|);
    DuplicatePlace(rows, f, k);
    MovedSum(rows, k + 1, w, |data|, |rows|);
    assert |Spliced(f, w, data)| == |f| + |data|;
    if data == [] {
      assert Spliced(f, w, data) == f;
      DuplicateAllInPlace(rows, f, k, w);
    }
  }

  // ----- removeFragment -----

  function WithoutRow(rows: seq<Row>, k: nat): (r: seq<Row>)
    requires k < |rows|
    ensures |r| == |rows| - 1
    ensures forall i :: 0 <= i < |r| ==> r[i] == if i < k then rows[i] else rows[i + 1]
  {
    rows[..k] + rows[k + 1..]
  }

  lemma {:induction false} SumWithout(rows: seq<Row>, k: nat, i: nat)
    requires k < |rows| && i < |rows|
    ensures Sum(WithoutRow(rows, k), i) == if i <= k then Sum(rows, i) else Sum(rows, i + 1) - rows[k].size
  {
    if i > 0 {
      SumWithout(rows, k, i - 1);
    }
  }

  /** The table describes the file after a removal exactly when the fragment was empty or the last one. */
  lemma RemoveKeepsLayoutExactly(rows: seq<Row>, f: Bytes, k: nat)
    requires Layout(rows, f) && k < |rows|
    ensures Layout(WithoutRow(rows, k), Removed(f, rows[k].storedPos, rows[k].size))
       <==> rows[k].size == 0 || k == |rows| - 1
  {
    var rows' := WithoutRow(rows, k);
    FragmentRange(rows, f, k);
    SumWithout(rows, k, |rows'|);
    if rows[k].size != 0 && k < |rows| - 1 {
      SumWithout(rows, k, k);
      assert InPlace(rows, k + 1);
      assert !InPlace(rows', k);
    } else {
      forall i | 0 <= i < |rows'|
        ensures InPlace(rows', i)
      {
        RemainsInPlace(rows, f, k, i);
      }
    }
  }

  lemma RemainsInPlace(rows: seq<Row>, f: Bytes, k: nat, i: nat)
    requires Layout(rows, f) && k < |rows| && i < |rows| - 1
    requires rows[k].size == 0 || k == |rows| - 1
    ensures InPlace(WithoutRow(rows, k), i)
  {
    SumWithout(rows, k, i);
    assert InPlace(rows, if i < k then i else i + 1);
  }
}
