/** FragmentStorage::applyChanges: which tables let it overwrite a range of the file. */
module FragmentEdit {
  import opened Wrappers
  import opened Bytes
  import opened DiskFiles
  import opened FragmentTable

  /** The rows the SELECT of applyChanges finds for a change of n bytes at pos. */
  predicate Hit(r: Row, pos: nat, n: nat) {
    r.pos + r.size > pos && r.pos < pos + n
  }

  /** A removal and a write of count bytes at one place, taken from the data at index `from`. */
  datatype Patch = Patch(at: int, from: nat, count: nat)

  /** The three cases of the loop. A negative place stands for a uint64 that has wrapped around. */
  function PatchOf(r: Row, pos: nat, n: nat): (p: Patch)
    requires Hit(r, pos, n)
    ensures p.from + p.count <= n
  {
    var endPos, fragposend := pos + n, r.pos + r.size;
    if r.pos > pos && fragposend < endPos then Patch(r.storedPos, r.pos - pos, r.size)
    else if fragposend > endPos && r.pos > pos then Patch(r.storedPos, r.pos - pos, endPos - r.pos)
    else Patch(pos - (r.pos - r.storedPos), 0, if n < fragposend - pos then n else fragposend - pos)
  }

  /** The file after one row; None when the place has wrapped around, where resizing the file throws. */
  function Applied(f: Bytes, r: Row, data: Bytes, pos: nat): Option<Bytes>
    requires Hit(r, pos, |data|)
  {
    var p := PatchOf(r, pos, |data|);
    if p.at < 0 then None
    else Some(Spliced(Removed(f, p.at, p.count), p.at, data[p.from..p.from + p.count]))
  }

  ghost predicate Hits(order: seq<nat>, rows: seq<Row>, pos: nat, n: nat) {
    forall i :: 0 <= i < |order| ==> order[i] < |rows| && Hit(rows[order[i]], pos, n)
  }

  /** The rows are taken one after the other, in the order the SELECT gave. */
  function AppliedAll(f: Bytes, rows: seq<Row>, order: seq<nat>, data: Bytes, pos: nat): Option<Bytes>
    requires Hits(order, rows, pos, |data|)
    decreases |order|
  {
    if order == [] then Some(f)
    else
      var last := |order| - 1;
      var g :- AppliedAll(f, rows, order[..last], data, pos);
      Applied(g, rows[order[last]], data, pos)
  }

  /** An order in which the SELECT may give the rows: each row that is hit, once. */
  ghost predicate Visits(order: seq<nat>, rows: seq<Row>, pos: nat, n: nat) {
    && Hits(order, rows, pos, n)
    && (forall i, j :: 0 <= i < j < |order| ==> order[i] != order[j])
    && (forall k: nat :: k < |rows| && Hit(rows[k], pos, n) ==> k in order)
  }

  /** Whatever data of n bytes is given and whatever the order of the rows, the range is overwritten. */
  ghost predicate ChangesApply(rows: seq<Row>, f: Bytes, pos: nat, n: nat) {
    forall data: Bytes, order: seq<nat> :: |data| == n && Visits(order, rows, pos, n) ==>
      AppliedAll(f, rows, order, data, pos) == Some(Overwritten(f, pos, data))
  }

  // ----- What one row does, byte by byte -----

  /** A patch inside the file overwrites its bytes. */
  lemma PatchOverwrites(f: Bytes, r: Row, data: Bytes, pos: nat)
    requires Hit(r, pos, |data|)
    requires var p := PatchOf(r, pos, |data|); 0 <= p.at && p.at + p.count <= |f|
    ensures var p := PatchOf(r, pos, |data|);
            Applied(f, r, data, pos) == Some(Overwritten(f, p.at, data[p.from..p.from + p.count]))
  {
    hide PatchOf, Spliced, Removed, Overwritten;
    var p := PatchOf(r, pos, |data|);
    ReplaceIsOverwrite(f, p.at, data[p.from..p.from + p.count]);
  }

  /** f with count bytes from `at` on replaced by those of the data from index `from` on. */
  ghost predicate Replaced(g: Bytes, f: Bytes, at: nat, data: Bytes, from: nat, count: nat)
    requires from + count <= |data|
  {
    |g| == |f| && forall b :: 0 <= b < |f| ==> g[b] == if at <= b < at + count then data[b - at + from] else f[b]
  }

  lemma PatchReplaces(f: Bytes, r: Row, data: Bytes, pos: nat)
    requires Hit(r, pos, |data|)
    requires var p := PatchOf(r, pos, |data|); 0 <= p.at && p.at + p.count <= |f|
    ensures var p := PatchOf(r, pos, |data|);
            Applied(f, r, data, pos).Some? && Replaced(Applied(f, r, data, pos).value, f, p.at, data, p.from, p.count)
  {
    hide PatchOf, Applied;
    PatchOverwrites(f, r, data, pos);
  }

  /** The row starts inside the range and ends exactly with it. */
  predicate EndsWithRange(r: Row, pos: nat, n: nat) {
    r.pos > pos && r.pos + r.size == pos + n
  }

  /**
   A row inside the file takes its own part of the change: of its bytes, counted
   from pos on, those that lie in the range. `low` and `high` bound that part.
   */
  lemma RowAppliedExactly(f: Bytes, r: Row, data: Bytes, pos: nat)
    requires Hit(r, pos, |data|) && r.storedPos + r.size <= |f| && !EndsWithRange(r, pos, |data|)
    ensures var low, high := if r.pos > pos then r.pos else pos,
                             if r.pos + r.size < pos + |data| then r.pos + r.size else pos + |data|;
            var g := Applied(f, r, data, pos);
            && low <= high && g.Some?
            && Replaced(g.value, f, r.storedPos + (low - r.pos), data, low - pos, high - low)
  {
    hide PatchOf, Applied, Replaced;
    PatchIs(r, pos, |data|);
    PatchReplaces(f, r, data, pos);
  }

  lemma PatchIs(r: Row, pos: nat, n: nat)
    requires Hit(r, pos, n) && !EndsWithRange(r, pos, n)
    ensures var low, high := if r.pos > pos then r.pos else pos,
                             if r.pos + r.size < pos + n then r.pos + r.size else pos + n;
            low <= high && PatchOf(r, pos, n) == Patch(r.storedPos + (low - r.pos), low - pos, high - low)
  {
  }

  /** A row that starts inside the range and ends with it takes the whole change, unless that starts before the file. */
  lemma WholeAppliedExactly(f: Bytes, r: Row, data: Bytes, pos: nat)
    requires Hit(r, pos, |data|) && r.storedPos + r.size <= |f| && EndsWithRange(r, pos, |data|)
    ensures var at, g := r.storedPos - (r.pos - pos), Applied(f, r, data, pos);
            && (g.None? <==> at < 0)
            && (at >= 0 ==> Replaced(g.value, f, at, data, 0, |data|))
  {
    var p := PatchOf(r, pos, |data|);
    assert p == Patch(r.storedPos - (r.pos - pos), 0, |data|);
    if p.at >= 0 {
      PatchReplaces(f, r, data, pos);
    }
  }

  // ----- A table that tiles the file -----

  /** g is f, except that some bytes of the range may already hold the new data. */
  ghost predicate Between(f: Bytes, g: Bytes, pos: nat, data: Bytes) {
    && |g| == |f|
    && forall b :: 0 <= b < |f| ==> g[b] == f[b] || (pos <= b < pos + |data| && g[b] == data[b - pos])
  }

  /** The part of the range that lies in the row holds the new data. */
  ghost predicate RowApplied(g: Bytes, r: Row, pos: nat, data: Bytes) {
    forall b :: r.pos <= b < r.pos + r.size && pos <= b < pos + |data| && b < |g| ==> g[b] == data[b - pos]
  }

  /** Overwriting with the data from index `from` on brings in the row's part, if it reaches over it. */
  lemma PartApplied(f: Bytes, r: Row, pos: nat, data: Bytes, from: nat, count: nat)
    requires from + count <= |data|
    requires from == 0 || pos + from == r.pos
    requires from + count == |data| || pos + from + count >= r.pos + r.size
    ensures var g := Overwritten(f, pos + from, data[from..from + count]);
            Between(f, g, pos, data) && RowApplied(g, r, pos, data)
  {
  }

  lemma OneRowApplied(f: Bytes, r: Row, data: Bytes, pos: nat)
    requires Hit(r, pos, |data|) && r.pos == r.storedPos && r.pos + r.size <= |f|
    ensures Applied(f, r, data, pos).Some?
    ensures Between(f, Applied(f, r, data, pos).value, pos, data)
    ensures RowApplied(Applied(f, r, data, pos).value, r, pos, data)
  {
    hide Applied, Overwritten, Between, RowApplied;
    var p := PatchOf(r, pos, |data|);
    PatchOverwrites(f, r, data, pos);
    PartApplied(f, r, pos, data, p.from, p.count);
  }

  lemma StillApplied(g: Bytes, h: Bytes, pos: nat, data: Bytes)
    requires Between(g, h, pos, data)
    ensures forall r: Row :: RowApplied(g, r, pos, data) ==> RowApplied(h, r, pos, data)
    ensures forall f: Bytes :: Between(f, g, pos, data) ==> Between(f, h, pos, data)
  {
  }

  lemma {:induction false} TilesApplied(rows: seq<Row>, f: Bytes, order: seq<nat>, data: Bytes, pos: nat)
    requires Tiles(rows, f) && Hits(order, rows, pos, |data|)
    ensures AppliedAll(f, rows, order, data, pos).Some?
    ensures var g := AppliedAll(f, rows, order, data, pos).value;
            && Between(f, g, pos, data)
            && forall i :: 0 <= i < |order| ==> RowApplied(g, rows[order[i]], pos, data)
    decreases |order|
  {
    hide Applied, RowApplied, Tiles, Hit;
    if order == [] {
      assert Between(f, f, pos, data);
    } else {
      var last := |order| - 1;
      TilesApplied(rows, f, order[..last], data, pos);
      var g := AppliedAll(f, rows, order[..last], data, pos).value;
      TileRange(rows, f, order[last]);
      OneRowApplied(g, rows[order[last]], data, pos);
      StillApplied(g, Applied(g, rows[order[last]], data, pos).value, pos, data);
      assert forall i :: 0 <= i < last ==> order[..last][i] == order[i];
    }
  }

  /** On a table that tiles the file every change applies, in whatever order the rows come. */
  lemma TiledChangesApply(rows: seq<Row>, f: Bytes, order: seq<nat>, data: Bytes, pos: nat)
    requires Tiles(rows, f) && Visits(order, rows, pos, |data|)
    ensures AppliedAll(f, rows, order, data, pos) == Some(Overwritten(f, pos, data))
  {
    hide AppliedAll;
    TilesApplied(rows, f, order, data, pos);
    var g := AppliedAll(f, rows, order, data, pos).value;
    assert |g| == |f|;
    forall b | 0 <= b < |f|
      ensures g[b] == Overwritten(f, pos, data)[b]
    {
      if pos <= b < pos + |data| {
        var i := TilesCover(rows, f, |rows|, b);
        assert Hit(rows[i], pos, |data|);
        assert i in order;
      }
    }
    assert g == Overwritten(f, pos, data);
  }

  // ----- A table whose rows say a later position than where they are stored -----

  /** Every row lies in the file, is not empty, and has a pos behind its storedPos. */
  ghost predicate Shifted(rows: seq<Row>, f: Bytes) {
    forall i :: 0 <= i < |rows| ==>
      rows[i].size > 0 && rows[i].storedPos < rows[i].pos && rows[i].storedPos + rows[i].size <= |f|
  }

  lemma PatchInFile(f: Bytes, r: Row, data: Bytes, pos: nat)
    requires Hit(r, pos, |data|) && Applied(f, r, data, pos).Some?
    requires r.size > 0 && r.storedPos < r.pos && r.storedPos + r.size <= |f|
    ensures var p := PatchOf(r, pos, |data|);
            && 0 <= p.at && (data != [] ==> p.count > 0) && p.at + p.count <= |f| && p.from + pos > p.at
            && Applied(f, r, data, pos).value == Overwritten(f, p.at, data[p.from..p.from + p.count])
  {
    hide Spliced, Removed, Overwritten;
    PatchOverwrites(f, r, data, pos);
  }

  /** The byte at pos never becomes the first byte of the data. */
  lemma {:induction false} FirstByteMissed(rows: seq<Row>, f: Bytes, order: seq<nat>, data: Bytes, pos: nat)
    requires Shifted(rows, f) && Hits(order, rows, pos, |data|) && pos < |f|
    requires forall k :: 0 < k < |data| ==> data[k] == f[pos]
    ensures var g := AppliedAll(f, rows, order, data, pos);
            g.Some? ==> |g.value| == |f| && g.value[pos] == f[pos]
    decreases |order|
  {
    hide Applied, PatchOf, Hit;
    if order != [] {
      var last := |order| - 1;
      FirstByteMissed(rows, f, order[..last], data, pos);
      var g := AppliedAll(f, rows, order[..last], data, pos);
      if g.Some? && Applied(g.value, rows[order[last]], data, pos).Some? {
        PatchInFile(g.value, rows[order[last]], data, pos);
      }
    }
  }

  /** With all bytes of the data equal, every row that was taken leaves such a byte behind. */
  lemma {:induction false} SameBytesLeft(rows: seq<Row>, f: Bytes, order: seq<nat>, data: Bytes, pos: nat, x: Byte)
    requires Shifted(rows, f) && Hits(order, rows, pos, |data|)
    requires data != [] && forall k :: 0 <= k < |data| ==> data[k] == x
    ensures var g := AppliedAll(f, rows, order, data, pos);
            g.Some? ==>
              && |g.value| == |f|
              && forall i :: 0 <= i < |order| ==>
                   var at := PatchOf(rows[order[i]], pos, |data|).at; 0 <= at < |f| && g.value[at] == x
    decreases |order|
  {
    hide Applied, PatchOf, Hit;
    if order != [] {
      var last := |order| - 1;
      SameBytesLeft(rows, f, order[..last], data, pos, x);
      var g := AppliedAll(f, rows, order[..last], data, pos);
      if g.Some? && Applied(g.value, rows[order[last]], data, pos).Some? {
        PatchInFile(g.value, rows[order[last]], data, pos);
        assert forall i :: 0 <= i < last ==> order[..last][i] == order[i];
      }
    }
  }

  /** The rows that are hit among the first k, in pos order. */
  ghost function HitRows(rows: seq<Row>, pos: nat, n: nat, k: nat): (order: seq<nat>)
    requires k <= |rows|
    ensures forall i :: 0 <= i < |order| ==> order[i] < k && Hit(rows[order[i]], pos, n)
    ensures forall i, j :: 0 <= i < j < |order| ==> order[i] != order[j]
    ensures forall i: nat :: i < k && Hit(rows[i], pos, n) ==> i in order
  {
    if k == 0 then [] else HitRows(rows, pos, n, k - 1) + (if Hit(rows[k - 1], pos, n) then [k - 1] else [])
  }

  ghost predicate NoneHit(rows: seq<Row>, pos: nat, n: nat) {
    forall i :: 0 <= i < |rows| ==> !Hit(rows[i], pos, n)
  }

  lemma SomeHit(order: seq<nat>, rows: seq<Row>, pos: nat, n: nat)
    requires Hits(order, rows, pos, n)
    ensures order == [] || exists k :: 0 <= k < |rows| && Hit(rows[k], pos, n)
  {
    if order != [] {
      assert Hit(rows[order[0]], pos, n);
    }
  }

  /**
   On a shifted table a change of n bytes applies exactly when there is nothing
   to change: it starts behind the file and hits no row.
   */
  lemma ShiftedChangesApplyExactly(rows: seq<Row>, f: Bytes, pos: nat, n: nat)
    requires n > 0 && Shifted(rows, f)
    ensures ChangesApply(rows, f, pos, n) <==> pos >= |f| && NoneHit(rows, pos, n)
  {
    hide Shifted, Hit;
    if pos >= |f| && NoneHit(rows, pos, n) {
      forall data: Bytes, order: seq<nat> | |data| == n && Visits(order, rows, pos, n)
        ensures AppliedAll(f, rows, order, data, pos) == Some(Overwritten(f, pos, data))
      {
        SomeHit(order, rows, pos, n);
        assert Overwritten(f, pos, data) == f;
      }
    } else {
      var data := ChangeThatFails(rows, f, pos, n);
    }
  }

  lemma ChangeThatFails(rows: seq<Row>, f: Bytes, pos: nat, n: nat) returns (data: Bytes)
    requires n > 0 && Shifted(rows, f) && !(pos >= |f| && NoneHit(rows, pos, n))
    ensures |data| == n && !ChangesApply(rows, f, pos, n)
  {
    hide AppliedAll, Shifted, Hit;
    var order := HitRows(rows, pos, n, |rows|);
    assert Visits(order, rows, pos, n);
    if pos < |f| {
      data := seq(n, i => if i == 0 then f[pos] ^ 1 else f[pos]);
      FirstByteMissed(rows, f, order, data, pos);
      assert Overwritten(f, pos, data)[pos] == data[0] != f[pos];
    } else {
      var k :| 0 <= k < |rows| && Hit(rows[k], pos, n);
      assert k in order;
      var at := PatchOf(rows[k], pos, n).at;
      var x: Byte := if 0 <= at < |f| then f[at] ^ 1 else 0;
      data := seq(n, _ => x);
      SameBytesLeft(rows, f, order, data, pos, x);
      assert Overwritten(f, pos, data) == f;
    }
  }

  /**
   The table of a local file is empty, so nothing of a non-empty file is in it,
   and a change applies exactly when it starts behind the file.
   */
  lemma LocalChangesApplyExactly(f: Bytes, pos: nat, n: nat)
    requires n > 0
    ensures Tiles([], f) <==> f == []
    ensures ChangesApply([], f, pos, n) <==> pos >= |f|
  {
    hide ChangesApply;
    ShiftedChangesApplyExactly([], f, pos, n);
    assert Sum([], 0) == 0;
  }
}
