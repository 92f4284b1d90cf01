/** FragmentStorage: the Fragments table and the file, changed together. */
module FragmentInsert {
  import opened Wrappers
  import opened Bytes
  import opened DiskFiles
  import opened FragmentTable
  import opened FragmentEdit

  // ----- What the methods compute -----

  /** writeFragment: where the new bytes go. */
  function WritePos(rows: seq<Row>, offset: nat, fileSize: nat): nat {
    if Previous(rows, offset).None? then 0
    else if Next(rows, offset).None? then fileSize
    else Next(rows, offset).value.storedPos
  }

  /**
   moveRows from index k on. The recursion goes on with the row as it was read,
   before its update: the first row moves by moveSize from curPos, every later
   one to the old place of the row before it, plus moveSize.
   */
  function Moved(rows: seq<Row>, k: nat, curPos: nat, moveSize: nat): (r: seq<Row>)
    ensures |r| == |rows|
  {
    seq(|rows|, i requires 0 <= i < |rows| =>
      if i < k then rows[i]
      else rows[i].(storedPos := (if i == k then curPos else rows[i - 1].storedPos) + moveSize))
  }

  /** The table after insert of a row: unchanged when the primary key exists. */
  function WithRow(rows: seq<Row>, row: Row): seq<Row> {
    if HasRow(rows, row.pos) then rows
    else var k := Below(rows, row.pos); rows[..k] + [row] + rows[k..]
  }

  function InsertedRows(rows: seq<Row>, offset: nat, size: nat, fileSize: nat): seq<Row> {
    var w := WritePos(rows, offset, fileSize);
    var t := WithRow(rows, Row(offset, w, size));
    Moved(t, Below(t, offset + 1), w, size)
  }

  class FragmentStorage {
    var rows: seq<Row>
    const file: DiskFile
    const calcHash: Bytes -> Bytes

    constructor (file: DiskFile, calcHash: Bytes -> Bytes)
      ensures this.file == file && rows == []
    {
      this.file := file;
      this.calcHash := calcHash;
      rows := [];
    }

    /**
     initLocalFile, meant to give the whole file one row. The row has no
     fragHash, so the table never gets it.
     */
    method InitLocalFile(fileSize: nat) returns (inserted: bool)
      modifies this
      ensures inserted && rows == old(rows)
    {
      inserted := InsertRow(Row(0, 0, fileSize), None);
    }

    /**
     INSERT OR IGNORE: a row without fragHash (the column is NOT NULL) or with a
     primary key that exists is skipped, and the statement still succeeds.
     */
    method InsertRow(row: Row, fragHash: Option<Bytes>) returns (inserted: bool)
      modifies this
      ensures inserted
      ensures rows == if fragHash.None? then old(rows) else WithRow(old(rows), row)
    {
      if fragHash.Some? && !HasRow(rows, row.pos) {
        var k := Below(rows, row.pos);
        rows := rows[..k] + [row] + rows[k..];
      }
      return true;
    }

    method WriteFragment(offset: nat, data: Bytes, sectionSize: nat) returns (pos: nat)
      requires sectionSize > 0
      modifies file
      ensures pos == WritePos(rows, offset, |old(file.content)|)
      ensures file.content == Spliced(old(file.content), pos, data)
    {
      var prev, next := Previous(rows, offset), Next(rows, offset);
      var posToWrite := 0;
      if prev.None? {
        posToWrite := 0;
      } else if next.None? {
        posToWrite := |file.content|;
      } else {
        posToWrite := next.value.storedPos;
      }
      pos := file.Write(posToWrite, data, sectionSize);
    }

    method MoveRows(curRow: Row, moveSize: nat)
      requires Sorted(rows)
      modifies this
      ensures rows == Moved(old(rows), Below(old(rows), curRow.pos + 1), curRow.storedPos, moveSize)
      decreases |rows| - Below(rows, curRow.pos + 1)
    {
      hide Moved;
      var nextFragment := Next(rows, curRow.pos);
      if nextFragment.None? {
        MovedNothing(rows, curRow.storedPos, moveSize);
        return;
      }
      var next := nextFragment.value;
      ghost var k, was := Below(rows, curRow.pos + 1), rows;
      UpdateStoredPos(next.pos, curRow.storedPos + moveSize);
      ghost var moved := next.(storedPos := curRow.storedPos + moveSize);
      OneMoved(was, k, moved, rows);
      MovedStep(was, k, curRow.storedPos, moveSize);
      assert Below(rows, next.pos + 1) == k + 1;
      MoveRows(next, moveSize);
    }

    /** UPDATE ... SET storedPos WHERE pos = p. */
    method UpdateStoredPos(p: nat, storedPos: nat)
      modifies this
      ensures rows == seq(|old(rows)|, i requires 0 <= i < |old(rows)| =>
                        if old(rows)[i].pos == p then old(rows)[i].(storedPos := storedPos) else old(rows)[i])
    {
      var t := rows;
      rows := seq(|t|, i requires 0 <= i < |t| => if t[i].pos == p then t[i].(storedPos := storedPos) else t[i]);
    }

    method InsertFragment(offset: nat, data: Bytes, sectionSize: nat) returns (inserted: bool)
      requires sectionSize > 0 && Sorted(rows)
      modifies this, file
      ensures inserted
      ensures rows == InsertedRows(old(rows), offset, |data|, |old(file.content)|)
      ensures file.content == Spliced(old(file.content), WritePos(old(rows), offset, |old(file.content)|), data)
    {
      ghost var was, fileSize := rows, |file.content|;
      var pos := WriteFragment(offset, data, sectionSize);
      assert rows == was;
      inserted := InsertAndMove(Row(offset, pos, |data|), calcHash(data), |data|);
      assert rows == InsertedRows(was, offset, |data|, fileSize);
    }

    /** insertFragment, once the bytes are written: the table's part. */
    method InsertAndMove(row: Row, fragHash: Bytes, moveSize: nat) returns (inserted: bool)
      requires Sorted(rows)
      modifies this
      ensures inserted
      ensures var t := WithRow(old(rows), row);
              rows == Moved(t, Below(t, row.pos + 1), row.storedPos, moveSize)
    {
      WithRowSorted(rows, row);
      inserted := InsertRow(row, Some(fragHash));
      MoveRows(row, moveSize);
    }

    /** The SELECT of applyChanges: the rows that reach into the range, in any order. */
    method SelectHit(pos: nat, n: nat) returns (order: seq<nat>)
      ensures Visits(order, rows, pos, n)
    {
      var todo := set i | 0 <= i < |rows| && Hit(rows[i], pos, n);
      order := [];
      while todo != {}
        invariant Hits(order, rows, pos, n)
        invariant forall i, j :: 0 <= i < j < |order| ==> order[i] != order[j]
        invariant forall i :: i in todo ==> 0 <= i < |rows| && Hit(rows[i], pos, n) && i !in order
        invariant forall i: nat :: i < |rows| && Hit(rows[i], pos, n) ==> i in order || i in todo
        decreases todo
      {
        var i :| i in todo;
        todo := todo - {i};
        order := order + [i];
      }
    }

    /**
     applyChanges on any table. Empty data is fatal in the source. None stands
     for the exception of a place that has wrapped around: `done` rows were
     applied before it.
     */
    method ApplyChanges(data: Bytes, pos: nat, sectionSize: nat)
      returns (r: Option<bool>, order: seq<nat>, ghost done: nat)
      requires data != [] && sectionSize > 0
      modifies file
      ensures Visits(order, rows, pos, |data|) && done <= |order|
      ensures AppliedAll(old(file.content), rows, order[..done], data, pos) == Some(file.content)
      ensures if r.Some? then r.value && done == |order|
              else done < |order| && Applied(file.content, rows[order[done]], data, pos).None?
      ensures Tiles(rows, old(file.content)) ==>
                r.Some? && file.content == Overwritten(old(file.content), pos, data) && Tiles(rows, file.content)
    {
      hide AppliedAll, Applied, Overwritten, Hit;
      ghost var f := file.content;
      order := SelectHit(pos, |data|);
      NothingApplied(f, rows, data, pos);
      assert order[..0] == [];
      if Tiles(rows, f) {
        TiledChangesApply(rows, f, order, data, pos);
      }
      for i := 0 to |order|
        invariant AppliedAll(f, rows, order[..i], data, pos) == Some(file.content)
      {
        AppliedOne(f, rows, order[..i + 1], data, pos);
        assert order[..i + 1][..i] == order[..i];
        var applied := ApplyToRow(rows[order[i]], data, pos, sectionSize);
        if !applied {
          TilesNeverWrap(rows, f, order, data, pos, i);
          return None, order, i;
        }
      }
      assert order[..|order|] == order;
      return Some(true), order, |order|;
    }

    /** The body of applyChanges' loop, with its three cases; false when it throws. */
    method ApplyToRow(r: Row, data: Bytes, pos: nat, sectionSize: nat) returns (applied: bool)
      requires sectionSize > 0 && Hit(r, pos, |data|)
      modifies file
      ensures applied == Applied(old(file.content), r, data, pos).Some?
      ensures file.content == if applied then Applied(old(file.content), r, data, pos).value else old(file.content)
    {
      hide Spliced, Removed;
      var endPos := pos + |data|;
      var fragposend := r.pos + r.size;
      var at: int, from, count := 0, 0, 0;
      if r.pos > pos && fragposend < endPos { // middle
        at, from, count := r.storedPos, r.pos - pos, r.size;
      } else if fragposend > endPos && r.pos > pos { // end
        at, from, count := r.storedPos, r.pos - pos, endPos - r.pos;
      } else { // begin
        at, from := pos - (r.pos - r.storedPos), 0;
        count := if |data| < fragposend - pos then |data| else fragposend - pos;
      }
      assert PatchOf(r, pos, |data|) == Patch(at, from, count);
      if at < 0 {
        return false;
      }
      ReplacePart(at, count, data[from..from + count], sectionSize);
      return true;
    }

    /** A removal and a write at one place. */
    method ReplacePart(at: nat, count: nat, part: Bytes, sectionSize: nat)
      requires sectionSize > 0
      modifies file
      ensures file.content == Spliced(Removed(old(file.content), at, count), at, part)
    {
      var removed := file.Remove(at, count, sectionSize);
      var written := file.Write(at, part, sectionSize);
    }

    /** removeFragment: false when no row starts at the offset. */
    method RemoveFragment(offset: nat, sectionSize: nat) returns (removed: bool)
      requires sectionSize > 0 && Sorted(rows)
      modifies this, file
      ensures removed == HasRow(old(rows), offset)
      ensures !removed ==> rows == old(rows) && file.content == old(file.content)
      ensures removed ==>
                var k := Below(old(rows), offset);
                && k < |old(rows)| && old(rows)[k].pos == offset
                && rows == old(rows)[..k] + old(rows)[k + 1..]
                && file.content == Removed(old(file.content), old(rows)[k].storedPos, old(rows)[k].size)
    {
      if !HasRow(rows, offset) {
        return false;
      }
      var k := Below(rows, offset);
      var frag := rows[k];
      rows := rows[..k] + rows[k + 1..];
      removed := file.Remove(frag.storedPos, frag.size, sectionSize);
    }
  }

  /** Updating by primary key changes the one row. */
  lemma OneMoved(was: seq<Row>, k: nat, row: Row, now: seq<Row>)
    requires Sorted(was) && k < |was| && row == was[k].(storedPos := row.storedPos) && |now| == |was|
    requires forall i :: 0 <= i < |was| ==>
               now[i] == if was[i].pos == was[k].pos then was[i].(storedPos := row.storedPos) else was[i]
    ensures now == was[k := row] && Sorted(now) && Below(now, row.pos + 1) == k + 1
  {
    forall i | 0 <= i < |was|
      ensures now[i] == was[k := row][i]
    {
      assert i < k ==> was[i].pos < was[k].pos;
      assert i > k ==> was[k].pos < was[i].pos;
    }
    BelowIs(now, row.pos + 1, k + 1);
  }

  lemma MovedNothing(rows: seq<Row>, curPos: nat, n: nat)
    ensures Moved(rows, |rows|, curPos, n) == rows
  {
  }

  lemma MovedStep(was: seq<Row>, k: nat, curPos: nat, n: nat)
    requires k < |was|
    ensures Moved(was[k := was[k].(storedPos := curPos + n)], k + 1, was[k].storedPos, n) == Moved(was, k, curPos, n)
  {
  }

  lemma WithRowSorted(rows: seq<Row>, row: Row)
    requires Sorted(rows)
    ensures Sorted(WithRow(rows, row))
    ensures !HasRow(rows, row.pos) ==> Below(WithRow(rows, row), row.pos + 1) == Below(rows, row.pos) + 1
  {
    if !HasRow(rows, row.pos) {
      BelowIs(WithRow(rows, row), row.pos + 1, Below(rows, row.pos) + 1);
    }
  }

  // ----- applyChanges -----

  lemma NothingApplied(f: Bytes, rows: seq<Row>, data: Bytes, pos: nat)
    ensures AppliedAll(f, rows, [], data, pos) == Some(f)
  {
  }

  lemma AppliedOne(f: Bytes, rows: seq<Row>, order: seq<nat>, data: Bytes, pos: nat)
    requires order != [] && Hits(order, rows, pos, |data|)
    ensures var g := AppliedAll(f, rows, order[..|order| - 1], data, pos);
            AppliedAll(f, rows, order, data, pos)
            == if g.None? then None else Applied(g.value, rows[order[|order| - 1]], data, pos)
  {
  }

  lemma TilesNeverWrap(rows: seq<Row>, f: Bytes, order: seq<nat>, data: Bytes, pos: nat, i: nat)
    requires Hits(order, rows, pos, |data|) && i < |order|
    ensures Tiles(rows, f) ==> AppliedAll(f, rows, order[..i + 1], data, pos).Some?
  {
    if Tiles(rows, f) {
      TilesApplied(rows, f, order[..i + 1], data, pos);
    }
  }
}
