/** The fragments of fetchFragments, delivered in order into an empty file through insertFragment. */
module Delivery {
  import opened Wrappers
  import opened Bytes
  import opened DiskFiles
  import opened FragmentTable
  import opened FragmentEdit
  import opened FragmentInsert
  import opened FragmentLayout
  import opened ArrivalOrder
  import opened FileCutter

  function Delivered(f: Bytes, section: nat, full: nat): Store
    requires f != [] && 0 < section <= full
  {
    InsertAll(Store([], []), Cut(f, 0, section, full))
  }

  /** A fragment behind all rows is appended, and the layout grows with it. */
  lemma AppendFragment(s: Store, p: (nat, Bytes))
    requires Good(s) && (s.rows != [] ==> s.rows[|s.rows| - 1].pos < p.0)
    ensures var t := Insert(s, p);
            && Good(t) && t.f == s.f + p.1
            && |t.rows| == |s.rows| + 1 && t.rows[|s.rows|].pos == p.0
  {
    BelowIs(s.rows, p.0, |s.rows|);
    InsertKeepsLayoutExactly(s.rows, s.f, p.0, p.1);
    InsertedIsPlaced(s.rows, s.f, p.0, |p.1|);
    assert s.f[..|s.f|] == s.f;
  }

  /** A fragment that repeats the last row's offset: with no row before that one it goes to the front. */
  lemma RepeatLastOffset(s: Store, p: (nat, Bytes))
    requires Good(s) && s.rows != [] && s.rows[|s.rows| - 1].pos == p.0 && p.1 != []
    ensures var t := Insert(s, p);
            !Good(t) && t.f == if |s.rows| == 1 then p.1 + s.f else s.f + p.1
  {
    var n := |s.rows|;
    BelowIs(s.rows, p.0, n - 1);
    BelowIs(s.rows, p.0 + 1, n);
    assert HasRow(s.rows, p.0);
    DuplicateKeepsLayoutExactly(s.rows, s.f, n - 1, p.1);
    assert s.f[..|s.f|] == s.f && s.f[0..] == s.f;
  }

  /** The store after full fragments up to position at. */
  ghost predicate Reached(s: Store, f: Bytes, at: nat) {
    && at <= |f| && Good(s) && s.f == f[..at]
    && (if at == 0 then s.rows == [] else s.rows != [] && s.rows[|s.rows| - 1].pos == at)
  }

  lemma LastFragment(s: Store, f: Bytes, at: nat, section: nat, full: nat)
    requires at < |f| && 0 < section <= full && |f| - at <= full && Reached(s, f, at)
    ensures var t := InsertAll(s, Cut(f, at, section, full));
            if |f| - at > section || at == 0 then Good(t) && t.f == f
            else !Good(t) && t.f == if |s.rows| == 1 then f[at..] + f[..at] else f
  {
    hide Insert, Layout;
    var p := (at + LastAdvance(|f| - at, section), f[at..]);
    assert Cut(f, at, section, full) == [p];
    assert [p][1..] == [];
    assert InsertAll(s, [p]) == Insert(s, p);
    LastAdvanceIsZero(|f| - at, section);
    assert f == f[..at] + f[at..];
    if |f| - at > section || at == 0 {
      AppendFragment(s, p);
    } else {
      RepeatLastOffset(s, p);
    }
  }

  lemma FullFragment(s: Store, f: Bytes, at: nat, section: nat, full: nat) returns (t: Store)
    requires 0 < section <= full && |f| - at > full && Reached(s, f, at)
    ensures t == Insert(s, (at + full, f[at..at + full]))
    ensures Reached(t, f, at + full) && |t.rows| == |s.rows| + 1
    ensures InsertAll(s, Cut(f, at, section, full)) == InsertAll(t, Cut(f, at + full, section, full))
  {
    hide Insert, Layout;
    var p := (at + full, f[at..at + full]);
    AppendFragment(s, p);
    t := Insert(s, p);
    assert f[..at] + f[at..at + full] == f[..at + full];
    var c := Cut(f, at, section, full);
    assert c[0] == p && c[1..] == Cut(f, at + full, section, full);
  }

  /** The rest of the delivery once a full fragment is in. */
  lemma {:induction false} DeliverFrom(s: Store, f: Bytes, at: nat, section: nat, full: nat) returns (t: Store)
    requires 0 < at < |f| && 0 < section <= full && Reached(s, f, at)
    ensures t == InsertAll(s, Cut(f, at, section, full))
    ensures t.f == if |f| - at <= section && |s.rows| == 1 then f[at..] + f[..at] else f
    ensures Good(t) <==> !TailIsOneSection(|f| - at, section, full)
    decreases |f| - at
  {
    hide Insert;
    if |f| - at > full {
      var u := FullFragment(s, f, at, section, full);
      t := DeliverFrom(u, f, at + full, section, full);
    } else {
      LastFragment(s, f, at, section, full);
      t := InsertAll(s, Cut(f, at, section, full));
    }
  }

  /**
   Delivery in order rebuilds the file, except when exactly one full fragment
   is followed by at most one section: then the second fragment ends up in
   front of the first. The table describes the file exactly when the Offsets
   are pairwise distinct.
   */
  lemma DeliveryExactly(f: Bytes, section: nat, full: nat)
    requires f != [] && 0 < section <= full
    ensures Delivered(f, section, full).f == (if full < |f| <= full + section then f[full..] + f[..full] else f)
    ensures Good(Delivered(f, section, full)) <==> Distinct(Cut(f, 0, section, full))
  {
    hide Insert;
    var s := Store([], []);
    assert Reached(s, f, 0);
    DistinctFrom(f, 0, section, full);
    if |f| > full {
      var t := FullFragment(s, f, 0, section, full);
      var u := DeliverFrom(t, f, full, section, full);
    } else {
      LastFragment(s, f, 0, section, full);
    }
  }

  /** Distinct Offsets are enough for the file to arrive whole. */
  lemma DistinctOffsetsRebuild(f: Bytes, section: nat, full: nat)
    requires f != [] && 0 < section <= full && Distinct(Cut(f, 0, section, full))
    ensures Delivered(f, section, full).f == f && Good(Delivered(f, section, full))
  {
    DeliveryExactly(f, section, full);
    DistinctFrom(f, 0, section, full);
  }

  /** By size alone: every file of n bytes is rebuilt if and only if n is outside (full, full + section]. */
  lemma RebuiltSizes(n: nat, section: nat, full: nat)
    requires n > 0 && 0 < section <= full
    ensures (forall f: Bytes :: |f| == n ==> Delivered(f, section, full).f == f) <==> !(full < n <= full + section)
  {
    forall f: Bytes | |f| == n
      ensures Delivered(f, section, full).f == (if full < |f| <= full + section then f[full..] + f[..full] else f)
    {
      DeliveryExactly(f, section, full);
    }
    if full < n <= full + section {
      var f: Bytes := [1] + seq(n - 1, _ => 0);
      assert Delivered(f, section, full).f[0] == f[full] == 0;
    }
  }

  // ----- Changing a delivered file -----

  ghost predicate AllShifted(s: Store) {
    Shifted(s.rows, s.f)
  }

  lemma AppendedRow(s: Store, p: (nat, Bytes))
    requires Good(s) && (s.rows != [] ==> s.rows[|s.rows| - 1].pos < p.0)
    ensures Insert(s, p).rows == s.rows + [Row(p.0, |s.f|, |p.1|)]
  {
    BelowIs(s.rows, p.0, |s.rows|);
    InsertedShape(s.rows, s.f, p.0, |p.1|);
    MovedNothing(s.rows + [Row(p.0, |s.f|, |p.1|)], |s.f|, |p.1|);
    assert s.rows[..|s.rows|] == s.rows && s.rows[|s.rows|..] == [];
  }

  /** A fragment behind all rows, and behind the place it is stored at, keeps the table shifted. */
  lemma AppendShifted(s: Store, p: (nat, Bytes))
    requires Good(s) && (s.rows != [] ==> s.rows[|s.rows| - 1].pos < p.0)
    requires AllShifted(s) && p.1 != [] && |s.f| < p.0
    ensures AllShifted(Insert(s, p))
  {
    hide Insert, Layout;
    AppendedRow(s, p);
    AppendFragment(s, p);
  }

  lemma RepeatShifted(s: Store, p: (nat, Bytes))
    requires Good(s) && s.rows != [] && s.rows[|s.rows| - 1].pos == p.0
    requires AllShifted(s)
    ensures AllShifted(Insert(s, p))
  {
    var n, t := |s.rows|, Insert(s, p);
    BelowIs(s.rows, p.0, n - 1);
    BelowIs(s.rows, p.0 + 1, n);
    assert HasRow(s.rows, p.0);
    assert t.rows == s.rows;
    assert |t.f| >= |s.f|;
  }

  lemma LastShifted(s: Store, f: Bytes, at: nat, section: nat, full: nat)
    requires at < |f| && 0 < section <= full && |f| - at <= full && Reached(s, f, at)
    requires AllShifted(s) && (at > 0 || |f| > section)
    ensures AllShifted(InsertAll(s, Cut(f, at, section, full)))
  {
    hide Insert, Layout, AllShifted;
    var p := (at + LastAdvance(|f| - at, section), f[at..]);
    assert Cut(f, at, section, full) == [p];
    assert [p][1..] == [];
    assert InsertAll(s, [p]) == Insert(s, p);
    LastAdvanceIsZero(|f| - at, section);
    if |f| - at > section {
      AppendShifted(s, p);
    } else {
      RepeatShifted(s, p);
    }
  }

  lemma {:induction false} ShiftedFrom(s: Store, f: Bytes, at: nat, section: nat, full: nat)
    requires at < |f| && 0 < section <= full && Reached(s, f, at)
    requires AllShifted(s) && (at > 0 || |f| > section)
    ensures AllShifted(InsertAll(s, Cut(f, at, section, full)))
    decreases |f| - at
  {
    hide Insert, AllShifted, Layout, InsertAll, Cut;
    if |f| - at > full {
      var t := FullFragment(s, f, at, section, full);
      AppendShifted(s, (at + full, f[at..at + full]));
      ShiftedFrom(t, f, at + full, section, full);
    } else {
      LastShifted(s, f, at, section, full);
    }
  }

  /** A delivered file of one section or less is one row at position 0. */
  lemma SmallFileTiles(f: Bytes, section: nat, full: nat)
    requires 0 < |f| <= section <= full
    ensures Tiles(Delivered(f, section, full).rows, f) && Delivered(f, section, full).f == f
  {
    hide Insert;
    var s: Store, p: (nat, Bytes) := Store([], []), (LastAdvance(|f|, section), f);
    DeliveryExactly(f, section, full);
    LastAdvanceIsZero(|f|, section);
    DistinctFrom(f, 0, section, full);
    assert f[0..] == f;
    assert Cut(f, 0, section, full) == [p] && [p][1..] == [];
    assert InsertAll(s, [p]) == Insert(s, p);
    AppendFragment(s, p);
    var rows := Insert(s, p).rows;
    assert InPlace(rows, 0);
  }

  /**
   The table of a delivered file tiles it exactly when it is one section or
   less. A larger file gets shifted rows: a change then applies exactly when it
   starts behind the file and hits no row.
   */
  lemma ChangesApplyExactly(f: Bytes, section: nat, full: nat, pos: nat, n: nat)
    requires f != [] && 0 < section <= full && n > 0
    ensures var d := Delivered(f, section, full);
            && (Tiles(d.rows, d.f) <==> |f| <= section)
            && (ChangesApply(d.rows, d.f, pos, n) <==> |f| <= section || (pos >= |f| && NoneHit(d.rows, pos, n)))
  {
    var d := Delivered(f, section, full);
    DeliveryExactly(f, section, full);
    if |f| <= section {
      SmallFileTiles(f, section, full);
      forall data: Bytes, order: seq<nat> | |data| == n && Visits(order, d.rows, pos, n)
        ensures AppliedAll(d.f, d.rows, order, data, pos) == Some(Overwritten(d.f, pos, data))
      {
        TiledChangesApply(d.rows, d.f, order, data, pos);
      }
    } else {
      assert Reached(Store([], []), f, 0);
      ShiftedFrom(Store([], []), f, 0, section, full);
      ShiftedChangesApplyExactly(d.rows, d.f, pos, n);
      ShiftedDoesNotTile(d.rows, d.f);
    }
  }

  lemma ShiftedDoesNotTile(rows: seq<Row>, f: Bytes)
    requires Shifted(rows, f) && f != []
    ensures !Tiles(rows, f)
  {
    if rows == [] {
      assert Sum(rows, 0) == 0;
    }
  }
}
