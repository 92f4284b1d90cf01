/**
 Fragments arriving one after the other. With the shift-each-row table update
 the outcome is the same for every order; insertFragment as written does the
 same with an arrival that finds only empty rows, but the last, behind it.
 */
module ArrivalOrder {
  import opened Bytes
  import opened DiskFiles
  import opened FragmentTable
  import opened FragmentInsert
  import opened FragmentLayout

  type Pieces = seq<(nat, Bytes)>

  datatype Store = Store(rows: seq<Row>, f: Bytes)

  /** insertFragment as written. */
  function Insert(s: Store, p: (nat, Bytes)): Store {
    Store(InsertedRows(s.rows, p.0, |p.1|, |s.f|), Spliced(s.f, WritePos(s.rows, p.0, |s.f|), p.1))
  }

  /** insertFragment with every later row shifted. */
  function Place(s: Store, p: (nat, Bytes)): Store {
    Store(Placed(s.rows, p.0, |p.1|), PlacedFile(s.rows, s.f, p.0, p.1))
  }

  function InsertAll(s: Store, pieces: Pieces): Store
    decreases |pieces|
  {
    if pieces == [] then s else InsertAll(Insert(s, pieces[0]), pieces[1..])
  }

  function PlaceAll(s: Store, pieces: Pieces): Store
    decreases |pieces|
  {
    if pieces == [] then s else PlaceAll(Place(s, pieces[0]), pieces[1..])
  }

  ghost predicate Good(s: Store) {
    Layout(s.rows, s.f)
  }

  /** What the store holds: the bytes at each offset. */
  ghost function Held(s: Store): map<nat, Bytes> {
    HeldUpTo(s, |s.rows|)
  }

  ghost function HeldUpTo(s: Store, k: nat): (m: map<nat, Bytes>)
    requires k <= |s.rows|
    ensures forall p :: p in m ==> HasRow(s.rows, p)
  {
    if k == 0 then map[] else HeldUpTo(s, k - 1)[s.rows[k - 1].pos := Fragment(s.rows[k - 1], s.f)]
  }

  lemma {:induction false} HeldKeys(s: Store, k: nat, p: nat)
    requires k <= |s.rows|
    ensures p in HeldUpTo(s, k) <==> exists i :: 0 <= i < k && s.rows[i].pos == p
  {
    hide Fragment;
    if k > 0 {
      HeldKeys(s, k - 1, p);
    }
  }

  lemma {:induction false} HeldValue(s: Store, k: nat, i: nat)
    requires Sorted(s.rows) && i < k <= |s.rows|
    ensures s.rows[i].pos in HeldUpTo(s, k) && HeldUpTo(s, k)[s.rows[i].pos] == Fragment(s.rows[i], s.f)
  {
    hide Fragment;
    if i < k - 1 {
      HeldValue(s, k - 1, i);
    }
  }

  lemma HeldAt(s: Store, k: nat, p: nat)
    requires Sorted(s.rows) && k <= |s.rows|
    ensures p in HeldUpTo(s, k) <==> exists i :: 0 <= i < k && s.rows[i].pos == p
    ensures forall i :: 0 <= i < k && s.rows[i].pos == p ==>
              p in HeldUpTo(s, k) && HeldUpTo(s, k)[p] == Fragment(s.rows[i], s.f)
  {
    hide Fragment, HeldUpTo;
    HeldKeys(s, k, p);
    forall i | 0 <= i < k && s.rows[i].pos == p
      ensures p in HeldUpTo(s, k) && HeldUpTo(s, k)[p] == Fragment(s.rows[i], s.f)
    {
      HeldValue(s, k, i);
    }
  }

  lemma GoodIsSorted(s: Store)
    requires Good(s)
    ensures Sorted(s.rows)
  {
  }

  lemma PlacedPositions(s: Store, p: (nat, Bytes), i: nat)
    requires i <= |s.rows|
    ensures var t, k := Placed(s.rows, p.0, |p.1|), Below(s.rows, p.0);
            && |t| == |s.rows| + 1
            && t[i].pos == if i < k then s.rows[i].pos else if i == k then p.0 else s.rows[i - 1].pos
  {
  }

  /** Row i after Place: an old row's piece or the new one. */
  lemma PlacedPiece(s: Store, p: (nat, Bytes), i: nat)
    requires Good(s) && !HasRow(s.rows, p.0) && i <= |s.rows|
    ensures var t, k := Place(s, p), Below(s.rows, p.0);
            && i < |t.rows|
            && (t.rows[i].pos, Fragment(t.rows[i], t.f))
            == (if i == k then p else var j := if i < k then i else i - 1; (s.rows[j].pos, Fragment(s.rows[j], s.f)))
  {
    hide Placed, PlacedFile, Layout, Below, Fragment;
    var t, k := Place(s, p), Below(s.rows, p.0);
    PlacedKeepsLayout(s.rows, s.f, p.0, p.1);
    PlacedPositions(s, p, i);
    assert Fragments(t.rows, t.f)[i]
        == if i < k then Fragments(s.rows, s.f)[i] else if i == k then p.1 else Fragments(s.rows, s.f)[i - 1];
  }

  lemma PlaceHoldsAt(s: Store, p: (nat, Bytes), q: nat)
    requires Good(s) && !HasRow(s.rows, p.0) && Good(Place(s, p))
    ensures q in Held(Place(s, p)) <==> q == p.0 || q in Held(s)
    ensures q in Held(Place(s, p)) ==> Held(Place(s, p))[q] == if q == p.0 then p.1 else Held(s)[q]
  {
    hide Placed, PlacedFile, Layout, Sorted, Fragment, HeldUpTo;
    var t, k := Place(s, p), Below(s.rows, p.0);
    PlacedPositions(s, p, k);
    GoodIsSorted(s);
    GoodIsSorted(t);
    HeldAt(s, |s.rows|, q);
    HeldAt(t, |t.rows|, q);
    if q == p.0 {
      PlacedPiece(s, p, k);
    } else if i :| 0 <= i < |s.rows| && s.rows[i].pos == q {
      PlacedPiece(s, p, if i < k then i else i + 1);
    } else if i :| 0 <= i < |t.rows| && t.rows[i].pos == q {
      PlacedPiece(s, p, i);
    }
  }

  lemma PlaceHolds(s: Store, p: (nat, Bytes))
    requires Good(s) && p.0 !in Held(s)
    ensures Good(Place(s, p)) && Held(Place(s, p)) == Held(s)[p.0 := p.1]
  {
    hide Placed, PlacedFile, Fragment, HeldUpTo;
    HeldAt(s, |s.rows|, p.0);
    PlacedKeepsLayout(s.rows, s.f, p.0, p.1);
    forall q: nat
      ensures q in Held(Place(s, p)) <==> q in Held(s)[p.0 := p.1]
      ensures q in Held(Place(s, p)) ==> Held(Place(s, p))[q] == Held(s)[p.0 := p.1][q]
    {
      PlaceHoldsAt(s, p, q);
    }
  }

  ghost function MapOf(pieces: Pieces): map<nat, Bytes> {
    if pieces == [] then map[] else MapOf(pieces[1..])[pieces[0].0 := pieces[0].1]
  }

  ghost predicate NewOffsets(s: Store, pieces: Pieces) {
    && (forall i :: 0 <= i < |pieces| ==> pieces[i].0 !in Held(s))
    && (forall i, j :: 0 <= i < j < |pieces| ==> pieces[i].0 != pieces[j].0)
  }

  lemma {:induction false} MapOfKeys(pieces: Pieces, p: nat)
    ensures p in MapOf(pieces) <==> exists i :: 0 <= i < |pieces| && pieces[i].0 == p
  {
    if pieces != [] {
      MapOfKeys(pieces[1..], p);
      if i :| 0 <= i < |pieces| && pieces[i].0 == p {
        assert i > 0 ==> pieces[1..][i - 1].0 == p;
      }
    }
  }

  lemma StillNew(s: Store, t: Store, pieces: Pieces)
    requires pieces != [] && NewOffsets(s, pieces) && Held(t) == Held(s)[pieces[0].0 := pieces[0].1]
    ensures NewOffsets(t, pieces[1..])
  {
    forall i | 0 <= i < |pieces[1..]|
      ensures pieces[1..][i].0 !in Held(t)
    {
      assert pieces[1..][i] == pieces[i + 1];
    }
  }

  /** Whatever the order of arrival, the store ends in a layout that holds exactly what arrived. */
  lemma {:induction false} AnyOrderKeepsLayout(s: Store, pieces: Pieces)
    requires Good(s) && NewOffsets(s, pieces)
    ensures Good(PlaceAll(s, pieces)) && Held(PlaceAll(s, pieces)) == Held(s) + MapOf(pieces)
    decreases |pieces|
  {
    if pieces == [] {
      assert Held(s) + map[] == Held(s);
    } else {
      var t, rest := Place(s, pieces[0]), pieces[1..];
      PlaceHolds(s, pieces[0]);
      StillNew(s, t, pieces);
      AnyOrderKeepsLayout(t, rest);
      FirstOfMap(Held(s), pieces);
    }
  }

  lemma FirstOfMap(m: map<nat, Bytes>, pieces: Pieces)
    requires pieces != [] && forall j :: 0 < j < |pieces| ==> pieces[0].0 != pieces[j].0
    ensures m[pieces[0].0 := pieces[0].1] + MapOf(pieces[1..]) == m + MapOf(pieces)
  {
    MapOfKeys(pieces[1..], pieces[0].0);
  }

  lemma {:induction false} SamePositions(a: seq<Row>, b: seq<Row>, i: nat)
    requires Sorted(a) && Sorted(b) && i < |a|
    requires forall p: nat :: HasRow(a, p) <==> HasRow(b, p)
    ensures i < |b| && forall j :: 0 <= j <= i ==> a[j].pos == b[j].pos
  {
    if i > 0 {
      SamePositions(a, b, i - 1);
    }
    assert HasRow(a, a[i].pos);
    var m :| 0 <= m < |b| && b[m].pos == a[i].pos;
    assert m >= i;
    assert HasRow(b, b[i].pos);
    var l :| 0 <= l < |a| && a[l].pos == b[i].pos;
    assert l >= i;
  }

  /** A good store is determined by what it holds. */
  lemma HeldDeterminesStore(s: Store, t: Store)
    requires Good(s) && Good(t) && Held(s) == Held(t)
    ensures s == t
  {
    hide HeldUpTo, Sum;
    forall p: nat
      ensures HasRow(s.rows, p) <==> HasRow(t.rows, p)
    {
      HeldAt(s, |s.rows|, p);
      HeldAt(t, |t.rows|, p);
    }
    if s.rows != [] { SamePositions(s.rows, t.rows, |s.rows| - 1); }
    if t.rows != [] { SamePositions(t.rows, s.rows, |t.rows| - 1); }
    forall i | 0 <= i < |s.rows|
      ensures Fragment(s.rows[i], s.f) == Fragment(t.rows[i], t.f) && s.rows[i].size == t.rows[i].size
    {
      HeldAt(s, |s.rows|, s.rows[i].pos);
      HeldAt(t, |t.rows|, s.rows[i].pos);
      FragmentRange(s.rows, s.f, i);
      FragmentRange(t.rows, t.f, i);
    }
    assert Fragments(s.rows, s.f) == Fragments(t.rows, t.f);
    FileIsItsFragments(s.rows, s.f);
    FileIsItsFragments(t.rows, t.f);
    LayoutIsUnique(s.rows, t.rows, s.f);
  }

  /** Two orders of arrival of the same pieces end in the same table and file. */
  lemma OrderDoesNotMatter(s: Store, a: Pieces, b: Pieces)
    requires Good(s) && NewOffsets(s, a) && NewOffsets(s, b) && MapOf(a) == MapOf(b)
    ensures PlaceAll(s, a) == PlaceAll(s, b)
  {
    AnyOrderKeepsLayout(s, a);
    AnyOrderKeepsLayout(s, b);
    HeldDeterminesStore(PlaceAll(s, a), PlaceAll(s, b));
  }

  /** Every arrival finds only empty rows, but the last, behind it. */
  ghost predicate NothingMuchBehind(s: Store, pieces: Pieces)
    decreases |pieces|
  {
    pieces != [] ==> LaterRowsEmpty(s.rows, pieces[0].0) && NothingMuchBehind(Place(s, pieces[0]), pieces[1..])
  }

  /** The code as written treats such an arrival as the shift-each-row version does. */
  lemma OneAgrees(s: Store, pieces: Pieces)
    requires pieces != [] && Good(s) && NewOffsets(s, pieces) && LaterRowsEmpty(s.rows, pieces[0].0)
    ensures var t := Place(s, pieces[0]);
            Insert(s, pieces[0]) == t && Good(t) && NewOffsets(t, pieces[1..])
  {
    var p := pieces[0];
    HeldAt(s, |s.rows|, p.0);
    InsertedIsPlaced(s.rows, s.f, p.0, |p.1|);
    WritePosIsPlace(s.rows, s.f, p.0);
    PlaceHolds(s, p);
    StillNew(s, Place(s, p), pieces);
  }
}
