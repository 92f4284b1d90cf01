/**
 The Fragments table of one stored file and what it says about the file's
 bytes. The primary key pos orders the table, so it is a sequence of rows with
 strictly growing pos.
 */
module FragmentTable {
  import opened Wrappers
  import opened Bytes

  datatype Row = Row(pos: nat, storedPos: nat, size: nat)

  ghost predicate Sorted(rows: seq<Row>) {
    forall i, j :: 0 <= i < j < |rows| ==> rows[i].pos < rows[j].pos
  }

  /** The first index, from i on, whose row has pos >= p. */
  function Scan(rows: seq<Row>, p: nat, i: nat): (k: nat)
    requires i <= |rows|
    ensures i <= k <= |rows|
    ensures forall j :: i <= j < k ==> rows[j].pos < p
    ensures k < |rows| ==> p <= rows[k].pos
    decreases |rows| - i
  {
    if i == |rows| || p <= rows[i].pos then i else Scan(rows, p, i + 1)
  }

  /** In a sorted table, the number of rows with pos < p. */
  function Below(rows: seq<Row>, p: nat): (k: nat)
    ensures k <= |rows|
  {
    Scan(rows, p, 0)
  }

  lemma BelowIs(rows: seq<Row>, p: nat, k: nat)
    requires Sorted(rows) && k <= |rows|
    requires k > 0 ==> rows[k - 1].pos < p
    requires k < |rows| ==> p <= rows[k].pos
    ensures Below(rows, p) == k
  {
  }

  predicate HasRow(rows: seq<Row>, p: nat) {
    exists i :: 0 <= i < |rows| && rows[i].pos == p
  }

  /** The row with the largest pos < p. */
  function Previous(rows: seq<Row>, p: nat): Option<Row> {
    var k := Below(rows, p);
    if k == 0 then None else Some(rows[k - 1])
  }

  /** The row with the smallest pos > p. */
  function Next(rows: seq<Row>, p: nat): Option<Row> {
    var k := Below(rows, p + 1);
    if k == |rows| then None else Some(rows[k])
  }

  // ----- The layout -----

  /** The sizes of the first k rows, added up. */
  function Sum(rows: seq<Row>, k: nat): nat
    requires k <= |rows|
  {
    if k == 0 then 0 else Sum(rows, k - 1) + rows[k - 1].size
  }

  /** Row i says where its bytes are: behind those of all rows before it. */
  predicate InPlace(rows: seq<Row>, i: nat)
    requires i < |rows|
  {
    rows[i].storedPos == Sum(rows, i)
  }

  /** Every row is in place, and together the rows are the whole file. */
  ghost predicate Layout(rows: seq<Row>, f: Bytes) {
    && Sorted(rows)
    && (forall i :: 0 <= i < |rows| ==> InPlace(rows, i))
    && Sum(rows, |rows|) == |f|
  }

  lemma {:induction false} SumMonotone(rows: seq<Row>, i: nat, j: nat)
    requires i <= j <= |rows|
    ensures Sum(rows, i) <= Sum(rows, j)
    decreases j - i
  {
    if i < j {
      SumMonotone(rows, i, j - 1);
    }
  }

  lemma {:induction false} SumOfSizes(a: seq<Row>, b: seq<Row>, k: nat)
    requires k <= |a| && k <= |b| && forall i :: 0 <= i < k ==> a[i].size == b[i].size
    ensures Sum(a, k) == Sum(b, k)
  {
    if k > 0 {
      SumOfSizes(a, b, k - 1);
    }
  }

  /** The bytes a row stands for. */
  function Fragment(row: Row, f: Bytes): Bytes {
    if row.storedPos + row.size <= |f| then f[row.storedPos..row.storedPos + row.size] else []
  }

  function Fragments(rows: seq<Row>, f: Bytes): (r: seq<Bytes>)
    ensures |r| == |rows|
  {
    seq(|rows|, i requires 0 <= i < |rows| => Fragment(rows[i], f))
  }

  lemma FragmentRange(rows: seq<Row>, f: Bytes, i: nat)
    requires Layout(rows, f) && i < |rows|
    ensures rows[i].storedPos == Sum(rows, i) && rows[i].storedPos + rows[i].size == Sum(rows, i + 1) <= |f|
    ensures Fragment(rows[i], f) == f[Sum(rows, i)..Sum(rows, i + 1)]
  {
    assert InPlace(rows, i);
    SumMonotone(rows, i + 1, |rows|);
  }

  lemma ConcatSlices(parts: seq<Bytes>, k: nat, f: Bytes, lo: nat, hi: nat)
    requires k < |parts| && lo <= hi <= |f|
    requires Concat(parts[..k]) == f[..lo] && parts[k] == f[lo..hi]
    ensures Concat(parts[..k + 1]) == f[..hi]
  {
    assert parts[..k + 1] == parts[..k] + [parts[k]];
    ConcatAppend(parts[..k], [parts[k]]);
    ConcatOne(parts[k]);
  }

  lemma {:induction false} FragmentsJoinUpTo(rows: seq<Row>, f: Bytes, k: nat)
    requires Layout(rows, f) && k <= |rows|
    ensures Sum(rows, k) <= |f| && Concat(Fragments(rows, f)[..k]) == f[..Sum(rows, k)]
  {
    if k > 0 {
      FragmentsJoinUpTo(rows, f, k - 1);
      FragmentRange(rows, f, k - 1);
      ConcatSlices(Fragments(rows, f), k - 1, f, Sum(rows, k - 1), Sum(rows, k));
    }
  }

  /** In a layout the file is its fragments, joined in pos order. */
  lemma FileIsItsFragments(rows: seq<Row>, f: Bytes)
    requires Layout(rows, f)
    ensures Concat(Fragments(rows, f)) == f
  {
    FragmentsJoinUpTo(rows, f, |rows|);
    assert Fragments(rows, f)[..|rows|] == Fragments(rows, f);
  }

  /** The rows tile the file, and each is stored at its own position. */
  ghost predicate Tiles(rows: seq<Row>, f: Bytes) {
    Layout(rows, f) && forall i :: 0 <= i < |rows| ==> rows[i].pos == rows[i].storedPos
  }

  lemma TileRange(rows: seq<Row>, f: Bytes, i: nat)
    requires Tiles(rows, f) && i < |rows|
    ensures rows[i].pos == rows[i].storedPos == Sum(rows, i)
    ensures rows[i].pos + rows[i].size == Sum(rows, i + 1) <= |f|
  {
    FragmentRange(rows, f, i);
  }

  /** Every byte before the end of the first k rows lies in one of them. */
  lemma {:induction false} TilesCover(rows: seq<Row>, f: Bytes, k: nat, b: nat) returns (i: nat)
    requires Tiles(rows, f) && k <= |rows| && b < Sum(rows, k)
    ensures i < k && rows[i].pos <= b < rows[i].pos + rows[i].size
  {
    TileRange(rows, f, k - 1);
    if b < Sum(rows, k - 1) {
      i := TilesCover(rows, f, k - 1, b);
    } else {
      i := k - 1;
    }
  }
}
