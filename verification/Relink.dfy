/** Step 3 of mergeBlockWithLocal and mergeGenesisBlockWithLocal: the blocks above a merged one are linked anew. */
module Relink {
  import opened Bytes
  import opened Blocks

  /** A block moved onto a new predecessor: retyped and signed again. */
  function Moved(c: Codec, b: Block, newHash: Bytes, kind: Kind): Block {
    Signed(c, b.(prevHash := newHash, kind := kind))
  }

  function Relinked(c: Codec, blocks: seq<Block>, oldHash: Bytes, newHash: Bytes, kind: Kind): (r: seq<Block>)
    ensures |r| == |blocks|
  {
    if blocks == [] then []
    else
      var b := blocks[0];
      if b.prevHash == oldHash then
        var m := Moved(c, b, newHash, kind);
        [m] + Relinked(c, blocks[1..], b.hash, m.hash, kind)
      else [b] + Relinked(c, blocks[1..], oldHash, newHash, kind)
  }

  method RelinkBlocks(c: Codec, blocks: seq<Block>, merged: Block, existed: Block, kind: Kind)
    returns (tmpBlocks: seq<Block>)
    ensures tmpBlocks == Relinked(c, blocks, existed.hash, merged.hash, kind)
  {
    hide Signed, Relinked;
    tmpBlocks := blocks;
    var newHash, oldHash := merged.hash, existed.hash;
    assert tmpBlocks[..0] + Relinked(c, blocks[0..], oldHash, newHash, kind)
        == Relinked(c, blocks, existed.hash, merged.hash, kind) by {
      assert blocks[0..] == blocks;
    }
    for i := 0 to |tmpBlocks|
      invariant |tmpBlocks| == |blocks| && tmpBlocks[i..] == blocks[i..]
      invariant tmpBlocks[..i] + Relinked(c, blocks[i..], oldHash, newHash, kind)
             == Relinked(c, blocks, existed.hash, merged.hash, kind)
    {
      var b := tmpBlocks[i];
      assert b == tmpBlocks[i..][0] == blocks[i..][0];
      ghost var done := tmpBlocks[..i];
      RelinkOne(c, done, blocks[i..], oldHash, newHash, kind);
      assert blocks[i..][1..] == blocks[i + 1..] && tmpBlocks[i..][1..] == tmpBlocks[i + 1..];
      if b.prevHash == oldHash {
        oldHash := b.hash;
        b := Signed(c, b.(prevHash := newHash, kind := kind));
        newHash := b.hash;
        tmpBlocks := tmpBlocks[i := b];
      }
      assert tmpBlocks[..i + 1] == done + [b];
    }
    assert tmpBlocks[..|tmpBlocks|] == tmpBlocks;
    NothingToRelink(c, oldHash, newHash, kind);
  }

  lemma NothingToRelink(c: Codec, oldHash: Bytes, newHash: Bytes, kind: Kind)
    ensures Relinked(c, [], oldHash, newHash, kind) == []
  {
  }

  lemma RelinkOne(c: Codec, done: seq<Block>, rest: seq<Block>, oldHash: Bytes, newHash: Bytes, kind: Kind)
    requires rest != []
    ensures var b, m := rest[0], Moved(c, rest[0], newHash, kind);
            done + Relinked(c, rest, oldHash, newHash, kind)
            == if b.prevHash == oldHash then done + [m] + Relinked(c, rest[1..], b.hash, m.hash, kind)
               else done + [b] + Relinked(c, rest[1..], oldHash, newHash, kind)
  {
    hide Moved;
  }

  /** The hash of the block before the i-th; h for the first. */
  function HashBefore(blocks: seq<Block>, i: nat, h: Bytes): Bytes
    requires i < |blocks|
  {
    if i == 0 then h else blocks[i - 1].hash
  }

  /** Each block carries the hash of the one before it; the first carries h. */
  ghost predicate LinkedFrom(blocks: seq<Block>, h: Bytes) {
    forall i :: 0 <= i < |blocks| ==> blocks[i].prevHash == HashBefore(blocks, i, h)
  }

  /** Only links, kinds and hashes differ. */
  ghost predicate SamePayload(a: seq<Block>, b: seq<Block>) {
    |a| == |b| && forall i :: 0 <= i < |a| ==>
      a[i].index == b[i].index && a[i].data == b[i].data && a[i].prevGenHash == b[i].prevGenHash
  }

  /** Every block of r is the run's block moved onto the one before it in r. */
  ghost predicate AllMoved(c: Codec, r: seq<Block>, run: seq<Block>, newHash: Bytes, kind: Kind) {
    |r| == |run| && forall i :: 0 <= i < |r| ==> r[i] == Moved(c, run[i], HashBefore(r, i, newHash), kind)
  }

  lemma {:induction false} RunIsMoved(c: Codec, run: seq<Block>, oldHash: Bytes, newHash: Bytes, kind: Kind)
    requires LinkedFrom(run, oldHash)
    ensures AllMoved(c, Relinked(c, run, oldHash, newHash, kind), run, newHash, kind)
    decreases |run|
  {
    hide Moved, Relinked;
    if run != [] {
      var m, rest := Moved(c, run[0], newHash, kind), run[1..];
      RestLinked(run, oldHash);
      RunIsMoved(c, rest, run[0].hash, m.hash, kind);
      StepRelinked(c, run, oldHash, newHash, kind);
    }
  }

  lemma RestLinked(run: seq<Block>, h: Bytes)
    requires run != [] && LinkedFrom(run, h)
    ensures LinkedFrom(run[1..], run[0].hash)
  {
    forall i | 0 <= i < |run[1..]|
      ensures run[1..][i].prevHash == HashBefore(run[1..], i, run[0].hash)
    {
      assert run[1..][i] == run[i + 1];
    }
  }

  /** Every block's hash is that of its own contents. */
  ghost predicate AllSigned(c: Codec, r: seq<Block>) {
    forall i :: 0 <= i < |r| ==> r[i].hash == c.hash(DataForHash(c, r[i]))
  }

  lemma MovedIsSigned(c: Codec, b: Block, newHash: Bytes, kind: Kind)
    requires c.Faithful()
    ensures Moved(c, b, newHash, kind).hash == c.hash(DataForHash(c, Moved(c, b, newHash, kind)))
  {
    var m := b.(prevHash := newHash, kind := kind);
    assert DataForHash(c, m.(hash := c.hash(DataForHash(c, m)))) == DataForHash(c, m);
  }

  /** A run linked from the old hash becomes one linked from the new hash. */
  lemma RunIsRelinked(c: Codec, run: seq<Block>, oldHash: Bytes, newHash: Bytes, kind: Kind)
    requires LinkedFrom(run, oldHash)
    ensures var r := Relinked(c, run, oldHash, newHash, kind);
            && AllMoved(c, r, run, newHash, kind) && LinkedFrom(r, newHash) && SamePayload(r, run)
            && (c.Faithful() ==> AllSigned(c, r))
            && forall i :: 0 <= i < |r| ==> r[i].kind == kind
  {
    hide Moved, Relinked;
    var r := Relinked(c, run, oldHash, newHash, kind);
    RunIsMoved(c, run, oldHash, newHash, kind);
    forall i | 0 <= i < |r|
      ensures && r[i].prevHash == HashBefore(r, i, newHash) && r[i].kind == kind
              && r[i].index == run[i].index && r[i].data == run[i].data && r[i].prevGenHash == run[i].prevGenHash
    {
      MovedKeeps(c, run[i], HashBefore(r, i, newHash), kind);
    }
    if c.Faithful() {
      forall i | 0 <= i < |r|
        ensures r[i].hash == c.hash(DataForHash(c, r[i]))
      {
        MovedIsSigned(c, run[i], HashBefore(r, i, newHash), kind);
      }
    }
  }

  lemma MovedKeeps(c: Codec, b: Block, newHash: Bytes, kind: Kind)
    ensures var m := Moved(c, b, newHash, kind);
            && m.prevHash == newHash && m.kind == kind
            && m.index == b.index && m.data == b.data && m.prevGenHash == b.prevGenHash
  {
  }

  lemma StepRelinked(c: Codec, run: seq<Block>, oldHash: Bytes, newHash: Bytes, kind: Kind)
    requires run != [] && run[0].prevHash == oldHash
    ensures var m, rest := Moved(c, run[0], newHash, kind), run[1..];
            var r, q := Relinked(c, run, oldHash, newHash, kind), Relinked(c, rest, run[0].hash, m.hash, kind);
            r[0] == m && forall i :: 0 < i < |r| ==> r[i] == q[i - 1] && run[i] == rest[i - 1]
  {
    hide Moved;
  }

  /**
   The merge: the collected blocks start with the replaced one, which stays as
   it is unless it carries its own hash; all blocks above it end up linked from
   the merged block to the tip, with ids and payloads unchanged.
   */
  lemma MergeRelinks(c: Codec, existed: Block, merged: Block, above: seq<Block>, kind: Kind)
    requires LinkedFrom(above, existed.hash) && existed.prevHash != existed.hash
    ensures var r := Relinked(c, [existed] + above, existed.hash, merged.hash, kind);
            && r[0] == existed
            && LinkedFrom(r[1..], merged.hash) && SamePayload(r[1..], above)
            && (c.Faithful() ==> AllSigned(c, r[1..]))
            && forall i :: 0 < i < |r| ==> r[i].kind == kind
  {
    hide Moved;
    assert ([existed] + above)[1..] == above;
    RunIsRelinked(c, above, existed.hash, merged.hash, kind);
    assert Relinked(c, [existed] + above, existed.hash, merged.hash, kind)
        == [existed] + Relinked(c, above, existed.hash, merged.hash, kind);
  }

  /** If it does carry its own hash, it is moved itself, and the others are linked from its new hash. */
  lemma MergeOfSelfLinked(c: Codec, existed: Block, merged: Block, above: seq<Block>, kind: Kind)
    requires LinkedFrom(above, existed.hash) && existed.prevHash == existed.hash
    ensures var r := Relinked(c, [existed] + above, existed.hash, merged.hash, kind);
            r[0] == Moved(c, existed, merged.hash, kind) && LinkedFrom(r, merged.hash)
  {
    hide Moved, Relinked;
    var run := [existed] + above;
    forall i | 0 <= i < |run|
      ensures run[i].prevHash == HashBefore(run, i, existed.hash)
    {
      if i > 0 {
        assert run[i] == above[i - 1];
        assert above[i - 1].prevHash == HashBefore(above, i - 1, existed.hash);
      }
    }
    RunIsRelinked(c, run, existed.hash, merged.hash, kind);
  }

  /** After a merge a block's hash no longer depends on its transactions: two payloads at one index hash alike. */
  lemma MergedHashIgnoresPayload(c: Codec, a: Block, b: Block, h: Bytes)
    requires c.Faithful() && a.index == b.index
    ensures Moved(c, a, h, MergeBlock).hash == Moved(c, b, h, MergeBlock).hash
  {
  }
}
