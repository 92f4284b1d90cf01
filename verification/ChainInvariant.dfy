/** What every tick keeps: the shape of the chain, the genesis spacing and the ledger. */
module ChainInvariant {
  import opened Bytes
  import opened Blocks
  import opened Ledger
  import opened ChainModel
  import Framing

  // ----- The shape of the chain -----

  /** Block i has id i and carries its predecessor's hash; a data block never sits on a dummy block. */
  ghost predicate Placed(blocks: seq<Block>, i: nat)
    requires i < |blocks|
  {
    && blocks[i].index == i && blocks[i].hash != []
    && blocks[i].kind in {DataBlock, DummyBlock, GenesisBlock}
    && (i > 0 ==> blocks[i].prevHash == blocks[i - 1].hash)
    && (i > 0 && blocks[i].kind == DataBlock ==> blocks[i - 1].kind != DummyBlock)
  }

  /** A later genesis block follows the last one before it within 101 ids, so with at most 100 blocks between, and names its hash. */
  ghost predicate Spaced(blocks: seq<Block>, j: nat)
    requires Rooted(blocks) && 0 < j < |blocks|
  {
    blocks[j].kind == GenesisBlock ==>
      && j - LastGenesis(blocks, j) <= GENESIS_EVERY + 1
      && blocks[j].prevGenHash == blocks[LastGenesis(blocks, j)].hash
  }

  ghost predicate Shape(blocks: seq<Block>) {
    && Rooted(blocks)
    && (forall i :: 0 <= i < |blocks| ==> Placed(blocks, i))
    && (forall j :: 0 < j < |blocks| ==> Spaced(blocks, j))
  }

  function Height(blocks: seq<Block>): nat
    requires Rooted(blocks)
  {
    |blocks| - 1 - LastGenesis(blocks, |blocks|)
  }

  /** The tip is at most blocksFromLastGenesis above the last genesis block, and that is below 100. */
  ghost predicate Counted(s: Chain)
    requires Rooted(s.blocks)
  {
    Height(s.blocks) <= s.sinceGenesis < GENESIS_EVERY
  }

  lemma {:induction false} LastGenesisOfPrefix(a: seq<Block>, b: seq<Block>, n: nat)
    requires Rooted(a) && Rooted(b) && 0 < n <= |a| && n <= |b|
    requires forall i :: 0 <= i < n ==> a[i] == b[i]
    ensures LastGenesis(a, n) == LastGenesis(b, n)
  {
    if a[n - 1].kind != GenesisBlock {
      LastGenesisOfPrefix(a, b, n - 1);
    }
  }

  lemma PrefixSpaced(a: seq<Block>, b: seq<Block>, j: nat)
    requires Rooted(a) && Rooted(b) && 0 < j < |a| && j < |b|
    requires forall i :: 0 <= i <= j ==> a[i] == b[i]
    ensures Spaced(a, j) <==> Spaced(b, j)
  {
    LastGenesisOfPrefix(a, b, j);
  }

  lemma PrefixShape(blocks: seq<Block>, k: nat)
    requires Shape(blocks) && 0 < k <= |blocks|
    ensures Shape(blocks[..k])
  {
    var p := blocks[..k];
    forall i | 0 <= i < k
      ensures Placed(p, i)
    {
      assert Placed(blocks, i);
    }
    forall j | 0 < j < k
      ensures Spaced(p, j)
    {
      assert Spaced(blocks, j);
      PrefixSpaced(p, blocks, j);
    }
  }

  /** A block that may follow. */
  ghost predicate Follows(blocks: seq<Block>, b: Block)
    requires Rooted(blocks)
  {
    && b.index == |blocks| && b.prevHash == Last(blocks).hash && b.hash != []
    && b.kind in {DataBlock, DummyBlock, GenesisBlock}
    && (b.kind == DataBlock ==> Last(blocks).kind != DummyBlock)
    && (b.kind == GenesisBlock ==>
          Height(blocks) <= GENESIS_EVERY && b.prevGenHash == blocks[LastGenesis(blocks, |blocks|)].hash)
  }

  lemma AppendKeepsShape(blocks: seq<Block>, b: Block)
    requires Shape(blocks) && Follows(blocks, b)
    ensures Shape(blocks + [b])
    ensures Height(blocks + [b]) == if b.kind == GenesisBlock then 0 else Height(blocks) + 1
  {
    var n, t := |blocks|, blocks + [b];
    forall i | 0 <= i < |t|
      ensures Placed(t, i)
    {
      if i < n {
        assert Placed(blocks, i);
      }
    }
    LastGenesisOfPrefix(t, blocks, n);
    forall j | 0 < j < |t|
      ensures Spaced(t, j)
    {
      if j < n {
        assert Spaced(blocks, j);
        PrefixSpaced(t, blocks, j);
      }
    }
  }

  lemma SignedBlock(c: Codec, b: Block)
    requires c.Faithful()
    ensures Signed(c, b) == b.(hash := c.hash(DataForHash(c, b))) && Signed(c, b).hash != []
  {
  }

  lemma GenesisFollows(c: Codec, blocks: seq<Block>, rows: seq<CacheRow>)
    requires c.Faithful() && Shape(blocks) && Height(blocks) <= GENESIS_EVERY
    ensures Follows(blocks, GenesisAfter(c, blocks, rows)) && GenesisAfter(c, blocks, rows).kind == GenesisBlock
  {
    hide Signed, LastGenesis;
    assert Placed(blocks, |blocks| - 1);
    SignedBlock(c, NextBlock(c, [], Last(blocks)).(
      kind := GenesisBlock,
      data := Framing.AddedData([], RowTexts(c, rows)),
      prevGenHash := blocks[LastGenesis(blocks, |blocks|)].hash));
  }

  /** Adding a fitting block keeps the shape and the count, genesis block or not. */
  lemma AddBlockKeepsShape(c: Codec, s: Chain, b: Block)
    requires c.Faithful() && Shape(s.blocks) && Counted(s) && Follows(s.blocks, b) && b.kind != GenesisBlock
    ensures Shape(AddBlock(c, s, b).blocks) && Counted(AddBlock(c, s, b))
  {
    hide Shape, Follows, GenesisAfter, BookedAll, PayloadTransactions;
    var blocks := s.blocks + [b];
    AppendKeepsShape(s.blocks, b);
    if s.sinceGenesis + 1 == GENESIS_EVERY {
      var cache := if b.kind == DataBlock then BookedAll(c, s.cache, PayloadTransactions(c, b.data)) else s.cache;
      GenesisFollows(c, blocks, cache);
      AppendKeepsShape(blocks, GenesisAfter(c, blocks, cache));
    }
  }

  lemma {:induction false} DummiesAreNotGenesis(blocks: seq<Block>, k: nat, n: nat)
    requires Rooted(blocks) && 0 < k <= n <= |blocks|
    requires forall i :: k <= i < n ==> blocks[i].kind == DummyBlock
    ensures LastGenesis(blocks, n) == LastGenesis(blocks, k)
  {
    if k < n {
      DummiesAreNotGenesis(blocks, k, n - 1);
    }
  }

  lemma StrippedKeepsShape(s: Chain)
    requires Shape(s.blocks) && Counted(s)
    ensures Shape(Stripped(s).blocks) && Counted(Stripped(s)) && Last(Stripped(s).blocks).kind != DummyBlock
  {
    var k := RealLength(s.blocks, |s.blocks|);
    PrefixShape(s.blocks, k);
    DummiesAreNotGenesis(s.blocks, k, |s.blocks|);
    LastGenesisOfPrefix(s.blocks[..k], s.blocks, k);
  }

  lemma DummyFollows(c: Codec, blocks: seq<Block>)
    requires c.Faithful() && Shape(blocks)
    ensures Follows(blocks, DummyAfter(c, blocks)) && DummyAfter(c, blocks).kind == DummyBlock
  {
    hide Signed, LastGenesis;
    assert Placed(blocks, |blocks| - 1);
    var lastReal := blocks[RealLength(blocks, |blocks|) - 1];
    SignedBlock(c, NextBlock(c, IndexText(lastReal.index), Last(blocks)).(kind := DummyBlock));
  }

  lemma DataFollows(c: Codec, blocks: seq<Block>, pending: seq<Transaction>)
    requires c.Faithful() && Shape(blocks) && Last(blocks).kind != DummyBlock
    ensures var b := DataAfter(c, blocks, pending);
            Follows(blocks, b) && b.kind == DataBlock && b.data == ConvertTxs(c, pending)
  {
    hide Signed, LastGenesis;
    assert Placed(blocks, |blocks| - 1);
    SignedBlock(c, NextBlock(c, ConvertTxs(c, pending), Last(blocks)));
  }

  lemma MakeBlockKeepsShape(c: Codec, s: Chain, pending: seq<Transaction>)
    requires c.Faithful() && Shape(s.blocks) && Counted(s)
    ensures Shape(MakeBlock(c, s, pending).blocks) && Counted(MakeBlock(c, s, pending))
  {
    assert Rooted(s.blocks);
    hide Shape, Follows, AddBlock, DummyAfter, DataAfter, Stripped, Counted;
    if pending == [] {
      DummyFollows(c, s.blocks);
      AddBlockKeepsShape(c, s, DummyAfter(c, s.blocks));
    } else {
      var u := Stripped(s);
      StrippedKeepsShape(s);
      DataFollows(c, u.blocks, pending);
      AddBlockKeepsShape(c, u, DataAfter(c, u.blocks, pending));
    }
  }

  lemma StartHasShape(c: Codec)
    requires c.Faithful()
    ensures Shape(Start(c).blocks) && Counted(Start(c))
  {
  }
}
