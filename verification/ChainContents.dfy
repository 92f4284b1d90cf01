/** What the stored blocks say, over whole runs: their hashes, what dummy blocks point at, and the genesis rows. */
module ChainContents {
  import opened Bytes
  import opened Blocks
  import opened Ledger
  import opened ChainModel
  import opened ChainInvariant
  import opened ChainRuns
  import Framing

  /** The hash is that of the block's own index and transactions; a dummy block names the last real block below it. */
  ghost predicate Genuine(c: Codec, blocks: seq<Block>, i: nat)
    requires i < |blocks|
  {
    && blocks[i].hash == c.hash(DataForHash(c, blocks[i]))
    && (blocks[i].kind == DummyBlock ==> RealLength(blocks, i) > 0 && blocks[i].data == IndexText(RealLength(blocks, i) - 1))
  }

  /** The payloads of the genesis blocks above block 0, among the first n. */
  function GenesisPayloads(blocks: seq<Block>, n: nat): seq<Bytes>
    requires n <= |blocks|
  {
    if n <= 1 then []
    else GenesisPayloads(blocks, n - 1) + (if blocks[n - 1].kind == GenesisBlock then [blocks[n - 1].data] else [])
  }

  function RowPayload(c: Codec, rows: seq<CacheRow>): Bytes {
    Framing.AddedData([], RowTexts(c, rows))
  }

  function RowPayloads(c: Codec, log: seq<seq<CacheRow>>): (r: seq<Bytes>)
    ensures |r| == |log|
  {
    seq(|log|, i requires 0 <= i < |log| => RowPayload(c, log[i]))
  }

  ghost predicate AllGenuine(c: Codec, blocks: seq<Block>) {
    forall i :: 0 <= i < |blocks| ==> Genuine(c, blocks, i)
  }

  /** Every later genesis block carries the rows that were logged for it. */
  ghost predicate Documented(c: Codec, s: Chain) {
    AllGenuine(c, s.blocks) && GenesisPayloads(s.blocks, |s.blocks|) == RowPayloads(c, s.genesisRows)
  }

  lemma {:induction false} RealLengthOfPrefix(a: seq<Block>, b: seq<Block>, n: nat)
    requires n <= |a| && n <= |b| && forall i :: 0 <= i < n ==> a[i] == b[i]
    ensures RealLength(a, n) == RealLength(b, n)
  {
    if n > 0 && a[n - 1].kind == DummyBlock {
      RealLengthOfPrefix(a, b, n - 1);
    }
  }

  lemma {:induction false} PayloadsOfPrefix(a: seq<Block>, b: seq<Block>, n: nat)
    requires n <= |a| && n <= |b| && forall i :: 0 <= i < n ==> a[i] == b[i]
    ensures GenesisPayloads(a, n) == GenesisPayloads(b, n)
  {
    if n > 1 {
      PayloadsOfPrefix(a, b, n - 1);
    }
  }

  lemma {:induction false} PayloadsSkipDummies(blocks: seq<Block>, k: nat, n: nat)
    requires k <= n <= |blocks| && forall i :: k <= i < n ==> blocks[i].kind == DummyBlock
    ensures GenesisPayloads(blocks, n) == GenesisPayloads(blocks, k)
  {
    if k < n {
      PayloadsSkipDummies(blocks, k, n - 1);
    }
  }

  lemma GenuineInPrefix(c: Codec, a: seq<Block>, b: seq<Block>, i: nat)
    requires i < |a| && i < |b| && forall j :: 0 <= j <= i ==> a[j] == b[j]
    ensures Genuine(c, a, i) <==> Genuine(c, b, i)
  {
    RealLengthOfPrefix(a, b, i);
  }

  lemma SignedIsGenuine(c: Codec, b: Block)
    requires c.Faithful()
    ensures Signed(c, b).hash == c.hash(DataForHash(c, Signed(c, b)))
  {
    assert DataForHash(c, b.(hash := c.hash(DataForHash(c, b)))) == DataForHash(c, b);
  }

  lemma AppendGenuine(c: Codec, blocks: seq<Block>, b: Block)
    requires AllGenuine(c, blocks) && Genuine(c, blocks + [b], |blocks|)
    ensures AllGenuine(c, blocks + [b])
  {
    hide Genuine;
    forall i | 0 <= i <= |blocks|
      ensures Genuine(c, blocks + [b], i)
    {
      if i < |blocks| {
        GenuineInPrefix(c, blocks + [b], blocks, i);
      }
    }
  }

  lemma AppendPayloads(blocks: seq<Block>, b: Block)
    requires blocks != []
    ensures GenesisPayloads(blocks + [b], |blocks| + 1)
         == GenesisPayloads(blocks, |blocks|) + (if b.kind == GenesisBlock then [b.data] else [])
  {
    PayloadsOfPrefix(blocks + [b], blocks, |blocks|);
  }

  lemma GenesisIsGenuine(c: Codec, blocks: seq<Block>, rows: seq<CacheRow>)
    requires c.Faithful() && Rooted(blocks)
    ensures var g := GenesisAfter(c, blocks, rows);
            Genuine(c, blocks + [g], |blocks|) && g.kind == GenesisBlock && g.data == RowPayload(c, rows)
  {
    hide LastGenesis, Framing.AddedData, DataForHash;
    var nb := NextBlock(c, [], Last(blocks)).(
      kind := GenesisBlock,
      data := RowPayload(c, rows),
      prevGenHash := blocks[LastGenesis(blocks, |blocks|)].hash);
    SignedIsGenuine(c, nb);
  }

  lemma DummyIsGenuine(c: Codec, blocks: seq<Block>)
    requires c.Faithful() && Shape(blocks)
    ensures Genuine(c, blocks + [DummyAfter(c, blocks)], |blocks|)
  {
    hide LastGenesis, DataForHash;
    var k := RealLength(blocks, |blocks|);
    assert k > 0 && Placed(blocks, k - 1);
    RealLengthOfPrefix(blocks + [DummyAfter(c, blocks)], blocks, |blocks|);
    SignedIsGenuine(c, NextBlock(c, IndexText(blocks[k - 1].index), Last(blocks)).(kind := DummyBlock));
    DummyFollows(c, blocks);
  }

  lemma DataIsGenuine(c: Codec, blocks: seq<Block>, pending: seq<Transaction>)
    requires c.Faithful() && Shape(blocks) && Last(blocks).kind != DummyBlock
    ensures Genuine(c, blocks + [DataAfter(c, blocks, pending)], |blocks|)
  {
    hide LastGenesis, DataForHash;
    SignedIsGenuine(c, NextBlock(c, ConvertTxs(c, pending), Last(blocks)));
    DataFollows(c, blocks, pending);
  }

  lemma AddBlockKeepsDocumented(c: Codec, s: Chain, b: Block)
    requires c.Faithful() && Rooted(s.blocks) && Documented(c, s)
    requires Genuine(c, s.blocks + [b], |s.blocks|) && b.kind != GenesisBlock
    ensures Documented(c, AddBlock(c, s, b))
  {
    hide Genuine, AllGenuine, GenesisAfter, BookedAll, PayloadTransactions, GenesisPayloads, RowPayload;
    var blocks := s.blocks + [b];
    AppendGenuine(c, s.blocks, b);
    AppendPayloads(s.blocks, b);
    if s.sinceGenesis + 1 == GENESIS_EVERY {
      var cache := CacheAfter(c, s, b);
      GenesisIsGenuine(c, blocks, cache);
      AppendGenuine(c, blocks, GenesisAfter(c, blocks, cache));
      AppendPayloads(blocks, GenesisAfter(c, blocks, cache));
      assert RowPayloads(c, s.genesisRows + [cache]) == RowPayloads(c, s.genesisRows) + [RowPayload(c, cache)];
    }
  }

  lemma StrippedKeepsDocumented(c: Codec, s: Chain)
    requires Rooted(s.blocks) && Documented(c, s)
    ensures Documented(c, Stripped(s))
  {
    hide Genuine, GenesisPayloads, RowPayload;
    var k := RealLength(s.blocks, |s.blocks|);
    forall i | 0 <= i < k
      ensures Genuine(c, s.blocks[..k], i)
    {
      GenuineInPrefix(c, s.blocks[..k], s.blocks, i);
    }
    PayloadsSkipDummies(s.blocks, k, |s.blocks|);
    PayloadsOfPrefix(s.blocks[..k], s.blocks, k);
  }

  lemma MakeBlockKeepsDocumented(c: Codec, s: Chain, pending: seq<Transaction>)
    requires c.Faithful() && Shape(s.blocks) && Counted(s) && Documented(c, s)
    ensures Documented(c, MakeBlock(c, s, pending))
  {
    assert Rooted(s.blocks);
    hide Shape, Follows, AddBlock, DummyAfter, DataAfter, Stripped, Counted, Documented, Genuine;
    if pending == [] {
      DummyFollows(c, s.blocks);
      DummyIsGenuine(c, s.blocks);
      AddBlockKeepsDocumented(c, s, DummyAfter(c, s.blocks));
    } else {
      var u := Stripped(s);
      StrippedKeepsShape(s);
      StrippedKeepsDocumented(c, s);
      DataFollows(c, u.blocks, pending);
      DataIsGenuine(c, u.blocks, pending);
      AddBlockKeepsDocumented(c, u, DataAfter(c, u.blocks, pending));
    }
  }

  lemma {:induction false} RunKeepsDocumented(c: Codec, s: Chain, batches: seq<seq<Transaction>>)
    requires c.Faithful() && Inv(s) && Documented(c, s)
    ensures Documented(c, Run(c, s, batches))
    decreases |batches|
  {
    assert Rooted(s.blocks);
    if batches != [] {
      hide Shape, Counted, MakeBlock, Documented;
      MakeBlockKeepsInv(c, s, batches[0]);
      MakeBlockKeepsDocumented(c, s, batches[0]);
      RunKeepsDocumented(c, MakeBlock(c, s, batches[0]), batches[1..]);
    }
  }

  lemma StartDocumented(c: Codec)
    requires c.Faithful()
    ensures Documented(c, Start(c))
  {
    hide DataForHash;
    SignedIsGenuine(c, NextBlock(c, [], NO_BLOCK).(kind := GenesisBlock));
    assert GenesisPayloads(Start(c).blocks, 1) == [];
  }

  /** In every reachable state the blocks are genuine and the genesis blocks carry exactly the logged, balanced rows. */
  lemma ReachableIsDocumented(c: Codec, batches: seq<seq<Transaction>>)
    requires c.Faithful()
    ensures Documented(c, Run(c, Start(c), batches))
  {
    hide Run, Inv, Documented;
    StartInv(c);
    StartDocumented(c);
    RunKeepsDocumented(c, Start(c), batches);
  }
}
