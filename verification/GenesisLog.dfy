/** What is given to the genesis blocks: when they come, and which transactions their rows sum up. */
module GenesisLog {
  import opened Bytes
  import opened Blocks
  import opened Ledger
  import opened ChainModel
  import opened ChainInvariant
  import opened ChainRuns
  import opened ChainContents
  import Framing

  // ----- When -----

  lemma TickCounts(c: Codec, s: Chain, pending: seq<Transaction>)
    requires Rooted(s.blocks) && s.sinceGenesis < 100
    ensures var t := MakeBlock(c, s, pending);
            t.sinceGenesis < 100
            && 100 * |t.genesisRows| + t.sinceGenesis == 100 * |s.genesisRows| + s.sinceGenesis + 1
  {
    hide GenesisAfter, DummyAfter, DataAfter, BookedAll, PayloadTransactions;
  }

  lemma {:induction false} RunCounts(c: Codec, s: Chain, batches: seq<seq<Transaction>>)
    requires Rooted(s.blocks) && s.sinceGenesis < 100
    ensures var t := Run(c, s, batches);
            t.sinceGenesis < 100
            && 100 * |t.genesisRows| + t.sinceGenesis == 100 * |s.genesisRows| + s.sinceGenesis + |batches|
    decreases |batches|
  {
    hide MakeBlock;
    if batches != [] {
      TickCounts(c, s, batches[0]);
      RunCounts(c, MakeBlock(c, s, batches[0]), batches[1..]);
    }
  }

  /** On a new network every hundredth tick makes a genesis block, and no other does. */
  lemma EveryHundredth(c: Codec, batches: seq<seq<Transaction>>)
    ensures var s := Run(c, Start(c), batches);
            |s.genesisRows| == |batches| / 100 && s.sinceGenesis == |batches| % 100
  {
    RunCounts(c, Start(c), batches);
  }

  // ----- What -----

  /** For each genesis block above block 0, among the first n: the transactions since the one before it. */
  function Periods(c: Codec, blocks: seq<Block>, n: nat): seq<seq<Transaction>>
    requires Rooted(blocks) && 0 < n <= |blocks|
  {
    if n == 1 then []
    else
      Periods(c, blocks, n - 1)
      + (if blocks[n - 1].kind == GenesisBlock then [TransactionsFrom(c, blocks, LastGenesis(blocks, n - 1), n - 1)] else [])
  }

  /** The rows hold, for each actor and token, what was received minus what was sent. */
  ghost predicate SumUp(rows: seq<CacheRow>, txs: seq<Transaction>) {
    Unique(rows) && forall a, t :: Balance(rows, a, t) == Flow(txs, a, t)
  }

  ghost predicate Logged(c: Codec, s: Chain)
    requires Rooted(s.blocks)
  {
    var p := Periods(c, s.blocks, |s.blocks|);
    |s.genesisRows| == |p| && forall i :: 0 <= i < |p| ==> SumUp(s.genesisRows[i], p[i])
  }

  lemma {:induction false} PeriodsOfPrefix(c: Codec, a: seq<Block>, b: seq<Block>, n: nat)
    requires Rooted(a) && Rooted(b) && 0 < n <= |a| && n <= |b| && forall i :: 0 <= i < n ==> a[i] == b[i]
    ensures Periods(c, a, n) == Periods(c, b, n)
  {
    hide TransactionsFrom, LastGenesis;
    if n > 1 {
      PeriodsOfPrefix(c, a, b, n - 1);
      LastGenesisOfPrefix(a, b, n - 1);
      ViewsOfPrefix(c, a, b, LastGenesis(a, n - 1), n - 1);
    }
  }

  lemma {:induction false} PeriodsSkipDummies(c: Codec, blocks: seq<Block>, k: nat, n: nat)
    requires Rooted(blocks) && 0 < k <= n <= |blocks| && forall i :: k <= i < n ==> blocks[i].kind == DummyBlock
    ensures Periods(c, blocks, n) == Periods(c, blocks, k)
  {
    if k < n {
      PeriodsSkipDummies(c, blocks, k, n - 1);
    }
  }

  lemma AppendPeriods(c: Codec, blocks: seq<Block>, b: Block)
    requires Rooted(blocks)
    ensures Periods(c, blocks + [b], |blocks| + 1)
         == Periods(c, blocks, |blocks|)
            + (if b.kind == GenesisBlock
               then [TransactionsFrom(c, blocks, LastGenesis(blocks, |blocks|), |blocks|)] else [])
  {
    hide TransactionsFrom, LastGenesis;
    PeriodsOfPrefix(c, blocks + [b], blocks, |blocks|);
    LastGenesisOfPrefix(blocks + [b], blocks, |blocks|);
    ViewsOfPrefix(c, blocks + [b], blocks, LastGenesis(blocks, |blocks|), |blocks|);
  }

  /** The cached states, with the new block's, sum up its period. */
  lemma CacheSumsUp(c: Codec, s: Chain, b: Block)
    requires c.Faithful() && Rooted(s.blocks) && Balanced(c, s) && Bookable(c, b)
    ensures var r := s.blocks + [b];
            SumUp(CacheAfter(c, s, b), TransactionsFrom(c, r, LastGenesis(r, |r|), |r|))
  {
    hide TransactionsFrom, LastGenesis, Flow, Unique, TokenTotal, BookedAll, PayloadTransactions, Framing.Decoded;
    CacheFollowsBlocks(c, s, b);
  }

  lemma AddBlockKeepsLogged(c: Codec, s: Chain, b: Block)
    requires c.Faithful() && Rooted(s.blocks) && Balanced(c, s) && Bookable(c, b) && Logged(c, s)
    ensures Logged(c, AddBlock(c, s, b))
  {
    hide Periods, TransactionsFrom, LastGenesis, SumUp, BookedAll, PayloadTransactions, Balanced, GenesisAfter, Framing.Decoded;
    var blocks := s.blocks + [b];
    AppendPeriods(c, s.blocks, b);
    if s.sinceGenesis + 1 == GENESIS_EVERY {
      var cache := CacheAfter(c, s, b);
      CacheSumsUp(c, s, b);
      GenesisIsGenesis(c, blocks, cache);
      AppendPeriods(c, blocks, GenesisAfter(c, blocks, cache));
    }
  }

  lemma StrippedKeepsLogged(c: Codec, s: Chain)
    requires Rooted(s.blocks) && Logged(c, s)
    ensures Logged(c, Stripped(s))
  {
    hide Periods, SumUp;
    var k := RealLength(s.blocks, |s.blocks|);
    PeriodsSkipDummies(c, s.blocks, k, |s.blocks|);
    PeriodsOfPrefix(c, s.blocks[..k], s.blocks, k);
  }

  /** Every tick keeps it: a genesis block is given the sum of its period, the block that brings it included. */
  lemma MakeBlockKeepsLogged(c: Codec, s: Chain, pending: seq<Transaction>)
    requires c.Faithful() && Inv(s) && Balanced(c, s) && Logged(c, s) && NonNegative(pending)
    ensures Logged(c, MakeBlock(c, s, pending))
  {
    assert Rooted(s.blocks);
    hide Shape, Follows, AddBlock, DummyAfter, DataAfter, Stripped, Counted, Balanced, Logged;
    if pending == [] {
      DummyFollows(c, s.blocks);
      AddBlockKeepsLogged(c, s, DummyAfter(c, s.blocks));
    } else {
      var u := Stripped(s);
      StrippedKeepsShape(s);
      StrippedKeepsBooks(c, s);
      StrippedKeepsLogged(c, s);
      DataFollows(c, u.blocks, pending);
      var b := DataAfter(c, u.blocks, pending);
      ExtractConverted(c, pending, b);
      PayloadOfConverted(c, pending);
      AddBlockKeepsLogged(c, u, b);
    }
  }

  lemma {:induction false} RunKeepsLogged(c: Codec, s: Chain, batches: seq<seq<Transaction>>)
    requires c.Faithful() && Inv(s) && Balanced(c, s) && Logged(c, s) && AllNonNegative(batches)
    ensures Logged(c, Run(c, s, batches))
    decreases |batches|
  {
    assert Rooted(s.blocks);
    if batches != [] {
      hide Inv, MakeBlock, Balanced, Logged, NonNegative;
      MakeBlockKeepsInv(c, s, batches[0]);
      MakeBlockKeepsBooks(c, s, batches[0]);
      MakeBlockKeepsLogged(c, s, batches[0]);
      RunKeepsLogged(c, MakeBlock(c, s, batches[0]), batches[1..]);
    }
  }

  /**
   In every reachable state the i-th later genesis block carries rows that give
   each actor, in each token, what the data blocks since the genesis block
   before it moved.
   */
  lemma ReachableIsLogged(c: Codec, batches: seq<seq<Transaction>>, i: nat)
    requires c.Faithful() && AllNonNegative(batches)
    requires i < |GenesisPayloads(Run(c, Start(c), batches).blocks, |Run(c, Start(c), batches).blocks|)|
    ensures var s := Run(c, Start(c), batches);
            && i < |s.genesisRows| && i < |Periods(c, s.blocks, |s.blocks|)|
            && GenesisPayloads(s.blocks, |s.blocks|)[i] == RowPayload(c, s.genesisRows[i])
            && SumUp(s.genesisRows[i], Periods(c, s.blocks, |s.blocks|)[i])
  {
    hide Run, Inv, Balanced, RowPayload, SumUp, Periods, GenesisPayloads, AllGenuine, AllNonNegative;
    StartInv(c);
    StartBalanced(c);
    StartLogged(c);
    RunKeepsLogged(c, Start(c), batches);
    ReachableIsDocumented(c, batches);
  }

  lemma StartLogged(c: Codec)
    requires c.Faithful()
    ensures Logged(c, Start(c))
  {
    hide FirstGenesis;
    FirstIsGenesis(c);
    assert Periods(c, Start(c).blocks, 1) == [];
  }
}
