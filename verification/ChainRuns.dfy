/** Block production over whole runs: history, payloads and the ledger. */
module ChainRuns {
  import opened Bytes
  import opened Blocks
  import opened Ledger
  import opened ChainModel
  import opened ChainInvariant
  import Framing

  // ----- Views of the first n blocks -----

  /** The non-dummy blocks, in order. */
  function RealBlocks(blocks: seq<Block>, n: nat): seq<Block>
    requires n <= |blocks|
  {
    if n == 0 then []
    else RealBlocks(blocks, n - 1) + (if blocks[n - 1].kind == DummyBlock then [] else [blocks[n - 1]])
  }

  /** The transaction lists of the data blocks, in order. */
  function Batches(c: Codec, blocks: seq<Block>, n: nat): seq<seq<Transaction>>
    requires n <= |blocks|
  {
    if n == 0 then []
    else Batches(c, blocks, n - 1)
         + (if blocks[n - 1].kind == DataBlock then [ExtractTransactions(c, blocks[n - 1])] else [])
  }

  /** The transactions in the data blocks from index `from` to n. */
  function TransactionsFrom(c: Codec, blocks: seq<Block>, from: nat, n: nat): seq<Transaction>
    requires n <= |blocks|
  {
    if n <= from then []
    else TransactionsFrom(c, blocks, from, n - 1)
         + (if blocks[n - 1].kind == DataBlock then ExtractTransactions(c, blocks[n - 1]) else [])
  }

  lemma {:induction false} ViewsOfPrefix(c: Codec, a: seq<Block>, b: seq<Block>, from: nat, n: nat)
    requires n <= |a| && n <= |b| && forall i :: 0 <= i < n ==> a[i] == b[i]
    ensures RealBlocks(a, n) == RealBlocks(b, n)
    ensures Batches(c, a, n) == Batches(c, b, n)
    ensures TransactionsFrom(c, a, from, n) == TransactionsFrom(c, b, from, n)
  {
    hide ExtractTransactions;
    if n > 0 {
      ViewsOfPrefix(c, a, b, from, n - 1);
    }
  }

  lemma {:induction false} ViewsSkipDummies(c: Codec, blocks: seq<Block>, from: nat, k: nat, n: nat)
    requires k <= n <= |blocks| && forall i :: k <= i < n ==> blocks[i].kind == DummyBlock
    ensures RealBlocks(blocks, n) == RealBlocks(blocks, k)
    ensures Batches(c, blocks, n) == Batches(c, blocks, k)
    ensures TransactionsFrom(c, blocks, from, n) == TransactionsFrom(c, blocks, from, k)
  {
    hide ExtractTransactions;
    if k < n {
      ViewsSkipDummies(c, blocks, from, k, n - 1);
    }
  }

  function Real(s: Chain): seq<Block> {
    RealBlocks(s.blocks, |s.blocks|)
  }

  function Stored(c: Codec, s: Chain): seq<seq<Transaction>> {
    Batches(c, s.blocks, |s.blocks|)
  }

  // ----- One tick -----

  lemma StrippedKeepsViews(c: Codec, s: Chain, from: nat)
    requires Rooted(s.blocks)
    ensures Real(Stripped(s)) == Real(s) && Stored(c, Stripped(s)) == Stored(c, s)
    ensures var t := Stripped(s);
            TransactionsFrom(c, t.blocks, from, |t.blocks|) == TransactionsFrom(c, s.blocks, from, |s.blocks|)
  {
    hide RealBlocks, Batches, TransactionsFrom;
    var k := RealLength(s.blocks, |s.blocks|);
    ViewsSkipDummies(c, s.blocks, from, k, |s.blocks|);
    ViewsOfPrefix(c, s.blocks, s.blocks[..k], from, k);
  }

  lemma AppendViews(c: Codec, blocks: seq<Block>, b: Block, from: nat)
    ensures var t, n := blocks + [b], |blocks|;
            && RealBlocks(t, n + 1) == RealBlocks(blocks, n) + (if b.kind == DummyBlock then [] else [b])
            && Batches(c, t, n + 1) == Batches(c, blocks, n) + (if b.kind == DataBlock then [ExtractTransactions(c, b)] else [])
            && (from <= n ==>
                  TransactionsFrom(c, t, from, n + 1)
                  == TransactionsFrom(c, blocks, from, n) + (if b.kind == DataBlock then ExtractTransactions(c, b) else []))
  {
    hide ExtractTransactions;
    ViewsOfPrefix(c, blocks + [b], blocks, from, |blocks|);
  }

  /** What addBlock stores besides b: a genesis block on top of every hundredth. */
  lemma AddBlockViews(c: Codec, s: Chain, b: Block)
    requires c.Faithful() && Shape(s.blocks) && Counted(s) && Follows(s.blocks, b) && b.kind != GenesisBlock
    ensures var t := AddBlock(c, s, b);
            && Real(s) + (if b.kind == DummyBlock then [] else [b]) <= Real(t)
            && Stored(c, t) == Stored(c, s) + (if b.kind == DataBlock then [ExtractTransactions(c, b)] else [])
  {
    hide RealBlocks, Batches, TransactionsFrom, ExtractTransactions, GenesisAfter, BookedAll, PayloadTransactions;
    var blocks := s.blocks + [b];
    AppendViews(c, s.blocks, b, 0);
    if s.sinceGenesis + 1 == GENESIS_EVERY {
      var cache := if b.kind == DataBlock then BookedAll(c, s.cache, PayloadTransactions(c, b.data)) else s.cache;
      AppendKeepsShape(s.blocks, b);
      GenesisFollows(c, blocks, cache);
      AppendViews(c, blocks, GenesisAfter(c, blocks, cache), 0);
    }
  }

  /**
   One tick: the non-dummy blocks only grow at their end, and a non-empty
   pending list becomes the payload of exactly one new data block.
   */
  lemma MakeBlockViews(c: Codec, s: Chain, pending: seq<Transaction>)
    requires c.Faithful() && Shape(s.blocks) && Counted(s)
    ensures var t := MakeBlock(c, s, pending);
            && Real(s) <= Real(t)
            && Stored(c, t) == Stored(c, s) + (if pending == [] then [] else [pending])
  {
    assert Rooted(s.blocks);
    hide Shape, Follows, AddBlock, DummyAfter, DataAfter, Stripped, Counted, Real, Stored;
    if pending == [] {
      DummyFollows(c, s.blocks);
      AddBlockViews(c, s, DummyAfter(c, s.blocks));
    } else {
      var u := Stripped(s);
      StrippedKeepsShape(s);
      StrippedKeepsViews(c, s, 0);
      DataFollows(c, u.blocks, pending);
      var b := DataAfter(c, u.blocks, pending);
      ExtractConverted(c, pending, b);
      AddBlockViews(c, u, b);
    }
  }

  // ----- The ledger -----

  /** The cache is what the data blocks above the last genesis block moved; all row sets given away balance. */
  ghost predicate Balanced(c: Codec, s: Chain)
    requires Rooted(s.blocks)
  {
    && Unique(s.cache)
    && (forall a, t :: Balance(s.cache, a, t)
                    == Flow(TransactionsFrom(c, s.blocks, LastGenesis(s.blocks, |s.blocks|), |s.blocks|), a, t))
    && (forall t :: TokenTotal(s.cache, t, |s.cache|) == 0)
    && (forall rows, t :: rows in s.genesisRows ==> TokenTotal(rows, t, |rows|) == 0)
  }

  lemma StrippedKeepsBooks(c: Codec, s: Chain)
    requires Rooted(s.blocks) && Balanced(c, s)
    ensures Balanced(c, Stripped(s))
  {
    hide TransactionsFrom, LastGenesis;
    var k := RealLength(s.blocks, |s.blocks|);
    DummiesAreNotGenesis(s.blocks, k, |s.blocks|);
    LastGenesisOfPrefix(s.blocks[..k], s.blocks, k);
    StrippedKeepsViews(c, s, LastGenesis(s.blocks, |s.blocks|));
  }

  /** The transactions above the last genesis block after one more block. */
  lemma FlowAfterAppend(c: Codec, blocks: seq<Block>, b: Block, a: ActorId, t: ActorId)
    requires Rooted(blocks) && b.kind != GenesisBlock
    ensures var r := blocks + [b];
            Flow(TransactionsFrom(c, r, LastGenesis(r, |r|), |r|), a, t)
            == Flow(TransactionsFrom(c, blocks, LastGenesis(blocks, |blocks|), |blocks|), a, t)
               + (if b.kind == DataBlock then Flow(ExtractTransactions(c, b), a, t) else 0)
  {
    hide TransactionsFrom, Flow, ExtractTransactions;
    var r, g := blocks + [b], LastGenesis(blocks, |blocks|);
    LastGenesisOfPrefix(r, blocks, |blocks|);
    assert LastGenesis(r, |r|) == g;
    AppendViews(c, blocks, b, g);
    var before := TransactionsFrom(c, blocks, g, |blocks|);
    if b.kind == DataBlock {
      FlowAppend(before, ExtractTransactions(c, b), a, t);
    } else {
      assert before + [] == before;
    }
  }

  lemma FlowAfterGenesis(c: Codec, blocks: seq<Block>, g: Block, a: ActorId, t: ActorId)
    requires Rooted(blocks) && g.kind == GenesisBlock
    ensures var r := blocks + [g];
            Flow(TransactionsFrom(c, r, LastGenesis(r, |r|), |r|), a, t) == 0
  {
    var r := blocks + [g];
    assert LastGenesis(r, |r|) == |blocks|;
    assert TransactionsFrom(c, r, |blocks|, |r|) == [];
  }

  lemma BookBlock(c: Codec, rows: seq<CacheRow>, txs: seq<Transaction>)
    requires c.Faithful() && Unique(rows) && NonNegative(txs)
    ensures var r := BookedAll(c, rows, txs);
            && Unique(r)
            && (forall a, t :: Balance(r, a, t) == Balance(rows, a, t) + Flow(txs, a, t))
            && (forall t :: TokenTotal(r, t, |r|) == TokenTotal(rows, t, |rows|))
  {
    hide Balance, Flow, TokenTotal, BookedAll, Unique, NonNegative;
    var r := BookedAll(c, rows, txs);
    forall a, t
      ensures Balance(r, a, t) == Balance(rows, a, t) + Flow(txs, a, t)
    {
      BookingFollowsFlow(c, rows, txs, a, t);
    }
    forall t
      ensures TokenTotal(r, t, |r|) == TokenTotal(rows, t, |rows|)
    {
      BookingConserves(c, rows, txs, t);
    }
    BookingConserves(c, rows, txs, []);
  }

  /** A dummy block, or a data block that decodes to transactions without a negative amount, and books these. */
  ghost predicate Bookable(c: Codec, b: Block) {
    && b.kind != GenesisBlock
    && (b.kind == DataBlock ==>
          && Framing.Decoded(b.data).Some?
          && PayloadTransactions(c, b.data) == ExtractTransactions(c, b) && NonNegative(ExtractTransactions(c, b)))
  }

  function CacheAfter(c: Codec, s: Chain, b: Block): seq<CacheRow> {
    if b.kind == DataBlock then BookedAll(c, s.cache, PayloadTransactions(c, b.data)) else s.cache
  }

  lemma CacheFollowsBlocks(c: Codec, s: Chain, b: Block)
    requires c.Faithful() && Rooted(s.blocks) && Balanced(c, s) && Bookable(c, b)
    ensures var t := Chain(s.blocks + [b], s.sinceGenesis + 1, CacheAfter(c, s, b), s.genesisRows);
            Balanced(c, t)
  {
    hide TransactionsFrom, Flow, ExtractTransactions, PayloadTransactions, Balance, TokenTotal, BookedAll, Unique, LastGenesis;
    if b.kind == DataBlock {
      BookBlock(c, s.cache, PayloadTransactions(c, b.data));
    }
    var r := s.blocks + [b];
    forall a, t
      ensures Balance(CacheAfter(c, s, b), a, t) == Flow(TransactionsFrom(c, r, LastGenesis(r, |r|), |r|), a, t)
    {
      FlowAfterAppend(c, s.blocks, b, a, t);
    }
  }

  lemma AddBlockKeepsBooks(c: Codec, s: Chain, b: Block)
    requires c.Faithful() && Rooted(s.blocks) && Balanced(c, s) && Bookable(c, b)
    ensures Balanced(c, AddBlock(c, s, b))
  {
    hide TransactionsFrom, Flow, ExtractTransactions, PayloadTransactions, TokenTotal, BookedAll, LastGenesis;
    CacheFollowsBlocks(c, s, b);
    if s.sinceGenesis + 1 == GENESIS_EVERY {
      var blocks := s.blocks + [b];
      var g := GenesisAfter(c, blocks, CacheAfter(c, s, b));
      assert g.kind == GenesisBlock;
      var r := blocks + [g];
      forall a, t
        ensures Balance([], a, t) == Flow(TransactionsFrom(c, r, LastGenesis(r, |r|), |r|), a, t)
      {
        FlowAfterGenesis(c, blocks, g, a, t);
      }
      EmptyTable();
    }
  }

  lemma EmptyTable()
    ensures forall t :: TokenTotal([], t, 0) == 0
  {
  }

  lemma MakeBlockKeepsBooks(c: Codec, s: Chain, pending: seq<Transaction>)
    requires c.Faithful() && Shape(s.blocks) && Counted(s) && Balanced(c, s) && NonNegative(pending)
    ensures Balanced(c, MakeBlock(c, s, pending))
  {
    assert Rooted(s.blocks);
    hide Shape, Follows, AddBlock, DummyAfter, DataAfter, Stripped, Counted, Balanced;
    if pending == [] {
      DummyFollows(c, s.blocks);
      AddBlockKeepsBooks(c, s, DummyAfter(c, s.blocks));
    } else {
      var u := Stripped(s);
      StrippedKeepsShape(s);
      StrippedKeepsBooks(c, s);
      DataFollows(c, u.blocks, pending);
      var b := DataAfter(c, u.blocks, pending);
      ExtractConverted(c, pending, b);
      PayloadOfConverted(c, pending);
      AddBlockKeepsBooks(c, u, b);
    }
  }

  // ----- Whole runs -----

  /** What holds between two ticks, whatever the amounts. */
  ghost predicate Inv(s: Chain) {
    Shape(s.blocks) && Counted(s)
  }

  lemma StartInv(c: Codec)
    requires c.Faithful()
    ensures Inv(Start(c)) && Stored(c, Start(c)) == []
  {
    StartHasShape(c);
    StartStoresNothing(c);
  }

  lemma StartBalanced(c: Codec)
    requires c.Faithful()
    ensures Balanced(c, Start(c))
  {
    StartHasShape(c);
    forall a, t
      ensures Balance([], a, t) == Flow(TransactionsFrom(c, Start(c).blocks, 0, 1), a, t)
    {
      FlowAfterGenesisStart(c, a, t);
    }
    EmptyTable();
  }

  lemma StartStoresNothing(c: Codec)
    ensures Stored(c, Start(c)) == []
  {
    hide FirstGenesis;
    FirstIsGenesis(c);
    var none: seq<seq<Transaction>> := [];
    assert Batches(c, Start(c).blocks, 0) == none;
    assert Batches(c, Start(c).blocks, 1) == none + [];
  }

  lemma FlowAfterGenesisStart(c: Codec, a: ActorId, t: ActorId)
    ensures Flow(TransactionsFrom(c, Start(c).blocks, 0, 1), a, t) == 0
  {
    hide FirstGenesis;
    var blocks := Start(c).blocks;
    FirstIsGenesis(c);
    assert TransactionsFrom(c, blocks, 0, 0) == [];
    assert TransactionsFrom(c, blocks, 0, 1) == [];
  }

  lemma FirstIsGenesis(c: Codec)
    ensures FirstGenesis(c).kind == GenesisBlock
  {
  }

  function NonEmpty(batches: seq<seq<Transaction>>): seq<seq<Transaction>> {
    if batches == [] then []
    else (if batches[0] == [] then [] else [batches[0]]) + NonEmpty(batches[1..])
  }

  /**
   Any run of ticks keeps the invariant, keeps the earlier non-dummy blocks as
   they are, and stores every non-empty pending list in one data block, in order.
   */
  lemma {:induction false} RunKeepsInv(c: Codec, s: Chain, batches: seq<seq<Transaction>>)
    requires c.Faithful() && Inv(s)
    ensures Inv(Run(c, s, batches))
    ensures Real(s) <= Real(Run(c, s, batches))
    ensures Stored(c, Run(c, s, batches)) == Stored(c, s) + NonEmpty(batches)
    decreases |batches|
  {
    assert Rooted(s.blocks);
    hide Inv, MakeBlock, Real, Stored;
    if batches == [] {
      assert Stored(c, s) + [] == Stored(c, s);
    } else {
      var t := MakeBlock(c, s, batches[0]);
      MakeBlockKeepsInv(c, s, batches[0]);
      RunKeepsInv(c, t, batches[1..]);
      PrefixTransitive(Real(s), Real(t), Real(Run(c, t, batches[1..])));
      Assoc(Stored(c, s), if batches[0] == [] then [] else [batches[0]], NonEmpty(batches[1..]));
    }
  }

  lemma PrefixTransitive(a: seq<Block>, b: seq<Block>, d: seq<Block>)
    requires a <= b <= d
    ensures a <= d
  {
  }

  lemma Assoc(a: seq<seq<Transaction>>, b: seq<seq<Transaction>>, d: seq<seq<Transaction>>)
    ensures a + b + d == a + (b + d)
  {
  }

  lemma MakeBlockKeepsInv(c: Codec, s: Chain, pending: seq<Transaction>)
    requires c.Faithful() && Inv(s)
    ensures Inv(MakeBlock(c, s, pending))
    ensures Real(s) <= Real(MakeBlock(c, s, pending))
    ensures Stored(c, MakeBlock(c, s, pending)) == Stored(c, s) + (if pending == [] then [] else [pending])
  {
    assert Rooted(s.blocks);
    hide Shape, Counted, MakeBlock, Real, Stored;
    MakeBlockKeepsShape(c, s, pending);
    MakeBlockViews(c, s, pending);
  }

  /** No batch holds a negative amount. */
  ghost predicate AllNonNegative(batches: seq<seq<Transaction>>) {
    forall i :: 0 <= i < |batches| ==> NonNegative(batches[i])
  }

  lemma {:induction false} RunKeepsBooks(c: Codec, s: Chain, batches: seq<seq<Transaction>>)
    requires c.Faithful() && Inv(s) && Balanced(c, s) && AllNonNegative(batches)
    ensures Inv(Run(c, s, batches)) && Balanced(c, Run(c, s, batches))
    decreases |batches|
  {
    assert Rooted(s.blocks);
    if batches != [] {
      hide Inv, MakeBlock, Balanced;
      MakeBlockKeepsInv(c, s, batches[0]);
      MakeBlockKeepsBooks(c, s, batches[0]);
      RunKeepsBooks(c, MakeBlock(c, s, batches[0]), batches[1..]);
    }
  }

  /** From a new network: the reachable states and what the chain holds in them. */
  lemma Reachable(c: Codec, batches: seq<seq<Transaction>>)
    requires c.Faithful()
    ensures var s := Run(c, Start(c), batches);
            Inv(s) && Stored(c, s) == NonEmpty(batches)
  {
    hide Inv, Run, Stored, NonEmpty;
    StartInv(c);
    RunKeepsInv(c, Start(c), batches);
    assert [] + NonEmpty(batches) == NonEmpty(batches);
  }

  /** Between two neighbouring genesis blocks lie at most 100 blocks, and the upper one names the lower one's hash. */
  lemma GenesisGaps(c: Codec, s: Chain, i: nat, j: nat)
    requires Inv(s) && i < j < |s.blocks|
    requires s.blocks[i].kind == GenesisBlock && s.blocks[j].kind == GenesisBlock
    requires forall k :: i < k < j ==> s.blocks[k].kind != GenesisBlock
    ensures j - i - 1 <= GENESIS_EVERY && s.blocks[j].prevGenHash == s.blocks[i].hash
  {
    assert Spaced(s.blocks, j);
    assert LastGenesis(s.blocks, j) == i;
  }

  /** Block i is where its id says, linked, and not a data block on a dummy block. */
  ghost predicate Intact(blocks: seq<Block>, i: nat)
    requires i < |blocks|
  {
    && blocks[i].index == i
    && (i > 0 ==> blocks[i].prevHash == blocks[i - 1].hash)
    && (i > 0 && blocks[i].kind == DataBlock ==> blocks[i - 1].kind != DummyBlock)
  }

  lemma {:induction false} NoBreak(blocks: seq<Block>, i: nat)
    requires i > 0 && forall j :: 0 <= j < |blocks| ==> Intact(blocks, j)
    ensures FirstBreak(blocks, i) == 0
    decreases |blocks| - i
  {
    if i < |blocks| {
      assert Intact(blocks, i);
      NoBreak(blocks, i + 1);
    }
  }

  /** The chain of every reachable state is intact, so a scan for broken links finds none. */
  lemma ReachableIsIntact(c: Codec, batches: seq<seq<Transaction>>)
    requires c.Faithful()
    ensures var blocks := Run(c, Start(c), batches).blocks;
            && (forall i :: 0 <= i < |blocks| ==> Intact(blocks, i))
            && FirstBreak(blocks, 1) == 0
  {
    hide Run;
    Reachable(c, batches);
    InvIsIntact(Run(c, Start(c), batches));
  }

  lemma InvIsIntact(s: Chain)
    requires Inv(s)
    ensures forall i :: 0 <= i < |s.blocks| ==> Intact(s.blocks, i)
    ensures FirstBreak(s.blocks, 1) == 0
  {
    hide Counted, Spaced;
    forall i | 0 <= i < |s.blocks|
      ensures Intact(s.blocks, i)
    {
      assert Placed(s.blocks, i);
    }
    NoBreak(s.blocks, 1);
  }

  /** A tick with something pending leaves the tip a data block, or a genesis block on one. */
  lemma TickWithPendingEndsReal(c: Codec, s: Chain, pending: seq<Transaction>)
    requires c.Faithful() && Inv(s) && pending != []
    ensures var t := MakeBlock(c, s, pending);
            Last(t.blocks).kind == DataBlock || (Last(t.blocks).kind == GenesisBlock && t.blocks[|t.blocks| - 2].kind == DataBlock)
  {
    hide GenesisAfter, DataAfter, BookedAll, Stripped;
    var u := Stripped(s);
    StrippedKeepsShape(s);
    DataFollows(c, u.blocks, pending);
    GenesisIsGenesis(c, u.blocks + [DataAfter(c, u.blocks, pending)],
                     BookedAll(c, u.cache, PayloadTransactions(c, DataAfter(c, u.blocks, pending).data)));
  }

  lemma GenesisIsGenesis(c: Codec, blocks: seq<Block>, rows: seq<CacheRow>)
    requires Rooted(blocks)
    ensures GenesisAfter(c, blocks, rows).kind == GenesisBlock
  {
  }
}
