/**
 The block chain as a value, and block production as functions on it: what one
 timer tick (makeBlock) does to a chain that starts at genesis block 0.
 */
module ChainModel {
  import opened Bytes
  import opened Blocks
  import opened Ledger
  import Framing

  /** CONSTRUCT_GENESIS_EVERY_BLOCKS. */
  const GENESIS_EVERY: nat := 100

  /**
   blocks[i] is the stored block with id i; sinceGenesis is
   blocksFromLastGenesis; genesisRows logs the rows given to each later genesis
   block.
   */
  datatype Chain = Chain(
    blocks: seq<Block>, sinceGenesis: nat, cache: seq<CacheRow>, genesisRows: seq<seq<CacheRow>>)

  /** Length of the first n blocks without their dummy suffix. */
  function RealLength(blocks: seq<Block>, n: nat): (k: nat)
    requires n <= |blocks|
    ensures k <= n
    ensures k > 0 ==> blocks[k - 1].kind != DummyBlock
    ensures forall i :: k <= i < n ==> blocks[i].kind == DummyBlock
  {
    if n == 0 || blocks[n - 1].kind != DummyBlock then n else RealLength(blocks, n - 1)
  }

  predicate Rooted(blocks: seq<Block>) {
    blocks != [] && blocks[0].kind == GenesisBlock
  }

  /** The last genesis block among the first n. */
  function LastGenesis(blocks: seq<Block>, n: nat): (k: nat)
    requires Rooted(blocks) && 0 < n <= |blocks|
    ensures k < n && blocks[k].kind == GenesisBlock
    ensures forall i :: k < i < n ==> blocks[i].kind != GenesisBlock
  {
    if blocks[n - 1].kind == GenesisBlock then n - 1 else LastGenesis(blocks, n - 1)
  }

  function Last(blocks: seq<Block>): Block
    requires blocks != []
  {
    blocks[|blocks| - 1]
  }

  /**
   A scan for broken links, from position i on: the id of the first block that
   does not carry its predecessor's hash, or 0.
   */
  function FirstBreak(blocks: seq<Block>, i: nat): int
    requires i > 0
    decreases |blocks| - i
  {
    if i >= |blocks| then 0
    else if blocks[i].prevHash != blocks[i - 1].hash then blocks[i].index
    else FirstBreak(blocks, i + 1)
  }

  // ----- Genesis blocks -----

  const TYPE_TEXT: Bytes := [48]

  /** The State text of a table row as createGenesisBlock passes it on: through a BigNumber. */
  function StateText(c: Codec, state: int): Bytes {
    c.amountText(c.wholeOf(c.amountText(state)))
  }

  function RowFields(c: Codec, row: CacheRow): seq<Bytes> {
    [Padded(row.actor), StateText(c, row.state), Padded(row.token), TYPE_TEXT]
  }

  /** GenesisDataRow::serialize. */
  function RowText(c: Codec, row: CacheRow): Bytes {
    Framing.Encoded(RowFields(c, row))
  }

  function RowTexts(c: Codec, rows: seq<CacheRow>): (r: seq<Bytes>)
    ensures |r| == |rows|
  {
    seq(|rows|, i requires 0 <= i < |rows| => RowText(c, rows[i]))
  }

  /** createGenesisBlock on a chain that has blocks: one row per cached state, put in with addRow. */
  function GenesisAfter(c: Codec, blocks: seq<Block>, rows: seq<CacheRow>): Block
    requires Rooted(blocks)
  {
    var nb := NextBlock(c, [], Last(blocks)).(
      kind := GenesisBlock,
      data := Framing.AddedData([], RowTexts(c, rows)),
      prevGenHash := blocks[LastGenesis(blocks, |blocks|)].hash);
    Signed(c, nb)
  }

  /** createGenesisBlock on an empty index: the genesis block with id 0. */
  function FirstGenesis(c: Codec): Block {
    Signed(c, NextBlock(c, [], NO_BLOCK).(kind := GenesisBlock))
  }

  /** Genesis block 0: no payload and no predecessor, linked to the hash of the text "0 index". */
  lemma FirstGenesisWrittenOut(c: Codec)
    requires c.Faithful()
    ensures FirstGenesis(c)
         == Block(GenesisBlock, 0, [], c.hash([48, 32, 105, 110, 100, 101, 120]), c.hash(c.hash([48])), [])
  {
    assert Hex(0) == [48];
  }

  /** A row's text is its actor, state, token and the type 0; the state as it is when its text reads as a whole number. */
  lemma RowTextWrittenOut(c: Codec, row: CacheRow)
    requires |row.actor| >= 20 && |row.token| >= 20 && c.wholeOf(c.amountText(row.state)) == row.state
    ensures RowText(c, row) == Framing.Encoded([row.actor, c.amountText(row.state), row.token, [48]])
  {
  }

  /** Rows are put into the payload one behind the other, each as one item. */
  lemma RowsAppend(c: Codec, rows: seq<CacheRow>, row: CacheRow)
    ensures Framing.AddedData([], RowTexts(c, [])) == []
    ensures Framing.AddedData([], RowTexts(c, rows + [row]))
         == Framing.AddedData([], RowTexts(c, rows)) + Framing.Encoded([RowText(c, row)])
  {
    hide RowText, Framing.Encoded;
    assert RowTexts(c, rows + [row]) == RowTexts(c, rows) + [RowText(c, row)];
    Framing.AddedOneMore([], RowTexts(c, rows), RowText(c, row));
  }

  function Start(c: Codec): Chain {
    Chain([FirstGenesis(c)], 0, [], [])
  }

  // ----- Adding blocks -----

  /** addBlock of a block with a new id. */
  function AddBlock(c: Codec, s: Chain, b: Block): (t: Chain)
    requires Rooted(s.blocks)
    ensures Rooted(t.blocks)
  {
    var blocks := s.blocks + [b];
    var cache := if b.kind == DataBlock then BookedAll(c, s.cache, PayloadTransactions(c, b.data)) else s.cache;
    if s.sinceGenesis + 1 == GENESIS_EVERY then
      Chain(blocks + [GenesisAfter(c, blocks, cache)], 0, [], s.genesisRows + [cache])
    else
      Chain(blocks, s.sinceGenesis + 1, cache, s.genesisRows)
  }

  function DummyAfter(c: Codec, blocks: seq<Block>): Block
    requires Rooted(blocks)
  {
    var lastReal := blocks[RealLength(blocks, |blocks|) - 1];
    Signed(c, NextBlock(c, IndexText(lastReal.index), Last(blocks)).(kind := DummyBlock))
  }

  function DataAfter(c: Codec, blocks: seq<Block>, pending: seq<Transaction>): Block
    requires Rooted(blocks)
  {
    Signed(c, NextBlock(c, ConvertTxs(c, pending), Last(blocks)))
  }

  /** removeAllDummyBlocks: the dummy suffix goes; the counter stays. */
  function Stripped(s: Chain): (t: Chain)
    requires Rooted(s.blocks)
    ensures Rooted(t.blocks)
  {
    s.(blocks := s.blocks[..RealLength(s.blocks, |s.blocks|)])
  }

  /** makeBlock. */
  function MakeBlock(c: Codec, s: Chain, pending: seq<Transaction>): (t: Chain)
    requires Rooted(s.blocks)
    ensures Rooted(t.blocks)
  {
    if pending == [] then AddBlock(c, s, DummyAfter(c, s.blocks))
    else
      var u := Stripped(s);
      AddBlock(c, u, DataAfter(c, u.blocks, pending))
  }

  /** A run of ticks, each with the transactions pending at it. */
  function Run(c: Codec, s: Chain, batches: seq<seq<Transaction>>): (t: Chain)
    requires Rooted(s.blocks)
    ensures Rooted(t.blocks)
    decreases |batches|
  {
    if batches == [] then s else Run(c, MakeBlock(c, s, batches[0]), batches[1..])
  }
}
