/** Blockchain in file mode: the block index, the cacheData table and the counter to the next genesis block. */
module Blockchain {
  import opened Bytes
  import opened Blocks
  import opened Ledger
  import opened ChainModel
  import opened BlockIndex
  import opened Balances
  import opened ChainRuns
  import opened GenesisRows
  import Framing

  class Blockchain {
    const codec: Codec
    const blockIndex: BlockIndex
    const cacheData: CacheTable
    var blocksFromLastGenesis: int
    /** The rows given to each later genesis block. */
    ghost var genesisRows: seq<seq<CacheRow>>

    ghost predicate Valid()
      reads this, blockIndex
    {
      codec.Faithful() && blockIndex.Valid() && Rooted(blockIndex.Contents()) && blocksFromLastGenesis >= 0
    }

    /** The chain as a value. */
    ghost function View(): Chain
      requires Valid()
      reads this, blockIndex, cacheData
    {
      Chain(blockIndex.Contents(), blocksFromLastGenesis, cacheData.rows, genesisRows)
    }

    /** A new network: genesis block 0 is made on the empty index and stored without counting. */
    constructor (codec: Codec)
      requires codec.Faithful()
      ensures this.codec == codec && fresh(blockIndex) && fresh(cacheData)
      ensures Valid() && View() == Start(codec)
    {
      this.codec := codec;
      blockIndex := new BlockIndex();
      cacheData := new CacheTable();
      blocksFromLastGenesis := 0;
      genesisRows := [];
      new;
      var genesis := FirstGenesis(codec);
      assert genesis.hash != [] && genesis.index == 0 && genesis.kind == GenesisBlock;
      var saved := blockIndex.Append(genesis);
    }

    /**
     createGenesisBlock on an index with blocks: the cached states become its
     rows, the table is emptied, and it names the nearest genesis block below.
     */
    method CreateGenesisBlock() returns (nb: Block)
      requires Valid()
      modifies this`genesisRows, cacheData
      ensures nb == GenesisAfter(codec, blockIndex.Contents(), old(cacheData.rows))
      ensures cacheData.rows == [] && genesisRows == old(genesisRows) + [old(cacheData.rows)]
    {
      hide Framing.AddedData, RowText, Signed, LastGenesis;
      NothingAdded();
      var last := blockIndex.GetBlockById(blockIndex.lastSavedId);
      nb := NextBlock(codec, [], last).(kind := GenesisBlock);
      var i := blockIndex.FindGenesis();
      var extractData := cacheData.rows;
      ghost var texts := RowTexts(codec, extractData);
      for r := 0 to |extractData|
        invariant nb == NextBlock(codec, [], last).(kind := GenesisBlock, data := Framing.AddedData([], texts[..r]))
        invariant cacheData.rows == extractData && genesisRows == old(genesisRows)
      {
        var text := AddRow(nb.data, extractData[r]);
        Framing.AddedOneMore([], texts[..r], texts[r]);
        assert texts[..r + 1] == texts[..r] + [texts[r]];
        nb := nb.(data := text);
      }
      assert texts[..|extractData|] == texts;
      cacheData.rows := [];
      genesisRows := genesisRows + [extractData];
      nb := nb.(prevGenHash := blockIndex.GetBlockById(i).hash);
      nb := Signed(codec, nb);
    }

    /** GenesisBlock::addRow. */
    method AddRow(data: Bytes, row: CacheRow) returns (r: Bytes)
      ensures r == Framing.AddData(data, RowText(codec, row))
    {
      var text := Framing.Serialize(RowFields(codec, row));
      var item := Framing.Serialize([text]);
      r := data + item;
    }

    /** getUserBalance. */
    method GetUserBalance(userId: ActorId, tokenId: ActorId) returns (r: int)
      requires Valid()
      ensures var blocks := blockIndex.Contents();
              r == UserBalance(codec, blocks, |blocks|, userId, tokenId)
    {
      hide GenesisState, Received, ExtractTransactions, ReadRows;
      ghost var blocks := blockIndex.Contents();
      var balance := 0;
      var i := blockIndex.lastSavedId;
      while i >= blockIndex.firstSavedId
        invariant -1 <= i < |blocks|
        invariant UserBalance(codec, blocks, |blocks|, userId, tokenId)
               == balance + UserBalance(codec, blocks, i + 1, userId, tokenId)
        decreases i + 1
      {
        var currentBlock := blockIndex.GetBlockById(i);
        assert currentBlock == blocks[i];
        if currentBlock.kind == GenesisBlock {
          var rows := ExtractDataRows(codec, currentBlock.data);
          var state := FirstState(if rows.None? then [] else rows.value, userId);
          return balance + state;
        }
        if currentBlock.IsEmpty() {
          break;
        }
        var received := SumReceived(ExtractTransactions(codec, currentBlock), userId, tokenId);
        balance := balance + received;
        i := i - 1;
      }
      return balance;
    }

    /** addBlock of a block with the next id, or a negative one; a block whose id is stored goes to the merge instead. */
    method AddBlock(block: Block) returns (resultCode: AddResult)
      requires Valid() && block.hash != []
      requires block.index < 0 || block.index == |blockIndex.Contents()|
      modifies this, blockIndex, cacheData
      ensures Valid() && resultCode == if block.index < 0 then BlockIsNotValid else Saved
      ensures View() == if block.index < 0 then old(View()) else ChainModel.AddBlock(codec, old(View()), block)
    {
      hide BookedAll, PayloadTransactions, GenesisAfter, LastGenesis;
      if block.index < 0 {
        return BlockIsNotValid;
      }
      resultCode := blockIndex.Append(block);
      if block.kind == DataBlock {
        cacheData.SaveTxInfoInEC(codec, block.data);
      }
      blocksFromLastGenesis := blocksFromLastGenesis + 1;
      if blocksFromLastGenesis == GENESIS_EVERY {
        var gB := CreateGenesisBlock();
        GenesisIsNext(codec, blockIndex.Contents(), genesisRows[|genesisRows| - 1]);
        var saved := blockIndex.Append(gB);
        if saved == Saved {
          blocksFromLastGenesis := 0;
        }
      }
    }

    /**
     checkIntegrity with its branches as written: in file mode it scans the
     blocks in memory, of which there are none then, and not the stored ones.
     */
    method CheckIntegrity(fileMode: bool, memIndex: seq<Block>) returns (id: int)
      requires Valid()
      ensures id == if fileMode then FirstBreak(memIndex, 1) else FirstBreak(blockIndex.Contents(), 1)
      ensures memIndex == [] ==>
                (id == 0 <==> fileMode || forall i :: 0 < i < |blockIndex.Contents()| ==>
                   blockIndex.Contents()[i].prevHash == blockIndex.Contents()[i - 1].hash)
      ensures Inv(View()) && memIndex == [] ==> id == 0
      ensures blockIndex.records == blockIndex.lastSavedId - blockIndex.firstSavedId + 1
    {
      hide Inv;
      if Inv(View()) {
        InvIsIntact(View());
      }
      if fileMode {
        var i := 1;
        while i < |memIndex|
          invariant i >= 1 && FirstBreak(memIndex, i) == FirstBreak(memIndex, 1)
        {
          if memIndex[i].prevHash != memIndex[i - 1].hash {
            return memIndex[i].index;
          }
          i := i + 1;
        }
        return 0;
      } else {
        id := blockIndex.CheckIntegrity();
      }
    }
  }

  /** The first row of a genesis block for the user; 0 when there is none. */
  method FirstState(rows: seq<CacheRow>, user: ActorId) returns (state: int)
    ensures state == GenesisState(rows, user)
    ensures state == 0 || exists k :: 0 <= k < |rows| && rows[k].actor == user && state == rows[k].state
                                       && forall i :: 0 <= i < k ==> rows[i].actor != user
  {
    for i := 0 to |rows|
      invariant GenesisState(rows, user) == GenesisState(rows[i..], user)
      invariant forall j :: 0 <= j < i ==> rows[j].actor != user
    {
      if rows[i].actor == user {
        return rows[i].state;
      }
    }
    return 0;
  }

  method SumReceived(txs: seq<Transaction>, user: ActorId, token: ActorId) returns (balance: int)
    ensures balance == Received(txs, user, token)
  {
    balance := 0;
    for i := 0 to |txs|
      invariant balance == Received(txs[..i], user, token)
    {
      assert txs[..i + 1][..i] == txs[..i];
      if txs[i].receiver == user && txs[i].token == token {
        balance := balance + txs[i].amount;
      }
    }
    assert txs[..|txs|] == txs;
  }

  lemma NothingAdded()
    ensures Framing.AddedData([], []) == []
  {
  }

  lemma GenesisIsNext(c: Codec, blocks: seq<Block>, rows: seq<CacheRow>)
    requires c.Faithful() && Rooted(blocks) && !Last(blocks).IsEmpty() && Last(blocks).index == |blocks| - 1
    ensures GenesisAfter(c, blocks, rows).index == |blocks| && GenesisAfter(c, blocks, rows).hash != []
  {
    hide LastGenesis;
  }
}
