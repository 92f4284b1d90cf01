/** TransactionManager: the pending list and the block-making timer tick. */
module TransactionManager {
  import opened Blocks
  import opened Ledger
  import opened ChainModel
  import opened BlockIndex
  import opened Blockchain
  import opened Bytes
  import opened Balances
  import opened Proving
  import ChainInvariant
  import ChainRuns

  class TransactionManager {
    const blockchain: Blockchain
    var pendingTxs: seq<Transaction>
    var receivedTxList: seq<Transaction>

    constructor (blockchain: Blockchain)
      ensures this.blockchain == blockchain && pendingTxs == [] && receivedTxList == []
    {
      this.blockchain := blockchain;
      pendingTxs, receivedTxList := [], [];
    }

    /** addVerifiedTx. */
    method AddVerifiedTx(tx: Transaction)
      modifies this`pendingTxs
      ensures pendingTxs == old(pendingTxs) + [tx]
    {
      pendingTxs := pendingTxs + [tx];
    }

    /** addProvedTransaction. */
    method AddProvedTransaction(tx: Transaction)
      modifies this`pendingTxs, this`receivedTxList
      ensures pendingTxs == PendingAfter(old(pendingTxs), Proved(tx))
      ensures receivedTxList == RemovedOne(old(receivedTxList), tx)
    {
      if InList(pendingTxs, tx) {
        pendingTxs := pendingTxs + [tx];
      }
      receivedTxList := RemovedOne(receivedTxList, tx);
    }

    /** removeUnApprovedTransaction: the first equal transaction goes, the others keep their order. */
    method RemoveUnApprovedTransaction(tx: Transaction)
      modifies this`receivedTxList
      ensures receivedTxList == RemovedOne(old(receivedTxList), tx)
      ensures var list, k := old(receivedTxList), FirstSame(old(receivedTxList), tx);
              receivedTxList == if k == |list| then list else list[..k] + list[k + 1..]
    {
      RemovedOneIsFirst(receivedTxList, tx);
      receivedTxList := RemovedOne(receivedTxList, tx);
    }

    /** checkPendingTxsList: what was received minus what was sent in the pending list, self-transfers as sent. */
    method CheckPendingTxsList(sender: ActorId) returns (res: int)
      ensures res == PendingNet(pendingTxs, sender)
      ensures forall token :: (forall tx :: tx in pendingTxs ==> tx.token == token) ==>
                res == Flow(pendingTxs, sender, token) - SelfSent(pendingTxs, sender)
    {
      forall token | forall tx :: tx in pendingTxs ==> tx.token == token
        ensures Flow(pendingTxs, sender, token) == PendingNet(pendingTxs, sender) + SelfSent(pendingTxs, sender)
      {
        NetIsFlow(pendingTxs, sender, token);
      }
      res := 0;
      if pendingTxs != [] {
        for i := 0 to |pendingTxs|
          invariant res == PendingNet(pendingTxs[..i], sender)
        {
          var tmp := pendingTxs[i];
          assert pendingTxs[..i + 1][..i] == pendingTxs[..i];
          if tmp.sender == sender {
            res := res - tmp.amount;
          } else if tmp.receiver == sender {
            res := res + tmp.amount;
          }
        }
        assert pendingTxs[..|pendingTxs|] == pendingTxs;
      }
    }

    /** proveTx. */
    method ProveTx(ctx: Context, tx: Transaction) returns (ghost v: Verdict)
      requires blockchain.Valid()
      modifies this`pendingTxs, this`receivedTxList
      ensures var balance := In(BalanceOn(blockchain.codec, blockchain.View().blocks), tx.token);
              v == Judge(ctx, tx, Available(balance, old(pendingTxs)))
      ensures pendingTxs == PendingAfter(old(pendingTxs), v)
      ensures receivedTxList == ReceivedAfter(old(receivedTxList), tx, v)
    {
      hide UserBalance, PendingNet, RemovedOne, FirstSame;
      v := Judge(ctx, tx, Available(In(BalanceOn(blockchain.codec, blockchain.View().blocks), tx.token), pendingTxs));
      var targetSender, targetReceiver := tx.sender, tx.receiver;
      if tx.typeTx == Reward {
        targetSender := tx.approver;
        if !ctx.rewardSeen {
          AddProvedTransaction(tx);
          return;
        }
      }
      if tx.amount < 0 {
        RemoveUnApprovedTransaction(tx);
        return;
      }
      if targetSender == targetReceiver {
        RemoveUnApprovedTransaction(tx);
        return;
      }
      if (targetReceiver !in ctx.known && !IsEmptyActor(targetReceiver))
         || (targetSender !in ctx.known && !IsEmptyActor(targetSender)) {
        RemoveUnApprovedTransaction(tx);
        return;
      }
      if IsEmptyActor(targetSender) {
        if IsEmptyActor(tx.producer) || !ctx.producerVerifies || tx.amount <= 0 {
          RemoveUnApprovedTransaction(tx);
          return;
        }
        AddProvedTransaction(tx);
        return;
      }
      if !IsEmptyActor(targetReceiver) {
        if tx.data == INIT_CONTRACT {
          return;
        }
        if targetSender != ctx.firstId {
          var net := CheckPendingTxsList(targetSender);
          var senderCurrentBalance := blockchain.GetUserBalance(targetSender, tx.token);
          senderCurrentBalance := senderCurrentBalance + net;
          if tx.amount <= 0 {
            RemoveUnApprovedTransaction(tx);
            return;
          }
          if TooLittle(senderCurrentBalance, tx.amount) && ctx.mainActorId == ctx.firstId {
            RemoveUnApprovedTransaction(tx);
            return;
          }
          AddProvedTransaction(tx);
        } else {
          AddProvedTransaction(tx.(approver := ctx.walletId, digSig := ctx.signature));
        }
        return;
      }
      RemoveUnApprovedTransaction(tx);
    }

    /**
     makeBlock: a dummy block when nothing is pending; otherwise the dummy suffix
     is removed and the pending transactions go into a data block.
     */
    method MakeBlock()
      requires blockchain.Valid() && ChainRuns.Inv(blockchain.View())
      modifies this`pendingTxs, blockchain, blockchain.blockIndex, blockchain.cacheData
      ensures blockchain.Valid() && pendingTxs == []
      ensures blockchain.View() == ChainModel.MakeBlock(blockchain.codec, old(blockchain.View()), old(pendingTxs))
      ensures ChainRuns.Inv(blockchain.View())
      ensures old(ChainRuns.Balanced(blockchain.codec, blockchain.View()) && AllQuiet(blockchain.codec, blockchain.View().blocks))
              && NonNegative(old(pendingTxs)) ==>
                ChainRuns.Balanced(blockchain.codec, blockchain.View()) && AllQuiet(blockchain.codec, blockchain.View().blocks)
    {
      hide ChainInvariant.Counted, ChainInvariant.Shape, DummyAfter, DataAfter, ChainModel.AddBlock;
      BooksKept(blockchain.codec, blockchain.View(), pendingTxs);
      ChainRuns.MakeBlockKeepsInv(blockchain.codec, blockchain.View(), pendingTxs);
      var lastBlock := blockchain.blockIndex.GetLastBlock();
      if pendingTxs == [] {
        MakeDummyBlock(lastBlock);
        return;
      }
      MakeDataBlock();
      pendingTxs := [];
    }

    method MakeDummyBlock(lastBlock: Block)
      requires blockchain.Valid() && ChainInvariant.Shape(blockchain.View().blocks)
      requires lastBlock == Last(blockchain.View().blocks)
      modifies blockchain, blockchain.blockIndex, blockchain.cacheData
      ensures blockchain.Valid()
      ensures var s := old(blockchain.View());
              blockchain.View() == ChainModel.AddBlock(blockchain.codec, s, DummyAfter(blockchain.codec, s.blocks))
    {
      hide ChainModel.AddBlock, ChainInvariant.Shape, Signed, LastGenesis;
      ghost var blocks := blockchain.View().blocks;
      var lastRealBlock := blockchain.blockIndex.GetLastRealBlock();
      var dummyBlock := NextBlock(blockchain.codec, IndexText(lastRealBlock.index), lastBlock).(kind := DummyBlock);
      dummyBlock := Signed(blockchain.codec, dummyBlock);
      assert dummyBlock == DummyAfter(blockchain.codec, blocks);
      ChainInvariant.DummyFollows(blockchain.codec, blocks);
      var added := blockchain.AddBlock(dummyBlock);
    }

    method MakeDataBlock()
      requires blockchain.Valid() && ChainInvariant.Shape(blockchain.View().blocks)
      requires ChainInvariant.Counted(blockchain.View())
      requires pendingTxs != []
      modifies blockchain, blockchain.blockIndex, blockchain.cacheData
      ensures blockchain.Valid()
      ensures var u := Stripped(old(blockchain.View()));
              blockchain.View() == ChainModel.AddBlock(blockchain.codec, u, DataAfter(blockchain.codec, u.blocks, pendingTxs))
    {
      hide ChainModel.AddBlock, ChainInvariant.Shape, ChainInvariant.Counted, DataAfter, LastGenesis;
      ChainInvariant.StrippedKeepsShape(blockchain.View());
      blockchain.blockIndex.RemoveDummyBlocks();
      AddDataBlock();
    }

    /** The part of makeBlock behind the removal of the dummy blocks. */
    method AddDataBlock()
      requires blockchain.Valid() && ChainInvariant.Shape(blockchain.View().blocks)
      requires Last(blockchain.View().blocks).kind != DummyBlock && pendingTxs != []
      modifies blockchain, blockchain.blockIndex, blockchain.cacheData
      ensures blockchain.Valid()
      ensures var s := old(blockchain.View());
              blockchain.View() == ChainModel.AddBlock(blockchain.codec, s, DataAfter(blockchain.codec, s.blocks, pendingTxs))
    {
      hide ChainModel.AddBlock, ChainInvariant.Shape, Signed, LastGenesis, ConvertTxs;
      ghost var blocks := blockchain.View().blocks;
      var lastBlock := blockchain.blockIndex.GetLastRealBlock();
      assert lastBlock == Last(blocks);
      var data := ConvertTxs(blockchain.codec, pendingTxs);
      var block := Signed(blockchain.codec, NextBlock(blockchain.codec, data, lastBlock));
      assert block == DataAfter(blockchain.codec, blocks, pendingTxs);
      ChainInvariant.DataFollows(blockchain.codec, blocks, pendingTxs);
      var added := blockchain.AddBlock(block);
    }
  }

  lemma BooksKept(c: Codec, s: Chain, pending: seq<Transaction>)
    requires c.Faithful() && ChainRuns.Inv(s)
    ensures ChainRuns.Balanced(c, s) && AllQuiet(c, s.blocks) && NonNegative(pending) ==>
              ChainRuns.Balanced(c, ChainModel.MakeBlock(c, s, pending))
              && AllQuiet(c, ChainModel.MakeBlock(c, s, pending).blocks)
  {
    if ChainRuns.Balanced(c, s) && AllQuiet(c, s.blocks) && NonNegative(pending) {
      ChainRuns.MakeBlockKeepsBooks(c, s, pending);
      MakeBlockKeepsQuiet(c, s, pending);
    }
  }
}
