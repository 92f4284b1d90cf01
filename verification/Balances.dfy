/** Blockchain::getUserBalance against the ledger of the same chain. */
module Balances {
  import opened Bytes
  import opened Blocks
  import opened Ledger
  import opened ChainModel
  import opened ChainInvariant
  import opened ChainRuns
  import opened ChainContents
  import opened GenesisRows
  import Framing

  // ----- getUserBalance -----

  function Received(txs: seq<Transaction>, user: ActorId, token: ActorId): int {
    if txs == [] then 0
    else
      var tx := txs[|txs| - 1];
      Received(txs[..|txs| - 1], user, token) + (if tx.receiver == user && tx.token == token then tx.amount else 0)
  }

  /** The State of the first row for the user, whatever its token. */
  function GenesisState(rows: seq<CacheRow>, user: ActorId): int {
    if rows == [] then 0 else if rows[0].actor == user then rows[0].state else GenesisState(rows[1..], user)
  }

  /** It is the state of a first row for the user, or 0 when there is none. */
  lemma {:induction false} GenesisStateIsFirst(rows: seq<CacheRow>, user: ActorId)
    ensures (forall i :: 0 <= i < |rows| ==> rows[i].actor != user) ==> GenesisState(rows, user) == 0
    ensures forall k :: 0 <= k < |rows| && rows[k].actor == user && (forall i :: 0 <= i < k ==> rows[i].actor != user) ==>
              GenesisState(rows, user) == rows[k].state
  {
    if rows != [] {
      GenesisStateIsFirst(rows[1..], user);
      assert forall i :: 0 <= i < |rows[1..]| ==> rows[1..][i] == rows[i + 1];
      forall k | 0 <= k < |rows| && rows[k].actor == user && (forall i :: 0 <= i < k ==> rows[i].actor != user)
        ensures GenesisState(rows, user) == rows[k].state
      {
        if k > 0 {
          assert rows[0].actor != user && rows[1..][k - 1] == rows[k];
        }
      }
    }
  }

  /** The rows of a genesis block; a payload that does not decode reads as none. */
  function ExtractRows(c: Codec, data: Bytes): seq<CacheRow> {
    var rows := ReadRows(c, data);
    if rows.None? then [] else rows.value
  }

  /**
   getUserBalance over the first n blocks: what the user received since the
   last genesis block, added to that block's row. Nothing sent is subtracted.
   */
  function UserBalance(c: Codec, blocks: seq<Block>, n: nat, user: ActorId, token: ActorId): int
    requires n <= |blocks|
  {
    if n == 0 then 0
    else if blocks[n - 1].kind == GenesisBlock then GenesisState(ExtractRows(c, blocks[n - 1].data), user)
    else UserBalance(c, blocks, n - 1, user, token) + Received(ExtractTransactions(c, blocks[n - 1]), user, token)
  }

  /** By token and actor. */
  function BalanceOn(c: Codec, blocks: seq<Block>): (ActorId, ActorId) -> int {
    (t, a) => UserBalance(c, blocks, |blocks|, a, t)
  }

  lemma {:induction false} ReceivedAppend(a: seq<Transaction>, b: seq<Transaction>, user: ActorId, token: ActorId)
    ensures Received(a + b, user, token) == Received(a, user, token) + Received(b, user, token)
    decreases |b|
  {
    if b == [] {
      assert a + b == a;
    } else {
      assert (a + b)[..|a + b| - 1] == a + b[..|b| - 1];
      ReceivedAppend(a, b[..|b| - 1], user, token);
    }
  }

  /** The row of the last genesis block and the receipts above it. */
  lemma {:induction false} BalanceSplits(c: Codec, blocks: seq<Block>, n: nat, user: ActorId, token: ActorId)
    requires Rooted(blocks) && 0 < n <= |blocks|
    ensures var g := LastGenesis(blocks, n);
            UserBalance(c, blocks, n, user, token)
            == GenesisState(ExtractRows(c, blocks[g].data), user)
               + Received(TransactionsFrom(c, blocks, g, n), user, token)
  {
    hide ExtractTransactions, ExtractRows, GenesisState;
    if blocks[n - 1].kind == GenesisBlock {
      assert TransactionsFrom(c, blocks, n - 1, n) == [];
    } else {
      BalanceSplits(c, blocks, n - 1, user, token);
      var before := TransactionsFrom(c, blocks, LastGenesis(blocks, n), n - 1);
      if blocks[n - 1].kind == DataBlock {
        ReceivedAppend(before, ExtractTransactions(c, blocks[n - 1]), user, token);
      } else {
        NoTransactions(c, blocks[n - 1]);
        assert before + [] == before;
      }
    }
  }

  /**
   If the last genesis block was given a single row, whose state reads back, the
   balance of its actor starts from that state, for every token.
   */
  lemma GenesisRowCounts(c: Codec, blocks: seq<Block>, row: CacheRow, user: ActorId, token: ActorId)
    requires Rooted(blocks) && |row.actor| >= 20 && |row.token| >= 20
    requires c.wholeOf(c.amountText(row.state)) == row.state
    requires blocks[LastGenesis(blocks, |blocks|)].data == RowPayload(c, [row])
    ensures var g := LastGenesis(blocks, |blocks|);
            UserBalance(c, blocks, |blocks|, user, token)
            == (if row.actor == user then row.state else 0) + Received(TransactionsFrom(c, blocks, g, |blocks|), user, token)
  {
    hide ReadRows, LastGenesis, UserBalance, Received, TransactionsFrom;
    BalanceSplits(c, blocks, |blocks|, user, token);
    RowsReadBackOnlyAlone(c, [row]);
    assert Reread(c, row) == row;
    GenesisStateIsFirst([row], user);
  }

  lemma NoTransactions(c: Codec, b: Block)
    requires b.kind != DataBlock
    ensures ExtractTransactions(c, b) == []
  {
  }

  // ----- Genesis rows never count -----

  /** Rows whose states cancel out for every token read back as a zero for every actor. */
  lemma PayloadIsZero(c: Codec, rows: seq<CacheRow>, a: ActorId)
    requires c.Faithful() && forall t :: TokenTotal(rows, t, |rows|) == 0
    ensures ReadRows(c, RowPayload(c, rows)).Some?
    ensures GenesisState(ExtractRows(c, RowPayload(c, rows)), a) == 0
  {
    hide ReadRows;
    RowsReadBackOnlyAlone(c, rows);
    if |rows| == 1 {
      assert TokenTotal(rows, rows[0].token, 0) == 0;
      assert TokenTotal(rows, rows[0].token, 1) == rows[0].state;
    }
  }

  /** The payload decodes; a genesis block has rows that read as zero, a data block no negative amount. */
  ghost predicate Quiet(c: Codec, b: Block) {
    && (b.kind == GenesisBlock ==>
          ReadRows(c, b.data).Some? && forall a :: GenesisState(ExtractRows(c, b.data), a) == 0)
    && (b.kind == DataBlock ==> Framing.Decoded(b.data).Some? && NonNegative(ExtractTransactions(c, b)))
  }

  ghost predicate AllQuiet(c: Codec, blocks: seq<Block>) {
    forall i :: 0 <= i < |blocks| ==> Quiet(c, blocks[i])
  }

  lemma GenesisIsQuiet(c: Codec, blocks: seq<Block>, rows: seq<CacheRow>)
    requires c.Faithful() && Rooted(blocks) && forall t :: TokenTotal(rows, t, |rows|) == 0
    ensures Quiet(c, GenesisAfter(c, blocks, rows))
  {
    hide GenesisAfter, RowPayload, ExtractRows, ReadRows;
    GenesisIsGenuine(c, blocks, rows);
    forall a
      ensures ReadRows(c, RowPayload(c, rows)).Some? && GenesisState(ExtractRows(c, RowPayload(c, rows)), a) == 0
    {
      PayloadIsZero(c, rows, a);
    }
    PayloadIsZero(c, rows, []);
  }

  lemma AddBlockKeepsQuiet(c: Codec, s: Chain, b: Block)
    requires c.Faithful() && Rooted(s.blocks) && Balanced(c, s) && Bookable(c, b) && AllQuiet(c, s.blocks)
    ensures AllQuiet(c, AddBlock(c, s, b).blocks)
  {
    hide Quiet, TransactionsFrom, Flow, ExtractTransactions, PayloadTransactions, BookedAll, LastGenesis, GenesisAfter;
    CacheFollowsBlocks(c, s, b);
    BookableIsQuiet(c, b);
    var blocks := s.blocks + [b];
    assert AllQuiet(c, blocks);
    if s.sinceGenesis + 1 == GENESIS_EVERY {
      GenesisIsQuiet(c, blocks, CacheAfter(c, s, b));
    }
  }

  lemma BookableIsQuiet(c: Codec, b: Block)
    requires Bookable(c, b)
    ensures Quiet(c, b)
  {
  }

  lemma MakeBlockKeepsQuiet(c: Codec, s: Chain, pending: seq<Transaction>)
    requires c.Faithful() && Inv(s) && Balanced(c, s) && AllQuiet(c, s.blocks) && NonNegative(pending)
    ensures AllQuiet(c, MakeBlock(c, s, pending).blocks)
  {
    assert Rooted(s.blocks);
    hide Shape, Follows, AddBlock, DummyAfter, DataAfter, Stripped, Counted, Balanced, Quiet;
    if pending == [] {
      DummyFollows(c, s.blocks);
      AddBlockKeepsQuiet(c, s, DummyAfter(c, s.blocks));
    } else {
      var u := Stripped(s);
      StrippedKeepsShape(s);
      StrippedKeepsBooks(c, s);
      StrippedKeepsQuiet(c, s);
      DataFollows(c, u.blocks, pending);
      var b := DataAfter(c, u.blocks, pending);
      ExtractConverted(c, pending, b);
      PayloadOfConverted(c, pending);
      AddBlockKeepsQuiet(c, u, b);
    }
  }

  lemma StrippedKeepsQuiet(c: Codec, s: Chain)
    requires Rooted(s.blocks) && AllQuiet(c, s.blocks)
    ensures AllQuiet(c, Stripped(s).blocks)
  {
  }

  lemma StartQuiet(c: Codec)
    requires c.Faithful()
    ensures AllQuiet(c, Start(c).blocks)
  {
    hide ReadRows, ExtractRows;
    forall a
      ensures ReadRows(c, RowPayload(c, [])).Some? && GenesisState(ExtractRows(c, RowPayload(c, [])), a) == 0
    {
      PayloadIsZero(c, [], a);
    }
    PayloadIsZero(c, [], []);
    assert RowPayload(c, []) == [] == FirstGenesis(c).data;
  }

  lemma {:induction false} RunKeepsQuiet(c: Codec, s: Chain, batches: seq<seq<Transaction>>)
    requires c.Faithful() && Inv(s) && Balanced(c, s) && AllQuiet(c, s.blocks) && AllNonNegative(batches)
    ensures Inv(Run(c, s, batches)) && Balanced(c, Run(c, s, batches)) && AllQuiet(c, Run(c, s, batches).blocks)
    decreases |batches|
  {
    assert Rooted(s.blocks);
    if batches != [] {
      hide Inv, MakeBlock, Balanced, AllQuiet, NonNegative;
      MakeBlockKeepsInv(c, s, batches[0]);
      MakeBlockKeepsBooks(c, s, batches[0]);
      MakeBlockKeepsQuiet(c, s, batches[0]);
      RunKeepsQuiet(c, MakeBlock(c, s, batches[0]), batches[1..]);
    }
  }

  // ----- The balance against the ledger -----

  function Sent(txs: seq<Transaction>, user: ActorId, token: ActorId): int {
    if txs == [] then 0
    else
      var tx := txs[|txs| - 1];
      Sent(txs[..|txs| - 1], user, token) + (if tx.sender == user && tx.token == token then tx.amount else 0)
  }

  lemma {:induction false} ReceivedIsFlowAndSent(txs: seq<Transaction>, user: ActorId, token: ActorId)
    ensures Received(txs, user, token) == Flow(txs, user, token) + Sent(txs, user, token)
    decreases |txs|
  {
    if txs != [] {
      ReceivedIsFlowAndSent(txs[..|txs| - 1], user, token);
    }
  }

  /** No transfer of the token by the user moves anything. */
  ghost predicate SentNothing(txs: seq<Transaction>, user: ActorId, token: ActorId) {
    forall i :: 0 <= i < |txs| && txs[i].sender == user && txs[i].token == token ==> txs[i].amount == 0
  }

  lemma {:induction false} SentExactly(txs: seq<Transaction>, user: ActorId, token: ActorId)
    requires NonNegative(txs)
    ensures Sent(txs, user, token) >= 0 && Received(txs, user, token) >= 0
    ensures Sent(txs, user, token) == 0 <==> SentNothing(txs, user, token)
    decreases |txs|
  {
    if txs != [] {
      var before := txs[..|txs| - 1];
      SentExactly(before, user, token);
      assert forall i :: 0 <= i < |before| ==> before[i] == txs[i];
    }
  }

  lemma {:induction false} FromNonNegative(c: Codec, blocks: seq<Block>, from: nat, n: nat)
    requires AllQuiet(c, blocks) && n <= |blocks|
    ensures NonNegative(TransactionsFrom(c, blocks, from, n))
  {
    hide ExtractTransactions, ExtractRows, ReadRows;
    if n > from {
      FromNonNegative(c, blocks, from, n - 1);
      assert Quiet(c, blocks[n - 1]);
    }
  }

  /** The transactions in the data blocks above the last genesis block. */
  function ThisPeriod(c: Codec, s: Chain): seq<Transaction>
    requires Rooted(s.blocks)
  {
    TransactionsFrom(c, s.blocks, LastGenesis(s.blocks, |s.blocks|), |s.blocks|)
  }

  /**
   getUserBalance is what was received since the last genesis block: never
   negative, more than the ledger's State by all that was sent, and equal to it
   exactly when the user sent nothing.
   */
  lemma BalanceAgainstLedger(c: Codec, s: Chain, user: ActorId, token: ActorId)
    requires Rooted(s.blocks) && Balanced(c, s) && AllQuiet(c, s.blocks)
    ensures var b, txs := UserBalance(c, s.blocks, |s.blocks|, user, token), ThisPeriod(c, s);
            && b == Received(txs, user, token) >= 0
            && b == Balance(s.cache, user, token) + Sent(txs, user, token)
            && (b == Balance(s.cache, user, token) <==> SentNothing(txs, user, token))
  {
    hide Received, Flow, TransactionsFrom, ExtractRows, ReadRows, GenesisState, Balance, ExtractTransactions;
    var g, txs := LastGenesis(s.blocks, |s.blocks|), ThisPeriod(c, s);
    BalanceSplits(c, s.blocks, |s.blocks|, user, token);
    assert Quiet(c, s.blocks[g]);
    FromNonNegative(c, s.blocks, g, |s.blocks|);
    ReceivedIsFlowAndSent(txs, user, token);
    SentExactly(txs, user, token);
  }

  /** The same in every state reachable from a new network with amounts that are not negative. */
  lemma ReachableBalance(c: Codec, batches: seq<seq<Transaction>>, user: ActorId, token: ActorId)
    requires c.Faithful() && AllNonNegative(batches)
    ensures var s := Run(c, Start(c), batches);
            var b, txs := UserBalance(c, s.blocks, |s.blocks|, user, token), ThisPeriod(c, s);
            && Balanced(c, s) && AllQuiet(c, s.blocks)
            && b == Received(txs, user, token) >= 0
            && (b == Balance(s.cache, user, token) <==> SentNothing(txs, user, token))
  {
    hide Run, Inv, Balanced, AllQuiet, ThisPeriod, Received, SentNothing, UserBalance, Balance, AllNonNegative;
    StartInv(c);
    StartBalanced(c);
    StartQuiet(c);
    RunKeepsQuiet(c, Start(c), batches);
    BalanceAgainstLedger(c, Run(c, Start(c), batches), user, token);
  }
}
