/** Blockchain::proveTx, with TransactionManager's list operations. */
module Proving {
  import opened Bytes
  import opened Blocks
  import opened Ledger
  import opened ChainModel
  import opened ChainInvariant
  import opened ChainRuns
  import opened Balances

  /** What proveTx asks of the node and the network. */
  datatype Context = Context(
    firstId: ActorId, mainActorId: ActorId, walletId: ActorId, known: set<ActorId>,
    rewardSeen: bool, producerVerifies: bool, signature: Bytes)

  // ----- Lists -----

  predicate InList(list: seq<Transaction>, tx: Transaction) {
    exists i :: 0 <= i < |list| && list[i].Same(tx)
  }

  /** QList::removeOne. */
  function RemovedOne(list: seq<Transaction>, tx: Transaction): seq<Transaction> {
    if list == [] then [] else if list[0].Same(tx) then list[1..] else [list[0]] + RemovedOne(list[1..], tx)
  }

  /** The index of the first element equal to tx; |list| when there is none. */
  function FirstSame(list: seq<Transaction>, tx: Transaction): (k: nat)
    ensures k <= |list| && (k < |list| ==> list[k].Same(tx))
    ensures forall i :: 0 <= i < k ==> !list[i].Same(tx)
  {
    if list == [] || list[0].Same(tx) then 0 else 1 + FirstSame(list[1..], tx)
  }

  /** Exactly the first equal element goes, if there is one; the others keep their order. */
  lemma {:induction false} RemovedOneIsFirst(list: seq<Transaction>, tx: Transaction)
    ensures var k := FirstSame(list, tx);
            RemovedOne(list, tx) == if k == |list| then list else list[..k] + list[k + 1..]
  {
    hide Transaction.Same;
    if list != [] && !list[0].Same(tx) {
      var k := FirstSame(list[1..], tx);
      RemovedOneIsFirst(list[1..], tx);
      PutBack(list, k);
    }
  }

  lemma PutBack(list: seq<Transaction>, k: nat)
    requires list != [] && k < |list|
    ensures [list[0]] + list[1..] == list
    ensures k < |list| - 1 ==> [list[0]] + (list[1..][..k] + list[1..][k + 1..]) == list[..k + 1] + list[k + 2..]
  {
  }

  /** What one pending transaction does to an actor, whatever its token. */
  function Effect(tx: Transaction, actor: ActorId): int {
    if tx.sender == actor then -tx.amount else if tx.receiver == actor then tx.amount else 0
  }

  function PendingNet(pending: seq<Transaction>, actor: ActorId): int {
    if pending == [] then 0 else PendingNet(pending[..|pending| - 1], actor) + Effect(pending[|pending| - 1], actor)
  }

  // ----- proveTx -----

  datatype Verdict = Proved(tx: Transaction) | Rejected | Ignored

  const INIT_CONTRACT: Bytes := [73, 110, 105, 116, 67, 111, 110, 116, 114, 97, 99, 116]

  predicate Known(ctx: Context, a: ActorId) {
    IsEmptyActor(a) || a in ctx.known
  }

  /** senderCurrentBalance - amount - amount / 100 < 0. */
  predicate TooLittle(available: int, amount: int) {
    available as real - amount as real - amount as real / 100.0 < 0.0
  }

  /** proveTx's decision; available is the sender's balance with its pending transactions. */
  function Judge(ctx: Context, tx: Transaction, available: ActorId -> int): Verdict {
    var sender := if tx.typeTx == Reward then tx.approver else tx.sender;
    if tx.typeTx == Reward && !ctx.rewardSeen then Proved(tx)
    else if tx.amount < 0 then Rejected
    else if sender == tx.receiver then Rejected
    else if !Known(ctx, tx.receiver) || !Known(ctx, sender) then Rejected
    else if IsEmptyActor(sender) then
      if IsEmptyActor(tx.producer) || !ctx.producerVerifies || tx.amount <= 0 then Rejected else Proved(tx)
    else if IsEmptyActor(tx.receiver) then Rejected
    else if tx.data == INIT_CONTRACT then Ignored
    else if sender != ctx.firstId then
      if tx.amount <= 0 then Rejected
      else if TooLittle(available(sender), tx.amount) && ctx.mainActorId == ctx.firstId then Rejected
      else Proved(tx)
    else Proved(tx.(approver := ctx.walletId, digSig := ctx.signature))
  }

  /** addProvedTransaction: pushed only when an equal one is pending already. */
  function PendingAfter(pending: seq<Transaction>, v: Verdict): seq<Transaction> {
    if v.Proved? && InList(pending, v.tx) then pending + [v.tx] else pending
  }

  function ReceivedAfter(received: seq<Transaction>, tx: Transaction, v: Verdict): seq<Transaction> {
    match v
    case Proved(t) => RemovedOne(received, t)
    case Rejected => RemovedOne(received, tx)
    case Ignored => received
  }

  function Available(balance: ActorId -> int, pending: seq<Transaction>): ActorId -> int {
    a => balance(a) + PendingNet(pending, a)
  }

  // ----- One step -----

  lemma PendingPush(pending: seq<Transaction>, tx: Transaction, a: ActorId)
    ensures PendingNet(pending + [tx], a) == PendingNet(pending, a) + Effect(tx, a)
  {
    assert (pending + [tx])[..|pending|] == pending;
  }

  /** The step that judges tx by `judged` pushes it. */
  predicate Pushes(ctx: Context, judged: ActorId -> int, pending: seq<Transaction>, tx: Transaction) {
    var v := Judge(ctx, tx, Available(judged, pending));
    v.Proved? && InList(pending, v.tx)
  }

  function After(ctx: Context, judged: ActorId -> int, pending: seq<Transaction>, tx: Transaction): seq<Transaction> {
    PendingAfter(pending, Judge(ctx, tx, Available(judged, pending)))
  }

  /** What is approved is the transfer itself, of an amount that is not negative, between two actors. */
  lemma ProvedTransfer(ctx: Context, tx: Transaction, available: ActorId -> int)
    requires tx.typeTx == Ordinary && Judge(ctx, tx, available).Proved?
    ensures var t := Judge(ctx, tx, available).tx;
            t.sender == tx.sender && t.receiver == tx.receiver && t.amount == tx.amount
    ensures tx.amount >= 0 && tx.sender != tx.receiver
  {
  }

  /**
   One step on an ordinary transfer, judged by one balance and measured by
   another: an actor at or above zero stays there exactly when the step does
   not push a transfer of its own, or the measured balance covers the amount.
   */
  lemma StepExactly(
    ctx: Context, judged: ActorId -> int, measured: ActorId -> int, pending: seq<Transaction>, tx: Transaction, a: ActorId)
    requires tx.typeTx == Ordinary && Available(measured, pending)(a) >= 0
    ensures Available(measured, After(ctx, judged, pending, tx))(a) >= 0
       <==> (Pushes(ctx, judged, pending, tx) && tx.sender == a ==> tx.amount <= Available(measured, pending)(a))
  {
    hide Judge, PendingNet, InList;
    var v := Judge(ctx, tx, Available(judged, pending));
    if v.Proved? {
      ProvedTransfer(ctx, tx, Available(judged, pending));
      PendingPush(pending, v.tx, a);
    }
  }

  /** On the root node the check of proveTx covers every actor but the first and the empty ids. */
  lemma PushIsCovered(ctx: Context, judged: ActorId -> int, pending: seq<Transaction>, tx: Transaction)
    requires ctx.mainActorId == ctx.firstId && tx.typeTx == Ordinary
    requires Pushes(ctx, judged, pending, tx) && tx.sender != ctx.firstId && !IsEmptyActor(tx.sender)
    ensures tx.amount <= Available(judged, pending)(tx.sender)
  {
    assert !TooLittle(Available(judged, pending)(tx.sender), tx.amount);
  }

  /** What a transaction of any type must meet unless it is a reward seen for the first time; sender is the approver of a reward. */
  predicate Approvable(ctx: Context, tx: Transaction, sender: ActorId, available: int) {
    && tx.amount >= 0 && sender != tx.receiver
    && (IsEmptyActor(sender) || sender in ctx.known) && (IsEmptyActor(tx.receiver) || tx.receiver in ctx.known)
    && if IsEmptyActor(sender) then tx.amount > 0 && !IsEmptyActor(tx.producer) && ctx.producerVerifies
       else
         && !IsEmptyActor(tx.receiver) && tx.data != [73, 110, 105, 116, 67, 111, 110, 116, 114, 97, 99, 116] // "InitContract"
         && (sender != ctx.firstId ==> tx.amount > 0 && (ctx.mainActorId == ctx.firstId ==> 101 * tx.amount <= 100 * available))
  }

  /**
   The whole decision, for every transaction on every node: when it is
   approved, and as what; when it is left alone; everything else is rejected.
   The balance is asked only on the root node, and one percent is kept for the
   fee. A transfer of the first actor is signed by the node's wallet.
   */
  lemma JudgedExactly(ctx: Context, tx: Transaction, available: ActorId -> int)
    ensures var sender := if tx.typeTx == Reward then tx.approver else tx.sender;
            var v, first := Judge(ctx, tx, available), tx.typeTx == Reward && !ctx.rewardSeen;
            && (v.Proved? <==> first || Approvable(ctx, tx, sender, available(sender)))
            && (v.Proved? ==>
                  v.tx == if !first && !IsEmptyActor(sender) && sender == ctx.firstId
                          then tx.(approver := ctx.walletId, digSig := ctx.signature) else tx)
            && (v.Ignored? <==>
                  && !first && tx.amount >= 0 && sender != tx.receiver
                  && !IsEmptyActor(sender) && sender in ctx.known && !IsEmptyActor(tx.receiver) && tx.receiver in ctx.known
                  && tx.data == [73, 110, 105, 116, 67, 111, 110, 116, 114, 97, 99, 116])
  {
    var sender := if tx.typeTx == Reward then tx.approver else tx.sender;
    FeeIsExact(available(sender), tx.amount);
    hide TooLittle;
  }

  lemma FeeIsExact(available: int, amount: int)
    ensures TooLittle(available, amount) <==> 101 * amount > 100 * available
  {
    var a, m := available as real, amount as real;
    assert a - m - m / 100.0 < 0.0 <==> 100.0 * a < 101.0 * m;
  }

  /**
   The lists after a decision: an approved transaction is pushed at the end if an
   equal one is pending; unless it was left alone, the first equal one is no
   longer among the received ones.
   */
  lemma ListsAfterExactly(
    ctx: Context, tx: Transaction, available: ActorId -> int, pending: seq<Transaction>, received: seq<Transaction>)
    ensures var v := Judge(ctx, tx, available);
            var k := FirstSame(received, tx);
            && PendingAfter(pending, v)
               == (if v.Proved? && exists i :: 0 <= i < |pending| && pending[i].Same(tx) then pending + [v.tx] else pending)
            && ReceivedAfter(received, tx, v)
               == if v.Ignored? || k == |received| then received else received[..k] + received[k + 1..]
  {
    RemovedOneIsFirst(received, tx);
    hide FirstSame, RemovedOne, TooLittle;
    var v := Judge(ctx, tx, available);
    if v.Proved? {
      SameRemoves(received, tx, v.tx);
    }
  }

  /** Equal transactions are equal to the same ones, so they remove the same one. */
  lemma {:induction false} SameRemoves(list: seq<Transaction>, t: Transaction, u: Transaction)
    requires t.Same(u)
    ensures RemovedOne(list, t) == RemovedOne(list, u)
    ensures InList(list, t) <==> InList(list, u)
  {
    if list != [] {
      SameRemoves(list[1..], t, u);
    }
  }

  // ----- The pending list against the ledger -----

  /** What an actor sends to itself; the pending list counts it as sent only. */
  function SelfSent(txs: seq<Transaction>, actor: ActorId): int {
    if txs == [] then 0
    else
      var tx := txs[|txs| - 1];
      SelfSent(txs[..|txs| - 1], actor) + (if tx.sender == actor && tx.receiver == actor then tx.amount else 0)
  }

  lemma {:induction false} NetIsFlow(pending: seq<Transaction>, actor: ActorId, token: ActorId)
    requires forall tx :: tx in pending ==> tx.token == token
    ensures Flow(pending, actor, token) == PendingNet(pending, actor) + SelfSent(pending, actor)
    decreases |pending|
  {
    if pending != [] {
      NetIsFlow(pending[..|pending| - 1], actor, token);
      assert pending[|pending| - 1] in pending;
    }
  }

  /**
   checkPendingTxsList says by how much the ledger would change if the pending
   list were booked, except for what an actor sends to itself.
   */
  lemma PendingNetIsBooked(c: Codec, rows: seq<CacheRow>, pending: seq<Transaction>, actor: ActorId, token: ActorId)
    requires c.Faithful() && Unique(rows) && NonNegative(pending) && forall tx :: tx in pending ==> tx.token == token
    ensures Balance(BookedAll(c, rows, pending), actor, token)
         == Balance(rows, actor, token) + PendingNet(pending, actor) + SelfSent(pending, actor)
  {
    BookingFollowsFlow(c, rows, pending, actor, token);
    NetIsFlow(pending, actor, token);
  }

  // ----- No actor but the first goes below zero -----

  /** Balance plus pending transactions is not negative, for every actor but the first and the empty ids. */
  ghost predicate Solvent(ctx: Context, balance: ActorId -> int, pending: seq<Transaction>) {
    forall a :: a != ctx.firstId && !IsEmptyActor(a) ==> Available(balance, pending)(a) >= 0
  }

  /** The pushed transfer, if any, is of an exempt actor or covered by the measured balance. */
  ghost predicate Covered(
    ctx: Context, judged: ActorId -> int, measured: ActorId -> int, pending: seq<Transaction>, tx: Transaction)
  {
    Pushes(ctx, judged, pending, tx) && tx.sender != ctx.firstId && !IsEmptyActor(tx.sender) ==>
      tx.amount <= Available(measured, pending)(tx.sender)
  }

  lemma StepKeepsSolventExactly(
    ctx: Context, judged: ActorId -> int, measured: ActorId -> int, pending: seq<Transaction>, tx: Transaction)
    requires tx.typeTx == Ordinary && Solvent(ctx, measured, pending)
    ensures Solvent(ctx, measured, After(ctx, judged, pending, tx)) <==> Covered(ctx, judged, measured, pending, tx)
  {
    hide Judge, PendingNet, After, Pushes;
    forall a | a != ctx.firstId && !IsEmptyActor(a)
      ensures Available(measured, After(ctx, judged, pending, tx))(a) >= 0
         <==> (Pushes(ctx, judged, pending, tx) && tx.sender == a ==> tx.amount <= Available(measured, pending)(a))
    {
      assert Available(measured, pending)(a) >= 0;
      StepExactly(ctx, judged, measured, pending, tx, a);
    }
    if !Covered(ctx, judged, measured, pending, tx) {
      assert Available(measured, After(ctx, judged, pending, tx))(tx.sender) < 0;
    }
  }

  /** One proveTx step on the root node, measured by the balance it is judged by. */
  lemma ProveKeepsSolvent(ctx: Context, balance: ActorId -> int, pending: seq<Transaction>, tx: Transaction)
    requires ctx.mainActorId == ctx.firstId && tx.typeTx == Ordinary
    requires Solvent(ctx, balance, pending)
    ensures Solvent(ctx, balance, After(ctx, balance, pending, tx))
  {
    hide Judge, Pushes, After;
    if Pushes(ctx, balance, pending, tx) && tx.sender != ctx.firstId && !IsEmptyActor(tx.sender) {
      PushIsCovered(ctx, balance, pending, tx);
    }
    StepKeepsSolventExactly(ctx, balance, balance, pending, tx);
  }

  // ----- Sequences of proveTx calls, each judged by the balance of its own token -----

  /** A balance by token and actor, for one token. */
  function In(balance: (ActorId, ActorId) -> int, token: ActorId): ActorId -> int {
    a => balance(token, a)
  }

  function AfterAll(
    ctx: Context, balance: (ActorId, ActorId) -> int, pending: seq<Transaction>, txs: seq<Transaction>): seq<Transaction>
    decreases |txs|
  {
    if txs == [] then pending
    else AfterAll(ctx, balance, After(ctx, In(balance, txs[0].token), pending, txs[0]), txs[1..])
  }

  /** Solvent in one token before every call and at the end. */
  ghost predicate AlwaysSolvent(
    ctx: Context, balance: (ActorId, ActorId) -> int, pending: seq<Transaction>, txs: seq<Transaction>, token: ActorId)
    decreases |txs|
  {
    && Solvent(ctx, In(balance, token), pending)
    && (txs != [] ==>
          AlwaysSolvent(ctx, balance, After(ctx, In(balance, txs[0].token), pending, txs[0]), txs[1..], token))
  }

  ghost predicate AllCovered(
    ctx: Context, balance: (ActorId, ActorId) -> int, pending: seq<Transaction>, txs: seq<Transaction>, token: ActorId)
    decreases |txs|
  {
    txs != [] ==>
      && Covered(ctx, In(balance, txs[0].token), In(balance, token), pending, txs[0])
      && AllCovered(ctx, balance, After(ctx, In(balance, txs[0].token), pending, txs[0]), txs[1..], token)
  }

  /** With any mix of tokens: solvency in one of them is kept throughout exactly when that token covers every push. */
  lemma {:induction false} AlwaysSolventExactly(
    ctx: Context, balance: (ActorId, ActorId) -> int, pending: seq<Transaction>, txs: seq<Transaction>, token: ActorId)
    requires forall tx :: tx in txs ==> tx.typeTx == Ordinary
    requires Solvent(ctx, In(balance, token), pending)
    ensures AlwaysSolvent(ctx, balance, pending, txs, token) <==> AllCovered(ctx, balance, pending, txs, token)
    decreases |txs|
  {
    hide Solvent, Covered, After, In;
    if txs != [] {
      var judged, measured := In(balance, txs[0].token), In(balance, token);
      StepKeepsSolventExactly(ctx, judged, measured, pending, txs[0]);
      if Covered(ctx, judged, measured, pending, txs[0]) {
        AlwaysSolventExactly(ctx, balance, After(ctx, judged, pending, txs[0]), txs[1..], token);
      } else {
        assert !Solvent(ctx, measured, After(ctx, judged, pending, txs[0]));
      }
    }
  }

  /** With one token, any sequence of calls on the root node keeps every actor solvent. */
  lemma {:induction false} ProvingKeepsSolvent(
    ctx: Context, balance: (ActorId, ActorId) -> int, pending: seq<Transaction>, txs: seq<Transaction>, token: ActorId)
    requires ctx.mainActorId == ctx.firstId && forall tx :: tx in txs ==> tx.typeTx == Ordinary && tx.token == token
    requires Solvent(ctx, In(balance, token), pending)
    ensures Solvent(ctx, In(balance, token), AfterAll(ctx, balance, pending, txs))
    ensures AlwaysSolvent(ctx, balance, pending, txs, token)
    decreases |txs|
  {
    hide Solvent, After, In;
    if txs != [] {
      ProveKeepsSolvent(ctx, In(balance, token), pending, txs[0]);
      ProvingKeepsSolvent(ctx, balance, After(ctx, In(balance, token), pending, txs[0]), txs[1..], token);
    }
  }

  function Transfer(sender: ActorId, receiver: ActorId, amount: int, token: ActorId): Transaction {
    Transaction(sender, receiver, amount, 0, [], token, 0, 0, 0, [], [], [], Ordinary)
  }

  /** Proving never makes a transaction pending that was not: each one found afterwards equals one from before. */
  lemma {:induction false} NothingNewBecomesPending(
    ctx: Context, balance: (ActorId, ActorId) -> int, pending: seq<Transaction>, txs: seq<Transaction>, t: Transaction)
    requires t in AfterAll(ctx, balance, pending, txs)
    ensures InList(pending, t)
    decreases |txs|
  {
    hide Judge;
    if txs == [] {
      var i :| 0 <= i < |pending| && pending[i] == t;
      assert pending[i].Same(t);
    } else {
      var v := Judge(ctx, txs[0], Available(In(balance, txs[0].token), pending));
      var next := PendingAfter(pending, v);
      NothingNewBecomesPending(ctx, balance, next, txs[1..], t);
      if next != pending {
        var i :| 0 <= i < |next| && next[i].Same(t);
        if i == |pending| {
          var j :| 0 <= j < |pending| && pending[j].Same(v.tx);
          assert pending[j].Same(t);
        } else {
          assert pending[i].Same(t);
        }
      }
    }
  }

  // ----- The block that takes the pending list -----

  /**
   After a tick every actor is solvent in every token, whatever was pending and
   whether or not a genesis block came on top: the list is empty and no balance
   is negative.
   */
  lemma CommitKeepsSolvent(c: Codec, ctx: Context, s: Chain, pending: seq<Transaction>, token: ActorId)
    requires c.Faithful() && Inv(s) && Balanced(c, s) && AllQuiet(c, s.blocks) && NonNegative(pending)
    ensures Solvent(ctx, In(BalanceOn(c, MakeBlock(c, s, pending).blocks), token), [])
  {
    assert Rooted(s.blocks);
    MakeBlockKeepsInv(c, s, pending);
    MakeBlockKeepsBooks(c, s, pending);
    MakeBlockKeepsQuiet(c, s, pending);
    EmptyListIsSolvent(c, ctx, MakeBlock(c, s, pending), token);
  }

  lemma EmptyListIsSolvent(c: Codec, ctx: Context, s: Chain, token: ActorId)
    requires Rooted(s.blocks) && Balanced(c, s) && AllQuiet(c, s.blocks)
    ensures Solvent(ctx, In(BalanceOn(c, s.blocks), token), [])
  {
    hide Balanced, AllQuiet, UserBalance, Received, ThisPeriod, Balance, SentNothing;
    var balance := In(BalanceOn(c, s.blocks), token);
    forall a: ActorId
      ensures Available(balance, [])(a) >= 0
    {
      BalanceAgainstLedger(c, s, a, token);
      assert Available(balance, [])(a) == balance(a) + PendingNet([], a);
    }
  }

  /**
   What proveTx and the ledger make of one step in a reachable state: with the
   ledger's State at or above zero for everyone, it stays so exactly when a
   pushed transfer is covered by the State, that is by the balance less all the
   sender has sent since the last genesis block.
   */
  lemma LedgerSolventExactly(c: Codec, ctx: Context, s: Chain, pending: seq<Transaction>, tx: Transaction)
    requires Rooted(s.blocks) && Balanced(c, s) && AllQuiet(c, s.blocks) && tx.typeTx == Ordinary
    requires Solvent(ctx, StateOn(s, tx.token), pending)
    ensures var judged := In(BalanceOn(c, s.blocks), tx.token);
            Solvent(ctx, StateOn(s, tx.token), After(ctx, judged, pending, tx))
            <==> (Pushes(ctx, judged, pending, tx) && tx.sender != ctx.firstId && !IsEmptyActor(tx.sender) ==>
                    tx.amount <= Available(judged, pending)(tx.sender) - Sent(ThisPeriod(c, s), tx.sender, tx.token))
  {
    hide Balanced, AllQuiet, ThisPeriod, After, Pushes, Solvent, UserBalance, Received, Balance, SentNothing;
    var judged := In(BalanceOn(c, s.blocks), tx.token);
    StepKeepsSolventExactly(ctx, judged, StateOn(s, tx.token), pending, tx);
    BalanceAgainstLedger(c, s, tx.sender, tx.token);
  }

  /** The States of one token in cacheData. */
  function StateOn(s: Chain, token: ActorId): ActorId -> int {
    a => Balance(s.cache, a, token)
  }

  /**
   The failing case on a new network: an actor receives 101, sends 100 twice,
   and with a State of -99 is still approved to send another 100.
   */
  lemma SpentCoinsAreApprovedAgain(
    c: Codec, ctx: Context, giver: ActorId, a: ActorId, b: ActorId, token: ActorId)
    requires c.Faithful() && ctx.mainActorId == ctx.firstId && a != ctx.firstId
    requires a in ctx.known && b in ctx.known && !IsEmptyActor(a) && !IsEmptyActor(b) && a != b && giver != a
    ensures var s := MakeBlock(c, Start(c), [Transfer(giver, a, 101, token), Transfer(a, b, 100, token), Transfer(a, b, 100, token)]);
            && Balance(s.cache, a, token) == -99
            && Judge(ctx, Transfer(a, b, 100, token), Available(In(BalanceOn(c, s.blocks), token), [])).Proved?
  {
    hide MakeBlock, Balance, Received, Flow, UserBalance;
    var txs := [Transfer(giver, a, 101, token), Transfer(a, b, 100, token), Transfer(a, b, 100, token)];
    FirstTick(c, txs, a, token);
    ReceivedOnce(txs, giver, a, b, token);
  }

  lemma ReceivedOnce(txs: seq<Transaction>, giver: ActorId, a: ActorId, b: ActorId, token: ActorId)
    requires giver != a && a != b
    requires txs == [Transfer(giver, a, 101, token), Transfer(a, b, 100, token), Transfer(a, b, 100, token)]
    ensures Received(txs, a, token) == 101 && Flow(txs, a, token) == -99
  {
    var two, one := txs[..2], txs[..1];
    assert two[..1] == one && one[..0] == [];
    assert Received(one, a, token) == 101 && Flow(one, a, token) == 101;
    assert Received(two, a, token) == 101 && Flow(two, a, token) == 1;
  }

  lemma FirstTickBlocks(c: Codec, txs: seq<Transaction>)
    requires c.Faithful() && txs != []
    ensures var s := MakeBlock(c, Start(c), txs);
            && |s.blocks| == 2 && s.blocks[0].kind == GenesisBlock && s.blocks[1].kind == DataBlock
            && ExtractTransactions(c, s.blocks[1]) == txs
  {
    hide DataAfter, FirstGenesis, BookedAll, ExtractTransactions, Shape;
    FirstIsGenesis(c);
    StartInv(c);
    var u := Start(c);
    assert Stripped(u) == u;
    DataFollows(c, u.blocks, txs);
    ExtractConverted(c, txs, DataAfter(c, u.blocks, txs));
  }

  /** The first tick of a new network with something pending: balance and State are those of the batch. */
  lemma FirstTick(c: Codec, txs: seq<Transaction>, a: ActorId, token: ActorId)
    requires c.Faithful() && txs != [] && NonNegative(txs)
    ensures var s := MakeBlock(c, Start(c), txs);
            && UserBalance(c, s.blocks, |s.blocks|, a, token) == Received(txs, a, token)
            && Balance(s.cache, a, token) == Flow(txs, a, token)
  {
    assert Rooted(Start(c).blocks);
    hide MakeBlock, Start, Shape, Counted, Received, Flow, Balance, ExtractRows, GenesisState, NonNegative, AllQuiet;
    StartInv(c);
    StartBalanced(c);
    StartQuiet(c);
    MakeBlockKeepsInv(c, Start(c), txs);
    MakeBlockKeepsBooks(c, Start(c), txs);
    MakeBlockKeepsQuiet(c, Start(c), txs);
    FirstTickBlocks(c, txs);
    var s := MakeBlock(c, Start(c), txs);
    TwoBlocks(c, s.blocks, txs);
    assert LastGenesis(s.blocks, 2) == 0;
    BalanceAgainstLedger(c, s, a, token);
    ReceivedIsFlowAndSent(txs, a, token);
  }

  lemma TwoBlocks(c: Codec, blocks: seq<Block>, txs: seq<Transaction>)
    requires |blocks| == 2 && blocks[0].kind == GenesisBlock && blocks[1].kind == DataBlock
    requires ExtractTransactions(c, blocks[1]) == txs
    ensures TransactionsFrom(c, blocks, 0, 2) == txs
  {
    hide ExtractTransactions;
    assert TransactionsFrom(c, blocks, 0, 0) == [];
    assert TransactionsFrom(c, blocks, 0, 1) == [];
    assert [] + txs == txs;
  }

  /**
   The failing case with two tokens, on a new network: an actor receives 300 of
   token u and 100 of token t. A pending transfer of 100 u, found again and
   judged by the balance in u, leaves it 100 short in token t.
   */
  lemma TwoTokensFail(c: Codec, ctx: Context, giver: ActorId, a: ActorId, b: ActorId, t: ActorId, u: ActorId)
    requires c.Faithful() && ctx.mainActorId == ctx.firstId && t != u && a != b && a != ctx.firstId
    requires a in ctx.known && b in ctx.known && !IsEmptyActor(a) && !IsEmptyActor(b)
    ensures var balance := BalanceOn(c, MakeBlock(c, Start(c), [Transfer(giver, a, 300, u), Transfer(giver, a, 100, t)]).blocks);
            var tx := Transfer(a, b, 100, u);
            && Solvent(ctx, In(balance, t), [tx]) && Solvent(ctx, In(balance, u), [tx])
            && !Solvent(ctx, In(balance, t), AfterAll(ctx, balance, [tx], [tx]))
  {
    hide MakeBlock, UserBalance, Received;
    var txs := [Transfer(giver, a, 300, u), Transfer(giver, a, 100, t)];
    var balance := BalanceOn(c, MakeBlock(c, Start(c), txs).blocks);
    forall token, x
      ensures balance(token, x) == Received(txs, x, token)
    {
      FirstTick(c, txs, x, token);
    }
    ReceivedOfBoth(txs, giver, a, t, u);
    OverdrawsOther(ctx, balance, a, b, t, u);
  }

  lemma ReceivedOfBoth(txs: seq<Transaction>, giver: ActorId, a: ActorId, t: ActorId, u: ActorId)
    requires t != u && txs == [Transfer(giver, a, 300, u), Transfer(giver, a, 100, t)]
    ensures Received(txs, a, u) == 300 && Received(txs, a, t) == 100
    ensures forall token, x :: Received(txs, x, token) >= 0
  {
    var one := txs[..1];
    assert one[..0] == [];
    forall token, x
      ensures Received(txs, x, token)
           == (if x == a && token == u then 300 else 0) + (if x == a && token == t then 100 else 0)
    {
      assert Received(one, x, token) == if x == a && token == u then 300 else 0;
    }
  }

  lemma OverdrawsOther(ctx: Context, balance: (ActorId, ActorId) -> int, a: ActorId, b: ActorId, t: ActorId, u: ActorId)
    requires ctx.mainActorId == ctx.firstId && t != u && a != b && a != ctx.firstId
    requires a in ctx.known && b in ctx.known && !IsEmptyActor(a) && !IsEmptyActor(b)
    requires balance(u, a) == 300 && balance(t, a) == 100 && forall token, x :: balance(token, x) >= 0
    ensures var tx := Transfer(a, b, 100, u);
            && Solvent(ctx, In(balance, t), [tx]) && Solvent(ctx, In(balance, u), [tx])
            && !Solvent(ctx, In(balance, t), AfterAll(ctx, balance, [tx], [tx]))
  {
    hide Judge, PendingNet, Pushes, After;
    var tx := Transfer(a, b, 100, u);
    forall x
      ensures PendingNet([tx], x) == Effect(tx, x)
    {
      NetOfOne(tx, x);
    }
    FoundAgain(ctx, In(balance, u), tx);
    StepKeepsSolventExactly(ctx, In(balance, u), In(balance, t), [tx], tx);
    assert [tx][1..] == [];
    assert AfterAll(ctx, balance, [tx], [tx]) == After(ctx, In(balance, u), [tx], tx);
  }

  lemma NetOfOne(tx: Transaction, x: ActorId)
    ensures PendingNet([tx], x) == Effect(tx, x)
  {
    PendingPush([], tx, x);
    assert [] + [tx] == [tx];
  }

  /** A pending transfer between known actors that is available twice and one percent more is pushed again. */
  lemma FoundAgain(ctx: Context, judged: ActorId -> int, tx: Transaction)
    requires tx.typeTx == Ordinary && tx.amount > 0 && tx.data != INIT_CONTRACT && tx.sender != tx.receiver
    requires tx.sender in ctx.known && tx.receiver in ctx.known
    requires !IsEmptyActor(tx.sender) && !IsEmptyActor(tx.receiver) && tx.sender != ctx.firstId
    requires 100 * judged(tx.sender) >= 201 * tx.amount
    ensures Pushes(ctx, judged, [tx], tx)
  {
    NetOfOne(tx, tx.sender);
    assert Available(judged, [tx])(tx.sender) == judged(tx.sender) - tx.amount;
    assert [tx][0].Same(tx);
  }
}
