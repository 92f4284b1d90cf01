/** The cacheData table: what each actor gained or lost of each token since the last genesis block. */
module Ledger {
  import opened Wrappers
  import opened Bytes
  import opened Blocks
  import Framing

  datatype CacheRow = CacheRow(actor: ActorId, token: ActorId, state: int)

  predicate Matches(row: CacheRow, actor: ActorId, token: ActorId) {
    row.actor == actor && row.token == token
  }

  /** Index of the first matching row, from i on; |rows| when there is none. */
  function Find(rows: seq<CacheRow>, actor: ActorId, token: ActorId, i: nat): (k: nat)
    requires i <= |rows|
    ensures i <= k <= |rows|
    ensures forall j :: i <= j < k ==> !Matches(rows[j], actor, token)
    ensures k < |rows| ==> Matches(rows[k], actor, token)
    decreases |rows| - i
  {
    if i == |rows| || Matches(rows[i], actor, token) then i else Find(rows, actor, token, i + 1)
  }

  /** UPDATE cacheData SET State WHERE ActorId AND Token. */
  function Updated(rows: seq<CacheRow>, actor: ActorId, token: ActorId, state: int): (r: seq<CacheRow>)
    ensures |r| == |rows|
  {
    seq(|rows|, i requires 0 <= i < |rows| =>
      if Matches(rows[i], actor, token) then rows[i].(state := state) else rows[i])
  }

  /** One side of a transfer: a row with the state `first`, or the first row's state changed in every matching row. */
  function Added(rows: seq<CacheRow>, actor: ActorId, token: ActorId, first: int, delta: int): seq<CacheRow> {
    var k := Find(rows, actor, token, 0);
    if k == |rows| then rows + [CacheRow(actor, token, first)]
    else Updated(rows, actor, token, rows[k].state + delta)
  }

  /** The state of a first debit, which is stored as '-' before the amount's text. */
  function FirstDebit(c: Codec, amount: int): int {
    c.floatOf([MINUS] + c.amountText(amount))
  }

  function Booked(c: Codec, rows: seq<CacheRow>, tx: Transaction): seq<CacheRow> {
    Added(Added(rows, tx.sender, tx.token, FirstDebit(c, tx.amount), -tx.amount), tx.receiver, tx.token, tx.amount, tx.amount)
  }

  function BookedAll(c: Codec, rows: seq<CacheRow>, txs: seq<Transaction>): seq<CacheRow>
    decreases |txs|
  {
    if txs == [] then rows else Booked(c, BookedAll(c, rows, txs[..|txs| - 1]), txs[|txs| - 1])
  }

  /** The transactions saveTxInfoInEC reads from a payload; every item is deserialized. */
  function PayloadTransactions(c: Codec, data: Bytes): seq<Transaction> {
    match Framing.Decoded(data)
    case None => []
    case Some(items) => seq(|items|, i requires 0 <= i < |items| => c.deserialize(items[i]))
  }

  lemma PayloadOfConverted(c: Codec, txs: seq<Transaction>)
    requires c.Faithful() && txs != []
    ensures PayloadTransactions(c, ConvertTxs(c, txs)) == txs
  {
    Framing.RoundTrip(SerializeAll(c, txs));
  }

  class CacheTable {
    var rows: seq<CacheRow>

    constructor ()
      ensures rows == []
    {
      rows := [];
    }

    /** SELECT ... WHERE ActorId AND Token, then INSERT or UPDATE. */
    method Add(actor: ActorId, token: ActorId, first: int, delta: int)
      modifies this
      ensures rows == Added(old(rows), actor, token, first, delta)
    {
      var k := Find(rows, actor, token, 0);
      if k == |rows| {
        rows := rows + [CacheRow(actor, token, first)];
      } else {
        rows := Updated(rows, actor, token, rows[k].state + delta);
      }
    }

    /** saveTxInfoInEC. */
    method SaveTxInfoInEC(c: Codec, data: Bytes)
      modifies this
      ensures rows == BookedAll(c, old(rows), PayloadTransactions(c, data))
    {
      hide Framing.Decoded, Added;
      var l := Framing.Deserialize(data);
      if l.None? {
        return;
      }
      ghost var txs := PayloadTransactions(c, data);
      for i := 0 to |l.value|
        invariant rows == BookedAll(c, old(rows), txs[..i])
      {
        var q := c.deserialize(l.value[i]);
        assert txs[..i + 1][..i] == txs[..i];
        Add(q.sender, q.token, FirstDebit(c, q.amount), -q.amount);
        Add(q.receiver, q.token, q.amount, q.amount);
      }
      assert txs[..|l.value|] == txs;
    }
  }

  // ----- Properties -----

  /** No two rows for one actor and token. */
  ghost predicate Unique(rows: seq<CacheRow>) {
    forall i, j :: 0 <= i < j < |rows| ==> !(rows[i].actor == rows[j].actor && rows[i].token == rows[j].token)
  }

  /** The State of an actor and token; zero without a row. */
  function Balance(rows: seq<CacheRow>, actor: ActorId, token: ActorId): int {
    var k := Find(rows, actor, token, 0);
    if k == |rows| then 0 else rows[k].state
  }

  /** The states of one token in the first k rows, added up. */
  function TokenTotal(rows: seq<CacheRow>, token: ActorId, k: nat): int
    requires k <= |rows|
  {
    if k == 0 then 0
    else TokenTotal(rows, token, k - 1) + (if rows[k - 1].token == token then rows[k - 1].state else 0)
  }

  /** Received minus sent. */
  function Flow(txs: seq<Transaction>, actor: ActorId, token: ActorId): int
    decreases |txs|
  {
    if txs == [] then 0
    else
      var tx := txs[|txs| - 1];
      Flow(txs[..|txs| - 1], actor, token)
      + (if tx.receiver == actor && tx.token == token then tx.amount else 0)
      - (if tx.sender == actor && tx.token == token then tx.amount else 0)
  }

  lemma BalanceIs(rows: seq<CacheRow>, k: nat, actor: ActorId, token: ActorId)
    requires Unique(rows) && k < |rows| && Matches(rows[k], actor, token)
    ensures Balance(rows, actor, token) == rows[k].state
  {
    assert Find(rows, actor, token, 0) == k;
  }

  /** No amount is negative. */
  ghost predicate NonNegative(txs: seq<Transaction>) {
    forall i :: 0 <= i < |txs| ==> txs[i].amount >= 0
  }

  lemma AddedKeepsUnique(rows: seq<CacheRow>, actor: ActorId, token: ActorId, first: int, delta: int)
    requires Unique(rows)
    ensures Unique(Added(rows, actor, token, first, delta))
  {
    var r, k := Added(rows, actor, token, first, delta), Find(rows, actor, token, 0);
    assert forall i :: 0 <= i < |rows| ==> r[i].actor == rows[i].actor && r[i].token == rows[i].token;
  }

  lemma AddedBalance(rows: seq<CacheRow>, actor: ActorId, token: ActorId, delta: int, a: ActorId, t: ActorId)
    requires Unique(rows)
    ensures Unique(Added(rows, actor, token, delta, delta))
    ensures Balance(Added(rows, actor, token, delta, delta), a, t)
         == Balance(rows, a, t) + if a == actor && t == token then delta else 0
  {
    AddedKeepsUnique(rows, actor, token, delta, delta);
    var r := Added(rows, actor, token, delta, delta);
    var k, l := Find(rows, a, t, 0), Find(r, a, t, 0);
    if k < |rows| {
      BalanceIs(r, k, a, t);
    } else if a == actor && t == token {
      BalanceIs(r, |rows|, a, t);
    } else {
      assert forall i :: 0 <= i < |r| ==> !Matches(r[i], a, t);
    }
  }

  lemma {:induction false} AppendedTotal(rows: seq<CacheRow>, row: CacheRow, t: ActorId, k: nat)
    requires k <= |rows|
    ensures TokenTotal(rows + [row], t, k) == TokenTotal(rows, t, k)
  {
    if k > 0 {
      AppendedTotal(rows, row, t, k - 1);
    }
  }

  lemma {:induction false} UpdatedTotal(rows: seq<CacheRow>, i: nat, state: int, t: ActorId, k: nat)
    requires Unique(rows) && i < |rows| && k <= |rows|
    ensures TokenTotal(Updated(rows, rows[i].actor, rows[i].token, state), t, k)
         == TokenTotal(rows, t, k) + if i < k && rows[i].token == t then state - rows[i].state else 0
  {
    if k > 0 {
      UpdatedTotal(rows, i, state, t, k - 1);
      var r := Updated(rows, rows[i].actor, rows[i].token, state);
      if k - 1 != i {
        assert r[k - 1] == rows[k - 1];
      }
    }
  }

  lemma AddedTotal(rows: seq<CacheRow>, actor: ActorId, token: ActorId, delta: int, t: ActorId)
    requires Unique(rows)
    ensures var r := Added(rows, actor, token, delta, delta);
            TokenTotal(r, t, |r|) == TokenTotal(rows, t, |rows|) + if t == token then delta else 0
  {
    var k := Find(rows, actor, token, 0);
    if k == |rows| {
      AppendedTotal(rows, CacheRow(actor, token, delta), t, |rows|);
    } else {
      UpdatedTotal(rows, k, rows[k].state + delta, t, |rows|);
    }
  }

  /**
   For amounts that are not negative, each State changes by what the actor
   received minus what it sent.
   */
  lemma {:induction false} BookingFollowsFlow(c: Codec, rows: seq<CacheRow>, txs: seq<Transaction>, a: ActorId, t: ActorId)
    requires c.Faithful() && Unique(rows) && NonNegative(txs)
    ensures Unique(BookedAll(c, rows, txs))
    ensures Balance(BookedAll(c, rows, txs), a, t) == Balance(rows, a, t) + Flow(txs, a, t)
    decreases |txs|
  {
    hide Added, Balance, Unique;
    if txs != [] {
      var before, tx := txs[..|txs| - 1], txs[|txs| - 1];
      BookingFollowsFlow(c, rows, before, a, t);
      var r := BookedAll(c, rows, before);
      assert FirstDebit(c, tx.amount) == -tx.amount;
      AddedBalance(r, tx.sender, tx.token, -tx.amount, a, t);
      AddedBalance(Added(r, tx.sender, tx.token, -tx.amount, -tx.amount), tx.receiver, tx.token, tx.amount, a, t);
    }
  }

  /** Booking transfers leaves the total of every token as it was. */
  lemma {:induction false} BookingConserves(c: Codec, rows: seq<CacheRow>, txs: seq<Transaction>, t: ActorId)
    requires c.Faithful() && Unique(rows) && NonNegative(txs)
    ensures Unique(BookedAll(c, rows, txs))
    ensures var r := BookedAll(c, rows, txs);
            TokenTotal(r, t, |r|) == TokenTotal(rows, t, |rows|)
    decreases |txs|
  {
    hide Added, Balance, Unique, TokenTotal;
    if txs != [] {
      var before, tx := txs[..|txs| - 1], txs[|txs| - 1];
      BookingConserves(c, rows, before, t);
      var r := BookedAll(c, rows, before);
      assert FirstDebit(c, tx.amount) == -tx.amount;
      AddedBalance(r, tx.sender, tx.token, -tx.amount, tx.sender, t);
      AddedTotal(r, tx.sender, tx.token, -tx.amount, t);
      var r' := Added(r, tx.sender, tx.token, -tx.amount, -tx.amount);
      AddedBalance(r', tx.receiver, tx.token, tx.amount, tx.sender, t);
      AddedTotal(r', tx.receiver, tx.token, tx.amount, t);
    }
  }

  /** The first transfer between two actors makes two rows, the sender's first. */
  lemma FirstBooking(c: Codec, tx: Transaction)
    requires c.Faithful() && tx.amount >= 0 && tx.sender != tx.receiver
    ensures BookedAll(c, [], [tx]) == [CacheRow(tx.sender, tx.token, -tx.amount), CacheRow(tx.receiver, tx.token, tx.amount)]
  {
    assert [tx][..0] == [];
    assert BookedAll(c, [], []) == [];
    assert FirstDebit(c, tx.amount) == -tx.amount;
  }

  lemma {:induction false} FlowAppend(a: seq<Transaction>, b: seq<Transaction>, actor: ActorId, token: ActorId)
    ensures Flow(a + b, actor, token) == Flow(a, actor, token) + Flow(b, actor, token)
    decreases |b|
  {
    if b == [] {
      assert a + b == a;
    } else {
      assert (a + b)[..|a + b| - 1] == a + b[..|b| - 1];
      FlowAppend(a, b[..|b| - 1], actor, token);
    }
  }
}
