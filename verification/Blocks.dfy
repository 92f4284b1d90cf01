/**
 Blocks and transactions. Hashing, the transaction serialization and the text
 of an amount are functions of the node's `Codec`. Signatures and dates are not
 modelled: a block is signed exactly when its hash is set.
 */
module Blocks {
  import opened Wrappers
  import opened Bytes
  import Framing

  type ActorId = Bytes

  /** The default ActorId: twenty '0' chars. */
  const NO_ACTOR: ActorId := [48, 48, 48, 48, 48, 48, 48, 48, 48, 48, 48, 48, 48, 48, 48, 48, 48, 48, 48, 48]

  /** ActorId::isEmpty. */
  predicate IsEmptyActor(a: ActorId) {
    a == [] || a == NO_ACTOR
  }

  /** ActorId::normalize. */
  function Padded(a: Bytes): (r: ActorId)
    ensures |r| >= 20 && (|a| >= 20 ==> r == a)
    ensures |a| < 20 ==> |r| == 20 && r[20 - |a|..] == a && forall i :: 0 <= i < 20 - |a| ==> r[i] == 48
  {
    if |a| < 20 then seq(20 - |a|, _ => 48) + a else a
  }

  datatype TypeTx = Ordinary | Reward

  /** A transaction; its hash is recomputed from the other fields wherever it is read back. */
  datatype Transaction = Transaction(
    sender: ActorId, receiver: ActorId, amount: int, date: int, data: Bytes, token: ActorId, prevBlock: int,
    gas: int, hop: int, approver: ActorId, producer: ActorId, digSig: Bytes, typeTx: TypeTx)
  {
    /** Transaction::operator==: hash, approver, producer, signature and type do not count. */
    predicate Same(other: Transaction) {
      && sender == other.sender && receiver == other.receiver && amount == other.amount
      && date == other.date && data == other.data && token == other.token
      && gas == other.gas && hop == other.hop && prevBlock == other.prevBlock
    }
  }

  /** Two transactions are equal when they differ at most in approver, producer, signature and type. */
  lemma SameExactly(t: Transaction, u: Transaction)
    ensures t.Same(u) <==> u == t.(approver := u.approver, producer := u.producer, digSig := u.digSig, typeTx := u.typeTx)
  {
  }

  lemma EmptyIdIsPadded()
    ensures Padded([]) == NO_ACTOR && IsEmptyActor(Padded([]))
  {
  }

  datatype Kind = DataBlock | DummyBlock | GenesisBlock | MergeBlock | GenesisMergeBlock

  datatype Block = Block(
    kind: Kind, index: int, data: Bytes, prevHash: Bytes, hash: Bytes, prevGenHash: Bytes)
  {
    /** Block::isEmpty. */
    predicate IsEmpty() {
      hash == [] && prevHash == []
    }
  }

  /** The default block: what a lookup returns when there is no file. */
  const NO_BLOCK := Block(DataBlock, -1, [], [], [], [])

  const MINUS: Byte := 45

  /** floatOf and wholeOf read an amount's text as BigNumberFloat and as BigNumber do. */
  datatype Codec = Codec(
    hash: Bytes -> Bytes,
    serialize: Transaction -> Bytes,
    deserialize: Bytes -> Transaction,
    amountText: int -> Bytes,
    floatOf: Bytes -> int,
    wholeOf: Bytes -> int)
  {
    /**
     Transactions read back as they were written; nothing hashes or serializes
     to the empty string; a minus sign before the text of an amount negates it,
     and the text of zero is zero for BigNumber too.
     */
    ghost predicate Faithful() {
      && (forall t :: serialize(t) != [] && deserialize(serialize(t)) == t)
      && (forall x :: hash(x) != [])
      && (forall m :: m >= 0 ==> floatOf([MINUS] + amountText(m)) == -m)
      && wholeOf(amountText(0)) == 0
    }
  }

  // ----- BigNumber::toStdString, base 16 -----

  function HexDigit(d: nat): Byte
    requires d < 16
  {
    if d < 10 then 48 + d as Byte else 87 + d as Byte
  }

  function Hex(n: nat): (r: Bytes)
    ensures r != []
  {
    if n < 16 then [HexDigit(n)] else Hex(n / 16) + [HexDigit(n % 16)]
  }

  function IndexText(index: int): Bytes {
    if index >= 0 then Hex(index) else [45] + Hex(-index)
  }

  /** The number that a text of lower-case hexadecimal digits says. */
  function HexValue(s: Bytes): nat {
    if s == [] then 0
    else
      var d := s[|s| - 1];
      16 * HexValue(s[..|s| - 1])
      + (if 48 <= d <= 57 then (d - 48) as nat else if 97 <= d <= 102 then (d - 87) as nat else 0)
  }

  /** The text has digits 0-9 and a-f only, says the number, and has no leading zero but for 0 itself. */
  lemma {:induction false} HexExactly(n: nat)
    ensures forall i :: 0 <= i < |Hex(n)| ==> 48 <= Hex(n)[i] <= 57 || 97 <= Hex(n)[i] <= 102
    ensures HexValue(Hex(n)) == n && (Hex(n)[0] == 48 ==> n == 0)
  {
    DigitExactly(n % 16);
    var h := Hex(n);
    if n >= 16 {
      HexExactly(n / 16);
      assert h[..|h| - 1] == Hex(n / 16);
    } else {
      assert h[..0] == [];
    }
  }

  lemma DigitExactly(d: nat)
    requires d < 16
    ensures var c := HexDigit(d);
            if d < 10 then 48 <= c <= 57 && (c - 48) as nat == d else 97 <= c <= 102 && (c - 87) as nat == d
    ensures HexDigit(d) == 48 ==> d == 0
  {
  }

  // ----- Payload -----

  function SerializeAll(c: Codec, txs: seq<Transaction>): (r: seq<Bytes>)
    ensures |r| == |txs|
  {
    seq(|txs|, i requires 0 <= i < |txs| => c.serialize(txs[i]))
  }

  /** convertTxs. */
  function ConvertTxs(c: Codec, txs: seq<Transaction>): Bytes {
    Framing.Encoded(SerializeAll(c, txs))
  }

  function ReadAll(c: Codec, items: seq<Bytes>): seq<Transaction> {
    if items == [] then []
    else (if items[0] != [] then [c.deserialize(items[0])] else []) + ReadAll(c, items[1..])
  }

  /** Block::extractTransactions; a payload that does not decode reads as none. */
  function ExtractTransactions(c: Codec, b: Block): seq<Transaction> {
    if b.kind != DataBlock then []
    else match Framing.Decoded(b.data)
      case None => []
      case Some(items) => ReadAll(c, items)
  }

  lemma {:induction false} ReadSerialized(c: Codec, txs: seq<Transaction>)
    requires c.Faithful()
    ensures ReadAll(c, SerializeAll(c, txs)) == txs
  {
    if txs != [] {
      ReadSerialized(c, txs[1..]);
      assert SerializeAll(c, txs)[1..] == SerializeAll(c, txs[1..]);
      assert txs == [txs[0]] + txs[1..];
    }
  }

  /** A data block made from a non-empty list of transactions holds exactly that list. */
  lemma ExtractConverted(c: Codec, txs: seq<Transaction>, b: Block)
    requires c.Faithful() && txs != [] && b.kind == DataBlock && b.data == ConvertTxs(c, txs)
    ensures ExtractTransactions(c, b) == txs
  {
    Framing.RoundTrip(SerializeAll(c, txs));
    ReadSerialized(c, txs);
  }

  /** An empty data block holds no transaction: the one empty item is skipped. */
  lemma EmptyBlockIsEmpty(c: Codec, b: Block)
    requires b.data == []
    ensures ExtractTransactions(c, b) == []
  {
    Framing.RoundTrip([]);
    assert Framing.Encoded([]) == [];
    var items: seq<Bytes> := [[]];
    assert items[1..] == [];
    assert ReadAll(c, items[1..]) == [];
    assert ReadAll(c, items) == [];
    assert Framing.Decoded(b.data) == Some(items);
  }

  // ----- Hash -----

  /** The chained hash of the serialized transactions. */
  function TxHash(c: Codec, txs: seq<Transaction>): Bytes
    requires txs != []
  {
    var last := |txs| - 1;
    if last == 0 then c.hash(c.serialize(txs[0]))
    else c.hash(TxHash(c, txs[..last]) + c.hash(c.serialize(txs[last])))
  }

  /** getDataForHash: only the index and, in a data block, the transactions. */
  function DataForHash(c: Codec, b: Block): Bytes {
    var idHash := c.hash(IndexText(b.index));
    var txs := ExtractTransactions(c, b);
    if txs == [] then idHash else idHash + TxHash(c, txs)
  }

  /** getDataForHash's loop over the extracted transactions. */
  method ComputeTxHash(c: Codec, txs: seq<Transaction>) returns (txHash: Bytes)
    requires txs != []
    ensures txHash == TxHash(c, txs)
  {
    txHash := c.hash(c.serialize(txs[0]));
    for i := 1 to |txs|
      invariant txHash == TxHash(c, txs[..i])
    {
      var tmpTxHash := c.hash(c.serialize(txs[i]));
      assert txs[..i + 1][..i] == txs[..i];
      txHash := c.hash(txHash + tmpTxHash);
    }
    assert txs[..|txs|] == txs;
  }

  /** Block::sign: calcHash keeps the old hash only if the new one is empty. */
  function Signed(c: Codec, b: Block): Block {
    var h := c.hash(DataForHash(c, b));
    if h != [] then b.(hash := h) else b
  }

  const ZERO_INDEX: Bytes := [48, 32, 105, 110, 100, 101, 120]

  /** The Block(data, prev) constructor. */
  function NextBlock(c: Codec, data: Bytes, prev: Block): Block {
    if prev.IsEmpty() then Block(DataBlock, 0, data, c.hash(ZERO_INDEX), [], [])
    else Block(DataBlock, prev.index + 1, data, prev.hash, [], [])
  }

  /** The very strings hashed for a block: without transactions, with one, and with two. */
  lemma HashWrittenOut(c: Codec, b: Block, t: Transaction, u: Transaction)
    requires c.Faithful()
    ensures var id := c.hash(if b.index >= 0 then Hex(b.index) else [45] + Hex(-b.index));
            && (ExtractTransactions(c, b) == [] ==> Signed(c, b) == b.(hash := c.hash(id)))
            && (ExtractTransactions(c, b) == [t] ==> Signed(c, b) == b.(hash := c.hash(id + c.hash(c.serialize(t)))))
            && (ExtractTransactions(c, b) == [t, u] ==>
                  Signed(c, b) == b.(hash := c.hash(id + c.hash(c.hash(c.serialize(t)) + c.hash(c.serialize(u))))))
  {
    hide ExtractTransactions, Hex;
    assert [t, u][..1] == [t];
    assert TxHash(c, [t]) == c.hash(c.serialize(t));
  }
}
