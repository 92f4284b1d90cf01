/** What a block's hash pins down: the index and, in order, the transactions. */
module BlockHash {
  import opened Bytes
  import opened Blocks

  lemma {:induction false} HexInjective(a: nat, b: nat)
    requires Hex(a) == Hex(b)
    ensures a == b
    decreases a + b
  {
    var x, y := Hex(a), Hex(b);
    LastDigit(a);
    LastDigit(b);
    assert HexDigit(a % 16) == HexDigit(b % 16);
    DigitInjective(a % 16, b % 16);
    if a >= 16 && b >= 16 {
      assert x[..|x| - 1] == Hex(a / 16) && y[..|y| - 1] == Hex(b / 16);
      HexInjective(a / 16, b / 16);
    }
  }

  lemma LastDigit(a: nat)
    ensures Hex(a)[|Hex(a)| - 1] == HexDigit(a % 16) && Hex(a)[0] != 45
  {
  }

  lemma DigitInjective(a: nat, b: nat)
    requires a < 16 && b < 16 && HexDigit(a) == HexDigit(b)
    ensures a == b
  {
  }

  lemma IndexTextInjective(a: int, b: int)
    requires IndexText(a) == IndexText(b)
    ensures a == b
  {
    if a >= 0 && b >= 0 {
      HexInjective(a, b);
    } else if a < 0 && b < 0 {
      assert IndexText(a)[1..] == Hex(-a) && IndexText(b)[1..] == Hex(-b);
      HexInjective(-a, -b);
    } else {
      LastDigit(if a >= 0 then a else b);
    }
  }

  /** The strings hashed for the chained transaction hash. */
  ghost function TxInputs(c: Codec, txs: seq<Transaction>): set<Bytes>
    requires txs != []
  {
    var last := |txs| - 1;
    if last == 0 then {c.serialize(txs[0])}
    else TxInputs(c, txs[..last]) + {c.serialize(txs[last]), TxHash(c, txs[..last]) + c.hash(c.serialize(txs[last]))}
  }

  /** Every string hashed for a block's hash. */
  ghost function HashInputs(c: Codec, b: Block): set<Bytes> {
    var txs := ExtractTransactions(c, b);
    {IndexText(b.index), DataForHash(c, b)} + (if txs == [] then {} else TxInputs(c, txs))
  }

  /** hash does not collide on s, and its digests all have n > 0 bytes. */
  ghost predicate Binding(c: Codec, s: set<Bytes>, n: nat) {
    && n > 0
    && (forall x :: |c.hash(x)| == n)
    && (forall x, y :: x in s && y in s && c.hash(x) == c.hash(y) ==> x == y)
  }

  lemma TxHashLength(c: Codec, txs: seq<Transaction>, s: set<Bytes>, n: nat)
    requires txs != [] && Binding(c, s, n)
    ensures |TxHash(c, txs)| == n
  {
  }

  /**
   The serialization of a's first transaction is the very string, two joined
   digests, that is hashed for a longer front part of b; the rest is the same.
   */
  predicate Passes(c: Codec, a: seq<Transaction>, b: seq<Transaction>) {
    && 0 < |a| < |b|
    && var k := |b| - |a|;
       && a[1..] == b[k + 1..]
       && c.serialize(a[0]) == TxHash(c, b[..k]) + c.hash(c.serialize(b[k]))
  }

  /** The last string hashed for the chained hash. */
  function LastInput(c: Codec, txs: seq<Transaction>): Bytes
    requires txs != []
  {
    var last := |txs| - 1;
    if last == 0 then c.serialize(txs[0]) else TxHash(c, txs[..last]) + c.hash(c.serialize(txs[last]))
  }

  lemma TxDigest(c: Codec, txs: seq<Transaction>)
    requires txs != []
    ensures TxHash(c, txs) == c.hash(LastInput(c, txs)) && LastInput(c, txs) in TxInputs(c, txs)
  {
  }

  /** A single transaction has the hash of a longer list exactly when it passes for it. */
  lemma OneAgainstMany(c: Codec, a: seq<Transaction>, b: seq<Transaction>, s: set<Bytes>, n: nat)
    requires |a| == 1 && |b| > 1 && Binding(c, s, n)
    requires TxInputs(c, a) <= s && TxInputs(c, b) <= s
    ensures TxHash(c, a) == TxHash(c, b) <==> Passes(c, a, b)
  {
    hide TxHash, TxInputs;
    TxDigest(c, a);
    TxDigest(c, b);
    assert a[1..] == b[|b| - 1 + 1..];
  }

  lemma OneBinds(c: Codec, a: seq<Transaction>, b: seq<Transaction>, s: set<Bytes>, n: nat)
    requires c.Faithful() && |a| == |b| == 1 && Binding(c, s, n)
    requires TxInputs(c, a) <= s && TxInputs(c, b) <= s && TxHash(c, a) == TxHash(c, b)
    ensures a == b
  {
    assert c.serialize(a[0]) in s && c.serialize(b[0]) in s;
    assert c.deserialize(c.serialize(a[0])) == c.deserialize(c.serialize(b[0]));
    assert a == [a[0]] && b == [b[0]];
  }

  /** Of two longer lists the last transactions are bound, and the hashes of what is before them. */
  lemma LastExactly(c: Codec, a: seq<Transaction>, b: seq<Transaction>, s: set<Bytes>, n: nat)
    requires c.Faithful() && |a| > 1 && |b| > 1 && Binding(c, s, n)
    requires TxInputs(c, a) <= s && TxInputs(c, b) <= s
    ensures var i, j := |a| - 1, |b| - 1;
            && TxInputs(c, a[..i]) <= s && TxInputs(c, b[..j]) <= s
            && (TxHash(c, a) == TxHash(c, b) <==> a[i] == b[j] && TxHash(c, a[..i]) == TxHash(c, b[..j]))
  {
    var i, j := |a| - 1, |b| - 1;
    var sa, sb := c.serialize(a[i]), c.serialize(b[j]);
    if TxHash(c, a) == TxHash(c, b) {
      TxHashLength(c, a[..i], s, n);
      TxHashLength(c, b[..j], s, n);
      SplitEqual(TxHash(c, a[..i]), c.hash(sa), TxHash(c, b[..j]), c.hash(sb));
      assert sa in s && sb in s;
      assert c.deserialize(sa) == c.deserialize(sb);
    }
  }

  /** Without the last transaction, if that is the same, two lists are equal or pass for each other as with it. */
  lemma WithoutLast(c: Codec, a: seq<Transaction>, b: seq<Transaction>)
    requires |a| > 1 && |b| > 1 && a[|a| - 1] == b[|b| - 1]
    ensures var i, j := |a| - 1, |b| - 1;
            && (a == b <==> a[..i] == b[..j])
            && (Passes(c, a, b) <==> Passes(c, a[..i], b[..j]))
  {
    hide TxHash;
    var i, j := |a| - 1, |b| - 1;
    assert a == a[..i] + [a[i]] && b == b[..j] + [b[j]];
    if |a| < |b| {
      var k := |b| - |a|;
      assert b[..j][..k] == b[..k] && b[..j][k] == b[k];
      assert a[1..] == a[..i][1..] + [a[i]] && b[k + 1..] == b[..j][k + 1..] + [b[j]];
      assert a[1..][..i - 1] == a[..i][1..] && b[k + 1..][..i - 1] == b[..j][k + 1..];
    }
  }

  lemma LastDiffers(c: Codec, a: seq<Transaction>, b: seq<Transaction>)
    requires |a| > 1 && |b| > 1 && a[|a| - 1] != b[|b| - 1]
    ensures a != b && !Passes(c, a, b)
  {
    hide TxHash;
    if |a| < |b| {
      assert a[1..][|a| - 2] != b[|b| - |a| + 1..][|a| - 2];
    }
  }

  /**
   Two lists have one chained hash exactly when they are equal or the first
   transaction of one passes for a front part of the other.
   */
  lemma {:induction false} TxHashExactly(c: Codec, a: seq<Transaction>, b: seq<Transaction>, s: set<Bytes>, n: nat)
    requires c.Faithful() && a != [] && b != [] && Binding(c, s, n)
    requires TxInputs(c, a) <= s && TxInputs(c, b) <= s
    ensures TxHash(c, a) == TxHash(c, b) <==> a == b || Passes(c, a, b) || Passes(c, b, a)
    decreases |a|
  {
    hide TxHash, TxInputs;
    if |a| == 1 && |b| == 1 {
      if TxHash(c, a) == TxHash(c, b) {
        OneBinds(c, a, b, s, n);
      }
    } else if |a| == 1 {
      OneAgainstMany(c, a, b, s, n);
    } else if |b| == 1 {
      OneAgainstMany(c, b, a, s, n);
    } else {
      hide Passes;
      LastExactly(c, a, b, s, n);
      if a[|a| - 1] == b[|b| - 1] {
        WithoutLast(c, a, b);
        WithoutLast(c, b, a);
        TxHashExactly(c, a[..|a| - 1], b[..|b| - 1], s, n);
      } else {
        LastDiffers(c, a, b);
        LastDiffers(c, b, a);
      }
    }
  }

  /** The serialization of the first transaction is not two joined digests. */
  ghost predicate NoDigestPair(c: Codec, txs: seq<Transaction>) {
    txs != [] ==> forall x, y :: c.serialize(txs[0]) != c.hash(x) + c.hash(y)
  }

  lemma NeverPasses(c: Codec, a: seq<Transaction>, b: seq<Transaction>)
    requires NoDigestPair(c, a)
    ensures !Passes(c, a, b)
  {
    if 0 < |a| < |b| {
      var k := |b| - |a|;
      TxDigest(c, b[..k]);
      assert c.serialize(a[0]) != c.hash(LastInput(c, b[..k])) + c.hash(c.serialize(b[k]));
    }
  }

  lemma TxHashBinds(c: Codec, a: seq<Transaction>, b: seq<Transaction>, s: set<Bytes>, n: nat)
    requires c.Faithful() && a != [] && b != [] && Binding(c, s, n)
    requires NoDigestPair(c, a) && NoDigestPair(c, b)
    requires TxInputs(c, a) <= s && TxInputs(c, b) <= s
    ensures TxHash(c, a) == TxHash(c, b) <==> a == b
  {
    hide TxHash, TxInputs, Passes;
    TxHashExactly(c, a, b, s, n);
    NeverPasses(c, a, b);
    NeverPasses(c, b, a);
  }

  // ----- Blocks -----

  /** Two signed blocks have one hash exactly when the index is the same and the transactions, if any, hash alike. */
  lemma SignedDataExactly(c: Codec, a: Block, b: Block, n: nat)
    requires c.Faithful()
    requires Binding(c, HashInputs(c, a) + HashInputs(c, b), n)
    ensures var x, y := ExtractTransactions(c, a), ExtractTransactions(c, b);
            Signed(c, a).hash == Signed(c, b).hash
            <==> a.index == b.index && (x == y || (x != [] && y != [] && TxHash(c, x) == TxHash(c, y)))
  {
    hide TxHash, TxInputs, IndexText, ExtractTransactions;
    var s := HashInputs(c, a) + HashInputs(c, b);
    var x, y := ExtractTransactions(c, a), ExtractTransactions(c, b);
    var ia, ib := c.hash(IndexText(a.index)), c.hash(IndexText(b.index));
    assert DataForHash(c, a) in s && DataForHash(c, b) in s;
    var ta, tb := if x == [] then [] else TxHash(c, x), if y == [] then [] else TxHash(c, y);
    assert DataForHash(c, a) == ia + ta && DataForHash(c, b) == ib + tb;
    assert IndexText(a.index) in s && IndexText(b.index) in s;
    if x != [] { TxHashLength(c, x, s, n); }
    if y != [] { TxHashLength(c, y, s, n); }
    if DataForHash(c, a) == DataForHash(c, b) {
      SplitEqual(ia, ta, ib, tb);
      IndexTextInjective(a.index, b.index);
    }
  }

  /**
   Two signed blocks of any kind have one hash exactly when they have the same
   index and the same transactions, up to a first transaction of one that passes
   for a front part of the other; provided the hash function does not collide on
   what was hashed for the two. Nothing else of a block is covered.
   */
  lemma SameHashExactly(c: Codec, a: Block, b: Block, n: nat)
    requires c.Faithful()
    requires Binding(c, HashInputs(c, a) + HashInputs(c, b), n)
    ensures var x, y := ExtractTransactions(c, a), ExtractTransactions(c, b);
            Signed(c, a).hash == Signed(c, b).hash
            <==> a.index == b.index && (x == y || Passes(c, x, y) || Passes(c, y, x))
  {
    hide TxHash, TxInputs, IndexText, ExtractTransactions;
    var x, y := ExtractTransactions(c, a), ExtractTransactions(c, b);
    SignedDataExactly(c, a, b, n);
    if x != [] && y != [] {
      TxHashExactly(c, x, y, HashInputs(c, a) + HashInputs(c, b), n);
    }
  }

  /** So if neither first transaction is two joined digests: exactly when index and transactions are the same. */
  lemma SameHashSameBlock(c: Codec, a: Block, b: Block, n: nat)
    requires c.Faithful()
    requires Binding(c, HashInputs(c, a) + HashInputs(c, b), n)
    requires NoDigestPair(c, ExtractTransactions(c, a)) && NoDigestPair(c, ExtractTransactions(c, b))
    ensures Signed(c, a).hash == Signed(c, b).hash
       <==> a.index == b.index && ExtractTransactions(c, a) == ExtractTransactions(c, b)
  {
    hide Passes, NoDigestPair, ExtractTransactions;
    SameHashExactly(c, a, b, n);
    NeverPasses(c, ExtractTransactions(c, a), ExtractTransactions(c, b));
    NeverPasses(c, ExtractTransactions(c, b), ExtractTransactions(c, a));
  }

  /** In a dummy or merge block the hash covers the index alone. */
  lemma OtherKindsHashOnlyIndex(c: Codec, a: Block, b: Block)
    requires a.kind != DataBlock && b.kind != DataBlock && a.index == b.index && c.Faithful()
    ensures Signed(c, a).hash == Signed(c, b).hash
  {
  }
}
