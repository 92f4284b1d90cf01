/** Utils::rootMerkleHash and its helpers, over an arbitrary hash function. */
module Merkle {
  import opened Wrappers
  import opened Bytes

  type Hash = Bytes -> Bytes

  function MerkleFormula(hash: Hash, hash1: Bytes, hash2: Bytes): Bytes {
    hash(hash1 + hash2)
  }

  function HashEach(hash: Hash, v: seq<Bytes>): (r: seq<Bytes>)
    ensures |r| == |v|
  {
    seq(|v|, i requires 0 <= i < |v| => hash(v[i]))
  }

  function PairsOf(v: seq<Bytes>): (r: seq<(Bytes, Bytes)>)
    requires |v| % 2 == 0
    ensures |r| == |v| / 2
  {
    seq(|v| / 2, i requires 0 <= i < |v| / 2 => (v[2 * i], v[2 * i + 1]))
  }

  /** hashingElements: the vector is rewritten element by element. */
  method HashingElements(hash: Hash, vector: seq<Bytes>) returns (v: seq<Bytes>)
    ensures v == HashEach(hash, vector)
    ensures |v| == |vector| && forall i :: 0 <= i < |v| ==> v[i] == hash(vector[i])
  {
    v := vector;
    for i := 0 to |v|
      invariant |v| == |vector|
      invariant forall j :: 0 <= j < i ==> v[j] == hash(vector[j])
      invariant forall j :: i <= j < |v| ==> v[j] == vector[j]
    {
      v := v[i := hash(v[i])];
    }
  }

  /**
   splitListIntoPair with its flags as written. None is the read past the end
   of the vector, which every odd length runs into. The vector is a reference
   parameter: v is what the caller sees afterwards.
   */
  method SplitListIntoPair(hash: Hash, vector: seq<Bytes>, isHashing: bool)
    returns (r: Option<seq<(Bytes, Bytes)>>, v: seq<Bytes>)
    ensures v == if isHashing then HashEach(hash, vector) else vector
    ensures r == if |vector| % 2 == 0 then Some(PairsOf(v)) else None
  {
    v := vector;
    if |v| == 0 {
      return Some([]), v;
    }
    if isHashing {
      v := HashingElements(hash, v);
    }
    var result: seq<(Bytes, Bytes)> := [];
    var position, step, next := 0, 2, 1;
    var sizeVector := |v|;
    var isLastPair := sizeVector <= 2;
    var isPairVector := sizeVector % 2 == 0;
    while position < sizeVector
      invariant position == 2 * |result| <= sizeVector
      invariant forall i :: 0 <= i < |result| ==> result[i] == (v[2 * i], v[2 * i + 1])
      decreases sizeVector - position
    {
      // both branches on isLastPair read the same two elements
      if position + next >= sizeVector {
        return None, v;
      }
      var pair := (v[position], v[position + next]);
      if !isPairVector {
        position := position + (if position + step > sizeVector then 1 else 2);
        isLastPair := sizeVector - 1 - position < 1;
      } else {
        position := position + step;
        isLastPair := sizeVector - position < 2;
      }
      result := result + [pair];
    }
    assert |v| == 2 * |result|;
    assert result == PairsOf(v);
    return Some(result), v;
  }

  predicate PowerOfTwo(n: nat) {
    n == 1 || (n > 1 && n % 2 == 0 && PowerOfTwo(n / 2))
  }

  function PairUp(hash: Hash, l: seq<Bytes>): (r: seq<Bytes>)
    requires |l| % 2 == 0
    ensures |r| == |l| / 2
  {
    seq(|l| / 2, i requires 0 <= i < |l| / 2 => MerkleFormula(hash, l[2 * i], l[2 * i + 1]))
  }

  /** The levels above the leaves, bottom up. */
  function Levels(hash: Hash, l: seq<Bytes>): seq<seq<Bytes>>
    requires |l| >= 2 && PowerOfTwo(|l|)
    decreases |l|, 0
  {
    var up := PairUp(hash, l);
    [up] + Above(hash, up)
  }

  /** The Merkle root by the usual definition: hash the roots of the two halves. */
  function TreeRoot(hash: Hash, l: seq<Bytes>): Bytes
    requires PowerOfTwo(|l|)
    decreases |l|
  {
    if |l| == 1 then l[0]
    else hash(TreeRoot(hash, l[..|l| / 2]) + TreeRoot(hash, l[|l| / 2..]))
  }

  /** The loop of rootMerkleHash; every pair holds two hashes, so the branch for a single one is never taken. */
  method MerkleBlocks(hash: Hash, splittedList: seq<(Bytes, Bytes)>, ghost leaves: seq<Bytes>)
    returns (merkleBlocks: seq<Bytes>)
    requires |leaves| % 2 == 0 && splittedList == PairsOf(leaves)
    ensures merkleBlocks == PairUp(hash, leaves)
  {
    merkleBlocks := [];
    for index := 0 to |splittedList|
      invariant |merkleBlocks| == index
      invariant forall i :: 0 <= i < index ==> merkleBlocks[i] == MerkleFormula(hash, leaves[2 * i], leaves[2 * i + 1])
    {
      merkleBlocks := merkleBlocks + [MerkleFormula(hash, splittedList[index].0, splittedList[index].1)];
    }
  }

  /**
   rootMerkleHash: terminates on every non-empty list (an empty one is fatal),
   stays inside its vectors exactly when the length is a power of two of at
   least 2, and then records every level and returns the tree's root.
   */
  method RootMerkleHash(hash: Hash, listHashes: seq<Bytes>, branches: seq<seq<Bytes>>, isHashing: bool)
    returns (r: Option<(seq<seq<Bytes>>, Bytes)>)
    requires listHashes != []
    ensures r.Some? <==> |listHashes| >= 2 && PowerOfTwo(|listHashes|)
    ensures r.Some? ==>
              var leaves := if isHashing then seq(|listHashes|, i requires 0 <= i < |listHashes| => hash(listHashes[i]))
                            else listHashes;
              r.value == (branches + Levels(hash, leaves), TreeRoot(hash, leaves))
    decreases |listHashes|
  {
    var splittedList, leaves := SplitListIntoPair(hash, listHashes, isHashing);
    if splittedList.None? {
      return None;
    }
    var merkleBlocks := MerkleBlocks(hash, splittedList.value, leaves);
    OneRound(hash, leaves);
    if PowerOfTwo(|leaves|) {
      Assoc(branches, merkleBlocks, Above(hash, merkleBlocks));
    }
    var branchesTree := branches + [merkleBlocks];
    if |merkleBlocks| != 1 {
      r := RootMerkleHash(hash, merkleBlocks, branchesTree, false);
    } else {
      r := Some((branchesTree, branchesTree[|branchesTree| - 1][0]));
    }
  }

  /** What one call of rootMerkleHash leaves to the next. */
  lemma OneRound(hash: Hash, l: seq<Bytes>)
    requires |l| >= 2 && |l| % 2 == 0
    ensures PowerOfTwo(|l|) <==> PowerOfTwo(|PairUp(hash, l)|)
    ensures PowerOfTwo(|l|) ==> TreeRoot(hash, l) == TreeRoot(hash, PairUp(hash, l))
    ensures PowerOfTwo(|l|) ==> Levels(hash, l) == [PairUp(hash, l)] + Above(hash, PairUp(hash, l))
  {
    if PowerOfTwo(|l|) {
      PairUpKeepsRoot(hash, l);
    }
  }

  /** The levels above l, none above a root. */
  function Above(hash: Hash, l: seq<Bytes>): seq<seq<Bytes>>
    requires PowerOfTwo(|l|)
    decreases |l|, 1
  {
    if |l| == 1 then [] else Levels(hash, l)
  }

  lemma Assoc(a: seq<seq<Bytes>>, b: seq<Bytes>, c: seq<seq<Bytes>>)
    ensures a + [b] + c == a + ([b] + c)
    ensures a + [b] + [] == a + [b]
  {
  }

  lemma Halves(n: nat)
    requires PowerOfTwo(n) && n >= 2
    ensures n % 2 == 0 && PowerOfTwo(n / 2) && n - n / 2 == n / 2
    ensures n > 2 ==> (n / 2) % 2 == 0 && n / 2 >= 2
  {
    var m := n / 2;
    assert n == 2 * m;
    if n > 2 {
      EvenPower(m);
    }
  }

  lemma EvenPower(m: nat)
    requires PowerOfTwo(m) && m >= 2
    ensures m % 2 == 0
  {
  }

  /** One round of bottom-up pairing does not change the top-down root. */
  lemma {:induction false} PairUpKeepsRoot(hash: Hash, l: seq<Bytes>)
    requires |l| >= 2 && PowerOfTwo(|l|)
    ensures |l| % 2 == 0 && PowerOfTwo(|PairUp(hash, l)|)
    ensures TreeRoot(hash, PairUp(hash, l)) == TreeRoot(hash, l)
    decreases |l|
  {
    Halves(|l|);
    var h := |l| / 2;
    var left, right := l[..h], l[h..];
    if h == 1 {
      assert left == [l[0]] && right == [l[1]];
    } else {
      var up := PairUp(hash, l);
      Halves(h);
      assert up[..h / 2] == PairUp(hash, left);
      assert up[h / 2..] == PairUp(hash, right);
      PairUpKeepsRoot(hash, left);
      PairUpKeepsRoot(hash, right);
    }
  }

  /** The sizes n/2, n/4, ..., 1. */
  ghost predicate Halving(v: seq<seq<Bytes>>, n: nat)
    decreases |v|
  {
    v != [] && |v[0]| == n / 2 && (if |v[0]| == 1 then |v| == 1 else Halving(v[1..], n / 2))
  }

  /** The recorded levels have n/2, n/4, ..., 1 elements and the last one holds the root. */
  lemma {:induction false} LevelsShrinkToRoot(hash: Hash, l: seq<Bytes>)
    requires |l| >= 2 && PowerOfTwo(|l|)
    ensures Halving(Levels(hash, l), |l|)
    ensures Levels(hash, l)[|Levels(hash, l)| - 1] == [TreeRoot(hash, l)]
    decreases |l|
  {
    var up := PairUp(hash, l);
    OneRound(hash, l);
    if |up| > 1 {
      LevelsShrinkToRoot(hash, up);
    } else {
      assert up == [up[0]];
    }
  }

  lemma LevelsUnfold(hash: Hash, l: seq<Bytes>)
    requires |l| >= 2 && PowerOfTwo(|l|)
    ensures |l| % 2 == 0
    ensures var up := PairUp(hash, l);
            && PowerOfTwo(|up|) && |up| >= 1
            && Levels(hash, l) == if |up| == 1 then [up] else [up] + Levels(hash, up)
  {
    OneRound(hash, l);
    hide PowerOfTwo, TreeRoot;
  }

  /** Every level holds the hashes of the joined neighbours on the level below it. */
  lemma {:induction false} LevelElement(hash: Hash, l: seq<Bytes>, j: nat, i: nat)
    requires |l| >= 2 && PowerOfTwo(|l|) && j < |Levels(hash, l)| && i < |Levels(hash, l)[j]|
    ensures var below := if j == 0 then l else Levels(hash, l)[j - 1];
            2 * i + 1 < |below| && Levels(hash, l)[j][i] == hash(below[2 * i] + below[2 * i + 1])
    decreases j
  {
    hide PowerOfTwo, Levels;
    LevelsUnfold(hash, l);
    if j > 0 {
      LevelElement(hash, PairUp(hash, l), j - 1, i);
    }
  }

  // ----- The root determines the leaves -----

  /** The strings hashed to form the root of l. */
  ghost function Hashed(hash: Hash, l: seq<Bytes>): set<Bytes>
    requires PowerOfTwo(|l|)
    decreases |l|
  {
    if |l| == 1 then {}
    else
      var left, right := l[..|l| / 2], l[|l| / 2..];
      {TreeRoot(hash, left) + TreeRoot(hash, right)} + Hashed(hash, left) + Hashed(hash, right)
  }

  ghost predicate CollisionFree(hash: Hash, s: set<Bytes>) {
    forall x, y :: x in s && y in s && hash(x) == hash(y) ==> x == y
  }

  ghost predicate FixedLength(hash: Hash, n: nat) {
    forall x :: |hash(x)| == n
  }

  ghost predicate Digests(l: seq<Bytes>, n: nat) {
    forall i :: 0 <= i < |l| ==> |l[i]| == n
  }

  lemma RootLength(hash: Hash, l: seq<Bytes>, n: nat)
    requires PowerOfTwo(|l|) && FixedLength(hash, n) && Digests(l, n)
    ensures |TreeRoot(hash, l)| == n
  {
  }

  lemma HashedUnfold(hash: Hash, l: seq<Bytes>)
    requires PowerOfTwo(|l|) && |l| > 1
    ensures var left, right := l[..|l| / 2], l[|l| / 2..];
            && TreeRoot(hash, l) == hash(TreeRoot(hash, left) + TreeRoot(hash, right))
            && TreeRoot(hash, left) + TreeRoot(hash, right) in Hashed(hash, l)
            && Hashed(hash, left) <= Hashed(hash, l)
            && Hashed(hash, right) <= Hashed(hash, l)
  {
  }

  /** Lists of digests with one root, whose hashed strings lie in s and do not collide. */
  ghost predicate SameRoot(hash: Hash, a: seq<Bytes>, b: seq<Bytes>, n: nat, s: set<Bytes>) {
    && PowerOfTwo(|a|) && |a| == |b|
    && FixedLength(hash, n) && Digests(a, n) && Digests(b, n)
    && Hashed(hash, a) <= s && Hashed(hash, b) <= s && CollisionFree(hash, s)
    && TreeRoot(hash, a) == TreeRoot(hash, b)
  }

  lemma SameRootOfHalves(hash: Hash, a: seq<Bytes>, b: seq<Bytes>, n: nat, s: set<Bytes>, h: nat)
    requires SameRoot(hash, a, b, n, s) && |a| > 1 && h == |a| / 2
    ensures SameRoot(hash, a[..h], b[..h], n, s) && SameRoot(hash, a[h..], b[h..], n, s)
  {
    hide TreeRoot, Hashed;
    var a0, a1, b0, b1 := a[..h], a[h..], b[..h], b[h..];
    Halves(|a|);
    HashedUnfold(hash, a);
    HashedUnfold(hash, b);
    RootLength(hash, a0, n);
    RootLength(hash, b0, n);
    SplitEqual(TreeRoot(hash, a0), TreeRoot(hash, a1), TreeRoot(hash, b0), TreeRoot(hash, b1));
  }

  lemma JoinHalves(a: seq<Bytes>, b: seq<Bytes>, h: nat)
    requires h <= |a| && h <= |b| && a[..h] == b[..h] && a[h..] == b[h..]
    ensures a == b
  {
    assert a == a[..h] + a[h..] && b == b[..h] + b[h..];
  }

  lemma SingleLeaf(hash: Hash, a: seq<Bytes>, b: seq<Bytes>)
    requires |a| == |b| == 1 && TreeRoot(hash, a) == TreeRoot(hash, b)
    ensures a == b
  {
    assert a[0] == b[0];
  }

  /**
   Two lists of digests of one length with equal roots are equal, as long as
   the strings hashed on the way do not collide.
   */
  lemma {:induction false} RootBindsLeaves(hash: Hash, a: seq<Bytes>, b: seq<Bytes>, n: nat, s: set<Bytes>)
    requires SameRoot(hash, a, b, n, s)
    ensures a == b
    decreases |a|
  {
    if |a| == 1 {
      SingleLeaf(hash, a, b);
    } else {
      var h := |a| / 2;
      SameRootOfHalves(hash, a, b, n, s, h);
      RootBindsLeaves(hash, a[..h], b[..h], n, s);
      RootBindsLeaves(hash, a[h..], b[h..], n, s);
      JoinHalves(a, b, h);
    }
  }
}
