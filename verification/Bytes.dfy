/** Byte strings, as `std::string` and `unsigned char` buffers hold them. */
module Bytes {
  type Byte = bv8
  type Bytes = seq<Byte>

  const NEWLINE: Byte := 10
  const BAR: Byte := 124

  /** std::isspace. */
  predicate IsSpace(c: Byte) {
    c == 32 || 9 <= c <= 13
  }

  /** s from position i on; nothing when i is past the end. */
  function From(s: Bytes, i: nat): Bytes {
    if i <= |s| then s[i..] else []
  }

  /** Equal texts cut at one place have equal parts. */
  lemma SplitEqual(a0: Bytes, a1: Bytes, b0: Bytes, b1: Bytes)
    requires |a0| == |b0| && a0 + a1 == b0 + b1
    ensures a0 == b0 && a1 == b1
  {
    assert (a0 + a1)[..|a0|] == a0 && (a0 + a1)[|a0|..] == a1;
    assert (b0 + b1)[..|b0|] == b0 && (b0 + b1)[|b0|..] == b1;
  }

  /** The items of a list, joined with nothing between them. */
  function Concat(items: seq<Bytes>): Bytes {
    if items == [] then [] else items[0] + Concat(items[1..])
  }

  lemma {:induction false} ConcatAppend(a: seq<Bytes>, b: seq<Bytes>)
    ensures Concat(a + b) == Concat(a) + Concat(b)
  {
    if a == [] {
      assert a + b == b;
    } else {
      assert (a + b)[1..] == a[1..] + b;
      ConcatAppend(a[1..], b);
      assert Concat(a + b) == a[0] + (Concat(a[1..]) + Concat(b));
    }
  }

  lemma ConcatOne(x: Bytes)
    ensures Concat([x]) == x
  {
    assert [x][1..] == [];
  }

  /** s without every occurrence of c (std::remove followed by erase). */
  function Without(s: Bytes, c: Byte): Bytes {
    if s == [] then []
    else if s[0] == c then Without(s[1..], c)
    else [s[0]] + Without(s[1..], c)
  }

  lemma {:induction false} WithoutAppend(a: Bytes, b: Bytes, c: Byte)
    ensures Without(a + b, c) == Without(a, c) + Without(b, c)
  {
    if a == [] {
      assert a + b == b;
    } else {
      assert (a + b)[1..] == a[1..] + b;
      WithoutAppend(a[1..], b, c);
    }
  }

  lemma WithoutAbsent(s: Bytes, c: Byte)
    requires c !in s
    ensures Without(s, c) == s
  {
  }
}
