/**
 The base64 codec (RFC 4648 sections 4 and 5; the URL alphabet pads with '.').
 A char is a byte. `unsigned int` and `size_t` arithmetic on 6-bit positions is
 done on 16 bits, wide enough that nothing wraps, and the cast back to char is
 an explicit truncation (`Narrow`).
 */
module Base64 {
  import opened Wrappers
  import opened Bytes

  const EQUALS: Byte := 61
  const DOT: Byte := 46

  /** base64_chars[url][i]. */
  function CharAt(i: Byte, url: bool): Byte
    requires i < 64
  {
    if i < 26 then i + 65
    else if i < 52 then i + 71
    else if i < 62 then i - 4
    else if i == 62 then if url then 45 else 43
    else if url then 95 else 47
  }

  /** pos_of_char; None is the std::runtime_error. Either alphabet is accepted. */
  function PosOfChar(c: Byte): Option<Byte> {
    if 65 <= c <= 90 then Some(c - 65)
    else if 97 <= c <= 122 then Some(c - 71)
    else if 48 <= c <= 57 then Some(c + 4)
    else if c == 43 || c == 45 then Some(62)
    else if c == 47 || c == 95 then Some(63)
    else None
  }

  predicate IsPad(c: Byte) {
    c == EQUALS || c == DOT
  }

  function PadChar(url: bool): Byte {
    if url then DOT else EQUALS
  }

  // ----- Encoding -----

  /** The four 6-bit positions of a three-byte group. */
  function Sextet0(b0: Byte): (q: Byte)
    ensures q < 64
  {
    (b0 & 0xfc) >> 2
  }

  function Sextet1(b0: Byte, b1: Byte): (q: Byte)
    ensures q < 64
  {
    ((b0 & 0x03) << 4) + ((b1 & 0xf0) >> 4)
  }

  function Sextet2(b1: Byte, b2: Byte): (q: Byte)
    ensures q < 64
  {
    ((b1 & 0x0f) << 2) + ((b2 & 0xc0) >> 6)
  }

  function Sextet3(b2: Byte): (q: Byte)
    ensures q < 64
  {
    b2 & 0x3f
  }

  /** One group of at most three bytes; a missing byte counts as zero bits and leaves padding. */
  function EncodeGroup(g: Bytes, url: bool): (r: Bytes)
    requires 1 <= |g| <= 3
    ensures |r| == 4
  {
    if |g| == 1 then
      [CharAt(Sextet0(g[0]), url), CharAt(Sextet1(g[0], 0), url), PadChar(url), PadChar(url)]
    else if |g| == 2 then
      [CharAt(Sextet0(g[0]), url), CharAt(Sextet1(g[0], g[1]), url), CharAt(Sextet2(g[1], 0), url), PadChar(url)]
    else
      [CharAt(Sextet0(g[0]), url), CharAt(Sextet1(g[0], g[1]), url), CharAt(Sextet2(g[1], g[2]), url),
       CharAt(Sextet3(g[2]), url)]
  }

  function Encode(s: Bytes, url: bool): Bytes {
    if s == [] then []
    else if |s| <= 3 then EncodeGroup(s, url)
    else EncodeGroup(s[..3], url) + Encode(s[3..], url)
  }

  // ----- Decoding -----

  function Narrow(x: bv16): Byte {
    (x & 0xff) as Byte
  }

  function First(p0: Byte, p1: Byte): bv16 {
    ((p0 as bv16) << 2) + (((p1 as bv16) & 0x30) >> 4)
  }

  function Second(p1: Byte, p2: Byte): bv16 {
    (((p1 as bv16) & 0x0f) << 4) + (((p2 as bv16) & 0x3c) >> 2)
  }

  function Third(p2: Byte, p3: Byte): bv16 {
    (((p2 as bv16) & 0x03) << 6) + (p3 as bv16)
  }

  /** std::string::operator[] at index size() reads the terminating NUL. */
  function At(s: Bytes, i: nat): Byte
    requires i <= |s|
  {
    if i < |s| then s[i] else 0
  }

  /** One chunk of at most four chars. */
  function DecodeChunk(s: Bytes): Option<Bytes>
    requires s != []
  {
    var p1 :- PosOfChar(At(s, 1));
    var p0 :- PosOfChar(s[0]);
    var b0 := Narrow(First(p0, p1));
    if |s| <= 2 || IsPad(s[2]) then Some([b0])
    else
      var p2 :- PosOfChar(s[2]);
      var b1 := Narrow(Second(p1, p2));
      if |s| <= 3 || IsPad(s[3]) then Some([b0, b1])
      else
        var p3 :- PosOfChar(s[3]);
        Some([b0, b1, Narrow(Third(p2, p3))])
  }

  function Decode(s: Bytes): Option<Bytes> {
    if s == [] then Some([])
    else if |s| <= 4 then DecodeChunk(s)
    else
      var head :- DecodeChunk(s[..4]);
      var tail :- Decode(s[4..]);
      Some(head + tail)
  }

  // ----- The loops -----

  method Base64Encode(bytesToEncode: Bytes, url: bool) returns (ret: Bytes)
    ensures ret == Encode(bytesToEncode, url)
  {
    var s := bytesToEncode;
    ret := [];
    var pos := 0;
    assert From(s, 0) == s;
    while pos < |s|
      invariant 0 <= pos
      invariant Encode(s, url) == ret + Encode(From(s, pos), url)
      decreases |s| - pos
    {
      EncodeStep(s, pos, url);
      var group := EncodeGroupAt(s, pos, url);
      AppendAssoc(ret, group, Encode(From(s, pos + 3), url));
      ret := ret + group;
      pos := pos + 3;
    }
  }

  /**
   The body of the encoding loop: what one pass appends. In the tail a missing
   byte is left out of the index expression, as in TailSextets.
   */
  method EncodeGroupAt(s: Bytes, pos: nat, url: bool) returns (ret: Bytes)
    requires pos < |s|
    ensures ret == EncodeGroup(s[pos..if |s| - pos < 3 then |s| else pos + 3], url)
  {
    ret := [CharAt(Sextet0(s[pos]), url)];
    if pos + 1 < |s| {
      ret := ret + [CharAt(Sextet1(s[pos], s[pos + 1]), url)];
      if pos + 2 < |s| {
        ret := ret + [CharAt(Sextet2(s[pos + 1], s[pos + 2]), url)];
        ret := ret + [CharAt(Sextet3(s[pos + 2]), url)];
      } else {
        ret := ret + [CharAt(Sextet2(s[pos + 1], 0), url)];
        ret := ret + [PadChar(url)];
      }
    } else {
      ret := ret + [CharAt(Sextet1(s[pos], 0), url)];
      ret := ret + [PadChar(url)];
      ret := ret + [PadChar(url)];
    }
  }

  /** The source's index expressions for an incomplete last group: a missing byte counts as zero. */
  lemma TailSextets(b: Byte)
    ensures (b & 0x03) << 4 == Sextet1(b, 0) && (b & 0x0f) << 2 == Sextet2(b, 0)
  {
  }

  lemma EncodeStep(s: Bytes, pos: nat, url: bool)
    requires pos < |s|
    ensures Encode(s[pos..], url)
         == EncodeGroup(s[pos..if |s| - pos < 3 then |s| else pos + 3], url) + Encode(From(s, pos + 3), url)
  {
    var rest := s[pos..];
    if |rest| <= 3 {
      assert s[pos..pos + |rest|] == rest;
    } else {
      assert rest[..3] == s[pos..pos + 3];
      assert rest[3..] == s[pos + 3..];
    }
  }

  method Base64Decode(encoded: Bytes, removeLinebreaks: bool) returns (r: Option<Bytes>)
    ensures r == Decode(if removeLinebreaks then Without(encoded, NEWLINE) else encoded)
  {
    if encoded == [] {
      return Some([]);
    }
    var s := if removeLinebreaks then Without(encoded, NEWLINE) else encoded;
    var ret: Bytes := [];
    var pos := 0;
    assert From(s, 0) == s;
    PrefixedEmpty(Decode(s));
    while pos < |s|
      invariant 0 <= pos
      invariant Decode(s) == Prefixed(ret, Decode(From(s, pos)))
      decreases |s| - pos
    {
      DecodeStep(s, pos);
      var chunk := DecodeChunkAt(s, pos);
      if chunk.None? {
        return None;
      }
      PrefixedTwice(ret, chunk.value, Decode(From(s, pos + 4)));
      ret := ret + chunk.value;
      pos := pos + 4;
    }
    assert From(s, pos) == [] && ret + [] == ret;
    return Some(ret);
  }

  /** The body of the decoding loop: what one pass appends, or the exception. */
  method DecodeChunkAt(s: Bytes, pos: nat) returns (r: Option<Bytes>)
    requires pos < |s|
    ensures r == DecodeChunk(s[pos..if |s| - pos < 4 then |s| else pos + 4])
  {
    ghost var chunk := s[pos..if |s| - pos < 4 then |s| else pos + 4];
    assert At(s, pos + 1) == At(chunk, 1);
    var p1 :- PosOfChar(At(s, pos + 1));
    var p0 :- PosOfChar(s[pos]);
    var ret := [Narrow(First(p0, p1))];
    assert forall i :: 0 <= i < |chunk| ==> chunk[i] == s[pos + i];
    if pos + 2 < |s| && s[pos + 2] != EQUALS && s[pos + 2] != DOT {
      var p2 :- PosOfChar(s[pos + 2]);
      ret := ret + [Narrow(Second(p1, p2))];
      if pos + 3 < |s| && s[pos + 3] != EQUALS && s[pos + 3] != DOT {
        var p3 :- PosOfChar(s[pos + 3]);
        return Some([ret[0], ret[1], Narrow(Third(p2, p3))]);
      }
      return Some([ret[0], ret[1]]);
    }
    return Some(ret);
  }

  /** p put in front of a decoded string; a failure stays a failure. */
  function Prefixed(p: Bytes, r: Option<Bytes>): Option<Bytes> {
    if r.Some? then Some(p + r.value) else None
  }

  lemma PrefixedEmpty(r: Option<Bytes>)
    ensures Prefixed([], r) == r
  {
    if r.Some? {
      assert [] + r.value == r.value;
    }
  }

  lemma AppendAssoc(a: Bytes, b: Bytes, c: Bytes)
    ensures a + (b + c) == a + b + c
  {
  }

  lemma PrefixedTwice(p: Bytes, q: Bytes, r: Option<Bytes>)
    ensures Prefixed(p, Prefixed(q, r)) == Prefixed(p + q, r)
  {
    if r.Some? {
      assert p + (q + r.value) == p + q + r.value;
    }
  }

  lemma DecodeStep(s: Bytes, pos: nat)
    requires pos < |s|
    ensures var chunk := DecodeChunk(s[pos..if |s| - pos < 4 then |s| else pos + 4]);
            Decode(s[pos..]) == (if chunk.None? then None else Prefixed(chunk.value, Decode(From(s, pos + 4))))
  {
    var rest := s[pos..];
    if |rest| <= 4 {
      assert s[pos..pos + |rest|] == rest;
      var chunk := DecodeChunk(rest);
      if chunk.Some? {
        assert From(s, pos + 4) == [];
        assert chunk.value + [] == chunk.value;
      }
    } else {
      assert rest[..4] == s[pos..pos + 4];
      assert rest[4..] == s[pos + 4..];
    }
  }

  // ----- Properties -----

  /** Both alphabets list 64 distinct characters, none of them padding, and pos_of_char inverts them. */
  lemma PosOfCharInverts(i: Byte, url: bool)
    requires i < 64
    ensures PosOfChar(CharAt(i, url)) == Some(i) && !IsPad(CharAt(i, url))
  {
  }

  /**
   RFC 4648 section 4: the four positions, read as one 24-bit number, are the
   three input bytes read as one 24-bit number.
   */
  lemma SextetsAreTheGroup(b0: Byte, b1: Byte, b2: Byte)
    ensures ((Sextet0(b0) as bv24) << 18) | ((Sextet1(b0, b1) as bv24) << 12)
            | ((Sextet2(b1, b2) as bv24) << 6) | (Sextet3(b2) as bv24)
            == ((b0 as bv24) << 16) | ((b1 as bv24) << 8) | (b2 as bv24)
  {
  }

  /** No output byte of the decoder is truncated by the cast to char. */
  lemma DecodedBytesFit(p0: Byte, p1: Byte, p2: Byte, p3: Byte)
    requires p0 < 64 && p1 < 64 && p2 < 64 && p3 < 64
    ensures First(p0, p1) <= 0xff && Second(p1, p2) <= 0xff && Third(p2, p3) <= 0xff
  {
  }

  lemma SextetsDecode(b0: Byte, b1: Byte, b2: Byte)
    ensures Narrow(First(Sextet0(b0), Sextet1(b0, b1))) == b0
    ensures Narrow(Second(Sextet1(b0, b1), Sextet2(b1, b2))) == b1
    ensures Narrow(Third(Sextet2(b1, b2), Sextet3(b2))) == b2
  {
  }

  lemma GroupRoundTrip(g: Bytes, url: bool)
    requires 1 <= |g| <= 3
    ensures DecodeChunk(EncodeGroup(g, url)) == Some(g)
  {
    var b1, b2 := if |g| > 1 then g[1] else 0, if |g| > 2 then g[2] else 0;
    GroupPositions(g[0], b1, b2, url);
    SextetsDecode(g[0], b1, b2);
    var e := EncodeGroup(g, url);
    assert At(e, 1) == e[1];
    assert g == if |g| == 1 then [g[0]] else if |g| == 2 then [g[0], g[1]] else [g[0], g[1], g[2]];
  }

  lemma GroupPositions(b0: Byte, b1: Byte, b2: Byte, url: bool)
    ensures forall q | q in {Sextet0(b0), Sextet1(b0, b1), Sextet2(b1, b2), Sextet3(b2)} ::
              PosOfChar(CharAt(q, url)) == Some(q) && !IsPad(CharAt(q, url))
  {
    PosOfCharInverts(Sextet0(b0), url);
    PosOfCharInverts(Sextet1(b0, b1), url);
    PosOfCharInverts(Sextet2(b1, b2), url);
    PosOfCharInverts(Sextet3(b2), url);
  }

  /** base64_decode undoes base64_encode, for every byte string and both alphabets. */
  lemma {:induction false} RoundTrip(s: Bytes, url: bool)
    ensures Decode(Encode(s, url)) == Some(s)
  {
    if s == [] {
    } else if |s| <= 3 {
      GroupRoundTrip(s, url);
    } else {
      GroupRoundTrip(s[..3], url);
      RoundTrip(s[3..], url);
      EncodeLength(s[3..], url);
      var e := Encode(s, url);
      assert e[..4] == EncodeGroup(s[..3], url);
      assert e[4..] == Encode(s[3..], url);
      assert s == s[..3] + s[3..];
    }
  }

  /** len_encoded = (in_len + 2) / 3 * 4. */
  lemma {:induction false} EncodeLength(s: Bytes, url: bool)
    ensures |Encode(s, url)| == (|s| + 2) / 3 * 4
  {
    if |s| > 3 {
      EncodeLength(s[3..], url);
    }
  }

  /**
   Chunks decode independently: after whole chunks (padded or not) decoding
   goes on afresh, so joined encodings decode to the joined bytes.
   */
  lemma {:induction false} DecodeAppend(a: Bytes, b: Bytes)
    requires |a| % 4 == 0
    ensures Decode(a + b) == (if Decode(a).None? then None else Prefixed(Decode(a).value, Decode(b)))
  {
    if a == [] {
      assert a + b == b;
      PrefixedEmpty(Decode(b));
    } else {
      var ab := a + b;
      DecodeStep(a, 0);
      DecodeStep(ab, 0);
      assert a[0..] == a && ab[0..] == ab;
      assert ab[0..4] == a[0..4];
      assert ab[4..] == a[4..] + b;
      DecodeAppend(a[4..], b);
      var head, tail := DecodeChunk(a[0..4]), Decode(a[4..]);
      if head.Some? && tail.Some? {
        PrefixedTwice(head.value, tail.value, Decode(b));
      }
    }
  }

  /** Every encoded char is from the alphabet or padding: never '|', a newline, a blank or NUL. */
  predicate IsBase64Char(c: Byte) {
    PosOfChar(c).Some? || IsPad(c)
  }

  lemma {:induction false} EncodeAlphabet(s: Bytes, url: bool)
    ensures forall i :: 0 <= i < |Encode(s, url)| ==> IsBase64Char(Encode(s, url)[i])
  {
    if s == [] {
    } else if |s| <= 3 {
      GroupAlphabet(s, url);
    } else {
      GroupAlphabet(s[..3], url);
      EncodeAlphabet(s[3..], url);
    }
  }

  lemma EncodeAvoids(s: Bytes, url: bool, c: Byte)
    requires !IsBase64Char(c)
    ensures c !in Encode(s, url)
  {
    EncodeAlphabet(s, url);
  }

  lemma GroupAlphabet(g: Bytes, url: bool)
    requires 1 <= |g| <= 3
    ensures forall i :: 0 <= i < 4 ==> IsBase64Char(EncodeGroup(g, url)[i])
  {
    GroupPositions(g[0], if |g| > 1 then g[1] else 0, if |g| > 2 then g[2] else 0, url);
  }

  /**
   The decoder's error path, exactly, on text without padding: it throws if
   and only if the last chunk is a single char or some char is outside both
   alphabets.
   */
  lemma {:induction false} UnpaddedDecodes(s: Bytes)
    requires forall i :: 0 <= i < |s| ==> !IsPad(s[i])
    ensures Decode(s).Some? <==> |s| % 4 != 1 && forall i :: 0 <= i < |s| ==> PosOfChar(s[i]).Some?
  {
    if s == [] {
    } else if |s| <= 4 {
      UnpaddedChunkDecodes(s);
    } else {
      var head, tail := s[..4], s[4..];
      UnpaddedChunkDecodes(head);
      UnpaddedDecodes(tail);
      assert forall i :: 0 <= i < |s| ==> s[i] == if i < 4 then head[i] else tail[i - 4];
      assert forall i :: 0 <= i < |tail| ==> tail[i] == s[i + 4];
      assert forall i :: 0 <= i < 4 ==> head[i] == s[i];
    }
  }

  lemma UnpaddedChunkDecodes(s: Bytes)
    requires 1 <= |s| <= 4 && forall i :: 0 <= i < |s| ==> !IsPad(s[i])
    ensures DecodeChunk(s).Some? <==> |s| != 1 && forall i :: 0 <= i < |s| ==> PosOfChar(s[i]).Some?
  {
    if |s| == 1 {
      assert PosOfChar(0).None?;
    }
  }

  // ----- Against RFC 4648, independently of the definitions above -----

  /** A-Z, a-z, 0-9, and the two last characters of either alphabet. */
  predicate Alphanumeric(c: Byte) {
    65 <= c <= 90 || 97 <= c <= 122 || 48 <= c <= 57
  }

  /** Section 4: '+' and '/', padded with '='. */
  predicate StandardChar(c: Byte) {
    Alphanumeric(c) || c == 43 || c == 47 || c == 61
  }

  /** Section 5: '-' and '_', here padded with '.'. */
  predicate UrlChar(c: Byte) {
    Alphanumeric(c) || c == 45 || c == 95 || c == 46
  }

  /** Tables 1 and 2 of the RFC. */
  function RfcChar(value: bv24, url: bool): Byte
    requires value < 64
  {
    var v := value as Byte;
    if v <= 25 then 65 + v // A-Z
    else if v <= 51 then 97 + (v - 26) // a-z
    else if v <= 61 then 48 + (v - 52) // 0-9
    else if v == 62 then (if url then 45 else 43)
    else if url then 95 else 47
  }

  /** A group as one 24-bit number, missing bytes as zero bits. */
  function RfcNumber(g: Bytes): bv24
    requires 1 <= |g| <= 3
  {
    ((g[0] as bv24) << 16) | ((if |g| > 1 then g[1] as bv24 else 0) << 8) | (if |g| > 2 then g[2] as bv24 else 0)
  }

  /** The number in four 6-bit characters; those that hold no bit of the group are padding. */
  function RfcGroup(g: Bytes, url: bool): Bytes
    requires 1 <= |g| <= 3
  {
    var n, pad := RfcNumber(g), if url then 46 else 61;
    [RfcChar((n >> 18) & 63, url), RfcChar((n >> 12) & 63, url),
     if |g| > 1 then RfcChar((n >> 6) & 63, url) else pad,
     if |g| > 2 then RfcChar(n & 63, url) else pad]
  }

  lemma CharIsRfc(i: Byte, url: bool)
    requires i < 64
    ensures CharAt(i, url) == RfcChar(i as bv24, url)
  {
  }

  lemma SextetsOfNumber(b0: Byte, b1: Byte, b2: Byte)
    ensures var n := ((b0 as bv24) << 16) | ((b1 as bv24) << 8) | (b2 as bv24);
            && (n >> 18) & 63 == Sextet0(b0) as bv24 && (n >> 12) & 63 == Sextet1(b0, b1) as bv24
            && (n >> 6) & 63 == Sextet2(b1, b2) as bv24 && n & 63 == Sextet3(b2) as bv24
  {
  }

  lemma GroupIsRfc(g: Bytes, url: bool)
    requires 1 <= |g| <= 3
    ensures EncodeGroup(g, url) == RfcGroup(g, url)
  {
    hide CharAt, RfcChar, Sextet0, Sextet1, Sextet2, Sextet3;
    var b1, b2 := if |g| > 1 then g[1] else 0, if |g| > 2 then g[2] else 0;
    SextetsOfNumber(g[0], b1, b2);
    CharIsRfc(Sextet0(g[0]), url);
    CharIsRfc(Sextet1(g[0], b1), url);
    CharIsRfc(Sextet2(b1, b2), url);
    CharIsRfc(Sextet3(b2), url);
  }

  /** The k-th four characters are those the RFC gives for the k-th three bytes. */
  lemma {:induction false} EncodeIsRfc4648(s: Bytes, url: bool, k: nat)
    requires 3 * k < |s|
    ensures 4 * k + 4 <= |Encode(s, url)|
    ensures Encode(s, url)[4 * k..4 * k + 4] == RfcGroup(s[3 * k..if |s| - 3 * k < 3 then |s| else 3 * k + 3], url)
  {
    hide EncodeGroup, RfcGroup;
    var end := if |s| - 3 * k < 3 then |s| else 3 * k + 3;
    if k == 0 {
      var g := if |s| <= 3 then s else s[..3];
      assert s[0..end] == g;
      GroupIsRfc(g, url);
      assert Encode(s, url)[0..4] == EncodeGroup(g, url);
    } else {
      EncodeIsRfc4648(s[3..], url, k - 1);
      var e, rest := Encode(s, url), Encode(s[3..], url);
      assert e == EncodeGroup(s[..3], url) + rest;
      assert e[4 * k..4 * k + 4] == rest[4 * (k - 1)..4 * (k - 1) + 4];
      assert s[3 * k..end] == s[3..][3 * (k - 1)..end - 3];
    }
  }

  /** Every character is one of the chosen alphabet or its padding. */
  lemma {:induction false} EncodedChars(s: Bytes)
    ensures forall i :: 0 <= i < |Encode(s, false)| ==> StandardChar(Encode(s, false)[i])
    ensures forall i :: 0 <= i < |Encode(s, true)| ==> UrlChar(Encode(s, true)[i])
  {
    if s != [] {
      GroupChars(if |s| <= 3 then s else s[..3]);
      if |s| > 3 {
        EncodedChars(s[3..]);
      }
    }
  }

  lemma GroupChars(g: Bytes)
    requires 1 <= |g| <= 3
    ensures forall i :: 0 <= i < 4 ==> StandardChar(EncodeGroup(g, false)[i]) && UrlChar(EncodeGroup(g, true)[i])
  {
    hide CharAt, PadChar, StandardChar, UrlChar, Sextet0, Sextet1, Sextet2, Sextet3;
    var b1, b2 := if |g| > 1 then g[1] else 0, if |g| > 2 then g[2] else 0;
    CharChars(Sextet0(g[0]));
    CharChars(Sextet1(g[0], b1));
    CharChars(Sextet2(b1, b2));
    CharChars(Sextet3(b2));
  }

  lemma CharChars(i: Byte)
    requires i < 64
    ensures StandardChar(CharAt(i, false)) && UrlChar(CharAt(i, true))
    ensures StandardChar(PadChar(false)) && UrlChar(PadChar(true))
  {
  }

  /** pos_of_char throws exactly on what neither alphabet has, padding included. */
  lemma KnownChars(c: Byte)
    ensures PosOfChar(c).Some? <==> Alphanumeric(c) || c == 43 || c == 47 || c == 45 || c == 95
  {
  }

  /** RFC 4648 section 10 ("f", "fo", "foo"), and a byte where the alphabets differ. */
  lemma TestVectors()
    ensures Encode([102], false) == [90, 103, 61, 61]
    ensures Encode([102, 111], false) == [90, 109, 56, 61]
    ensures Encode([102, 111, 111], false) == [90, 109, 57, 118]
    ensures Encode([251], false) == [43, 119, 61, 61] && Encode([251], true) == [45, 119, 46, 46]
  {
  }
}
