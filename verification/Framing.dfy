/** Serialization::serialize and deserialize: lists of byte strings, each in base64, joined by '|'. */
module Framing {
  import opened Wrappers
  import opened Bytes
  import Base64

  /** boost::algorithm::join with "|". */
  function Join(parts: seq<Bytes>): Bytes {
    if parts == [] then []
    else if |parts| == 1 then parts[0]
    else parts[0] + [BAR] + Join(parts[1..])
  }

  /** boost::algorithm::split at '|' without token compression: n bars give n + 1 tokens. */
  function Split(s: Bytes): (r: seq<Bytes>)
    ensures |r| >= 1
  {
    if s == [] then [[]]
    else
      var rest := Split(s[1..]);
      if s[0] == BAR then [[]] + rest else [[s[0]] + rest[0]] + rest[1..]
  }

  function EncodeAll(list: seq<Bytes>): seq<Bytes> {
    if list == [] then [] else [Base64.Encode(list[0], false)] + EncodeAll(list[1..])
  }

  function DecodeAll(parts: seq<Bytes>): Option<seq<Bytes>> {
    if parts == [] then Some([])
    else
      var head :- Base64.Decode(parts[0]);
      var tail :- DecodeAll(parts[1..]);
      Some([head] + tail)
  }

  function Encoded(list: seq<Bytes>): Bytes {
    Join(EncodeAll(list))
  }

  function Decoded(s: Bytes): Option<seq<Bytes>> {
    DecodeAll(Split(s))
  }

  /** Serialization::serialize. */
  method Serialize(list: seq<Bytes>) returns (res: Bytes)
    ensures res == Encoded(list)
  {
    var reslist: seq<Bytes> := [];
    for i := 0 to |list|
      invariant reslist == EncodeAll(list[..i])
    {
      var item := Base64.Base64Encode(list[i], false);
      EncodeAllAppend(list[..i], [list[i]]);
      assert list[..i + 1] == list[..i] + [list[i]];
      reslist := reslist + [item];
    }
    assert list[..|list|] == list;
    res := Join(reslist);
  }

  /** Serialization::deserialize; None is the exception of the base64 decoder. */
  method Deserialize(serialized: Bytes) returns (r: Option<seq<Bytes>>)
    ensures r == Decoded(serialized)
  {
    hide Base64.Decode, Split;
    var templist := Split(serialized);
    var reslist: seq<Bytes> := [];
    for i := 0 to |templist|
      invariant DecodeAll(templist[..i]) == Some(reslist)
    {
      var item := Base64.Base64Decode(templist[i], false);
      DecodeAllAppend(templist[..i], templist[i..]);
      assert templist == templist[..i] + templist[i..];
      if item.None? {
        return None;
      }
      DecodeAllAppend(templist[..i], [templist[i]]);
      DecodeAllOne(templist[i]);
      assert templist[..i + 1] == templist[..i] + [templist[i]];
      reslist := reslist + [item.value];
    }
    assert templist[..|templist|] == templist;
    r := Some(reslist);
  }

  lemma DecodeAllOne(p: Bytes)
    ensures DecodeAll([p]) == (if Base64.Decode(p).None? then None else Some([Base64.Decode(p).value]))
  {
    assert [p][1..] == [];
    if Base64.Decode(p).Some? {
      assert [Base64.Decode(p).value] + [] == [Base64.Decode(p).value];
    }
  }

  lemma {:induction false} EncodeAllAppend(a: seq<Bytes>, b: seq<Bytes>)
    ensures EncodeAll(a + b) == EncodeAll(a) + EncodeAll(b)
  {
    if a == [] {
      assert a + b == b;
    } else {
      assert (a + b)[1..] == a[1..] + b;
      EncodeAllAppend(a[1..], b);
    }
  }

  lemma {:induction false} DecodeAllAppend(a: seq<Bytes>, b: seq<Bytes>)
    ensures DecodeAll(a + b)
         == (if DecodeAll(a).None? || DecodeAll(b).None? then None
             else Some(DecodeAll(a).value + DecodeAll(b).value))
  {
    if a == [] {
      assert a + b == b;
      if DecodeAll(b).Some? {
        assert [] + DecodeAll(b).value == DecodeAll(b).value;
      }
    } else {
      assert (a + b)[1..] == a[1..] + b;
      DecodeAllAppend(a[1..], b);
      var x, y, z := Base64.Decode(a[0]), DecodeAll(a[1..]), DecodeAll(b);
      if x.Some? && y.Some? && z.Some? {
        assert [x.value] + (y.value + z.value) == [x.value] + y.value + z.value;
      }
    }
  }

  lemma {:induction false} SplitPlain(s: Bytes)
    requires BAR !in s
    ensures Split(s) == [s]
  {
    if s != [] {
      SplitPlain(s[1..]);
      assert [s[0]] + s[1..] == s;
    }
  }

  lemma {:induction false} SplitAtBar(a: Bytes, b: Bytes)
    requires BAR !in a
    ensures Split(a + [BAR] + b) == [a] + Split(b)
  {
    var s := a + [BAR] + b;
    if a == [] {
      assert s[1..] == b;
    } else {
      assert s[1..] == a[1..] + [BAR] + b;
      SplitAtBar(a[1..], b);
      assert [a[0]] + a[1..] == a;
    }
  }

  lemma {:induction false} SplitJoin(parts: seq<Bytes>)
    requires parts != [] && forall p | p in parts :: BAR !in p
    ensures Split(Join(parts)) == parts
  {
    if |parts| == 1 {
      SplitPlain(parts[0]);
    } else {
      SplitAtBar(parts[0], Join(parts[1..]));
      SplitJoin(parts[1..]);
    }
  }

  lemma {:induction false} DecodeEncodeAll(list: seq<Bytes>)
    ensures DecodeAll(EncodeAll(list)) == Some(list)
    ensures |EncodeAll(list)| == |list|
    ensures forall p | p in EncodeAll(list) :: BAR !in p
  {
    if list != [] {
      Base64.RoundTrip(list[0], false);
      Base64.EncodeAvoids(list[0], false, BAR);
      DecodeEncodeAll(list[1..]);
      assert [list[0]] + list[1..] == list;
    }
  }

  /**
   deserialize undoes serialize on every list but the empty one, which comes
   back as one empty item.
   */
  lemma RoundTrip(list: seq<Bytes>)
    ensures Decoded(Encoded(list)) == Some(list) <==> list != []
    ensures list == [] ==> Decoded(Encoded(list)) == Some([[]])
  {
    DecodeEncodeAll(list);
    if list != [] {
      SplitJoin(EncodeAll(list));
    } else {
      DecodeAllOne([]);
    }
  }

  function EncodedEach(lists: seq<seq<Bytes>>): seq<Bytes> {
    if lists == [] then [] else [Encoded(lists[0])] + EncodedEach(lists[1..])
  }

  function DecodedEach(items: seq<Bytes>): Option<seq<seq<Bytes>>> {
    if items == [] then Some([])
    else
      var head :- Decoded(items[0]);
      var tail :- DecodedEach(items[1..]);
      Some([head] + tail)
  }

  lemma {:induction false} EachRoundTrip(lists: seq<seq<Bytes>>)
    ensures DecodedEach(EncodedEach(lists)).Some? && |EncodedEach(lists)| == |lists|
    ensures DecodedEach(EncodedEach(lists)) == Some(lists) <==> [] !in lists
  {
    if lists != [] {
      RoundTrip(lists[0]);
      EachRoundTrip(lists[1..]);
      assert lists == [lists[0]] + lists[1..];
    }
  }

  /** A list of lists, serialized inside and outside, reads back exactly when no list in it, nor itself, is empty. */
  lemma NestedRoundTrip(lists: seq<seq<Bytes>>)
    requires lists != []
    ensures Decoded(Encoded(EncodedEach(lists))) == Some(EncodedEach(lists))
    ensures DecodedEach(Decoded(Encoded(EncodedEach(lists))).value) == Some(lists) <==> [] !in lists
  {
    EachRoundTrip(lists);
    RoundTrip(EncodedEach(lists));
  }

  // ----- The text itself -----

  /** The number of '|' in a text. */
  function Bars(s: Bytes): nat {
    if s == [] then 0 else (if s[0] == 124 then 1 else 0) + Bars(s[1..])
  }

  lemma {:induction false} BarsAppend(a: Bytes, b: Bytes)
    ensures Bars(a + b) == Bars(a) + Bars(b)
  {
    if a == [] {
      assert a + b == b;
    } else {
      assert (a + b)[1..] == a[1..] + b;
      BarsAppend(a[1..], b);
    }
  }

  lemma {:induction false} NoBars(s: Bytes)
    requires BAR !in s
    ensures Bars(s) == 0
  {
    if s != [] {
      NoBars(s[1..]);
    }
  }

  lemma {:induction false} SplitCountsBars(s: Bytes)
    ensures |Split(s)| == Bars(s) + 1
  {
    if s != [] {
      SplitCountsBars(s[1..]);
    }
  }

  lemma {:induction false} JoinBars(parts: seq<Bytes>)
    requires parts != [] && forall p | p in parts :: BAR !in p
    ensures Bars(Join(parts)) == |parts| - 1
  {
    if |parts| == 1 {
      NoBars(parts[0]);
    } else {
      JoinBars(parts[1..]);
      NoBars(parts[0]);
      BarsAppend(parts[0] + [BAR], Join(parts[1..]));
      BarsAppend(parts[0], [BAR]);
      assert Bars([BAR]) == 1;
    }
  }

  /** A serialized list is standard base64 but for its '|', one fewer than it has items. */
  lemma SerializedText(list: seq<Bytes>)
    requires list != []
    ensures Bars(Encoded(list)) == |list| - 1
    ensures AllText(Encoded(list))
  {
    DecodeEncodeAll(list);
    JoinBars(EncodeAll(list));
    TextChars(list);
  }

  predicate TextChar(c: Byte) {
    c == 124 || Base64.StandardChar(c)
  }

  predicate AllText(s: Bytes) {
    forall i :: 0 <= i < |s| ==> TextChar(s[i])
  }

  lemma ItemIsText(x: Bytes)
    ensures AllText(Base64.Encode(x, false))
  {
    hide Base64.Encode, Base64.StandardChar;
    Base64.EncodedChars(x);
  }

  lemma BarJoinsText(a: Bytes, b: Bytes)
    requires AllText(a) && AllText(b)
    ensures AllText(a + [BAR] + b)
  {
    hide Base64.StandardChar;
  }

  lemma {:induction false} TextChars(list: seq<Bytes>)
    ensures AllText(Encoded(list))
  {
    hide AllText, Base64.Encode;
    if list == [] {
      NoText();
    } else {
      ItemIsText(list[0]);
      TextChars(list[1..]);
      var parts := EncodeAll(list);
      assert parts[1..] == EncodeAll(list[1..]);
      BarJoinsText(parts[0], Join(parts[1..]));
    }
  }

  lemma NoText()
    ensures AllText([])
  {
  }

  // ----- Block::addData and GenesisBlock::addRow -----

  /** Block::addData (and GenesisBlock::addRow): append a one-item serialization, with no '|' before it. */
  function AddData(data: Bytes, item: Bytes): Bytes {
    data + Encoded([item])
  }

  function AddedData(data: Bytes, items: seq<Bytes>): Bytes
    decreases |items|
  {
    if items == [] then data else AddedData(AddData(data, items[0]), items[1..])
  }

  lemma {:induction false} AddedOneMore(data: Bytes, items: seq<Bytes>, x: Bytes)
    ensures AddedData(data, items + [x]) == AddData(AddedData(data, items), x)
    decreases |items|
  {
    hide AddData;
    if items == [] {
      assert items + [x] == [x] && [x][1..] == [];
    } else {
      assert (items + [x])[1..] == items[1..] + [x];
      AddedOneMore(AddData(data, items[0]), items[1..], x);
    }
  }

  lemma AddDataAppends(data: Bytes, x: Bytes)
    ensures AddData(data, x) == data + Base64.Encode(x, false)
  {
    assert [x][1..] == [];
    assert EncodeAll([x]) == [Base64.Encode(x, false)];
  }

  lemma {:induction false} AddedDataIsEncodings(data: Bytes, items: seq<Bytes>)
    ensures AddedData(data, items) == data + Concat(EncodeAll(items))
    decreases |items|
  {
    hide Base64.Encode, AddData;
    if items == [] {
      assert data + [] == data;
    } else {
      var e := Base64.Encode(items[0], false);
      AddDataAppends(data, items[0]);
      AddedDataIsEncodings(data + e, items[1..]);
      assert EncodeAll(items)[1..] == EncodeAll(items[1..]);
      assert data + e + Concat(EncodeAll(items[1..])) == data + (e + Concat(EncodeAll(items[1..])));
    }
  }

  /** Encodings joined with nothing between them decode to the joined items. */
  lemma {:induction false} JoinedEncodingsDecode(items: seq<Bytes>)
    ensures Base64.Decode(Concat(EncodeAll(items))) == Some(Concat(items))
    ensures BAR !in Concat(EncodeAll(items))
  {
    hide Base64.Encode, Base64.DecodeChunk;
    if items != [] {
      var e := Base64.Encode(items[0], false);
      JoinedEncodingsDecode(items[1..]);
      assert EncodeAll(items)[1..] == EncodeAll(items[1..]);
      Base64.EncodeLength(items[0], false);
      Base64.EncodeAvoids(items[0], false, BAR);
      Base64.RoundTrip(items[0], false);
      Base64.DecodeAppend(e, Concat(EncodeAll(items[1..])));
    }
  }

  /**
   Items added one by one to an empty payload come back as a single item, their
   concatenation; so what was added is read back exactly when it was one item.
   */
  lemma AddDataReadsBackAsOne(items: seq<Bytes>)
    ensures Decoded(AddedData([], items)) == Some([Concat(items)])
    ensures Decoded(AddedData([], items)) == Some(items) <==> |items| == 1
  {
    hide Base64.Encode, Base64.Decode, AddedData;
    AddedDataIsEncodings([], items);
    JoinedEncodingsDecode(items);
    var d := AddedData([], items);
    assert d == Concat(EncodeAll(items));
    SplitPlain(d);
    DecodeAllOne(d);
    if |items| == 1 {
      ConcatOne(items[0]);
      assert items == [items[0]];
    }
  }
}
