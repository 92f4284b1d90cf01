/** GenesisBlock::extractDataRows, and what it finds in a block that addRow has filled. */
module GenesisRows {
  import opened Wrappers
  import opened Bytes
  import opened Blocks
  import opened Ledger
  import opened ChainModel
  import Base64
  import Framing

  // ----- std::stoi -----

  const PLUS: Byte := 43

  predicate IsDigit(c: Byte) {
    48 <= c <= 57
  }

  function SkipSpaces(s: Bytes): Bytes {
    if s != [] && IsSpace(s[0]) then SkipSpaces(s[1..]) else s
  }

  /** The number that the digits at the front of s say, after the digits that say n. */
  function Digits(s: Bytes, n: nat): nat
    decreases |s|
  {
    if s != [] && IsDigit(s[0]) then Digits(s[1..], 10 * n + (s[0] - 48) as nat) else n
  }

  /** std::stoi; None is its exception for a text without a number or with one that is no 32-bit int. */
  function Stoi(s: Bytes): Option<int> {
    var t := SkipSpaces(s);
    var u := if t != [] && (t[0] == MINUS || t[0] == PLUS) then t[1..] else t;
    var v := if t != [] && t[0] == MINUS then 0 - Digits(u, 0) else Digits(u, 0);
    if u == [] || !IsDigit(u[0]) || v < -0x8000_0000 || v >= 0x8000_0000 then None else Some(v)
  }

  function Digit(d: nat): (r: Byte)
    requires d < 10
    ensures 48 <= r <= 57 && r as int == 48 + d
  {
    48 + d as Byte
  }

  /** n in decimal digits. */
  function DecimalText(n: nat): (r: Bytes)
    ensures r != [] && forall i :: 0 <= i < |r| ==> 48 <= r[i] <= 57
  {
    (if n < 10 then [] else DecimalText(n / 10)) + [Digit(n % 10)]
  }

  lemma {:induction false} DigitsAppend(a: Bytes, b: Bytes, n: nat)
    requires forall i :: 0 <= i < |a| ==> IsDigit(a[i])
    ensures Digits(a + b, n) == Digits(b, Digits(a, n))
    decreases |a|
  {
    if a == [] {
      assert a + b == b;
    } else {
      assert (a + b)[1..] == a[1..] + b;
      DigitsAppend(a[1..], b, 10 * n + (a[0] - 48) as nat);
    }
  }

  lemma OneDigit(d: nat, n: nat)
    requires d < 10
    ensures Digits([Digit(d)], n) == 10 * n + d
  {
    var c := Digit(d);
    assert [c][1..] == [];
    assert IsDigit(c) && (c - 48) as nat == d;
  }

  lemma {:induction false} DigitsOfDecimal(n: nat)
    ensures Digits(DecimalText(n), 0) == n
  {
    hide Digits;
    if n < 10 {
      OneDigit(n, 0);
      assert DecimalText(n) == [Digit(n)];
    } else {
      OneDigit(n % 10, n / 10);
      DigitsOfDecimal(n / 10);
      DigitsAppend(DecimalText(n / 10), [Digit(n % 10)], 0);
    }
  }

  /**
   std::stoi reads a number in decimal digits, after white space and with a sign
   or without, up to the first other char; it throws when that is no 32-bit int.
   */
  lemma StoiReadsDecimals(n: nat, rest: Bytes)
    requires rest == [] || !(48 <= rest[0] <= 57)
    ensures Stoi(DecimalText(n) + rest) == if n < 0x8000_0000 then Some(n) else None
    ensures Stoi([32, 43] + (DecimalText(n) + rest)) == if n < 0x8000_0000 then Some(n) else None
    ensures Stoi([45] + (DecimalText(n) + rest)) == if n <= 0x8000_0000 then Some(0 - n) else None
    ensures rest == [] || !(IsSpace(rest[0]) || rest[0] == 43 || rest[0] == 45) ==> Stoi(rest).None?
  {
    hide DecimalText;
    var t := DecimalText(n) + rest;
    DigitsOfDecimal(n);
    DigitsAppend(DecimalText(n), rest, 0);
    assert !IsSpace(t[0]) && t[0] != MINUS && t[0] != PLUS && IsDigit(t[0]);
    assert ([32, 43] + t)[1..] == [43] + t && ([43] + t)[1..] == t && ([45] + t)[1..] == t;
    assert SkipSpaces([43] + t) == [43] + t && SkipSpaces([32, 43] + t) == SkipSpaces([43] + t);
    assert SkipSpaces(t) == t && SkipSpaces([45] + t) == [45] + t;
    NoDigits(rest);
  }

  lemma NoDigits(rest: Bytes)
    requires rest == [] || !(48 <= rest[0] <= 57)
    ensures Digits(rest, 0) == 0 && forall n :: Digits(rest, n) == n
    ensures rest == [] || !(IsSpace(rest[0]) || rest[0] == 43 || rest[0] == 45) ==> Stoi(rest).None?
  {
  }

  lemma TypeTextReads()
    ensures Stoi(TYPE_TEXT) == Some(0)
  {
    assert TYPE_TEXT[1..] == [];
  }

  // ----- extractDataRows -----

  /** The row a default GenesisDataRow is. */
  const DEFAULT_ROW := CacheRow(NO_ACTOR, NO_ACTOR, 0)

  /**
   GenesisDataRow::deserialize: only four parts make a row. None is the
   exception of the decoder, or of std::stoi on the type.
   */
  function RowOf(c: Codec, text: Bytes): Option<CacheRow> {
    var l :- Framing.Decoded(text);
    if |l| != 4 then Some(DEFAULT_ROW)
    else
      var typeRow :- Stoi(l[3]);
      Some(CacheRow(Padded(l[0]), Padded(l[2]), c.wholeOf(l[1])))
  }

  function RowsOf(c: Codec, texts: seq<Bytes>): Option<seq<CacheRow>> {
    if texts == [] then Some([])
    else
      var rows :- RowsOf(c, texts[..|texts| - 1]);
      var row :- RowOf(c, texts[|texts| - 1]);
      Some(rows + [row])
  }

  function ReadRows(c: Codec, data: Bytes): Option<seq<CacheRow>> {
    var texts :- Framing.Decoded(data);
    RowsOf(c, texts)
  }

  method ExtractDataRows(c: Codec, data: Bytes) returns (r: Option<seq<CacheRow>>)
    ensures r == ReadRows(c, data)
  {
    hide Framing.Decoded;
    var txsData := Framing.Deserialize(data);
    if txsData.None? {
      return None;
    }
    var texts := txsData.value;
    var rows: seq<CacheRow> := [];
    for i := 0 to |texts|
      invariant RowsOf(c, texts[..i]) == Some(rows)
    {
      var l := Framing.Deserialize(texts[i]);
      assert texts[..i + 1][..i] == texts[..i];
      if l.None? || (|l.value| == 4 && Stoi(l.value[3]).None?) {
        RowsStop(c, texts, i + 1);
        return None;
      }
      var row := if |l.value| != 4 then DEFAULT_ROW
                 else CacheRow(Padded(l.value[0]), Padded(l.value[2]), c.wholeOf(l.value[1]));
      rows := rows + [row];
    }
    assert texts[..|texts|] == texts;
    return Some(rows);
  }

  /** Once a text makes deserialize throw, the texts behind it do not matter. */
  lemma {:induction false} RowsStop(c: Codec, texts: seq<Bytes>, i: nat)
    requires i <= |texts| && RowsOf(c, texts[..i]).None?
    ensures RowsOf(c, texts).None?
    decreases |texts|
  {
    hide RowOf;
    if i < |texts| {
      assert texts[..|texts| - 1][..i] == texts[..i];
      RowsStop(c, texts[..|texts| - 1], i);
    } else {
      assert texts[..i] == texts;
    }
  }

  // ----- What addRow wrote -----

  lemma RowTextBars(c: Codec, row: CacheRow)
    ensures Framing.Bars(RowText(c, row)) == 3
  {
    var fields := RowFields(c, row);
    Framing.DecodeEncodeAll(fields);
    Framing.JoinBars(Framing.EncodeAll(fields));
  }

  lemma {:induction false} RowTextsBars(c: Codec, rows: seq<CacheRow>)
    ensures Framing.Bars(Concat(RowTexts(c, rows))) == 3 * |rows|
  {
    hide RowText;
    if rows != [] {
      RowTextBars(c, rows[0]);
      RowTextsBars(c, rows[1..]);
      assert RowTexts(c, rows)[1..] == RowTexts(c, rows[1..]);
      Framing.BarsAppend(RowText(c, rows[0]), Concat(RowTexts(c, rows[1..])));
    }
  }

  lemma {:induction false} SplitPrefix(a: Bytes, x: Bytes)
    requires BAR !in a
    ensures Framing.Split(a + x) == [a + Framing.Split(x)[0]] + Framing.Split(x)[1..]
  {
    if a == [] {
      assert a + x == x && a + Framing.Split(x)[0] == Framing.Split(x)[0];
    } else {
      assert (a + x)[1..] == a[1..] + x;
      SplitPrefix(a[1..], x);
      assert [a[0]] + (a[1..] + Framing.Split(x)[0]) == a + Framing.Split(x)[0];
    }
  }

  /** Text that decodes still does with a whole encoded item put in front of it. */
  lemma ItemBefore(item: Bytes, x: Bytes)
    requires Framing.Decoded(x).Some?
    ensures Framing.Decoded(Base64.Encode(item, false) + x).Some?
  {
    hide Base64.Encode, Base64.Decode, Framing.Split;
    var e, parts := Base64.Encode(item, false), Framing.Split(x);
    Base64.EncodeLength(item, false);
    Base64.EncodeAvoids(item, false, BAR);
    Base64.RoundTrip(item, false);
    SplitPrefix(e, x);
    Base64.DecodeAppend(e, parts[0]);
    Framing.DecodeAllAppend([parts[0]], parts[1..]);
    Framing.DecodeAllAppend([e + parts[0]], parts[1..]);
    assert parts == [parts[0]] + parts[1..];
    Framing.DecodeAllOne(parts[0]);
    Framing.DecodeAllOne(e + parts[0]);
  }

  lemma BarBefore(x: Bytes)
    requires Framing.Decoded(x).Some?
    ensures Framing.Decoded([BAR] + x).Some?
  {
    hide Framing.Split;
    Framing.SplitAtBar([], x);
    assert [] + [BAR] + x == [BAR] + x;
    Framing.DecodeAllAppend([[]], Framing.Split(x));
    Framing.DecodeAllOne([]);
  }

  lemma RowBefore(c: Codec, row: CacheRow, x: Bytes)
    requires Framing.Decoded(x).Some?
    ensures Framing.Decoded(RowText(c, row) + x).Some?
  {
    hide Base64.Encode, Framing.Decoded;
    var fields := RowFields(c, row);
    var e := Framing.EncodeAll(fields);
    FourFields(fields);
    ItemBefore(fields[3], x);
    BarBefore(e[3] + x);
    ItemBefore(fields[2], [BAR] + (e[3] + x));
    BarBefore(e[2] + ([BAR] + (e[3] + x)));
    ItemBefore(fields[1], [BAR] + (e[2] + ([BAR] + (e[3] + x))));
    BarBefore(e[1] + ([BAR] + (e[2] + ([BAR] + (e[3] + x)))));
    ItemBefore(fields[0], [BAR] + (e[1] + ([BAR] + (e[2] + ([BAR] + (e[3] + x))))));
    assert RowText(c, row) + x == e[0] + ([BAR] + (e[1] + ([BAR] + (e[2] + ([BAR] + (e[3] + x))))));
  }

  lemma FourFields(fields: seq<Bytes>)
    requires |fields| == 4
    ensures var e := Framing.EncodeAll(fields);
            && |e| == 4
            && (forall i :: 0 <= i < 4 ==> e[i] == Base64.Encode(fields[i], false))
            && Framing.Encoded(fields) == e[0] + [BAR] + (e[1] + [BAR] + (e[2] + [BAR] + e[3]))
  {
    hide Base64.Encode;
    var f1, f2, f3 := fields[1..], fields[2..], fields[3..];
    assert f1[1..] == f2 && f2[1..] == f3 && f3[1..] == [];
    var e := Framing.EncodeAll(fields);
    assert e == [Base64.Encode(fields[0], false)] + Framing.EncodeAll(f1);
    assert Framing.EncodeAll(f1) == [Base64.Encode(f1[0], false)] + Framing.EncodeAll(f2);
    assert Framing.EncodeAll(f2) == [Base64.Encode(f2[0], false)] + Framing.EncodeAll(f3);
    assert Framing.EncodeAll(f3) == [Base64.Encode(f3[0], false)];
    assert e[1..][1..] == e[2..] && e[2..][1..] == e[3..] == [e[3]];
    assert Framing.Join(e[2..]) == e[2] + [BAR] + e[3];
    assert Framing.Join(e[1..]) == e[1] + [BAR] + Framing.Join(e[2..]);
  }

  /** The joined rows decode, into three parts a row and one more. */
  lemma {:induction false} TextsDecode(c: Codec, rows: seq<CacheRow>)
    ensures Framing.Decoded(Concat(RowTexts(c, rows))).Some?
  {
    hide RowText, Framing.Decoded;
    if rows == [] {
      Framing.RoundTrip([]);
      assert Framing.Encoded([]) == [];
    } else {
      TextsDecode(c, rows[1..]);
      assert RowTexts(c, rows)[1..] == RowTexts(c, rows[1..]);
      RowBefore(c, rows[0], Concat(RowTexts(c, rows[1..])));
    }
  }

  lemma {:induction false} DecodedLength(parts: seq<Bytes>)
    ensures Framing.DecodeAll(parts).Some? ==> |Framing.DecodeAll(parts).value| == |parts|
  {
    if parts != [] {
      DecodedLength(parts[1..]);
    }
  }

  /** A row as it comes back when it is alone. */
  function Reread(c: Codec, row: CacheRow): CacheRow {
    CacheRow(Padded(row.actor), Padded(row.token), c.wholeOf(StateText(c, row.state)))
  }

  lemma RowTextReads(c: Codec, rows: seq<CacheRow>)
    ensures RowOf(c, Concat(RowTexts(c, rows))) == Some(if |rows| == 1 then Reread(c, rows[0]) else DEFAULT_ROW)
  {
    hide RowText, Framing.Split, Framing.DecodeAll;
    var text := Concat(RowTexts(c, rows));
    TextsDecode(c, rows);
    RowTextsBars(c, rows);
    Framing.SplitCountsBars(text);
    DecodedLength(Framing.Split(text));
    if |rows| == 1 {
      assert RowTexts(c, rows) == [RowText(c, rows[0])];
      ConcatOne(RowText(c, rows[0]));
      RowTextReadsBack(c, rows[0]);
      TypeTextReads();
    }
  }

  lemma RowTextReadsBack(c: Codec, row: CacheRow)
    ensures Framing.Decoded(RowText(c, row)) == Some(RowFields(c, row))
  {
    Framing.RoundTrip(RowFields(c, row));
  }

  /**
   What extractDataRows finds in the payload that addRow made of the rows: the
   row when there is one, and a single default row otherwise. So the rows
   survive exactly when there is one and its ids and state read back.
   */
  lemma RowsReadBackOnlyAlone(c: Codec, rows: seq<CacheRow>)
    ensures var read := ReadRows(c, Framing.AddedData([], RowTexts(c, rows)));
            && read == Some([if |rows| == 1 then Reread(c, rows[0]) else DEFAULT_ROW])
            && (read == Some(rows) <==> |rows| == 1 && Reread(c, rows[0]) == rows[0])
  {
    hide RowText, RowOf, RowsOf, Framing.Decoded, Framing.AddedData;
    var text := Concat(RowTexts(c, rows));
    Framing.AddDataReadsBackAsOne(RowTexts(c, rows));
    RowTextReads(c, rows);
    OneRowOf(c, text);
    if |rows| == 1 {
      assert rows == [rows[0]];
    }
  }

  lemma OneRowOf(c: Codec, text: Bytes)
    requires RowOf(c, text).Some?
    ensures RowsOf(c, [text]) == Some([RowOf(c, text).value])
  {
    hide RowOf;
    assert [text][..0] == [];
    var none: seq<CacheRow> := [];
    assert RowsOf(c, [text][..0]) == Some(none) && none + [RowOf(c, text).value] == [RowOf(c, text).value];
  }

  function RereadAll(c: Codec, rows: seq<CacheRow>): seq<CacheRow> {
    seq(|rows|, i requires 0 <= i < |rows| => Reread(c, rows[i]))
  }

  lemma {:induction false} TextsReadBack(c: Codec, rows: seq<CacheRow>)
    ensures RowsOf(c, RowTexts(c, rows)) == Some(RereadAll(c, rows))
  {
    hide RowText, RowOf, Reread;
    if rows != [] {
      var last := |rows| - 1;
      TextsReadBack(c, rows[..last]);
      assert RowTexts(c, rows)[..last] == RowTexts(c, rows[..last]);
      RowReads(c, rows[last]);
      assert RereadAll(c, rows) == RereadAll(c, rows[..last]) + [Reread(c, rows[last])];
    } else {
      assert RowTexts(c, rows) == [] && RereadAll(c, rows) == [];
    }
  }

  lemma RowReads(c: Codec, row: CacheRow)
    ensures RowOf(c, RowText(c, row)) == Some(Reread(c, row))
  {
    RowTextReadsBack(c, row);
    TypeTextReads();
  }

  /** With '|' between the rows all of them would come back, in order. */
  lemma SeparatedRowsReadBack(c: Codec, rows: seq<CacheRow>)
    requires rows != []
    ensures ReadRows(c, Framing.Encoded(RowTexts(c, rows))) == Some(RereadAll(c, rows))
  {
    hide RowText, RowsOf, Framing.Decoded;
    Framing.RoundTrip(RowTexts(c, rows));
    TextsReadBack(c, rows);
  }
}
