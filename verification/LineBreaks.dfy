/** The 64-column (PEM) and 76-column (MIME, RFC 2045 section 6.8) forms of base64. */
module LineBreaks {
  import opened Arithmetic
  import opened Wrappers
  import opened Bytes
  import Base64

  const PEM_COLUMNS := 64
  const MIME_COLUMNS := 76

  /** s cut into lines of distance chars, joined by newlines. */
  function Broken(s: Bytes, distance: nat): Bytes
    requires distance > 0
  {
    if |s| <= distance then s else s[..distance] + [NEWLINE] + Broken(s[distance..], distance)
  }

  /** insert_linebreaks. */
  method InsertLinebreaks(text: Bytes, distance: nat) returns (str: Bytes)
    requires distance > 0
    ensures str == Broken(text, distance)
  {
    if text == [] {
      return [];
    }
    str := text;
    var pos := distance;
    ghost var done := 0;
    assert text[0..] == text;
    while pos < |str|
      invariant done <= |text|
      invariant pos >= distance && pos - distance <= |str|
      invariant str[pos - distance..] == text[done..]
      invariant Broken(text, distance) == str[..pos - distance] + Broken(text[done..], distance)
      decreases |text| - done
    {
      ghost var rest := text[done..];
      ghost var lines := str[..pos - distance];
      assert str[..pos] == lines + rest[..distance];
      assert str[pos..] == rest[distance..] == text[done + distance..];
      str := str[..pos] + [NEWLINE] + str[pos..];
      assert str[..pos + 1] == lines + rest[..distance] + [NEWLINE];
      BreakOnce(lines, rest, distance);
      done := done + distance;
      pos := pos + distance + 1;
    }
    assert str == str[..pos - distance] + str[pos - distance..];
  }

  lemma BreakOnce(lines: Bytes, rest: Bytes, distance: nat)
    requires 0 < distance < |rest|
    ensures lines + Broken(rest, distance)
         == lines + rest[..distance] + [NEWLINE] + Broken(rest[distance..], distance)
  {
  }

  /**
   The newlines stand exactly at the columns that end a full line, so no line
   is longer than distance and every line but the last is exactly that long.
   */
  lemma {:induction false} BreaksExactlyAtColumns(s: Bytes, distance: nat)
    requires distance > 0 && NEWLINE !in s
    ensures forall i :: 0 <= i < |Broken(s, distance)| ==>
              (Broken(s, distance)[i] == NEWLINE <==> i % (distance + 1) == distance)
    ensures s != [] ==> Broken(s, distance)[|Broken(s, distance)| - 1] != NEWLINE
  {
    if |s| > distance {
      var rest := s[distance..];
      BreaksExactlyAtColumns(rest, distance);
      var b := Broken(s, distance);
      forall i | 0 <= i < |b|
        ensures b[i] == NEWLINE <==> i % (distance + 1) == distance
      {
        if i <= distance {
          SmallMod(i, distance + 1);
        } else {
          assert b[i] == Broken(rest, distance)[i - (distance + 1)];
          ModStep(i, distance + 1);
        }
      }
    } else {
      forall i | 0 <= i < |s|
        ensures s[i] == NEWLINE <==> i % (distance + 1) == distance
      {
        SmallMod(i, distance + 1);
      }
    }
  }

  /** Taking the newlines out again gives the unbroken text. */
  lemma {:induction false} UnbreakBroken(s: Bytes, distance: nat)
    requires distance > 0 && NEWLINE !in s
    ensures Without(Broken(s, distance), NEWLINE) == s
  {
    if |s| <= distance {
      WithoutAbsent(s, NEWLINE);
    } else {
      var line, rest := s[..distance], s[distance..];
      UnbreakBroken(rest, distance);
      WithoutAbsent(line, NEWLINE);
      WithoutAppend(line + [NEWLINE], Broken(rest, distance), NEWLINE);
      WithoutAppend(line, [NEWLINE], NEWLINE);
      assert s == line + rest;
    }
  }

  /** encode_with_line_breaks: the standard alphabet, broken into lines. */
  method EncodeWithLineBreaks(s: Bytes, columns: nat) returns (r: Bytes)
    requires columns > 0
    ensures Base64.Decode(Without(r, NEWLINE)) == Some(s)
    ensures forall i :: 0 <= i < |r| ==> (r[i] == NEWLINE <==> i % (columns + 1) == columns)
    ensures Without(r, NEWLINE) == Base64.Encode(s, false)
  {
    var encoded := Base64.Base64Encode(s, false);
    r := InsertLinebreaks(encoded, columns);
    Base64.RoundTrip(s, false);
    Base64.EncodeAvoids(s, false, NEWLINE);
    UnbreakBroken(encoded, columns);
    BreaksExactlyAtColumns(encoded, columns);
  }

  method EncodePem(s: Bytes) returns (r: Bytes)
    ensures Base64.Decode(Without(r, 10)) == Some(s) && Without(r, 10) == Base64.Encode(s, false)
    ensures forall i :: 0 <= i < |r| ==> (r[i] == 10 <==> i % 65 == 64)
  {
    r := EncodeWithLineBreaks(s, PEM_COLUMNS);
  }

  method EncodeMime(s: Bytes) returns (r: Bytes)
    ensures Base64.Decode(Without(r, 10)) == Some(s) && Without(r, 10) == Base64.Encode(s, false)
    ensures forall i :: 0 <= i < |r| ==> (r[i] == 10 <==> i % 77 == 76)
  {
    r := EncodeWithLineBreaks(s, MIME_COLUMNS);
  }
}
