/**
  Hexadecimal text as Go's encoding/hex reads and writes it: output is lower case,
  input may be either case, and an odd length or a foreign character is an error.
 */
module Hex {
  import opened Basics

  newtype Byte = x: int | 0 <= x < 256

  type Bytes = seq<Byte>

  function FromHexChar(c: char): (d: Option<nat>)
    ensures d.Some? ==> d.value < 16
  {
    if '0' <= c <= '9' then Some(c as int - '0' as int)
    else if 'a' <= c <= 'f' then Some(c as int - 'a' as int + 10)
    else if 'A' <= c <= 'F' then Some(c as int - 'A' as int + 10)
    else None
  }

  function ToHexChar(d: nat): char
    requires d < 16
  {
    if d < 10 then '0' + d as char else 'a' + (d - 10) as char
  }

  predicate IsLowerHexChar(c: char) {
    '0' <= c <= '9' || 'a' <= c <= 'f'
  }

  predicate IsLowerHex(s: string) {
    forall i | 0 <= i < |s| :: IsLowerHexChar(s[i])
  }

  function EncodeToString(b: Bytes): string {
    if b == [] then "" else [ToHexChar(b[0] as int / 16), ToHexChar(b[0] as int % 16)] + EncodeToString(b[1..])
  }

  function DecodeString(s: string): Result<Bytes, ()> {
    if s == "" then Ok([])
    else if |s| == 1 then Err(())
    else
      match (FromHexChar(s[0]), FromHexChar(s[1]), DecodeString(s[2..]))
      case (Some(hi), Some(lo), Ok(rest)) => Ok([(16 * hi + lo) as Byte] + rest)
      case _ => Err(())
  }

  lemma {:induction false} EncodeIsLowerHex(b: Bytes)
    ensures |EncodeToString(b)| == 2 * |b|
    ensures IsLowerHex(EncodeToString(b))
  {
    if b != [] {
      EncodeIsLowerHex(b[1..]);
    }
  }

  lemma HexCharRoundTrip(d: nat)
    requires d < 16
    ensures FromHexChar(ToHexChar(d)) == Some(d)
  {
  }

  /** Decoding undoes encoding. */
  lemma {:induction false} DecodeOfEncode(b: Bytes)
    ensures DecodeString(EncodeToString(b)) == Ok(b)
  {
    if b != [] {
      DecodeOfEncode(b[1..]);
      HexCharRoundTrip(b[0] as int / 16);
      HexCharRoundTrip(b[0] as int % 16);
      var s := EncodeToString(b);
      assert s[2..] == EncodeToString(b[1..]);
      assert [b[0]] + b[1..] == b;
    }
  }

  /** Two byte strings with the same text are the same bytes. */
  lemma EncodeInjective(a: Bytes, b: Bytes)
    requires EncodeToString(a) == EncodeToString(b)
    ensures a == b
  {
    DecodeOfEncode(a);
    DecodeOfEncode(b);
  }

  lemma LowerHexChar(c: char)
    requires FromHexChar(c).Some?
    ensures ToHexChar(FromHexChar(c).value) == c <==> IsLowerHexChar(c)
  {
  }

  lemma LowerHexSplit(s: string)
    requires |s| >= 2
    ensures IsLowerHex(s) <==> IsLowerHexChar(s[0]) && IsLowerHexChar(s[1]) && IsLowerHex(s[2..])
  {
    forall i | 0 <= i < |s|
      ensures IsLowerHexChar(s[0]) && IsLowerHexChar(s[1]) && IsLowerHex(s[2..]) ==> IsLowerHexChar(s[i])
    {
      if 2 <= i { assert s[i] == s[2..][i - 2]; }
    }
  }

  lemma EncodeCons(hi: nat, lo: nat, tail: Bytes)
    requires hi < 16 && lo < 16
    ensures EncodeToString([(16 * hi + lo) as Byte] + tail) == [ToHexChar(hi), ToHexChar(lo)] + EncodeToString(tail)
  {
    var b := [(16 * hi + lo) as Byte] + tail;
    assert b[1..] == tail;
    assert b[0] as int / 16 == hi && b[0] as int % 16 == lo;
  }

  lemma TwoHeads(a: char, b: char, s: string, c: char, d: char, t: string)
    ensures [a, b] + s == [c, d] + t <==> a == c && b == d && s == t
  {
    assert ([a, b] + s)[2..] == s && ([c, d] + t)[2..] == t;
    assert ([a, b] + s)[0] == a && ([a, b] + s)[1] == b;
    assert ([c, d] + t)[0] == c && ([c, d] + t)[1] == d;
  }

  /** Encoding undoes decoding exactly on lower-case text. */
  lemma {:induction false} EncodeOfDecode(s: string)
    requires DecodeString(s).Ok?
    ensures |s| == 2 * |DecodeString(s).value|
    ensures EncodeToString(DecodeString(s).value) == s <==> IsLowerHex(s)
  {
    if s != "" {
      var tail := s[2..];
      EncodeOfDecode(tail);
      EncodeOfDecodeStep(s, tail);
    }
  }

  lemma EncodeOfDecodeStep(s: string, tail: string)
    requires |s| >= 2 && tail == s[2..] && DecodeString(s).Ok?
    requires DecodeString(tail).Ok? && |tail| == 2 * |DecodeString(tail).value|
    requires EncodeToString(DecodeString(tail).value) == tail <==> IsLowerHex(tail)
    ensures |s| == 2 * |DecodeString(s).value|
    ensures EncodeToString(DecodeString(s).value) == s <==> IsLowerHex(s)
  {
    var hi, lo := FromHexChar(s[0]).value, FromHexChar(s[1]).value;
    var rest := DecodeString(tail).value;
    assert DecodeString(s).value == [(16 * hi + lo) as Byte] + rest;
    EncodeCons(hi, lo, rest);
    LowerHexChar(s[0]);
    LowerHexChar(s[1]);
    LowerHexSplit(s);
    assert s == [s[0], s[1]] + tail;
    TwoHeads(ToHexChar(hi), ToHexChar(lo), EncodeToString(rest), s[0], s[1], tail);
  }

  lemma {:induction false} DecodeOfLowerHex(s: string)
    requires IsLowerHex(s) && |s| % 2 == 0
    ensures DecodeString(s).Ok?
  {
    if s != "" {
      LowerHexSplit(s);
      DecodeOfLowerHex(s[2..]);
    }
  }

  predicate IsHexDigit(c: char) {
    '0' <= c <= '9' || 'a' <= c <= 'f' || 'A' <= c <= 'F'
  }

  /** Text decodes exactly when it has an even number of characters and all are hexadecimal digits. */
  lemma {:induction false} DecodesExactly(s: string)
    ensures DecodeString(s).Ok? <==> |s| % 2 == 0 && forall i | 0 <= i < |s| :: IsHexDigit(s[i])
  {
    if |s| >= 2 {
      DecodesExactly(s[2..]);
      assert s == [s[0], s[1]] + s[2..];
    }
  }

  /** The same character, or its lower case. */
  predicate SameDigit(c: char, d: char) {
    c == d || ('A' <= c <= 'F' && 'a' <= d <= 'f' && c as int - 'A' as int == d as int - 'a' as int)
  }

  /** Upper and lower case decode alike. */
  lemma {:induction false} DecodeIgnoresCase(s: string, t: string)
    requires |s| == |t| && forall i | 0 <= i < |s| :: SameDigit(s[i], t[i])
    ensures DecodeString(s) == DecodeString(t)
  {
    if |s| >= 2 {
      DecodeIgnoresCase(s[2..], t[2..]);
    }
  }
}
