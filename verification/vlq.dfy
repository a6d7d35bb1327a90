/** The base64 variable-length-quantity encoding of the "mappings" field of
    Source Map Revision 3: zig-zag sign folding, then 5-bit groups, least
    significant group first, with bit 32 marking "more groups follow". */
module Vlq {
  import opened Wrappers

  const Upper: string := "ABCDEFGHIJKLMNOPQRSTUVWXYZ"
  const Lower: string := "abcdefghijklmnopqrstuvwxyz"
  const Decimal: string := "0123456789"

  /** The lookup table the encoder indexes: the 64 base64 digits, then `=`. */
  const Alphabet: string := Upper + Lower + Decimal + "+/="

  /** The value of a base64 digit per the standard alphabet of RFC 4648;
      `None` for any other character (including the padding `=`). */
  function DigitValue(c: char): (r: Option<nat>)
    ensures r.Some? ==> r.value < 64
  {
    if 'A' <= c <= 'Z' then Some(c as int - 'A' as int)
    else if 'a' <= c <= 'z' then Some(c as int - 'a' as int + 26)
    else if '0' <= c <= '9' then Some(c as int - '0' as int + 52)
    else if c == '+' then Some(62)
    else if c == '/' then Some(63)
    else None
  }

  predicate IsDigit(c: char)
  {
    DigitValue(c).Some?
  }

  /** `integerToChar[d]`: the digit for the 6-bit value `d`. */
  function IntegerToChar(d: nat): (c: char)
    requires d < 64
    ensures DigitValue(c) == Some(d)
  {
    if d < 26 then ('A' as int + d) as char
    else if d < 52 then ('a' as int + d - 26) as char
    else if d < 62 then ('0' as int + d - 52) as char
    else if d == 62 then '+'
    else '/'
  }

  /** The lookup table agrees with `IntegerToChar` on every 6-bit value. */
  lemma AlphabetTable(d: nat)
    requires d < 64
    ensures Alphabet[d] == IntegerToChar(d)
  {
    if d < 26 {
      assert forall k :: 0 <= k < 26 ==> Upper[k] == ('A' as int + k) as char;
    } else if d < 52 {
      assert forall k :: 0 <= k < 26 ==> Lower[k] == ('a' as int + k) as char;
    } else if d < 62 {
      assert forall k :: 0 <= k < 10 ==> Decimal[k] == ('0' as int + k) as char;
    }
  }

  /** Sign folding: the sign goes to the lowest bit. */
  function ZigZag(n: int): nat
  {
    if n < 0 then -n * 2 + 1 else n * 2
  }

  /** The digits of the folded value `z`. */
  function Digits(z: nat): (r: string)
    ensures |r| >= 1
    ensures forall k :: 0 <= k < |r| ==> IsDigit(r[k]) && (DigitValue(r[k]).value >= 32 <==> k < |r| - 1)
    decreases z
  {
    var clamped := z % 32;
    var rest := z / 32;
    if rest > 0 then [IntegerToChar(clamped + 32)] + Digits(rest)
    else [IntegerToChar(clamped)]
  }

  /** `encodeInteger`: one signed integer as base64 VLQ digits. */
  function EncodeInteger(n: int): (r: string)
    ensures |r| >= 1
    ensures forall k :: 0 <= k < |r| ==> IsDigit(r[k]) && (DigitValue(r[k]).value >= 32 <==> k < |r| - 1)
  {
    Digits(ZigZag(n))
  }

  /** `encode` of an array: the element encodings back to back. */
  function Encode(values: seq<int>): (r: string)
    ensures forall k :: 0 <= k < |r| ==> IsDigit(r[k])
    ensures |r| >= |values|
  {
    if |values| == 0 then "" else EncodeInteger(values[0]) + Encode(values[1..])
  }

  lemma {:induction false} EncodeAppend(xs: seq<int>, ys: seq<int>)
    ensures Encode(xs + ys) == Encode(xs) + Encode(ys)
  {
    if |xs| == 0 {
      assert xs + ys == ys;
    } else {
      assert (xs + ys)[1..] == xs[1..] + ys;
      EncodeAppend(xs[1..], ys);
    }
  }

  // A standard VLQ decoder, written independently of the encoder above.

  /** Reads one run of digits: every digit with bit 32 set is followed by
      another. Returns the folded value and the unread remainder. */
  function DecodeDigits(s: string): Option<(nat, string)>
    decreases |s|
  {
    if |s| == 0 then None
    else match DigitValue(s[0])
      case None => None
      case Some(d) =>
        if d < 32 then Some((d, s[1..]))
        else match DecodeDigits(s[1..])
          case None => None
          case Some((v, rest)) => Some((d - 32 + 32 * v, rest))
  }

  /** Undoes the sign folding. */
  function Unfold(z: nat): int
  {
    if z % 2 == 1 then -(z / 2) else z / 2
  }

  function DecodeInteger(s: string): Option<(int, string)>
  {
    match DecodeDigits(s)
    case None => None
    case Some((z, rest)) => Some((Unfold(z), rest))
  }

  /** Decodes a whole digit string into the integers it holds. */
  function Decode(s: string): Option<seq<int>>
    decreases |s|
  {
    if |s| == 0 then Some([])
    else match DecodeDigits(s)
      case None => None
      case Some((z, rest)) =>
        if |rest| >= |s| then None
        else match Decode(rest)
          case None => None
          case Some(vs) => Some([Unfold(z)] + vs)
  }

  lemma {:induction false} DecodeDigitsOf(z: nat, rest: string)
    ensures DecodeDigits(Digits(z) + rest) == Some((z, rest))
    decreases z
  {
    var clamped := z % 32;
    var s := Digits(z) + rest;
    if z / 32 > 0 {
      var c := IntegerToChar(clamped + 32);
      assert Digits(z) == [c] + Digits(z / 32);
      assert s[0] == c;
      assert s[1..] == Digits(z / 32) + rest;
      DecodeDigitsOf(z / 32, rest);
      assert DecodeDigits(s) == Some((clamped + 32 * (z / 32), rest));
    } else {
      assert s[0] == IntegerToChar(clamped);
      assert s[1..] == rest;
    }
  }

  lemma UnfoldZigZag(n: int)
    ensures Unfold(ZigZag(n)) == n
  {
  }

  /** Decoding inverts `encodeInteger`, whatever follows it. */
  lemma DecodeEncodeInteger(n: int, rest: string)
    ensures DecodeInteger(EncodeInteger(n) + rest) == Some((n, rest))
  {
    DecodeDigitsOf(ZigZag(n), rest);
    UnfoldZigZag(n);
  }

  /** Round trip: the standard decoder recovers every encoded array. */
  lemma {:induction false} DecodeEncode(values: seq<int>)
    ensures Decode(Encode(values)) == Some(values)
  {
    if |values| > 0 {
      var s := Encode(values);
      var rest := Encode(values[1..]);
      DecodeDigitsOf(ZigZag(values[0]), rest);
      UnfoldZigZag(values[0]);
      DecodeEncode(values[1..]);
      assert [values[0]] + values[1..] == values;
    }
  }

  /** The values quoted in the loader: `encode(0)`, `encode(-1)`, the `AACA`
      line step of coarse mode and the `CAAC` character step of hires mode. */
  lemma KnownEncodings()
    ensures EncodeInteger(0) == "A"
    ensures EncodeInteger(-1) == "D"
    ensures EncodeInteger(1) == "C"
    ensures EncodeInteger(16) == "gB"
    ensures Encode([0, 0, 1, 0]) == "AACA"
    ensures Encode([1, 0, 0, 1]) == "CAAC"
  {
    assert Digits(32) == [IntegerToChar(32)] + Digits(1);
    assert Encode([0]) == "A";
    assert Encode([1, 0]) == "CA";
    assert Encode([0, 1]) == "AC";
    assert Encode([0, 0, 1]) == "AAC";
    assert Encode([0, 1, 0]) == "ACA";
    assert Encode([0, 0, 1, 0]) == "AACA";
    assert Encode([1]) == "C";
    assert Encode([0, 0, 1]) == "AAC";
    assert Encode([1, 0, 0, 1]) == "CAAC";
  }
}
