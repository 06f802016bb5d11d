/** Hexadecimal digits and the byte-string codec that the address text form
    is built on: two digits per byte, high nibble first, either letter case
    accepted on input, lower case produced on output. */
module Hex {

  type Byte = b: int | 0 <= b < 256

  /** The character class `[0-9a-fA-F]`. */
  predicate IsHexDigit(c: char) {
    ('0' <= c <= '9') || ('a' <= c <= 'f') || ('A' <= c <= 'F')
  }

  predicate IsLowerHexDigit(c: char) {
    ('0' <= c <= '9') || ('a' <= c <= 'f')
  }

  predicate AllHex(s: string) {
    forall k :: 0 <= k < |s| ==> IsHexDigit(s[k])
  }

  predicate AllLowerHex(s: string) {
    forall k :: 0 <= k < |s| ==> IsLowerHexDigit(s[k])
  }

  /** The value of one digit; `A`..`F` and `a`..`f` mean the same. */
  function DigitValue(c: char): (v: nat)
    requires IsHexDigit(c)
    ensures v < 16
    ensures v < 10 <==> '0' <= c <= '9'
  {
    if '0' <= c <= '9' then c as int - '0' as int
    else if 'a' <= c <= 'f' then c as int - 'a' as int + 10
    else c as int - 'A' as int + 10
  }

  /** The lower-case digit for a nibble. */
  function DigitChar(v: nat): (c: char)
    requires v < 16
    ensures IsLowerHexDigit(c) && IsHexDigit(c)
    ensures DigitValue(c) == v
  {
    if v < 10 then ('0' as int + v) as char else ('a' as int + v - 10) as char
  }

  /** Folds one digit to lower case. */
  function LowerDigit(c: char): (d: char)
    requires IsHexDigit(c)
    ensures IsLowerHexDigit(d) && DigitValue(d) == DigitValue(c)
    ensures IsLowerHexDigit(c) ==> d == c
  {
    if 'A' <= c <= 'F' then (c as int - 'A' as int + 'a' as int) as char else c
  }

  /** Folds a digit string to lower case, character by character. */
  function Lower(s: string): (r: string)
    requires AllHex(s)
    ensures |r| == |s| && AllLowerHex(r)
    ensures forall k :: 0 <= k < |s| ==> r[k] == LowerDigit(s[k])
  {
    seq(|s|, k requires 0 <= k < |s| => LowerDigit(s[k]))
  }

  /** Hex decoding: byte `k` is the value of digits `2k` and `2k+1`. */
  function Decode(s: string): (bytes: seq<Byte>)
    requires |s| % 2 == 0 && AllHex(s)
    ensures |bytes| == |s| / 2
    ensures forall k :: 0 <= k < |bytes| ==>
              bytes[k] == 16 * DigitValue(s[2 * k]) + DigitValue(s[2 * k + 1])
  {
    if |s| == 0 then []
    else [16 * DigitValue(s[0]) + DigitValue(s[1])] + Decode(s[2..])
  }

  /** Lower-case hex encoding, two digits per byte. */
  function Encode(bytes: seq<Byte>): (s: string)
    ensures |s| == 2 * |bytes| && AllLowerHex(s) && AllHex(s)
  {
    if bytes == [] then []
    else [DigitChar(bytes[0] / 16), DigitChar(bytes[0] % 16)] + Encode(bytes[1..])
  }

  /** Decoding undoes encoding. */
  lemma {:induction false} DecodeEncode(bytes: seq<Byte>)
    ensures Decode(Encode(bytes)) == bytes
  {
    if bytes != [] {
      var s := Encode(bytes);
      assert s[2..] == Encode(bytes[1..]);
      DecodeEncode(bytes[1..]);
    }
  }

  /** Encoding what was decoded gives back the digits, folded to lower case. */
  lemma {:induction false} EncodeDecode(s: string)
    requires |s| % 2 == 0 && AllHex(s)
    ensures Encode(Decode(s)) == Lower(s)
  {
    if |s| > 0 {
      var b := Decode(s);
      assert b[1..] == Decode(s[2..]);
      EncodeDecode(s[2..]);
      var hi, lo := DigitValue(s[0]), DigitValue(s[1]);
      assert b[0] / 16 == hi && b[0] % 16 == lo;
      assert DigitChar(hi) == LowerDigit(s[0]);
      assert DigitChar(lo) == LowerDigit(s[1]);
      assert Lower(s) == [LowerDigit(s[0]), LowerDigit(s[1])] + Lower(s[2..]);
    }
  }

  /** Folding lower-case digits changes nothing. */
  lemma LowerOfLower(s: string)
    requires AllLowerHex(s) && AllHex(s)
    ensures Lower(s) == s
  {
  }
}
