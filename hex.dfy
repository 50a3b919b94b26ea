/**
  Base16 as the upload pipeline uses it: `fmt.Sprintf("%x", digest)` writes
  lower-case hexadecimal (section 8 of RFC 4648, lower-case alphabet), and
  `hex.DecodeString` reads it back, accepting digits of either case and
  failing on an odd length or on any character that is not a digit.
*/
module Hex {
  import opened Basics

  /** The lower-case digit `%x` writes for a value below 16. */
  function Digit(n: int): (c: char)
    requires 0 <= n < 16
  {
    if n < 10 then (48 + n) as char else (87 + n) as char
  }

  /** The value of a digit of either case, or None for any other character. */
  function DigitValue(c: char): (v: Option<int>)
    ensures v.Some? ==> 0 <= v.value < 16
  {
    if '0' <= c <= '9' then Some(c as int - 48)
    else if 'a' <= c <= 'f' then Some(c as int - 87)
    else if 'A' <= c <= 'F' then Some(c as int - 55)
    else None
  }

  predicate IsLowerDigit(c: char) {
    '0' <= c <= '9' || 'a' <= c <= 'f'
  }

  /** Every character is a lower-case digit: the shape of `%x` output. */
  predicate IsLowerHex(s: string) {
    forall i | 0 <= i < |s| :: IsLowerDigit(s[i])
  }

  /** `%x` of a byte string: two lower-case digits per byte, high nibble first. */
  function Encode(bs: seq<byte>): (s: string)
    ensures |s| == 2 * |bs|
    ensures IsLowerHex(s)
  {
    if bs == [] then "" else [Digit(bs[0] / 16), Digit(bs[0] % 16)] + Encode(bs[1..])
  }

  /** `hex.DecodeString`: None exactly when Go returns an error. */
  function Decode(s: string): (r: Option<seq<byte>>)
    ensures r.Some? <==> |s| % 2 == 0 && forall i | 0 <= i < |s| :: DigitValue(s[i]).Some?
    ensures r.Some? ==> 2 * |r.value| == |s|
    decreases |s|
  {
    if s == [] then Some([])
    else if |s| == 1 then None
    else
      var hi, lo, rest := DigitValue(s[0]), DigitValue(s[1]), Decode(s[2..]);
      if hi.Some? && lo.Some? && rest.Some? then
        Some([hi.value * 16 + lo.value] + rest.value)
      else
        assert rest.None? ==> |s| % 2 == 1 || exists i | 2 <= i < |s| :: DigitValue(s[i]).None?;
        None
  }

  lemma DigitRoundTrip(n: int)
    requires 0 <= n < 16
    ensures DigitValue(Digit(n)) == Some(n)
  {
  }

  /** Decoding what `%x` wrote gives back the original bytes. */
  lemma {:induction false} DecodeEncode(bs: seq<byte>)
    ensures Decode(Encode(bs)) == Some(bs)
  {
    if bs != [] {
      var s := Encode(bs);
      var b := bs[0];
      assert s[2..] == Encode(bs[1..]);
      DigitRoundTrip(b / 16);
      DigitRoundTrip(b % 16);
      DecodeEncode(bs[1..]);
      assert [b / 16 * 16 + b % 16] + bs[1..] == bs;
    }
  }

  /** A lower-case hex string that decodes is exactly the encoding of what it decodes to. */
  lemma {:induction false} EncodeDecode(s: string)
    requires IsLowerHex(s)
    requires Decode(s).Some?
    ensures Encode(Decode(s).value) == s
  {
    if s != [] {
      var hi, lo := DigitValue(s[0]).value, DigitValue(s[1]).value;
      assert IsLowerHex(s[2..]) by {
        forall i | 0 <= i < |s| - 2 ensures IsLowerDigit(s[2..][i]) {
          assert s[2..][i] == s[i + 2];
        }
      }
      EncodeDecode(s[2..]);
      var bs := Decode(s).value;
      assert bs[0] == hi * 16 + lo && bs[1..] == Decode(s[2..]).value;
      NibbleSplit(hi, lo);
      assert Digit(hi) == s[0] && Digit(lo) == s[1];
      assert Encode(bs) == [Digit(bs[0] / 16), Digit(bs[0] % 16)] + Encode(bs[1..]);
      assert s == [s[0], s[1]] + s[2..];
    }
  }

  /** A byte built from two nibbles splits back into them. */
  lemma NibbleSplit(hi: int, lo: int)
    requires 0 <= hi < 16 && 0 <= lo < 16
    ensures (hi * 16 + lo) / 16 == hi && (hi * 16 + lo) % 16 == lo
  {
  }

  /** Distinct byte strings have distinct encodings. */
  lemma EncodeInjective(a: seq<byte>, b: seq<byte>)
    requires Encode(a) == Encode(b)
    ensures a == b
  {
    DecodeEncode(a);
    DecodeEncode(b);
  }
}
