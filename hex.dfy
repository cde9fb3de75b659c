/** Lowercase hexadecimal text of a byte string, as Node.js `digest('hex')`
    writes it, with the reader that recovers the bytes. */
module Hex {
  import opened Wrappers
  import Utf8

  predicate IsLowerHexDigit(c: char) {
    '0' <= c <= '9' || 'a' <= c <= 'f'
  }

  /** The lowercase digit for a value below 16. */
  function Digit(x: nat): (c: char)
    requires x < 16
    ensures IsLowerHexDigit(c) && DigitValue(c) == Some(x)
  {
    if x < 10 then ('0' as int + x) as char else ('a' as int + x - 10) as char
  }

  function Encode(bs: seq<Utf8.Byte>): (s: string)
    ensures |s| == 2 * |bs|
    ensures forall i :: 0 <= i < |s| ==> IsLowerHexDigit(s[i])
    decreases |bs|
  {
    if bs == [] then []
    else [Digit(bs[0] / 16), Digit(bs[0] % 16)] + Encode(bs[1..])
  }

  function DigitValue(c: char): Option<nat> {
    if '0' <= c <= '9' then Some(c as int - '0' as int)
    else if 'a' <= c <= 'f' then Some(c as int - 'a' as int + 10)
    else None
  }

  function Decode(s: string): Option<seq<Utf8.Byte>>
    decreases |s|
  {
    if s == [] then Some([])
    else if |s| == 1 then None
    else
      var hi, lo := DigitValue(s[0]), DigitValue(s[1]);
      if hi.None? || lo.None? then None
      else
        match Decode(s[2..])
        case None => None
        case Some(rest) => Some([hi.value * 16 + lo.value] + rest)
  }

  /** The hex text determines the bytes: reading it back gives them. */
  lemma {:induction false} RoundTrip(bs: seq<Utf8.Byte>)
    ensures Decode(Encode(bs)) == Some(bs)
    decreases |bs|
  {
    if bs != [] {
      var s := Encode(bs);
      assert s[2..] == Encode(bs[1..]);
      RoundTrip(bs[1..]);
      assert [bs[0]] + bs[1..] == bs;
    }
  }
}
