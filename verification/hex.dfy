/**
 * The digest rendering: every byte of the hash is appended to a string
 * builder with the format "{0:x2}", two lower-case hexadecimal digits.
 */
module Hex {
  import opened Wrappers
  import opened Bytes

  predicate IsLowerHex(c: char) { '0' <= c <= '9' || 'a' <= c <= 'f' }

  function HexDigit(d: nat): (c: char)
    requires d < 16
    ensures IsLowerHex(c)
  {
    if d < 10 then ('0' as int + d) as char else ('a' as int + d - 10) as char
  }

  function HexValue(c: char): (r: Option<nat>)
    ensures r.Some? <==> IsLowerHex(c)
    ensures r.Some? ==> r.value < 16 && HexDigit(r.value) == c
  {
    if '0' <= c <= '9' then Some(c as int - '0' as int)
    else if 'a' <= c <= 'f' then Some(c as int - 'a' as int + 10)
    else None
  }

  lemma HexValueOfDigit(d: nat)
    requires d < 16
    ensures HexValue(HexDigit(d)) == Some(d)
  {
  }

  /** `AppendFormat("{0:x2}", b)`. */
  function ByteHex(b: byte): string
  {
    [HexDigit(b as int / 16), HexDigit(b as int % 16)]
  }

  /** The whole builder after the loop: the bytes' renderings, in order. */
  function HexOf(bs: seq<byte>): string
  {
    if bs == [] then [] else HexOf(bs[..|bs| - 1]) + ByteHex(bs[|bs| - 1])
  }

  /** The loop over the hash bytes, appending to a builder. */
  method HexEncode(hashBytes: seq<byte>) returns (hex: string)
    ensures hex == HexOf(hashBytes)
  {
    hex := [];
    var i := 0;
    while i < |hashBytes|
      invariant 0 <= i <= |hashBytes|
      invariant hex == HexOf(hashBytes[..i])
    {
      var b := hashBytes[i];
      hex := hex + [HexDigit(b as int / 16), HexDigit(b as int % 16)];
      assert hashBytes[..i + 1][..i] == hashBytes[..i];
      i := i + 1;
    }
    assert hashBytes[..i] == hashBytes;
  }

  /** Parses lower-case hexadecimal text, two digits per byte. */
  function Unhex(s: string): Option<seq<byte>>
  {
    if s == [] then Some([])
    else if |s| == 1 then None
    else
      var front, hi, lo := Unhex(s[..|s| - 2]), HexValue(s[|s| - 2]), HexValue(s[|s| - 1]);
      if front.Some? && hi.Some? && lo.Some? then Some(front.value + [(hi.value * 16 + lo.value) as byte])
      else None
  }

  /** Two characters per byte: the high nibble's digit, then the low nibble's. */
  lemma {:induction false} HexShape(bs: seq<byte>)
    ensures |HexOf(bs)| == 2 * |bs|
    ensures forall i :: 0 <= i < |bs| ==>
      HexOf(bs)[2 * i] == HexDigit(bs[i] as int / 16) && HexOf(bs)[2 * i + 1] == HexDigit(bs[i] as int % 16)
  {
    if bs != [] {
      var front := bs[..|bs| - 1];
      HexShape(front);
      forall i | 0 <= i < |front|
        ensures bs[i] == front[i]
      {
      }
    }
  }

  /** Every character of the rendering is one of 0-9, a-f. */
  lemma HexLowercase(bs: seq<byte>)
    ensures forall j :: 0 <= j < |HexOf(bs)| ==> IsLowerHex(HexOf(bs)[j])
  {
    HexShape(bs);
    forall j | 0 <= j < |HexOf(bs)|
      ensures IsLowerHex(HexOf(bs)[j])
    {
      var i := j / 2;
      assert j == 2 * i || j == 2 * i + 1;
    }
  }

  /** One step of UnhexHex: parsing the rendering of one more byte. */
  lemma UnhexHexStep(front: seq<byte>, b: byte)
    requires Unhex(HexOf(front)) == Some(front)
    ensures Unhex(HexOf(front + [b])) == Some(front + [b])
  {
    var bs := front + [b];
    var hi, lo := b as int / 16, b as int % 16;
    var s := HexOf(bs);
    assert bs[..|bs| - 1] == front;
    assert s == HexOf(front) + [HexDigit(hi), HexDigit(lo)];
    assert s[..|s| - 2] == HexOf(front);
    HexValueOfDigit(hi);
    HexValueOfDigit(lo);
  }

  lemma {:induction false} UnhexHex(bs: seq<byte>)
    ensures Unhex(HexOf(bs)) == Some(bs)
  {
    if bs != [] {
      var front := bs[..|bs| - 1];
      UnhexHex(front);
      UnhexHexStep(front, bs[|bs| - 1]);
      assert front + [bs[|bs| - 1]] == bs;
    }
  }

  /** The byte parsed from two digits renders as those two digits. */
  lemma RenderParsedByte(front: seq<byte>, hi: nat, lo: nat)
    requires hi < 16 && lo < 16
    ensures HexOf(front + [(hi * 16 + lo) as byte]) == HexOf(front) + [HexDigit(hi), HexDigit(lo)]
  {
    var bs := front + [(hi * 16 + lo) as byte];
    assert bs[..|bs| - 1] == front;
  }

  lemma LastTwo(s: string)
    requires |s| >= 2
    ensures s == s[..|s| - 2] + [s[|s| - 2], s[|s| - 1]]
  {
  }

  lemma {:induction false} HexUnhex(s: string)
    requires Unhex(s).Some?
    ensures HexOf(Unhex(s).value) == s
  {
    if s != [] {
      var t := s[..|s| - 2];
      HexUnhex(t);
      var hi := HexValue(s[|s| - 2]).value;
      var lo := HexValue(s[|s| - 1]).value;
      assert Unhex(s).value == Unhex(t).value + [(hi * 16 + lo) as byte];
      RenderParsedByte(Unhex(t).value, hi, lo);
      LastTwo(s);
    }
  }

  /** Distinct byte strings render differently. */
  lemma HexInjective(a: seq<byte>, b: seq<byte>)
    requires HexOf(a) == HexOf(b)
    ensures a == b
  {
    UnhexHex(a);
    UnhexHex(b);
  }
}
