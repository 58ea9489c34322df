/**
 * `Encoding.UTF8.GetBytes`: each Unicode scalar value becomes one to four
 * bytes. `Decode` is the strict inverse (no overlong forms, no surrogates,
 * nothing above U+10FFFF), used to state that the encoding loses nothing.
 */
module Utf8 {
  import opened Wrappers
  import opened Bytes

  function EncodeChar(c: char): (bs: seq<byte>)
    ensures 1 <= |bs| <= 4
  {
    var v := c as int;
    if v < 0x80 then [v as byte]
    else if v < 0x800 then [(0xC0 + v / 0x40) as byte, (0x80 + v % 0x40) as byte]
    else if v < 0x1_0000 then
      [(0xE0 + v / 0x1000) as byte, (0x80 + v / 0x40 % 0x40) as byte, (0x80 + v % 0x40) as byte]
    else
      [(0xF0 + v / 0x4_0000) as byte, (0x80 + v / 0x1000 % 0x40) as byte,
       (0x80 + v / 0x40 % 0x40) as byte, (0x80 + v % 0x40) as byte]
  }

  function Encode(s: string): seq<byte>
  {
    if s == [] then [] else EncodeChar(s[0]) + Encode(s[1..])
  }

  predicate IsContinuation(b: byte) { 0x80 <= b < 0xC0 }

  /** The scalar value at the front of `bs` and the number of bytes it takes. */
  function DecodeChar(bs: seq<byte>): (r: Option<(char, nat)>)
    requires bs != []
    ensures r.Some? ==> 1 <= r.value.1 <= |bs|
  {
    var b0 := bs[0] as int;
    if b0 < 0x80 then Some((b0 as char, 1))
    else if 0xC0 <= b0 < 0xE0 && |bs| >= 2 && IsContinuation(bs[1]) then
      var v := (b0 - 0xC0) * 0x40 + (bs[1] as int - 0x80);
      if 0x80 <= v then Some((v as char, 2)) else None
    else if 0xE0 <= b0 < 0xF0 && |bs| >= 3 && IsContinuation(bs[1]) && IsContinuation(bs[2]) then
      var v := (b0 - 0xE0) * 0x1000 + (bs[1] as int - 0x80) * 0x40 + (bs[2] as int - 0x80);
      if 0x800 <= v && !(0xD800 <= v < 0xE000) then Some((v as char, 3)) else None
    else if 0xF0 <= b0 < 0xF8 && |bs| >= 4
         && IsContinuation(bs[1]) && IsContinuation(bs[2]) && IsContinuation(bs[3]) then
      var v := (b0 - 0xF0) * 0x4_0000 + (bs[1] as int - 0x80) * 0x1000
             + (bs[2] as int - 0x80) * 0x40 + (bs[3] as int - 0x80);
      if 0x1_0000 <= v < 0x11_0000 then Some((v as char, 4)) else None
    else None
  }

  function Decode(bs: seq<byte>): Option<string>
    decreases |bs|
  {
    if bs == [] then Some([])
    else match DecodeChar(bs)
      case None => None
      case Some((c, n)) =>
        match Decode(bs[n..])
        case None => None
        case Some(rest) => Some([c] + rest)
  }

  lemma DecodeEncodeChar(c: char, tail: seq<byte>)
    ensures DecodeChar(EncodeChar(c) + tail) == Some((c, |EncodeChar(c)|))
  {
    var v := c as int;
    var bs := EncodeChar(c) + tail;
    if v < 0x80 {
    } else if v < 0x800 {
      assert bs[0] as int == 0xC0 + v / 0x40 && bs[1] as int == 0x80 + v % 0x40;
      assert (v / 0x40) * 0x40 + v % 0x40 == v;
    } else if v < 0x1_0000 {
      DecodeEncodeThree(c, tail);
    } else {
      DecodeEncodeFour(c, tail);
    }
  }

  /** A scalar value is the sum of its base-64 digits. */
  lemma Base64Recompose(v: nat)
    ensures v == v / 0x40 * 0x40 + v % 0x40
    ensures v / 0x40 == v / 0x1000 * 0x40 + v / 0x40 % 0x40
    ensures v / 0x1000 == v / 0x4_0000 * 0x40 + v / 0x1000 % 0x40
  {
    assert v / 0x40 / 0x40 == v / 0x1000;
    assert v / 0x1000 / 0x40 == v / 0x4_0000;
  }

  lemma DecodeEncodeThree(c: char, tail: seq<byte>)
    requires 0x800 <= c as int < 0x1_0000
    ensures DecodeChar(EncodeChar(c) + tail) == Some((c, 3))
  {
    var v := c as int;
    var bs := EncodeChar(c) + tail;
    Base64Recompose(v);
    assert bs[0] as int == 0xE0 + v / 0x1000;
    assert bs[1] as int == 0x80 + v / 0x40 % 0x40 && bs[2] as int == 0x80 + v % 0x40;
  }

  lemma DecodeEncodeFour(c: char, tail: seq<byte>)
    requires 0x1_0000 <= c as int
    ensures DecodeChar(EncodeChar(c) + tail) == Some((c, 4))
  {
    var v := c as int;
    var bs := EncodeChar(c) + tail;
    Base64Recompose(v);
    assert bs[0] as int == 0xF0 + v / 0x4_0000 && bs[1] as int == 0x80 + v / 0x1000 % 0x40;
    assert bs[2] as int == 0x80 + v / 0x40 % 0x40 && bs[3] as int == 0x80 + v % 0x40;
  }

  lemma DivMod64(q: nat, r: nat)
    requires r < 0x40
    ensures (q * 0x40 + r) / 0x40 == q && (q * 0x40 + r) % 0x40 == r
  {
  }

  lemma DivMod4096(q: nat, r: nat)
    requires r < 0x1000
    ensures (q * 0x1000 + r) / 0x1000 == q
  {
  }

  /** The digits of `x * 4096 + y * 64 + z` in base 64. */
  lemma Base64Digits(x: nat, y: nat, z: nat)
    requires y < 0x40 && z < 0x40
    ensures var v := x * 0x1000 + y * 0x40 + z;
      v / 0x1000 == x && v / 0x40 == x * 0x40 + y && v / 0x40 % 0x40 == y && v % 0x40 == z
  {
    DivMod64(x * 0x40 + y, z);
    DivMod64(x, y);
    DivMod4096(x, y * 0x40 + z);
  }

  lemma EncodeDecodeChar(bs: seq<byte>)
    requires bs != [] && DecodeChar(bs).Some?
    ensures EncodeChar(DecodeChar(bs).value.0) == bs[..DecodeChar(bs).value.1]
  {
    var b0 := bs[0] as int;
    if 0xC0 <= b0 < 0xE0 {
      EncodeDecodeTwo(bs);
    } else if 0xE0 <= b0 < 0xF0 {
      EncodeDecodeThree(bs);
    } else if 0xF0 <= b0 {
      EncodeDecodeFour(bs);
    }
  }

  lemma EncodeDecodeTwo(bs: seq<byte>)
    requires bs != [] && 0xC0 <= bs[0] < 0xE0 && DecodeChar(bs).Some?
    ensures EncodeChar(DecodeChar(bs).value.0) == bs[..2]
  {
    var x, y := bs[0] as int - 0xC0, bs[1] as int - 0x80;
    DivMod64(x, y);
    var c := DecodeChar(bs).value.0;
    assert c as int == x * 0x40 + y;
  }

  lemma EncodeDecodeThree(bs: seq<byte>)
    requires bs != [] && 0xE0 <= bs[0] < 0xF0 && DecodeChar(bs).Some?
    ensures EncodeChar(DecodeChar(bs).value.0) == bs[..3]
  {
    var x, y, z := bs[0] as int - 0xE0, bs[1] as int - 0x80, bs[2] as int - 0x80;
    Base64Digits(x, y, z);
    var c := DecodeChar(bs).value.0;
    assert c as int == x * 0x1000 + y * 0x40 + z;
  }

  lemma EncodeDecodeFour(bs: seq<byte>)
    requires bs != [] && 0xF0 <= bs[0] && DecodeChar(bs).Some?
    ensures EncodeChar(DecodeChar(bs).value.0) == bs[..4]
  {
    var w, x := bs[0] as int - 0xF0, bs[1] as int - 0x80;
    var y, z := bs[2] as int - 0x80, bs[3] as int - 0x80;
    DivMod64(w, x);
    Base64Digits(w * 0x40 + x, y, z);
    var v := (w * 0x40 + x) * 0x1000 + y * 0x40 + z;
    assert v / 0x1000 / 0x40 == v / 0x4_0000;
    var c := DecodeChar(bs).value.0;
    assert c as int == v;
  }

  lemma {:induction false} EncodeAppend(a: string, b: string)
    ensures Encode(a + b) == Encode(a) + Encode(b)
  {
    if a != [] {
      var ab := a + b;
      assert ab[0] == a[0] && ab[1..] == a[1..] + b;
      EncodeAppend(a[1..], b);
      calc {
        Encode(ab);
        EncodeChar(a[0]) + Encode(a[1..] + b);
        EncodeChar(a[0]) + (Encode(a[1..]) + Encode(b));
        (EncodeChar(a[0]) + Encode(a[1..])) + Encode(b);
      }
    } else {
      assert a + b == b;
    }
  }

  /** Decoding recovers every string from its encoding. */
  lemma {:induction false} DecodeEncode(s: string)
    ensures Decode(Encode(s)) == Some(s)
  {
    if s != [] {
      var head := EncodeChar(s[0]);
      DecodeEncodeChar(s[0], Encode(s[1..]));
      assert (head + Encode(s[1..]))[|head|..] == Encode(s[1..]);
      DecodeEncode(s[1..]);
      assert [s[0]] + s[1..] == s;
    }
  }

  /** Every byte sequence the decoder accepts is the encoding of what it decodes to. */
  lemma {:induction false} EncodeDecode(bs: seq<byte>)
    requires Decode(bs).Some?
    ensures Encode(Decode(bs).value) == bs
    decreases |bs|
  {
    if bs != [] {
      var (c, n) := DecodeChar(bs).value;
      EncodeDecodeChar(bs);
      EncodeDecode(bs[n..]);
      var s := Decode(bs).value;
      assert s[0] == c && s[1..] == Decode(bs[n..]).value;
      assert bs[..n] + bs[n..] == bs;
    }
  }

  lemma EncodeInjective(a: string, b: string)
    requires Encode(a) == Encode(b)
    ensures a == b
  {
    DecodeEncode(a);
    DecodeEncode(b);
  }


  /** ASCII text encodes byte for byte. */
  lemma {:induction false} EncodeAscii(s: string)
    requires forall i :: 0 <= i < |s| ==> s[i] < '\U{80}'
    ensures |Encode(s)| == |s|
    ensures forall i :: 0 <= i < |s| ==> Encode(s)[i] as int == s[i] as int
  {
    if s != [] {
      EncodeAscii(s[1..]);
    }
  }
}
