/** Bytes and the fixed-width integers of the packet layouts, with their
    little-endian encodings (the firmware runs on a little-endian core and
    writes its packed structs byte for byte). */
module Bytes {

  newtype byte = x: int | 0 <= x < 256

  /** 256 to the power w: the number of values that fit in w bytes. */
  function Pow256(w: nat): (r: nat)
    ensures r >= 1
  {
    if w == 0 then 1 else 256 * Pow256(w - 1)
  }

  /** Unsigned little-endian encoding of v in exactly w bytes. */
  function EncodeUnsigned(v: nat, w: nat): (r: seq<byte>)
    requires v < Pow256(w)
    ensures |r| == w
  {
    if w == 0 then [] else [(v % 256) as byte] + EncodeUnsigned(v / 256, w - 1)
  }

  /** Unsigned little-endian decoding of a byte sequence. */
  function DecodeUnsigned(s: seq<byte>): (r: nat)
    ensures r < Pow256(|s|)
  {
    if s == [] then 0 else s[0] as nat + 256 * DecodeUnsigned(s[1..])
  }

  lemma {:induction false} DecodeEncodeUnsigned(v: nat, w: nat)
    requires v < Pow256(w)
    ensures DecodeUnsigned(EncodeUnsigned(v, w)) == v
  {
    if w > 0 {
      var s := EncodeUnsigned(v, w);
      assert s[1..] == EncodeUnsigned(v / 256, w - 1);
      DecodeEncodeUnsigned(v / 256, w - 1);
    }
  }

  lemma {:induction false} EncodeDecodeUnsigned(s: seq<byte>)
    ensures EncodeUnsigned(DecodeUnsigned(s), |s|) == s
  {
    if s != [] {
      var v := DecodeUnsigned(s);
      assert v % 256 == s[0] as int;
      assert v / 256 == DecodeUnsigned(s[1..]);
      EncodeDecodeUnsigned(s[1..]);
    }
  }

  /** Half the range of w bytes: signed values lie in [-SignedBound(w), SignedBound(w)). */
  function SignedBound(w: nat): int { Pow256(w) / 2 }

  /** Two's-complement little-endian encoding of a signed value in w bytes. */
  function EncodeSigned(v: int, w: nat): (r: seq<byte>)
    requires w > 0 && -SignedBound(w) <= v < SignedBound(w)
    ensures |r| == w
  {
    EncodeUnsigned(if v < 0 then v + Pow256(w) else v, w)
  }

  function DecodeSigned(s: seq<byte>): (r: int)
    requires |s| > 0
    ensures -SignedBound(|s|) <= r < SignedBound(|s|)
  {
    var u := DecodeUnsigned(s);
    assert Pow256(|s|) == 2 * SignedBound(|s|) by {
      assert Pow256(|s|) == 256 * Pow256(|s| - 1);
    }
    if u >= Pow256(|s|) / 2 then u - Pow256(|s|) else u
  }

  lemma DecodeEncodeSigned(v: int, w: nat)
    requires w > 0 && -SignedBound(w) <= v < SignedBound(w)
    ensures DecodeSigned(EncodeSigned(v, w)) == v
  {
    DecodeEncodeUnsigned(if v < 0 then v + Pow256(w) else v, w);
  }

  newtype u8 = x: int | 0 <= x < 0x100
  newtype u16 = x: int | 0 <= x < 0x1_0000
  newtype u32 = x: int | 0 <= x < 0x1_0000_0000
  newtype i16 = x: int | -0x8000 <= x < 0x8000
  newtype i32 = x: int | -0x8000_0000 <= x < 0x8000_0000

  /** A 32-bit IEEE-754 value kept as its raw bit pattern; the model never
      does floating-point arithmetic. */
  type f32bits = u32

  function EncodeU32(v: u32): (r: seq<byte>)
    ensures |r| == 4 && DecodeUnsigned(r) == v as int
  {
    assert Pow256(4) == 0x1_0000_0000;
    DecodeEncodeUnsigned(v as nat, 4);
    EncodeUnsigned(v as nat, 4)
  }

  function EncodeI16(v: i16): (r: seq<byte>)
    ensures |r| == 2 && DecodeSigned(r) == v as int
  {
    assert Pow256(2) == 0x1_0000;
    DecodeEncodeSigned(v as int, 2);
    EncodeSigned(v as int, 2)
  }

  function EncodeI32(v: i32): (r: seq<byte>)
    ensures |r| == 4 && DecodeSigned(r) == v as int
  {
    assert Pow256(4) == 0x1_0000_0000;
    DecodeEncodeSigned(v as int, 4);
    EncodeSigned(v as int, 4)
  }

  function EncodeU8(v: u8): (r: seq<byte>)
    ensures |r| == 1 && r[0] as int == v as int
  {
    [v as int as byte]
  }

  /** Reads a little-endian int32 from 4 bytes, as `*(int*)` does. */
  function DecodeI32(s: seq<byte>): (r: i32)
    requires |s| == 4
    ensures EncodeI32(r) == s
  {
    assert Pow256(4) == 0x1_0000_0000;
    var v := DecodeSigned(s);
    EncodeDecodeUnsigned(s);
    v as i32
  }
}
