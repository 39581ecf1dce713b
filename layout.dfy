/** Packed struct layouts: a struct is a sequence of fixed-width members,
    laid out little-endian one after another with no padding. The firmware
    writes its packet structs this way, and the host decoders read them back
    with Python's `struct.unpack` and a format such as '<I6i3Iif4B'. */
module Layout {
  import opened Bytes

  /** The member kinds the packet structs use, with their `struct` format
      characters: B, h, I, i and f. */
  datatype Kind = UInt8 | Int16 | UInt32 | Int32 | Float32

  /** One member with its value; a float is carried as its bit pattern. */
  datatype Field = U8(b: u8) | I16(h: i16) | U32(w: u32) | I32(i: i32) | F32(f: f32bits)

  function KindOf(f: Field): Kind {
    match f
    case U8(_) => UInt8
    case I16(_) => Int16
    case U32(_) => UInt32
    case I32(_) => Int32
    case F32(_) => Float32
  }

  /** `struct.calcsize` of a single member. */
  function Width(k: Kind): nat {
    match k
    case UInt8 => 1
    case Int16 => 2
    case _ => 4
  }

  /** The format a sequence of members is read back with. */
  function LayoutOf(fs: seq<Field>): (ks: seq<Kind>)
    ensures |ks| == |fs| && forall i | 0 <= i < |fs| :: ks[i] == KindOf(fs[i])
  {
    seq(|fs|, i requires 0 <= i < |fs| => KindOf(fs[i]))
  }

  lemma LayoutAppend(a: seq<Field>, b: seq<Field>)
    ensures LayoutOf(a + b) == LayoutOf(a) + LayoutOf(b)
  {
  }

  /** `struct.calcsize` of a format with the '<' prefix: no padding. */
  function Size(ks: seq<Kind>): nat {
    if ks == [] then 0 else Width(ks[0]) + Size(ks[1..])
  }

  lemma {:induction false} SizeAppend(a: seq<Kind>, b: seq<Kind>)
    ensures Size(a + b) == Size(a) + Size(b)
  {
    if a != [] {
      assert (a + b)[0] == a[0] && (a + b)[1..] == a[1..] + b;
      SizeAppend(a[1..], b);
    } else {
      assert a + b == b;
    }
  }

  /** A repeat count in a format: "6h" is Repeat(Int16, 6). */
  function Repeat(k: Kind, n: nat): (ks: seq<Kind>)
    ensures |ks| == n
  {
    seq(n, _ => k)
  }

  lemma {:induction false} SizeRepeat(k: Kind, n: nat)
    ensures Size(Repeat(k, n)) == n * Width(k)
  {
    if n > 0 {
      assert Repeat(k, n)[0] == k && Repeat(k, n)[1..] == Repeat(k, n - 1);
      SizeRepeat(k, n - 1);
    }
  }

  function EncodeField(f: Field): (r: seq<byte>)
    ensures |r| == Width(KindOf(f))
  {
    match f
    case U8(v) => EncodeU8(v)
    case I16(v) => EncodeI16(v)
    case U32(v) => EncodeU32(v)
    case I32(v) => EncodeI32(v)
    case F32(v) => EncodeU32(v)
  }

  /** Reads one member of kind k from exactly its bytes. */
  function DecodeField(k: Kind, s: seq<byte>): (f: Field)
    requires |s| == Width(k)
    ensures KindOf(f) == k && EncodeField(f) == s
  {
    assert Pow256(1) == 0x100 && Pow256(2) == 0x1_0000 && Pow256(4) == 0x1_0000_0000;
    EncodeDecodeUnsigned(s);
    match k
    case UInt8 => U8(s[0] as int as u8)
    case Int16 => I16(DecodeSigned(s) as i16)
    case UInt32 => U32(DecodeUnsigned(s) as u32)
    case Int32 => I32(DecodeSigned(s) as i32)
    case Float32 => F32(DecodeUnsigned(s) as u32)
  }

  /** Decoding a member's bytes gives the member back. */
  lemma DecodeEncodeField(f: Field)
    ensures DecodeField(KindOf(f), EncodeField(f)) == f
  {
    var s := EncodeField(f);
    match f
    case U8(v) =>
    case I16(v) => assert DecodeSigned(s) == v as int;
    case U32(v) => assert DecodeUnsigned(s) == v as int;
    case I32(v) => assert DecodeSigned(s) == v as int;
    case F32(v) => assert DecodeUnsigned(s) == v as int;
  }

  /** The image of a packed struct: its members' bytes in order. */
  function EncodeFields(fs: seq<Field>): seq<byte> {
    if fs == [] then [] else EncodeField(fs[0]) + EncodeFields(fs[1..])
  }

  /** The image is as long as `struct.calcsize` of the members' format. */
  lemma {:induction false} EncodeFieldsLength(fs: seq<Field>)
    ensures |EncodeFields(fs)| == Size(LayoutOf(fs))
  {
    if fs != [] {
      assert LayoutOf(fs)[1..] == LayoutOf(fs[1..]);
      EncodeFieldsLength(fs[1..]);
    }
  }

  lemma {:induction false} EncodeFieldsAppend(a: seq<Field>, b: seq<Field>)
    ensures EncodeFields(a + b) == EncodeFields(a) + EncodeFields(b)
  {
    if a != [] {
      assert (a + b)[0] == a[0] && (a + b)[1..] == a[1..] + b;
      EncodeFieldsAppend(a[1..], b);
      calc {
        EncodeFields(a + b);
        EncodeField(a[0]) + EncodeFields(a[1..] + b);
        EncodeField(a[0]) + (EncodeFields(a[1..]) + EncodeFields(b));
        (EncodeField(a[0]) + EncodeFields(a[1..])) + EncodeFields(b);
      }
    } else {
      assert a + b == b;
    }
  }

  /** Reads members of the kinds `ks` from exactly their bytes. */
  function DecodeFields(ks: seq<Kind>, s: seq<byte>): (fs: seq<Field>)
    requires |s| == Size(ks)
    ensures |fs| == |ks|
  {
    if ks == [] then []
    else
      var w := Width(ks[0]);
      [DecodeField(ks[0], s[..w])] + DecodeFields(ks[1..], s[w..])
  }

  /** What is decoded has the format's kinds and re-encodes to the bytes. */
  lemma {:induction false} EncodeDecodeFields(ks: seq<Kind>, s: seq<byte>)
    requires |s| == Size(ks)
    ensures LayoutOf(DecodeFields(ks, s)) == ks && EncodeFields(DecodeFields(ks, s)) == s
  {
    if ks != [] {
      var w := Width(ks[0]);
      var f := DecodeField(ks[0], s[..w]);
      var rest := DecodeFields(ks[1..], s[w..]);
      assert DecodeFields(ks, s) == [f] + rest;
      EncodeDecodeFields(ks[1..], s[w..]);
      LayoutAppend([f], rest);
      assert ks == [ks[0]] + ks[1..];
      EncodeFieldsCons(f, rest);
      Rejoin(EncodeField(f), EncodeFields(rest), s, w);
    }
  }

  /** The image of a member followed by more members. */
  lemma EncodeFieldsCons(f: Field, fs: seq<Field>)
    ensures EncodeFields([f] + fs) == EncodeField(f) + EncodeFields(fs)
  {
    assert ([f] + fs)[0] == f && ([f] + fs)[1..] == fs;
  }

  /** A byte string is its first w bytes followed by the rest. */
  lemma Rejoin(a: seq<byte>, b: seq<byte>, s: seq<byte>, w: nat)
    requires w <= |s| && a == s[..w] && b == s[w..]
    ensures a + b == s
  {
  }

  /** `struct.unpack(fmt, data)`: the members when `data` is exactly as long
      as the format needs, and the `struct.error` case otherwise. */
  function Unpack(fmt: seq<Kind>, data: seq<byte>): (r: Option<seq<Field>>)
    ensures r.Some? <==> |data| == Size(fmt)
    ensures r.Some? ==> LayoutOf(r.value) == fmt && EncodeFields(r.value) == data
  {
    if |data| == Size(fmt) then
      EncodeDecodeFields(fmt, data);
      Some(DecodeFields(fmt, data))
    else None
  }

  /** Round trip: unpacking a struct's image with its own format gives back
      every member. */
  lemma {:induction false} UnpackEncoded(fs: seq<Field>)
    ensures Unpack(LayoutOf(fs), EncodeFields(fs)) == Some(fs)
  {
    DecodeEncodeFields(fs);
  }

  lemma {:induction false} DecodeEncodeFields(fs: seq<Field>)
    ensures |EncodeFields(fs)| == Size(LayoutOf(fs)) && DecodeFields(LayoutOf(fs), EncodeFields(fs)) == fs
  {
    EncodeFieldsLength(fs);
    if fs != [] {
      var s := EncodeFields(fs);
      var w := Width(KindOf(fs[0]));
      assert s[..w] == EncodeField(fs[0]);
      assert s[w..] == EncodeFields(fs[1..]);
      assert LayoutOf(fs)[1..] == LayoutOf(fs[1..]);
      DecodeEncodeField(fs[0]);
      DecodeEncodeFields(fs[1..]);
    }
  }

  datatype Option<T> = None | Some(value: T)
}
