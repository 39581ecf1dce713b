/** The two-byte running-sum checksum shared by the firmware packets, the
    UBX receiver frames and the ground-station decoders: starting from
    (0, 0), every byte v does a := (a + v) mod 256, then b := (b + a) mod 256. */
module Fletcher {
  import opened Bytes

  datatype Sums = Sums(a: byte, b: byte)

  /** Addition of two bytes with unsigned-char wrap-around. */
  function AddMod(x: byte, y: byte): (r: byte)
    ensures r as int == (x as int + y as int) % 256
  {
    ((x as int + y as int) % 256) as byte
  }

  /** One accumulation step. */
  function Step(s: Sums, v: byte): Sums {
    var a := AddMod(s.a, v);
    Sums(a, AddMod(s.b, a))
  }

  /** The running checksum of `bytes`, processed first to last. */
  function Checksum(bytes: seq<byte>): Sums {
    if bytes == [] then Sums(0, 0)
    else Step(Checksum(bytes[..|bytes| - 1]), bytes[|bytes| - 1])
  }

  /** Plain sum of the bytes, without reduction. */
  function Sum(bytes: seq<byte>): nat {
    if bytes == [] then 0 else Sum(bytes[..|bytes| - 1]) + bytes[|bytes| - 1] as nat
  }

  /** Sum of the sums of every non-empty prefix, without reduction. */
  function PrefixSumTotal(bytes: seq<byte>): nat {
    if bytes == [] then 0 else PrefixSumTotal(bytes[..|bytes| - 1]) + Sum(bytes)
  }

  /** The reference definition: reducing once at the end gives the same
      pair as reducing after every step. */
  lemma {:induction false} ChecksumClosedForm(bytes: seq<byte>)
    ensures Checksum(bytes) == Sums((Sum(bytes) % 256) as byte, (PrefixSumTotal(bytes) % 256) as byte)
  {
    if bytes != [] {
      var init := bytes[..|bytes| - 1];
      ChecksumClosedForm(init);
      var v := bytes[|bytes| - 1] as int;
      var s := Sum(init);
      var p := PrefixSumTotal(init);
      ModAdd(s, v);
      ModAdd(p, Sum(bytes));
    }
  }

  lemma ModAdd(x: int, y: int)
    ensures ((x % 256) + y) % 256 == (x + y) % 256
    ensures ((x % 256) + (y % 256)) % 256 == (x + y) % 256
  {
  }

  /** Replacing one byte by a different value changes the plain sum by the
      difference of the two values. */
  lemma {:induction false} SumUpdate(bytes: seq<byte>, k: nat, v: byte)
    requires k < |bytes|
    ensures Sum(bytes[k := v]) + bytes[k] as int == Sum(bytes) + v as int
  {
    var n := |bytes| - 1;
    var u := bytes[k := v];
    assert u[..n] == if k == n then bytes[..n] else bytes[..n][k := v];
    if k < n {
      SumUpdate(bytes[..n], k, v);
    }
  }

  /** No single-byte corruption goes unnoticed: it always changes the
      first checksum byte. */
  lemma SingleByteChangeDetected(bytes: seq<byte>, k: nat, v: byte)
    requires k < |bytes| && v != bytes[k]
    ensures Checksum(bytes[k := v]).a != Checksum(bytes).a
  {
    SumUpdate(bytes, k, v);
    ChecksumClosedForm(bytes);
    ChecksumClosedForm(bytes[k := v]);
    ShiftChangesResidue(Sum(bytes), v as int - bytes[k] as int);
  }

  lemma ShiftChangesResidue(x: int, d: int)
    requires -256 < d < 256 && d != 0
    ensures (x + d) % 256 != x % 256
  {
    var q, r := x / 256, x % 256;
    assert x == 256 * q + r;
  }
}
