/** Framing of the firmware's packets (lib/comms/src/comms.h): the wire image
    `[0xAA][type][c_a][c_b][payload]`, the payload layouts of the three packet
    kinds, the CHECKSUM macro and the all-or-nothing frame reader
    `receivePacketType`. */
module Comms {
  import opened Bytes
  import Fletcher
  import opened Layout

  const HEADER_LENGTH: nat := 4
  const SYNC: byte := 0xAA

  const TYPE_SENSOR: byte := 0x0B
  const TYPE_GPS: byte := 0xCA
  const TYPE_COMMAND: byte := 0xA5
  const TYPE_POOP: byte := 0x33

  const START_COMMAND: i32 := 0x6D656F77
  const STOP_COMMAND: i32 := 0x6D696175

  /** Payload sizes, that is sizeof(p.data) of each packet struct. */
  const SENSOR_DATA_SIZE: nat := 44
  const GPS_DATA_SIZE: nat := 52
  const COMMAND_DATA_SIZE: nat := 4

  //------------------------------------------------------------------------
  // Payload layouts (packed, little-endian, in declaration order)
  //------------------------------------------------------------------------

  datatype SensorData = SensorData(
    us: u32,
    accX: i16, accY: i16, accZ: i16,
    gyrX: i16, gyrY: i16, gyrZ: i16,
    magX: f32bits, magY: f32bits, magZ: f32bits,
    temp: f32bits, pres: f32bits,
    adxlAccX: i16, adxlAccY: i16, adxlAccZ: i16,
    status: u8, reserved: u8)

  datatype GpsData = GpsData(
    us: u32,
    lat: i32, lon: i32, alt: i32,
    veln: i32, vele: i32, veld: i32,
    eph: u32, epv: u32, sacc: u32,
    gspeed: i32, pdop: f32bits,
    nsats: u8, fixType: u8, valid: u8, flags: u8)

  datatype CommandData = CommandData(command: i32)

  /** `data{}`: every field zero. */
  const ZeroSensor := SensorData(0, 0, 0, 0, 0, 0, 0, 0, 0, 0, 0, 0, 0, 0, 0, 0, 0)
  const ZeroGps := GpsData(0, 0, 0, 0, 0, 0, 0, 0, 0, 0, 0, 0, 0, 0, 0, 0)

  /** Offset of adxl_acc_x inside the sensor payload. */
  const ADXL_OFFSET: nat := 36

  /** The members of sensor_p's payload before adxl_acc_x: us, acc, gyr,
      mag, temp, pres. */
  function SensorHead(d: SensorData): seq<Field> {
    [U32(d.us), I16(d.accX), I16(d.accY), I16(d.accZ), I16(d.gyrX), I16(d.gyrY), I16(d.gyrZ),
     F32(d.magX), F32(d.magY), F32(d.magZ), F32(d.temp), F32(d.pres)]
  }

  /** The three ADXL375 axes. */
  function SensorAdxl(d: SensorData): seq<Field> {
    [I16(d.adxlAccX), I16(d.adxlAccY), I16(d.adxlAccZ)]
  }

  /** The members after the ADXL375 axes: status, reserved. */
  function SensorTail(d: SensorData): seq<Field> {
    [U8(d.status), U8(d.reserved)]
  }

  /** sensor_p's payload members in declaration order. */
  function SensorFields(d: SensorData): seq<Field> {
    SensorHead(d) + SensorAdxl(d) + SensorTail(d)
  }

  /** gps_p's payload members in declaration order. */
  function GpsFields(d: GpsData): seq<Field> {
    [U32(d.us)] + [I32(d.lat), I32(d.lon), I32(d.alt), I32(d.veln), I32(d.vele), I32(d.veld)]
      + [U32(d.eph), U32(d.epv), U32(d.sacc)] + [I32(d.gspeed), F32(d.pdop)]
      + [U8(d.nsats), U8(d.fixType), U8(d.valid), U8(d.flags)]
  }

  /** The layout of sensor_p's payload, as a `struct` format: '<I6h5f3h2B'. */
  const SENSOR_LAYOUT: seq<Kind> :=
    [UInt32] + Repeat(Int16, 6) + Repeat(Float32, 5) + Repeat(Int16, 3) + Repeat(UInt8, 2)

  /** The layout of gps_p's payload, as a `struct` format: '<I6i3Iif4B'. */
  const GPS_LAYOUT: seq<Kind> :=
    [UInt32] + Repeat(Int32, 6) + Repeat(UInt32, 3) + [Int32, Float32] + Repeat(UInt8, 4)

  lemma SensorLayout(d: SensorData)
    ensures LayoutOf(SensorFields(d)) == SENSOR_LAYOUT && Size(SENSOR_LAYOUT) == SENSOR_DATA_SIZE
    ensures Size(LayoutOf(SensorHead(d))) == ADXL_OFFSET
  {
    var head := [UInt32] + Repeat(Int16, 6) + Repeat(Float32, 5);
    assert LayoutOf(SensorHead(d)) == head;
    assert LayoutOf(SensorFields(d)) == SENSOR_LAYOUT;
    SizeRepeat(Int16, 6);
    SizeRepeat(Float32, 5);
    SizeRepeat(Int16, 3);
    SizeRepeat(UInt8, 2);
    SizeAppend([UInt32], Repeat(Int16, 6));
    SizeAppend([UInt32] + Repeat(Int16, 6), Repeat(Float32, 5));
    SizeAppend(head, Repeat(Int16, 3));
    SizeAppend(head + Repeat(Int16, 3), Repeat(UInt8, 2));
  }

  lemma GpsLayout(d: GpsData)
    ensures LayoutOf(GpsFields(d)) == GPS_LAYOUT && Size(GPS_LAYOUT) == GPS_DATA_SIZE
  {
    var f1 := [U32(d.us)] + [I32(d.lat), I32(d.lon), I32(d.alt), I32(d.veln), I32(d.vele), I32(d.veld)];
    var f2 := f1 + [U32(d.eph), U32(d.epv), U32(d.sacc)];
    var f3 := f2 + [I32(d.gspeed), F32(d.pdop)];
    LayoutAppend([U32(d.us)], [I32(d.lat), I32(d.lon), I32(d.alt), I32(d.veln), I32(d.vele), I32(d.veld)]);
    LayoutAppend(f1, [U32(d.eph), U32(d.epv), U32(d.sacc)]);
    LayoutAppend(f2, [I32(d.gspeed), F32(d.pdop)]);
    LayoutAppend(f3, [U8(d.nsats), U8(d.fixType), U8(d.valid), U8(d.flags)]);
    var a := [UInt32] + Repeat(Int32, 6);
    var b := a + Repeat(UInt32, 3);
    SizeRepeat(Int32, 6);
    SizeRepeat(UInt32, 3);
    SizeRepeat(UInt8, 4);
    SizeAppend([UInt32], Repeat(Int32, 6));
    SizeAppend(a, Repeat(UInt32, 3));
    SizeAppend(b, [Int32, Float32]);
    SizeAppend(b + [Int32, Float32], Repeat(UInt8, 4));
  }

  /** The 44 payload bytes of sensor_p. */
  function EncodeSensor(d: SensorData): (r: seq<byte>)
    ensures |r| == SENSOR_DATA_SIZE
  {
    SensorLayout(d);
    EncodeFieldsLength(SensorFields(d));
    EncodeFields(SensorFields(d))
  }

  /** The 52 payload bytes of gps_p. */
  function EncodeGps(d: GpsData): (r: seq<byte>)
    ensures |r| == GPS_DATA_SIZE
  {
    GpsLayout(d);
    EncodeFieldsLength(GpsFields(d));
    EncodeFields(GpsFields(d))
  }

  /** The 4 payload bytes of command_p. */
  function EncodeCommand(d: CommandData): (r: seq<byte>)
    ensures |r| == COMMAND_DATA_SIZE
  {
    EncodeI32(d.command)
  }

  /** Reads `*(int*) &p.data.command` back out of the payload. */
  function DecodeCommand(data: seq<byte>): (r: CommandData)
    requires |data| == COMMAND_DATA_SIZE
    ensures EncodeCommand(r) == data
  {
    CommandData(DecodeI32(data))
  }

  lemma CommandRoundTrip(d: CommandData)
    ensures DecodeCommand(EncodeCommand(d)) == d
  {
    var r := DecodeCommand(EncodeCommand(d));
    assert DecodeSigned(EncodeI32(r.command)) == r.command as int;
  }

  /** Writing the ADXL375 axes changes only payload bytes 36..41. */
  lemma AdxlUpdateIsLocal(d: SensorData, x: i16, y: i16, z: i16)
    ensures var e := d.(adxlAccX := x, adxlAccY := y, adxlAccZ := z);
      EncodeSensor(e)[..ADXL_OFFSET] == EncodeSensor(d)[..ADXL_OFFSET]
      && EncodeSensor(e)[ADXL_OFFSET + 6..] == EncodeSensor(d)[ADXL_OFFSET + 6..]
      && EncodeSensor(e)[ADXL_OFFSET..ADXL_OFFSET + 6] == EncodeI16(x) + EncodeI16(y) + EncodeI16(z)
  {
    var e := d.(adxlAccX := x, adxlAccY := y, adxlAccZ := z);
    assert SensorHead(e) == SensorHead(d) && SensorTail(e) == SensorTail(d);
    SensorSplit(d);
    SensorSplit(e);
    EncodeFieldsAppend([I16(x)], [I16(y), I16(z)]);
    EncodeFieldsAppend([I16(y)], [I16(z)]);
    assert SensorAdxl(e) == [I16(x)] + [I16(y), I16(z)];
    assert [I16(y), I16(z)] == [I16(y)] + [I16(z)];
  }

  /** The sensor payload is the bytes of its three parts, head first. */
  lemma SensorSplit(d: SensorData)
    ensures EncodeSensor(d)
      == EncodeFields(SensorHead(d)) + EncodeFields(SensorAdxl(d)) + EncodeFields(SensorTail(d))
    ensures |EncodeFields(SensorHead(d))| == ADXL_OFFSET
  {
    SensorLayout(d);
    EncodeFieldsLength(SensorHead(d));
    EncodeFieldsAppend(SensorHead(d), SensorAdxl(d));
    EncodeFieldsAppend(SensorHead(d) + SensorAdxl(d), SensorTail(d));
  }

  //------------------------------------------------------------------------
  // The CHECKSUM macro and the wire image
  //------------------------------------------------------------------------

  /** The wire image of a packet of kind `kind` holding `data` after
      CHECKSUM: sync, type, the running checksum of the payload, payload. */
  function Encode(kind: byte, data: seq<byte>): (r: seq<byte>)
    ensures |r| == HEADER_LENGTH + |data|
    ensures r[HEADER_LENGTH..] == data
  {
    var s := Fletcher.Checksum(data);
    [SYNC, kind, s.a, s.b] + data
  }

  /** CHECKSUM applied to the raw image of a packet struct: c_a and c_b
      (bytes 2 and 3) are zeroed and then accumulate every byte from
      HEADER_LENGTH to the end. */
  function ChecksumImage(image: seq<byte>): (r: seq<byte>)
    requires |image| >= HEADER_LENGTH
    ensures |r| == |image|
  {
    var s := Fletcher.Checksum(image[HEADER_LENGTH..]);
    image[..2] + [s.a, s.b] + image[HEADER_LENGTH..]
  }

  /** The checksum covers exactly the payload: sync and type are kept, the
      payload is kept, and the result does not depend on what c_a and c_b
      held before. CHECKSUM after CHECKSUM changes nothing. */
  lemma ChecksumImageProperties(image: seq<byte>, other: seq<byte>)
    requires |image| >= HEADER_LENGTH && |other| == |image|
    requires other[..2] == image[..2] && other[HEADER_LENGTH..] == image[HEADER_LENGTH..]
    ensures ChecksumImage(image)[..2] == image[..2]
    ensures ChecksumImage(image)[HEADER_LENGTH..] == image[HEADER_LENGTH..]
    ensures ChecksumImage(other) == ChecksumImage(image)
    ensures ChecksumImage(ChecksumImage(image)) == ChecksumImage(image)
    ensures image[0] == SYNC ==> ChecksumImage(image) == Encode(image[1], image[HEADER_LENGTH..])
  {
    var r := ChecksumImage(image);
    assert r[HEADER_LENGTH..] == image[HEADER_LENGTH..];
    assert r[..2] == image[..2];
  }

  /** CHECKSUM on the struct's bytes, in place, as the macro's loop does it. */
  method ApplyChecksum(p: array<byte>)
    requires p.Length >= HEADER_LENGTH
    modifies p
    ensures p[..] == ChecksumImage(old(p[..]))
  {
    p[2], p[3] := 0, 0;
    var i := HEADER_LENGTH;
    while i < p.Length
      invariant HEADER_LENGTH <= i <= p.Length
      invariant p[..2] == old(p[..2]) && p[HEADER_LENGTH..] == old(p[HEADER_LENGTH..])
      invariant Fletcher.Sums(p[2], p[3]) == Fletcher.Checksum(p[HEADER_LENGTH..i])
    {
      assert p[HEADER_LENGTH..i + 1][..i - HEADER_LENGTH] == p[HEADER_LENGTH..i];
      p[2] := Fletcher.AddMod(p[2], p[i]);
      p[3] := Fletcher.AddMod(p[3], p[2]);
      i := i + 1;
    }
    assert p[HEADER_LENGTH..p.Length] == old(p[..])[HEADER_LENGTH..];
    assert p[..] == p[..2] + [p[2], p[3]] + p[HEADER_LENGTH..];
  }

  //------------------------------------------------------------------------
  // The frame reader
  //------------------------------------------------------------------------

  /** What one call of receivePacketType finds at the head of the input. */
  datatype Reception =
    | TooShort                                        // fewer than sizeof(PacketType) bytes available
    | SyncMismatch                                    // first byte is not 0xAA
    | TypeMismatch                                    // second byte is not p->type
    | ChecksumMismatch(ca: byte, cb: byte)            // a whole frame whose sums do not match
    | Accepted(ca: byte, cb: byte, data: seq<byte>)   // a whole frame whose sums match

  /** Bytes the reader takes from the serial port for this reception. */
  function Consumed(r: Reception, dataSize: nat): nat {
    match r
    case TooShort => 0
    case SyncMismatch => 1
    case TypeMismatch => 2
    case _ => HEADER_LENGTH + dataSize
  }

  /** The decision receivePacketType makes on the bytes `rx` available on
      the port, for a packet of kind `kind` whose payload is `dataSize` bytes. */
  function Receive(kind: byte, dataSize: nat, rx: seq<byte>): (r: Reception)
    ensures Consumed(r, dataSize) <= |rx|
    ensures r.Accepted? ==>
              |r.data| == dataSize && rx[..HEADER_LENGTH + dataSize] == Encode(kind, r.data)
    ensures r.ChecksumMismatch? ==>
              && rx[..2] == [SYNC, kind]
              && Fletcher.Checksum(rx[HEADER_LENGTH..HEADER_LENGTH + dataSize]) != Fletcher.Sums(r.ca, r.cb)
  {
    var size := HEADER_LENGTH + dataSize;
    if |rx| < size then TooShort
    else if rx[0] != SYNC then SyncMismatch
    else if rx[1] != kind then TypeMismatch
    else
      var data := rx[HEADER_LENGTH..size];
      if Fletcher.Checksum(data) == Fletcher.Sums(rx[2], rx[3]) then
        assert rx[..size] == [rx[0], rx[1], rx[2], rx[3]] + data;
        Accepted(rx[2], rx[3], data)
      else ChecksumMismatch(rx[2], rx[3])
  }

  /** Round trip: a checksummed packet arriving as bytes is accepted, with
      exactly its payload, and the reader takes exactly its bytes. */
  lemma {:induction false} ReceiveEncoded(kind: byte, data: seq<byte>, rest: seq<byte>)
    ensures Receive(kind, |data|, Encode(kind, data) + rest) == Accepted(Encode(kind, data)[2], Encode(kind, data)[3], data)
    ensures Consumed(Receive(kind, |data|, Encode(kind, data) + rest), |data|) == |Encode(kind, data)|
  {
    var f := Encode(kind, data);
    assert (f + rest)[HEADER_LENGTH..HEADER_LENGTH + |data|] == data;
  }

  /** A frame of a different kind is never accepted as this kind. */
  lemma OtherKindRejected(kind: byte, other: byte, data: seq<byte>, rest: seq<byte>)
    requires other != kind
    ensures Receive(kind, |data|, Encode(other, data) + rest) == TypeMismatch
  {
  }

  /** A frame whose payload lost any one byte to corruption is rejected. */
  lemma CorruptedPayloadRejected(kind: byte, data: seq<byte>, k: nat, v: byte, rest: seq<byte>)
    requires k < |data| && v != data[k]
    ensures var f := Encode(kind, data);
      Receive(kind, |data|, f[HEADER_LENGTH + k := v] + rest).ChecksumMismatch?
  {
    var f := Encode(kind, data);
    var g := f[HEADER_LENGTH + k := v] + rest;
    assert g[HEADER_LENGTH..HEADER_LENGTH + |data|] == data[k := v];
    Fletcher.SingleByteChangeDetected(data, k, v);
  }

  /** The serial port as the bytes it has buffered for reading and the bytes
      written to it so far. */
  class SerialPort {
    var rx: seq<byte>
    var tx: seq<byte>

    constructor (input: seq<byte>)
      ensures rx == input && tx == []
    {
      rx := input;
      tx := [];
    }

    function Available(): (n: nat)
      reads this
      ensures n == |rx|
    {
      |rx|
    }

    method Read() returns (b: byte)
      requires rx != []
      modifies this
      ensures b == old(rx)[0] && rx == old(rx)[1..] && tx == old(tx)
    {
      b := rx[0];
      rx := rx[1..];
    }

    method Write(bytes: seq<byte>)
      modifies this
      ensures tx == old(tx) + bytes && rx == old(rx)
    {
      tx := tx + bytes;
    }
  }

  /** A packet struct as the reader sees it: its fixed type, the checksum
      pair and the payload bytes. The sync byte is the constant SYNC. */
  class Packet {
    const kind: byte
    const dataSize: nat
    var ca: byte
    var cb: byte
    var data: seq<byte>

    ghost predicate Valid()
      reads this
    {
      |data| == dataSize
    }

    /** The constructors of sensor_p, gps_p and command_p: zeroed payload. */
    constructor (kind: byte, dataSize: nat)
      ensures Valid() && this.kind == kind && this.dataSize == dataSize
      ensures ca == 0 && cb == 0 && data == seq(dataSize, _ => 0)
    {
      this.kind := kind;
      this.dataSize := dataSize;
      ca, cb := 0, 0;
      data := seq(dataSize, _ => 0);
    }

    /** The struct's bytes, as `reinterpret_cast<unsigned char *>(p)` sees them. */
    function Image(): (r: seq<byte>)
      reads this
      ensures |r| == HEADER_LENGTH + |data| && r[HEADER_LENGTH..] == data
    {
      [SYNC, kind, ca, cb] + data
    }
  }

  /** receivePacketType: reads one frame if a whole one is available. */
  method ReceivePacketType(p: Packet, serial: SerialPort, acknowledge: bool) returns (ok: bool)
    requires p.Valid()
    modifies p, serial
    ensures p.Valid()
    ensures var r := Receive(p.kind, p.dataSize, old(serial.rx));
      && ok == r.Accepted?
      && serial.rx == old(serial.rx)[Consumed(r, p.dataSize)..]
      && (r.Accepted? ==> p.ca == r.ca && p.cb == r.cb && p.data == r.data)
      && (r.ChecksumMismatch? ==> p.ca == r.ca && p.cb == r.cb && p.data == old(p.data))
      && (!r.Accepted? && !r.ChecksumMismatch? ==> p.ca == old(p.ca) && p.cb == old(p.cb) && p.data == old(p.data))
      && serial.tx == old(serial.tx) + (if ok && acknowledge then p.Image() else [])
  {
    ghost var rx := serial.rx;
    var packetSize := HEADER_LENGTH + p.dataSize;
    if serial.Available() < packetSize {
      return false;
    }
    var b := serial.Read();
    if b != SYNC {
      return false;
    }
    b := serial.Read();
    if b != p.kind {
      return false;
    }
    p.ca := serial.Read();
    p.cb := serial.Read();
    assert serial.rx == rx[HEADER_LENGTH..];

    var buffer: seq<byte> := [];
    var sum := Fletcher.Sums(0, 0);
    var i := 0;
    while i < packetSize - HEADER_LENGTH
      invariant 0 <= i <= p.dataSize
      invariant buffer == rx[HEADER_LENGTH..HEADER_LENGTH + i]
      invariant serial.rx == rx[HEADER_LENGTH + i..] && serial.tx == old(serial.tx)
      invariant sum == Fletcher.Checksum(buffer)
      invariant p.ca == rx[2] && p.cb == rx[3] && p.data == old(p.data)
    {
      b := serial.Read();
      assert (buffer + [b])[..i] == buffer;
      buffer := buffer + [b];
      var a := Fletcher.AddMod(sum.a, b);
      sum := Fletcher.Sums(a, Fletcher.AddMod(sum.b, a));
      i := i + 1;
    }

    if sum.a == p.ca && sum.b == p.cb {
      p.data := buffer;
      if acknowledge {
        serial.Write(p.Image());
      }
      return true;
    }
    return false;
  }
}
