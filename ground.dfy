/** What the three ground-station decoders (python/packet_stream_file.py,
    python/packet_stream_serial.py, python/packet_stream.py) have in common:
    the PACKET_SPEC table entries, the value read_packet returns, the
    checksum they recompute and Python's `read(n)` on a byte stream. */
module Ground {
  import opened Bytes
  import Fletcher
  import opened Layout
  import Comms

  /** One PACKET_SPEC entry: the payload size read after the checksum
      bytes, and the `struct` format the payload is unpacked with. */
  datatype Spec = Spec(size: nat, format: seq<Kind>)

  /** PACKET_SPEC: type byte to entry. */
  type PacketSpec = map<byte, Spec>

  /** What read_packet gives its caller: `(type, struct.unpack(...))`,
      `(None, None)`, or the `struct.error` that `struct.unpack` raises when
      the bytes it is given do not fit the format. */
  datatype Read = Packet(kind: byte, fields: seq<Field>) | NoPacket | StructError

  /** `read(n)` on a byte stream: at most n bytes, fewer at the end. */
  function Take(s: seq<byte>, n: nat): seq<byte> {
    if n <= |s| then s[..n] else s
  }

  /** What is left after `read(n)`. */
  function Drop(s: seq<byte>, n: nat): seq<byte> {
    if n <= |s| then s[n..] else []
  }

  /** calculate_checksum: two unbounded Python integers accumulate the
      bytes and the running sums; each is reduced with `& 0xFF` only at the
      end. The pair is the firmware's CHECKSUM of the same bytes, which
      reduces after every step. */
  method CalculateChecksum(data: seq<byte>) returns (a: byte, b: byte)
    ensures Fletcher.Sums(a, b) == Fletcher.Checksum(data)
  {
    var checksumA: nat := 0;
    var checksumB: nat := 0;
    for i := 0 to |data|
      invariant checksumA == Fletcher.Sum(data[..i])
      invariant checksumB == Fletcher.PrefixSumTotal(data[..i])
    {
      assert data[..i + 1][..i] == data[..i];
      checksumA := checksumA + data[i] as nat;
      checksumB := checksumB + checksumA;
    }
    assert data[..|data|] == data;
    Fletcher.ChecksumClosedForm(data);
    // x & 0xFF is x % 256 for the non-negative sums
    a, b := (checksumA % 256) as byte, (checksumB % 256) as byte;
  }

  //------------------------------------------------------------------------
  // One frame, read the way read_packet reads it
  //------------------------------------------------------------------------

  /** in_waiting must exceed this before the serial decoders read anything. */
  const IN_WAITING_MIN: nat := 100

  /** How far read_packet gets into the bytes ahead of it, and what is left
      of them afterwards. */
  datatype Scan =
    | AtEnd                                   // read(1) for the sync byte returns nothing
    | NotSync(rest: seq<byte>)                // the byte read is not SYNC_BYTE
    | UnknownType(rest: seq<byte>)            // the type byte is missing or not in the table
    | ShortChecksum(rest: seq<byte>)          // read(2) returns fewer than 2 bytes: '<BB' raises
    | Frame(kind: byte, a: byte, b: byte, data: seq<byte>, rest: seq<byte>)

  /** The reads read_packet makes on the way to a frame: read(1) for the sync
      byte, read(1) for the type, read(2) for the received checksum and
      read(packet_size) for the payload. */
  function ScanFrame(types: PacketSpec, s: seq<byte>): (r: Scan)
    ensures r.AtEnd? <==> s == []
    ensures r.Frame? ==> r.kind in types
  {
    if s == [] then AtEnd
    else if s[0] != Comms.SYNC then NotSync(s[1..])
    else if |s| < 2 then UnknownType([])
    else if s[1] !in types then UnknownType(s[2..])
    else if |s| < Comms.HEADER_LENGTH then ShortChecksum([])
    else
      var end := if Comms.HEADER_LENGTH + types[s[1]].size <= |s| then Comms.HEADER_LENGTH + types[s[1]].size else |s|;
      Frame(s[1], s[2], s[3], s[Comms.HEADER_LENGTH..end], s[end..])
  }

  /** ScanFrame is what the four reads give: read(1), read(1), read(2) and
      read(packet_size), each taking at most what is left. */
  lemma ScanByReads(types: PacketSpec, s: seq<byte>)
    ensures var r := ScanFrame(types, s);
      var sync, s0 := Take(s, 1), Drop(s, 1);
      var t, s1 := Take(s0, 1), Drop(s0, 1);
      var c, s2 := Take(s1, 2), Drop(s1, 2);
      && (sync == [] ==> r == AtEnd)
      && (sync != [] && sync != [Comms.SYNC] ==> r == NotSync(s0))
      && (sync == [Comms.SYNC] && !(|t| == 1 && t[0] in types) ==> r == UnknownType(s1))
      && (sync == [Comms.SYNC] && |t| == 1 && t[0] in types && |c| != 2 ==> r == ShortChecksum(s2))
      && (sync == [Comms.SYNC] && |t| == 1 && t[0] in types && |c| == 2 ==>
            r == Frame(t[0], c[0], c[1], Take(s2, types[t[0]].size), Drop(s2, types[t[0]].size)))
  {
    if s != [] && s[0] == Comms.SYNC && |s| >= 2 {
      assert Take(s, 1) == [Comms.SYNC] && Drop(s, 1) == s[1..];
      assert Take(s[1..], 1) == [s[1]] && Drop(s[1..], 1) == s[2..];
      if s[1] in types && |s| >= Comms.HEADER_LENGTH {
        assert Take(s[2..], 2) == [s[2], s[3]];
        assert Drop(s[2..], 2) == s[Comms.HEADER_LENGTH..];
        var n := types[s[1]].size;
        if Comms.HEADER_LENGTH + n <= |s| {
          SliceOfSuffix(s, Comms.HEADER_LENGTH, n);
        }
      }
    }
  }

  /** The first n bytes after position i, and what follows them. */
  lemma SliceOfSuffix(s: seq<byte>, i: nat, n: nat)
    requires i + n <= |s|
    ensures s[i..][..n] == s[i..i + n] && s[i..][n..] == s[i + n..]
  {
    assert forall k | 0 <= k < n :: s[i..][..n][k] == s[i + k] == s[i..i + n][k];
    assert forall k | 0 <= k < |s| - i - n :: s[i..][n..][k] == s[i + n + k] == s[i + n..][k];
  }

  /** The received checksum equals the one calculate_checksum gives. */
  predicate Matches(f: Scan)
    requires f.Frame?
  {
    Fletcher.Checksum(f.data) == Fletcher.Sums(f.a, f.b)
  }

  /** `struct.unpack(packet_format, packet_data)` on a frame's payload. */
  function Unpacked(types: PacketSpec, f: Scan): (r: Read)
    requires f.Frame? && f.kind in types
    ensures r.Packet? <==> |f.data| == Size(types[f.kind].format)
    ensures r.Packet? ==> r.kind == f.kind && LayoutOf(r.fields) == types[f.kind].format && EncodeFields(r.fields) == f.data
  {
    match Unpack(types[f.kind].format, f.data)
    case Some(fs) => Packet(f.kind, fs)
    case None => StructError
  }

  /** What each outcome took from the input: every outcome but the end of
      the input takes at least one byte and leaves a suffix; a frame is
      sync, type, the two checksum bytes and as much of the payload as
      there was, and only a frame cut off by the end of the input is short. */
  lemma ScanParts(types: PacketSpec, s: seq<byte>)
    ensures var r := ScanFrame(types, s);
      && (!r.AtEnd? ==> |r.rest| < |s| && r.rest == s[|s| - |r.rest|..])
      && (r.NotSync? ==> s[0] != Comms.SYNC && r.rest == s[1..])
      && (r.UnknownType? ==> s[0] == Comms.SYNC && (|s| == 1 || s[1] !in types))
      && (r.ShortChecksum? ==> s[0] == Comms.SYNC && |s| < Comms.HEADER_LENGTH && r.rest == [])
      && (r.Frame? ==>
            && s == [Comms.SYNC, r.kind, r.a, r.b] + r.data + r.rest
            && |r.data| <= types[r.kind].size
            && (|r.data| < types[r.kind].size ==> r.rest == []))
  {
    var r := ScanFrame(types, s);
    if r.Frame? {
      var s2 := s[Comms.HEADER_LENGTH..];
      assert s == [s[0], s[1], s[2], s[3]] + s2;
      assert s2 == r.data + r.rest;
    }
  }

  /** Round trip: a checksummed frame of a kind in the table, with a payload
      as long as the table says, is read whole, and nothing after it is
      touched. */
  lemma ScanEncoded(types: PacketSpec, kind: byte, payload: seq<byte>, rest: seq<byte>)
    requires kind in types && |payload| == types[kind].size
    ensures var ck := Fletcher.Checksum(payload);
      ScanFrame(types, Comms.Encode(kind, payload) + rest) == Frame(kind, ck.a, ck.b, payload, rest)
  {
    var s := Comms.Encode(kind, payload) + rest;
    assert s[Comms.HEADER_LENGTH..] == payload + rest;
    assert (payload + rest)[..|payload|] == payload && (payload + rest)[|payload|..] == rest;
  }

  /** Every payload size in the table fits, with the header, in the bytes
      that in_waiting > 100 guarantees. */
  predicate FitsGate(types: PacketSpec) {
    forall k | k in types :: Comms.HEADER_LENGTH + types[k].size <= IN_WAITING_MIN + 1
  }

  /** Every entry's size is `struct.calcsize` of its format. */
  predicate Consistent(types: PacketSpec) {
    forall k | k in types :: Size(types[k].format) == types[k].size
  }

  /** Behind the in_waiting gate every read is complete, so with a table
      that fits it the checksum bytes and the whole payload are there. */
  lemma GatedReadsComplete(types: PacketSpec, s: seq<byte>)
    requires FitsGate(types) && |s| > IN_WAITING_MIN
    ensures var r := ScanFrame(types, s);
      && !r.AtEnd? && !r.ShortChecksum?
      && (r.Frame? ==> |r.data| == types[r.kind].size)
  {
    ScanParts(types, s);
  }

  //------------------------------------------------------------------------
  // The firmware's frames, as the decoders receive them
  //------------------------------------------------------------------------

  /** The wire image of a sensor_p after CHECKSUM. */
  function SensorFrame(d: Comms.SensorData): (r: seq<byte>)
    ensures |r| == Comms.HEADER_LENGTH + Comms.SENSOR_DATA_SIZE
  {
    Comms.Encode(Comms.TYPE_SENSOR, Comms.EncodeSensor(d))
  }

  /** The wire image of a gps_p after CHECKSUM. */
  function GpsFrame(d: Comms.GpsData): (r: seq<byte>)
    ensures |r| == Comms.HEADER_LENGTH + Comms.GPS_DATA_SIZE
  {
    Comms.Encode(Comms.TYPE_GPS, Comms.EncodeGps(d))
  }

  /** The table the firmware's structs call for: sensor_p is 44 bytes laid
      out as '<I6h5f3h2B', gps_p is 52 bytes laid out as '<I6i3Iif4B'. */
  const FIRMWARE_SPEC: PacketSpec :=
    map[Comms.TYPE_SENSOR := Spec(Comms.SENSOR_DATA_SIZE, Comms.SENSOR_LAYOUT),
        Comms.TYPE_GPS := Spec(Comms.GPS_DATA_SIZE, Comms.GPS_LAYOUT)]

  lemma FirmwareSpecFits()
    ensures FitsGate(FIRMWARE_SPEC) && Consistent(FIRMWARE_SPEC)
  {
    Comms.SensorLayout(Comms.ZeroSensor);
    Comms.GpsLayout(Comms.ZeroGps);
  }

  /** A packet as the firmware writes it to the log or the radio. */
  datatype Logged = SensorLog(sensor: Comms.SensorData) | GpsLog(gps: Comms.GpsData)

  function LoggedFrame(p: Logged): seq<byte> {
    match p
    case SensorLog(d) => SensorFrame(d)
    case GpsLog(g) => GpsFrame(g)
  }

  /** A log: the frames one after another. */
  function LogImage(ps: seq<Logged>): seq<byte> {
    if ps == [] then [] else LoggedFrame(ps[0]) + LogImage(ps[1..])
  }

  /** The tuple a decoder should hand back for the packet. */
  function Decoded(p: Logged): Read {
    match p
    case SensorLog(d) => Packet(Comms.TYPE_SENSOR, Comms.SensorFields(d))
    case GpsLog(g) => Packet(Comms.TYPE_GPS, Comms.GpsFields(g))
  }

  /** What a decoder should hand back for each packet of a log. */
  function DecodedLog(ps: seq<Logged>): seq<Read> {
    if ps == [] then [] else [Decoded(ps[0])] + DecodedLog(ps[1..])
  }

  /** With the firmware's table, a firmware frame is read whole, its
      checksum matches, and its payload unpacks to the struct's members. */
  lemma FirmwareFrameRead(p: Logged, rest: seq<byte>)
    ensures var r := ScanFrame(FIRMWARE_SPEC, LoggedFrame(p) + rest);
      && r.Frame? && r.rest == rest && Matches(r)
      && Unpacked(FIRMWARE_SPEC, r) == Decoded(p)
      && [Comms.SYNC, r.kind, r.a, r.b] + r.data == LoggedFrame(p)
  {
    match p
    case SensorLog(d) =>
      var payload := Comms.EncodeSensor(d);
      ScanEncoded(FIRMWARE_SPEC, Comms.TYPE_SENSOR, payload, rest);
      SensorPayloadUnpacks(d);
    case GpsLog(g) =>
      var payload := Comms.EncodeGps(g);
      ScanEncoded(FIRMWARE_SPEC, Comms.TYPE_GPS, payload, rest);
      GpsPayloadUnpacks(g);
  }

  /** The sensor payload unpacked with the firmware's format gives the members back. */
  lemma SensorPayloadUnpacks(d: Comms.SensorData)
    ensures Unpack(Comms.SENSOR_LAYOUT, Comms.EncodeSensor(d)) == Some(Comms.SensorFields(d))
  {
    Comms.SensorLayout(d);
    UnpackEncoded(Comms.SensorFields(d));
  }

  /** The GPS payload unpacked with the firmware's format gives the members back. */
  lemma GpsPayloadUnpacks(d: Comms.GpsData)
    ensures Unpack(Comms.GPS_LAYOUT, Comms.EncodeGps(d)) == Some(Comms.GpsFields(d))
  {
    Comms.GpsLayout(d);
    UnpackEncoded(Comms.GpsFields(d));
  }
}
