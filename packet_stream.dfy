/** python/packet_stream.py: the PacketStream that reads packets from the
    serial port without logging them and without an error_state. */
module PacketStream {
  import opened Bytes
  import Fletcher
  import opened Layout
  import Comms
  import opened Ground

  /** '<I3i11f' */
  const SENSOR_FORMAT: seq<Kind> := [UInt32] + Repeat(Int32, 3) + Repeat(Float32, 11)

  /** This PACKET_SPEC: a 60-byte sensor entry laid out as '<I3i11f', and
      the GPS entry (52, '<I6i3Iif4B'), which is GPS_LAYOUT. */
  const PACKET_SPEC: PacketSpec :=
    map[Comms.TYPE_SENSOR := Spec(60, SENSOR_FORMAT), Comms.TYPE_GPS := Spec(52, Comms.GPS_LAYOUT)]

  /** Each entry's size is the size of its format, both fit behind the
      in_waiting gate, and the GPS entry is the firmware's. */
  lemma SpecConsistent()
    ensures Consistent(PACKET_SPEC) && FitsGate(PACKET_SPEC)
    ensures PACKET_SPEC[Comms.TYPE_GPS] == FIRMWARE_SPEC[Comms.TYPE_GPS]
  {
    SensorFormatSize();
    Comms.GpsLayout(Comms.ZeroGps);
  }

  /** struct.calcsize('<I3i11f') is 60. */
  lemma SensorFormatSize()
    ensures Size(SENSOR_FORMAT) == 60
  {
    SizeAppend([UInt32] + Repeat(Int32, 3), Repeat(Float32, 11));
    SizeAppend([UInt32], Repeat(Int32, 3));
    SizeRepeat(Int32, 3);
    SizeRepeat(Float32, 11);
  }

  /** What one read_packet call leaves: the value returned and the bytes
      still waiting on the port. */
  datatype StreamStep = StreamStep(read: Read, rest: seq<byte>)

  /** read_packet on the port whose waiting bytes are `rx`: nothing with
      100 bytes or fewer waiting; otherwise a non-sync byte, an unknown
      type or a failed checksum give (None, None) and a matching checksum
      the unpacked payload. */
  function StreamReadPacket(types: PacketSpec, rx: seq<byte>): StreamStep {
    if |rx| <= IN_WAITING_MIN then StreamStep(NoPacket, rx)
    else
      match ScanFrame(types, rx)
      case NotSync(rest) => StreamStep(NoPacket, rest)
      case UnknownType(rest) => StreamStep(NoPacket, rest)
      // `rx` holds more than a header, so read(2) always gets both bytes
      case Frame(kind, a, b, data, rest) =>
        var f := ScanFrame(types, rx);
        if Matches(f) then StreamStep(Unpacked(types, f), rest)
        else StreamStep(NoPacket, rest)
  }

  class PacketStream {
    /** The bytes the port has received and not yet handed out. */
    var rx: seq<byte>
    /** The bytes sent on the port. */
    var tx: seq<byte>

    /** __init__ and begin(): the port is open. */
    constructor (received: seq<byte>)
      ensures rx == received && tx == []
    {
      rx := received;
      tx := [];
    }

    /** device.in_waiting. */
    function InWaiting(): (n: nat)
      reads this
      ensures n == |rx|
    {
      |rx|
    }

    /** device.read(n). */
    method Read(n: nat) returns (s: seq<byte>)
      modifies this`rx
      ensures s == Take(old(rx), n) && rx == Drop(old(rx), n)
    {
      s := Take(rx, n);
      rx := Drop(rx, n);
    }

    method ReadPacket(packetTypes: PacketSpec) returns (r: Read)
      modifies this`rx
      ensures StreamStep(r, rx) == StreamReadPacket(packetTypes, old(rx))
    {
      ScanByReads(packetTypes, rx);
      if InWaiting() > IN_WAITING_MIN {
        var syncByte := Read(1);
        if syncByte == [Comms.SYNC] {
          var packetTypeByte := Read(1);
          if |packetTypeByte| == 1 && packetTypeByte[0] in packetTypes {
            var received := Read(2);
            var info := packetTypes[packetTypeByte[0]];
            var packetData := Read(info.size);
            var ca, cb := CalculateChecksum(packetData);
            if (received[0], received[1]) == (ca, cb) {
              var u := Unpack(info.format, packetData);
              if u.None? {
                return StructError;
              }
              return Packet(packetTypeByte[0], u.value);
            }
          }
        }
      }
      return NoPacket;
    }

    /** send(data): device.write(data). */
    method Send(data: seq<byte>)
      modifies this`tx
      ensures tx == old(tx) + data
    {
      tx := tx + data;
    }
  }

  //------------------------------------------------------------------------
  // Properties of read_packet
  //------------------------------------------------------------------------

  /** Nothing is read until more than 100 bytes wait; after that every call
      takes at least one byte, and a skipped byte is exactly one. */
  lemma Gate(types: PacketSpec, rx: seq<byte>)
    ensures var r := StreamReadPacket(types, rx);
      && (|rx| <= IN_WAITING_MIN <==> r == StreamStep(NoPacket, rx))
      && (|rx| > IN_WAITING_MIN ==> |r.rest| < |rx| && rx == rx[..|rx| - |r.rest|] + r.rest)
      && (|rx| > IN_WAITING_MIN && rx[0] != Comms.SYNC ==> r == StreamStep(NoPacket, rx[1..]))
  {
    ScanParts(types, rx);
  }

  /** A packet is only returned for a whole frame of a kind in the table
      whose checksum matches, and its members re-encode to the payload. */
  lemma PacketSound(types: PacketSpec, rx: seq<byte>)
    ensures var r := StreamReadPacket(types, rx);
      r.read.Packet? ==>
        && r.read.kind in types
        && LayoutOf(r.read.fields) == types[r.read.kind].format
        && rx == Comms.Encode(r.read.kind, EncodeFields(r.read.fields)) + r.rest
  {
    ScanParts(types, rx);
  }

  /** With a table whose entries fit behind the gate and agree with their
      formats, read_packet never raises struct.error; this file's table is
      such a table. */
  lemma NeverRaises(types: PacketSpec, rx: seq<byte>)
    requires FitsGate(types) && Consistent(types)
    ensures !StreamReadPacket(types, rx).read.StructError?
  {
    if |rx| > IN_WAITING_MIN {
      GatedReadsComplete(types, rx);
    }
  }

  /** Round trip: a firmware GPS packet is returned with its members by
      this file's table, and the next read starts right behind it. */
  lemma ReadsGpsFrame(g: Comms.GpsData, rest: seq<byte>)
    requires |GpsFrame(g) + rest| > IN_WAITING_MIN
    ensures StreamReadPacket(PACKET_SPEC, GpsFrame(g) + rest) == StreamStep(Decoded(GpsLog(g)), rest)
  {
    SpecConsistent();
    FirmwareFrameRead(GpsLog(g), rest);
    var payload := Comms.EncodeGps(g);
    ScanEncoded(PACKET_SPEC, Comms.TYPE_GPS, payload, rest);
  }

  //------------------------------------------------------------------------
  // The table against the firmware's 44-byte sensor packet
  //------------------------------------------------------------------------

  /** As written: read(60) after a sensor packet's header takes 16 bytes of
      whatever follows it, so the next read starts inside the next frame, and
      no packet this call might return re-encodes to the sensor payload. */
  lemma SensorFrameOverreads(d: Comms.SensorData, next: seq<byte>)
    requires |next| >= 16 && |SensorFrame(d) + next| > IN_WAITING_MIN
    ensures var r := StreamReadPacket(PACKET_SPEC, SensorFrame(d) + next);
      && r.rest == next[16..]
      && (r.read.Packet? ==> EncodeFields(r.read.fields) != Comms.EncodeSensor(d))
  {
    var payload := Comms.EncodeSensor(d);
    var s := SensorFrame(d) + next;
    SpecConsistent();
    ScanParts(PACKET_SPEC, s);
    assert s[Comms.HEADER_LENGTH..] == payload + next;
    assert (payload + next)[60..] == next[16..];
  }

  /** Corrected: with the firmware's table every firmware packet, sensor or
      GPS, is returned with its members and nothing behind it is taken. */
  lemma ReadsFirmwareFrame(p: Logged, rest: seq<byte>)
    requires |LoggedFrame(p) + rest| > IN_WAITING_MIN
    ensures StreamReadPacket(FIRMWARE_SPEC, LoggedFrame(p) + rest) == StreamStep(Decoded(p), rest)
  {
    FirmwareFrameRead(p, rest);
  }
}
