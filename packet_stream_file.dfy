/** python/packet_stream_file.py: the PacketStream that reads a log file
    written by the firmware (out.poop) one packet at a time. */
module PacketStreamFile {
  import opened Bytes
  import Fletcher
  import opened Layout
  import Comms
  import opened Ground

  /** '<I11f3h2B' */
  const SENSOR_FORMAT: seq<Kind> := [UInt32] + Repeat(Float32, 11) + Repeat(Int16, 3) + Repeat(UInt8, 2)

  /** The file's PACKET_SPEC: a 56-byte sensor entry laid out as
      '<I11f3h2B', and the GPS entry (52, '<I6i3Iif4B'), which is
      GPS_LAYOUT. */
  const PACKET_SPEC: PacketSpec :=
    map[Comms.TYPE_SENSOR := Spec(56, SENSOR_FORMAT), Comms.TYPE_GPS := Spec(52, Comms.GPS_LAYOUT)]

  /** Each entry's size is the size of its format, and the GPS entry is
      the firmware's. */
  lemma SpecConsistent()
    ensures Consistent(PACKET_SPEC)
    ensures PACKET_SPEC[Comms.TYPE_GPS] == FIRMWARE_SPEC[Comms.TYPE_GPS]
  {
    SensorFormatSize();
    Comms.GpsLayout(Comms.ZeroGps);
  }

  /** struct.calcsize('<I11f3h2B') is 56. */
  lemma SensorFormatSize()
    ensures Size(SENSOR_FORMAT) == 56
  {
    SizeAppend([UInt32] + Repeat(Float32, 11) + Repeat(Int16, 3), Repeat(UInt8, 2));
    SizeAppend([UInt32] + Repeat(Float32, 11), Repeat(Int16, 3));
    SizeAppend([UInt32], Repeat(Float32, 11));
    SizeRepeat(Float32, 11);
    SizeRepeat(Int16, 3);
    SizeRepeat(UInt8, 2);
  }

  /** What one read_packet call leaves: the value it returns (or the
      struct.error it raises), the rest of the file, and error_state. */
  datatype FileStep = FileStep(read: Read, rest: seq<byte>, errorState: int)

  /** read_packet on the file whose unread bytes are `input`:
      - at the end of the file it returns (None, None) and sets error_state 3;
      - a byte other than the sync byte is skipped, error_state unchanged;
      - a missing or unknown type byte sets error_state 2;
      - a checksum that does not match sets error_state 1;
      - a matching checksum returns the unpacked payload, error_state
        unchanged, or raises struct.error when the payload read was short. */
  function FileReadPacket(types: PacketSpec, input: seq<byte>, errorState: int): FileStep {
    match ScanFrame(types, input)
    case AtEnd => FileStep(NoPacket, [], 3)
    case NotSync(rest) => FileStep(NoPacket, rest, errorState)
    case UnknownType(rest) => FileStep(NoPacket, rest, 2)
    case ShortChecksum(rest) => FileStep(StructError, rest, errorState)
    case Frame(kind, a, b, data, rest) =>
      var f := ScanFrame(types, input);
      if Matches(f) then FileStep(Unpacked(types, f), rest, errorState)
      else FileStep(NoPacket, rest, 1)
  }

  class PacketStream {
    /** The bytes of the file from its current position to its end. */
    var input: seq<byte>
    var errorState: int

    /** __init__ followed by begin(): the file is open at its start. */
    constructor (contents: seq<byte>)
      ensures input == contents && errorState == 0
    {
      input := contents;
      errorState := 0;
    }

    /** file.read(n). */
    method Read(n: nat) returns (s: seq<byte>)
      modifies this`input
      ensures s == Take(old(input), n) && input == Drop(old(input), n)
    {
      s := Take(input, n);
      input := Drop(input, n);
    }

    method ReadPacket(packetTypes: PacketSpec) returns (r: Read)
      modifies this`input, this`errorState
      ensures FileStep(r, input, errorState) == FileReadPacket(packetTypes, old(input), old(errorState))
    {
      ScanByReads(packetTypes, input);
      var syncByte := Read(1);
      if syncByte != [] {
        if syncByte == [Comms.SYNC] {
          var packetTypeByte := Read(1);
          if |packetTypeByte| == 1 && packetTypeByte[0] in packetTypes {
            var received := Read(2);
            if |received| != 2 {
              return StructError;
            }
            var info := packetTypes[packetTypeByte[0]];
            var packetData := Read(info.size);
            var ca, cb := CalculateChecksum(packetData);
            if (received[0], received[1]) == (ca, cb) {
              var u := Unpack(info.format, packetData);
              if u.None? {
                return StructError;
              }
              return Packet(packetTypeByte[0], u.value);
            } else {
              errorState := 1;
            }
          } else {
            errorState := 2;
          }
        }
      } else {
        errorState := 3;
      }
      return NoPacket;
    }
  }

  //------------------------------------------------------------------------
  // Properties of read_packet
  //------------------------------------------------------------------------

  /** error_state: 3 at the end of the file, otherwise unchanged or set to
      1 or 2, and only when no packet is returned. Nothing sets it
      back to 0: once an error is recorded it stays recorded. */
  lemma ErrorStates(types: PacketSpec, input: seq<byte>, errorState: int)
    ensures var r := FileReadPacket(types, input, errorState);
      && (input == [] ==> r == FileStep(NoPacket, [], 3))
      && (input != [] ==> r.errorState == errorState || r.errorState == 1 || r.errorState == 2)
      && (r.errorState != errorState ==> r.read == NoPacket)
      && (errorState != 0 ==> r.errorState != 0)
  {
  }

  /** Every call but the one at the end of the file moves the file
      position forward, so reading call after call comes to an end. */
  lemma Progress(types: PacketSpec, input: seq<byte>, errorState: int)
    requires input != []
    ensures var r := FileReadPacket(types, input, errorState);
      |r.rest| < |input| && input == input[..|input| - |r.rest|] + r.rest
  {
    ScanParts(types, input);
  }

  /** A byte other than the sync byte is skipped and nothing else happens. */
  lemma SkipsNonSync(types: PacketSpec, input: seq<byte>, errorState: int)
    requires input != [] && input[0] != Comms.SYNC
    ensures FileReadPacket(types, input, errorState) == FileStep(NoPacket, input[1..], errorState)
  {
    ScanParts(types, input);
  }

  /** A packet is only returned for a whole frame of a kind in the table
      whose checksum matches its payload, and its members re-encode to
      that payload. */
  lemma PacketSound(types: PacketSpec, input: seq<byte>, errorState: int)
    ensures var r := FileReadPacket(types, input, errorState);
      r.read.Packet? ==>
        && r.read.kind in types
        && LayoutOf(r.read.fields) == types[r.read.kind].format
        && input == Comms.Encode(r.read.kind, EncodeFields(r.read.fields)) + r.rest
        && r.errorState == errorState
  {
    ScanParts(types, input);
  }

  /** Round trip: a checksummed frame of a kind in the table, whose payload
      is as long as the table says and unpacks, is returned as that packet,
      and the next read starts right behind it. */
  lemma ReadsFrame(types: PacketSpec, kind: byte, payload: seq<byte>, rest: seq<byte>, errorState: int)
    requires kind in types && |payload| == types[kind].size
    requires Unpack(types[kind].format, payload).Some?
    ensures FileReadPacket(types, Comms.Encode(kind, payload) + rest, errorState)
         == FileStep(Packet(kind, Unpack(types[kind].format, payload).value), rest, errorState)
  {
    ScanEncoded(types, kind, payload, rest);
  }

  //------------------------------------------------------------------------
  // The table against the firmware's 44-byte sensor packet
  //------------------------------------------------------------------------

  /** As written: a file holding a single sensor packet makes read_packet
      raise struct.error. read(56) returns the frame's 44 payload bytes,
      their checksum matches, and the 56-byte format does not fit them. */
  lemma SensorFrameRaises(d: Comms.SensorData, errorState: int)
    ensures FileReadPacket(PACKET_SPEC, SensorFrame(d), errorState).read == StructError
  {
    var payload := Comms.EncodeSensor(d);
    var f := SensorFrame(d);
    ScanParts(PACKET_SPEC, f);
    SpecConsistent();
    assert f == f + [];
    var r := ScanFrame(PACKET_SPEC, f);
    assert r.data == payload;
  }

  /** As written: when another frame follows a sensor packet, read(56)
      takes 12 bytes of it, so the next read starts inside that frame. */
  lemma SensorFrameOverreads(d: Comms.SensorData, next: seq<byte>, errorState: int)
    requires |next| >= 12
    ensures FileReadPacket(PACKET_SPEC, SensorFrame(d) + next, errorState).rest == next[12..]
  {
    var payload := Comms.EncodeSensor(d);
    var s := SensorFrame(d) + next;
    assert s[Comms.HEADER_LENGTH..] == payload + next;
    assert (payload + next)[56..] == next[12..];
  }

  /** Reading the file call after call until the end, as the script's
      loop does; a struct.error ends the script. */
  function ReadAll(types: PacketSpec, input: seq<byte>, errorState: int): seq<Read>
    decreases |input|
  {
    if input == [] then []
    else
      var r := FileReadPacket(types, input, errorState);
      Progress(types, input, errorState);
      if r.read.StructError? then [StructError]
      else [r.read] + ReadAll(types, r.rest, r.errorState)
  }

  /** With the firmware's table one firmware frame is returned with its
      members, error_state is untouched, and the next read starts right
      behind it. */
  lemma ReadsFirmwareFrame(p: Logged, rest: seq<byte>, errorState: int)
    ensures FileReadPacket(FIRMWARE_SPEC, LoggedFrame(p) + rest, errorState)
         == FileStep(Decoded(p), rest, errorState)
  {
    FirmwareFrameRead(p, rest);
  }

  /** Corrected: with the firmware's table every packet of a firmware log
      is read back, in order, with its members. */
  lemma {:induction false} ReadsFirmwareLog(ps: seq<Logged>, errorState: int)
    ensures ReadAll(FIRMWARE_SPEC, LogImage(ps), errorState) == DecodedLog(ps)
  {
    if ps != [] {
      var rest := LogImage(ps[1..]);
      var s := LogImage(ps);
      assert s == LoggedFrame(ps[0]) + rest;
      ReadsFirmwareFrame(ps[0], rest, errorState);
      assert FileReadPacket(FIRMWARE_SPEC, s, errorState) == FileStep(Decoded(ps[0]), rest, errorState);
      ReadsFirmwareLog(ps[1..], errorState);
      assert ReadAll(FIRMWARE_SPEC, s, errorState) == [Decoded(ps[0])] + ReadAll(FIRMWARE_SPEC, rest, errorState);
    }
  }
}
