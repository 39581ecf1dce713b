/** python/packet_stream_serial.py: the PacketStream that reads packets
    from the radio's serial port, copies every frame it reads into the log
    file python/out.poop, and reports the outcome in error_state. */
module PacketStreamSerial {
  import opened Bytes
  import Fletcher
  import opened Layout
  import Comms
  import opened Ground
  import PacketStreamFile

  /** The serial PACKET_SPEC: the sensor entry (44, '<I6h5f3h2B'), which is
      SENSOR_LAYOUT, and the GPS entry (52, '<I6i3Iif4B'), which is
      GPS_LAYOUT. */
  const PACKET_SPEC: PacketSpec :=
    map[Comms.TYPE_SENSOR := Spec(44, Comms.SENSOR_LAYOUT), Comms.TYPE_GPS := Spec(52, Comms.GPS_LAYOUT)]

  /** This table is the one the firmware's structs call for. */
  lemma SpecIsFirmware()
    ensures PACKET_SPEC == FIRMWARE_SPEC
    ensures FitsGate(PACKET_SPEC) && Consistent(PACKET_SPEC)
  {
    FirmwareSpecFits();
  }

  /** What one read_packet call leaves: the value returned (or the
      struct.error raised), the bytes still waiting on the port, the bytes
      it writes to the log file, and error_state. */
  datatype SerialStep = SerialStep(read: Read, rest: seq<byte>, logged: seq<byte>, errorState: int)

  /** read_packet on the port whose waiting bytes are `rx`. error_state is
      cleared first; with 100 bytes or fewer waiting nothing is read and it
      becomes 3. A byte other than the sync byte is taken and error_state
      stays 0; an unknown type byte gives 2. For a known type the header and
      the payload go to the log file before the checksum is compared; a
      mismatch gives 1, a match the unpacked payload. */
  function SerialReadPacket(types: PacketSpec, rx: seq<byte>): SerialStep {
    if |rx| <= IN_WAITING_MIN then SerialStep(NoPacket, rx, [], 3)
    else
      match ScanFrame(types, rx)
      case NotSync(rest) => SerialStep(NoPacket, rest, [], 0)
      case UnknownType(rest) => SerialStep(NoPacket, rest, [], 2)
      // `rx` holds more than a header, so read(2) always gets both bytes
      case Frame(kind, a, b, data, rest) =>
        var f := ScanFrame(types, rx);
        var logged := [Comms.SYNC, kind, a, b] + data;
        if Matches(f) then SerialStep(Unpacked(types, f), rest, logged, 0)
        else SerialStep(NoPacket, rest, logged, 1)
  }

  /** SerialReadPacket once the sync byte is in: the reads that follow. */
  lemma TypedFrameByReads(types: PacketSpec, rx: seq<byte>)
    requires |rx| >= IN_WAITING_MIN
    ensures var r := SerialReadPacket(types, [Comms.SYNC] + rx);
      var t, s1 := Take(rx, 1), Drop(rx, 1);
      && (!(|t| == 1 && t[0] in types) ==> r == SerialStep(NoPacket, s1, [], 2))
      && (|t| == 1 && t[0] in types ==>
            var c, s2 := Take(s1, 2), Drop(s1, 2);
            var e := types[t[0]];
            var data, rest := Take(s2, e.size), Drop(s2, e.size);
            && |c| == 2 && r.rest == rest && r.logged == [Comms.SYNC] + t + c + data
            && (Fletcher.Checksum(data) == Fletcher.Sums(c[0], c[1]) ==>
                  r.errorState == 0 && r.read == (match Unpack(e.format, data) case Some(fs) => Packet(t[0], fs) case None => StructError))
            && (Fletcher.Checksum(data) != Fletcher.Sums(c[0], c[1]) ==> r.read == NoPacket && r.errorState == 1))
  {
    var s := [Comms.SYNC] + rx;
    ScanByReads(types, s);
    assert Take(s, 1) == [Comms.SYNC] && Drop(s, 1) == rx;
  }

  /** Two writes to the log append what one write of both would. */
  lemma Appended(a: seq<byte>, b: seq<byte>, c: seq<byte>)
    ensures a + b + c == a + (b + c)
  {
  }

  class PacketStream {
    /** The bytes the port has received and not yet handed out. */
    var rx: seq<byte>
    /** The bytes sent on the port. */
    var tx: seq<byte>
    /** The contents of the log file. */
    var log: seq<byte>
    var errorState: int

    /** __init__ and begin(): the port is open and the log file is
        created empty. */
    constructor (received: seq<byte>)
      ensures rx == received && tx == [] && log == [] && errorState == 0
    {
      rx := received;
      tx := [];
      log := [];
      errorState := 0;
    }

    /** device.in_waiting. */
    function InWaiting(): (n: nat)
      reads this
      ensures n == |rx|
    {
      |rx|
    }

    /** device.read(n). */
    method Read(n: nat) returns (s: seq<byte>)
      modifies this`rx
      ensures s == Take(old(rx), n) && rx == Drop(old(rx), n)
    {
      s := Take(rx, n);
      rx := Drop(rx, n);
    }

    /** file.write(bytes). */
    method WriteLog(bytes: seq<byte>)
      modifies this`log
      ensures log == old(log) + bytes
    {
      log := log + bytes;
    }

    method ReadPacket(packetTypes: PacketSpec) returns (r: Read)
      modifies this`rx, this`log, this`errorState
      ensures var step := SerialReadPacket(packetTypes, old(rx));
        && r == step.read && rx == step.rest && log == old(log) + step.logged && errorState == step.errorState
    {
      ghost var rx0 := rx;
      errorState := 0;
      if InWaiting() > IN_WAITING_MIN {
        var syncByte := Read(1);
        if syncByte == [Comms.SYNC] {
          assert rx0 == [Comms.SYNC] + rx;
          TypedFrameByReads(packetTypes, rx);
          var packetTypeByte := Read(1);
          if |packetTypeByte| == 1 && packetTypeByte[0] in packetTypes {
            var received := Read(2);
            var info := packetTypes[packetTypeByte[0]];
            var packetData := Read(info.size);
            ghost var log0 := log;
            var header := syncByte + packetTypeByte + received;
            WriteLog(header);
            WriteLog(packetData);
            Appended(log0, header, packetData);
            var ca, cb := CalculateChecksum(packetData);
            if (received[0], received[1]) == (ca, cb) {
              var u := Unpack(info.format, packetData);
              if u.None? {
                return StructError;
              }
              return Packet(packetTypeByte[0], u.value);
            } else {
              errorState := 1;
            }
          } else {
            errorState := 2;
          }
        } else {
          assert SerialReadPacket(packetTypes, rx0) == SerialStep(NoPacket, rx, [], 0);
        }
      } else {
        errorState := 3;
      }
      return NoPacket;
    }

    /** send(data): device.write(data). */
    method Send(data: seq<byte>)
      modifies this`tx
      ensures tx == old(tx) + data
    {
      tx := tx + data;
    }
  }

  //------------------------------------------------------------------------
  // Properties of read_packet
  //------------------------------------------------------------------------

  /** error_state depends on this call alone: 3 exactly when 100 bytes or
      fewer are waiting, 1 for a failed checksum, 2 for an unknown type,
      0 otherwise, which includes a skipped non-sync byte. */
  lemma ErrorStates(types: PacketSpec, rx: seq<byte>)
    ensures var r := SerialReadPacket(types, rx);
      && (r.errorState == 3 <==> |rx| <= IN_WAITING_MIN)
      && (r.errorState == 3 ==> r == SerialStep(NoPacket, rx, [], 3))
      && (r.errorState == 0 <==> |rx| > IN_WAITING_MIN && (rx[0] != Comms.SYNC || !r.read.NoPacket?))
      && (r.errorState == 1 <==> |rx| > IN_WAITING_MIN && r.logged != [] && r.read.NoPacket?)
      && (r.errorState == 2 <==> |rx| > IN_WAITING_MIN && rx[0] == Comms.SYNC && rx[1] !in types)
  {
    ScanParts(types, rx);
  }

  /** The log receives exactly the bytes of each frame of a known type,
      header and payload, whether or not its checksum matches. */
  lemma LogsEveryFrame(types: PacketSpec, rx: seq<byte>)
    ensures var r := SerialReadPacket(types, rx);
      && (r.logged != [] <==> |rx| > IN_WAITING_MIN && rx[0] == Comms.SYNC && rx[1] in types)
      && (r.logged != [] ==> rx == r.logged + r.rest)
      && (r.logged == [] && |rx| > IN_WAITING_MIN ==> rx == [rx[0]] + r.rest || rx == rx[..2] + r.rest)
  {
    ScanParts(types, rx);
  }

  /** A packet is only returned for a whole frame of a kind in the table
      whose checksum matches; it is also what went to the log. */
  lemma PacketSound(types: PacketSpec, rx: seq<byte>)
    ensures var r := SerialReadPacket(types, rx);
      r.read.Packet? ==>
        && r.read.kind in types
        && LayoutOf(r.read.fields) == types[r.read.kind].format
        && r.logged == Comms.Encode(r.read.kind, EncodeFields(r.read.fields))
        && rx == r.logged + r.rest
  {
    ScanParts(types, rx);
  }

  /** With a table whose entries fit behind the in_waiting gate and agree
      with their formats, read_packet never raises struct.error. The
      serial table is such a table. */
  lemma NeverRaises(types: PacketSpec, rx: seq<byte>)
    requires FitsGate(types) && Consistent(types)
    ensures !SerialReadPacket(types, rx).read.StructError?
  {
    if |rx| > IN_WAITING_MIN {
      GatedReadsComplete(types, rx);
    }
  }

  /** Round trip: every firmware packet arriving with more than 100 bytes
      waiting is returned with its members, and exactly its frame is logged. */
  lemma ReadsFirmwareFrame(p: Logged, rest: seq<byte>)
    requires |LoggedFrame(p) + rest| > IN_WAITING_MIN
    ensures SerialReadPacket(PACKET_SPEC, LoggedFrame(p) + rest)
         == SerialStep(Decoded(p), rest, LoggedFrame(p), 0)
  {
    SpecIsFirmware();
    FirmwareFrameRead(p, rest);
  }

  /** The log file read back with the file reader and the same table gives
      the same outcome for every frame logged: out.poop replays the radio
      link. */
  lemma LogReplays(types: PacketSpec, rx: seq<byte>, more: seq<byte>, errorState: int)
    requires FitsGate(types)
    ensures var r := SerialReadPacket(types, rx);
      r.logged != [] ==>
        var f := PacketStreamFile.FileReadPacket(types, r.logged + more, errorState);
        f.read == r.read && f.rest == more
  {
    var r := SerialReadPacket(types, rx);
    if r.logged != [] {
      GatedReadsComplete(types, rx);
      ScanParts(types, rx);
      var g := ScanFrame(types, rx);
      var s := r.logged + more;
      assert s == [Comms.SYNC, g.kind, g.a, g.b] + g.data + more;
      assert s[Comms.HEADER_LENGTH..] == g.data + more;
      assert (g.data + more)[..|g.data|] == g.data;
    }
  }
}
