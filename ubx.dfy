/** The UBX stream synchroniser of the GPS receiver driver
    (lib/Ublox7GPS/src/UbloxGps_backup.h): a carriage position that walks
    over two sync bytes 0xB5 0x62, `size` payload bytes stored in a fixed
    array, and the two bytes of the running checksum of the payload. The
    carriage survives between calls of update(). */
module UbloxGps {
  import opened Bytes
  import Fletcher
  import Comms

  const HEADER0: byte := 0xB5
  const HEADER1: byte := 0x62

  /** `size` and the carriage are unsigned chars; up to this payload size
      the carriage (at most size + 4) never wraps. */
  const MAX_SIZE: nat := 251

  /** UBXGPS_HEADER[p]. */
  function Header(p: nat): byte
    requires p < 2
  {
    if p == 0 then HEADER0 else HEADER1
  }

  /** The reader's state that persists across update() calls. */
  datatype Reader = Reader(p: nat, data: seq<byte>, checksum: Fletcher.Sums, packet: seq<byte>, ready: bool)

  /** The state invariant: the staging array has `size` bytes, the
      carriage is at most size + 3 between bytes. */
  predicate Good(size: nat, s: Reader) {
    1 <= size <= MAX_SIZE && |s.data| == size && |s.packet| == size && s.p <= size + 3
  }

  /** `p++` on an unsigned char. */
  function Inc(p: nat): nat {
    (p + 1) % 256
  }

  /** The loop body of update() on one byte c. */
  function Step(size: nat, s: Reader, c: byte): (r: Reader)
    requires Good(size, s)
    ensures Good(size, r)
  {
    if s.p < 2 then
      if c == Header(s.p) then s.(p := s.p + 1) else s.(p := 0)
    else
      var data := if s.p < size + 2 then s.data[s.p - 2 := c] else s.data;
      var q := Inc(s.p);
      if q == size + 2 then s.(p := q, data := data, checksum := Fletcher.Checksum(data))
      else if q == size + 3 then
        if c != s.checksum.a then s.(p := 0, data := data) else s.(p := q, data := data)
      else if q == size + 4 then
        if c == s.checksum.b then s.(p := 0, data := data, packet := data, ready := true)
        else s.(p := 0, data := data)
      else if q > size + 4 then s.(p := 0, data := data)
      else s.(p := q, data := data)
  }

  /** The byte c completes a frame: the loop breaks after it. */
  predicate Decodes(size: nat, s: Reader, c: byte) {
    s.p >= 2 && Inc(s.p) == size + 4 && c == s.checksum.b
  }

  /** Every byte in turn, with no early exit. */
  function Feed(size: nat, s: Reader, bytes: seq<byte>): (r: Reader)
    requires Good(size, s)
    ensures Good(size, r)
    decreases |bytes|
  {
    if bytes == [] then s else Feed(size, Step(size, s, bytes[0]), bytes[1..])
  }

  /** What one update() call does with the bytes available: steps byte by
      byte and stops right after the first decoded frame. Gives the new
      state and the number of bytes taken from the port. */
  function Run(size: nat, s: Reader, bytes: seq<byte>): (r: (Reader, nat))
    requires Good(size, s)
    ensures Good(size, r.0) && r.1 <= |bytes|
    decreases |bytes|
  {
    if bytes == [] then (s, 0)
    else if Decodes(size, s, bytes[0]) then (Step(size, s, bytes[0]), 1)
    else
      var t := Run(size, Step(size, s, bytes[0]), bytes[1..]);
      (t.0, t.1 + 1)
  }

  /** The packets decoded while every byte is fed, in order. */
  function Decoded(size: nat, s: Reader, bytes: seq<byte>): seq<seq<byte>>
    requires Good(size, s)
    decreases |bytes|
  {
    if bytes == [] then []
    else
      (if Decodes(size, s, bytes[0]) then [Step(size, s, bytes[0]).packet] else [])
        + Decoded(size, Step(size, s, bytes[0]), bytes[1..])
  }

  //------------------------------------------------------------------------
  // One step
  //------------------------------------------------------------------------

  /** The carriage never wraps and the `p > size + 4` branch is dead. */
  lemma CarriageNeverWraps(size: nat, s: Reader)
    requires Good(size, s)
    ensures Inc(s.p) == s.p + 1 && Inc(s.p) <= size + 4
  {
  }

  /** In a sync position a matching byte advances the carriage and any other
      byte sends it back to 0; that byte is not looked at again. Nothing
      else changes. */
  lemma SyncStep(size: nat, s: Reader, c: byte)
    requires Good(size, s) && s.p < 2
    ensures Step(size, s, c) == s.(p := if c == Header(s.p) then s.p + 1 else 0)
  {
  }

  /** A payload byte lands at data[p - 2], inside the array, and nowhere else. */
  lemma PayloadStep(size: nat, s: Reader, c: byte)
    requires Good(size, s) && 2 <= s.p < size + 2
    ensures var r := Step(size, s, c);
      0 <= s.p - 2 < size && r.data == s.data[s.p - 2 := c]
      && r.packet == s.packet && r.ready == s.ready
      && r.p == s.p + 1
      && (r.checksum != s.checksum ==> r.p == size + 2)
      && (r.p == size + 2 ==> r.checksum == Fletcher.Checksum(r.data))
  {
  }

  /** The checksum is only ever recomputed right after the last payload
      byte, over exactly the `size` staged bytes. */
  lemma ChecksumOnlyAfterPayload(size: nat, s: Reader, c: byte)
    requires Good(size, s)
    ensures var r := Step(size, s, c);
      r.checksum != s.checksum ==> r.p == size + 2 && s.p == size + 1 && r.checksum == Fletcher.Checksum(r.data)
  {
  }

  /** The first checksum byte: a mismatch resets the carriage. */
  lemma FirstChecksumStep(size: nat, s: Reader, c: byte)
    requires Good(size, s) && s.p == size + 2
    ensures var r := Step(size, s, c);
      r.data == s.data && r.packet == s.packet && r.ready == s.ready
      && r.p == (if c == s.checksum.a then size + 3 else 0)
  {
  }

  /** The second checksum byte always resets the carriage; the staged bytes
      become the packet, and ready is set, only on a match. */
  lemma SecondChecksumStep(size: nat, s: Reader, c: byte)
    requires Good(size, s) && s.p == size + 3
    ensures var r := Step(size, s, c);
      r.p == 0 && r.data == s.data
      && (r.packet, r.ready) == (if c == s.checksum.b then (s.data, true) else (s.packet, s.ready))
      && (Decodes(size, s, c) <==> c == s.checksum.b)
  {
  }

  /** The packet and the ready flag change only on a decode. */
  lemma OnlyDecodeTouchesPacket(size: nat, s: Reader, c: byte)
    requires Good(size, s)
    ensures var r := Step(size, s, c);
      (r.packet != s.packet || r.ready != s.ready) ==> Decodes(size, s, c)
  {
  }

  //------------------------------------------------------------------------
  // Streams of bytes
  //------------------------------------------------------------------------

  /** update() takes a whole prefix of the input, runs it without early exit,
      and stops early only right after a decode: at most one decoded packet
      per call. */
  lemma {:induction false} RunIsFeedUpToFirstDecode(size: nat, s: Reader, bytes: seq<byte>)
    requires Good(size, s)
    ensures var (t, k) := Run(size, s, bytes);
      t == Feed(size, s, bytes[..k])
      && |Decoded(size, s, bytes[..k])| <= 1
      && (k < |bytes| ==> k > 0 && |Decoded(size, s, bytes[..k])| == 1 && t.ready)
    decreases |bytes|
  {
    if bytes != [] {
      var t := Step(size, s, bytes[0]);
      var (u, k) := Run(size, s, bytes);
      if Decodes(size, s, bytes[0]) {
        assert bytes[..k] == [bytes[0]];
        assert bytes[..k][1..] == [];
      } else {
        RunIsFeedUpToFirstDecode(size, t, bytes[1..]);
        assert bytes[..k][1..] == bytes[1..][..k - 1];
      }
    }
  }

  /** Splitting the input between calls changes nothing: feeding a and then b
      decodes what feeding a + b decodes, in the same order. */
  lemma {:induction false} FeedAppend(size: nat, s: Reader, a: seq<byte>, b: seq<byte>)
    requires Good(size, s)
    ensures Feed(size, s, a + b) == Feed(size, Feed(size, s, a), b)
    ensures Decoded(size, s, a + b) == Decoded(size, s, a) + Decoded(size, Feed(size, s, a), b)
    decreases |a|
  {
    if a == [] {
      assert a + b == b;
    } else {
      var t := Step(size, s, a[0]);
      assert (a + b)[0] == a[0] && (a + b)[1..] == a[1..] + b;
      FeedAppend(size, t, a[1..], b);
      assert Feed(size, s, a + b) == Feed(size, t, a[1..] + b);
      assert Feed(size, s, a) == Feed(size, t, a[1..]);
    }
  }

  /** Feeding the payload of a frame from carriage 2 stages it and computes
      its checksum. `i` bytes in, the first i are staged. */
  lemma {:induction false} FeedPayload(size: nat, s: Reader, payload: seq<byte>, i: nat)
    requires Good(size, s) && s.p == 2 && |payload| == size && i <= size
    ensures var r := Feed(size, s, payload[..i]);
      r.p == 2 + i && r.data[..i] == payload[..i] && r.packet == s.packet && r.ready == s.ready
      && (i == size ==> r.data == payload && r.checksum == Fletcher.Checksum(payload))
      && Decoded(size, s, payload[..i]) == []
    decreases i
  {
    if i > 0 {
      FeedPayload(size, s, payload, i - 1);
      var m := Feed(size, s, payload[..i - 1]);
      var x := payload[i - 1];
      FeedAppend(size, s, payload[..i - 1], [x]);
      assert payload[..i - 1] + [x] == payload[..i];
      FeedOne(size, m, x);
      PayloadByte(size, m, payload, i);
    }
  }

  /** The i-th payload byte, with the first i - 1 already staged. */
  lemma PayloadByte(size: nat, m: Reader, payload: seq<byte>, i: nat)
    requires Good(size, m) && |payload| == size && 0 < i <= size
    requires m.p == 1 + i && m.data[..i - 1] == payload[..i - 1]
    ensures var r := Step(size, m, payload[i - 1]);
      r.p == 2 + i && r.data[..i] == payload[..i] && r.packet == m.packet && r.ready == m.ready
      && (i == size ==> r.data == payload && r.checksum == Fletcher.Checksum(payload))
      && !Decodes(size, m, payload[i - 1])
  {
    var x := payload[i - 1];
    PayloadStep(size, m, x);
    var d := m.data[i - 1 := x];
    assert d[..i] == payload[..i] by {
      assert d[..i - 1] == m.data[..i - 1];
      assert d[..i] == d[..i - 1] + [x];
      assert payload[..i] == payload[..i - 1] + [x];
    }
    if i == size {
      assert d == d[..i];
    }
  }

  /** The UBX wire image the reader expects for a payload. */
  function Frame(payload: seq<byte>): (r: seq<byte>)
    ensures |r| == |payload| + 4
  {
    var ck := Fletcher.Checksum(payload);
    [HEADER0, HEADER1] + payload + [ck.a, ck.b]
  }

  /** Feeding one byte is one step. */
  lemma FeedOne(size: nat, s: Reader, x: byte)
    requires Good(size, s)
    ensures Feed(size, s, [x]) == Step(size, s, x)
    ensures Decoded(size, s, [x]) == if Decodes(size, s, x) then [Step(size, s, x).packet] else []
  {
    assert [x][1..] == [];
  }

  /** Feeding two bytes is two steps. */
  lemma FeedTwo(size: nat, s: Reader, x: byte, y: byte)
    requires Good(size, s)
    ensures Feed(size, s, [x, y]) == Step(size, Step(size, s, x), y)
    ensures Decoded(size, s, [x, y]) ==
      (if Decodes(size, s, x) then [Step(size, s, x).packet] else [])
      + (if Decodes(size, Step(size, s, x), y) then [Step(size, Step(size, s, x), y).packet] else [])
  {
    assert [x, y] == [x] + [y];
    FeedAppend(size, s, [x], [y]);
    FeedOne(size, s, x);
    FeedOne(size, Step(size, s, x), y);
  }

  /** A stretch of input that decodes nothing does not stop update(). */
  lemma {:induction false} RunAfterQuietPrefix(size: nat, s: Reader, a: seq<byte>, b: seq<byte>)
    requires Good(size, s) && Decoded(size, s, a) == []
    ensures var r := Run(size, Feed(size, s, a), b);
      Run(size, s, a + b) == (r.0, |a| + r.1)
    decreases |a|
  {
    if a == [] {
      assert a + b == b;
    } else {
      var t := Step(size, s, a[0]);
      assert (a + b)[0] == a[0] && (a + b)[1..] == a[1..] + b;
      RunAfterQuietPrefix(size, t, a[1..], b);
    }
  }

  /** From an idle carriage the two sync bytes and `size` payload bytes
      decode nothing, stage the payload and its checksum, and leave the
      carriage on the first checksum byte. */
  lemma SyncAndPayload(size: nat, s: Reader, body: seq<byte>)
    requires Good(size, s) && s.p == 0 && |body| == size
    ensures var r := Feed(size, s, [HEADER0, HEADER1] + body);
      && Decoded(size, s, [HEADER0, HEADER1] + body) == []
      && r.p == size + 2 && r.data == body && r.checksum == Fletcher.Checksum(body)
  {
    var h := [HEADER0, HEADER1];
    FeedTwo(size, s, HEADER0, HEADER1);
    var s2 := Feed(size, s, h);
    assert s2 == s.(p := 2) && Decoded(size, s, h) == [];
    FeedPayload(size, s2, body, size);
    assert body[..size] == body;
    FeedAppend(size, s, h, body);
  }

  /** From an idle carriage: the sync bytes, `size` payload bytes and a first
      checksum byte c1 decode nothing, stage the payload and its checksum,
      and leave the carriage at size + 3 when c1 matches, else at 0. */
  lemma FeedUpToLastByte(size: nat, s: Reader, body: seq<byte>, c1: byte)
    requires Good(size, s) && s.p == 0 && |body| == size
    ensures var a := [HEADER0, HEADER1] + body + [c1];
      var r := Feed(size, s, a);
      && Decoded(size, s, a) == []
      && r.data == body && r.checksum == Fletcher.Checksum(body)
      && r.p == (if c1 == Fletcher.Checksum(body).a then size + 3 else 0)
  {
    var hb := [HEADER0, HEADER1] + body;
    SyncAndPayload(size, s, body);
    var s3 := Feed(size, s, hb);
    FeedAppend(size, s, hb, [c1]);
    FeedOne(size, s3, c1);
    FirstChecksumStep(size, s3, c1);
  }

  /** A whole frame from an idle carriage decodes exactly when both
      checksum bytes match the payload, and then yields the payload. */
  lemma FrameOutcome(size: nat, s: Reader, body: seq<byte>, c1: byte, c2: byte)
    requires Good(size, s) && s.p == 0 && |body| == size
    ensures var ck := Fletcher.Checksum(body);
      Decoded(size, s, [HEADER0, HEADER1] + body + [c1, c2])
        == if c1 == ck.a && c2 == ck.b then [body] else []
  {
    var a := [HEADER0, HEADER1] + body + [c1];
    FeedUpToLastByte(size, s, body, c1);
    assert [HEADER0, HEADER1] + body + [c1, c2] == a + [c2];
    FeedAppend(size, s, a, [c2]);
    LastByteOutcome(size, Feed(size, s, a), c2);
  }

  /** What the byte after the first checksum byte decodes. */
  lemma LastByteOutcome(size: nat, m: Reader, c: byte)
    requires Good(size, m) && (m.p == size + 3 || m.p == 0)
    ensures Decoded(size, m, [c]) == if m.p == size + 3 && c == m.checksum.b then [m.data] else []
  {
    FeedOne(size, m, c);
    if m.p == size + 3 {
      SecondChecksumStep(size, m, c);
    }
  }

  /** End to end: from an idle carriage a complete frame is decoded, the
      packet is exactly its payload, and the call stops right behind it. */
  lemma FrameDecoded(size: nat, s: Reader, payload: seq<byte>, rest: seq<byte>)
    requires Good(size, s) && s.p == 0 && |payload| == size
    ensures var (t, k) := Run(size, s, Frame(payload) + rest);
      k == size + 4 && t.ready && t.packet == payload && t.p == 0
    ensures Decoded(size, s, Frame(payload)) == [payload]
  {
    var ck := Fletcher.Checksum(payload);
    var a := [HEADER0, HEADER1] + payload + [ck.a];
    FeedUpToLastByte(size, s, payload, ck.a);
    FrameOutcome(size, s, payload, ck.a, ck.b);
    assert Frame(payload) + rest == a + ([ck.b] + rest);
    RunAfterQuietPrefix(size, s, a, [ck.b] + rest);
    LastByteDecodes(size, Feed(size, s, a), ck.b, rest);
  }

  /** The matching second checksum byte ends the call: the staged bytes
      become the packet. */
  lemma LastByteDecodes(size: nat, m: Reader, c: byte, rest: seq<byte>)
    requires Good(size, m) && m.p == size + 3 && c == m.checksum.b
    ensures Run(size, m, [c] + rest) == (m.(p := 0, packet := m.data, ready := true), 1)
  {
    assert ([c] + rest)[0] == c;
    SecondChecksumStep(size, m, c);
  }

  /** A frame with one payload byte or one checksum byte corrupted yields no
      packet. */
  lemma CorruptedFrameRejected(size: nat, s: Reader, payload: seq<byte>, k: nat, v: byte)
    requires Good(size, s) && s.p == 0 && |payload| == size
    requires 2 <= k < size + 4 && v != Frame(payload)[k]
    ensures Decoded(size, s, Frame(payload)[k := v]) == []
  {
    var ck := Fletcher.Checksum(payload);
    var body := if k < size + 2 then payload[k - 2 := v] else payload;
    var c1 := if k == size + 2 then v else ck.a;
    var c2 := if k == size + 3 then v else ck.b;
    assert Frame(payload)[k := v] == [HEADER0, HEADER1] + body + [c1, c2];
    if k < size + 2 {
      Fletcher.SingleByteChangeDetected(payload, k - 2, v);
    }
    FrameOutcome(size, s, body, c1, c2);
  }

  /** The second sync byte is not re-examined: after 0xB5 0xB5 0x62 the
      carriage is back at 0, so a frame that starts at the second 0xB5 is
      missed. */
  lemma OverlappingSyncMissed(size: nat, s: Reader)
    requires Good(size, s) && s.p == 0
    ensures Feed(size, s, [HEADER0, HEADER0, HEADER1]).p == 0
  {
    FeedTwo(size, s, HEADER0, HEADER0);
    FeedAppend(size, s, [HEADER0, HEADER0], [HEADER1]);
    assert [HEADER0, HEADER0] + [HEADER1] == [HEADER0, HEADER0, HEADER1];
    var s2 := Feed(size, s, [HEADER0, HEADER0]);
    assert s2.p == 0;
    assert Feed(size, s2, [HEADER1]) == Step(size, s2, HEADER1);
  }

  /** Once both sync bytes are in, nothing looks for a sync pair again until
      the frame ends: a second `0xB5 0x62` right behind the first is staged
      as the first two payload bytes, so a frame that really starts there is
      read from the wrong offset and its checksum fails. */
  lemma StraySyncStaged(size: nat, s: Reader)
    requires Good(size, s) && s.p == 0 && size >= 2
    ensures var r := Feed(size, s, [HEADER0, HEADER1, HEADER0, HEADER1]);
      && r.p == 4 && r.data[0] == HEADER0 && r.data[1] == HEADER1
      && Decoded(size, s, [HEADER0, HEADER1, HEADER0, HEADER1]) == []
  {
    var h := [HEADER0, HEADER1];
    FeedTwo(size, s, HEADER0, HEADER1);
    var s2 := Feed(size, s, h);
    assert s2.p == 2 && Decoded(size, s, h) == [];
    FeedTwo(size, s2, HEADER0, HEADER1);
    PayloadStep(size, s2, HEADER0);
    var s3 := Step(size, s2, HEADER0);
    PayloadStep(size, s3, HEADER1);
    assert !Decodes(size, s2, HEADER0) && !Decodes(size, s3, HEADER1);
    FeedAppend(size, s, h, h);
    assert h + h == [HEADER0, HEADER1, HEADER0, HEADER1];
  }

  /** One byte of update(): a decode ends the call, any other byte leaves
      the rest of the input to the next step. */
  lemma RunFirst(size: nat, s: Reader, c: byte, rest: seq<byte>)
    requires Good(size, s)
    ensures var t := Run(size, Step(size, s, c), rest);
      Run(size, s, [c] + rest) == if Decodes(size, s, c) then (Step(size, s, c), 1) else (t.0, t.1 + 1)
  {
    assert ([c] + rest)[0] == c && ([c] + rest)[1..] == rest;
  }

  //------------------------------------------------------------------------
  // The driver object
  //------------------------------------------------------------------------

  class UbloxGps {
    const size: nat
    const data: array<byte>
    var carriagePosition: nat
    var checksum: Fletcher.Sums
    var packet: seq<byte>
    var ready: bool

    ghost predicate Valid()
      reads this
    {
      data.Length == size && 1 <= size <= MAX_SIZE && carriagePosition <= size + 3 && |packet| == size
    }

    function State(): (r: Reader)
      reads this, data
    {
      Reader(carriagePosition, data[..], checksum, packet, ready)
    }

    /** The constructor: carriage at 0, nothing ready, a zeroed packet of
        `size` bytes. The staging array starts with whatever it holds. */
    constructor (size: nat)
      requires 1 <= size <= MAX_SIZE
      ensures Valid() && fresh(data) && this.size == size
      ensures carriagePosition == 0 && !ready && packet == seq(size, _ => 0)
    {
      this.size := size;
      data := new byte[size];
      carriagePosition := 0;
      packet := seq(size, _ => 0);
      ready := false;
    }

    /** update(): drains the port until it is empty or a frame was decoded. */
    method Update(serial: Comms.SerialPort)
      requires Valid()
      modifies this, data, serial
      ensures Valid()
      ensures var (t, k) := Run(size, old(State()), old(serial.rx));
        State() == t && serial.rx == old(serial.rx)[k..]
      ensures serial.tx == old(serial.tx)
    {
      ghost var rx := serial.rx;
      ghost var target := Run(size, State(), rx);
      var p: nat := carriagePosition;
      while serial.Available() > 0
        invariant data.Length == size && |packet| == size && p <= size + 3
        invariant |serial.rx| <= |rx| && serial.rx == rx[|rx| - |serial.rx|..] && serial.tx == old(serial.tx)
        invariant var r := Run(size, Reader(p, data[..], checksum, packet, ready), serial.rx);
          r.0 == target.0 && r.1 + (|rx| - |serial.rx|) == target.1
        decreases |serial.rx|
      {
        ghost var before := Reader(p, data[..], checksum, packet, ready);
        ghost var input := serial.rx;
        var c := serial.Read();
        assert input == [c] + serial.rx;
        var done;
        p, done := Consume(p, c);
        RunFirst(size, before, c, serial.rx);
        if done {
          break;
        }
      }
      carriagePosition := p;
    }

    /** The body of update()'s loop on the byte c with the carriage at p:
        the new carriage, and whether a frame was completed (the loop's
        break). */
    method Consume(p: nat, c: byte) returns (q: nat, done: bool)
      requires data.Length == size && 1 <= size <= MAX_SIZE && |packet| == size && p <= size + 3
      modifies this`checksum, this`packet, this`ready, data
      ensures var r := Step(size, old(Reader(p, data[..], checksum, packet, ready)), c);
        Reader(q, data[..], checksum, packet, ready) == r && |packet| == size
      ensures done == old(Decodes(size, Reader(p, data[..], checksum, packet, ready), c))
    {
      done := false;
      if p < 2 {
        if c == Header(p) {
          q := p + 1;
        } else {
          q := 0;
        }
        return;
      }
      if p < size + 2 {
        data[p - 2] := c;
      }
      q := Inc(p);
      if q == size + 2 {
        CalculateChecksum();
      } else if q == size + 3 {
        if c != checksum.a {
          q := 0;
        }
      } else if q == size + 4 {
        q := 0;
        if c == checksum.b {
          packet := data[..];
          ready := true;
          done := true;
        }
      }
      // The source's reset for a carriage past size + 4 is omitted: with
      // p <= size + 3 it cannot happen (CarriageNeverWraps).
    }

    /** calculateChecksum(): the running checksum of the whole staging array. */
    method CalculateChecksum()
      requires data.Length == size
      modifies this`checksum
      ensures checksum == Fletcher.Checksum(data[..])
    {
      checksum := Fletcher.Sums(0, 0);
      var i := 0;
      while i < size
        invariant 0 <= i <= size
        invariant checksum == Fletcher.Checksum(data[..i])
      {
        assert data[..i + 1][..i] == data[..i];
        var a := Fletcher.AddMod(checksum.a, data[i]);
        checksum := Fletcher.Sums(a, Fletcher.AddMod(checksum.b, a));
        i := i + 1;
      }
      assert data[..size] == data[..];
    }

    /** isReady(): no side effect. */
    method IsReady() returns (r: bool)
      ensures r == ready
    {
      r := ready;
    }

    /** getPacket(): clears ready and hands out the stored packet. */
    method GetPacket() returns (pk: seq<byte>)
      requires Valid()
      modifies this`ready
      ensures Valid() && pk == packet && !ready
    {
      ready := false;
      pk := packet;
    }
  }
}
