/** The telemetry singleton of the flight computer: device-health statuses,
    the SD-card retry counter, the ring-buffer/log-file storage policy, the
    radio output and the collect/send cycle. Chip reads, the SD card, the
    clock and the NAV-PVT layout are replaced by input values. The first
    part states every operation as a function of the whole observable
    state; the class Shart (module Shart) is proved against those functions. */
module ShartModel {
  import opened Bytes
  import Fletcher
  import Comms
  import UbloxGps

  datatype Status = UNINITIALIZED | AVAILABLE | UNAVAILABLE | PERMANENTLY_UNAVAILABLE

  const BNO_CHIP_ID: byte := 0xA0
  const BMP_CHIP_ID: byte := 0x50
  const ADXL_CHIP_ID: byte := 0xE5

  const LOG_FILE_SIZE: nat := 100000
  const RING_BUF_CAPACITY: nat := 400 * 512
  const SD_MAX_NUM_CONNECTION_ATTEMPTS: nat := 1

  /** One SD sector: what saveData drains at a time. */
  const SECTOR_SIZE: nat := 512
  /** saveData gives up when buffered plus written bytes pass LOG_FILE_SIZE - FILE_MARGIN. */
  const FILE_MARGIN: nat := 20
  const SENSOR_PACKET_SIZE: nat := Comms.HEADER_LENGTH + Comms.SENSOR_DATA_SIZE
  const GPS_PACKET_SIZE: nat := Comms.HEADER_LENGTH + Comms.GPS_DATA_SIZE

  //------------------------------------------------------------------------
  // State and inputs
  //------------------------------------------------------------------------

  /** The storage side: the SD status, the retry counter, the ring
      buffer's contents and write-error flag, and the log file's contents
      (its length is file.curPosition()). */
  datatype Storage = Storage(sd: Status, sdAttempts: u16, ring: seq<byte>, ringError: bool, file: seq<byte>)

  /** Everything the Shart methods read or write. `radio` is every byte
      written to the radio port. */
  datatype ShartState = ShartState(
    bmp: Status, bno: Status, icm: Status, adxl: Status, lsm: Status,
    store: Storage,
    radio: seq<byte>,
    gpsReady: bool,
    sensor: Comms.SensorData, sensorCk: Fletcher.Sums,
    gps: Comms.GpsData, gpsCk: Fletcher.Sums,
    chipTimeOffset: u32,
    gpsSize: nat, receiver: UbloxGps.Reader)

  /** The receiver state satisfies the UBX reader's invariant. */
  predicate Wf(st: ShartState) {
    UbloxGps.Good(st.gpsSize, st.receiver)
  }

  /** What the SD card answers to one initSD: sd.begin, file.open and
      file.preAllocate. */
  datatype SdCard = SdCard(begin: bool, open: bool, preAllocate: bool)

  predicate Succeeds(c: SdCard) {
    c.begin && c.open && c.preAllocate
  }

  /** The ICM-20948 values collectDataICM20948 stores, already converted to
      the packet's field types. */
  datatype IcmSample = IcmSample(
    accX: i16, accY: i16, accZ: i16,
    gyrX: i16, gyrY: i16, gyrZ: i16,
    magX: f32bits, magY: f32bits, magZ: f32bits)

  /** The BMP388 values collectDataBMP388 stores. */
  datatype BmpSample = BmpSample(temp: f32bits, pres: f32bits)

  /** The NAV-PVT fields collectDataGTU7 reads from the decoded UBX payload. */
  datatype NavPvt = NavPvt(lat: i32, lon: i32, alt: i32, velN: i32, velE: i32, velD: i32)

  /** What the hardware answers during one collect(): the two micros()
      readings, the chip probes and samples, the LSM6DSO32's probe result and
      collector (their code is not part of this model) and the NAV-PVT field
      layout. */
  datatype Readings = Readings(
    sensorMicros: u32, gpsMicros: u32,
    icmConnected: bool, icm: IcmSample,
    bmpChipId: byte, bmp: BmpSample,
    adxlDeviceId: byte, adxlX: i16, adxlY: i16, adxlZ: i16,
    lsmProbe: Status, lsmCollect: Comms.SensorData -> Comms.SensorData,
    navPvt: seq<byte> -> NavPvt)

  /** What the drivers answer to the re-initialisations in reconnect(). */
  datatype Reinit = Reinit(bmp: bool, adxl: bool, icm: bool, lsm: Status)

  /** `x++` on a uint16_t. */
  function Inc16(x: u16): u16 {
    if x == 0xFFFF then 0 else x + 1
  }

  /** `a - b` on uint32_t. */
  function Sub32(a: u32, b: u32): u32 {
    if a >= b then a - b else ((a as int - b as int) + 0x1_0000_0000) as u32
  }

  function Min(a: nat, b: nat): nat {
    if a <= b then a else b
  }

  //------------------------------------------------------------------------
  // Packet images
  //------------------------------------------------------------------------

  /** The bytes of a packet struct: sync byte, type, the stored checksum
      pair, then the payload. */
  function Image(kind: byte, ck: Fletcher.Sums, payload: seq<byte>): (r: seq<byte>)
    ensures |r| == Comms.HEADER_LENGTH + |payload|
  {
    [Comms.SYNC, kind, ck.a, ck.b] + payload
  }

  /** The bytes of sensor_packet with checksum `ck` and data `d`. */
  function SensorBytes(ck: Fletcher.Sums, d: Comms.SensorData): (r: seq<byte>)
    ensures |r| == SENSOR_PACKET_SIZE
  {
    Image(Comms.TYPE_SENSOR, ck, Comms.EncodeSensor(d))
  }

  /** The bytes of gps_packet with checksum `ck` and data `d`. */
  function GpsBytes(ck: Fletcher.Sums, d: Comms.GpsData): (r: seq<byte>)
    ensures |r| == GPS_PACKET_SIZE
  {
    Image(Comms.TYPE_GPS, ck, Comms.EncodeGps(d))
  }

  function SensorImage(st: ShartState): (r: seq<byte>)
    ensures |r| == SENSOR_PACKET_SIZE
  {
    SensorBytes(st.sensorCk, st.sensor)
  }

  function GpsImage(st: ShartState): (r: seq<byte>)
    ensures |r| == GPS_PACKET_SIZE
  {
    GpsBytes(st.gpsCk, st.gps)
  }

  /** What one output step emits: the sensor packet, then the GPS packet
      when a fix is pending. */
  function Outgoing(sensor: seq<byte>, gps: seq<byte>, gpsReady: bool): seq<byte> {
    sensor + (if gpsReady then gps else [])
  }

  function Emitted(st: ShartState): (r: seq<byte>)
    ensures |r| == SENSOR_PACKET_SIZE + (if st.gpsReady then GPS_PACKET_SIZE else 0)
  {
    Outgoing(SensorImage(st), GpsImage(st), st.gpsReady)
  }

  /** Everything handed to storage so far, written or still buffered, oldest first. */
  function Stored(s: Storage): seq<byte> {
    s.file + s.ring
  }

  //------------------------------------------------------------------------
  // Export: initSD, saveData, transmitData
  //------------------------------------------------------------------------

  /** initSD(). The counter is incremented first; past the budget the card is
      given up without touching it; a successful open truncates the file. */
  function InitSd(s: Storage, c: SdCard): (r: Storage)
    ensures r.sd != UNINITIALIZED
    ensures r.sd == PERMANENTLY_UNAVAILABLE <==> Inc16(s.sdAttempts) as nat > SD_MAX_NUM_CONNECTION_ATTEMPTS
    ensures r.sd == AVAILABLE <==> Inc16(s.sdAttempts) as nat <= SD_MAX_NUM_CONNECTION_ATTEMPTS && Succeeds(c)
    ensures r.sd == AVAILABLE ==> r.sdAttempts == 0 && r.ring == [] && !r.ringError && r.file == []
    ensures r.sd != AVAILABLE ==> r.sdAttempts == Inc16(s.sdAttempts) && r.ring == s.ring && r.ringError == s.ringError
    ensures r.sd == PERMANENTLY_UNAVAILABLE ==> r.file == s.file
  {
    var n := Inc16(s.sdAttempts);
    if n as nat > SD_MAX_NUM_CONNECTION_ATTEMPTS then s.(sdAttempts := n, sd := PERMANENTLY_UNAVAILABLE)
    else if !c.begin || !c.open then s.(sdAttempts := n, sd := UNAVAILABLE)
    else if !c.preAllocate then s.(sdAttempts := n, sd := UNAVAILABLE, file := [])
    else Storage(AVAILABLE, 0, [], false, [])
  }

  /** rb.write(bytes): everything or nothing and the sticky error flag. */
  function RingWrite(s: Storage, bytes: seq<byte>): (r: Storage)
    ensures r == s.(ring := r.ring, ringError := r.ringError)
    ensures Stored(r) == Stored(s) + (if |bytes| <= RING_BUF_CAPACITY - |s.ring| then bytes else [])
    ensures r.ringError == (s.ringError || |bytes| > RING_BUF_CAPACITY - |s.ring|)
  {
    if |bytes| <= RING_BUF_CAPACITY - |s.ring| then
      var r := s.(ring := s.ring + bytes);
      assert Stored(r) == Stored(s) + bytes;
      r
    else s.(ringError := true)
  }

  /** rb.writeOut(k) into the file when k bytes are buffered: the stored
      stream does not change, k bytes move from the buffer to the file. */
  function WriteOut(s: Storage, k: nat): (r: Storage)
    requires k <= |s.ring|
    ensures r == s.(ring := r.ring, file := r.file)
    ensures Stored(r) == Stored(s) && |r.file| == |s.file| + k
  {
    var r := s.(ring := s.ring[k..], file := s.file + s.ring[..k]);
    assert s.ring == s.ring[..k] + s.ring[k..];
    r
  }

  /** The log has no room left for what is buffered. */
  predicate Full(s: Storage) {
    |s.ring| + |s.file| > LOG_FILE_SIZE - FILE_MARGIN
  }

  /** A sector is drained in this call. */
  predicate Drains(s: Storage, fileBusy: bool) {
    |s.ring| >= SECTOR_SIZE && !fileBusy
  }

  /** The appends of saveData: the sensor packet, then the GPS packet if a
      fix is pending, and the write-error check. */
  function AppendPackets(s: Storage, sensor: seq<byte>, gps: seq<byte>, gpsReady: bool): (r: Storage)
    ensures r == s.(sd := r.sd, ring := r.ring, ringError := r.ringError)
    ensures Stored(s) <= Stored(r)
    ensures r.sd == (if r.ringError then UNAVAILABLE else s.sd)
    ensures !s.ringError && |s.ring| + |sensor| + |gps| <= RING_BUF_CAPACITY ==>
              && Stored(r) == Stored(s) + Outgoing(sensor, gps, gpsReady)
              && !r.ringError && r.sd == s.sd
  {
    var s1 := RingWrite(s, sensor);
    var s2 := if gpsReady then RingWrite(s1, gps) else s1;
    if s2.ringError then s2.(sd := UNAVAILABLE) else s2
  }

  /** saveData() on the packet images `sensor` and `gps`; `gpsReady` says
      whether a fix is pending. `fileBusy` is file.isBusy(); `accepted` is
      how many bytes the card takes before a write fails. */
  function Save(s: Storage, fileBusy: bool, accepted: nat, sensor: seq<byte>, gps: seq<byte>, gpsReady: bool): (r: Storage)
    ensures Full(s) ==> r == s.(sd := UNAVAILABLE)
    ensures r.sd == s.sd || r.sd == UNAVAILABLE
    ensures Stored(s) <= Stored(r)
    ensures r.sdAttempts == s.sdAttempts
  {
    if Full(s) then s.(sd := UNAVAILABLE)
    else if Drains(s, fileBusy) && accepted < SECTOR_SIZE then WriteOut(s, accepted).(sd := UNAVAILABLE)
    else
      var drained := if Drains(s, fileBusy) then WriteOut(s, SECTOR_SIZE) else s;
      AppendPackets(drained, sensor, gps, gpsReady)
  }

  /** saveData() on the whole state. */
  function SaveData(st: ShartState, fileBusy: bool, accepted: nat): (r: ShartState)
    ensures r == st.(store := r.store)
  {
    st.(store := Save(st.store, fileBusy, accepted, SensorImage(st), GpsImage(st), st.gpsReady))
  }

  /** transmitData(): the radio receives the sensor packet, then the GPS
      packet when a fix is pending. */
  function TransmitData(st: ShartState): (r: ShartState)
    ensures r.radio == st.radio + Emitted(st) && r == st.(radio := r.radio)
  {
    st.(radio := st.radio + Emitted(st))
  }

  //------------------------------------------------------------------------
  // send
  //------------------------------------------------------------------------

  /** The two packets' checksums recomputed (CHECKSUM on both). */
  function Checksummed(st: ShartState): (r: ShartState)
    ensures SensorImage(r) == SensorFrame(st) && GpsImage(r) == GpsFrame(st)
    ensures r == st.(sensorCk := r.sensorCk, gpsCk := r.gpsCk)
  {
    st.(sensorCk := Fletcher.Checksum(Comms.EncodeSensor(st.sensor)),
        gpsCk := Fletcher.Checksum(Comms.EncodeGps(st.gps)))
  }

  /** The checksummed frames of the two packets. */
  function SensorFrame(st: ShartState): seq<byte> {
    Comms.Encode(Comms.TYPE_SENSOR, Comms.EncodeSensor(st.sensor))
  }

  function GpsFrame(st: ShartState): seq<byte> {
    Comms.Encode(Comms.TYPE_GPS, Comms.EncodeGps(st.gps))
  }

  /** The frames a send() of `st` outputs. */
  function Frames(st: ShartState): seq<byte> {
    SensorFrame(st) + (if st.gpsReady then GpsFrame(st) else [])
  }

  /** send(). */
  function Send(st: ShartState, fileBusy: bool, accepted: nat): (r: ShartState)
    ensures !r.gpsReady
    ensures r.radio == st.radio + Frames(st)
    ensures st.store.sd == PERMANENTLY_UNAVAILABLE ==> r.store == st.store
    ensures r.store.sd == st.store.sd || r.store.sd == UNAVAILABLE
    ensures Stored(st.store) <= Stored(r.store)
    ensures r.bmp == st.bmp && r.icm == st.icm && r.adxl == st.adxl && r.lsm == st.lsm
    ensures r.sensor == st.sensor && r.gps == st.gps && r.receiver == st.receiver
  {
    var c := Checksummed(st);
    var s := if c.store.sd != PERMANENTLY_UNAVAILABLE then SaveData(c, fileBusy, accepted) else c;
    assert Emitted(c) == Frames(st);
    TransmitData(s).(gpsReady := false)
  }

  //------------------------------------------------------------------------
  // Sensors: initialisers, probes, collectors
  //------------------------------------------------------------------------

  /** The status an init* gives: AVAILABLE on driver success, else UNINITIALIZED. */
  function InitStatus(ok: bool): (s: Status)
    ensures s == AVAILABLE <==> ok
    ensures s != AVAILABLE ==> s == UNINITIALIZED
  {
    if ok then AVAILABLE else UNINITIALIZED
  }

  /** The status probing BMP388 or ADXL375 gives: AVAILABLE iff the chip
      answers with its ID, else UNAVAILABLE. */
  function ChipIdStatus(id: byte, expected: byte): (s: Status)
    ensures s == AVAILABLE <==> id == expected
    ensures s != AVAILABLE ==> s == UNAVAILABLE
  {
    if id != expected then UNAVAILABLE else AVAILABLE
  }

  /** collectTime(): both packets stamped with microseconds since init. */
  function CollectTime(st: ShartState, sensorMicros: u32, gpsMicros: u32): (r: ShartState)
    ensures r.sensor == st.sensor.(us := Sub32(sensorMicros, st.chipTimeOffset))
    ensures r.gps == st.gps.(us := Sub32(gpsMicros, st.chipTimeOffset))
    ensures r == st.(sensor := r.sensor, gps := r.gps)
  {
    st.(sensor := st.sensor.(us := Sub32(sensorMicros, st.chipTimeOffset)),
        gps := st.gps.(us := Sub32(gpsMicros, st.chipTimeOffset)))
  }

  function CollectIcm(d: Comms.SensorData, x: IcmSample): Comms.SensorData {
    d.(accX := x.accX, accY := x.accY, accZ := x.accZ,
       gyrX := x.gyrX, gyrY := x.gyrY, gyrZ := x.gyrZ,
       magX := x.magX, magY := x.magY, magZ := x.magZ)
  }

  function CollectBmp(d: Comms.SensorData, x: BmpSample): Comms.SensorData {
    d.(temp := x.temp, pres := x.pres)
  }

  /** collectDataADXL375(): the three ADXL fields are written. */
  function CollectAdxl(d: Comms.SensorData, x: i16, y: i16, z: i16): Comms.SensorData {
    d.(adxlAccX := x, adxlAccY := y, adxlAccZ := z)
  }

  /** The GPS side of the state: the UBX reader, gps_packet and gps_ready. */
  datatype GpsSide = GpsSide(receiver: UbloxGps.Reader, gps: Comms.GpsData, ready: bool)

  /** The fix fields collectDataGTU7 copies into gps_packet, as written:
      veln is written twice, the second time with velD, and veld is never
      written. */
  function StoreFix(g: Comms.GpsData, fix: NavPvt): Comms.GpsData {
    g.(lat := fix.lat).(lon := fix.lon).(alt := fix.alt)
     .(veln := fix.velN).(vele := fix.velE).(veln := fix.velD)
  }

  /** The copy collectDataGTU7 evidently means: each of the six fix fields
      into the gps_packet field of the same name. */
  function StoreFixIntended(g: Comms.GpsData, fix: NavPvt): Comms.GpsData {
    g.(lat := fix.lat, lon := fix.lon, alt := fix.alt,
       veln := fix.velN, vele := fix.velE, veld := fix.velD)
  }

  /** As written: the north velocity is overwritten by the down velocity,
      the down velocity keeps its old value, and the result differs from
      the intended copy whenever the fix moves at all north or down
      differently from what was stored. */
  lemma VelocityMisfiled(g: Comms.GpsData, fix: NavPvt)
    ensures var r := StoreFix(g, fix);
      && r.veln == fix.velD && r.veld == g.veld
      && (fix.velN != fix.velD || fix.velD != g.veld <==> r != StoreFixIntended(g, fix))
  {
  }

  /** Corrected: every fix field lands in its own packet field and no
      other field of gps_packet changes, so the GPS payload carries the
      whole fix. */
  lemma FixCopied(g: Comms.GpsData, fix: NavPvt)
    ensures var r := StoreFixIntended(g, fix);
      && r.lat == fix.lat && r.lon == fix.lon && r.alt == fix.alt
      && r.veln == fix.velN && r.vele == fix.velE && r.veld == fix.velD
      && r.us == g.us && r.eph == g.eph && r.epv == g.epv && r.sacc == g.sacc
      && r.gspeed == g.gspeed && r.pdop == g.pdop
      && r.nsats == g.nsats && r.fixType == g.fixType && r.valid == g.valid && r.flags == g.flags
  {
  }

  /** collectDataGTU7(): one update() of the UBX reader of payload size
      `size` on the bytes `rx` of the GPS port; when a packet is ready it is
      taken, its fix copied into gps_packet as the code writes it (StoreFix;
      see VelocityMisfiled and FixCopied for the intended copy) and
      gps_ready set. */
  function Gtu7(size: nat, receiver: UbloxGps.Reader, g: Comms.GpsData, ready: bool,
                rx: seq<byte>, navPvt: seq<byte> -> NavPvt): (r: GpsSide)
    requires UbloxGps.Good(size, receiver)
    ensures UbloxGps.Good(size, r.receiver) && !r.receiver.ready
    ensures ready ==> r.ready
  {
    var (t, _) := UbloxGps.Run(size, receiver, rx);
    if t.ready then GpsSide(t.(ready := false), StoreFix(g, navPvt(t.packet)), true)
    else GpsSide(t, g, ready)
  }

  function CollectGtu7(st: ShartState, rx: seq<byte>, navPvt: seq<byte> -> NavPvt): (r: ShartState)
    requires Wf(st)
    ensures Wf(r) && r.gpsSize == st.gpsSize && !r.receiver.ready
    ensures r == st.(receiver := r.receiver, gps := r.gps, gpsReady := r.gpsReady)
  {
    var g := Gtu7(st.gpsSize, st.receiver, st.gps, st.gpsReady, rx, navPvt);
    st.(receiver := g.receiver, gps := g.gps, gpsReady := g.ready)
  }

  /** How many bytes of the GPS port update() takes. */
  function GpsConsumed(st: ShartState, rx: seq<byte>): (k: nat)
    requires Wf(st)
    ensures k <= |rx|
  {
    UbloxGps.Run(st.gpsSize, st.receiver, rx).1
  }

  /** The collectors of collect() on sensor_packet: each runs exactly when
      its probe, just before it, says AVAILABLE. */
  function CollectSensorData(d: Comms.SensorData, x: Readings): Comms.SensorData {
    var d1 := if InitStatus(x.icmConnected) == AVAILABLE then CollectIcm(d, x.icm) else d;
    var d2 := if ChipIdStatus(x.bmpChipId, BMP_CHIP_ID) == AVAILABLE then CollectBmp(d1, x.bmp) else d1;
    var d3 := if ChipIdStatus(x.adxlDeviceId, ADXL_CHIP_ID) == AVAILABLE then CollectAdxl(d2, x.adxlX, x.adxlY, x.adxlZ) else d2;
    if x.lsmProbe == AVAILABLE then x.lsmCollect(d3) else d3
  }

  /** Probe and, when the probe says AVAILABLE, collect: the sensor part of
      collect(). */
  function CollectSensors(st: ShartState, x: Readings): (r: ShartState)
    ensures r == st.(icm := r.icm, bmp := r.bmp, adxl := r.adxl, lsm := r.lsm, sensor := r.sensor)
    ensures r.icm == InitStatus(x.icmConnected)
    ensures r.bmp == ChipIdStatus(x.bmpChipId, BMP_CHIP_ID)
    ensures r.adxl == ChipIdStatus(x.adxlDeviceId, ADXL_CHIP_ID)
    ensures r.lsm == x.lsmProbe
  {
    st.(icm := InitStatus(x.icmConnected), bmp := ChipIdStatus(x.bmpChipId, BMP_CHIP_ID),
        adxl := ChipIdStatus(x.adxlDeviceId, ADXL_CHIP_ID), lsm := x.lsmProbe,
        sensor := CollectSensorData(st.sensor, x))
  }

  /** collect(). */
  function Collect(st: ShartState, x: Readings, rx: seq<byte>): (r: ShartState)
    requires Wf(st)
    ensures Wf(r) && r.gpsSize == st.gpsSize
    ensures r.icm == InitStatus(x.icmConnected) && r.lsm == x.lsmProbe
    ensures r.bmp == ChipIdStatus(x.bmpChipId, BMP_CHIP_ID) && r.adxl == ChipIdStatus(x.adxlDeviceId, ADXL_CHIP_ID)
    ensures r.store == st.store && r.bno == st.bno && r.radio == st.radio
  {
    CollectGtu7(CollectSensors(CollectTime(st, x.sensorMicros, x.gpsMicros), x), rx, x.navPvt)
  }

  //------------------------------------------------------------------------
  // reconnect, threadedReconnect, getSystemStatus, maybeFinish
  //------------------------------------------------------------------------

  /** reconnect(). `attempt` says whether ATTEMPT_RECONNECT is defined. */
  function Reconnect(st: ShartState, attempt: bool, x: Reinit): (r: ShartState)
    ensures r == st.(bmp := r.bmp, adxl := r.adxl, icm := r.icm, lsm := r.lsm)
  {
    st.(bmp := Retry(attempt, st.bmp, InitStatus(x.bmp)),
        adxl := Retry(attempt, st.adxl, InitStatus(x.adxl)),
        icm := Retry(attempt, st.icm, InitStatus(x.icm)),
        lsm := Retry(attempt, st.lsm, x.lsm))
  }

  /** One line of reconnect(): the device is re-initialised only when
      reconnection is compiled in and the device was never brought up. */
  function Retry(attempt: bool, s: Status, init: Status): Status {
    if attempt && s == UNINITIALIZED then init else s
  }

  /** threadedReconnect(): only an UNAVAILABLE card is re-initialised. */
  function ThreadedReconnect(s: Storage, c: SdCard): (r: Storage)
    ensures s.sd != UNAVAILABLE ==> r == s
    ensures s.sd == UNAVAILABLE ==> r == InitSd(s, c)
  {
    if s.sd == UNAVAILABLE then InitSd(s, c) else s
  }

  /** getSystemStatus(): the four monitored devices are all AVAILABLE. */
  predicate SystemOk(st: ShartState) {
    st.bmp == AVAILABLE && st.icm == AVAILABLE && st.adxl == AVAILABLE && st.store.sd == AVAILABLE
  }

  /** The frame a ground station sends to stop logging. */
  function StopFrame(): (r: seq<byte>)
    ensures |r| == Comms.HEADER_LENGTH + Comms.COMMAND_DATA_SIZE
  {
    Comms.Encode(Comms.TYPE_COMMAND, Comms.EncodeCommand(Comms.CommandData(Comms.STOP_COMMAND)))
  }

  /** The decision in maybeFinish(): a command packet was received and its
      command is STOP_COMMAND. */
  predicate StopRequested(rx: seq<byte>) {
    var r := Comms.Receive(Comms.TYPE_COMMAND, Comms.COMMAND_DATA_SIZE, rx);
    r.Accepted? && Comms.DecodeCommand(r.data).command == Comms.STOP_COMMAND
  }

  //------------------------------------------------------------------------
  // Properties
  //------------------------------------------------------------------------

  /** initSD applied to a sequence of card answers. */
  function InitSdAll(s: Storage, cs: seq<SdCard>): Storage
    decreases |cs|
  {
    if cs == [] then s else InitSdAll(InitSd(s, cs[0]), cs[1..])
  }

  /** Consecutive unsuccessful initSD calls count up (short of the uint16
      wrap) and the status is PERMANENTLY_UNAVAILABLE exactly when the count
      passes the budget: after MAX + 1 failures from a fresh start the card
      is given up for good. */
  lemma {:induction false} FailedInitsExhaustBudget(s: Storage, cs: seq<SdCard>)
    requires forall i | 0 <= i < |cs| :: !Succeeds(cs[i])
    requires s.sdAttempts as int + |cs| <= 0xFFFF
    ensures InitSdAll(s, cs).sdAttempts as int == s.sdAttempts as int + |cs|
    ensures |cs| > 0 ==>
              (InitSdAll(s, cs).sd == PERMANENTLY_UNAVAILABLE
               <==> s.sdAttempts as int + |cs| > SD_MAX_NUM_CONNECTION_ATTEMPTS)
    ensures |cs| > 0 ==> InitSdAll(s, cs).sd != AVAILABLE
    decreases |cs|
  {
    if cs != [] {
      var s1 := InitSd(s, cs[0]);
      assert s1.sdAttempts as int == s.sdAttempts as int + 1;
      FailedInitsExhaustBudget(s1, cs[1..]);
      if |cs| == 1 {
        assert cs[1..] == [];
      }
    }
  }

  /** A successful initSD within the budget restores a fresh card: counter
      0, empty buffer and empty file. */
  lemma SuccessfulInitResets(s: Storage, c: SdCard)
    requires Succeeds(c) && s.sdAttempts as nat < SD_MAX_NUM_CONNECTION_ATTEMPTS
    ensures var r := InitSd(s, c);
      r.sd == AVAILABLE && r.sdAttempts == 0 && Stored(r) == [] && !r.ringError
  {
  }

  /** threadedReconnect never touches a card in any other state than
      UNAVAILABLE; in particular PERMANENTLY_UNAVAILABLE is never left, and
      the other operations of a cycle leave the storage alone. */
  lemma PermanentIsTerminal(st: ShartState, c: SdCard, x: Readings, rx: seq<byte>, attempt: bool,
                            re: Reinit, fileBusy: bool, accepted: nat)
    requires Wf(st) && st.store.sd == PERMANENTLY_UNAVAILABLE
    ensures ThreadedReconnect(st.store, c) == st.store
    ensures Reconnect(st, attempt, re).store == st.store
    ensures Collect(st, x, rx).store == st.store
    ensures Send(st, fileBusy, accepted).store == st.store
  {
  }

  /** The saveData decision sequence when nothing goes wrong: a full sector
      is drained exactly when 512 bytes are buffered and the file is idle,
      and the sensor packet, then the GPS packet if a fix is pending, join
      the stored stream. */
  lemma SaveDataAppends(st: ShartState, fileBusy: bool, accepted: nat)
    requires !Full(st.store) && !st.store.ringError
    requires Drains(st.store, fileBusy) ==> accepted >= SECTOR_SIZE
    ensures var r := SaveData(st, fileBusy, accepted).store;
      && Stored(r) == Stored(st.store) + Emitted(st)
      && r.sd == st.store.sd && !r.ringError
      && |r.file| == |st.store.file| + (if Drains(st.store, fileBusy) then SECTOR_SIZE else 0)
  {
    SaveAppends(st.store, fileBusy, accepted, SensorImage(st), GpsImage(st), st.gpsReady);
  }

  lemma SaveAppends(s: Storage, fileBusy: bool, accepted: nat, sensor: seq<byte>, gps: seq<byte>, gpsReady: bool)
    requires !Full(s) && !s.ringError && |sensor| + |gps| <= SENSOR_PACKET_SIZE + GPS_PACKET_SIZE
    requires Drains(s, fileBusy) ==> accepted >= SECTOR_SIZE
    ensures var r := Save(s, fileBusy, accepted, sensor, gps, gpsReady);
      && Stored(r) == Stored(s) + Outgoing(sensor, gps, gpsReady)
      && r.sd == s.sd && !r.ringError
      && |r.file| == |s.file| + (if Drains(s, fileBusy) then SECTOR_SIZE else 0)
  {
    var drained := if Drains(s, fileBusy) then WriteOut(s, SECTOR_SIZE) else s;
    var r := AppendPackets(drained, sensor, gps, gpsReady);
    assert Stored(r) == Stored(s) + Outgoing(sensor, gps, gpsReady);
  }

  /** A short writeOut gives the card up for this call: nothing is appended
      to the buffer and the status is UNAVAILABLE. */
  lemma ShortWriteOutAppendsNothing(s: Storage, fileBusy: bool, accepted: nat, sensor: seq<byte>, gps: seq<byte>, gpsReady: bool)
    requires !Full(s) && Drains(s, fileBusy) && accepted < SECTOR_SIZE
    ensures var r := Save(s, fileBusy, accepted, sensor, gps, gpsReady);
      r.sd == UNAVAILABLE && Stored(r) == Stored(s) && r.file == s.file + s.ring[..accepted]
  {
  }

  /** The storage invariant: the file never grows past the fullness limit,
      and file plus buffer exceed it by at most one sensor and one GPS
      packet. */
  predicate Bounded(s: Storage) {
    |s.file| <= LOG_FILE_SIZE - FILE_MARGIN
    && |s.ring| + |s.file| <= LOG_FILE_SIZE - FILE_MARGIN + SENSOR_PACKET_SIZE + GPS_PACKET_SIZE
  }

  /** The invariant holds after every operation, and under it the ring
      buffer never overflows: the "Write error!" branch of saveData is
      reachable only from an error raised before. */
  lemma StorageStaysBounded(st: ShartState, c: SdCard, x: Readings, rx: seq<byte>, attempt: bool,
                            re: Reinit, fileBusy: bool, accepted: nat)
    requires Wf(st) && Bounded(st.store)
    ensures Bounded(InitSd(st.store, c)) && Bounded(ThreadedReconnect(st.store, c))
    ensures Bounded(Collect(st, x, rx).store) && Bounded(Reconnect(st, attempt, re).store)
    ensures Bounded(SaveData(st, fileBusy, accepted).store) && Bounded(Send(st, fileBusy, accepted).store)
    ensures !st.store.ringError ==>
              !SaveData(st, fileBusy, accepted).store.ringError && !Send(st, fileBusy, accepted).store.ringError
  {
    InitBounded(st.store, c);
    CycleBounded(st, x, rx, attempt, re);
    SaveBounded(st.store, fileBusy, accepted, SensorImage(st), GpsImage(st), st.gpsReady);
    SendBounded(st, fileBusy, accepted);
  }

  /** initSD and threadedReconnect keep the storage invariant. */
  lemma InitBounded(s: Storage, c: SdCard)
    requires Bounded(s)
    ensures Bounded(InitSd(s, c)) && Bounded(ThreadedReconnect(s, c))
  {
  }

  /** collect and reconnect do not touch storage. */
  lemma CycleBounded(st: ShartState, x: Readings, rx: seq<byte>, attempt: bool, re: Reinit)
    requires Wf(st) && Bounded(st.store)
    ensures Bounded(Collect(st, x, rx).store) && Bounded(Reconnect(st, attempt, re).store)
  {
  }

  /** send keeps the storage invariant and raises no new write error. */
  lemma SendBounded(st: ShartState, fileBusy: bool, accepted: nat)
    requires Bounded(st.store)
    ensures Bounded(Send(st, fileBusy, accepted).store)
    ensures !st.store.ringError ==> !Send(st, fileBusy, accepted).store.ringError
  {
    var c := Checksummed(st);
    SaveBounded(c.store, fileBusy, accepted, SensorImage(c), GpsImage(c), c.gpsReady);
  }

  lemma SaveBounded(s: Storage, fileBusy: bool, accepted: nat, sensor: seq<byte>, gps: seq<byte>, gpsReady: bool)
    requires Bounded(s) && |sensor| == SENSOR_PACKET_SIZE && |gps| == GPS_PACKET_SIZE
    ensures Bounded(Save(s, fileBusy, accepted, sensor, gps, gpsReady))
    ensures !s.ringError ==> !Save(s, fileBusy, accepted, sensor, gps, gpsReady).ringError
  {
    if !Full(s) && !(Drains(s, fileBusy) && accepted < SECTOR_SIZE) {
      var drained := if Drains(s, fileBusy) then WriteOut(s, SECTOR_SIZE) else s;
      assert |drained.ring| + |drained.file| == |s.ring| + |s.file|;
    }
  }

  /** A healthy send puts the same frames on the radio and into storage,
      each a checksummed frame the reader accepts. */
  lemma SendHealthy(st: ShartState, fileBusy: bool, accepted: nat)
    requires st.store.sd != PERMANENTLY_UNAVAILABLE && !Full(st.store) && !st.store.ringError
    requires Drains(st.store, fileBusy) ==> accepted >= SECTOR_SIZE
    ensures var r := Send(st, fileBusy, accepted);
      && Stored(r.store) == Stored(st.store) + Frames(st)
      && r.radio == st.radio + Frames(st)
      && r.store.sd == st.store.sd && !r.store.ringError
  {
    var c := Checksummed(st);
    assert Emitted(c) == Frames(st);
    SaveDataAppends(c, fileBusy, accepted);
  }

  /** Three healthy cycles with a GPS fix arriving only before the second:
      storage and radio both receive sensor, sensor, GPS, sensor, in that
      order, and the fix is sent once. */
  lemma ThreeCycles(st: ShartState, fileBusy: seq<bool>)
    requires |fileBusy| == 3 && st.store.sd == AVAILABLE && !st.store.ringError && !st.gpsReady
    requires |st.store.ring| + |st.store.file| + 2 * (SENSOR_PACKET_SIZE + GPS_PACKET_SIZE) <= LOG_FILE_SIZE - FILE_MARGIN
    ensures var s1 := Send(st, fileBusy[0], SECTOR_SIZE);
      var s2 := Send(s1.(gpsReady := true), fileBusy[1], SECTOR_SIZE);
      var s3 := Send(s2, fileBusy[2], SECTOR_SIZE);
      var sensor, gps := SensorFrame(st), GpsFrame(st);
      && Stored(s3.store) == Stored(st.store) + sensor + sensor + gps + sensor
      && s3.radio == st.radio + sensor + sensor + gps + sensor
      && s3.store.sd == AVAILABLE && !s3.gpsReady
  {
    var sensor, gps := SensorFrame(st), GpsFrame(st);
    var s1 := Send(st, fileBusy[0], SECTOR_SIZE);
    SendHealthy(st, fileBusy[0], SECTOR_SIZE);
    assert Frames(st) == sensor;
    var t1 := s1.(gpsReady := true);
    assert Frames(t1) == sensor + gps;
    SendHealthy(t1, fileBusy[1], SECTOR_SIZE);
    var s2 := Send(t1, fileBusy[1], SECTOR_SIZE);
    assert Frames(s2) == sensor;
    SendHealthy(s2, fileBusy[2], SECTOR_SIZE);
    Append3(Stored(st.store) + sensor, sensor, gps);
    Append3(st.radio + sensor, sensor, gps);
  }

  lemma Append3(a: seq<byte>, b: seq<byte>, c: seq<byte>)
    ensures a + (b + c) == a + b + c
  {
  }

  /** Each collector runs exactly when its probe, just before it, says
      AVAILABLE: the ADXL375 fields take the sample iff the device ID
      matches (the LSM6DSO32 collector, whose effect is not part of this
      model, is taken not to run). */
  lemma AdxlCollectedIffAvailable(st: ShartState, x: Readings)
    requires x.lsmProbe != AVAILABLE
    ensures var d := CollectSensors(st, x).sensor;
      if x.adxlDeviceId == ADXL_CHIP_ID
      then d.adxlAccX == x.adxlX && d.adxlAccY == x.adxlY && d.adxlAccZ == x.adxlZ
      else d.adxlAccX == st.sensor.adxlAccX && d.adxlAccY == st.sensor.adxlAccY && d.adxlAccZ == st.sensor.adxlAccZ
  {
  }

  /** ... and the ICM-20948 and BMP388 fields likewise. */
  lemma IcmBmpCollectedIffAvailable(st: ShartState, x: Readings)
    requires x.lsmProbe != AVAILABLE
    ensures var d := CollectSensors(st, x).sensor;
      && (d.accX == if x.icmConnected then x.icm.accX else st.sensor.accX)
      && (d.accY == if x.icmConnected then x.icm.accY else st.sensor.accY)
      && (d.accZ == if x.icmConnected then x.icm.accZ else st.sensor.accZ)
      && (d.gyrX == if x.icmConnected then x.icm.gyrX else st.sensor.gyrX)
      && (d.gyrY == if x.icmConnected then x.icm.gyrY else st.sensor.gyrY)
      && (d.gyrZ == if x.icmConnected then x.icm.gyrZ else st.sensor.gyrZ)
      && (d.magX == if x.icmConnected then x.icm.magX else st.sensor.magX)
      && (d.magY == if x.icmConnected then x.icm.magY else st.sensor.magY)
      && (d.magZ == if x.icmConnected then x.icm.magZ else st.sensor.magZ)
      && (d.temp == if x.bmpChipId == BMP_CHIP_ID then x.bmp.temp else st.sensor.temp)
      && (d.pres == if x.bmpChipId == BMP_CHIP_ID then x.bmp.pres else st.sensor.pres)
      && d.us == st.sensor.us && d.status == st.sensor.status
  {
  }

  /** The GPS collector runs every cycle whatever the statuses: the reader
      consumes the port the same way, and gps_ready is set exactly when a
      fix was taken, with the fix copied as the code writes it: veln ends
      as the down velocity and veld keeps its old value. */
  lemma GpsCollectedEveryCycle(st: ShartState, x: Readings, rx: seq<byte>)
    requires Wf(st)
    ensures var r := Collect(st, x, rx);
      var (t, _) := UbloxGps.Run(st.gpsSize, st.receiver, rx);
      var fix := x.navPvt(t.packet);
      && r.receiver == t.(ready := false)
      && (t.ready ==> r.gpsReady && r.gps.lat == fix.lat && r.gps.lon == fix.lon && r.gps.alt == fix.alt
                      && r.gps.vele == fix.velE && r.gps.veln == fix.velD && r.gps.veld == st.gps.veld)
      && (!t.ready ==> r.gpsReady == st.gpsReady && r.gps == st.gps.(us := Sub32(x.gpsMicros, st.chipTimeOffset)))
      && r.gps.us == Sub32(x.gpsMicros, st.chipTimeOffset)
  {
  }

  /** No probe or initialiser of the BMP388, ICM-20948 or ADXL375 produces
      PERMANENTLY_UNAVAILABLE; an ICM that drops out becomes UNINITIALIZED
      and is re-initialised by the next reconnect, while a BMP388 or ADXL375
      that fails its probe is UNAVAILABLE and is left to its next probe. */
  lemma ProbesAndReconnects(st: ShartState, x: Readings, rx: seq<byte>, re: Reinit)
    requires Wf(st)
    ensures var c := Collect(st, x, rx);
      var r := Reconnect(c, true, re);
      && c.bmp != PERMANENTLY_UNAVAILABLE && c.icm != PERMANENTLY_UNAVAILABLE && c.adxl != PERMANENTLY_UNAVAILABLE
      && r.bmp != PERMANENTLY_UNAVAILABLE && r.icm != PERMANENTLY_UNAVAILABLE && r.adxl != PERMANENTLY_UNAVAILABLE
      && (!x.icmConnected ==> r.icm == InitStatus(re.icm))
      && (x.bmpChipId != BMP_CHIP_ID ==> r.bmp == UNAVAILABLE)
      && (x.adxlDeviceId != ADXL_CHIP_ID ==> r.adxl == UNAVAILABLE)
      && (x.icmConnected ==> r.icm == AVAILABLE)
  {
  }

  /** reconnect re-initialises exactly the UNINITIALIZED devices, and only
      when reconnection is compiled in. */
  lemma ReconnectOnlyUninitialized(st: ShartState, attempt: bool, re: Reinit)
    ensures var r := Reconnect(st, attempt, re);
      && r.bmp == (if attempt && st.bmp == UNINITIALIZED then InitStatus(re.bmp) else st.bmp)
      && r.adxl == (if attempt && st.adxl == UNINITIALIZED then InitStatus(re.adxl) else st.adxl)
      && r.icm == (if attempt && st.icm == UNINITIALIZED then InitStatus(re.icm) else st.icm)
      && r.lsm == (if attempt && st.lsm == UNINITIALIZED then re.lsm else st.lsm)
  {
  }

  /** getSystemStatus after a collect: true iff the card is AVAILABLE and
      the three monitored chips answer their probes. */
  lemma SystemOkAfterCollect(st: ShartState, x: Readings, rx: seq<byte>)
    requires Wf(st)
    ensures SystemOk(Collect(st, x, rx)) <==>
              st.store.sd == AVAILABLE && x.icmConnected && x.bmpChipId == BMP_CHIP_ID && x.adxlDeviceId == ADXL_CHIP_ID
  {
  }

  /** maybeFinish stops exactly on an intact stop frame at the head of the
      port. */
  lemma StopRequestedIffStopFrame(rx: seq<byte>)
    ensures StopRequested(rx) <==> |rx| >= |StopFrame()| && rx[..|StopFrame()|] == StopFrame()
  {
    var n := |StopFrame()|;
    var stop := Comms.EncodeCommand(Comms.CommandData(Comms.STOP_COMMAND));
    if StopRequested(rx) {
      var r := Comms.Receive(Comms.TYPE_COMMAND, Comms.COMMAND_DATA_SIZE, rx);
      assert Comms.EncodeCommand(Comms.DecodeCommand(r.data)) == r.data;
      assert Comms.DecodeCommand(r.data) == Comms.CommandData(Comms.STOP_COMMAND);
      assert r.data == stop;
    }
    if |rx| >= n && rx[..n] == StopFrame() {
      assert rx == StopFrame() + rx[n..];
      Comms.ReceiveEncoded(Comms.TYPE_COMMAND, stop, rx[n..]);
      Comms.CommandRoundTrip(Comms.CommandData(Comms.STOP_COMMAND));
    }
  }

  /** A start command, or any other command, does not stop the logger. */
  lemma OtherCommandsDoNotStop(command: i32, rest: seq<byte>)
    requires command != Comms.STOP_COMMAND
    ensures !StopRequested(Comms.Encode(Comms.TYPE_COMMAND, Comms.EncodeCommand(Comms.CommandData(command))) + rest)
  {
    var data := Comms.EncodeCommand(Comms.CommandData(command));
    Comms.ReceiveEncoded(Comms.TYPE_COMMAND, data, rest);
    Comms.CommandRoundTrip(Comms.CommandData(command));
  }
}
