/** The Shart singleton as an object: its fields, and every method proved
    to change them as the corresponding function of ShartModel says. */
module Shart {
  import opened Bytes
  import Fletcher
  import Comms
  import UbloxGps
  import opened ShartModel

  class Shart {
    var bmpStatus: Status
    var bnoStatus: Status
    var icmStatus: Status
    var adxlStatus: Status
    var lsmStatus: Status
    var sdStatus: Status
    var sdNumConnectionAttempts: u16
    /** SdFat's RingBuf rb: its buffered bytes, oldest first, and its
        sticky write-error flag. */
    var ring: seq<byte>
    var ringError: bool
    /** The log file's contents; file.curPosition() is its length. */
    var file: seq<byte>
    /** Every byte written to the radio port. */
    var radio: seq<byte>
    var gpsReady: bool
    var sensorPacket: Comms.SensorData
    var sensorCk: Fletcher.Sums
    var gpsPacket: Comms.GpsData
    var gpsCk: Fletcher.Sums
    var chipTimeOffset: u32
    const gps: UbloxGps.UbloxGps

    ghost predicate Valid()
      reads gps
    {
      gps.Valid()
    }

    /** The storage side: SD status, retry counter, ring buffer and file. */
    ghost function Store(): Storage
      reads this
    {
      Storage(sdStatus, sdNumConnectionAttempts, ring, ringError, file)
    }

    /** The whole object as a value of the model. */
    ghost function State(): (r: ShartState)
      reads this, gps, gps.data
      ensures Valid() ==> Wf(r)
    {
      ShartState(bmpStatus, bnoStatus, icmStatus, adxlStatus, lsmStatus, Store(), radio, gpsReady,
                 sensorPacket, sensorCk, gpsPacket, gpsCk, chipTimeOffset, gps.size, gps.State())
    }

    /** The initial field values: every status UNINITIALIZED, no SD attempt
        yet, no fix pending, zeroed packets, empty buffer, file and radio.
        `gpsSize` is sizeof(NavPvtPacket); `offset` is the micros() reading
        init() takes. */
    constructor (gpsSize: nat, offset: u32)
      requires 1 <= gpsSize <= UbloxGps.MAX_SIZE
      ensures Valid() && fresh(gps) && fresh(gps.data)
      ensures var s := State();
        && s.bmp == UNINITIALIZED && s.bno == UNINITIALIZED && s.icm == UNINITIALIZED
        && s.adxl == UNINITIALIZED && s.lsm == UNINITIALIZED
        && s.store == Storage(UNINITIALIZED, 0, [], false, []) && !s.gpsReady && s.radio == []
        && s.sensor == Comms.ZeroSensor && s.gps == Comms.ZeroGps
        && s.chipTimeOffset == offset && s.gpsSize == gpsSize && s.receiver.p == 0 && !s.receiver.ready
        && Bounded(s.store)
    {
      bmpStatus, bnoStatus, icmStatus := UNINITIALIZED, UNINITIALIZED, UNINITIALIZED;
      adxlStatus, lsmStatus, sdStatus := UNINITIALIZED, UNINITIALIZED, UNINITIALIZED;
      sdNumConnectionAttempts := 0;
      ring, ringError := [], false;
      file, radio := [], [];
      gpsReady := false;
      sensorPacket, sensorCk := Comms.ZeroSensor, Fletcher.Sums(0, 0);
      gpsPacket, gpsCk := Comms.ZeroGps, Fletcher.Sums(0, 0);
      chipTimeOffset := offset;
      gps := new UbloxGps.UbloxGps(gpsSize);
    }

    //----------------------------------------------------------------------
    // Export
    //----------------------------------------------------------------------

    /** initSD(). */
    method InitSD(c: SdCard)
      requires Valid()
      modifies this`sdNumConnectionAttempts, this`sdStatus, this`file, this`ring, this`ringError
      ensures Valid() && Store() == InitSd(old(Store()), c)
    {
      sdNumConnectionAttempts := Inc16(sdNumConnectionAttempts);
      if sdNumConnectionAttempts as nat > SD_MAX_NUM_CONNECTION_ATTEMPTS {
        sdStatus := PERMANENTLY_UNAVAILABLE;
        return;
      }
      if !c.begin {
        sdStatus := UNAVAILABLE;
        return;
      }
      if !c.open {
        sdStatus := UNAVAILABLE;
        return;
      }
      file := [];  // opened with O_TRUNC
      if !c.preAllocate {
        sdStatus := UNAVAILABLE;
        return;
      }
      sdNumConnectionAttempts := 0;
      ring, ringError := [], false;  // rb.begin()
      sdStatus := AVAILABLE;
    }

    /** saveData(). */
    method SaveData(fileBusy: bool, accepted: nat)
      modifies this`sdStatus, this`file, this`ring, this`ringError
      ensures Store() == Save(old(Store()), fileBusy, accepted, old(SensorBytes(sensorCk, sensorPacket)),
                              old(GpsBytes(gpsCk, gpsPacket)), old(gpsReady))
    {
      var sensorImage := SensorBytes(sensorCk, sensorPacket);
      var gpsImage := GpsBytes(gpsCk, gpsPacket);
      if |ring| + |file| > LOG_FILE_SIZE - FILE_MARGIN {
        sdStatus := UNAVAILABLE;
        return;
      }
      if |ring| >= SECTOR_SIZE && !fileBusy {
        var n := RingWriteOut(SECTOR_SIZE, accepted);
        if n != SECTOR_SIZE {
          sdStatus := UNAVAILABLE;
          return;
        }
      }
      WritePackets(sensorImage, gpsImage);
    }

    /** The tail of saveData(): both packets into the ring buffer, then the
        write-error check. */
    method WritePackets(sensorImage: seq<byte>, gpsImage: seq<byte>)
      modifies this`sdStatus, this`ring, this`ringError
      ensures Store() == AppendPackets(old(Store()), sensorImage, gpsImage, gpsReady)
    {
      RingWrite(sensorImage);
      if gpsReady {
        RingWrite(gpsImage);
      }
      if ringError {
        sdStatus := UNAVAILABLE;
      }
    }

    /** rb.write(bytes): all of `bytes` when it fits, else nothing and the
        write error. */
    method RingWrite(bytes: seq<byte>)
      modifies this`ring, this`ringError
      ensures Store() == ShartModel.RingWrite(old(Store()), bytes)
    {
      if |bytes| <= RING_BUF_CAPACITY - |ring| {
        ring := ring + bytes;
      } else {
        ringError := true;
      }
    }

    /** rb.writeOut(n) with a card that takes `accepted` bytes: the bytes
        that reach the file leave the buffer. Returns their number. */
    method RingWriteOut(n: nat, accepted: nat) returns (k: nat)
      requires n <= |ring|
      modifies this`ring, this`file
      ensures k == Min(n, accepted) && Store() == WriteOut(old(Store()), k)
    {
      k := Min(n, accepted);
      file := file + ring[..k];
      ring := ring[k..];
    }

    /** transmitData(). */
    method TransmitData()
      modifies this`radio
      ensures radio == old(radio) + old(Outgoing(SensorBytes(sensorCk, sensorPacket), GpsBytes(gpsCk, gpsPacket), gpsReady))
    {
      var sensorImage := SensorBytes(sensorCk, sensorPacket);
      var gpsImage := GpsBytes(gpsCk, gpsPacket);
      radio := radio + sensorImage;
      if gpsReady {
        radio := radio + gpsImage;
      }
      Append3(old(radio), sensorImage, if gpsReady then gpsImage else []);
    }

    method GetStatusSD() returns (s: Status)
      ensures s == sdStatus
    {
      s := sdStatus;
    }

    //----------------------------------------------------------------------
    // The cycle
    //----------------------------------------------------------------------

    /** send(): checksums first, then storage unless the card is given up,
        then the radio; the pending fix is dropped in every case. The new
        state is the model's send() of the old one. */
    method Send(fileBusy: bool, accepted: nat)
      requires Valid()
      modifies this`sensorCk, this`gpsCk, this`sdStatus, this`file, this`radio, this`gpsReady, this`ring, this`ringError
      ensures Valid()
      ensures var r := ShartModel.Send(old(State()), fileBusy, accepted);
        && sensorCk == r.sensorCk && gpsCk == r.gpsCk && Store() == r.store && radio == r.radio && gpsReady == r.gpsReady
    {
      ghost var st := State();
      ghost var c := Checksummed(st);
      ghost var s := if c.store.sd != PERMANENTLY_UNAVAILABLE then ShartModel.SaveData(c, fileBusy, accepted) else c;
      ghost var r := ShartModel.Send(st, fileBusy, accepted);
      sensorCk := Fletcher.Checksum(Comms.EncodeSensor(sensorPacket));
      gpsCk := Fletcher.Checksum(Comms.EncodeGps(gpsPacket));
      assert sensorCk == c.sensorCk && gpsCk == c.gpsCk && Store() == c.store;
      var sd := GetStatusSD();
      if sd != PERMANENTLY_UNAVAILABLE {
        SaveData(fileBusy, accepted);
      }
      assert Store() == s.store && radio == s.radio;
      assert Emitted(s) == Outgoing(SensorBytes(sensorCk, sensorPacket), GpsBytes(gpsCk, gpsPacket), gpsReady);
      TransmitData();
      gpsReady := false;
    }

    /** collect(): time stamps, then each sensor probed and, if AVAILABLE,
        read; then the GPS port, whatever the statuses. */
    method Collect(x: Readings, port: Comms.SerialPort)
      requires Valid()
      modifies this`sensorPacket, this`gpsPacket, this`gpsReady, gps, gps.data, port
      modifies this`icmStatus, this`bmpStatus, this`adxlStatus, this`lsmStatus
      ensures Valid()
      ensures icmStatus == InitStatus(x.icmConnected) && lsmStatus == x.lsmProbe
      ensures bmpStatus == ChipIdStatus(x.bmpChipId, BMP_CHIP_ID) && adxlStatus == ChipIdStatus(x.adxlDeviceId, ADXL_CHIP_ID)
      ensures sensorPacket == CollectSensorData(old(sensorPacket).(us := Sub32(x.sensorMicros, chipTimeOffset)), x)
      ensures var g := Gtu7(gps.size, old(gps.State()), old(gpsPacket).(us := Sub32(x.gpsMicros, chipTimeOffset)),
                            old(gpsReady), old(port.rx), x.navPvt);
        gps.State() == g.receiver && gpsPacket == g.gps && gpsReady == g.ready
      ensures port.rx == old(port.rx)[UbloxGps.Run(gps.size, old(gps.State()), old(port.rx)).1..] && port.tx == old(port.tx)
    {
      CollectTime(x.sensorMicros, x.gpsMicros);
      ghost var g := Gtu7(gps.size, gps.State(), gpsPacket, gpsReady, port.rx, x.navPvt);
      CollectSensors(x);
      CollectDataGTU7(port, x.navPvt);
    }

    /** The sensor part of collect(): each probe, then its collector when
        the probe says AVAILABLE. */
    method CollectSensors(x: Readings)
      modifies this`sensorPacket, this`icmStatus, this`bmpStatus, this`adxlStatus, this`lsmStatus
      ensures icmStatus == InitStatus(x.icmConnected) && lsmStatus == x.lsmProbe
      ensures bmpStatus == ChipIdStatus(x.bmpChipId, BMP_CHIP_ID) && adxlStatus == ChipIdStatus(x.adxlDeviceId, ADXL_CHIP_ID)
      ensures sensorPacket == CollectSensorData(old(sensorPacket), x)
    {
      ghost var target := CollectSensorData(sensorPacket, x);
      UpdateStatusICM20948(x.icmConnected);
      if icmStatus == AVAILABLE {
        CollectDataICM20948(x.icm);
      }
      UpdateStatusBMP388(x.bmpChipId);
      if bmpStatus == AVAILABLE {
        CollectDataBMP388(x.bmp);
      }
      UpdateStatusADXL375(x.adxlDeviceId);
      if adxlStatus == AVAILABLE {
        CollectDataADXL375(x.adxlX, x.adxlY, x.adxlZ);
      }
      lsmStatus := x.lsmProbe;
      if lsmStatus == AVAILABLE {
        sensorPacket := x.lsmCollect(sensorPacket);
      }
    }

    /** reconnect(). `attempt` says whether ATTEMPT_RECONNECT is defined. */
    method Reconnect(attempt: bool, re: Reinit)
      modifies this`bmpStatus, this`adxlStatus, this`icmStatus, this`lsmStatus
      ensures bmpStatus == Retry(attempt, old(bmpStatus), InitStatus(re.bmp))
      ensures adxlStatus == Retry(attempt, old(adxlStatus), InitStatus(re.adxl))
      ensures icmStatus == Retry(attempt, old(icmStatus), InitStatus(re.icm))
      ensures lsmStatus == Retry(attempt, old(lsmStatus), re.lsm)
    {
      if attempt {
        var s := GetStatusBMP388();
        if s == UNINITIALIZED {
          InitBMP388(re.bmp);
        }
        s := GetStatusADXL375();
        if s == UNINITIALIZED {
          InitADXL375(re.adxl);
        }
        s := GetStatusICM20948();
        if s == UNINITIALIZED {
          InitICM20948(re.icm);
        }
        if lsmStatus == UNINITIALIZED {
          lsmStatus := re.lsm;
        }
      }
    }

    /** threadedReconnect(). */
    method ThreadedReconnect(c: SdCard)
      requires Valid()
      modifies this`sdNumConnectionAttempts, this`sdStatus, this`file, this`ring, this`ringError
      ensures Valid() && Store() == ShartModel.ThreadedReconnect(old(Store()), c)
    {
      var sd := GetStatusSD();
      if sd == UNAVAILABLE {
        InitSD(c);
      }
    }

    /** getSystemStatus(). */
    method GetSystemStatus() returns (ok: bool)
      ensures ok == SystemOk(State())
    {
      ok := bmpStatus == AVAILABLE && icmStatus == AVAILABLE && adxlStatus == AVAILABLE && sdStatus == AVAILABLE;
    }

    /** The stop decision of maybeFinish(), on the main serial port. */
    method MaybeFinish(port: Comms.SerialPort) returns (stop: bool)
      modifies port
      ensures stop == StopRequested(old(port.rx))
      ensures var r := Comms.Receive(Comms.TYPE_COMMAND, Comms.COMMAND_DATA_SIZE, old(port.rx));
        port.rx == old(port.rx)[Comms.Consumed(r, Comms.COMMAND_DATA_SIZE)..] && port.tx == old(port.tx)
    {
      var command := new Comms.Packet(Comms.TYPE_COMMAND, Comms.COMMAND_DATA_SIZE);
      var received := Comms.ReceivePacketType(command, port, false);
      stop := received && Comms.DecodeCommand(command.data).command == Comms.STOP_COMMAND;
    }

    //----------------------------------------------------------------------
    // Sensors
    //----------------------------------------------------------------------

    method InitICM20948(ok: bool)
      modifies this`icmStatus
      ensures icmStatus == InitStatus(ok)
    {
      if !ok {
        icmStatus := UNINITIALIZED;
        return;
      }
      icmStatus := AVAILABLE;
    }

    method InitBMP388(ok: bool)
      modifies this`bmpStatus
      ensures bmpStatus == InitStatus(ok)
    {
      if !ok {
        bmpStatus := UNINITIALIZED;
        return;
      }
      bmpStatus := AVAILABLE;
    }

    method InitADXL375(ok: bool)
      modifies this`adxlStatus
      ensures adxlStatus == InitStatus(ok)
    {
      if !ok {
        adxlStatus := UNINITIALIZED;
        return;
      }
      adxlStatus := AVAILABLE;
    }

    method UpdateStatusBMP388(chipId: byte)
      modifies this`bmpStatus
      ensures bmpStatus == ChipIdStatus(chipId, BMP_CHIP_ID)
    {
      if chipId != BMP_CHIP_ID {
        bmpStatus := UNAVAILABLE;
        return;
      }
      bmpStatus := AVAILABLE;
    }

    method UpdateStatusICM20948(connected: bool)
      modifies this`icmStatus
      ensures icmStatus == InitStatus(connected)
    {
      if !connected {
        icmStatus := UNINITIALIZED;
        return;
      }
      icmStatus := AVAILABLE;
    }

    method UpdateStatusADXL375(deviceId: byte)
      modifies this`adxlStatus
      ensures adxlStatus == ChipIdStatus(deviceId, ADXL_CHIP_ID)
    {
      if deviceId != ADXL_CHIP_ID {
        adxlStatus := UNAVAILABLE;
        return;
      }
      adxlStatus := AVAILABLE;
    }

    method CollectTime(sensorMicros: u32, gpsMicros: u32)
      modifies this`sensorPacket, this`gpsPacket
      ensures sensorPacket == old(sensorPacket).(us := Sub32(sensorMicros, chipTimeOffset))
      ensures gpsPacket == old(gpsPacket).(us := Sub32(gpsMicros, chipTimeOffset))
    {
      sensorPacket := sensorPacket.(us := Sub32(sensorMicros, chipTimeOffset));
      gpsPacket := gpsPacket.(us := Sub32(gpsMicros, chipTimeOffset));
    }

    method CollectDataADXL375(x: i16, y: i16, z: i16)
      modifies this`sensorPacket
      ensures sensorPacket == CollectAdxl(old(sensorPacket), x, y, z)
    {
      sensorPacket := sensorPacket.(adxlAccX := x);
      sensorPacket := sensorPacket.(adxlAccY := y);
      sensorPacket := sensorPacket.(adxlAccZ := z);
    }

    method CollectDataICM20948(sample: IcmSample)
      modifies this`sensorPacket
      ensures sensorPacket == CollectIcm(old(sensorPacket), sample)
    {
      sensorPacket := sensorPacket.(accX := sample.accX, accY := sample.accY, accZ := sample.accZ);
      sensorPacket := sensorPacket.(gyrX := sample.gyrX, gyrY := sample.gyrY, gyrZ := sample.gyrZ);
      sensorPacket := sensorPacket.(magX := sample.magX, magY := sample.magY, magZ := sample.magZ);
    }

    method CollectDataBMP388(sample: BmpSample)
      modifies this`sensorPacket
      ensures sensorPacket == CollectBmp(old(sensorPacket), sample)
    {
      sensorPacket := sensorPacket.(temp := sample.temp);
      sensorPacket := sensorPacket.(pres := sample.pres);
    }

    /** collectDataGTU7(). */
    method CollectDataGTU7(port: Comms.SerialPort, navPvt: seq<byte> -> NavPvt)
      requires Valid()
      modifies this`gpsPacket, this`gpsReady, gps, gps.data, port
      ensures Valid()
      ensures var g := Gtu7(gps.size, old(gps.State()), old(gpsPacket), old(gpsReady), old(port.rx), navPvt);
        gps.State() == g.receiver && gpsPacket == g.gps && gpsReady == g.ready
      ensures port.rx == old(port.rx)[UbloxGps.Run(gps.size, old(gps.State()), old(port.rx)).1..] && port.tx == old(port.tx)
    {
      ghost var r0 := gps.State();
      ghost var g := Gtu7(gps.size, r0, gpsPacket, gpsReady, port.rx, navPvt);
      gps.Update(port);
      var ready := gps.IsReady();
      if ready {
        var packet := gps.GetPacket();
        gpsPacket := StoreFix(gpsPacket, navPvt(packet));
        gpsReady := true;
      }
    }

    method GetStatusICM20948() returns (s: Status)
      ensures s == icmStatus
    {
      s := icmStatus;
    }

    method GetStatusBMP388() returns (s: Status)
      ensures s == bmpStatus
    {
      s := bmpStatus;
    }

    method GetStatusADXL375() returns (s: Status)
      ensures s == adxlStatus
    {
      s := adxlStatus;
    }
  }
}
