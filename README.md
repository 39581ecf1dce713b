# AeroBing flight computer: telemetry framing, UBX reader, storage pipeline and ground decoders

This project models four parts of the AeroBing flight-computer firmware and its ground-station tools. It proves properties of each.

- **Telemetry frames** (`lib/comms/src/comms.h`). Every packet the board sends or logs is a frame: the sync byte `0xAA`, a type byte, the two bytes of an 8-bit Fletcher checksum, then a fixed-size payload.
  - The payloads are `sensor_p` (44 bytes), `gps_p` (52) and `command_p` (4).
  - `CHECKSUM` zeroes the two checksum bytes of a packet struct. It then accumulates every byte from offset 4 to the end.
  - `receivePacketType` reads one frame from a serial port, all or nothing. It can echo the frame back as an acknowledgement.
- **UBX synchroniser** (`lib/Ublox7GPS/src/UbloxGps_backup.h`). `UbloxGps::update` drains the GPS serial port one byte at a time. A carriage position walks over the two sync bytes `0xB5 0x62`, the `size` payload bytes (staged in a fixed array) and two checksum bytes. When both checksum bytes match, the staged bytes become the packet, `ready` is set, and the call stops.
- **The Shart telemetry singleton** (`lib/shart/src/shart.h`, `shart.cpp`, `shart/export.cpp`, `shart/sensors.cpp`, `shart/gps.cpp`):
  - device-health statuses (`UNINITIALIZED`, `AVAILABLE`, `UNAVAILABLE`, `PERMANENTLY_UNAVAILABLE`);
  - the SD-card retry counter;
  - the `saveData` policy over the ring buffer and the log file;
  - the radio output;
  - the `collect`/`send`/`reconnect` cycle.
- **Ground decoders** (`python/packet_stream_file.py`, `python/packet_stream_serial.py`, `python/packet_stream.py`). These are three readers of the same frames. Each has its own `PACKET_SPEC` table of payload sizes and `struct` formats.
  - The file reader reads a log file and keeps a sticky `error_state`.
  - The serial reader waits for more than 100 bytes, resets `error_state` on every call, and copies every frame of a known type into a log file.
  - The plain stream reader is the serial reader without the log and the error state.

Modules, in dependency order:

| file | module | contents |
|---|---|---|
| `bytes.dfy` | `Bytes` | byte and fixed-width integer types, little-endian encoding with round trips |
| `fletcher.dfy` | `Fletcher` | the running checksum, its closed form, detection of single-byte changes |
| `layout.dfy` | `Layout` | packed `struct` members, `struct.calcsize`, `struct.unpack` as a partial decoder |
| `comms.dfy` | `Comms` | constants, payload layouts, `CHECKSUM`, the serial port, `receivePacketType` |
| `ubx.dfy` | `UbloxGps` | the reader as a step function on a state value, and the class over a fixed array proved against it |
| `shart_model.dfy` | `ShartModel` | every Shart operation as a function of the whole state, and the lemmas about them |
| `shart.dfy` | `Shart` | the class `Shart`, whose methods are proved to change its fields as `ShartModel` says |
| `ground.dfy` | `Ground` | what the three decoders share: `calculate_checksum`, the frame scan behind `read_packet`, the firmware's own table |
| `packet_stream_file.dfy`, `packet_stream_serial.dfy`, `packet_stream.dfy` | `PacketStreamFile`, `PacketStreamSerial`, `PacketStream` | each decoder's table, its `read_packet` as a function and as a method of a class, and its properties |

Each imperative routine appears twice:
- as a `method` of a class, over the fields the source updates;
- as a function of the old state.

The method's `ensures` ties the new state to that function. The properties from the source are lemmas about the function.

Hardware inputs are parameters:
- chip IDs;
- driver success flags;
- the answers of the SD card;
- how many bytes a card write accepts;
- `file.isBusy()`;
- the `micros()` readings;
- the bytes waiting on a serial port.

Floats are carried as their 32-bit patterns.

## Model

| member | source | states |
|---|---|---|
| Bytes.DecodeEncodeUnsigned | lib/comms/src/comms.h:48-98 | Reading back a little-endian unsigned field of w bytes gives the value that was stored. |
| Bytes.EncodeDecodeUnsigned | lib/comms/src/comms.h:48-98 | Every byte string is the little-endian image of the number it decodes to, so no two images decode alike. |
| Bytes.DecodeEncodeSigned | lib/comms/src/comms.h:48-98 | A two's-complement field of w bytes reads back as the signed value stored, for every value in range. |
| Bytes.DecodeSigned | lib/comms/src/comms.h:48-98 | A signed field of w bytes reads as a value within the two's-complement range of w bytes. |
| Bytes.EncodeU32 | lib/comms/src/comms.h:48-98 | A `uint32_t` member is 4 bytes, and they read back as the value. |
| Bytes.EncodeI16 | lib/comms/src/comms.h:48-72 | An `int16_t` member is 2 bytes, and they read back as the signed value. |
| Bytes.EncodeI32 | lib/comms/src/comms.h:74-107 | An `int32_t` member is 4 bytes, and they read back as the signed value. |
| Bytes.EncodeU8 | lib/comms/src/comms.h:48-98 | A `uint8_t` member is its own single byte. |
| Bytes.DecodeI32 | lib/shart/src/shart.cpp:120 | `*(int*) &command` on the 4 payload bytes gives the int32 whose image they are. |
| Fletcher.AddMod | lib/comms/src/comms.h:24-25 | Adding into an `unsigned char` wraps modulo 256. |
| Fletcher.ChecksumClosedForm | lib/comms/src/comms.h:19-27 | The pair reduced after every step equals the plain byte sum and the sum of prefix sums, each reduced once modulo 256. |
| Fletcher.SumUpdate | lib/comms/src/comms.h:128-135 | Replacing one byte changes the plain sum by exactly the difference of the two values. |
| Fletcher.SingleByteChangeDetected | lib/comms/src/comms.h:137 | Corrupting any single payload byte always changes the first checksum byte. |
| Layout.LayoutOf | python/packet_stream_serial.py:92 | The format a list of members is read back with has one kind per member, in order. |
| Layout.LayoutAppend | python/packet_stream_serial.py:92 | The format of two member lists together is the two formats concatenated. |
| Layout.SizeAppend | python/packet_stream_serial.py:16-19 | `struct.calcsize` of a concatenated little-endian format is the sum of the parts, with no padding. |
| Layout.SizeRepeat | python/packet_stream_serial.py:16-19 | A repeat count such as `6h` takes count times the member width. |
| Layout.Repeat | python/packet_stream_serial.py:16-19 | A repeat count gives exactly that many members. |
| Layout.EncodeField | lib/comms/src/comms.h:48-98 | A member's image is exactly its width. |
| Layout.DecodeField | python/packet_stream_serial.py:92 | One member read from its bytes has the requested kind and re-encodes to those bytes. |
| Layout.DecodeEncodeField | python/packet_stream_serial.py:92 | Reading a member's image gives that member back. |
| Layout.EncodeFieldsLength | lib/comms/src/comms.h:48-98 | A packed struct's image is as long as `struct.calcsize` of its format. |
| Layout.EncodeFieldsAppend | lib/comms/src/comms.h:48-98 | The image of two member lists is the two images concatenated. |
| Layout.DecodeFields | python/packet_stream_serial.py:92 | Unpacking a format from bytes of exactly its size gives one member per kind. |
| Layout.EncodeDecodeFields | python/packet_stream_serial.py:92 | What is unpacked has the format's kinds and re-encodes to the very bytes unpacked. |
| Layout.Unpack | python/packet_stream_serial.py:92 | `struct.unpack` succeeds exactly when the data is as long as the format needs (otherwise `struct.error`); the members have the format's kinds and re-encode to the data. |
| Layout.UnpackEncoded | python/packet_stream_serial.py:92 | Unpacking a struct's image with its own format gives every member back. |
| Layout.DecodeEncodeFields | python/packet_stream_serial.py:92 | Decoding an image with the members' own format gives the members back. |
| Comms.SensorLayout | lib/comms/src/comms.h:48-72 | `sensor_p`'s payload members have the layout `<I6h5f3h2B`, 44 bytes; the ADXL375 axes start at byte 36. |
| Comms.GpsLayout | lib/comms/src/comms.h:74-98 | `gps_p`'s payload members have the layout `<I6i3Iif4B`, 52 bytes. |
| Comms.EncodeSensor | lib/comms/src/comms.h:48-72 | The sensor payload is 44 bytes. |
| Comms.EncodeGps | lib/comms/src/comms.h:74-98 | The GPS payload is 52 bytes. |
| Comms.EncodeCommand | lib/comms/src/comms.h:100-107 | The command payload is 4 bytes. |
| Comms.DecodeCommand | lib/shart/src/shart.cpp:120 | The command read out of 4 payload bytes re-encodes to those bytes. |
| Comms.CommandRoundTrip | lib/comms/src/comms.h:100-107 | A command written into `command_p` reads back unchanged. |
| Comms.AdxlUpdateIsLocal | lib/shart/src/shart/sensors.cpp:146-148 | Writing the three ADXL375 axes changes payload bytes 36..41 only, to the axes' images. |
| Comms.SensorSplit | lib/comms/src/comms.h:48-72 | The sensor payload is its head, the ADXL axes and the tail, in that order; the head is 36 bytes. |
| Comms.Encode | lib/comms/src/comms.h:19-43 | A frame is the 4 header bytes followed by the payload unchanged. |
| Comms.ChecksumImage | lib/comms/src/comms.h:19-27 | `CHECKSUM` keeps the struct's size. |
| Comms.ChecksumImageProperties | lib/comms/src/comms.h:19-27 | `CHECKSUM` keeps sync, type and payload. It ignores what `c_a`/`c_b` held before, and applying it twice is the same as once. On a struct starting with `0xAA` it gives the frame of the payload. |
| Comms.ApplyChecksum | lib/comms/src/comms.h:19-27 | The in-place loop over the struct's bytes leaves exactly `ChecksumImage` of the old bytes. |
| Comms.Receive | lib/comms/src/comms.h:110-150 | The decision: too few bytes, wrong sync, wrong type, checksum mismatch or accept; it never consumes more than is available. An accepted frame's bytes are the frame of its payload; a mismatch had sync and type right and sums that differ. |
| Comms.ReceiveEncoded | lib/comms/src/comms.h:19-27 | Round trip: a `CHECKSUM`ed packet fed as bytes is accepted with exactly its payload, consuming exactly its bytes. |
| Comms.OtherKindRejected | lib/comms/src/comms.h:117-119 | A frame of another type is rejected after the type byte. |
| Comms.CorruptedPayloadRejected | lib/comms/src/comms.h:128-137 | A whole frame with one payload byte corrupted is consumed and rejected as a checksum mismatch. |
| Comms.SerialPort.constructor | lib/comms/src/comms.h:111 | A port holding the given received bytes, nothing written. |
| Comms.SerialPort.Available | lib/comms/src/comms.h:117 | `available()` is the number of bytes buffered. |
| Comms.SerialPort.Read | lib/comms/src/comms.h:118-122 | `read()` takes the first buffered byte and nothing else. |
| Comms.SerialPort.Write | lib/comms/src/comms.h:141 | `write()` appends to what was sent and leaves the input alone. |
| Comms.Packet.constructor | lib/comms/src/comms.h:100-107 | A packet with its fixed type, zeroed checksum and zeroed payload. |
| Comms.Packet.Image | lib/comms/src/comms.h:141 | The struct's bytes: 4 header bytes then the payload. |
| Comms.ReceivePacketType | lib/comms/src/comms.h:110-150 | Returns true exactly on `Receive`'s accept and consumes exactly the bytes `Receive` decides. On accept it stores the received sums and payload; on a mismatch only `c_a`/`c_b`; otherwise nothing. The frame is echoed only when accepted and `acknowledge` is set. |
| UbloxGps.Step | lib/Ublox7GPS/src/UbloxGps_backup.h:43-96 | One byte of `update()`'s loop keeps the reader's invariant: staging array of `size` bytes, carriage at most `size + 3`. |
| UbloxGps.Feed | lib/Ublox7GPS/src/UbloxGps_backup.h:42-97 | Feeding any bytes keeps the invariant. |
| UbloxGps.Run | lib/Ublox7GPS/src/UbloxGps_backup.h:40-101 | One `update()` keeps the invariant and takes no more bytes than are available. |
| UbloxGps.CarriageNeverWraps | lib/Ublox7GPS/src/UbloxGps_backup.h:65-95 | With `size <= 251` the `unsigned char` carriage never wraps, and the `p > size + 4` branch is dead. |
| UbloxGps.SyncStep | lib/Ublox7GPS/src/UbloxGps_backup.h:46-53 | In a sync position a matching byte advances the carriage. Any other byte resets it to 0 without being looked at again. |
| UbloxGps.PayloadStep | lib/Ublox7GPS/src/UbloxGps_backup.h:59-65 | A payload byte lands at `data[p - 2]`, an index inside the array, and nowhere else. |
| UbloxGps.ChecksumOnlyAfterPayload | lib/Ublox7GPS/src/UbloxGps_backup.h:68-70 | The checksum is recomputed only right after the last payload byte, over exactly the staged bytes. |
| UbloxGps.FirstChecksumStep | lib/Ublox7GPS/src/UbloxGps_backup.h:72-77 | A mismatching first checksum byte resets the carriage; a match moves it on. |
| UbloxGps.SecondChecksumStep | lib/Ublox7GPS/src/UbloxGps_backup.h:79-91 | After the second checksum byte the carriage is always 0. The packet and `ready` change only on a match, which is exactly a decode. |
| UbloxGps.OnlyDecodeTouchesPacket | lib/Ublox7GPS/src/UbloxGps_backup.h:84-88 | The packet and the ready flag change only on a decode. |
| UbloxGps.RunIsFeedUpToFirstDecode | lib/Ublox7GPS/src/UbloxGps_backup.h:42-97 | `update()` runs a prefix of the input byte by byte and decodes at most one packet. It stops early only right after a decode. |
| UbloxGps.FeedAppend | lib/Ublox7GPS/src/UbloxGps_backup.h:40-101 | The carriage survives between calls: splitting the input decodes the same packets in the same order. |
| UbloxGps.FeedPayload | lib/Ublox7GPS/src/UbloxGps_backup.h:59-70 | From carriage 2, a payload is staged byte by byte and its checksum computed, with no decode on the way. |
| UbloxGps.PayloadByte | lib/Ublox7GPS/src/UbloxGps_backup.h:59-70 | One payload byte extends the staged prefix and is never a decode. |
| UbloxGps.Frame | lib/Ublox7GPS/src/UbloxGps_backup.h:46-91 | The UBX image of a payload is four bytes longer than it. |
| UbloxGps.FeedOne | lib/Ublox7GPS/src/UbloxGps_backup.h:42-97 | Feeding one byte is one loop step. |
| UbloxGps.FeedTwo | lib/Ublox7GPS/src/UbloxGps_backup.h:42-97 | Feeding two bytes is two loop steps. |
| UbloxGps.RunAfterQuietPrefix | lib/Ublox7GPS/src/UbloxGps_backup.h:42-97 | A stretch that decodes nothing does not stop `update()`. |
| UbloxGps.SyncAndPayload | lib/Ublox7GPS/src/UbloxGps_backup.h:46-70 | From carriage 0 the two sync bytes and the payload decode nothing, stage the payload and its checksum, and leave the carriage on the first checksum byte. |
| UbloxGps.FeedUpToLastByte | lib/Ublox7GPS/src/UbloxGps_backup.h:46-77 | Sync bytes, payload and first checksum byte stage the payload and its checksum. The carriage then waits for the second checksum byte only when the first matched. |
| UbloxGps.FrameOutcome | lib/Ublox7GPS/src/UbloxGps_backup.h:40-101 | A whole frame from an idle carriage decodes exactly when both checksum bytes match its payload, and yields that payload. |
| UbloxGps.LastByteOutcome | lib/Ublox7GPS/src/UbloxGps_backup.h:79-91 | What the byte after the first checksum byte decodes. |
| UbloxGps.FrameDecoded | lib/Ublox7GPS/src/UbloxGps_backup.h:40-101 | Round trip: a valid frame is decoded as exactly its payload, `ready` is set and the call stops right behind the frame. |
| UbloxGps.LastByteDecodes | lib/Ublox7GPS/src/UbloxGps_backup.h:84-88 | A matching second checksum byte ends the call with the staged bytes as the packet. |
| UbloxGps.CorruptedFrameRejected | lib/Ublox7GPS/src/UbloxGps_backup.h:68-91 | A frame with one payload or checksum byte corrupted yields no packet. |
| UbloxGps.StraySyncStaged | lib/Ublox7GPS/src/UbloxGps_backup.h:46-65 | Once both sync bytes are in, a second `0xB5 0x62` is staged as the first two payload bytes and decodes nothing, so a frame that starts there is read from the wrong offset. |
| UbloxGps.OverlappingSyncMissed | lib/Ublox7GPS/src/UbloxGps_backup.h:50-53 | After `0xB5 0xB5 0x62` the carriage is back at 0, so a frame starting at the second `0xB5` is missed. |
| UbloxGps.RunFirst | lib/Ublox7GPS/src/UbloxGps_backup.h:42-97 | One byte of `update()`: a decode ends the call, any other byte leaves the rest to the next step. |
| UbloxGps.UbloxGps.constructor | lib/Ublox7GPS/src/UbloxGps_backup.h:14-17 | Carriage at 0, nothing ready, a zeroed packet and a fresh staging array of `size` bytes. |
| UbloxGps.UbloxGps.Update | lib/Ublox7GPS/src/UbloxGps_backup.h:40-101 | The object's new state is `Run` of the old one on the waiting bytes, and exactly the bytes `Run` takes leave the port. |
| UbloxGps.UbloxGps.Consume | lib/Ublox7GPS/src/UbloxGps_backup.h:43-96 | The loop body on one byte changes the fields as `Step` says and reports the `break` exactly on a decode. |
| UbloxGps.UbloxGps.CalculateChecksum | lib/Ublox7GPS/src/UbloxGps_backup.h:131-138 | The checksum field becomes the running checksum of the whole staging array. |
| UbloxGps.UbloxGps.IsReady | lib/Ublox7GPS/src/UbloxGps_backup.h:103-105 | Returns `ready` and changes nothing. |
| UbloxGps.UbloxGps.GetPacket | lib/Ublox7GPS/src/UbloxGps_backup.h:107-110 | Clears `ready` and returns the stored packet unchanged. |
| ShartModel.Image | lib/shart/src/shart/export.cpp:99-100 | A packet struct's bytes are 4 header bytes plus the payload. |
| ShartModel.SensorBytes | lib/shart/src/shart/export.cpp:99 | `sizeof(sensor_p)` is 48. |
| ShartModel.GpsBytes | lib/shart/src/shart/export.cpp:100 | `sizeof(gps_p)` is 56. |
| ShartModel.Emitted | lib/shart/src/shart/export.cpp:120-121 | One output step emits 48 bytes, plus 56 when a fix is pending. |
| ShartModel.InitSd | lib/shart/src/shart/export.cpp:26-65 | The counter is incremented first. `PERMANENTLY_UNAVAILABLE` holds exactly when it passes the budget, and then the card is not touched. `AVAILABLE` holds exactly when the card answers every step within budget; then everything is fresh, counter 0. A failed attempt keeps the incremented count and the buffer. |
| ShartModel.RingWrite | lib/shart/src/shart/export.cpp:99-100 | `rb.write` appends everything or nothing, and the write-error flag is sticky. |
| ShartModel.WriteOut | lib/shart/src/shart/export.cpp:92 | Draining k bytes moves them from the buffer to the file and changes nothing else. |
| ShartModel.AppendPackets | lib/shart/src/shart/export.cpp:99-107 | The sensor packet, then the GPS packet if a fix is pending, join the stored stream. A write error downgrades the card to `UNAVAILABLE`. |
| ShartModel.Save | lib/shart/src/shart/export.cpp:81-109 | A full log sets `UNAVAILABLE` and touches nothing else. The status either stays or becomes `UNAVAILABLE`, the stored stream only grows, and the retry counter is untouched. |
| ShartModel.SaveData | lib/shart/src/shart/export.cpp:81-109 | `saveData` changes only the storage side. |
| ShartModel.TransmitData | lib/shart/src/shart/export.cpp:113-124 | The radio receives the sensor packet, then the GPS packet if a fix is pending; nothing else changes. |
| ShartModel.Checksummed | lib/shart/src/shart.cpp:76-77 | After the two `CHECKSUM`s, both packet structs are their checksummed frames; nothing else changes. |
| ShartModel.Send | lib/shart/src/shart.cpp:73-85 | After `send` no fix is pending. The radio received exactly the checksummed frames, and a given-up card is untouched. Storage only grows or is downgraded, and statuses, packets and GPS reader are untouched. |
| ShartModel.InitStatus | lib/shart/src/shart/sensors.cpp:34-79 | An initialiser gives `AVAILABLE` exactly on driver success, else `UNINITIALIZED`. |
| ShartModel.ChipIdStatus | lib/shart/src/shart/sensors.cpp:90-126 | A chip-ID probe gives `AVAILABLE` exactly when the ID read matches, else `UNAVAILABLE`, whatever the status before. |
| ShartModel.CollectTime | lib/shart/src/shart.cpp:157-162 | Both packets' `us` become the `uint32_t` difference (wrapping) of the reading and the start offset; nothing else changes. |
| ShartModel.Gtu7 | lib/shart/src/shart/gps.cpp:11-26 | After `collectDataGTU7` the reader's invariant holds and no packet is left ready; a pending fix stays pending. A ready fix is copied as lines 17-22 write it (see `ShartModel.GpsCollectedEveryCycle`). |
| ShartModel.CollectGtu7 | lib/shart/src/shart/gps.cpp:11-26 | Only the reader, `gps_packet` and `gps_ready` change; `gps_packet` takes the fix as the code writes it. |
| ShartModel.GpsConsumed | lib/shart/src/shart/gps.cpp:14 | `update()` takes no more bytes than the port holds. |
| ShartModel.CollectSensors | lib/shart/src/shart.cpp:63-66 | Each status is its probe's answer. Only the statuses and `sensor_packet` change. |
| ShartModel.Collect | lib/shart/src/shart.cpp:54-71 | After `collect` every status is its probe's answer. Storage, radio and the BNO status are untouched, and the reader's invariant holds. Its GPS part is `collectDataGTU7` as written. |
| ShartModel.Reconnect | lib/shart/src/shart.cpp:88-99 | `reconnect` changes only the four device statuses. |
| ShartModel.ThreadedReconnect | lib/shart/src/shart.cpp:103-107 | A card is re-initialised exactly when it is `UNAVAILABLE`, and otherwise is untouched. |
| ShartModel.StopFrame | lib/shart/src/shart.cpp:110-127 | The stop frame is 8 bytes. |
| ShartModel.FailedInitsExhaustBudget | lib/shart/src/shart/export.cpp:29-58 | Failed `initSD` calls count up one each. The card is given up exactly when the count passes the budget, and it never becomes `AVAILABLE`. |
| ShartModel.SuccessfulInitResets | lib/shart/src/shart/export.cpp:60-62 | A successful `initSD` within budget leaves counter 0, empty buffer and file, and no write error. |
| ShartModel.PermanentIsTerminal | lib/shart/src/shart.cpp:80-105 | A given-up card is never touched again by `threadedReconnect`, `reconnect`, `collect` or `send`. |
| ShartModel.SaveDataAppends | lib/shart/src/shart/export.cpp:81-109 | When nothing goes wrong, a sector is drained exactly when 512 bytes wait and the file is idle. The stored stream grows by exactly the sensor packet, then the GPS packet if pending, in that order. |
| ShartModel.SaveAppends | lib/shart/src/shart/export.cpp:89-107 | The same on any two packet images. |
| ShartModel.ShortWriteOutAppendsNothing | lib/shart/src/shart/export.cpp:92-96 | A short `writeOut` sets `UNAVAILABLE` and appends nothing; the bytes the card took are in the file. |
| ShartModel.StorageStaysBounded | lib/shart/src/shart/export.cpp:83-107 | The storage invariant is kept by `initSD`, `threadedReconnect`, `collect`, `reconnect`, `saveData` and `send`: the file stays within the fullness limit, with buffer plus file over it by at most one sensor and one GPS packet. Under it the ring buffer never overflows. |
| ShartModel.InitBounded | lib/shart/src/shart/export.cpp:26-65 | `initSD` and `threadedReconnect` keep the storage invariant. |
| ShartModel.CycleBounded | lib/shart/src/shart.cpp:54-99 | `collect` and `reconnect` keep the storage invariant. |
| ShartModel.SendBounded | lib/shart/src/shart.cpp:73-85 | `send` keeps the storage invariant and raises no new write error. |
| ShartModel.SaveBounded | lib/shart/src/shart/export.cpp:81-109 | `saveData` keeps the storage invariant and raises no new write error. |
| ShartModel.SendHealthy | lib/shart/src/shart.cpp:73-85 | A healthy `send` puts the same checksummed frames into storage and onto the radio. |
| ShartModel.ThreeCycles | lib/shart/src/shart.cpp:73-85 | Three healthy sends with one fix in between store and transmit sensor, sensor, GPS, sensor. The fix is sent only once. |
| ShartModel.AdxlCollectedIffAvailable | lib/shart/src/shart.cpp:65 | The ADXL375 axes take the sample exactly when its device ID matches, else keep their values. |
| ShartModel.IcmBmpCollectedIffAvailable | lib/shart/src/shart.cpp:63-64 | Each of the nine ICM-20948 fields and the two BMP388 fields takes its sample exactly when its probe says `AVAILABLE`, and keeps its value otherwise; time and status bytes are untouched. |
| ShartModel.GpsCollectedEveryCycle | lib/shart/src/shart/gps.cpp:14-23 | The GPS collector runs whatever the statuses. A fix is copied as written, and `gps_ready` set, exactly when the reader decoded a packet: lat, lon, alt and vele take the fix, `veln` takes the down velocity and `veld` keeps its old value; otherwise `gps_packet` keeps everything but the time stamp. |
| ShartModel.ProbesAndReconnects | lib/shart/src/shart/sensors.cpp:90-126 | No probe or initialiser produces `PERMANENTLY_UNAVAILABLE`. A lost ICM becomes `UNINITIALIZED` and is re-initialised; a BMP388 or ADXL375 failing its probe stays `UNAVAILABLE`. |
| ShartModel.ReconnectOnlyUninitialized | lib/shart/src/shart.cpp:90-97 | `reconnect` re-initialises exactly the `UNINITIALIZED` devices, and only when `ATTEMPT_RECONNECT` is defined. |
| ShartModel.SystemOkAfterCollect | lib/shart/src/shart.cpp:130-138 | After `collect`, `getSystemStatus` is true exactly when the card is `AVAILABLE` and the ICM, BMP388 and ADXL375 answer their probes. |
| ShartModel.StopRequestedIffStopFrame | lib/shart/src/shart.cpp:120 | `maybeFinish` stops exactly on an intact stop frame at the head of the port. |
| ShartModel.OtherCommandsDoNotStop | lib/shart/src/shart.cpp:120 | A start command, or any other command, does not stop it. |
| ShartModel.VelocityMisfiled | lib/shart/src/shart/gps.cpp:20-22 | As written, `veln` ends equal to `velD` and `veld` keeps its old value; the result differs from the intended copy exactly when north and down velocities differ or `veld` was stale. |
| ShartModel.FixCopied | lib/shart/src/shart/gps.cpp:17-22 | The intended copy (`StoreFixIntended`) puts each fix field in its own packet field and changes no other. The rest of the model, `Shart.Shart.CollectDataGTU7` included, uses the copy as written. |
| Shart.Shart.State | lib/shart/src/shart.h:102-194 | The object's fields as a model state, satisfying the reader invariant. |
| Shart.Shart.constructor | lib/shart/src/shart.h:147-183 | Every status `UNINITIALIZED`, counter 0, no fix pending, zeroed packets, empty buffer, file and radio; the storage invariant holds. |
| Shart.Shart.InitSD | lib/shart/src/shart/export.cpp:26-65 | The storage fields change as `InitSd` says. |
| Shart.Shart.SaveData | lib/shart/src/shart/export.cpp:81-109 | The storage fields change as `Save` says on the current packet images. |
| Shart.Shart.WritePackets | lib/shart/src/shart/export.cpp:99-107 | The storage fields change as `AppendPackets` says. |
| Shart.Shart.RingWrite | lib/shart/src/shart/export.cpp:99-100 | The buffer changes as `ShartModel.RingWrite` says. |
| Shart.Shart.RingWriteOut | lib/shart/src/shart/export.cpp:92 | A card taking `accepted` bytes receives `min(n, accepted)` bytes from the front of the buffer. |
| Shart.Shart.TransmitData | lib/shart/src/shart/export.cpp:113-124 | The radio receives the sensor packet's bytes, then the GPS packet's if a fix is pending. |
| Shart.Shart.GetStatusSD | lib/shart/src/shart/export.cpp:133-137 | Returns the SD status and changes nothing. |
| Shart.Shart.Send | lib/shart/src/shart.cpp:73-85 | Checksums, storage, radio and `gps_ready` end as `ShartModel.Send` says. |
| Shart.Shart.Collect | lib/shart/src/shart.cpp:54-71 | Statuses, `sensor_packet`, the reader, `gps_packet` and `gps_ready` end as the model's collect says, with the GPS fix copied as gps.cpp writes it. The GPS port loses exactly the bytes `update()` takes. |
| Shart.Shart.CollectSensors | lib/shart/src/shart.cpp:63-66 | Each probe and, when it says `AVAILABLE`, its collector. |
| Shart.Shart.Reconnect | lib/shart/src/shart.cpp:88-99 | Each status as `Retry` says. |
| Shart.Shart.ThreadedReconnect | lib/shart/src/shart.cpp:103-107 | The storage fields change as `ShartModel.ThreadedReconnect` says. |
| Shart.Shart.GetSystemStatus | lib/shart/src/shart.cpp:130-138 | True exactly when BMP388, ICM, ADXL375 and SD are all `AVAILABLE`. |
| Shart.Shart.MaybeFinish | lib/shart/src/shart.cpp:110-127 | Stops exactly on a received command packet holding `STOP_COMMAND`; the port loses what `receivePacketType` takes. |
| Shart.Shart.InitICM20948 | lib/shart/src/shart/sensors.cpp:34-43 | `AVAILABLE` on driver success, else `UNINITIALIZED`. |
| Shart.Shart.InitBMP388 | lib/shart/src/shart/sensors.cpp:47-66 | `AVAILABLE` on driver success, else `UNINITIALIZED`. |
| Shart.Shart.InitADXL375 | lib/shart/src/shart/sensors.cpp:70-79 | `AVAILABLE` on driver success, else `UNINITIALIZED`. |
| Shart.Shart.UpdateStatusBMP388 | lib/shart/src/shart/sensors.cpp:90-100 | `AVAILABLE` exactly when the chip ID is 0x50. |
| Shart.Shart.UpdateStatusICM20948 | lib/shart/src/shart/sensors.cpp:103-113 | `AVAILABLE` when connected, else `UNINITIALIZED`. |
| Shart.Shart.UpdateStatusADXL375 | lib/shart/src/shart/sensors.cpp:116-126 | `AVAILABLE` exactly when the device ID is 0xE5. |
| Shart.Shart.CollectTime | lib/shart/src/shart.cpp:157-162 | Both time stamps are set from the readings minus the offset, wrapping. |
| Shart.Shart.CollectDataADXL375 | lib/shart/src/shart/sensors.cpp:140-150 | Exactly the three ADXL375 fields are written. |
| Shart.Shart.CollectDataICM20948 | lib/shart/src/shart/sensors.cpp:153-174 | Exactly the nine ICM fields are written. |
| Shart.Shart.CollectDataBMP388 | lib/shart/src/shart/sensors.cpp:178-186 | Exactly temperature and pressure are written. |
| Shart.Shart.CollectDataGTU7 | lib/shart/src/shart/gps.cpp:11-26 | One `update()`. When a packet is ready it is taken (clearing the reader's flag), its fix copied as lines 17-22 write it and `gps_ready` set; the port loses exactly what `update()` takes. |
| Shart.Shart.GetStatusICM20948 | lib/shart/src/shart/sensors.cpp:189 | Returns the status and changes nothing. |
| Shart.Shart.GetStatusBMP388 | lib/shart/src/shart/sensors.cpp:191 | Returns the status and changes nothing. |
| Shart.Shart.GetStatusADXL375 | lib/shart/src/shart/sensors.cpp:193 | Returns the status and changes nothing. |
| Ground.CalculateChecksum | python/packet_stream_file.py:34-40 | The Python accumulation, reduced once at the end, gives the firmware's `CHECKSUM` of the same payload. The same routine is at python/packet_stream_serial.py:61-67 and python/packet_stream.py:43-49. |
| Ground.ScanFrame | python/packet_stream_file.py:43-67 | `read_packet` reaches the end of input exactly on empty input; a frame is only reported for a type in the table. |
| Ground.ScanByReads | python/packet_stream_file.py:44-52 | The outcome is what `read(1)`, `read(1)`, `read(2)` and `read(packet_size)` give, each taking at most what is left. |
| Ground.Unpacked | python/packet_stream_file.py:58 | A frame's payload unpacks exactly when it is as long as the format; then the members have the format and re-encode to the payload. |
| Ground.ScanParts | python/packet_stream_file.py:43-67 | Every outcome but the end of input takes at least one byte and leaves a suffix. A frame is sync, type, two checksum bytes and the payload read; only a frame cut off by the end of input is short. |
| Ground.ScanEncoded | python/packet_stream_file.py:43-58 | A checksummed frame whose payload is as long as the table says is read whole, and nothing after it is touched. |
| Ground.GatedReadsComplete | python/packet_stream_serial.py:73-82 | Behind `in_waiting > 100`, with a table whose entries fit, every read is complete. |
| Ground.SensorFrame | lib/comms/src/comms.h:48-72 | The checksummed `sensor_p` is 48 bytes. |
| Ground.GpsFrame | lib/comms/src/comms.h:74-98 | The checksummed `gps_p` is 56 bytes. |
| Ground.FirmwareSpecFits | python/packet_stream_serial.py:16-19 | The firmware's table (44 `<I6h5f3h2B`, 52 `<I6i3Iif4B`) fits behind the gate, and each size is its format's size. |
| Ground.FirmwareFrameRead | python/packet_stream_file.py:43-58 | With the firmware's table a firmware frame is read whole, its checksum matches, and it unpacks to the struct's members. |
| Ground.SensorPayloadUnpacks | python/packet_stream_serial.py:17-92 | The sensor payload unpacked with `<I6h5f3h2B` gives the struct's members back. |
| Ground.GpsPayloadUnpacks | python/packet_stream_serial.py:18-92 | The GPS payload unpacked with `<I6i3Iif4B` gives the struct's members back. |
| PacketStreamFile.SpecConsistent | python/packet_stream_file.py:19-22 | The file table's sizes equal its formats' sizes, and its GPS entry is the firmware's. |
| PacketStreamFile.SensorFormatSize | python/packet_stream_file.py:20 | `struct.calcsize('<I11f3h2B')` is 56, the size the entry asks for. |
| PacketStreamFile.PacketStream.constructor | python/packet_stream_file.py:25-31 | The file is open at its start with `error_state` 0. |
| PacketStreamFile.PacketStream.Read | python/packet_stream_file.py:44-52 | `file.read(n)` returns at most n bytes, fewer at the end, and advances past them. |
| PacketStreamFile.PacketStream.ReadPacket | python/packet_stream_file.py:43-67 | The value returned, the file position and `error_state` are exactly `FileReadPacket` of the old position and state. |
| PacketStreamFile.ErrorStates | python/packet_stream_file.py:28-67 | At the end of the file it returns `(None, None)` with state 3. Otherwise the state is unchanged, 1 or 2, and changes only with `(None, None)`. A non-zero state never returns to 0. |
| PacketStreamFile.Progress | python/packet_stream_file.py:43-67 | Every call before the end of the file moves forward, so the reading loop ends. |
| PacketStreamFile.SkipsNonSync | python/packet_stream_file.py:45-67 | A non-sync byte is skipped and nothing else happens. |
| PacketStreamFile.PacketSound | python/packet_stream_file.py:56-58 | A packet is returned only for a whole frame of a known type whose checksum matches; its members re-encode to the payload, and the state is unchanged. |
| PacketStreamFile.ReadsFrame | python/packet_stream_file.py:43-58 | Round trip: a checksummed frame whose payload fits its entry is returned as that packet, and the next read starts right behind it. |
| PacketStreamFile.SensorFrameRaises | python/packet_stream_file.py:20-58 | As written, a file holding one sensor packet makes `read_packet` raise `struct.error`. |
| PacketStreamFile.SensorFrameOverreads | python/packet_stream_file.py:20-52 | As written, `read(56)` after a sensor header takes 12 bytes of the next frame. |
| PacketStreamFile.ReadsFirmwareFrame | python/packet_stream_file.py:43-58 | With the firmware's table one firmware frame is returned with its members, `error_state` is untouched, and the next read starts right behind it. |
| PacketStreamFile.ReadsFirmwareLog | python/packet_stream_file.py:43-76 | Corrected: with the firmware's table, the reading loop returns every packet of a firmware log, in order, with its members. |
| PacketStreamSerial.SpecIsFirmware | python/packet_stream_serial.py:16-19 | The serial table is the firmware's table; it fits the gate and agrees with its formats. |
| PacketStreamSerial.PacketStream.constructor | python/packet_stream_serial.py:38-44 | An open port with the received bytes, empty log, nothing sent, `error_state` 0. |
| PacketStreamSerial.PacketStream.InWaiting | python/packet_stream_serial.py:73 | `in_waiting` is the number of bytes waiting. |
| PacketStreamSerial.PacketStream.Read | python/packet_stream_serial.py:74-82 | `device.read(n)` takes at most n waiting bytes. |
| PacketStreamSerial.PacketStream.WriteLog | python/packet_stream_serial.py:84-86 | `file.write` appends to the log. |
| PacketStreamSerial.PacketStream.ReadPacket | python/packet_stream_serial.py:70-103 | The value returned, the bytes left on the port, what is appended to the log and `error_state` are exactly `SerialReadPacket`'s. |
| PacketStreamSerial.PacketStream.Send | python/packet_stream_serial.py:105-106 | `send` appends the data to what the port sent. |
| PacketStreamSerial.ErrorStates | python/packet_stream_serial.py:71-103 | State 3 exactly when 100 bytes or fewer wait, and then nothing else happens. 1 exactly for a logged frame with no packet, 2 exactly for an unknown type after a sync byte, 0 otherwise. |
| PacketStreamSerial.LogsEveryFrame | python/packet_stream_serial.py:84-86 | Something is logged exactly when the gate opens on a sync byte and a known type, whatever the checksum. What is logged is the very bytes taken from the port. |
| PacketStreamSerial.PacketSound | python/packet_stream_serial.py:90-92 | A packet is returned only for a whole frame of a known type whose checksum matches; the frame is what was logged. |
| PacketStreamSerial.NeverRaises | python/packet_stream_serial.py:73-92 | With a table fitting the gate and agreeing with its formats, `struct.error` is never raised. |
| PacketStreamSerial.ReadsFirmwareFrame | python/packet_stream_serial.py:70-92 | Round trip: a firmware packet arriving with more than 100 bytes waiting is returned with its members, with exactly its frame logged, state 0. |
| PacketStreamSerial.LogReplays | python/packet_stream_serial.py:84-86 | Reading the log back with the file reader and the same table gives the same outcome for every logged frame, and stops right behind it. |
| PacketStream.SpecConsistent | python/packet_stream.py:14-17 | The table agrees with its formats and fits the gate; its GPS entry is the firmware's. |
| PacketStream.SensorFormatSize | python/packet_stream.py:15 | `struct.calcsize('<I3i11f')` is 60, the size the entry asks for. |
| PacketStream.PacketStream.constructor | python/packet_stream.py:23-28 | An open port with the received bytes, nothing sent. |
| PacketStream.PacketStream.InWaiting | python/packet_stream.py:54 | `in_waiting` is the number of bytes waiting. |
| PacketStream.PacketStream.Read | python/packet_stream.py:55-63 | `device.read(n)` takes at most n waiting bytes. |
| PacketStream.PacketStream.ReadPacket | python/packet_stream.py:52-74 | The value returned and the bytes left are exactly `StreamReadPacket`'s. |
| PacketStream.PacketStream.Send | python/packet_stream.py:76-77 | `send` appends the data to what the port sent. |
| PacketStream.Gate | python/packet_stream.py:54-56 | Nothing is read exactly when 100 bytes or fewer wait. Otherwise every call takes at least one byte, and a non-sync byte exactly one. |
| PacketStream.PacketSound | python/packet_stream.py:66-69 | A packet is returned only for a whole checksummed frame of a known type, whose members re-encode to its payload. |
| PacketStream.NeverRaises | python/packet_stream.py:54-69 | With a table fitting the gate and agreeing with its formats, `struct.error` is never raised. |
| PacketStream.ReadsGpsFrame | python/packet_stream.py:16-69 | Round trip: a firmware GPS packet is returned with its members, and the next read starts right behind it. |
| PacketStream.SensorFrameOverreads | python/packet_stream.py:15-63 | As written, `read(60)` after a sensor header takes 16 bytes of the next frame, and no packet returned re-encodes to the sensor payload. |
| PacketStream.ReadsFirmwareFrame | python/packet_stream.py:52-69 | Corrected: with the firmware's table every firmware packet is returned with its members and nothing behind it is taken. |

## Left out

- ShartModel.IcmSample: `collectDataICM20948` stores the driver's float accelerometer and gyroscope readings into the `int16_t` fields `acc_*` and `gyr_*` (lib/shart/src/shart/sensors.cpp:164-169, lib/comms/src/comms.h:52-57). The model takes the already-converted `int16` values as input, so that truncating float-to-integer conversion, and what it does to out-of-range readings, is not modelled.
- Floating point: float members are carried as their 32-bit patterns, and `struct.unpack` of an `f` returns those bits. The unit conversions and `convertRawIMU` in python/packet_stream_serial.py are not modelled.
- Hardware, I/O and time are inputs. This covers chip probes, driver initialisation results, samples, the SD card's answers, `file.isBusy()`, how many bytes `writeOut` gets onto the card, and `micros()`. Also left out are `initPins`, `initSerial`, `initRadio`, `getStatusRadio` (the radio stage is written once and never read by the core) and `initGTU7`.
- `init` in shart.cpp is modelled only by the `Shart.Shart` constructor, which takes the `micros()` reading of line 14 as its `offset` parameter and stores it in `chipTimeOffset`; the sensor and radio initialisation calls it makes are not modelled, and neither is `awaitStart`. `awaitStart` calls `receivePacketType` with two arguments, which does not match the three-parameter template in comms.h. Its `if (...) while (1) if (...)` nesting also spins forever once a non-start command has arrived. The start-command check is covered by the round trip `Comms.CommandRoundTrip`.
- `maybeFinish` also calls `receivePacketType` with two arguments. It is modelled with `acknowledge` false. Its `file.truncate()`, `file.close()`, `delay` and `exit(0)` are not modelled; `Shart.Shart.MaybeFinish` returns the stop decision instead.
- The LSM6DSO32 is modelled only as a probe result and an opaque collector. Its code, and the declarations of `ICMStatus`, `LSMStatus` and `chipTimeOffset`, are not part of this model. `ICMStatus` and `LSMStatus` are plain fields here, starting `UNINITIALIZED` like their declared siblings; `chipTimeOffset` is a plain field set by the constructor.
- `NavPvtPacket` (Packets.h) is not part of this model. Its size is the reader's `size` parameter (1 to 251), and the fix fields read out of a decoded payload are a parameter function.
- SdFat's `RingBuf` is not part of this model. It is modelled by its buffered bytes and its sticky write-error flag, as fields of `Shart`. `write` appends everything when it fits in `RING_BUF_CAPACITY`, and otherwise nothing and the flag. `writeOut(n)` moves what the card accepts from the front to the file. `rb.begin` empties the buffer and clears the flag.
- The file opened with `O_TRUNC` is modelled as emptied by a successful `open`. `file.close()` after a failed `preAllocate` is not modelled separately.
- Shart.Shart.Send: its contract names the fields `send` may change (checksums, storage, radio, `gps_ready`). The other fields are kept by its `modifies` frame rather than stated in `ensures`.
- `ATTEMPT_RECONNECT`, a compile-time switch, is the `attempt` parameter of `reconnect`. `DEBUG_MODE_BINARY` is taken as undefined, so `transmitData` writes to the radio port.
- Concurrency: `threadedReconnect` is modelled as a sequential call, not as a thread running beside the main loop. The main loops of src/ and of the Python scripts are not modelled; `PacketStreamFile.ReadAll` stands for the file script's loop.
- UbloxGps.UbloxGps: the staging array is written only for carriage values below `size + 2`, as the guard says. The out-of-bounds write feared by the comment at lib/Ublox7GPS/src/UbloxGps_backup.h:60 does not happen under the invariant `size <= 251`, which `UbloxGps.CarriageNeverWraps` proves.
- Two facts about the code that the model keeps as they are:
  - The checksum covers only the payload, not the type byte (lib/comms/src/comms.h:23).
  - A mismatching second UBX sync byte is not re-examined as a first one (lib/Ublox7GPS/src/UbloxGps_backup.h:50-53; see `UbloxGps.OverlappingSyncMissed`).
- Python parts left out:
  - `print`;
  - `os.chdir`;
  - opening the port or file in `begin`;
  - `flush`;
  - port timeouts.
- Python reads are modelled as follows. The serial `read(n)` returns what has arrived, up to n bytes, so a blocking read that waits for more is modelled as a short read; behind the 100-byte gate every read the tables call for is complete (`Ground.GatedReadsComplete`). `in_waiting` is the number of bytes received and not yet read.
- `struct.error` is modelled as a `StructError` outcome of `read_packet`, not as a precondition, because the scripts do not guard against it.
- comms.cpp (empty stubs and a `sendPacket` using an undefined `TYPE_SIZE`), main-bin2csv.cpp, main-bmp.cpp, main-shartlogger.cpp and the debug macros are not part of this model. Status updates are plain assignments.

## Findings

| source | as written | input that shows it | evidently intended | confidence | as-written member | corrected member |
|---|---|---|---|---|---|---|
| python/packet_stream_file.py:20 | the sensor entry is 56 bytes laid out as `<I11f3h2B`, but `sensor_p`'s payload is 44 bytes laid out as `<I6h5f3h2B` | a log file holding one sensor packet: `read(56)` returns its 44 bytes, their checksum matches, and `struct.unpack` raises; with another frame behind it 12 of that frame's bytes are swallowed | the firmware's entry (44, `<I6h5f3h2B`), as python/packet_stream_serial.py:17 has it | not executed | PacketStreamFile.SensorFrameRaises | PacketStreamFile.ReadsFirmwareLog |
| python/packet_stream.py:15 | the sensor entry is 60 bytes laid out as `<I3i11f` | a sensor packet followed by any frame, with more than 100 bytes waiting: `read(60)` takes 16 bytes of the next frame, and no returned packet holds the sensor payload | the firmware's entry (44, `<I6h5f3h2B`) | not executed | PacketStream.SensorFrameOverreads | PacketStream.ReadsFirmwareFrame |
| lib/shart/src/shart/gps.cpp:22 | `gps_packet.data.veln = packet.velD;` overwrites the north velocity and never writes `veld` | any fix whose `velD` differs from its `velN`: `veln` ends as `velD` and `veld` keeps its old value | `gps_packet.data.veld = packet.velD;` | not executed | ShartModel.VelocityMisfiled | ShartModel.FixCopied |
