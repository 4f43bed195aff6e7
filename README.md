# UHF RFID reader bridge: a Dafny model of its core

The firmware watches a UHF RFID reader (R200 driver) and forwards tag arrivals
to an MQTT broker. This project models the logic of `src/main.cpp` that
decides what is sent and when:

- **Identifier encoder** (`uidToHexString`): the tag buffer becomes upper-case
  hex, two characters per byte. That is the Base 16 alphabet of section 8 of
  RFC 4648. Module `Hex` holds the canonical encoding `Encode`, its inverse
  `Decode` with round-trip lemmas in both directions, and the firmware's own
  construction (`UidToHexString`). That method pads with `"0"`, appends
  Arduino's lower-case `String(b, HEX)` and upper-cases at the end. It is proved
  equal to `Encode`.
- **Presence debouncer** (`isNewCard` and the global `cardWasPresent`): module
  `Presence` holds the specification. It defines a present read, the arrival
  edge, the count of arrivals over a sequence of reads and an independent
  count of maximal present runs. The two counts are proved equal. Debouncing
  is by presence, not identity: `lastUID` is declared and never used.
- **Scan payload** (`handleRfidScan`): module `Payload` builds the JSON object
  `{"uid":"<hex>","reader_id":"ESP32_RFID_001"}`. It also gives a consumer's
  parser that is proved to be its exact inverse.
- **Poll interval** (the guard in `loop`): module `PollClock` models the
  32-bit `unsigned long` subtraction `millis() - lastPollTime > 10` modulo
  2^32. It proves that, as long as fewer than 2^32 ms (about 49.7 days)
  separate the last poll from the current pass, the wraparound never makes a
  poll early or late; beyond that the guard sees the elapsed time only modulo
  2^32 and can miss a due poll.
- **Device state** (module `Firmware`): class `Reader` holds the globals
  `lastPollTime` and `cardWasPresent` as fields. A third field,
  `publishCalls`, records the calls made to the pub/sub client's `publish`.
  The methods `IsNewCard`, `HandleRfidScan`, `PollStep` and `Loop` update them
  as the firmware does. `ScanPublications` specifies the publish calls over
  any sequence of reads, and `HandleScans`, which runs the scan handler over
  such a sequence, is proved to make exactly those calls.

Inputs from outside the program are parameters:

- the clock: `now` and `stamp` are the two `millis()` reads at
  src/main.cpp:150 and 152;
- the contents of the tag buffer after the driver's `loop`/`poll`: `uid`;
- the broker's answer to `publish`: `accepted`.

The serial log line of `handleRfidScan` is returned as a `ScanOutcome`.

The poll fires only when strictly more than 10 ms have elapsed (`> 10`,
src/main.cpp:150).

## Model

| member | source | states |
|---|---|---|
| Hex.Encode | src/main.cpp:72-82 | the encoding of N bytes has exactly 2·N characters, every one of them in `0-9A-F` |
| Hex.EncodeAt | src/main.cpp:74-79 | byte i occupies characters 2i and 2i+1, and that pair parses back to byte i |
| Hex.DecodeEncode | src/main.cpp:72-82 | splitting the encoding into pairs and parsing each gives back the bytes exactly |
| Hex.EncodeDecode | src/main.cpp:72-82 | any text that decodes is the encoding of its result: the encoding is canonical |
| Hex.DecodeTotal | src/main.cpp:72-82 | every even-length text of upper-case hex digits decodes; with the two lemmas above, the encoding is a bijection onto such texts (onto 24-character ones for 12-byte buffers) |
| Hex.UidToHexString | src/main.cpp:72-82 | zero-padding, appending the lower-case `String(b, HEX)` digits and upper-casing at the end yields exactly `Encode(uid[..length])`; a non-positive length yields "" |
| Hex.ExampleTagEncoding | src/main.cpp:107 | the 12-byte buffer 04 12 A3 00.. encodes as `0412A3000000000000000000` |
| Presence.CardIsPresent | src/main.cpp:86-92 | the early-exit scan of the 12 bytes returns true iff some byte is non-zero |
| Presence.EventsAfterPresence | src/main.cpp:95-101 | starting from "present", no arrival is reported until the leading present run ends; counting then continues from "absent" |
| Presence.EventsCountRuns | src/main.cpp:84-102 | from the initial absent state, the number of arrivals over any sequence of reads equals the number of maximal runs of non-zero reads |
| Presence.PresenceNotIdentity | src/main.cpp:84-102 | two read sequences with the same presence pattern report the same arrivals, so swapping tags within a present run adds no event |
| Presence.AbsentReadsReportNothing | src/main.cpp:98-101 | all-zero reads never report an arrival, whatever the previous state |
| Presence.ResidentTagReportedOnce | src/main.cpp:95-101 | a tag left in range for k ≥ 1 consecutive reads is reported exactly once |
| Presence.ReturningTagReportedTwice | src/main.cpp:95-101 | present, absent, present again: two arrivals |
| PollClock.Sub | src/main.cpp:150 | unsigned subtraction is the difference modulo 2^32 (and the plain difference when no wrap occurs) |
| PollClock.ElapsedAcrossWrap | src/main.cpp:150 | for any elapsed time d < 2^32, the wrapped difference between the later counter and the baseline is d, across the wrap too |
| PollClock.PollCadence | src/main.cpp:150-153 | the guard holds exactly when more than 10 ms have elapsed since the baseline |
| PollClock.PollCadenceAbsolute | src/main.cpp:150-153 | in absolute milliseconds since boot, the guard on the wrapped counters holds iff t − t0 > 10, for any t0 ≤ t < t0 + 2^32 |
| PollClock.PollLateAfterFullWrap | src/main.cpp:150-153 | when 2^32 + 4 ms separate the last poll from the current pass, the guard does not fire: the cadence holds only within one wrap of the last poll |
| PollClock.PollAtWrapBoundary | src/main.cpp:150 | with the baseline at 2^32−1, the counter at 9 (10 ticks later) does not poll and at 10 (11 ticks later) does |
| Payload.ParseScanPayloadRoundTrip | src/main.cpp:110 | a consumer parsing the payload recovers the `uid` text exactly |
| Payload.ScanPayloadOfParse | src/main.cpp:110 | only texts of the payload's exact shape parse, and each is the payload of what it parses to |
| Payload.ScanPayloadShape | src/main.cpp:17 | the reader identity needs no JSON escaping, and the payload is 39 characters longer than the identifier |
| Firmware.EncodedUidJsonSafe | src/main.cpp:107-110 | the encoded identifier contains no quote, backslash or control character, so the identifier can stand between the quotes of the payload without escaping |
| Firmware.OnePublicationPerRun | src/main.cpp:104-118 | from power-up, one publish call per maximal run of non-zero reads |
| Presence.ArrivalReadsSnoc | src/main.cpp:95-101 | the arrivals over reads followed by one more read are those over the reads, then that read's from the presence state they leave |
| Presence.ArrivalReadsFromScans | src/main.cpp:95-101 | every reported arrival is one of the reads and has a non-zero byte |
| Firmware.ScanPublicationsSnoc | src/main.cpp:104-118 | the publish calls over reads followed by one more read are those over the reads, then those of the one read from the presence state they leave |
| Firmware.PublicationsWellFormed | src/main.cpp:107-112 | every publish call goes to the scan topic, and from its payload a consumer recovers 24 hex characters that decode to exactly the 12-byte buffer read at that arrival |
| Firmware.ExampleScan | src/main.cpp:104-118 | an empty read followed by tag 04 12 A3 00.. gives one publish call, on the scan topic, with uid `0412A3000000000000000000` |
| Firmware.Reader.constructor | src/main.cpp:32-34 | power-up: `lastPollTime` is 0, `cardWasPresent` is false, nothing published |
| Firmware.Reader.IsNewCard | src/main.cpp:84-102 | returns true iff the buffer has a non-zero byte and the flag was false; afterwards the flag equals "some byte is non-zero", whatever it was before |
| Firmware.Reader.HandleRfidScan | src/main.cpp:104-118 | on an arrival, exactly one publish call with the scan payload of the encoded buffer, whatever the client answers (no retry); otherwise none; the outcome reports which log line is printed |
| Firmware.Reader.HandleScans | src/main.cpp:104-118 | repeated passes of the scan handler over a sequence of reads append exactly `ScanPublications` of those reads, whatever the broker answers, and leave the flag at the last read's presence; from the absent state, one call per maximal run of non-zero reads |
| Firmware.Reader.PollStep | src/main.cpp:150-153 | polls iff the wrapped difference exceeds 10; the baseline becomes the second clock read when it polls and is unchanged otherwise |
| Firmware.Reader.Loop | src/main.cpp:139-159 | one connected pass of `loop`: the poll step, then the scan handler, with the combined effect on all three fields |

## Left out

- `setup_wifi` (src/main.cpp:36-53): link-layer bring-up against the WiFi client; it is I/O with an unbounded busy-wait.
- `reconnect_mqtt` and the `client.connected()` check in `loop` (src/main.cpp:55-68, 141-143): they are driven entirely by the external pub/sub client. `Firmware.Reader.Loop` models a pass where the client is already connected.
- `client.loop()`, `client.setServer`, `rfid.begin`, `rfid.loop` and `rfid.poll` (src/main.cpp:121-147, 151): these are foreign calls. Their only effect on the model is the buffer contents, which are a parameter. `PollStep` returns whether `rfid.poll()` is called.
- `millis()`: the time is given as inputs, `now` for the guard and `stamp` for the update.
- Serial logging: it is replaced by the `ScanOutcome` value that `HandleRfidScan` returns.
- Configuration constants other than `CLIENT_ID` and `RFID_SCAN_TOPIC`: SSID, password, broker, port, pins and the status topic. They are used only by the parts above.
- `lastUID` (src/main.cpp:33): it is declared and never read or written, so it has no behaviour to model. Its absence is why debouncing is by presence (`Presence.PresenceNotIdentity`).
