# Qingping BLE service-data decoder — a Dafny model

This project models the part of ESPHome's Qingping components that turns a
Bluetooth LE service-data record of a Qingping CGG1 sensor into published
measurements:

- the **header classifier** (`parse_qingping_header`): the two service-UUID
  signatures, the data and capability bits of byte 0, the process-wide frame
  counter and the single CGG1 device signature that fixes the data-point
  offset at 8;
- the **data-point decoder** (`parse_qingping_message`): one
  type-length-value entry, decoded from a four-row table into temperature,
  humidity (int16 little-endian tenths) and battery level (unsigned byte);
- the **authenticated decryptor** (`decrypt_qingping_payload`): the length
  rule, the ciphertext range, the 12-byte nonce, the associated byte 0x11,
  the 4-byte tag, and, when AES-CCM authenticates, the in-place write-back of
  the plaintext and the clearing of the encryption bit;
- the **CGG1 component** (`QingpingCGG1::parse_device`): the address filter,
  the per-record chain of skips, the publishing of the present fields to the
  configured sensors and the success flag.

Files and modules, following the source files:

- `wrappers.dfy` — `Wrappers`: `Option`, the C++ `optional`.
- `qingping_types.dfy` — `QingpingTypes`: bytes, addresses, service data and
  the parse result of `qingping_ble.h`.
- `qingping_ble.dfy` — `QingpingBle`: the classifier (a `Classifier` class
  whose field `lastFrameCount` is the function-local static of the source),
  the decoder and the decryptor (a method working in place on the record as
  an `array`).
- `qingping_cgg1.dfy` — `QingpingCgg1`: the `QingpingCgg1` class with its
  `ParseDevice` loop, whose body is the method `ParseServiceData`; every
  published value is appended to its `published` sequence.

Each stateful method is proved against a specification function
(`ClassifyHeader`, `FrameCountAfter`, `DecodeDataPoint`, `DecryptedRecord`,
`DeviceReadings`, `AnyRecordAccepted`, `FrameCountAfterAll`), and the lemmas
state what the source promises of those functions.

Measurements are integers: temperature and humidity in tenths, the battery
level in percent. The component publishes them divided by 10.0 (battery: as
is).

Behaviour worth knowing, stated as lemmas:

- The header always reports `has_encryption` and `is_duplicate` as false, so
  the pipeline's duplicate and encryption skips never fire
  (`HeaderSkipsNeverFire`); the frame counter is recorded but never compared.
- The decoder then sets `has_encryption` from bit 3 of byte 0, and every
  record the header accepts has byte 0 equal to 0x08, so every published
  record carries `has_encryption` true (`RecordAcceptedIff`). The component
  does not call the decryptor.
- For the 0x0D data point `[0x0A, 0x00, 0x96, 0x01]` the code yields
  temperature 0x000A = 10 tenths (1.0 °C) and humidity 0x0196 = 406 tenths
  (40.6 %) (`Cgg1RecordExample`).
- The frame counter is stored before the device test, so a Qingping record
  with the data flag and an unknown device signature still moves it
  (`FrameCountAfter`, `FrameCountAfterAllLastStore`).

The source does not check that `raw[4]` or the data-point bytes at
`raw_offset` lie inside the record. These reads are preconditions
(`HeaderReadable`, `MessageReadable`, `RecordReadable`), each stated only
for the path on which the source makes the read.

## Model

| member | source | states |
|---|---|---|
| `QingpingBle.ClassifyHeader` | esphome/components/qingping_ble/qingping_ble.cpp:67-104 | a header is accepted exactly when the UUID matches 0x95,0xFE or 0xCD,0xFD and bytes 0 and 1 are 0x08, 0x01 (so the data flag is set); every accepted header is a CGG1 with offset 8, data flag set, capability, encryption and duplicate flags clear, and no measurement |
| `QingpingBle.FrameCountAfter` | esphome/components/qingping_ble/qingping_ble.cpp:69-100 | the retained counter becomes byte 4 exactly when the UUID matches and the data flag is set, including a record then rejected as an unknown device; a foreign UUID or a missing data flag leaves it as it was; after every accepted header it is byte 4 |
| `QingpingBle.Classifier.constructor` | esphome/components/qingping_ble/qingping_ble.cpp:84 | the retained frame counter starts at 0 |
| `QingpingBle.Classifier.ParseHeader` | esphome/components/qingping_ble/qingping_ble.cpp:67-104 | returns the classification of the record whatever the retained counter holds, and leaves the counter at byte 4 for every record that passes the data-flag test, including those then rejected as an unknown device |
| `QingpingBle.ClearEncryptionBit` | esphome/components/qingping_ble/qingping_ble.cpp:184 | `raw[0] &= ~0x08` clears bit 3 and keeps bits 0-2 and 4-7 |
| `QingpingBle.Int16LE` | esphome/components/qingping_ble/qingping_ble.cpp:41 | the little-endian value read as int16_t is the one value in -32768..32767 congruent to lo + 256*hi modulo 65536 |
| `QingpingBle.Int16ToLE` | esphome/components/qingping_ble/qingping_ble.cpp:39-41 | encoding an int16 as two little-endian bytes and decoding it gives the value back |
| `QingpingBle.Int16LERoundTrip` | esphome/components/qingping_ble/qingping_ble.cpp:41 | every byte pair is the encoding of the value it decodes to |
| `QingpingBle.DecodeDataPoint` | esphome/components/qingping_ble/qingping_ble.cpp:15-65 | a measurement changes only on a successful decode, and then to an int16 value (temperature, humidity) or to a byte (battery); a successful decode leaves at least one measurement present |
| `QingpingBle.ParseMessage` | esphome/components/qingping_ble/qingping_ble.cpp:15-65 | the method's outcome and new result are those of the decoding function |
| `QingpingBle.DecodeAcceptsExactlyTable` | esphome/components/qingping_ble/qingping_ble.cpp:28-62 | the decoder succeeds exactly on (0x04,2), (0x06,2), (0x0A,1), (0x0D,4); any length byte outside 1..4 fails |
| `QingpingBle.DecodeFrame` | esphome/components/qingping_ble/qingping_ble.cpp:15-64 | success or failure, `has_encryption` becomes bit 3 of byte 0 and the header fields are unchanged; a failed decode sets no measurement |
| `QingpingBle.DecodeValues` | esphome/components/qingping_ble/qingping_ble.cpp:39-59 | on success only the fields of the matched type are set: int16 tenths for temperature or humidity, both for 0x0D, the unsigned byte for battery |
| `QingpingBle.DecodeIgnoresMarker` | esphome/components/qingping_ble/qingping_ble.cpp:22-30 | the 0x10 marker byte has no influence on the outcome |
| `QingpingBle.DecodeExamples` | esphome/components/qingping_ble/qingping_ble.cpp:39-52 | [0xF6,0xFF] is -10 tenths, battery 0x64 is 100, lengths 0 and 5 are refused for any type |
| `QingpingBle.CipherLayout` | esphome/components/qingping_ble/qingping_ble.cpp:107-134 | lengths 19, 22, 23, 24 and no others are accepted; the ciphertext starts at 5 (length 19) or 11, holds 7 or len-18 bytes, at most 16, begins after byte 4 and ends at len-7, just before the 3 counter bytes and the 4 tag bytes |
| `QingpingBle.MacReverse` | esphome/components/qingping_ble/qingping_ble.cpp:113-119 | the six nonce bytes read back little-endian give the address modulo 2^48 |
| `QingpingBle.BuildVector` | esphome/components/qingping_ble/qingping_ble.cpp:121-143 | key, ciphertext slice, associated data [0x11], nonce = reversed address + raw[2..5) + raw[len-7..len-4), tag = raw[len-4..len); each fits its 16-byte buffer |
| `QingpingBle.WriteBack` | esphome/components/qingping_ble/qingping_ble.cpp:176-181 | the record keeps its length, holds the plaintext in the overwritten range and its old bytes elsewhere |
| `QingpingBle.DecryptedRecord` | esphome/components/qingping_ble/qingping_ble.cpp:106-192 | every length other than 19, 22, 23, 24 fails; a decrypted record keeps its length, the header bytes 1-4, the counter and the tag bytes (the last 7), and no longer has the encryption bit |
| `QingpingBle.DecryptSucceedsIff` | esphome/components/qingping_ble/qingping_ble.cpp:106-174 | decryption succeeds exactly when the length is accepted and the cipher (key setup and authentication) succeeds on the assembled parameters |
| `QingpingBle.DecryptWriteBack` | esphome/components/qingping_ble/qingping_ble.cpp:176-184 | after success the length is unchanged, the ciphertext range holds exactly the authenticated plaintext, byte 0 has only bit 3 cleared and every other byte is unchanged |
| `QingpingBle.DecryptPayload` | esphome/components/qingping_ble/qingping_ble.cpp:106-192 | the in-place method succeeds exactly when the decryption function does, then holds its record; on any failure the record is untouched |
| `QingpingCgg1.RecordResult` | esphome/components/qingping_cgg1/qingping_cgg1.cpp:27-40 | a record that passes every stage yields a CGG1 result at offset 8 with the data flag, not a duplicate, and with at least one measurement |
| `QingpingCgg1.Publications` | esphome/components/qingping_cgg1/qingping_cgg1.cpp:44-49 | at most three values; none exactly when no present field has a configured sensor |
| `QingpingCgg1.RecordReadings` | esphome/components/qingping_cgg1/qingping_cgg1.cpp:27-49 | one record publishes at most three values, and publishes something only when it passes every stage |
| `QingpingCgg1.DeviceReadings` | esphome/components/qingping_cgg1/qingping_cgg1.cpp:26-51 | a run of records publishes at most three values per record, and publishes something only when some record was accepted |
| `QingpingCgg1.AnyRecordAccepted` | esphome/components/qingping_cgg1/qingping_cgg1.cpp:25-57 | the success flag is set only when some record passed every stage |
| `QingpingCgg1.FrameCountAfterAll` | esphome/components/qingping_cgg1/qingping_cgg1.cpp:26-27 | after a run of records the counter is its old value or byte 4 of some record that reached the store |
| `QingpingCgg1.FrameCountAfterAllLastStore` | esphome/components/qingping_ble/qingping_ble.cpp:79-90 | after a run of records the counter is byte 4 of the last record that reached the store, or its old value when none did |
| `QingpingCgg1.PublicationsFaithful` | esphome/components/qingping_cgg1/qingping_cgg1.cpp:44-49 | a value is published exactly when its field is present and its sensor configured, in the order temperature, humidity, battery |
| `QingpingCgg1.HeaderSkipsNeverFire` | esphome/components/qingping_cgg1/qingping_cgg1.cpp:26-35 | after an accepted header the duplicate and encryption skips never apply, so a record passes exactly when its data point decodes |
| `QingpingCgg1.RecordAcceptedIff` | esphome/components/qingping_cgg1/qingping_cgg1.cpp:26-43 | a record passes every stage exactly when it has a Qingping UUID, the CGG1 signature and a table entry at offset 8; a passing record carries `has_encryption` true |
| `QingpingCgg1.AnyRecordAcceptedIff` | esphome/components/qingping_cgg1/qingping_cgg1.cpp:25-57 | the success flag is true exactly when some record passed every stage |
| `QingpingCgg1.DeviceReadingsConcat` | esphome/components/qingping_cgg1/qingping_cgg1.cpp:26-51 | the values published for consecutive runs of records are those of each run, in order |
| `QingpingCgg1.SkippedRecordPublishesNothing` | esphome/components/qingping_cgg1/qingping_cgg1.cpp:26-40 | a skipped record publishes nothing and the records after it are processed as if it were absent |
| `QingpingCgg1.Cgg1RecordExample` | esphome/components/qingping_cgg1/qingping_cgg1.cpp:39-46 | a CGG1 record with data point 0x0D [0x0A,0x00,0x96,0x01] publishes temperature 10 and humidity 406 tenths |
| `QingpingCgg1.QingpingCgg1.ParseServiceData` | esphome/components/qingping_cgg1/qingping_cgg1.cpp:27-50 | one pass of the loop body: the record counts as accepted exactly when it passes the header, duplicate, encryption and decode stages; the values appended are those of the present and configured fields, and the frame counter moves as the classifier moves it |
| `QingpingCgg1.QingpingCgg1.ParseDevice` | esphome/components/qingping_cgg1/qingping_cgg1.cpp:18-58 | a foreign address returns false and touches neither the published values nor the frame counter; otherwise it returns whether some record passed, appends the values of every passing record in record order, and leaves the counter as the classifier left it after the last record |

## Left out

- The AES-CCM primitive and its key setup (mbedtls `ccm_init`, `setkey`, `auth_decrypt`, `free`): a foreign library, modelled as the parameter `ccm`, any function whose plaintext has the ciphertext's length; a failed key setup is one of its failures. That encryption followed by decryption restores the plaintext, and that a tampered byte fails authentication, are properties of the cipher and are not proved.
- `ESPBTUUID::contains`: part of the BLE stack, modelled as the parameter `uuidContains` of the classifier.
- Float conversion (`/ 10.0f`) and the `%.1f` formatting: measurements stay integer tenths.
- `report_qingping_results`: logging only; it returns true for every present result, so in the component its stage never skips a record and is not modelled as a stage.
- `QingpingListener::parse_device` always returns false; `QingpingCGG1::dump_config` only logs.
- The sensors' `publish_state`: each call is one `Reading` appended to `published`.
- `__init__.py` (configuration schema and code generation), the device name string, and the enum values and optional fields of `QingpingParseResult` that no modelled code reads or writes.
- The commented-out duplicate and encryption rejections: the model follows the code as it runs.
- The fixed 16-byte buffers of `QingpingAESVector` are sequences of the exact parameter length; that each fits in 16 bytes is proved.
- Logging and the diagnostic hex dumps.
