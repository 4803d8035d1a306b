/**
  The Qingping service-data decoder (qingping_ble.cpp): the header
  classifier with its retained frame counter, the single data-point
  decoder, and the parameter assembly and in-place write-back around the
  AES-CCM decryption of an encrypted record.
 */
module QingpingBle {
  import opened Wrappers
  import opened QingpingTypes

  /** Byte 0 of a record carries three flags: data (0x40), capability (0x20), encryption (0x08). */
  predicate HasDataBit(b0: byte) { (b0 / 0x40) % 2 == 1 }
  predicate HasCapabilityBit(b0: byte) { (b0 / 0x20) % 2 == 1 }
  predicate HasEncryptionBit(b0: byte) { (b0 / 0x08) % 2 == 1 }

  /** `b0 & ~0x08`: bit 3 cleared, every other bit kept. */
  function ClearEncryptionBit(b0: byte): (r: byte)
    ensures !HasEncryptionBit(r)
    ensures r % 0x08 == b0 % 0x08 && r / 0x10 == b0 / 0x10
  {
    if HasEncryptionBit(b0) then b0 - 0x08 else b0
  }

  // ---------------------------------------------------------------------
  // Header classifier
  // ---------------------------------------------------------------------

  /** The UUID carries one of the two Qingping service signatures. */
  predicate IsQingpingService(contains: UuidMatcher, uuid: Uuid) {
    contains(uuid, 0x95, 0xFE) || contains(uuid, 0xCD, 0xFD)
  }

  /** Byte 0 announces data: either the data bit or the encryption bit is set. */
  predicate HasDataFlag(b0: byte) {
    HasDataBit(b0) || HasEncryptionBit(b0)
  }

  /**
    The bytes the classifier reads exist: byte 0 once the UUID matches,
    bytes 1 to 4 once the data flag is set. The classifier itself does
    not check the record length.
   */
  predicate HeaderReadable(contains: UuidMatcher, sd: ServiceData) {
    IsQingpingService(contains, sd.uuid) ==>
      |sd.data| >= 1 && (HasDataFlag(sd.data[0]) ==> |sd.data| >= 5)
  }

  /** Bytes 0 and 1 carry the signature of the round e-ink CGG1. */
  predicate IsCgg1Signature(data: seq<byte>) {
    |data| >= 2 && data[0] == 0x08 && data[1] == 0x01
  }

  /** The header result with no measurement decoded yet. */
  function HeaderResult(deviceType: DeviceType, hasCapability: bool, rawOffset: int): ParseResult {
    ParseResult(deviceType, None, None, None, true, hasCapability, false, false, rawOffset)
  }

  /**
    What parse_qingping_header returns for a record. The retained frame
    counter plays no part: the duplicate comparison is disabled.
   */
  function ClassifyHeader(contains: UuidMatcher, sd: ServiceData): (r: Option<ParseResult>)
    requires HeaderReadable(contains, sd)
    ensures r.Some? <==> IsQingpingService(contains, sd.uuid) && IsCgg1Signature(sd.data)
    ensures r.Some? ==> HasDataFlag(sd.data[0])
    ensures r.Some? ==>
      && r.value.deviceType == Cgg1
      && r.value.rawOffset == 8
      && r.value.hasData
      && !r.value.hasCapability
      && !r.value.hasEncryption
      && !r.value.isDuplicate
      && r.value.temperature.None? && r.value.humidity.None? && r.value.batteryLevel.None?
  {
    if !IsQingpingService(contains, sd.uuid) then None
    else
      var b0 := sd.data[0];
      if !HasDataFlag(b0) then None
      else if b0 == 0x08 && sd.data[1] == 0x01 then
        Some(HeaderResult(Cgg1, HasCapabilityBit(b0), 8))
      else None
  }

  /**
    The classifier gets as far as storing byte 4 in the frame counter: the
    UUID matches and the data flag is set. The device test comes after it.
   */
  predicate StoresFrameCount(contains: UuidMatcher, sd: ServiceData)
    requires HeaderReadable(contains, sd)
  {
    IsQingpingService(contains, sd.uuid) && HasDataFlag(sd.data[0])
  }

  /**
    The value of the retained frame counter after the classifier has seen
    `sd`: byte 4 of every record that reaches the store, accepted or then
    rejected as an unknown device; the old value for every other record.
   */
  function FrameCountAfter(contains: UuidMatcher, last: byte, sd: ServiceData): (r: byte)
    requires HeaderReadable(contains, sd)
    ensures StoresFrameCount(contains, sd) ==> r == sd.data[4]
    ensures !StoresFrameCount(contains, sd) ==> r == last
    ensures ClassifyHeader(contains, sd).Some? ==> r == sd.data[4]
    ensures StoresFrameCount(contains, sd) && !IsCgg1Signature(sd.data) ==>
      ClassifyHeader(contains, sd).None? && r == sd.data[4]
    ensures !IsQingpingService(contains, sd.uuid) ==> r == last
  {
    if IsQingpingService(contains, sd.uuid) && HasDataFlag(sd.data[0]) then sd.data[4] else last
  }

  /**
    The header classifier. Its one piece of state is the frame counter
    that parse_qingping_header keeps in a function-local static: one
    Classifier object stands for it in a running process.
   */
  class Classifier {
    /** The BLE stack's UUID signature test. */
    const uuidContains: UuidMatcher
    var lastFrameCount: byte

    constructor (uuidContains: UuidMatcher)
      ensures this.uuidContains == uuidContains && lastFrameCount == 0
    {
      this.uuidContains := uuidContains;
      lastFrameCount := 0;
    }

    /**
      Classifies one record. The counter takes byte 4 of every record
      that passes the data-flag test, whether or not the device is
      then recognised; an unchanged counter never leads to rejection.
     */
    method ParseHeader(sd: ServiceData) returns (res: Option<ParseResult>)
      requires HeaderReadable(uuidContains, sd)
      modifies this`lastFrameCount
      ensures res == ClassifyHeader(uuidContains, sd)
      ensures lastFrameCount == FrameCountAfter(uuidContains, old(lastFrameCount), sd)
    {
      if !uuidContains(sd.uuid, 0x95, 0xFE) && !uuidContains(sd.uuid, 0xCD, 0xFD) {
        return None;
      }
      var raw := sd.data;
      var hasData := (raw[0] / 0x40) % 2 == 1 || (raw[0] / 0x08) % 2 == 1;
      var hasCapability := (raw[0] / 0x20) % 2 == 1;
      var hasEncryption := false;
      if !hasData {
        return None;
      }
      lastFrameCount := raw[4];
      var isDuplicate := false;
      var rawOffset := if hasCapability then 12 else 11;
      if raw[0] == 0x08 && raw[1] == 0x01 {
        rawOffset := 8;
        res := Some(ParseResult(Cgg1, None, None, None, hasData, hasCapability, hasEncryption, isDuplicate, rawOffset));
      } else {
        res := None;
      }
    }
  }

  // ---------------------------------------------------------------------
  // Data-point decoder
  // ---------------------------------------------------------------------

  /** The four (type code, length) pairs the decoder knows. */
  predicate InDispatchTable(kind: byte, length: int) {
    || (kind == 0x04 && length == 2)
    || (kind == 0x06 && length == 2)
    || (kind == 0x0A && length == 1)
    || (kind == 0x0D && length == 4)
  }

  /**
    The bytes the decoder reads exist: the type, marker and length bytes
    at `offset`, and the value bytes when the (type, length) pair is one it
    decodes. The decoder itself does not check the record length.
   */
  predicate MessageReadable(message: seq<byte>, offset: int) {
    && 0 <= offset
    && offset + 3 <= |message|
    && (InDispatchTable(message[offset], message[offset + 2]) ==>
          offset + 3 + message[offset + 2] <= |message|)
  }

  /**
    A little-endian 16-bit value read as a two's-complement int16_t: the
    one value in the int16 range that agrees with the unsigned value
    modulo 2^16.
   */
  function Int16LE(lo: byte, hi: byte): (v: int)
    ensures -0x8000 <= v < 0x8000
    ensures (v - (lo as int + 0x100 * hi as int)) % 0x10000 == 0
  {
    var u := lo as int + 0x100 * hi as int;
    if u < 0x8000 then u else u - 0x10000
  }

  /** The two bytes a sensor sends for an int16 value, low byte first. */
  function Int16ToLE(v: int): (bytes: (byte, byte))
    requires -0x8000 <= v < 0x8000
    ensures Int16LE(bytes.0, bytes.1) == v
  {
    var u := if v < 0 then v + 0x10000 else v;
    (u % 0x100, u / 0x100)
  }

  /** Every pair of bytes is the encoding of the value it decodes to. */
  lemma Int16LERoundTrip(lo: byte, hi: byte)
    ensures Int16ToLE(Int16LE(lo, hi)) == (lo, hi)
  {
  }

  /**
    What parse_qingping_message does to `result`: it takes the encryption
    bit of byte 0, then decodes the one data point at result.rawOffset
    (type, a 0x10 marker that is not checked, length, value).
   */
  function DecodeDataPoint(message: seq<byte>, result: ParseResult): (r: (bool, ParseResult))
    requires MessageReadable(message, result.rawOffset)
    ensures r.0 ==> r.1.temperature.Some? || r.1.humidity.Some? || r.1.batteryLevel.Some?
    ensures r.1.temperature == result.temperature
         || (r.0 && r.1.temperature.Some? && -0x8000 <= r.1.temperature.value < 0x8000)
    ensures r.1.humidity == result.humidity
         || (r.0 && r.1.humidity.Some? && -0x8000 <= r.1.humidity.value < 0x8000)
    ensures r.1.batteryLevel == result.batteryLevel
         || (r.0 && r.1.batteryLevel.Some? && 0 <= r.1.batteryLevel.value < 0x100)
  {
    var r := result.(hasEncryption := HasEncryptionBit(message[0]));
    var offset := result.rawOffset;
    var kind := message[offset];
    var length := message[offset + 2];
    if length < 1 || length > 4 then (false, r)
    else if kind == 0x04 && length == 2 then
      (true, r.(temperature := Some(Int16LE(message[offset + 3], message[offset + 4]))))
    else if kind == 0x06 && length == 2 then
      (true, r.(humidity := Some(Int16LE(message[offset + 3], message[offset + 4]))))
    else if kind == 0x0A && length == 1 then
      (true, r.(batteryLevel := Some(message[offset + 3])))
    else if kind == 0x0D && length == 4 then
      (true, r.(temperature := Some(Int16LE(message[offset + 3], message[offset + 4])),
                humidity := Some(Int16LE(message[offset + 5], message[offset + 6]))))
    else (false, r)
  }

  /** Decodes the data point of `message` into the fields of `result`. */
  method ParseMessage(message: seq<byte>, result: ParseResult) returns (ok: bool, out: ParseResult)
    requires MessageReadable(message, result.rawOffset)
    ensures (ok, out) == DecodeDataPoint(message, result)
  {
    out := result.(hasEncryption := (message[0] / 0x08) % 2 == 1);
    var raw := message[result.rawOffset..];
    var data := raw[3..];
    var dataLength := raw[2];
    if dataLength < 1 || dataLength > 4 {
      return false, out;
    } else if raw[0] == 0x04 && dataLength == 2 {
      var temperature := Int16LE(data[0], data[1]);
      out := out.(temperature := Some(temperature));
    } else if raw[0] == 0x06 && dataLength == 2 {
      var humidity := Int16LE(data[0], data[1]);
      out := out.(humidity := Some(humidity));
    } else if raw[0] == 0x0A && dataLength == 1 {
      out := out.(batteryLevel := Some(data[0]));
    } else if raw[0] == 0x0D && dataLength == 4 {
      var temperature := Int16LE(data[0], data[1]);
      var humidity := Int16LE(data[2], data[3]);
      out := out.(temperature := Some(temperature), humidity := Some(humidity));
    } else {
      return false, out;
    }
    ok := true;
  }

  /** The decoder succeeds exactly on the four table entries; any length outside 1..4 fails. */
  lemma DecodeAcceptsExactlyTable(message: seq<byte>, result: ParseResult)
    requires MessageReadable(message, result.rawOffset)
    ensures DecodeDataPoint(message, result).0 <==>
      InDispatchTable(message[result.rawOffset], message[result.rawOffset + 2])
    ensures var length := message[result.rawOffset + 2];
      (length < 1 || length > 4) ==> !DecodeDataPoint(message, result).0
  {
  }

  /**
    Whatever the outcome, the encryption flag becomes bit 3 of byte 0 and
    the header fields stay as they were; a failed decode sets no measurement.
   */
  lemma DecodeFrame(message: seq<byte>, result: ParseResult)
    requires MessageReadable(message, result.rawOffset)
    ensures DecodeDataPoint(message, result).1.hasEncryption == HasEncryptionBit(message[0])
    ensures var out := DecodeDataPoint(message, result).1;
      && out.deviceType == result.deviceType
      && out.hasData == result.hasData
      && out.hasCapability == result.hasCapability
      && out.isDuplicate == result.isDuplicate
      && out.rawOffset == result.rawOffset
    ensures !DecodeDataPoint(message, result).0 ==>
      DecodeDataPoint(message, result).1 == result.(hasEncryption := HasEncryptionBit(message[0]))
  {
    var length := message[result.rawOffset + 2];
    if length < 1 || length > 4 {
    } else {
    }
  }

  /**
    On success exactly the fields named by the type code are set, to the
    fixed-point value of the value bytes: int16 tenths for temperature and
    humidity, the unsigned byte for the battery level.
   */
  lemma DecodeValues(message: seq<byte>, result: ParseResult)
    requires MessageReadable(message, result.rawOffset)
    requires DecodeDataPoint(message, result).0
    ensures var out := DecodeDataPoint(message, result).1;
      var kind := message[result.rawOffset];
      var value := message[result.rawOffset + 3..];
      && (kind == 0x04 || kind == 0x06 || kind == 0x0A || kind == 0x0D)
      && out.temperature == (if kind == 0x04 || kind == 0x0D then Some(Int16LE(value[0], value[1])) else result.temperature)
      && out.humidity == (if kind == 0x06 then Some(Int16LE(value[0], value[1]))
                          else if kind == 0x0D then Some(Int16LE(value[2], value[3]))
                          else result.humidity)
      && out.batteryLevel == (if kind == 0x0A then Some(value[0]) else result.batteryLevel)
  {
  }

  /** The marker byte after the type code is never looked at. */
  lemma DecodeIgnoresMarker(message: seq<byte>, result: ParseResult, marker: byte)
    requires MessageReadable(message, result.rawOffset)
    ensures MessageReadable(message[result.rawOffset + 1 := marker], result.rawOffset)
    ensures DecodeDataPoint(message[result.rawOffset + 1 := marker], result) == DecodeDataPoint(message, result)
  {
  }

  /**
    Worked data points: [0xF6, 0xFF] is -10 tenths of a degree, the
    battery byte 0x64 is 100 %, and a length of 0 or 5 is refused
    whatever the type code.
   */
  lemma DecodeExamples(result: ParseResult, kind: byte)
    requires result.rawOffset == 0
    ensures DecodeDataPoint([0x04, 0x10, 0x02, 0xF6, 0xFF], result)
         == (true, result.(hasEncryption := false, temperature := Some(-10)))
    ensures DecodeDataPoint([0x0A, 0x10, 0x01, 0x64], result).1.batteryLevel == Some(100)
    ensures !DecodeDataPoint([kind, 0x10, 0x00], result).0
    ensures !DecodeDataPoint([kind, 0x10, 0x05, 0, 0, 0, 0, 0], result).0
  {
  }

  // ---------------------------------------------------------------------
  // Authenticated decryption
  // ---------------------------------------------------------------------

  /** Sizes of the AES-CCM parameters, and the capacity of each buffer of the vector. */
  const KeySize := 16
  const AuthSize := 1
  const TagSize := 4
  const IvSize := 12
  const BufferSize := 16

  /** The one associated-data byte. */
  const AuthData: byte := 0x11

  /** A decryption function returns plaintexts of the ciphertext's length. */
  ghost predicate LengthPreserving(f: (seq<byte>, seq<byte>, seq<byte>, seq<byte>, seq<byte>) -> Option<seq<byte>>) {
    forall key, nonce, aad, ct, tag :: f(key, nonce, aad, ct, tag).Some? ==> |f(key, nonce, aad, ct, tag).value| == |ct|
  }

  /**
    AES-CCM decryption-verification (section 6.2 of NIST SP 800-38C) as
    the crypto library performs it, with key setup: given key, nonce,
    associated data, ciphertext and tag it yields the plaintext, of the
    ciphertext's length, or nothing when key setup or authentication fails.
   */
  type CcmDecrypt = f: (seq<byte>, seq<byte>, seq<byte>, seq<byte>, seq<byte>) -> Option<seq<byte>> | LengthPreserving(f)
    witness (key: seq<byte>, nonce: seq<byte>, aad: seq<byte>, ct: seq<byte>, tag: seq<byte>) => None

  /** Where the ciphertext lies in a record. */
  datatype CipherRange = CipherRange(pos: nat, size: nat)

  /**
    The ciphertext range of a record of `n` bytes, for the only lengths
    the decryptor takes. In each case the ciphertext ends where the three
    payload-counter bytes and the four tag bytes begin, it starts after
    bytes 0 to 4, and it fits the 16-byte buffers of the vector.
   */
  function CipherLayout(n: int): (r: Option<CipherRange>)
    ensures r.Some? <==> n == 19 || n == 22 || n == 23 || n == 24
    ensures r.Some? ==> r.value.pos == (if n == 19 then 5 else 11)
    ensures r.Some? ==> r.value.size == (if n == 19 then 7 else n - 18)
    ensures r.Some? ==> 1 <= r.value.size <= BufferSize && 5 <= r.value.pos && r.value.pos + r.value.size == n - 7
  {
    if !(n == 19 || (n >= 22 && n <= 24)) then None
    else
      var datasize := if n == 19 then n - 12 else n - 18;
      var cipherPos := if n == 19 then 5 else 11;
      Some(CipherRange(cipherPos, datasize))
  }

  /**
    The six bytes of the device address, least significant first: read
    back little-endian they give the 48-bit address.
   */
  function MacReverse(address: uint64): (mac: seq<byte>)
    ensures |mac| == 6
    ensures mac[0] as int + 0x100 * (mac[1] as int + 0x100 * (mac[2] as int + 0x100 * (mac[3] as int + 0x100 * (mac[4] as int + 0x100 * mac[5] as int))))
         == address % 0x1_0000_0000_0000
  {
    // shift k holds address >> 8k
    var shift0 := address;
    var shift1 := shift0 / 0x100;
    var shift2 := shift1 / 0x100;
    var shift3 := shift2 / 0x100;
    var shift4 := shift3 / 0x100;
    var shift5 := shift4 / 0x100;
    var mac := [shift0 % 0x100, shift1 % 0x100, shift2 % 0x100, shift3 % 0x100, shift4 % 0x100, shift5 % 0x100];
    LittleEndian48(address, mac);
    mac
  }

  /** Six bytes taken from successive 8-bit shifts of a value read back little-endian give its low 48 bits. */
  lemma LittleEndian48(address: uint64, mac: seq<byte>)
    requires |mac| == 6
    requires mac[0] == address % 0x100
    requires mac[1] == address / 0x100 % 0x100
    requires mac[2] == address / 0x100 / 0x100 % 0x100
    requires mac[3] == address / 0x100 / 0x100 / 0x100 % 0x100
    requires mac[4] == address / 0x100 / 0x100 / 0x100 / 0x100 % 0x100
    requires mac[5] == address / 0x100 / 0x100 / 0x100 / 0x100 / 0x100 % 0x100
    ensures mac[0] as int + 0x100 * (mac[1] as int + 0x100 * (mac[2] as int + 0x100 * (mac[3] as int + 0x100 * (mac[4] as int + 0x100 * mac[5] as int))))
         == address % 0x1_0000_0000_0000
  {
    var s1 := address / 0x100;
    var s2 := s1 / 0x100;
    var s3 := s2 / 0x100;
    var s4 := s3 / 0x100;
    var s5 := s4 / 0x100;
    var s6 := s5 / 0x100;
    var sum5 := mac[5] as int;
    var sum4 := mac[4] as int + 0x100 * sum5;
    var sum3 := mac[3] as int + 0x100 * sum4;
    var sum2 := mac[2] as int + 0x100 * sum3;
    var sum1 := mac[1] as int + 0x100 * sum2;
    var sum0 := mac[0] as int + 0x100 * sum1;
    assert s5 == sum5 + 0x100 * s6;
    assert s4 == sum4 + 0x1_0000 * s6;
    assert s3 == sum3 + 0x100_0000 * s6;
    assert s2 == sum2 + 0x1_0000_0000 * s6;
    assert s1 == sum1 + 0x100_0000_0000 * s6;
    assert address == sum0 + 0x1_0000_0000_0000 * s6;
    assert 0 <= sum0 < 0x1_0000_0000_0000;
  }

  /** The AES-CCM parameters as decrypt_qingping_payload stores them in the QingpingAESVector buffers. */
  datatype AesVector = AesVector(key: seq<byte>, ciphertext: seq<byte>, authdata: seq<byte>, iv: seq<byte>, tag: seq<byte>)

  /**
    The decryption parameters of a record: the key, the ciphertext range,
    the associated byte 0x11, the nonce (the reversed address, bytes 2 to
    4 of the record, then the three counter bytes that end 4 bytes before
    the end) and the last four bytes as tag. Every part fits its 16-byte
    buffer and reads inside the record.
   */
  function BuildVector(raw: seq<byte>, bindkey: seq<byte>, address: uint64): (v: AesVector)
    requires CipherLayout(|raw|).Some? && |bindkey| == KeySize
    ensures var n := |raw|; var range := CipherLayout(n).value;
      && v.key == bindkey
      && v.ciphertext == raw[range.pos..range.pos + range.size]
      && v.authdata == [AuthData]
      && |v.iv| == IvSize && v.iv[..6] == MacReverse(address) && v.iv[6..9] == raw[2..5] && v.iv[9..] == raw[n - 7..n - 4]
      && v.tag == raw[n - TagSize..]
      && |v.key| <= BufferSize && |v.ciphertext| <= BufferSize && |v.authdata| <= BufferSize
      && |v.iv| <= BufferSize && |v.tag| <= BufferSize
  {
    var n := |raw|;
    var range := CipherLayout(n).value;
    AesVector(
      bindkey,
      raw[range.pos..range.pos + range.size],
      [AuthData],
      MacReverse(address) + raw[2..5] + raw[n - 7..n - 4],
      raw[n - TagSize..])
  }

  /** `raw` with the bytes from `pos` on replaced by `plain`. */
  function WriteBack(raw: seq<byte>, pos: nat, plain: seq<byte>): (r: seq<byte>)
    requires pos + |plain| <= |raw|
    ensures |r| == |raw|
    ensures forall k :: 0 <= k < |r| ==> r[k] == if pos <= k < pos + |plain| then plain[k - pos] else raw[k]
  {
    raw[..pos] + plain + raw[pos + |plain|..]
  }

  /**
    The record after decrypt_qingping_payload, or None when it fails (on
    the length, the key setup or the authentication): the plaintext
    written over the ciphertext and the encryption bit of byte 0 cleared.
   */
  function DecryptedRecord(raw: seq<byte>, bindkey: seq<byte>, address: uint64, ccm: CcmDecrypt): (r: Option<seq<byte>>)
    requires |bindkey| == KeySize
    ensures !(|raw| == 19 || 22 <= |raw| <= 24) ==> r.None?
    ensures r.Some? ==> |r.value| == |raw| && !HasEncryptionBit(r.value[0])
    ensures r.Some? ==> r.value[1..5] == raw[1..5] && r.value[|raw| - 7..] == raw[|raw| - 7..]
  {
    match CipherLayout(|raw|)
    case None => None
    case Some(range) =>
      var v := BuildVector(raw, bindkey, address);
      match ccm(v.key, v.iv, v.authdata, v.ciphertext, v.tag)
      case None => None
      case Some(plain) => Some(WriteBack(raw, range.pos, plain)[0 := ClearEncryptionBit(raw[0])])
  }

  /** Decryption succeeds exactly when the length is accepted and the cipher authenticates. */
  lemma DecryptSucceedsIff(raw: seq<byte>, bindkey: seq<byte>, address: uint64, ccm: CcmDecrypt)
    requires |bindkey| == KeySize
    ensures DecryptedRecord(raw, bindkey, address, ccm).Some? <==>
      && (|raw| == 19 || 22 <= |raw| <= 24)
      && var v := BuildVector(raw, bindkey, address); ccm(v.key, v.iv, v.authdata, v.ciphertext, v.tag).Some?
  {
  }

  /**
    A successful decryption keeps the length, puts the authenticated
    plaintext exactly in the ciphertext range, clears bit 3 of byte 0 and
    no other bit, and leaves every other byte as it was.
   */
  lemma DecryptWriteBack(raw: seq<byte>, bindkey: seq<byte>, address: uint64, ccm: CcmDecrypt)
    requires |bindkey| == KeySize
    requires DecryptedRecord(raw, bindkey, address, ccm).Some?
    ensures CipherLayout(|raw|).Some?
    ensures var out := DecryptedRecord(raw, bindkey, address, ccm).value;
      var range := CipherLayout(|raw|).value;
      var v := BuildVector(raw, bindkey, address);
      && |out| == |raw|
      && ccm(v.key, v.iv, v.authdata, v.ciphertext, v.tag) == Some(out[range.pos..range.pos + range.size])
      && !HasEncryptionBit(out[0])
      && out[0] % 0x08 == raw[0] % 0x08 && out[0] / 0x10 == raw[0] / 0x10
      && forall k :: 0 < k < |raw| && !(range.pos <= k < range.pos + range.size) ==> out[k] == raw[k]
  {
    var out := DecryptedRecord(raw, bindkey, address, ccm).value;
    var range := CipherLayout(|raw|).value;
    var v := BuildVector(raw, bindkey, address);
    var plain := ccm(v.key, v.iv, v.authdata, v.ciphertext, v.tag).value;
    assert out == WriteBack(raw, range.pos, plain)[0 := ClearEncryptionBit(raw[0])];
    assert out[range.pos..range.pos + range.size] == plain;
  }

  /**
    decrypt_qingping_payload: on success the record is rewritten in place;
    on any failure it is left untouched.
   */
  method DecryptPayload(raw: array<byte>, bindkey: seq<byte>, address: uint64, ccm: CcmDecrypt) returns (ok: bool)
    requires |bindkey| == KeySize
    modifies raw
    ensures ok == DecryptedRecord(old(raw[..]), bindkey, address, ccm).Some?
    ensures ok ==> raw[..] == DecryptedRecord(old(raw[..]), bindkey, address, ccm).value
    ensures !ok ==> raw[..] == old(raw[..])
  {
    var n := raw.Length;
    if !(n == 19 || (n >= 22 && n <= 24)) {
      return false;
    }
    var datasize := if n == 19 then n - 12 else n - 18;
    var cipherPos := if n == 19 then 5 else 11;
    var vector := BuildVector(raw[..], bindkey, address);
    var decrypted := ccm(vector.key, vector.iv, vector.authdata, vector.ciphertext, vector.tag);
    if decrypted.None? {
      return false;
    }
    var plain := decrypted.value;
    ghost var before := raw[..];
    // replace the ciphertext with the plaintext
    var i := 0;
    while i < datasize
      invariant 0 <= i <= datasize
      invariant forall k :: 0 <= k < n ==> raw[k] == if cipherPos <= k < cipherPos + i then plain[k - cipherPos] else before[k]
    {
      raw[cipherPos + i] := plain[i];
      i := i + 1;
    }
    // clear the encryption flag
    raw[0] := if (raw[0] / 0x08) % 2 == 1 then raw[0] - 0x08 else raw[0];
    ok := true;
    assert raw[..] == WriteBack(before, cipherPos, plain)[0 := ClearEncryptionBit(before[0])];
  }
}
