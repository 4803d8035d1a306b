/**
  The records shared by the Qingping decoder and the CGG1 sensor component
  (qingping_ble.h): raw service data as the BLE tracker hands it over, and
  the parse result the decoder fills in.
 */
module QingpingTypes {
  import opened Wrappers

  /** An octet of a record. */
  type byte = x: int | 0 <= x < 0x100

  /** A 48-bit device address as the BLE tracker stores it, in a uint64_t. */
  type uint64 = x: int | 0 <= x < 0x1_0000_0000_0000_0000

  /**
    A service UUID as the BLE stack stores it. Only the stack knows how to
    match it against two signature bytes (ESPBTUUID::contains), so that
    test is a parameter of the model: a UuidMatcher.
   */
  datatype Uuid = Uuid(bytes: seq<byte>)

  type UuidMatcher = (Uuid, byte, byte) -> bool

  /** One service-data record of an advertisement. */
  datatype ServiceData = ServiceData(uuid: Uuid, data: seq<byte>)

  /** The models of the closed device enumeration that this component recognises. */
  datatype DeviceType = Cgg1

  /**
    The decoded aggregate. Temperature and humidity are kept in integer
    tenths (of a degree Celsius, of a percent); the component hands them
    on as tenths / 10.0. The battery level is the unsigned byte, in percent.
   */
  datatype ParseResult = ParseResult(
    deviceType: DeviceType,
    temperature: Option<int>,
    humidity: Option<int>,
    batteryLevel: Option<int>,
    hasData: bool,
    hasCapability: bool,
    hasEncryption: bool,
    isDuplicate: bool,
    rawOffset: int)
}
