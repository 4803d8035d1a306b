/**
  The Qingping CGG1 sensor component (qingping_cgg1.cpp): for every
  advertisement of its configured device it runs each service-data record
  through the header classifier and the data-point decoder, and publishes
  the decoded temperature, humidity and battery level to the sensors that
  are configured.
 */
module QingpingCgg1 {
  import opened Wrappers
  import opened QingpingTypes
  import opened QingpingBle

  /** A value handed to one of the component's sensors, tagged with that sensor. */
  datatype Reading = Temperature(tenths: int) | Humidity(tenths: int) | BatteryLevel(percent: int)

  /** Which of the three sensor pointers are set. */
  datatype SensorConfig = SensorConfig(temperature: bool, humidity: bool, batteryLevel: bool)

  /** A discovered peripheral as the BLE tracker delivers it. */
  datatype Device = Device(address: uint64, serviceDatas: seq<ServiceData>)

  /**
    Every byte the classifier and, after an accepted header, the decoder
    read lies inside the record (an accepted header puts the data point at
    offset 8).
   */
  predicate RecordReadable(contains: UuidMatcher, sd: ServiceData) {
    && HeaderReadable(contains, sd)
    && (IsQingpingService(contains, sd.uuid) && IsCgg1Signature(sd.data) ==> MessageReadable(sd.data, 8))
  }

  predicate AllReadable(contains: UuidMatcher, sds: seq<ServiceData>) {
    forall i :: 0 <= i < |sds| ==> RecordReadable(contains, sds[i])
  }

  /**
    The decoded result of a record that passes every stage of the loop
    body, or None for a record the loop skips: a rejected header, a
    duplicate, an encrypted header, a failed decode.
   */
  function RecordResult(contains: UuidMatcher, sd: ServiceData): (r: Option<ParseResult>)
    requires RecordReadable(contains, sd)
    ensures r.Some? ==> && r.value.deviceType == Cgg1 && r.value.rawOffset == 8
                        && r.value.hasData && !r.value.isDuplicate
    ensures r.Some? ==> r.value.temperature.Some? || r.value.humidity.Some? || r.value.batteryLevel.Some?
  {
    match ClassifyHeader(contains, sd)
    case None => None
    case Some(header) =>
      if header.isDuplicate || header.hasEncryption then None
      else
        var (ok, result) := DecodeDataPoint(sd.data, header);
        if ok then Some(result) else None
  }

  /** The values published for a decoded result, in the order temperature, humidity, battery. */
  function Publications(sensors: SensorConfig, result: ParseResult): (p: seq<Reading>)
    ensures |p| <= 3
    ensures p == [] <==>
      && !(result.temperature.Some? && sensors.temperature)
      && !(result.humidity.Some? && sensors.humidity)
      && !(result.batteryLevel.Some? && sensors.batteryLevel)
  {
    (if result.temperature.Some? && sensors.temperature then [Temperature(result.temperature.value)] else [])
    + (if result.humidity.Some? && sensors.humidity then [Humidity(result.humidity.value)] else [])
    + (if result.batteryLevel.Some? && sensors.batteryLevel then [BatteryLevel(result.batteryLevel.value)] else [])
  }

  /** The values published for one record. */
  function RecordReadings(contains: UuidMatcher, sensors: SensorConfig, sd: ServiceData): (p: seq<Reading>)
    requires RecordReadable(contains, sd)
    ensures |p| <= 3
    ensures p != [] ==> RecordResult(contains, sd).Some?
  {
    match RecordResult(contains, sd)
    case None => []
    case Some(result) => Publications(sensors, result)
  }

  /** The values published for a sequence of records, record by record. */
  function DeviceReadings(contains: UuidMatcher, sensors: SensorConfig, sds: seq<ServiceData>): (p: seq<Reading>)
    requires AllReadable(contains, sds)
    ensures |p| <= 3 * |sds|
    ensures p != [] ==> AnyRecordAccepted(contains, sds)
    decreases |sds|
  {
    if sds == [] then []
    else DeviceReadings(contains, sensors, sds[..|sds| - 1]) + RecordReadings(contains, sensors, sds[|sds| - 1])
  }

  /** The success flag of the loop: some record got through every stage. */
  function AnyRecordAccepted(contains: UuidMatcher, sds: seq<ServiceData>): (accepted: bool)
    requires AllReadable(contains, sds)
    ensures accepted ==> exists i :: 0 <= i < |sds| && RecordResult(contains, sds[i]).Some?
    decreases |sds|
  {
    sds != [] && (AnyRecordAccepted(contains, sds[..|sds| - 1]) || RecordResult(contains, sds[|sds| - 1]).Some?)
  }

  /** The retained frame counter after the classifier has seen `sds` in order. */
  function FrameCountAfterAll(contains: UuidMatcher, last: byte, sds: seq<ServiceData>): (r: byte)
    requires AllReadable(contains, sds)
    ensures r == last || exists i :: 0 <= i < |sds| && StoresFrameCount(contains, sds[i]) && r == sds[i].data[4]
    decreases |sds|
  {
    if sds == [] then last
    else FrameCountAfter(contains, FrameCountAfterAll(contains, last, sds[..|sds| - 1]), sds[|sds| - 1])
  }

  /** Extending the records by one adds that record's contribution to each loop summary. */
  lemma DeviceStep(contains: UuidMatcher, sensors: SensorConfig, last: byte, sds: seq<ServiceData>, i: nat)
    requires AllReadable(contains, sds) && i < |sds|
    ensures AllReadable(contains, sds[..i]) && AllReadable(contains, sds[..i + 1])
    ensures DeviceReadings(contains, sensors, sds[..i + 1])
         == DeviceReadings(contains, sensors, sds[..i]) + RecordReadings(contains, sensors, sds[i])
    ensures AnyRecordAccepted(contains, sds[..i + 1])
         == (AnyRecordAccepted(contains, sds[..i]) || RecordResult(contains, sds[i]).Some?)
    ensures FrameCountAfterAll(contains, last, sds[..i + 1])
         == FrameCountAfter(contains, FrameCountAfterAll(contains, last, sds[..i]), sds[i])
  {
    assert sds[..i + 1][..i] == sds[..i];
    assert sds[..i + 1][i] == sds[i];
  }

  /** Concatenation is associative; the loops below append one record's values at a time. */
  lemma AppendAssoc<T>(a: seq<T>, b: seq<T>, c: seq<T>)
    ensures (a + b) + c == a + (b + c)
  {
  }

  /** Order of the sensors in the publishing sequence. */
  function Rank(r: Reading): nat {
    match r
    case Temperature(_) => 0
    case Humidity(_) => 1
    case BatteryLevel(_) => 2
  }

  /**
    A value is published exactly when its field is present and its sensor
    is configured, and the values come in the order temperature, humidity,
    battery, each at most once.
   */
  lemma PublicationsFaithful(sensors: SensorConfig, result: ParseResult)
    ensures var p := Publications(sensors, result);
      && (forall t :: Temperature(t) in p <==> sensors.temperature && result.temperature == Some(t))
      && (forall h :: Humidity(h) in p <==> sensors.humidity && result.humidity == Some(h))
      && (forall b :: BatteryLevel(b) in p <==> sensors.batteryLevel && result.batteryLevel == Some(b))
      && (forall i, j :: 0 <= i < j < |p| ==> Rank(p[i]) < Rank(p[j]))
  {
  }

  /** The header never marks a duplicate or an encrypted record, so those skips never fire. */
  lemma HeaderSkipsNeverFire(contains: UuidMatcher, sd: ServiceData)
    requires RecordReadable(contains, sd)
    requires ClassifyHeader(contains, sd).Some?
    ensures !ClassifyHeader(contains, sd).value.isDuplicate
    ensures !ClassifyHeader(contains, sd).value.hasEncryption
    ensures RecordResult(contains, sd).Some? <==> DecodeDataPoint(sd.data, ClassifyHeader(contains, sd).value).0
  {
  }

  /**
    A record gets through every stage exactly when it carries a Qingping
    UUID, the CGG1 signature, and a data point at offset 8 that the
    dispatch table knows. Every such record leaves the decoder with its
    encryption flag set, since its byte 0 is 0x08, and is published all
    the same.
   */
  lemma RecordAcceptedIff(contains: UuidMatcher, sd: ServiceData)
    requires RecordReadable(contains, sd)
    ensures RecordResult(contains, sd).Some? <==>
      && IsQingpingService(contains, sd.uuid)
      && IsCgg1Signature(sd.data)
      && |sd.data| >= 11
      && InDispatchTable(sd.data[8], sd.data[10])
    ensures RecordResult(contains, sd).Some? ==> RecordResult(contains, sd).value.hasEncryption
  {
    var header := ClassifyHeader(contains, sd);
    if header.Some? {
      DecodeAcceptsExactlyTable(sd.data, header.value);
      DecodeFrame(sd.data, header.value);
    }
  }

  /** The success flag is set exactly when some record got through every stage. */
  lemma {:induction false} AnyRecordAcceptedIff(contains: UuidMatcher, sds: seq<ServiceData>)
    requires AllReadable(contains, sds)
    ensures AnyRecordAccepted(contains, sds) <==>
      exists i :: 0 <= i < |sds| && RecordResult(contains, sds[i]).Some?
    decreases |sds|
  {
    if sds != [] {
      var prefix := sds[..|sds| - 1];
      AnyRecordAcceptedIff(contains, prefix);
      if AnyRecordAccepted(contains, prefix) {
        var i :| 0 <= i < |prefix| && RecordResult(contains, prefix[i]).Some?;
        assert prefix[i] == sds[i];
      }
      if exists i :: 0 <= i < |sds| && RecordResult(contains, sds[i]).Some? {
        var i :| 0 <= i < |sds| && RecordResult(contains, sds[i]).Some?;
        if i < |sds| - 1 {
          assert prefix[i] == sds[i];
        }
      }
    }
  }

  /**
    The retained counter after a run of records is byte 4 of the last
    record that reached the store, or its old value when none did.
   */
  lemma {:induction false} FrameCountAfterAllLastStore(contains: UuidMatcher, last: byte, sds: seq<ServiceData>)
    requires AllReadable(contains, sds)
    ensures (forall i :: 0 <= i < |sds| ==> !StoresFrameCount(contains, sds[i])) ==>
      FrameCountAfterAll(contains, last, sds) == last
    ensures forall i ::
      (&& 0 <= i < |sds| && StoresFrameCount(contains, sds[i])
       && (forall j :: i < j < |sds| ==> !StoresFrameCount(contains, sds[j])))
      ==> FrameCountAfterAll(contains, last, sds) == sds[i].data[4]
    decreases |sds|
  {
    if sds != [] {
      var prefix := sds[..|sds| - 1];
      forall k | 0 <= k < |prefix|
        ensures prefix[k] == sds[k]
      {
      }
      FrameCountAfterAllLastStore(contains, last, prefix);
      assert FrameCountAfterAll(contains, last, sds)
          == FrameCountAfter(contains, FrameCountAfterAll(contains, last, prefix), sds[|sds| - 1]);
    }
  }

  /** The published values of two runs of records are those of each run, in order. */
  lemma {:induction false} DeviceReadingsConcat(contains: UuidMatcher, sensors: SensorConfig, a: seq<ServiceData>, b: seq<ServiceData>)
    requires AllReadable(contains, a) && AllReadable(contains, b)
    ensures AllReadable(contains, a + b)
    ensures DeviceReadings(contains, sensors, a + b) == DeviceReadings(contains, sensors, a) + DeviceReadings(contains, sensors, b)
    decreases |b|
  {
    forall i | 0 <= i < |a + b|
      ensures RecordReadable(contains, (a + b)[i])
    {
      if i < |a| {
        assert (a + b)[i] == a[i];
      } else {
        assert (a + b)[i] == b[i - |a|];
      }
    }
    if b == [] {
      assert a + b == a;
    } else {
      var b' := b[..|b| - 1];
      assert AllReadable(contains, b') by {
        forall i | 0 <= i < |b'| ensures RecordReadable(contains, b'[i]) {
          assert b'[i] == b[i];
        }
      }
      DeviceReadingsConcat(contains, sensors, a, b');
      assert (a + b)[..|a + b| - 1] == a + b';
      assert (a + b)[|a + b| - 1] == b[|b| - 1];
      AppendAssoc(DeviceReadings(contains, sensors, a), DeviceReadings(contains, sensors, b'),
                  RecordReadings(contains, sensors, b[|b| - 1]));
    }
  }

  /** A single record publishes what that record publishes. */
  lemma SingleRecordReadings(contains: UuidMatcher, sensors: SensorConfig, sd: ServiceData)
    requires RecordReadable(contains, sd)
    ensures AllReadable(contains, [sd])
    ensures DeviceReadings(contains, sensors, [sd]) == RecordReadings(contains, sensors, sd)
  {
    assert [sd][..0] == [];
  }

  /**
    A skipped record publishes nothing and does not stop the records after
    it from being processed.
   */
  lemma SkippedRecordPublishesNothing(contains: UuidMatcher, sensors: SensorConfig,
                                      before: seq<ServiceData>, sd: ServiceData, after: seq<ServiceData>)
    requires AllReadable(contains, before) && RecordReadable(contains, sd) && AllReadable(contains, after)
    requires RecordResult(contains, sd).None?
    ensures AllReadable(contains, before + [sd] + after)
    ensures DeviceReadings(contains, sensors, before + [sd] + after)
         == DeviceReadings(contains, sensors, before) + DeviceReadings(contains, sensors, after)
  {
    var upTo := before + [sd];
    var published := DeviceReadings(contains, sensors, before);
    assert AllReadable(contains, upTo) && DeviceReadings(contains, sensors, upTo) == published by {
      SingleRecordReadings(contains, sensors, sd);
      DeviceReadingsConcat(contains, sensors, before, [sd]);
      assert published + [] == published;
    }
    DeviceReadingsConcat(contains, sensors, upTo, after);
  }

  /**
    The three-byte-pair example of the 0x0D data point: [0x0A, 0x00, 0x96,
    0x01] decodes to 10 tenths of a degree and 406 tenths of a percent.
   */
  lemma Cgg1RecordExample(contains: UuidMatcher, uuid: Uuid, sensors: SensorConfig)
    requires IsQingpingService(contains, uuid)
    requires sensors == SensorConfig(true, true, true)
    ensures var sd := ServiceData(uuid, [0x08, 0x01, 0x07, 0x00, 0x2A, 0x00, 0x00, 0x00, 0x0D, 0x10, 0x04, 0x0A, 0x00, 0x96, 0x01]);
      RecordReadable(contains, sd) && RecordReadings(contains, sensors, sd) == [Temperature(10), Humidity(406)]
  {
  }

  /** The QingpingCGG1 component, with the values it has published so far. */
  class QingpingCgg1 {
    const address: uint64
    const sensors: SensorConfig
    var published: seq<Reading>

    constructor (address: uint64, sensors: SensorConfig)
      ensures this.address == address && this.sensors == sensors && published == []
    {
      this.address := address;
      this.sensors := sensors;
      published := [];
    }

    /**
      One pass of the loop body of parse_device: the chain of skips for one
      record (rejected header, duplicate, encrypted header, failed decode),
      then the publishing of what it decoded.
     */
    method ParseServiceData(serviceData: ServiceData, classifier: Classifier) returns (accepted: bool)
      requires RecordReadable(classifier.uuidContains, serviceData)
      modifies this`published, classifier`lastFrameCount
      ensures accepted == RecordResult(classifier.uuidContains, serviceData).Some?
      ensures published == old(published) + RecordReadings(classifier.uuidContains, sensors, serviceData)
      ensures classifier.lastFrameCount
           == FrameCountAfter(classifier.uuidContains, old(classifier.lastFrameCount), serviceData)
    {
      var res := classifier.ParseHeader(serviceData);
      if res.None? {
        return false;
      }
      var header := res.value;
      if header.isDuplicate {
        return false;
      }
      if header.hasEncryption {
        return false;
      }
      var ok, result := ParseMessage(serviceData.data, header);
      if !ok {
        return false;
      }
      ghost var before := published;
      if result.temperature.Some? && sensors.temperature {
        published := published + [Temperature(result.temperature.value)];
      }
      if result.humidity.Some? && sensors.humidity {
        published := published + [Humidity(result.humidity.value)];
      }
      if result.batteryLevel.Some? && sensors.batteryLevel {
        published := published + [BatteryLevel(result.batteryLevel.value)];
      }
      assert published == before + Publications(sensors, result);
      return true;
    }

    /**
      parse_device: ignores devices with another address, then runs every
      record through the classifier and the decoder, publishing what each
      accepted record decoded; returns whether any record was accepted.
     */
    method ParseDevice(device: Device, classifier: Classifier) returns (success: bool)
      requires device.address == address ==> AllReadable(classifier.uuidContains, device.serviceDatas)
      modifies this`published, classifier`lastFrameCount
      ensures device.address != address ==>
        && !success
        && published == old(published)
        && classifier.lastFrameCount == old(classifier.lastFrameCount)
      ensures device.address == address ==>
        && success == AnyRecordAccepted(classifier.uuidContains, device.serviceDatas)
        && published == old(published) + DeviceReadings(classifier.uuidContains, sensors, device.serviceDatas)
        && classifier.lastFrameCount
           == FrameCountAfterAll(classifier.uuidContains, old(classifier.lastFrameCount), device.serviceDatas)
    {
      if device.address != address {
        return false;
      }
      ghost var contains := classifier.uuidContains;
      ghost var last := classifier.lastFrameCount;
      ghost var start := published;
      var serviceDatas := device.serviceDatas;
      success := false;
      for i := 0 to |serviceDatas|
        invariant AllReadable(contains, serviceDatas[..i])
        invariant success == AnyRecordAccepted(contains, serviceDatas[..i])
        invariant published == start + DeviceReadings(contains, sensors, serviceDatas[..i])
        invariant classifier.lastFrameCount == FrameCountAfterAll(contains, last, serviceDatas[..i])
      {
        DeviceStep(contains, sensors, last, serviceDatas, i);
        ghost var sofar := DeviceReadings(contains, sensors, serviceDatas[..i]);
        var accepted := ParseServiceData(serviceDatas[i], classifier);
        AppendAssoc(start, sofar, RecordReadings(contains, sensors, serviceDatas[i]));
        if accepted {
          success := true;
        }
      }
      assert serviceDatas[..|serviceDatas|] == serviceDatas;
    }
  }
}
