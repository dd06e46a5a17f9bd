/** The message on the queue: the JSON text `JsonSerializer` writes for an
    envelope, seen through the property reads the consumer makes. Each
    property the consumer asks for is missing, JSON null, a value of the kind
    it reads, or a value of another kind. */
module Wire {
  import opened Options
  import opened XmlDocument
  import opened Dto

  /** One property of a JSON object, as `GetProperty` and a typed getter see
      it. */
  datatype JsonProp<+T> = Missing | Null | Value(value: T) | WrongKind

  /** One element of the "Devices" array. */
  datatype JsonDevice =
    | DeviceObject(
        moduleCategoryId: JsonProp<string>,
        indexWithinRole: JsonProp<int>,
        rapidControlStatusXml: JsonProp<XmlText>)
    | NotAnObject

  /** The root object of a message. */
  datatype JsonEnvelope = JsonEnvelope(packageId: JsonProp<string>, devices: JsonProp<seq<JsonDevice>>)

  /** A delivery's body after UTF-8 decoding: empty, text `JsonDocument.Parse`
      rejects or whose root is not an object, or a JSON object. */
  datatype Body = EmptyBody | NotAJsonObject | Json(envelope: JsonEnvelope)

  /** A nullable member as `JsonSerializer` writes it: null, or its value. */
  function NullableProp<T>(x: Option<T>): JsonProp<T> {
    if x.None? then Null else Value(x.value)
  }

  /** `JsonSerializer.SerializeToUtf8Bytes` of one device: every public
      property under its C# name, nulls written as JSON null. */
  function SerializeDevice(d: DeviceStatus): JsonDevice {
    DeviceObject(NullableProp(d.moduleCategoryId), NullableProp(d.indexWithinRole), NullableProp(d.rapidControlStatusXml))
  }

  function SerializeDevices(ds: seq<DeviceStatus>): (r: seq<JsonDevice>)
    ensures |r| == |ds|
    ensures forall i :: 0 <= i < |ds| ==> r[i] == SerializeDevice(ds[i])
  {
    if ds == [] then [] else SerializeDevices(ds[..|ds| - 1]) + [SerializeDevice(ds[|ds| - 1])]
  }

  /** `JsonSerializer.SerializeToUtf8Bytes` of an envelope. */
  function Serialize(dto: InstrumentStatus): JsonEnvelope {
    JsonEnvelope(NullableProp(dto.packageId),
                 if dto.devices.None? then Null else Value(SerializeDevices(dto.devices.value)))
  }

  /** What a reader that maps the JSON back onto the DTO types would get: the
      inverse of `Serialize` on the messages it writes. */
  function DeserializeProp<T>(p: JsonProp<T>): Option<Option<T>> {
    match p
    case Null => Some(None)
    case Value(v) => Some(Some(v))
    case _ => None
  }

  function DeserializeDevice(d: JsonDevice): Option<DeviceStatus> {
    if d.NotAnObject? then None
    else
      match (DeserializeProp(d.moduleCategoryId), DeserializeProp(d.indexWithinRole), DeserializeProp(d.rapidControlStatusXml))
      case (Some(c), Some(i), Some(x)) =>
        if i.None? || -0x8000_0000 <= i.value < 0x8000_0000 then
          Some(DeviceStatus(c, if i.None? then None else Some(i.value as Int32), x))
        else None
      case _ => None
  }

  function DeserializeDevices(ds: seq<JsonDevice>): Option<seq<DeviceStatus>> {
    if ds == [] then Some([])
    else
      match (DeserializeDevices(ds[..|ds| - 1]), DeserializeDevice(ds[|ds| - 1]))
      case (Some(front), Some(last)) => Some(front + [last])
      case _ => None
  }

  function Deserialize(e: JsonEnvelope): Option<InstrumentStatus> {
    match (DeserializeProp(e.packageId), e.devices)
    case (Some(p), Null) => Some(InstrumentStatus(p, None))
    case (Some(p), Value(ds)) =>
      (match DeserializeDevices(ds)
       case Some(devices) => Some(InstrumentStatus(p, Some(devices)))
       case None => None)
    case _ => None
  }

  /** Serialization loses nothing: every envelope can be read back exactly. */
  lemma {:induction false} SerializeDevicesRoundTrip(ds: seq<DeviceStatus>)
    ensures DeserializeDevices(SerializeDevices(ds)) == Some(ds)
  {
    if ds != [] {
      var front := ds[..|ds| - 1];
      SerializeDevicesRoundTrip(front);
      assert SerializeDevices(ds)[..|ds| - 1] == SerializeDevices(front);
      assert front + [ds[|ds| - 1]] == ds;
    }
  }

  lemma SerializeRoundTrip(dto: InstrumentStatus)
    ensures Deserialize(Serialize(dto)) == Some(dto)
  {
    if dto.devices.Some? {
      SerializeDevicesRoundTrip(dto.devices.value);
    }
  }
}
