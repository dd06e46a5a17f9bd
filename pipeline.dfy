/** The two stages together: what the consumer makes of the message the
    producer publishes for a file. The producer looks for ModuleState at any
    depth and the consumer only among the root's children, and the producer
    accepts any 32-bit index while the consumer reads 16 bits. */
module Pipeline {
  import opened Options
  import opened XmlDocument
  import opened Dto
  import opened InstrumentStatusValidator
  import opened Wire
  import opened Parsing
  import opened DataProcessing

  /** A device the consumer turns into an entry: it has a category, an index
      that fits in 16 bits and a parsed document with a ModuleState child. */
  predicate Readable(d: DeviceStatus) {
    && d.moduleCategoryId.Some?
    && d.indexWithinRole.Some? && Int16Min <= d.indexWithinRole.value <= Int16Max
    && d.rapidControlStatusXml.Some? && d.rapidControlStatusXml.value.Parsed?
    && ChildModuleState(d.rapidControlStatusXml.value.root).Some?
  }

  /** The entry the consumer reads for a readable device. */
  function ReadEntry(d: DeviceStatus): Entry
    requires Readable(d)
  {
    Entry(d.moduleCategoryId.value, d.indexWithinRole.value, ChildModuleState(d.rapidControlStatusXml.value.root).value)
  }

  lemma DecodeSerializedDevice(d: DeviceStatus)
    requires Readable(d)
    ensures DecodeDevice(SerializeDevice(d)) == Ok(Some(ReadEntry(d)))
  {
  }

  /** The consumer's reading of the serialized devices: when every device is
      readable, each becomes one entry, in order. */
  lemma {:induction false} DecodeSerializedDevices(ts: seq<DeviceStatus>)
    requires forall i :: 0 <= i < |ts| ==> Readable(ts[i])
    ensures var r := DecodeDevices(SerializeDevices(ts));
            && r.Ok? && |r.value| == |ts|
            && forall i :: 0 <= i < |ts| ==> r.value[i] == ReadEntry(ts[i])
  {
    if ts != [] {
      var front := ts[..|ts| - 1];
      assert forall i :: 0 <= i < |front| ==> front[i] == ts[i];
      DecodeSerializedDevices(front);
      DecodeSerializedDevice(ts[|ts| - 1]);
      assert SerializeDevices(ts)[..|ts| - 1] == SerializeDevices(front);
    }
  }

  /** The consumer reads a serialized envelope whose devices are all readable
      as its PackageID and one entry per device, in order. */
  lemma ReadSerializedEnvelope(dto: InstrumentStatus)
    requires dto.devices.Some?
    requires forall i :: 0 <= i < |dto.devices.value| ==> Readable(dto.devices.value[i])
    ensures var m := ReadMessage(Json(Serialize(dto)));
            && m.Ok?
            && m.value.packageId == dto.packageId
            && |m.value.entries| == |dto.devices.value|
            && forall i :: 0 <= i < |dto.devices.value| ==> m.value.entries[i] == ReadEntry(dto.devices.value[i])
  {
    DecodeSerializedDevices(dto.devices.value);
  }

  /** A device list reads only when every device reads. */
  lemma {:induction false} DecodeNeedsEveryDevice(ds: seq<JsonDevice>, i: nat)
    requires i < |ds| && DecodeDevice(ds[i]).Err?
    ensures DecodeDevices(ds).Err?
  {
    if i < |ds| - 1 {
      DecodeNeedsEveryDevice(ds[..|ds| - 1], i);
    }
  }

  /** End to end: a published file whose indices fit in 16 bits and whose
      rewritten ModuleState elements are children of their roots reaches
      the consumer as one entry per device, in order, with the device's
      category and index and the state the producer drew for it. */
  lemma DrawnStatesReachTheConsumer(run: FileRun)
    requires run.file.Deserialized? && EnvelopeIsValid(run.file.dto)
    requires ProcessFileResult(run).Published?
    requires var ds := run.file.dto.value.devices.value;
             forall i :: 0 <= i < |ds| ==>
               && Int16Min <= ds[i].indexWithinRole.value <= Int16Max
               && FirstStateIsChild(ds[i].rapidControlStatusXml.value.root)
    ensures var dto := run.file.dto.value;
            var ds := dto.devices.value;
            var m := ReadMessage(Json(ProcessFileResult(run).payload));
            && m.Ok?
            && m.value.packageId == dto.packageId
            && |m.value.entries| == |ds|
            && forall i :: 0 <= i < |ds| ==>
                 m.value.entries[i] == Entry(ds[i].moduleCategoryId.value, ds[i].indexWithinRole.value, States[run.draw(i)])
  {
    var dto := run.file.dto.value;
    var ds := dto.devices.value;
    ValidFileIsPublishedOnce(run);
    ValidDevicesAreAllRewritten(ds, run.draw);
    var ts := TransformDevices(ds, run.draw).value;
    forall i | 0 <= i < |ds|
      ensures Readable(ts[i])
      ensures ReadEntry(ts[i]) == Entry(ds[i].moduleCategoryId.value, ds[i].indexWithinRole.value, States[run.draw(i)])
    {
      ChildReadsWrittenState(ds[i].rapidControlStatusXml.value.root, States[run.draw(i)]);
    }
    ReadSerializedEnvelope(dto.(devices := Some(ts)));
  }

  /** A device whose document has its ModuleState only below the root's
      children passes the producer's checks and is rewritten, but the
      consumer skips it. */
  lemma NestedStateIsSkippedDownstream(d: DeviceStatus, s: StateIndex)
    requires DeviceIsValid(d)
    requires ChildModuleState(d.rapidControlStatusXml.value.root).None?
    ensures TransformDevice(d, s).Ok?
    ensures DecodeDevice(SerializeDevice(TransformDevice(d, s).value)) == Ok(None) ||
            DecodeDevice(SerializeDevice(TransformDevice(d, s).value)).Err?
    ensures Int16Min <= d.indexWithinRole.value <= Int16Max ==>
              DecodeDevice(SerializeDevice(TransformDevice(d, s).value)) == Ok(None)
  {
    var root := d.rapidControlStatusXml.value.root;
    if root.name == ModuleStateName {
      // Setting the value of the root itself leaves it one text child.
      assert SetFirstModuleState(root, States[s]) == Element(ModuleStateName, [Text(States[s])]);
      assert [Text(States[s])][1..] == [];
    } else {
      RewriteKeepsChildPresence(root, States[s]);
    }
  }

  /** A published file with a device whose index does not fit in 16 bits is
      never stored: the consumer cannot read the message and requeues it on
      every delivery. */
  lemma WideIndexIsRequeued(run: FileRun, i: nat, tag: nat, t: Store.Table, faults: nat -> bool, jitter: nat -> Retry.Jitter)
    requires run.file.Deserialized? && EnvelopeIsValid(run.file.dto)
    requires ProcessFileResult(run).Published?
    requires var ds := run.file.dto.value.devices.value;
             i < |ds| && !(Int16Min <= ds[i].indexWithinRole.value <= Int16Max)
    ensures ReadMessage(Json(ProcessFileResult(run).payload)).Err?
    ensures HandleDelivery(tag, Json(ProcessFileResult(run).payload), t, faults, jitter, false)
              == Delivery([Nack(tag, true)], t, 1, [])
  {
    var dto := run.file.dto.value;
    var ds := dto.devices.value;
    ValidFileIsPublishedOnce(run);
    ValidDevicesAreAllRewritten(ds, run.draw);
    var ts := TransformDevices(ds, run.draw).value;
    var js := SerializeDevices(ts);
    assert DecodeDevice(js[i]) == Err(NotInt16(ds[i].indexWithinRole.value));
    DecodeNeedsEveryDevice(js, i);
    UnreadableMessageIsRequeued(tag, Json(ProcessFileResult(run).payload), t, faults, jitter);
  }
}
