/** FileParserService.ParsingWorker: per input file, deserialize and validate
    the envelope, rewrite each device's first ModuleState to a drawn state,
    serialize the envelope to JSON and publish it once, retrying transient
    broker errors; and the scan loop that runs this over the input directory. */
module Parsing {
  import opened Options
  import opened XmlDocument
  import opened Dto
  import opened ValidationResults
  import opened InstrumentStatusValidator
  import opened Wire
  import opened Retry

  /** The states a device can be set to. */
  const States: seq<string> := ["Online", "Run", "NotReady", "Offline"]

  /** `Random.Shared.Next(states.Length)`. */
  type StateIndex = i: nat | i < 4

  /** An input file: unreadable, rejected by `XmlSerializer.Deserialize`, or
      deserialized (the cast to InstrumentStatusDto may still give null). */
  datatype XmlFile = Unreadable | NotDeserializable | Deserialized(dto: Option<InstrumentStatus>)

  /** What `BasicPublishAsync` can throw. */
  datatype PublishError = BrokerUnreachable | AlreadyClosed | OperationInterrupted | Timeout | OtherBrokerError

  /** The exceptions the publish policy handles. */
  predicate IsTransientPublishError(e: PublishError) {
    e.BrokerUnreachable? || e.AlreadyClosed? || e.OperationInterrupted? || e.Timeout?
  }

  /** Everything one run of ProcessFileAsync takes from outside: the file, the
      state drawn for the device at each position, what each publish attempt
      does, and the jitter drawn before each retry. */
  datatype FileRun = FileRun(
    file: XmlFile,
    draw: nat -> StateIndex,
    publish: nat -> Result<(), PublishError>,
    jitter: nat -> Jitter)

  /** How ProcessFileAsync ended. Every outcome but `Published` is an exception
      it caught and logged. */
  datatype FileOutcome =
    | ReadFailed
    | SchemaMismatch
    | Invalid(message: string)
    | EmbeddedXmlRejected(reason: string)
    | Published(payload: JsonEnvelope, sleepsMs: seq<nat>)
    | PublishFailed(error: PublishError, sleepsMs: seq<nat>)

  /** The messages a run put on the queue. */
  function Messages(o: FileOutcome): seq<JsonEnvelope> {
    if o.Published? then [o.payload] else []
  }

  // ---------------------------------------------------------------------------
  // The device transform.

  /** The embedded document after its first ModuleState descendant, if any,
      was set to state `s`. */
  function Rewrite(root: Root, s: StateIndex): Root {
    if HasModuleState(root) then SetFirstModuleState(root, States[s]) else root
  }

  /** One pass of the device loop: an empty document is skipped, a document
      `XDocument.Parse` rejects throws, and any other is rewritten and stored
      back. */
  function TransformDevice(d: DeviceStatus, s: StateIndex): Result<DeviceStatus, string> {
    if IsNullOrEmptyXml(d.rapidControlStatusXml) then Ok(d)
    else
      var x := d.rapidControlStatusXml.value;
      if x.Malformed? then Err(x.reason)
      else Ok(d.(rapidControlStatusXml := Some(Parsed(Rewrite(x.root, s)))))
  }

  /** The device loop over a list: device i uses the draw for position i; the
      first document that does not parse ends it. */
  function TransformDevices(ds: seq<DeviceStatus>, draw: nat -> StateIndex): Result<seq<DeviceStatus>, string> {
    if ds == [] then Ok([])
    else
      var front := TransformDevices(ds[..|ds| - 1], draw);
      if front.Err? then front
      else
        var last := TransformDevice(ds[|ds| - 1], draw(|ds| - 1));
        if last.Err? then Err(last.error) else Ok(front.value + [last.value])
  }

  /** The publish policy's execution for one file. */
  function PublishRun(run: FileRun): Outcome<(), PublishError> {
    Execute(run.publish, IsTransientPublishError, run.jitter)
  }

  /** What ProcessFileAsync does with one file. */
  function ProcessFileResult(run: FileRun): FileOutcome {
    match run.file
    case Unreadable => ReadFailed
    case NotDeserializable => SchemaMismatch
    case Deserialized(None) => SchemaMismatch
    case Deserialized(Some(dto)) =>
      var errors := ExpectedErrors(Some(dto));
      if errors != [] then Invalid(Join(errors))
      else
        var transformed := TransformDevices(dto.devices.value, run.draw);
        if transformed.Err? then EmbeddedXmlRejected(transformed.error)
        else
          var payload := Serialize(dto.(devices := Some(transformed.value)));
          var o := PublishRun(run);
          if o.result.Ok? then Published(payload, o.sleepsMs) else PublishFailed(o.result.error, o.sleepsMs)
  }

  /** ProcessFileAsync as written: the validator's result decides whether to go
      on; the devices are rewritten one by one in place; the envelope is then
      serialized and handed to the publish policy. */
  method ProcessFile(run: FileRun) returns (outcome: FileOutcome)
    ensures outcome == ProcessFileResult(run)
  {
    if run.file.Unreadable? {
      return ReadFailed;
    }
    if run.file.NotDeserializable? || run.file.dto.None? {
      return SchemaMismatch;
    }
    var dto := run.file.dto.value;
    var validation := ValidateInstrumentStatusDto(Some(dto));
    if !validation.IsValid() {
      return Invalid(validation.Message());
    }
    var original := dto.devices.value;
    var devices := original;
    for i := 0 to |devices|
      invariant |devices| == |original|
      invariant TransformDevices(original[..i], run.draw) == Ok(devices[..i])
      invariant devices[i..] == original[i..]
    {
      assert original[..i + 1][..i] == original[..i];
      assert devices[i] == original[i];
      var updated := TransformDevice(devices[i], run.draw(i));
      if updated.Err? {
        TransformStopsAtFirstError(original, run.draw, i + 1);
        return EmbeddedXmlRejected(updated.error);
      }
      devices := devices[i := updated.value];
      assert devices[..i + 1] == devices[..i] + [updated.value];
    }
    assert original[..|original|] == original;
    assert devices[..|devices|] == devices;
    var payload := Serialize(dto.(devices := Some(devices)));
    var publishing := PublishRun(run);
    if publishing.result.Ok? {
      outcome := Published(payload, publishing.sleepsMs);
    } else {
      outcome := PublishFailed(publishing.result.error, publishing.sleepsMs);
    }
  }

  // ---------------------------------------------------------------------------
  // Properties of the device transform.

  /** A device keeps its category and index; an empty document is left as it
      is; a document with a ModuleState gets the drawn state as the text of the
      first one, keeps having one, and is otherwise the document it was (putting
      the old content back restores it); a document without one is kept. */
  lemma TransformDeviceSpec(d: DeviceStatus, s: StateIndex)
    ensures var r := TransformDevice(d, s);
            && (r.Err? <==> d.rapidControlStatusXml.Some? && d.rapidControlStatusXml.value.Malformed?)
            && (r.Ok? ==> r.value.moduleCategoryId == d.moduleCategoryId && r.value.indexWithinRole == d.indexWithinRole)
            && (IsNullOrEmptyXml(d.rapidControlStatusXml) ==> r == Ok(d))
    ensures d.rapidControlStatusXml.Some? && d.rapidControlStatusXml.value.Parsed? ==>
              var root := d.rapidControlStatusXml.value.root;
              var r := TransformDevice(d, s);
              && r.Ok? && r.value.rapidControlStatusXml.Some? && r.value.rapidControlStatusXml.value.Parsed?
              && var root' := r.value.rapidControlStatusXml.value.root;
              && HasModuleState(root') == HasModuleState(root)
              && (HasModuleState(root) ==>
                    && FirstModuleState(root') == Some(Element(ModuleStateName, [Text(States[s])]))
                    && root' == SetFirstModuleState(root, States[s])
                    && ReplaceFirstModuleState(root', FirstModuleState(root).value.children) == root)
              && (!HasModuleState(root) ==> r == Ok(d))
  {
    if d.rapidControlStatusXml.Some? && d.rapidControlStatusXml.value.Parsed? {
      var root := d.rapidControlStatusXml.value.root;
      ReplaceKeepsPresence(root, [Text(States[s])]);
      if HasModuleState(root) {
        ReplaceSetsFirst(root, [Text(States[s])]);
        ReplaceIsUndone(root, [Text(States[s])]);
      }
    }
  }

  /** The loop rewrites the devices one for one, in order, with device i given
      draw i, unless some document does not parse. */
  lemma {:induction false} TransformDevicesSpec(ds: seq<DeviceStatus>, draw: nat -> StateIndex)
    ensures var r := TransformDevices(ds, draw);
            && (r.Ok? <==> forall i :: 0 <= i < |ds| ==> TransformDevice(ds[i], draw(i)).Ok?)
            && (r.Ok? ==> |r.value| == |ds| && forall i :: 0 <= i < |ds| ==> r.value[i] == TransformDevice(ds[i], draw(i)).value)
  {
    if ds != [] {
      var front := ds[..|ds| - 1];
      TransformDevicesSpec(front, draw);
      assert forall i :: 0 <= i < |front| ==> front[i] == ds[i];
    }
  }

  /** Once a document fails to parse, the rest of the list is not looked at:
      the loop ends with that document's error. */
  lemma {:induction false} TransformStopsAtFirstError(ds: seq<DeviceStatus>, draw: nat -> StateIndex, n: nat)
    requires n <= |ds| && TransformDevices(ds[..n], draw).Err?
    ensures TransformDevices(ds, draw) == TransformDevices(ds[..n], draw)
  {
    if n < |ds| {
      var front := ds[..|ds| - 1];
      assert front[..n] == ds[..n];
      TransformStopsAtFirstError(front, draw, n);
    } else {
      assert ds[..n] == ds;
    }
  }

  /** The devices of a validated envelope all have a document with a
      ModuleState, so the loop rewrites every one of them. */
  lemma ValidDevicesAreAllRewritten(ds: seq<DeviceStatus>, draw: nat -> StateIndex)
    requires forall i :: 0 <= i < |ds| ==> DeviceIsValid(ds[i])
    ensures TransformDevices(ds, draw).Ok?
    ensures var r := TransformDevices(ds, draw).value;
            && |r| == |ds|
            && forall i :: 0 <= i < |ds| ==>
                 && DeviceIsValid(ds[i])
                 && r[i].moduleCategoryId == ds[i].moduleCategoryId
                 && r[i].indexWithinRole == ds[i].indexWithinRole
                 && r[i].rapidControlStatusXml.Some? && r[i].rapidControlStatusXml.value.Parsed?
                 && r[i].rapidControlStatusXml.value.root == SetFirstModuleState(ds[i].rapidControlStatusXml.value.root, States[draw(i)])
                 && FirstModuleState(r[i].rapidControlStatusXml.value.root) == Some(Element(ModuleStateName, [Text(States[draw(i)])]))
  {
    forall i | 0 <= i < |ds| {
      TransformDeviceSpec(ds[i], draw(i));
    }
    TransformDevicesSpec(ds, draw);
  }

  // ---------------------------------------------------------------------------
  // Properties of a file run.

  /** A file that cannot be read, does not deserialize to an envelope or fails
      validation publishes nothing; a failed validation ends with the
      validator's message. */
  lemma RejectedFilePublishesNothing(run: FileRun)
    requires !(run.file.Deserialized? && EnvelopeIsValid(run.file.dto))
    ensures Messages(ProcessFileResult(run)) == []
    ensures run.file.Deserialized? && run.file.dto.Some? ==>
              ProcessFileResult(run) == Invalid(Join(ExpectedErrors(run.file.dto)))
  {
    if run.file.Deserialized? && run.file.dto.Some? {
      ValidIffNoRuleFired(run.file.dto);
    }
  }

  /** A file whose envelope validates reaches the publish step: it is published
      exactly once, its payload the serialized envelope with every device
      rewritten, when some attempt among the first six succeeds and every one
      before it failed transiently; otherwise nothing is published. */
  lemma ValidFileIsPublishedOnce(run: FileRun)
    requires run.file.Deserialized? && EnvelopeIsValid(run.file.dto)
    ensures var o := ProcessFileResult(run);
            var dto := run.file.dto.value;
            var p := PublishRun(run);
            && (o.Published? || o.PublishFailed?)
            && |Messages(o)| == (if p.result.Ok? then 1 else 0)
            && (o.Published? ==>
                  && o.payload == Serialize(dto.(devices := Some(TransformDevices(dto.devices.value, run.draw).value)))
                  && run.publish(|o.sleepsMs|).Ok?
                  && |o.sleepsMs| <= RetryCount
                  && forall a :: 0 <= a < |o.sleepsMs| ==> run.publish(a).Err? && IsTransientPublishError(run.publish(a).error))
  {
    ValidIffNoRuleFired(run.file.dto);
    ValidDevicesAreAllRewritten(run.file.dto.value.devices.value, run.draw);
    ExecuteShape(run.publish, IsTransientPublishError, run.jitter);
  }

  /** The published message carries the whole envelope: the same PackageID and
      the same devices, in order, with the same categories and indices, only
      their documents rewritten. */
  lemma PayloadKeepsEnvelope(run: FileRun)
    requires run.file.Deserialized? && EnvelopeIsValid(run.file.dto)
    requires ProcessFileResult(run).Published?
    ensures var dto := run.file.dto.value;
            var sent := Deserialize(ProcessFileResult(run).payload);
            && sent.Some?
            && sent.value.packageId == dto.packageId
            && sent.value.devices.Some?
            && |sent.value.devices.value| == |dto.devices.value|
            && forall i :: 0 <= i < |dto.devices.value| ==>
                 && sent.value.devices.value[i].moduleCategoryId == dto.devices.value[i].moduleCategoryId
                 && sent.value.devices.value[i].indexWithinRole == dto.devices.value[i].indexWithinRole
  {
    var dto := run.file.dto.value;
    ValidFileIsPublishedOnce(run);
    ValidDevicesAreAllRewritten(dto.devices.value, run.draw);
    SerializeRoundTrip(dto.(devices := Some(TransformDevices(dto.devices.value, run.draw).value)));
  }

  // ---------------------------------------------------------------------------
  // The scan cycle of ExecuteAsync.

  /** The wait after every cycle, whichever way it ended. */
  const CycleDelayMs: nat := 1000

  /** One pass of the scan loop: no files, the files' outcomes, or an exception
      of the cycle itself (caught and logged). */
  datatype CycleOutcome = NoFiles | Processed(outcomes: seq<FileOutcome>) | CycleFailed

  /** `new ParallelOptions { MaxDegreeOfParallelism = m }` accepts -1 and
      positive values and throws ArgumentOutOfRangeException otherwise. */
  predicate AcceptedParallelism(m: int) {
    m == -1 || m > 0
  }

  /** The degree of parallelism as written: half the processor count, rounded down. */
  function MaxDegreeOfParallelismAsWritten(processorCount: nat): int {
    processorCount / 2
  }

  /** Half the processor count, but at least one. */
  function MaxDegreeOfParallelism(processorCount: nat): (m: nat)
    ensures m >= 1 && AcceptedParallelism(m)
    ensures processorCount >= 2 ==> m == MaxDegreeOfParallelismAsWritten(processorCount)
  {
    if processorCount / 2 >= 1 then processorCount / 2 else 1
  }

  /** Every file of a scan run through ProcessFileAsync, in order. Each run
      catches its own exceptions, so each file's outcome depends only on
      that file. */
  function ProcessAll(runs: seq<FileRun>): (r: seq<FileOutcome>)
    ensures |r| == |runs|
    ensures forall i :: 0 <= i < |runs| ==> r[i] == ProcessFileResult(runs[i])
  {
    if runs == [] then [] else ProcessAll(runs[..|runs| - 1]) + [ProcessFileResult(runs[|runs| - 1])]
  }

  /** A cycle over the files found, with the given degree of parallelism. */
  function CycleWith(parallelism: int, runs: seq<FileRun>): CycleOutcome {
    if runs == [] then NoFiles
    else if !AcceptedParallelism(parallelism) then CycleFailed
    else Processed(ProcessAll(runs))
  }

  /** The cycle as written, with MaxDegreeOfParallelism = ProcessorCount / 2. */
  function CycleAsWritten(processorCount: nat, runs: seq<FileRun>): CycleOutcome {
    CycleWith(MaxDegreeOfParallelismAsWritten(processorCount), runs)
  }

  /** The cycle with the degree of parallelism kept at one or more. */
  function Cycle(processorCount: nat, runs: seq<FileRun>): CycleOutcome {
    CycleWith(MaxDegreeOfParallelism(processorCount), runs)
  }

  /** On a single-processor host the cycle as written throws before it
      processes anything, whatever files it found; the corrected cycle
      processes them all. */
  lemma SingleProcessorCycleFails(runs: seq<FileRun>)
    requires runs != []
    ensures CycleAsWritten(1, runs) == CycleFailed
    ensures Cycle(1, runs) == Processed(ProcessAll(runs))
  {
  }

  /** Where the processor count is two or more the two cycles agree. */
  lemma CycleAgreesOnMultiProcessorHosts(processorCount: nat, runs: seq<FileRun>)
    requires processorCount >= 2
    ensures Cycle(processorCount, runs) == CycleAsWritten(processorCount, runs)
  {
  }

  /** An empty scan only waits, whatever the degree; with files, a degree
      `ParallelOptions` rejects fails the cycle before any file is touched,
      and an accepted one gives every file its own outcome, so a failing file
      never stops the others. */
  lemma CycleIsolatesFiles(parallelism: int, runs: seq<FileRun>)
    ensures runs == [] <==> CycleWith(parallelism, runs) == NoFiles
    ensures runs != [] && !AcceptedParallelism(parallelism) ==> CycleWith(parallelism, runs) == CycleFailed
    ensures runs != [] && AcceptedParallelism(parallelism) ==>
              && CycleWith(parallelism, runs).Processed?
              && |CycleWith(parallelism, runs).outcomes| == |runs|
              && forall i :: 0 <= i < |runs| ==> CycleWith(parallelism, runs).outcomes[i] == ProcessFileResult(runs[i])
  {
  }

  /** ExecuteAsync's loop, one iteration per scan until cancellation (the end
      of `scans`), with `parallelism` the degree computed for ParallelOptions:
      a scan with no files only waits; otherwise a rejected degree throws and
      is caught, and an accepted one has every file processed; either way
      the loop waits 1000 ms and scans again. The loop as written runs with
      MaxDegreeOfParallelismAsWritten(ProcessorCount), the corrected one with
      MaxDegreeOfParallelism(ProcessorCount). */
  method RunScans(parallelism: int, scans: seq<seq<FileRun>>) returns (cycles: seq<CycleOutcome>, waitedMs: nat)
    ensures |cycles| == |scans|
    ensures forall k :: 0 <= k < |scans| ==> cycles[k] == CycleWith(parallelism, scans[k])
    ensures waitedMs == CycleDelayMs * |scans|
  {
    cycles := [];
    waitedMs := 0;
    var k := 0;
    while k < |scans|
      invariant 0 <= k <= |scans|
      invariant |cycles| == k
      invariant forall j :: 0 <= j < k ==> cycles[j] == CycleWith(parallelism, scans[j])
      invariant waitedMs == CycleDelayMs * k
    {
      var files := scans[k];
      if |files| == 0 {
        cycles := cycles + [NoFiles];
      } else if !AcceptedParallelism(parallelism) {
        cycles := cycles + [CycleFailed];
      } else {
        var outcomes: seq<FileOutcome> := [];
        for i := 0 to |files|
          invariant outcomes == ProcessAll(files[..i])
        {
          var outcome := ProcessFile(files[i]);
          assert files[..i + 1][..i] == files[..i];
          outcomes := outcomes + [outcome];
        }
        assert files[..|files|] == files;
        cycles := cycles + [Processed(outcomes)];
      }
      waitedMs := waitedMs + CycleDelayMs;
      k := k + 1;
    }
  }
}
