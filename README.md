# XMLProcessingSystem, modelled in Dafny

XMLProcessingSystem is two .NET worker services connected by a RabbitMQ queue.

**FileParserService.** `ParsingWorker` scans an input directory for `*.xml` files, once per second. Each file is deserialized into an `InstrumentStatusDto`: a `PackageID` plus a list of `DeviceStatusDto` records. Each record holds a `ModuleCategoryId`, an `IndexWithinRole` and an embedded XML document, `RapidControlStatusXml`. `InstrumentStatusValidator` validates the envelope and collects every rule that fails into a `ValidationResult`. For a valid file, the worker rewrites the first `ModuleState` element of each embedded document with a randomly drawn state (`Online`, `Run`, `NotReady` or `Offline`). It then serializes the envelope to JSON and publishes it under a Polly retry policy: 5 retries with exponential back-off capped at 2 s, plus jitter.

**DataProcessorService.** `DataProcessingWorker` consumes the queue. At most 10 deliveries are handled at once, guarded by a semaphore. Each message runs under a second retry policy of the same shape, which handles database exceptions. `SaveModuleDataAsync` reads the message and upserts one row per device into the `modules` table, keyed by the triple (package, category, index). It commits everything with a single `SaveChanges`. The delivery is then acknowledged, or rejected with requeue. An empty message is rejected without requeue.

The Dafny modules follow that structure:

| file | module | what it holds |
|---|---|---|
| `options.dfy` | `Options` | `Option` and `Result` |
| `xml_document.dfy` | `XmlDocument` | element trees; the `Descendants("ModuleState")` lookup, the rewrite of its first hit, and the `Root.Element("ModuleState")` lookup |
| `dto.dfy` | `Dto` | the two DTOs |
| `validation_result.dfy` | `ValidationResults` | `ValidationResult` |
| `instrument_status_validator.dfy` | `InstrumentStatusValidator` | the validator, as a method with a loop, proved against the list of errors it must produce |
| `wire.dfy` | `Wire` | the JSON message as the consumer's property reads see it; `JsonSerializer` |
| `retry_policy.dfy` | `Retry` | the Polly `WaitAndRetryAsync` policy that both services use |
| `parsing_worker.dfy` | `Parsing` | `ProcessFileAsync` and the `ExecuteAsync` scan cycle |
| `module_store.dfy` | `Store` | the `modules` table, EF Core's tracked changes and `SaveChanges` |
| `data_processing_worker.dfy` | `DataProcessing` | `SaveModuleDataAsync`, and the `ReceivedAsync` handler as a class whose fields are the semaphore, the table and the channel |
| `pipeline.dfy` | `Pipeline` | what the consumer makes of what the producer publishes |

Nondeterminism and I/O become parameters:

- `draw` gives the state drawn for device i.
- `publish` and `faults` give the outcome of the k-th publish attempt and the k-th save attempt.
- `jitter` gives the jitter added before retry k.
- `processorCount` is `Environment.ProcessorCount`.
- Files, deliveries and the committed table are values passed in.

## Model

| member | source | states |
|---|---|---|
| ValidationResults.Success | XMLProcessingSystem/FileParserService/Common/Models/ValidationResult.cs:5-9 | no errors, valid, message "Validation successful" |
| ValidationResults.Failure | XMLProcessingSystem/FileParserService/Common/Models/ValidationResult.cs:10 | exactly the one error; invalid; the message is that error |
| ValidationResults.FailureOf | XMLProcessingSystem/FileParserService/Common/Models/ValidationResult.cs:5-11 | keeps the errors in order; valid iff the list is empty; otherwise the message is the errors joined by "; " |
| ValidationResults.SplitJoin | XMLProcessingSystem/FileParserService/Common/Models/ValidationResult.cs:7 | splitting on "; " recovers a non-empty list of errors that do not themselves contain "; " |
| ValidationResults.MessageListsErrors | XMLProcessingSystem/FileParserService/Common/Models/ValidationResult.cs:7 | an invalid result's message lists exactly its errors, in order |
| InstrumentStatusValidator.ExpectedErrors | XMLProcessingSystem/FileParserService/Common/Helpers/InstrumentStatusValidator.cs:14-52 | the list of failed rules, in the validator's order; specified by InstrumentStatusValidator.ValidIffNoRuleFired (empty iff the envelope is valid), InstrumentStatusValidator.ErrorCountBound and InstrumentStatusValidator.ErrorsInDeviceOrder, and the method InstrumentStatusValidator.ValidateInstrumentStatusDto is proved to return exactly it |
| InstrumentStatusValidator.ValidateInstrumentStatusDto | XMLProcessingSystem/FileParserService/Common/Helpers/InstrumentStatusValidator.cs:10-55 | the errors are exactly the failed rules, in order: a null envelope gives only its own error; a missing PackageID comes first; a missing or empty device list is reported instead of any device error |
| InstrumentStatusValidator.CheckDevice | XMLProcessingSystem/FileParserService/Common/Helpers/InstrumentStatusValidator.cs:33-49 | one pass of the device loop appends that device's errors, and only those |
| InstrumentStatusValidator.ErrorsInDeviceOrder | XMLProcessingSystem/FileParserService/Common/Helpers/InstrumentStatusValidator.cs:30-51 | device i's errors appear after those of the devices before it and before those of the devices after it |
| InstrumentStatusValidator.XmlCheckOutcomes | XMLProcessingSystem/FileParserService/Common/Helpers/InstrumentStatusValidator.cs:35-48 | the document check adds at most one error; none iff the document parses and has a ModuleState at any depth; each failure adds its own message (missing, "Invalid RapidControlStatusXml format: " plus the parser's reason, or no ModuleState) |
| InstrumentStatusValidator.DeviceChecksDoNotShortCircuit | XMLProcessingSystem/FileParserService/Common/Helpers/InstrumentStatusValidator.cs:33-35 | the three checks of a device all run: up to three errors; none iff the device is valid; the category error comes before the index error |
| InstrumentStatusValidator.DevicesErrorsEmptyIffValid | XMLProcessingSystem/FileParserService/Common/Helpers/InstrumentStatusValidator.cs:30-51 | the device loop reports nothing iff every device is valid |
| InstrumentStatusValidator.ValidIffNoRuleFired | XMLProcessingSystem/FileParserService/Common/Helpers/InstrumentStatusValidator.cs:14-55 | the error list is empty iff the envelope is non-null, has a PackageID and has a non-empty list of valid devices |
| InstrumentStatusValidator.ErrorCountBound | XMLProcessingSystem/FileParserService/Common/Helpers/InstrumentStatusValidator.cs:14-52 | at most 1 + max(1, 3·devices) errors |
| InstrumentStatusValidator.NestedStateIsAccepted | XMLProcessingSystem/FileParserService/Common/Helpers/InstrumentStatusValidator.cs:40 | a ModuleState nested below a child of the root satisfies the check |
| XmlDocument.ModuleStates | XMLProcessingSystem/FileParserService/Common/Helpers/InstrumentStatusValidator.cs:40 | `Descendants("ModuleState")`: every node it returns is an element named ModuleState, in document order; specified by its own ensures and used by XmlDocument.NestedStateIsNotAChild and XmlDocument.RootStateIsNotAChild |
| XmlDocument.FirstModuleState | XMLProcessingSystem/FileParserService/ParsingWorker.cs:125 | `Descendants("ModuleState").FirstOrDefault()`: specified by XmlDocument.ReplaceSetsFirst, which proves that after the rewrite it is the element holding the new content |
| XmlDocument.SetFirstModuleState | XMLProcessingSystem/FileParserService/ParsingWorker.cs:127-135 | setting the `Value` of the first ModuleState: specified by XmlDocument.ReplaceKeepsPresence, XmlDocument.ReplaceSetsFirst, XmlDocument.ReplaceIsUndone and XmlDocument.ReplaceWithoutStateIsIdentity |
| XmlDocument.ReplaceKeepsPresence | XMLProcessingSystem/FileParserService/ParsingWorker.cs:125-135 | a tree has a ModuleState after the rewrite iff it had one before; a node keeps its kind, and an element keeps its own name |
| XmlDocument.ReplaceWithoutStateIsIdentity | XMLProcessingSystem/FileParserService/ParsingWorker.cs:125-127 | a document without a ModuleState is left unchanged |
| XmlDocument.ReplaceSetsFirst | XMLProcessingSystem/FileParserService/ParsingWorker.cs:125-135 | after the rewrite, the first ModuleState in document order holds exactly the new content |
| XmlDocument.ReplaceIsUndone | XMLProcessingSystem/FileParserService/ParsingWorker.cs:125-135 | writing the old content back restores the document: the rewrite changes nothing else |
| XmlDocument.ChildModuleState | XMLProcessingSystem/DataProcessorService/DataProcessingWorker.cs:143 | a direct ModuleState child of the root is also a descendant |
| XmlDocument.ChildReadsWrittenState | XMLProcessingSystem/DataProcessorService/DataProcessingWorker.cs:143 | when the root is not itself named ModuleState and the first child holding a ModuleState is one, the consumer's `Root.Element` lookup reads back exactly the value the producer wrote |
| XmlDocument.RewriteKeepsChildPresence | XMLProcessingSystem/FileParserService/ParsingWorker.cs:125-135 | for a root not itself named ModuleState, the rewrite never gives the root a ModuleState child it lacked, nor removes one |
| XmlDocument.NestedStateIsNotAChild | XMLProcessingSystem/DataProcessorService/DataProcessingWorker.cs:143 | a nested ModuleState is found by `Descendants` but not by `Root.Element` |
| XmlDocument.RootStateIsNotAChild | XMLProcessingSystem/DataProcessorService/DataProcessingWorker.cs:143 | a root that is itself ModuleState is found by `Descendants` but not by `Root.Element` |
| XmlDocument.StaleChildAfterRewrite | XMLProcessingSystem/DataProcessorService/DataProcessingWorker.cs:143 | when a nested ModuleState precedes a direct child, the producer rewrites the nested one and the consumer reads the untouched child |
| Wire.Serialize | XMLProcessingSystem/FileParserService/ParsingWorker.cs:143 | `JsonSerializer.Serialize` of the envelope; its inverse is `Wire.Deserialize`, and Wire.SerializeRoundTrip proves that the pair round-trips |
| Wire.SerializeDevices | XMLProcessingSystem/FileParserService/ParsingWorker.cs:143 | one JSON object per device, in order |
| Wire.SerializeRoundTrip | XMLProcessingSystem/FileParserService/ParsingWorker.cs:143 | the serialized envelope reads back as the same envelope |
| Retry.BaseDelayMs | XMLProcessingSystem/FileParserService/ParsingWorker.cs:43-44 | min(2000, 2^attempt · 100) ms; specified by Retry.DelaySchedule, Retry.BaseDelayBounded and Retry.BaseDelayMonotone |
| Retry.SleepDurationMs | XMLProcessingSystem/FileParserService/ParsingWorker.cs:43-45 | the base delay plus a jitter in [0, 250) ms; Retry.BaseDelayBounded proves that it lies in [base, 2250) ms |
| Retry.Execute | XMLProcessingSystem/FileParserService/ParsingWorker.cs:36-50 | `WaitAndRetryAsync(5, …)` run once; specified by Retry.ExecuteShape, Retry.UnhandledErrorIsNotRetried and Retry.PersistentFailureGivesUp |
| Retry.ExecuteFrom | XMLProcessingSystem/FileParserService/ParsingWorker.cs:42-45 | the policy from attempt k on; specified by Retry.ExecuteFromShape: it stops at the first attempt that settles, or at attempt 6, with one sleep per retry |
| Retry.ExecuteFromShape | XMLProcessingSystem/FileParserService/ParsingWorker.cs:42-45 | from attempt k, the attempts run until the first that succeeds, fails with an unhandled error or is the sixth; each retry is preceded by its own sleep |
| Retry.UnhandledErrorIsNotRetried | XMLProcessingSystem/DataProcessorService/DataProcessingWorker.cs:37-39 | an error the policy does not handle ends the execution after one attempt and no sleep |
| Retry.BaseDelayBounded | XMLProcessingSystem/FileParserService/ParsingWorker.cs:43-45 | the base delay is at most 2000 ms and never decreases from one attempt to the next; a sleep lies in [base, 2250) ms |
| Retry.BaseDelayMonotone | XMLProcessingSystem/DataProcessorService/DataProcessingWorker.cs:42-44 | later retries never wait less before jitter |
| Retry.DelaySchedule | XMLProcessingSystem/FileParserService/ParsingWorker.cs:42-45 | the base delays of retries 1 to 5 are 200, 400, 800, 1600 and 2000 ms |
| Retry.ExecuteShape | XMLProcessingSystem/FileParserService/ParsingWorker.cs:36-49 | 1 to 6 attempts; one sleep before each retry, with the sleep for retry i+1; the result is the last attempt's; every earlier attempt failed with a handled error |
| Retry.PersistentFailureGivesUp | XMLProcessingSystem/DataProcessorService/DataProcessingWorker.cs:37-48 | when every attempt fails with a handled error, there are 6 attempts and the last failure is rethrown |
| Parsing.TransformDevice | XMLProcessingSystem/FileParserService/ParsingWorker.cs:117-138 | one pass of the device loop; specified by Parsing.TransformDeviceSpec |
| Parsing.TransformDevices | XMLProcessingSystem/FileParserService/ParsingWorker.cs:113-141 | the device loop; specified by Parsing.TransformDevicesSpec and Parsing.TransformStopsAtFirstError |
| Parsing.ProcessFileResult | XMLProcessingSystem/FileParserService/ParsingWorker.cs:91-157 | what `ProcessFileAsync` does with one file; the method Parsing.ProcessFile is proved to produce exactly it, and Parsing.RejectedFilePublishesNothing, Parsing.ValidFileIsPublishedOnce and Parsing.PayloadKeepsEnvelope state its cases |
| Parsing.ProcessFile | XMLProcessingSystem/FileParserService/ParsingWorker.cs:91-157 | the method (read, validate, rewrite in place, serialize, publish) produces exactly the outcome given by the specification function `ProcessFileResult` |
| Parsing.TransformDeviceSpec | XMLProcessingSystem/FileParserService/ParsingWorker.cs:117-140 | fails iff the document does not parse; keeps category and index; an empty document or one without ModuleState is left as it is; otherwise only the first ModuleState changes, to the drawn state |
| Parsing.TransformDevicesSpec | XMLProcessingSystem/FileParserService/ParsingWorker.cs:113-141 | the loop succeeds iff every device's pass does; device i gets draw i |
| Parsing.TransformStopsAtFirstError | XMLProcessingSystem/FileParserService/ParsingWorker.cs:123 | the first document that does not parse ends the loop |
| Parsing.ValidDevicesAreAllRewritten | XMLProcessingSystem/FileParserService/ParsingWorker.cs:113-141 | for a validated list, every device is rewritten and its first ModuleState holds its drawn state |
| Parsing.RejectedFilePublishesNothing | XMLProcessingSystem/FileParserService/ParsingWorker.cs:97-108 | an unreadable, mismatching or invalid file publishes nothing; an invalid one fails with the validator's joined message |
| Parsing.ValidFileIsPublishedOnce | XMLProcessingSystem/FileParserService/ParsingWorker.cs:103-149 | a valid file is published once if an attempt within the policy succeeds, and otherwise not at all; the payload is the rewritten envelope; every earlier attempt failed with a transient broker error |
| Parsing.PayloadKeepsEnvelope | XMLProcessingSystem/FileParserService/ParsingWorker.cs:140-143 | the message carries the same PackageID and the same devices in order, with the same categories and indices |
| Parsing.MaxDegreeOfParallelism | XMLProcessingSystem/FileParserService/ParsingWorker.cs:75 | the corrected degree is at least 1 and accepted by `ParallelOptions`; it equals ProcessorCount/2 on hosts with at least 2 processors |
| Parsing.ProcessAll | XMLProcessingSystem/FileParserService/ParsingWorker.cs:76-79 | every file found gets its own outcome |
| Parsing.SingleProcessorCycleFails | XMLProcessingSystem/FileParserService/ParsingWorker.cs:75-87 | as written, a 1-processor host fails every cycle that finds files; the corrected cycle processes them |
| Parsing.CycleAgreesOnMultiProcessorHosts | XMLProcessingSystem/FileParserService/ParsingWorker.cs:75 | the correction changes nothing when there are at least 2 processors |
| Parsing.CycleAsWritten | XMLProcessingSystem/FileParserService/ParsingWorker.cs:65-87 | the cycle with the degree ProcessorCount/2 of line 75; Parsing.SingleProcessorCycleFails proves that it fails on a 1-processor host |
| Parsing.Cycle | XMLProcessingSystem/FileParserService/ParsingWorker.cs:65-87 | the cycle with the corrected degree; Parsing.SingleProcessorCycleFails and Parsing.CycleAgreesOnMultiProcessorHosts relate it to the cycle as written |
| Parsing.CycleIsolatesFiles | XMLProcessingSystem/FileParserService/ParsingWorker.cs:65-87 | for any degree of parallelism: no files iff the cycle only waits; files and a degree `ParallelOptions` rejects give a failed cycle; files and an accepted degree give one outcome per file, each that file's own run |
| Parsing.RunScans | XMLProcessingSystem/FileParserService/ParsingWorker.cs:61-88 | the loop for a given degree, whose three branches are the cases of `CycleWith`: one cycle per scan, each 1000 ms apart. `RunScans(MaxDegreeOfParallelismAsWritten(pc), …)` is the loop as written, and `RunScans(MaxDegreeOfParallelism(pc), …)` is the corrected loop |
| Store.SaveChanges | XMLProcessingSystem/DataProcessorService/DataProcessingWorker.cs:187 | `SaveChangesAsync`; specified by Store.SaveChangesSpec, Store.SaveChangesKeepsValid, Store.FailedSaveWritesNothing and Store.EmptySaveAlwaysSucceeds |
| Store.InsertAllSpec | XMLProcessingSystem/DataProcessorService/DataProcessingWorker.cs:162-170 | added entities keep every existing row and each lands under its own triple with a new id |
| Store.SaveChangesSpec | XMLProcessingSystem/DataProcessorService/DataProcessingWorker.cs:187 | a successful save changes only the ModuleState of updated rows and adds one row per added entity |
| Store.SaveChangesKeepsValid | XMLProcessingSystem/DataProcessorService/Data/Configurations/ModuleConfiguration.cs:12-28 | after a save, the triple is still unique and the ids are still distinct |
| Store.FailedSaveWritesNothing | XMLProcessingSystem/DataProcessorService/DataProcessingWorker.cs:187 | when changes are tracked, a fault, a NULL package or a duplicate triple fails the whole save |
| Store.EmptySaveAlwaysSucceeds | XMLProcessingSystem/DataProcessorService/DataProcessingWorker.cs:187 | with nothing tracked the save does not reach the database: it succeeds and leaves the table as it was, whatever the database would have done; any successful save commits its changes |
| DataProcessing.ReadMessage | XMLProcessingSystem/DataProcessorService/DataProcessingWorker.cs:120-150 | the JSON reading of the message: `Devices`, then `PackageID`, then the device loop; Pipeline.ReadSerializedEnvelope proves that it reads back the PackageID and one entry per readable device of what the producer serializes, and DataProcessing.UnreadableMessageIsRequeued states what happens when it fails |
| DataProcessing.DecodeDevice | XMLProcessingSystem/DataProcessorService/DataProcessingWorker.cs:128-150 | one device of the loop; specified by DataProcessing.SkippedDevices, DataProcessing.WideIndexFailsTheMessage and Pipeline.DecodeSerializedDevice |
| DataProcessing.DecodeDevices | XMLProcessingSystem/DataProcessorService/DataProcessingWorker.cs:126-150 | the device loop; specified by DataProcessing.DecodeStopsAtFirstError, DataProcessing.SkippedDeviceIsIgnored and Pipeline.DecodeNeedsEveryDevice |
| DataProcessing.Stage | XMLProcessingSystem/DataProcessorService/DataProcessingWorker.cs:152-183 | the adds and updates EF Core tracks; specified by DataProcessing.StageSpec and DataProcessing.StageWithoutPackage |
| DataProcessing.SaveAttempt | XMLProcessingSystem/DataProcessorService/DataProcessingWorker.cs:118-188 | one call of `SaveModuleDataAsync`; the method DataProcessing.SaveModuleData is proved to return exactly it, and DataProcessing.UpsertSpec and DataProcessing.Idempotent state what it stores |
| DataProcessing.SaveModuleData | XMLProcessingSystem/DataProcessorService/DataProcessingWorker.cs:118-188 | the method (read, loop with lookups, adds and updates, one save) produces exactly the specification function `SaveAttempt` |
| DataProcessing.DecodeStopsAtFirstError | XMLProcessingSystem/DataProcessorService/DataProcessingWorker.cs:126-142 | the first device that cannot be read fails the message |
| DataProcessing.SkippedDevices | XMLProcessingSystem/DataProcessorService/DataProcessingWorker.cs:128-150 | null category, an empty or null document, or no ModuleState child are skipped |
| DataProcessing.SkippedDeviceIsIgnored | XMLProcessingSystem/DataProcessorService/DataProcessingWorker.cs:130-150 | a skipped device does not change what a message produces |
| DataProcessing.WideIndexFailsTheMessage | XMLProcessingSystem/DataProcessorService/DataProcessingWorker.cs:137 | an index outside [-32768, 32767] fails the message |
| DataProcessing.StageSpec | XMLProcessingSystem/DataProcessorService/DataProcessingWorker.cs:152-183 | a triple already committed is updated to the state of its last entry; every other triple is added, with its state when the adds are distinct |
| DataProcessing.StageWithoutPackage | XMLProcessingSystem/DataProcessorService/DataProcessingWorker.cs:152-170 | a null PackageID matches no row, so every entry adds an entity with a null package |
| DataProcessing.UpsertSpec | XMLProcessingSystem/DataProcessorService/DataProcessingWorker.cs:118-188 | after a successful save, the rows are the old rows plus the message's triples; each triple holds its last state; other rows are untouched; new rows get new ids |
| DataProcessing.Idempotent | XMLProcessingSystem/DataProcessorService/DataProcessingWorker.cs:152-187 | redelivering a message that was stored changes nothing |
| DataProcessing.SecondPassRewritesSameStates | XMLProcessingSystem/DataProcessorService/DataProcessingWorker.cs:174-187 | updates to the states already stored commit the same table |
| DataProcessing.DuplicateNewTripleFailsTheSave | XMLProcessingSystem/DataProcessorService/DataProcessingWorker.cs:152-170 | two entries for the same uncommitted triple both add an entity, and the unique index rejects the save |
| DataProcessing.RunThenOffline | XMLProcessingSystem/DataProcessorService/DataProcessingWorker.cs:118-188 | a message with state Run creates row P1/C1/0; one with state Offline then updates it in place |
| DataProcessing.HandleDelivery | XMLProcessingSystem/DataProcessorService/DataProcessingWorker.cs:66-104 | the events, table, attempts and sleeps of one delivery; the method DataProcessing.DataProcessingWorker.ReceivedAsync is proved to act as it, and DataProcessing.DeliveryOutcome, DataProcessing.EmptyBodyIsDropped and DataProcessing.UnreadableMessageIsRequeued state its cases |
| DataProcessing.DataProcessingWorker.constructor | XMLProcessingSystem/DataProcessorService/DataProcessingWorker.cs:23 | the semaphore starts with all 10 slots free; nothing has been sent on the channel |
| DataProcessing.DataProcessingWorker.ReceivedAsync | XMLProcessingSystem/DataProcessorService/DataProcessingWorker.cs:66-104 | appends the `HandleDelivery` events to the channel and installs its table; every slot taken is released; a slot is taken iff the body is non-empty and the wait is not cancelled |
| DataProcessing.DeliveryOutcome | XMLProcessingSystem/DataProcessorService/DataProcessingWorker.cs:78-99 | a non-empty body gets exactly one ack or one requeueing nack; ack iff the last attempt saved, and then its table is kept; a nack keeps the old table; every earlier attempt failed in the database |
| DataProcessing.EmptyBodyIsDropped | XMLProcessingSystem/DataProcessorService/DataProcessingWorker.cs:71-76 | an empty body is rejected without requeue, with no attempt |
| DataProcessing.NothingToSaveIsAcked | XMLProcessingSystem/DataProcessorService/DataProcessingWorker.cs:83-93 | a readable message whose every device is skipped is acknowledged after one attempt and no sleep, whatever the database would have done, and the table is unchanged |
| DataProcessing.UnreadableMessageIsRequeued | XMLProcessingSystem/DataProcessorService/DataProcessingWorker.cs:83-99 | a reading error is not retried: one attempt, then a requeueing nack |
| DataProcessing.PersistentDbFailureIsRequeued | XMLProcessingSystem/DataProcessorService/DataProcessingWorker.cs:37-48 | 6 failing saves, with the policy's 5 sleeps between them, end in a requeueing nack |
| DataProcessing.DuplicateNewTripleIsRequeued | XMLProcessingSystem/DataProcessorService/DataProcessingWorker.cs:83-99 | such a message fails 6 times and is requeued |
| DataProcessing.DeliveryKeepsValid | XMLProcessingSystem/DataProcessorService/DataProcessingWorker.cs:83-99 | a delivery's resulting table is valid |
| DataProcessing.DbRetrySchedule | XMLProcessingSystem/DataProcessorService/DataProcessingWorker.cs:42-44 | at most 5 sleeps, the i-th in [base(i+1), base(i+1) + 250) ms |
| Pipeline.DecodeSerializedDevice | XMLProcessingSystem/DataProcessorService/DataProcessingWorker.cs:128-150 | a serialized device with a category, a 16-bit index and a ModuleState child reads as exactly its own entry |
| Pipeline.DecodeSerializedDevices | XMLProcessingSystem/DataProcessorService/DataProcessingWorker.cs:126-150 | the serialized devices all read, one entry each, in order |
| Pipeline.ReadSerializedEnvelope | XMLProcessingSystem/DataProcessorService/DataProcessingWorker.cs:120-150 | a serialized envelope whose devices are all readable reads as its PackageID and one entry per device, in order |
| Pipeline.DecodeNeedsEveryDevice | XMLProcessingSystem/DataProcessorService/DataProcessingWorker.cs:126-142 | the device list reads only if every device in it reads |
| Pipeline.DrawnStatesReachTheConsumer | XMLProcessingSystem/FileParserService/ParsingWorker.cs:113-143 | end to end: in a published file with 16-bit indices and direct-child ModuleStates, the consumer reads one entry per device, in order, carrying the drawn state |
| Pipeline.NestedStateIsSkippedDownstream | XMLProcessingSystem/DataProcessorService/DataProcessingWorker.cs:143-150 | a valid device without a ModuleState child is rewritten by the producer and skipped by the consumer |
| Pipeline.WideIndexIsRequeued | XMLProcessingSystem/DataProcessorService/DataProcessingWorker.cs:137 | a published file with an index beyond 16 bits is never stored: every delivery is requeued after one attempt |

## Left out

- Concurrency. `Parallel.ForEachAsync` is modelled as processing the files one after another in the order found. Files share nothing except the broker, so the per-file outcomes do not depend on the interleaving. The 10-slot semaphore is modelled one delivery at a time: `ReceivedAsync` takes and releases a slot and leaves the count where it was. Interleavings of 10 concurrent handlers are not modelled.
- I/O and logging. The file system, directory scanning, RabbitMQ connections and channels, and `ILogger` are all left out. A file's content, the publish results and the delivered body are parameters of the model.
- Parsing of XML and JSON. The XML serializer that builds `InstrumentStatusDto`, `XDocument.Parse` and `JsonDocument.Parse` are modelled by their results: a parsed tree, a parser error with its reason, or a missing or mistyped property. The model assumes that `XDocument.ToString()` re-parses to the same tree.
- Parsing.ProcessFile: cancellation of `ReadAllBytesAsync` and of the publish through the token `ct` is not modelled.
- Parsing.RunScans: the token of `ExecuteAsync` is modelled only as the end of the list of scans. `QueueDeclareAsync` is not modelled.
- DataProcessing.DataProcessingWorker.ReceivedAsync: cancellation is modelled only at `WaitAsync`, which throws before taking a slot. Then nothing is sent and nothing is released. What the channel does with that exception is not modelled.
- Store.SaveChanges: a database fault is modelled only at `SaveChangesAsync`. The lookup query at DataProcessingWorker.cs:152-156 is assumed not to fail, and the model does not say which exceptions it would throw.
- Rows whose `IndexWithinRole` is NULL are not modelled. The migration `XMLProcessingSystem/DataProcessorService/Migrations/20251006212047_AddModuleConfiguration.cs` (lines 31-43) makes the `index_within_role` and `package_id` columns NOT NULL. A `Guid` is modelled as a counter of ids.
- Retry: `Math.Pow(2, attempt)` is computed as an exact integer. `Random.Shared.Next` is modelled by the `jitter` and `draw` parameters.
- A null entry in the device list (an `xsi:nil` `DeviceStatus`) is not modelled: the device list of the model holds only records. With such an entry, the validator dereferences null at InstrumentStatusValidator.cs:33 and throws `NullReferenceException`, which fails the file at ParsingWorker.cs:153-156.
- `FileManagerCli`, both `Program.cs` files, their service registrations and the settings classes are not part of this model.

## Findings

| source | as written | input that shows it | evidently intended | confidence | as-written member | corrected member |
|---|---|---|---|---|---|---|
| XMLProcessingSystem/FileParserService/ParsingWorker.cs:75 | `MaxDegreeOfParallelism = Environment.ProcessorCount / 2`, which is 0 on a single-processor host. `ParallelOptions` rejects 0 with `ArgumentOutOfRangeException`; the catch at lines 83-87 logs it, waits and tries again. | `processorCount = 1` and at least one `*.xml` file: every cycle fails and no file is ever processed | use half the processors, but at least one | not executed | Parsing.SingleProcessorCycleFails | Parsing.MaxDegreeOfParallelism |
