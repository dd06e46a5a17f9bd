/** InstrumentStatusValidator.ValidateInstrumentStatusDto: checks an envelope
    rule by rule and collects every error, without stopping at the first. */
module InstrumentStatusValidator {
  import opened Options
  import opened XmlDocument
  import opened Dto
  import opened ValidationResults

  const NullEnvelopeError: string := "InstrumentStatusDto is null."
  const MissingPackageIdError: string := "Missing required PackageID element."
  const NoDevicesError: string := "Devices collection is empty or missing."
  const MissingCategoryError: string := "A device is missing ModuleCategoryId."
  const MissingIndexError: string := "A device is missing IndexWithinRole."
  const MissingXmlError: string := "A device is missing RapidControlStatusXml."
  const MissingStateError: string := "A device is missing ModuleState in RapidControlStatusXml."

  /** The error for an embedded document that XDocument.Parse rejects; it
      carries the XmlException's message. */
  function InvalidXmlError(reason: string): string {
    "Invalid RapidControlStatusXml format: " + reason
  }

  /** A device that passes every per-device rule. */
  predicate DeviceIsValid(d: DeviceStatus) {
    && !IsNullOrEmpty(d.moduleCategoryId)
    && d.indexWithinRole.Some?
    && d.rapidControlStatusXml.Some?
    && d.rapidControlStatusXml.value.Parsed?
    && HasModuleState(d.rapidControlStatusXml.value.root)
  }

  /** An envelope that passes every rule. */
  predicate EnvelopeIsValid(dto: Option<InstrumentStatus>) {
    && dto.Some?
    && !IsNullOrEmpty(dto.value.packageId)
    && dto.value.devices.Some?
    && |dto.value.devices.value| > 0
    && forall i :: 0 <= i < |dto.value.devices.value| ==> DeviceIsValid(dto.value.devices.value[i])
  }

  /** The error the embedded-document check adds, or none. */
  function XmlErrors(x: Option<XmlText>): seq<string> {
    if IsNullOrEmptyXml(x) then [MissingXmlError]
    else if x.value.Malformed? then [InvalidXmlError(x.value.reason)]
    else if HasModuleState(x.value.root) then []
    else [MissingStateError]
  }

  /** The errors of one device, in the order its checks run. */
  function DeviceErrors(d: DeviceStatus): seq<string> {
    (if IsNullOrEmpty(d.moduleCategoryId) then [MissingCategoryError] else [])
    + (if d.indexWithinRole.None? then [MissingIndexError] else [])
    + XmlErrors(d.rapidControlStatusXml)
  }

  /** The errors of a device list: each device's errors, device after device. */
  function DevicesErrors(ds: seq<DeviceStatus>): seq<string> {
    ConcatMap(DeviceErrors, ds)
  }

  /** `f` applied to every element, the results concatenated in order. */
  function ConcatMap<A, B>(f: A -> seq<B>, xs: seq<A>): seq<B> {
    if xs == [] then [] else ConcatMap(f, xs[..|xs| - 1]) + f(xs[|xs| - 1])
  }

  /** The errors the validator reports for an envelope. */
  function ExpectedErrors(dto: Option<InstrumentStatus>): seq<string> {
    if dto.None? then [NullEnvelopeError]
    else
      (if IsNullOrEmpty(dto.value.packageId) then [MissingPackageIdError] else [])
      + (if dto.value.devices.None? || |dto.value.devices.value| == 0 then [NoDevicesError]
         else DevicesErrors(dto.value.devices.value))
  }

  /** The number of devices the envelope holds (a missing list holds none). */
  function DeviceCount(dto: Option<InstrumentStatus>): nat {
    if dto.None? || dto.value.devices.None? then 0 else |dto.value.devices.value|
  }

  /** The validator as written: an error list filled by one check after the
      other and a loop over the devices. It only reads the envelope. */
  method ValidateInstrumentStatusDto(dto: Option<InstrumentStatus>) returns (r: ValidationResult)
    ensures r.errors == ExpectedErrors(dto)
    ensures dto.None? ==> r.errors == [NullEnvelopeError]
    ensures dto.Some? && IsNullOrEmpty(dto.value.packageId) ==> r.errors[0] == MissingPackageIdError
    ensures dto.Some? && (dto.value.devices.None? || dto.value.devices.value == []) ==>
              r.errors == (if IsNullOrEmpty(dto.value.packageId) then [MissingPackageIdError] else []) + [NoDevicesError]
  {
    var errors: seq<string> := [];
    if dto.None? {
      errors := errors + [NullEnvelopeError];
    } else {
      var envelope := dto.value;
      if IsNullOrEmpty(envelope.packageId) {
        errors := errors + [MissingPackageIdError];
      }
      if envelope.devices.None? || |envelope.devices.value| == 0 {
        errors := errors + [NoDevicesError];
      } else {
        var devices := envelope.devices.value;
        ghost var before := errors;
        for i := 0 to |devices|
          invariant errors == before + DevicesErrors(devices[..i])
        {
          errors := CheckDevice(devices[i], errors);
          DevicesErrorsSnoc(devices, i);
        }
        assert devices[..|devices|] == devices;
      }
    }
    r := if |errors| > 0 then FailureOf(errors) else Success();
  }

  /** The body of the device loop: the three per-device checks, each adding
      its error to the list when it fails. */
  method CheckDevice(device: DeviceStatus, errors: seq<string>) returns (errors': seq<string>)
    ensures errors' == errors + DeviceErrors(device)
  {
    errors' := errors;
    if IsNullOrEmpty(device.moduleCategoryId) {
      errors' := errors' + [MissingCategoryError];
    }
    if device.indexWithinRole.None? {
      errors' := errors' + [MissingIndexError];
    }
    if IsNullOrEmptyXml(device.rapidControlStatusXml) {
      errors' := errors' + [MissingXmlError];
    } else {
      var xml := device.rapidControlStatusXml.value;
      if xml.Malformed? {
        errors' := errors' + [InvalidXmlError(xml.reason)];
      } else if !HasModuleState(xml.root) {
        errors' := errors' + [MissingStateError];
      }
    }
  }

  // ---------------------------------------------------------------------------
  // Properties of the reported errors.

  /** One more device adds its own errors at the end. */
  lemma DevicesErrorsSnoc(ds: seq<DeviceStatus>, i: nat)
    requires i < |ds|
    ensures DevicesErrors(ds[..i + 1]) == DevicesErrors(ds[..i]) + DeviceErrors(ds[i])
  {
    assert ds[..i + 1][..i] == ds[..i];
  }

  /** Devices report their errors in list order: the errors of a list split at
      any point are the errors of the front followed by those of the back. */
  lemma {:induction false} ConcatMapAppend<A, B>(f: A -> seq<B>, a: seq<A>, b: seq<A>)
    ensures ConcatMap(f, a + b) == ConcatMap(f, a) + ConcatMap(f, b)
    decreases |b|
  {
    if b == [] {
      assert a + b == a;
    } else {
      var b' := b[..|b| - 1];
      ConcatMapAppend(f, a, b');
      assert (a + b)[..|a + b| - 1] == a + b';
      assert (a + b)[|a + b| - 1] == b[|b| - 1];
    }
  }

  lemma DevicesErrorsAppend(a: seq<DeviceStatus>, b: seq<DeviceStatus>)
    ensures DevicesErrors(a + b) == DevicesErrors(a) + DevicesErrors(b)
  {
    ConcatMapAppend(DeviceErrors, a, b);
  }

  /** Device i's errors sit between those of the devices before and after it. */
  lemma ErrorsInDeviceOrder(ds: seq<DeviceStatus>, i: nat)
    requires i < |ds|
    ensures DevicesErrors(ds) == DevicesErrors(ds[..i]) + DeviceErrors(ds[i]) + DevicesErrors(ds[i + 1..])
  {
    assert ds == ds[..i] + [ds[i]] + ds[i + 1..];
    DevicesErrorsAppend(ds[..i] + [ds[i]], ds[i + 1..]);
    DevicesErrorsAppend(ds[..i], [ds[i]]);
    assert [ds[i]][..0] == [];
  }

  /** The embedded-document check adds at most one error: the one for an empty
      document, the one for a document XDocument.Parse rejects, or the one for
      a document without ModuleState at any depth, and none exactly when the
      document parses and has a ModuleState. */
  lemma XmlCheckOutcomes(x: Option<XmlText>)
    ensures |XmlErrors(x)| <= 1
    ensures XmlErrors(x) == [] <==> x.Some? && x.value.Parsed? && HasModuleState(x.value.root)
    ensures IsNullOrEmptyXml(x) ==> XmlErrors(x) == [MissingXmlError]
    ensures x.Some? && x.value.Malformed? ==> XmlErrors(x) == [InvalidXmlError(x.value.reason)]
    ensures x.Some? && x.value.Parsed? && !HasModuleState(x.value.root) ==> XmlErrors(x) == [MissingStateError]
  {
  }

  /** The per-device checks do not stop at the first failure: a device missing
      both its category and its index reports both, and then at most the one
      error of the document check; a device reports no error exactly when it
      is valid. */
  lemma DeviceChecksDoNotShortCircuit(d: DeviceStatus)
    ensures |DeviceErrors(d)| <= 3
    ensures DeviceErrors(d) == [] <==> DeviceIsValid(d)
    ensures IsNullOrEmpty(d.moduleCategoryId) ==> DeviceErrors(d)[0] == MissingCategoryError
    ensures IsNullOrEmpty(d.moduleCategoryId) && d.indexWithinRole.None? ==>
              |DeviceErrors(d)| >= 2 && DeviceErrors(d)[..2] == [MissingCategoryError, MissingIndexError]
  {
    XmlCheckOutcomes(d.rapidControlStatusXml);
  }

  /** Each device adds at most three errors. */
  lemma {:induction false} DevicesErrorsBound(ds: seq<DeviceStatus>)
    ensures |DevicesErrors(ds)| <= 3 * |ds|
  {
    if ds != [] {
      DevicesErrorsBound(ds[..|ds| - 1]);
      DeviceChecksDoNotShortCircuit(ds[|ds| - 1]);
    }
  }

  /** A device list yields no errors exactly when every device is valid. */
  lemma {:induction false} DevicesErrorsEmptyIffValid(ds: seq<DeviceStatus>)
    ensures DevicesErrors(ds) == [] <==> forall i :: 0 <= i < |ds| ==> DeviceIsValid(ds[i])
  {
    if ds != [] {
      var front := ds[..|ds| - 1];
      DevicesErrorsEmptyIffValid(front);
      DeviceChecksDoNotShortCircuit(ds[|ds| - 1]);
      assert forall i :: 0 <= i < |front| ==> front[i] == ds[i];
    }
  }

  /** The result is valid exactly when no rule fired. */
  lemma ValidIffNoRuleFired(dto: Option<InstrumentStatus>)
    ensures ExpectedErrors(dto) == [] <==> EnvelopeIsValid(dto)
  {
    if dto.Some? && dto.value.devices.Some? {
      DevicesErrorsEmptyIffValid(dto.value.devices.value);
    }
  }

  /** The error count is at most 1 + max(1, 3 * number of devices). */
  lemma ErrorCountBound(dto: Option<InstrumentStatus>)
    ensures |ExpectedErrors(dto)| <= 1 + (if 3 * DeviceCount(dto) > 1 then 3 * DeviceCount(dto) else 1)
  {
    if dto.Some? && dto.value.devices.Some? {
      DevicesErrorsBound(dto.value.devices.value);
    }
  }

  /** A ModuleState nested below the top level of the embedded document
      satisfies the check. */
  lemma NestedStateIsAccepted(category: string, index: Int32)
    requires category != ""
    ensures var doc := Element("Status", [Element("Device", [Element(ModuleStateName, [Text("Run")])])]);
            DeviceErrors(DeviceStatus(Some(category), Some(index), Some(Parsed(doc)))) == []
  {
    NestedStateIsNotAChild();
  }
}
