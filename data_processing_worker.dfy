/** DataProcessorService.DataProcessingWorker: per delivery, read the JSON
    envelope, upsert one row per usable device into the `modules` table with
    a single save, retry database failures, and acknowledge or reject the
    delivery; a semaphore of ten bounds the deliveries in progress. */
module DataProcessing {
  import opened Options
  import opened XmlDocument
  import opened Wire
  import opened Store
  import opened Retry

  /** The range `JsonElement.GetInt16` accepts. */
  const Int16Min: int := -0x8000
  const Int16Max: int := 0x7FFF

  /** `new SemaphoreSlim(10)`. */
  const Capacity: nat := 10

  /** The exceptions reading a message can throw. */
  datatype DecodeError =
    | MalformedJson                  // JsonDocument.Parse threw, or the root is no object
    | PropertyMissing(name: string)  // GetProperty: KeyNotFoundException
    | NotOfKind(name: string)        // a getter on a value of another kind: InvalidOperationException
    | NotInt16(value: int)           // GetInt16 on a number out of range: FormatException
    | MalformedXml(reason: string)   // XDocument.Parse: XmlException

  /** A device that reaches the lookup: its category, index and the state
      read from the embedded document. */
  datatype Entry = Entry(moduleCategoryId: string, indexWithinRole: int, moduleState: string)

  /** What the loop reads from a message before it touches the table. */
  datatype Message = Message(packageId: Option<string>, entries: seq<Entry>)

  /** `GetProperty(name).GetString()`. */
  function GetString(p: JsonProp<string>, name: string): Result<Option<string>, DecodeError> {
    match p
    case Missing => Err(PropertyMissing(name))
    case Null => Ok(None)
    case Value(s) => Ok(Some(s))
    case WrongKind => Err(NotOfKind(name))
  }

  /** `GetProperty(name).GetInt16()`: JSON null is not a number. */
  function GetInt16(p: JsonProp<int>, name: string): Result<int, DecodeError> {
    match p
    case Missing => Err(PropertyMissing(name))
    case Value(v) => if Int16Min <= v <= Int16Max then Ok(v) else Err(NotInt16(v))
    case _ => Err(NotOfKind(name))
  }

  /** `GetProperty(name).GetString()` for the embedded document. */
  function GetXml(p: JsonProp<XmlText>, name: string): Result<Option<XmlText>, DecodeError> {
    match p
    case Missing => Err(PropertyMissing(name))
    case Null => Ok(None)
    case Value(x) => Ok(Some(x))
    case WrongKind => Err(NotOfKind(name))
  }

  /** One pass of the device loop up to the lookup. `Ok(None)` is a skipped
      device: null category, null or empty document, or no ModuleState
      directly under the root. A device that is no object fails at its first
      GetProperty. */
  function DecodeDevice(d: JsonDevice): Result<Option<Entry>, DecodeError> {
    if d.NotAnObject? then Err(NotOfKind("ModuleCategoryId"))
    else
      match GetString(d.moduleCategoryId, "ModuleCategoryId")
      case Err(e) => Err(e)
      case Ok(None) => Ok(None)
      case Ok(Some(category)) =>
        match GetInt16(d.indexWithinRole, "IndexWithinRole")
        case Err(e) => Err(e)
        case Ok(index) =>
          match GetXml(d.rapidControlStatusXml, "RapidControlStatusXml")
          case Err(e) => Err(e)
          case Ok(x) =>
            if x.None? || x.value.Empty? then Ok(None)
            else if x.value.Malformed? then Err(MalformedXml(x.value.reason))
            else
              match ChildModuleState(x.value.root)
              case None => Ok(None)
              case Some(state) => Ok(Some(Entry(category, index, state)))
  }

  /** The devices read in order; the first failure ends the loop. */
  function DecodeDevices(ds: seq<JsonDevice>): Result<seq<Entry>, DecodeError> {
    if ds == [] then Ok([])
    else
      var front := DecodeDevices(ds[..|ds| - 1]);
      if front.Err? then front
      else
        var last := DecodeDevice(ds[|ds| - 1]);
        if last.Err? then Err(last.error)
        else if last.value.None? then front
        else Ok(front.value + [last.value.value])
  }

  /** "Devices" is read (and enumerated) first, then "PackageID". */
  function ReadMessage(body: Body): Result<Message, DecodeError> {
    if !body.Json? then Err(MalformedJson)
    else
      var env := body.envelope;
      if env.devices.Missing? then Err(PropertyMissing("Devices"))
      else if !env.devices.Value? then Err(NotOfKind("Devices"))
      else
        match GetString(env.packageId, "PackageID")
        case Err(e) => Err(e)
        case Ok(packageId) =>
          match DecodeDevices(env.devices.value)
          case Err(e) => Err(e)
          case Ok(entries) => Ok(Message(packageId, entries))
  }

  // ---------------------------------------------------------------------------
  // The upsert.

  function KeyFor(packageId: string, e: Entry): Key {
    Key(packageId, e.moduleCategoryId, e.indexWithinRole)
  }

  /** The change tracker after the loop: the lookup reads committed rows only,
      so an entry whose triple is committed updates that row (a later entry
      for the same row wins) and any other entry adds an entity, even when an
      earlier entry of the same message added one for the same triple. */
  function Stage(t: Table, packageId: Option<string>, es: seq<Entry>): Changes {
    if es == [] then NoChanges
    else
      var ch := Stage(t, packageId, es[..|es| - 1]);
      var e := es[|es| - 1];
      if packageId.Some? && KeyFor(packageId.value, e) in t.rows then
        ch.(updates := ch.updates[KeyFor(packageId.value, e) := e.moduleState])
      else
        ch.(inserts := ch.inserts + [PendingInsert(packageId, e.moduleCategoryId, e.indexWithinRole, e.moduleState)])
  }

  /** The state each triple of a message asks for: that of its last entry. */
  function Target(packageId: string, es: seq<Entry>): map<Key, string> {
    if es == [] then map[]
    else Target(packageId, es[..|es| - 1])[KeyFor(packageId, es[|es| - 1]) := es[|es| - 1].moduleState]
  }

  /** Failures of one attempt: reading the message, or saving. */
  datatype SaveError = DecodeFailed(decodeError: DecodeError) | SaveFailed(dbError: DbError)

  /** The DB policy handles DbUpdateException and DbException, which is what
      SaveChanges throws; the reading errors are not handled. */
  predicate IsRetryableSaveError(e: SaveError) {
    e.SaveFailed?
  }

  /** One attempt of SaveModuleDataAsync in a fresh scope against the committed
      table `t`; `fault` says whether the database fails during the save. */
  function SaveAttempt(body: Body, t: Table, fault: bool): Result<Table, SaveError> {
    match ReadMessage(body)
    case Err(e) => Err(DecodeFailed(e))
    case Ok(m) =>
      match SaveChanges(t, Stage(t, m.packageId, m.entries), fault)
      case Err(e) => Err(SaveFailed(e))
      case Ok(t') => Ok(t')
  }

  /** SaveModuleDataAsync as written: read Devices and PackageID, then per
      device read its properties, skip it or look its triple up among the
      committed rows and record an update or an insert, and save once. */
  method SaveModuleData(body: Body, committed: Table, fault: bool) returns (r: Result<Table, SaveError>)
    ensures r == SaveAttempt(body, committed, fault)
  {
    if !body.Json? {
      return Err(DecodeFailed(MalformedJson));
    }
    var env := body.envelope;
    if env.devices.Missing? {
      return Err(DecodeFailed(PropertyMissing("Devices")));
    }
    if !env.devices.Value? {
      return Err(DecodeFailed(NotOfKind("Devices")));
    }
    var devices := env.devices.value;
    var packageRead := GetString(env.packageId, "PackageID");
    if packageRead.Err? {
      return Err(DecodeFailed(packageRead.error));
    }
    var packageId := packageRead.value;
    var updates: map<Key, string> := map[];
    var inserts: seq<PendingInsert> := [];
    ghost var entries: seq<Entry> := [];
    for i := 0 to |devices|
      invariant DecodeDevices(devices[..i]) == Ok(entries)
      invariant Changes(updates, inserts) == Stage(committed, packageId, entries)
    {
      assert devices[..i + 1][..i] == devices[..i];
      var device := DecodeDevice(devices[i]);
      if device.Err? {
        DecodeStopsAtFirstError(devices, i + 1);
        return Err(DecodeFailed(device.error));
      }
      if device.value.Some? {
        var e := device.value.value;
        if packageId.Some? && KeyFor(packageId.value, e) in committed.rows {
          updates := updates[KeyFor(packageId.value, e) := e.moduleState];
        } else {
          inserts := inserts + [PendingInsert(packageId, e.moduleCategoryId, e.indexWithinRole, e.moduleState)];
        }
        assert (entries + [e])[..|entries|] == entries;
        entries := entries + [e];
      }
    }
    assert devices[..|devices|] == devices;
    var saved := SaveChanges(committed, Changes(updates, inserts), fault);
    if saved.Err? {
      r := Err(SaveFailed(saved.error));
    } else {
      r := Ok(saved.value);
    }
  }

  // ---------------------------------------------------------------------------
  // Properties of reading a message.

  /** Once a device fails to read, the devices after it are not looked at. */
  lemma {:induction false} DecodeStopsAtFirstError(ds: seq<JsonDevice>, n: nat)
    requires n <= |ds| && DecodeDevices(ds[..n]).Err?
    ensures DecodeDevices(ds) == DecodeDevices(ds[..n])
  {
    if n < |ds| {
      var front := ds[..|ds| - 1];
      assert front[..n] == ds[..n];
      DecodeStopsAtFirstError(front, n);
    } else {
      assert ds[..n] == ds;
    }
  }

  /** The devices the loop skips: a null category (before the index is even
      read), a null or empty document, and a document whose root has no
      ModuleState child, even when one is nested deeper. */
  lemma SkippedDevices(category: string, index: int, x: JsonProp<XmlText>)
    requires Int16Min <= index <= Int16Max
    ensures forall i: JsonProp<int>, y: JsonProp<XmlText> :: DecodeDevice(DeviceObject(Null, i, y)) == Ok(None)
    ensures x.Null? || x == Value(Empty) ==> DecodeDevice(DeviceObject(Value(category), Value(index), x)) == Ok(None)
    ensures x.Value? && x.value.Parsed? && ChildModuleState(x.value.root).None? ==>
              DecodeDevice(DeviceObject(Value(category), Value(index), x)) == Ok(None)
  {
  }

  /** A skipped device contributes nothing: the entries are those of the
      other devices. */
  lemma {:induction false} SkippedDeviceIsIgnored(front: seq<JsonDevice>, d: JsonDevice, back: seq<JsonDevice>)
    requires DecodeDevice(d) == Ok(None)
    ensures DecodeDevices(front + [d] + back) == DecodeDevices(front + back)
    decreases |back|
  {
    if back == [] {
      assert (front + [d] + back)[..|front|] == front;
      assert front + back == front;
    } else {
      var back' := back[..|back| - 1];
      SkippedDeviceIsIgnored(front, d, back');
      assert (front + [d] + back)[..|front + [d] + back| - 1] == front + [d] + back';
      assert (front + back)[..|front + back| - 1] == front + back';
      assert (front + [d] + back)[|front + [d] + back| - 1] == back[|back| - 1];
      assert (front + back)[|front + back| - 1] == back[|back| - 1];
    }
  }

  /** The index is read as a 16-bit integer: a device whose index lies outside
      [-32768, 32767] fails the whole message, unless its category is null. */
  lemma WideIndexFailsTheMessage(category: string, index: int, x: JsonProp<XmlText>)
    requires index < Int16Min || Int16Max < index
    ensures DecodeDevice(DeviceObject(Value(category), Value(index), x)) == Err(NotInt16(index))
  {
  }

  // ---------------------------------------------------------------------------
  // Properties of the upsert.

  /** With a known package, the tracker holds an update for exactly the
      message's triples that are committed, each with the last state asked
      for, and an insert for each entry whose triple is not; when those
      inserts hold distinct triples, each carries the state asked for. */
  lemma StageSpec(t: Table, p: string, es: seq<Entry>)
    ensures var ch := Stage(t, Some(p), es);
            var target := Target(p, es);
            && (forall k :: k in ch.updates <==> k in t.rows && k in target)
            && (forall k :: k in ch.updates ==> ch.updates[k] == target[k])
            && AllHavePackage(ch.inserts)
            && (forall i :: 0 <= i < |ch.inserts| ==> InsertKey(ch.inserts[i]) in target && InsertKey(ch.inserts[i]) !in t.rows)
            && (forall k :: k in target && k !in t.rows ==> exists i :: 0 <= i < |ch.inserts| && InsertKey(ch.inserts[i]) == k)
            && (FreshKeys(t, ch.inserts) ==>
                  forall i :: 0 <= i < |ch.inserts| ==> ch.inserts[i].moduleState == target[InsertKey(ch.inserts[i])])
  {
    StageUpdates(t, p, es);
    StageInsertKeys(t, p, es);
    StageInsertsCover(t, p, es);
    StageInsertStates(t, p, es);
  }

  lemma {:induction false} StageUpdates(t: Table, p: string, es: seq<Entry>)
    ensures var ch := Stage(t, Some(p), es);
            && (forall k :: k in ch.updates <==> k in t.rows && k in Target(p, es))
            && (forall k :: k in ch.updates ==> ch.updates[k] == Target(p, es)[k])
  {
    if es != [] {
      StageUpdates(t, p, es[..|es| - 1]);
    }
  }

  lemma {:induction false} StageInsertKeys(t: Table, p: string, es: seq<Entry>)
    ensures var ins := Stage(t, Some(p), es).inserts;
            && AllHavePackage(ins)
            && forall i :: 0 <= i < |ins| ==> InsertKey(ins[i]) in Target(p, es) && InsertKey(ins[i]) !in t.rows
  {
    if es != [] {
      StageInsertKeys(t, p, es[..|es| - 1]);
    }
  }

  lemma {:induction false} StageInsertsCover(t: Table, p: string, es: seq<Entry>)
    ensures var ins := Stage(t, Some(p), es).inserts;
            AllHavePackage(ins) &&
            forall k :: k in Target(p, es) && k !in t.rows ==> exists i :: 0 <= i < |ins| && InsertKey(ins[i]) == k
  {
    StageInsertKeys(t, p, es);
    if es != [] {
      var front := es[..|es| - 1];
      var e := es[|es| - 1];
      var k0 := KeyFor(p, e);
      StageInsertsCover(t, p, front);
      StageInsertKeys(t, p, front);
      var insf := Stage(t, Some(p), front).inserts;
      var ins := Stage(t, Some(p), es).inserts;
      if k0 !in t.rows {
        assert ins == insf + [PendingInsert(Some(p), e.moduleCategoryId, e.indexWithinRole, e.moduleState)];
        forall k | k in Target(p, es) && k !in t.rows
          ensures exists i :: 0 <= i < |ins| && InsertKey(ins[i]) == k
        {
          if k != k0 {
            var i :| 0 <= i < |insf| && InsertKey(insf[i]) == k;
            assert InsertKey(ins[i]) == k;
          } else {
            assert InsertKey(ins[|ins| - 1]) == k;
          }
        }
      }
    }
  }

  lemma {:induction false} StageInsertStates(t: Table, p: string, es: seq<Entry>)
    ensures var ins := Stage(t, Some(p), es).inserts;
            AllHavePackage(ins) &&
            (FreshKeys(t, ins) ==> forall i :: 0 <= i < |ins| ==>
               InsertKey(ins[i]) in Target(p, es) && ins[i].moduleState == Target(p, es)[InsertKey(ins[i])])
  {
    StageInsertKeys(t, p, es);
    if es != [] {
      var front := es[..|es| - 1];
      var e := es[|es| - 1];
      var k0 := KeyFor(p, e);
      StageInsertStates(t, p, front);
      StageInsertKeys(t, p, front);
      var insf := Stage(t, Some(p), front).inserts;
      var ins := Stage(t, Some(p), es).inserts;
      if FreshKeys(t, ins) {
        if k0 !in t.rows {
          assert ins == insf + [PendingInsert(Some(p), e.moduleCategoryId, e.indexWithinRole, e.moduleState)];
          assert forall i :: 0 <= i < |insf| ==> insf[i] == ins[i];
          assert FreshKeys(t, insf);
          assert InsertKey(ins[|ins| - 1]) == k0;
          forall i | 0 <= i < |insf|
            ensures InsertKey(insf[i]) != k0
          {
            assert InsertKey(ins[i]) != InsertKey(ins[|ins| - 1]);
          }
        } else {
          assert ins == insf;
        }
      }
    }
  }

  /** Without a package there is nothing to look up: every entry becomes an
      insert with a null package. */
  lemma {:induction false} StageWithoutPackage(t: Table, es: seq<Entry>)
    ensures Stage(t, None, es).updates == map[]
    ensures |Stage(t, None, es).inserts| == |es|
    ensures forall i :: 0 <= i < |es| ==> Stage(t, None, es).inserts[i].packageId.None?
    ensures es != [] ==> !AllHavePackage(Stage(t, None, es).inserts)
  {
    if es != [] {
      StageWithoutPackage(t, es[..|es| - 1]);
      assert Stage(t, None, es).inserts[0].packageId.None?;
    }
  }

  /** What a successful save does to the table. A message without usable
      devices leaves it as it was. Otherwise its package is known; a
      committed row whose triple the message names gets the last state asked
      for and keeps its id, category, index and package; every other
      committed row is kept; each triple the message names that was not
      committed gets exactly one new row, under that triple, with a new id
      and the state asked for; and there are no other rows. */
  lemma UpsertSpec(body: Body, t: Table, t': Table)
    requires SaveAttempt(body, t, false) == Ok(t')
    ensures ReadMessage(body).Ok?
    ensures var m := ReadMessage(body).value;
            && (m.entries == [] ==> t' == t)
            && (m.entries != [] ==>
                  && m.packageId.Some?
                  && var target := Target(m.packageId.value, m.entries);
                  && (forall k :: k in t'.rows <==> k in t.rows || k in target)
                  && (forall k :: k in t.rows ==>
                        t'.rows[k] == (if k in target then t.rows[k].(moduleState := target[k]) else t.rows[k]))
                  && (forall k :: k in target && k !in t.rows ==>
                        && KeyOf(t'.rows[k]) == k
                        && t'.rows[k].moduleState == target[k]
                        && t.nextId <= t'.rows[k].id < t'.nextId))
  {
    var m := ReadMessage(body).value;
    var ch := Stage(t, m.packageId, m.entries);
    if m.entries == [] {
      assert ApplyUpdates(t.rows, map[]) == t.rows;
    } else {
      StageWithoutPackage(t, m.entries);
      var p := m.packageId.value;
      StageSpec(t, p, m.entries);
      SaveChangesSpec(t, ch);
      var target := Target(p, m.entries);
      forall k | k in target && k !in t.rows
        ensures KeyOf(t'.rows[k]) == k && t'.rows[k].moduleState == target[k] && t.nextId <= t'.rows[k].id < t'.nextId
      {
        var i :| 0 <= i < |ch.inserts| && InsertKey(ch.inserts[i]) == k;
      }
      forall k | k in t'.rows
        ensures k in t.rows || k in target
      {
        if k !in t.rows {
          var i :| 0 <= i < |ch.inserts| && ch.inserts[i].packageId.Some? && InsertKey(ch.inserts[i]) == k;
        }
      }
    }
  }

  /** Redelivering a message that was saved changes nothing: every triple it
      names is now committed, so the second pass only writes the states the
      rows already hold. */
  lemma Idempotent(body: Body, t: Table, t': Table)
    requires SaveAttempt(body, t, false) == Ok(t')
    ensures SaveAttempt(body, t', false) == Ok(t')
  {
    UpsertSpec(body, t, t');
    var m := ReadMessage(body).value;
    if m.entries == [] {
      assert ApplyUpdates(t'.rows, map[]) == t'.rows;
    } else {
      SecondPassRewritesSameStates(t', m.packageId.value, m.entries);
    }
  }

  /** A table that already holds every triple of a message with the state the
      message asks for is left as it is by that message. */
  lemma SecondPassRewritesSameStates(t: Table, p: string, es: seq<Entry>)
    requires forall k :: k in Target(p, es) ==> k in t.rows && t.rows[k].moduleState == Target(p, es)[k]
    ensures SaveChanges(t, Stage(t, Some(p), es), false) == Ok(t)
  {
    StageUpdates(t, p, es);
    forall i | 0 <= i < |es|
      ensures KeyFor(p, es[i]) in t.rows
    {
      TargetHasEntry(p, es, i);
    }
    NoInsertsWhenAllCommitted(t, p, es);
    var ch := Stage(t, Some(p), es);
    assert ApplyUpdates(t.rows, ch.updates) == t.rows;
  }

  /** A message whose every triple is committed only updates rows. */
  lemma {:induction false} NoInsertsWhenAllCommitted(t: Table, p: string, es: seq<Entry>)
    requires forall i :: 0 <= i < |es| ==> KeyFor(p, es[i]) in t.rows
    ensures Stage(t, Some(p), es).inserts == []
  {
    if es != [] {
      NoInsertsWhenAllCommitted(t, p, es[..|es| - 1]);
    }
  }

  /** Two usable devices with the same uncommitted triple in one message both
      add a row, because the lookup does not see the first; the unique index
      rejects the save. */
  lemma DuplicateNewTripleFailsTheSave(body: Body, t: Table, i: nat, j: nat)
    requires ReadMessage(body).Ok?
    requires var m := ReadMessage(body).value;
             && m.packageId.Some? && i < j < |m.entries|
             && KeyFor(m.packageId.value, m.entries[i]) == KeyFor(m.packageId.value, m.entries[j])
             && KeyFor(m.packageId.value, m.entries[i]) !in t.rows
    ensures SaveAttempt(body, t, false) == Err(SaveFailed(ConstraintViolation))
  {
    var m := ReadMessage(body).value;
    TwoInsertsForDuplicate(t, m.packageId.value, m.entries, i, j);
  }

  /** Two entries with the same uncommitted triple give two inserts for it. */
  lemma {:induction false} TwoInsertsForDuplicate(t: Table, p: string, es: seq<Entry>, i: nat, j: nat)
    requires i < j < |es| && KeyFor(p, es[i]) == KeyFor(p, es[j]) && KeyFor(p, es[i]) !in t.rows
    ensures var ins := Stage(t, Some(p), es).inserts;
            AllHavePackage(ins) && !FreshKeys(t, ins)
  {
    var front := es[..|es| - 1];
    var ins := Stage(t, Some(p), es).inserts;
    var insf := Stage(t, Some(p), front).inserts;
    StageInsertKeys(t, p, es);
    StageInsertKeys(t, p, front);
    StageInsertsGrow(t, Some(p), es);
    if j < |es| - 1 {
      assert front[i] == es[i] && front[j] == es[j];
      TwoInsertsForDuplicate(t, p, front, i, j);
      var a, b :| 0 <= a < b < |insf| && InsertKey(insf[a]) == InsertKey(insf[b]);
      assert InsertKey(ins[a]) == InsertKey(ins[b]);
    } else {
      // The last entry adds an insert for the triple, and the one at i
      // already did.
      var k := KeyFor(p, es[i]);
      StageInsertsCover(t, p, front);
      TargetHasEntry(p, front, i);
      var a :| 0 <= a < |insf| && InsertKey(insf[a]) == k;
      assert ins == insf + [PendingInsert(Some(p), es[j].moduleCategoryId, es[j].indexWithinRole, es[j].moduleState)];
      assert InsertKey(ins[a]) == k && InsertKey(ins[|ins| - 1]) == k;
    }
  }

  /** One more entry keeps the inserts already recorded. */
  lemma StageInsertsGrow(t: Table, p: Option<string>, es: seq<Entry>)
    requires es != []
    ensures var insf := Stage(t, p, es[..|es| - 1]).inserts;
            var ins := Stage(t, p, es).inserts;
            |insf| <= |ins| && forall a :: 0 <= a < |insf| ==> insf[a] == ins[a]
  {
  }

  /** Every entry's triple is a target. */
  lemma {:induction false} TargetHasEntry(p: string, es: seq<Entry>, i: nat)
    requires i < |es|
    ensures KeyFor(p, es[i]) in Target(p, es)
  {
    if i < |es| - 1 {
      TargetHasEntry(p, es[..|es| - 1], i);
    }
  }

  /** The message of the examples below: package P1, one device of category
      C1 at index 0 whose document holds state `s`. */
  function ExampleMessage(s: string): Body {
    Json(JsonEnvelope(Value("P1"), Value([DeviceObject(Value("C1"), Value(0),
      Value(Parsed(Element("RapidControlStatus", [Element(ModuleStateName, [Text(s)])]))))])))
  }

  /** The example of two messages for package P1, category C1, index 0:
      the first, with state Run, creates the row; the second, with state
      Offline, updates it in place. */
  lemma RunThenOffline()
    ensures var k := Key("P1", "C1", 0);
            && SaveAttempt(ExampleMessage("Run"), Table(map[], 0), false) == Ok(Table(map[k := Module(0, "C1", "Run", 0, "P1")], 1))
            && SaveAttempt(ExampleMessage("Offline"), Table(map[k := Module(0, "C1", "Run", 0, "P1")], 1), false)
                 == Ok(Table(map[k := Module(0, "C1", "Offline", 0, "P1")], 1))
  {
    RunCreatesTheRow();
    OfflineUpdatesTheRow();
  }

  lemma RunCreatesTheRow()
    ensures SaveAttempt(ExampleMessage("Run"), Table(map[], 0), false)
              == Ok(Table(map[Key("P1", "C1", 0) := Module(0, "C1", "Run", 0, "P1")], 1))
  {
    OneDeviceMessage("Run");
    assert [Entry("C1", 0, "Run")][..0] == [];
    var ch := Stage(Table(map[], 0), Some("P1"), [Entry("C1", 0, "Run")]);
    assert ch == Changes(map[], [PendingInsert(Some("P1"), "C1", 0, "Run")]);
    assert HasChanges(ch);
    assert ApplyUpdates(map[], map[]) == map[];
  }

  lemma OfflineUpdatesTheRow()
    ensures var k := Key("P1", "C1", 0);
            SaveAttempt(ExampleMessage("Offline"), Table(map[k := Module(0, "C1", "Run", 0, "P1")], 1), false)
              == Ok(Table(map[k := Module(0, "C1", "Offline", 0, "P1")], 1))
  {
    var k := Key("P1", "C1", 0);
    var t1 := Table(map[k := Module(0, "C1", "Run", 0, "P1")], 1);
    OneDeviceMessage("Offline");
    assert [Entry("C1", 0, "Offline")][..0] == [];
    var ch := Stage(t1, Some("P1"), [Entry("C1", 0, "Offline")]);
    assert Stage(t1, Some("P1"), []) == NoChanges;
    assert KeyFor("P1", Entry("C1", 0, "Offline")) in t1.rows;
    assert ch == Changes(map[k := "Offline"], []);
    assert k in ch.updates;
    assert HasChanges(ch) && AllHavePackage(ch.inserts) && FreshKeys(t1, ch.inserts);
    assert ApplyUpdates(t1.rows, ch.updates) == map[k := Module(0, "C1", "Offline", 0, "P1")];
    assert SaveChanges(t1, ch, false) == Ok(Commit(t1, ch));
  }

  /** The one-device message of the examples reads as one entry. */
  lemma OneDeviceMessage(s: string)
    ensures ReadMessage(ExampleMessage(s)) == Ok(Message(Some("P1"), [Entry("C1", 0, s)]))
  {
    var doc := Parsed(Element("RapidControlStatus", [Element(ModuleStateName, [Text(s)])]));
    OneStateDocument(s);
    var d := DeviceObject(Value("C1"), Value(0), Value(doc));
    assert [d][..0] == [];
    assert DecodeDevice(d) == Ok(Some(Entry("C1", 0, s)));
    assert DecodeDevices([]) == Ok([]);
    assert [] + [Entry("C1", 0, s)] == [Entry("C1", 0, s)];
    assert DecodeDevices([d]) == Ok([Entry("C1", 0, s)]);
  }

  /** An embedded document whose root holds one ModuleState child. */
  lemma OneStateDocument(s: string)
    ensures ChildModuleState(Element("RapidControlStatus", [Element(ModuleStateName, [Text(s)])])) == Some(s)
  {
    var state := Element(ModuleStateName, [Text(s)]);
    assert [Text(s)][1..] == [];
    assert TextValueIn([]) == "";
    assert TextValueIn([Text(s)]) == s;
    assert TextValue(state) == s;
    assert ChildModuleStateIn([state]) == Some(s);
  }

  // ---------------------------------------------------------------------------
  // The delivery handler.

  /** What the handler sends back on the channel. */
  datatype ChannelEvent = Ack(tag: nat) | Nack(tag: nat, requeue: bool)

  /** The DB policy's execution for one delivery: each attempt runs in a fresh
      scope against the committed table, attempt k seeing fault `faults(k)`. */
  function SaveRun(body: Body, t: Table, faults: nat -> bool, jitter: nat -> Jitter): Outcome<Table, SaveError> {
    Execute((k: nat) => SaveAttempt(body, t, faults(k)), IsRetryableSaveError, jitter)
  }

  /** How one delivery ends: the events sent, the committed table, and the
      attempts and sleeps of the DB policy. */
  datatype Delivery = Delivery(events: seq<ChannelEvent>, table: Table, attempts: nat, sleepsMs: seq<nat>)

  /** The ReceivedAsync handler: an empty body is rejected without requeue;
      otherwise the handler takes a semaphore slot (cancellation throws
      there, before anything else happens), runs the policy, and acknowledges
      on success or rejects with requeue on any failure. */
  function HandleDelivery(tag: nat, body: Body, t: Table, faults: nat -> bool, jitter: nat -> Jitter, cancelled: bool): Delivery {
    if body.EmptyBody? then Delivery([Nack(tag, false)], t, 0, [])
    else if cancelled then Delivery([], t, 0, [])
    else
      var o := SaveRun(body, t, faults, jitter);
      if o.result.Ok? then Delivery([Ack(tag)], o.result.value, o.attempts, o.sleepsMs)
      else Delivery([Nack(tag, true)], t, o.attempts, o.sleepsMs)
  }

  /** The worker's state the handler touches: the semaphore's free slots, the
      committed table and the events sent on the channel. */
  class DataProcessingWorker {
    var available: nat
    var table: Table
    var channel: seq<ChannelEvent>
    ghost var waits: nat
    ghost var releases: nat

    /** Between deliveries every slot is free and the table keeps its
        invariant. */
    ghost predicate Valid()
      reads this
    {
      available == Capacity && Store.Valid(table) && waits == releases
    }

    constructor(t: Table)
      requires Store.Valid(t)
      ensures Valid() && table == t && channel == []
    {
      available := Capacity;
      table := t;
      channel := [];
      waits := 0;
      releases := 0;
    }

    /** One delivery handled to the end. */
    method ReceivedAsync(tag: nat, body: Body, faults: nat -> bool, jitter: nat -> Jitter, cancelled: bool)
      requires Valid()
      modifies this
      ensures Valid()
      ensures var d := HandleDelivery(tag, body, old(table), faults, jitter, cancelled);
              channel == old(channel) + d.events && table == d.table
      ensures available == old(available)
      ensures waits - old(waits) == (if body.EmptyBody? || cancelled then 0 else 1)
    {
      if body.EmptyBody? {
        channel := channel + [Nack(tag, false)];
        return;
      }
      if cancelled {
        return;
      }
      available := available - 1;
      waits := waits + 1;
      var o := SaveRun(body, table, faults, jitter);
      if o.result.Ok? {
        DeliveryKeepsValid(tag, body, table, faults, jitter);
        table := o.result.value;
        channel := channel + [Ack(tag)];
      } else {
        channel := channel + [Nack(tag, true)];
      }
      available := available + 1;
      releases := releases + 1;
    }
  }

  // ---------------------------------------------------------------------------
  // Properties of a delivery.

  /** A non-empty delivery that is not cancelled ends in exactly one event: an
      acknowledgement when some attempt among the first six saved, every
      attempt before it having failed in the database; otherwise a rejection
      with requeue and the table as it was. */
  lemma DeliveryOutcome(tag: nat, body: Body, t: Table, faults: nat -> bool, jitter: nat -> Jitter)
    requires !body.EmptyBody?
    ensures var d := HandleDelivery(tag, body, t, faults, jitter, false);
            && 1 <= d.attempts <= RetryCount + 1
            && (d.events == [Ack(tag)] || d.events == [Nack(tag, true)])
            && (d.events == [Ack(tag)] <==> SaveAttempt(body, t, faults(d.attempts - 1)).Ok?)
            && (d.events == [Ack(tag)] ==> d.table == SaveAttempt(body, t, faults(d.attempts - 1)).value)
            && (d.events == [Nack(tag, true)] ==> d.table == t)
            && (forall a :: 0 <= a < d.attempts - 1 ==> SaveAttempt(body, t, faults(a)).Err? && SaveAttempt(body, t, faults(a)).error.SaveFailed?)
  {
    ExecuteShape((k: nat) => SaveAttempt(body, t, faults(k)), IsRetryableSaveError, jitter);
  }

  /** An empty body is rejected without requeue and without a save. */
  lemma EmptyBodyIsDropped(tag: nat, t: Table, faults: nat -> bool, jitter: nat -> Jitter, cancelled: bool)
    ensures HandleDelivery(tag, EmptyBody, t, faults, jitter, cancelled) == Delivery([Nack(tag, false)], t, 0, [])
  {
  }

  /** A message whose every device is skipped tracks nothing, so the save
      does not reach the database: it succeeds at once, whatever the
      database would have done, and the delivery is acknowledged with the
      table unchanged. */
  lemma NothingToSaveIsAcked(tag: nat, body: Body, t: Table, faults: nat -> bool, jitter: nat -> Jitter)
    requires !body.EmptyBody? && ReadMessage(body).Ok? && ReadMessage(body).value.entries == []
    ensures HandleDelivery(tag, body, t, faults, jitter, false) == Delivery([Ack(tag)], t, 1, [])
  {
    var op := (k: nat) => SaveAttempt(body, t, faults(k));
    var m := ReadMessage(body).value;
    assert Stage(t, m.packageId, []) == NoChanges;
    assert op(0) == Ok(t);
    ExecuteShape(op, IsRetryableSaveError, jitter);
  }

  /** A message that cannot be read, malformed JSON included, is rejected with
      requeue after one attempt: reading errors are not retried. */
  lemma UnreadableMessageIsRequeued(tag: nat, body: Body, t: Table, faults: nat -> bool, jitter: nat -> Jitter)
    requires !body.EmptyBody? && ReadMessage(body).Err?
    ensures HandleDelivery(tag, body, t, faults, jitter, false) == Delivery([Nack(tag, true)], t, 1, [])
  {
    var op := (k: nat) => SaveAttempt(body, t, faults(k));
    UnreadableAttemptFails(body, t, faults(0));
    assert op(0) == SaveAttempt(body, t, faults(0));
    UnhandledErrorIsNotRetried(op, IsRetryableSaveError, jitter);
  }

  lemma UnreadableAttemptFails(body: Body, t: Table, fault: bool)
    requires ReadMessage(body).Err?
    ensures SaveAttempt(body, t, fault) == Err(DecodeFailed(ReadMessage(body).error))
  {
  }

  /** A save that keeps failing in the database is tried six times, with the
      policy's sleeps between the attempts, and the delivery is requeued. */
  lemma PersistentDbFailureIsRequeued(tag: nat, body: Body, t: Table, faults: nat -> bool, jitter: nat -> Jitter)
    requires !body.EmptyBody?
    requires forall a :: 0 <= a <= RetryCount ==> SaveAttempt(body, t, faults(a)).Err? && SaveAttempt(body, t, faults(a)).error.SaveFailed?
    ensures var d := HandleDelivery(tag, body, t, faults, jitter, false);
            && d.events == [Nack(tag, true)] && d.table == t && d.attempts == RetryCount + 1
            && |d.sleepsMs| == RetryCount
            && forall i :: 0 <= i < RetryCount ==> d.sleepsMs[i] == SleepDurationMs(i + 1, jitter(i + 1))
  {
    var op := (k: nat) => SaveAttempt(body, t, faults(k));
    PersistentFailureGivesUp(op, IsRetryableSaveError, jitter);
    ExecuteShape(op, IsRetryableSaveError, jitter);
  }

  /** A message repeating an uncommitted triple can never be saved: it is
      retried to the end and requeued, whatever the database does. */
  lemma DuplicateNewTripleIsRequeued(tag: nat, body: Body, t: Table, faults: nat -> bool, jitter: nat -> Jitter, i: nat, j: nat)
    requires ReadMessage(body).Ok?
    requires var m := ReadMessage(body).value;
             && m.packageId.Some? && i < j < |m.entries|
             && KeyFor(m.packageId.value, m.entries[i]) == KeyFor(m.packageId.value, m.entries[j])
             && KeyFor(m.packageId.value, m.entries[i]) !in t.rows
    ensures HandleDelivery(tag, body, t, faults, jitter, false).events == [Nack(tag, true)]
    ensures HandleDelivery(tag, body, t, faults, jitter, false).attempts == RetryCount + 1
  {
    DuplicateNewTripleFailsTheSave(body, t, i, j);
    forall a | 0 <= a <= RetryCount
      ensures SaveAttempt(body, t, faults(a)).Err? && SaveAttempt(body, t, faults(a)).error.SaveFailed?
    {
    }
    PersistentDbFailureIsRequeued(tag, body, t, faults, jitter);
  }

  /** A delivery keeps the table's invariant. */
  lemma DeliveryKeepsValid(tag: nat, body: Body, t: Table, faults: nat -> bool, jitter: nat -> Jitter)
    requires Store.Valid(t)
    ensures SaveRun(body, t, faults, jitter).result.Err? || Store.Valid(SaveRun(body, t, faults, jitter).result.value)
    ensures forall cancelled: bool :: Store.Valid(HandleDelivery(tag, body, t, faults, jitter, cancelled).table)
  {
    var op := (k: nat) => SaveAttempt(body, t, faults(k));
    ExecuteShape(op, IsRetryableSaveError, jitter);
    var o := SaveRun(body, t, faults, jitter);
    if o.result.Ok? {
      assert o.result == SaveAttempt(body, t, faults(o.attempts - 1));
      var m := ReadMessage(body).value;
      SaveChangesKeepsValid(t, Stage(t, m.packageId, m.entries), faults(o.attempts - 1));
    }
  }

  /** The DB policy waits min(2000, 2^k * 100) ms plus a jitter below 250 ms
      before retry k, at most five times. */
  lemma DbRetrySchedule(body: Body, t: Table, faults: nat -> bool, jitter: nat -> Jitter)
    ensures var o := SaveRun(body, t, faults, jitter);
            && |o.sleepsMs| <= RetryCount
            && forall i :: 0 <= i < |o.sleepsMs| ==>
                 BaseDelayMs(i + 1) <= o.sleepsMs[i] < BaseDelayMs(i + 1) + JitterBoundMs
  {
    ExecuteShape((k: nat) => SaveAttempt(body, t, faults(k)), IsRetryableSaveError, jitter);
  }
}
