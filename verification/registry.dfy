/** The device list and the `gsf` (bulk status) update rules. Hub calls are
    recorded as events instead of being posted. */
module Registry {
  import opened Text

  /** One entry of the device list. */
  datatype Device = Device(deviceType: int, id: int, entityId: string, nickname: string, currentVal: int)

  datatype HubCall = CreateSensor | UpdateSensor

  /** What a hub call posts for one binary sensor. */
  datatype HubEvent = HubEvent(
    call: HubCall, entityId: string, state: string,
    friendlyName: string, deviceClass: string, deviceType: int)

  /** The hub state of a binary sensor: `"off"` for 0, `"on"` for every other value. */
  function HubState(currentVal: int): (state: string)
    ensures state == "off" <==> currentVal == 0
    ensures state == "off" || state == "on"
  {
    if currentVal == 0 then "off" else "on"
  }

  /** The post for `d` made by the sensor-creation or sensor-update call: a
      motion-class binary sensor named after the device's entity id, "on"
      exactly when its value is not zero, labelled with its nickname and type. */
  function SensorEvent(call: HubCall, d: Device): (r: HubEvent)
    ensures r.call == call && r.entityId == "binary_sensor." + d.entityId
    ensures r.state == "on" <==> d.currentVal != 0
    ensures r.friendlyName == d.nickname && r.deviceClass == "motion" && r.deviceType == d.deviceType
  {
    HubEvent(call, "binary_sensor." + d.entityId, HubState(d.currentVal), d.nickname, "motion", d.deviceType)
  }

  /** No two devices share a (type, id) pair. */
  predicate UniqueKeys(devices: seq<Device>)
  {
    forall i, j :: 0 <= i < j < |devices| ==>
      devices[i].deviceType != devices[j].deviceType || devices[i].id != devices[j].id
  }

  /** Two lists with the same entries in the same order, values aside. */
  predicate SameKeys(before: seq<Device>, after: seq<Device>)
  {
    |before| == |after| &&
    forall k :: 0 <= k < |before| ==> after[k] == before[k].(currentVal := after[k].currentVal)
  }

  lemma SameKeysTransitive(a: seq<Device>, b: seq<Device>, c: seq<Device>)
    requires SameKeys(a, b) && SameKeys(b, c)
    ensures SameKeys(a, c)
  {
    forall k | 0 <= k < |a| ensures c[k] == a[k].(currentVal := c[k].currentVal) {
      assert b[k] == a[k].(currentVal := b[k].currentVal);
    }
  }

  /** The statically configured list: the eight antitheft sensors of class 12, all off. */
  function StaticDevices(): (devices: seq<Device>)
    ensures |devices| == 8 && UniqueKeys(devices)
    ensures forall k :: 0 <= k < |devices| ==>
      devices[k].deviceType == 12 && devices[k].id == k + 1 && devices[k].currentVal == 0
  {
    [ Device(12, 1, "at_pt_garage", "Perimetrale Garage", 0),
      Device(12, 2, "at_ir_garage", "IR Garage", 0),
      Device(12, 3, "at_pt_rustico", "Perimetrale rustico", 0),
      Device(12, 4, "at_ir_rustico", "IR rustico", 0),
      Device(12, 5, "at_pt_p0", "Perimetrale PT", 0),
      Device(12, 6, "at_ir_p0", "IR PT", 0),
      Device(12, 7, "at_pt_p1", "Perimetrale P1", 0),
      Device(12, 8, "at_ir_p1", "IR P1", 0) ]
  }

  /** The creation posts made at startup, one per device in list order. */
  function CreateEvents(devices: seq<Device>): (events: seq<HubEvent>)
    ensures |events| == |devices|
    ensures forall k :: 0 <= k < |devices| ==> events[k] == SensorEvent(CreateSensor, devices[k])
  {
    if devices == [] then []
    else CreateEvents(devices[..|devices| - 1]) + [SensorEvent(CreateSensor, devices[|devices| - 1])]
  }

  predicate Matches(d: Device, deviceType: int, id: int)
  {
    d.id == id && d.deviceType == deviceType
  }

  /** The first device with this id and type, as `next(...)` over the list finds it. */
  function FindIndex(devices: seq<Device>, deviceType: int, id: int): (r: Option<nat>)
    ensures r.Some? ==> r.value < |devices| && Matches(devices[r.value], deviceType, id)
    ensures r.Some? ==> forall j :: 0 <= j < r.value ==> !Matches(devices[j], deviceType, id)
    ensures r.None? ==> forall j :: 0 <= j < |devices| ==> !Matches(devices[j], deviceType, id)
  {
    if devices == [] then None
    else if Matches(devices[0], deviceType, id) then Some(0)
    else match FindIndex(devices[1..], deviceType, id)
      case None => None
      case Some(k) => Some(k + 1)
  }

  /** The search only looks at ids and types, so a value update does not move it. */
  lemma FindIndexSameKeys(before: seq<Device>, after: seq<Device>, deviceType: int, id: int)
    requires SameKeys(before, after)
    ensures FindIndex(after, deviceType, id) == FindIndex(before, deviceType, id)
  {
    var a, b := FindIndex(after, deviceType, id), FindIndex(before, deviceType, id);
    assert forall k :: 0 <= k < |before| ==>
      (Matches(before[k], deviceType, id) <==> Matches(after[k], deviceType, id));
    if a.Some? && b.Some? {
      assert !(a.value < b.value) && !(b.value < a.value);
    }
  }

  /** `int(record[0]), int(record[1])`: `None` where Python raises, either
      because a field is not an integer or because the record has one field. */
  function ParseRecord(record: seq<string>): (r: Option<(int, int)>)
    ensures r.Some? <==> |record| >= 2 && ParseInt(record[0]).Some? && ParseInt(record[1]).Some?
    ensures r.Some? ==> r.value == (ParseInt(record[0]).value, ParseInt(record[1]).value)
  {
    if |record| == 0 then None
    else match ParseInt(record[0])
      case None => None
      case Some(id) =>
        if |record| < 2 then None
        else match ParseInt(record[1])
          case None => None
          case Some(status) => Some((id, status))
  }

  /** A record written as the decimal id, the decimal status and any further
      fields parses back to that id and status. */
  lemma ParseRecordOfNumbers(id: int, status: int, extra: seq<string>)
    ensures ParseRecord([IntString(id), IntString(status)] + extra) == Some((id, status))
  {
    ParseIntString(id);
    ParseIntString(status);
  }

  /** One parsed record of a `gsf` reply for class `deviceType`: the first
      device with that type and id takes the status if it differs, and only
      then is one update posted. */
  function ApplyRecord(devices: seq<Device>, deviceType: int, id: int, status: int): (r: (seq<Device>, seq<HubEvent>))
    ensures SameKeys(devices, r.0)
    ensures forall k :: 0 <= k < |devices| && r.0[k] != devices[k] ==>
      FindIndex(devices, deviceType, id) == Some(k) && devices[k].currentVal != status
    ensures FindIndex(devices, deviceType, id).Some? ==>
      r.0[FindIndex(devices, deviceType, id).value].currentVal == status
    ensures r.1 == [] <==> r.0 == devices
    ensures r.1 != [] ==>
      r.1 == [SensorEvent(UpdateSensor, r.0[FindIndex(devices, deviceType, id).value])]
  {
    match FindIndex(devices, deviceType, id)
    case None => (devices, [])
    case Some(k) =>
      if devices[k].currentVal != status then
        var d := devices[k].(currentVal := status);
        (devices[k := d], [SensorEvent(UpdateSensor, d)])
      else (devices, [])
  }

  /** The result of running `manage_gsf`: the list, the posts made, and whether
      it ran to the end (`false` where Python raises). */
  datatype GsfOutcome = GsfOutcome(devices: seq<Device>, events: seq<HubEvent>, ok: bool)

  /** The loop over the records, in order; the first record that does not
      parse stops it, keeping the updates already made. Each record posts at
      most one update. */
  function ApplyRecords(devices: seq<Device>, deviceType: int, records: seq<seq<string>>): (r: GsfOutcome)
    ensures |r.events| <= |records|
    ensures forall i :: 0 <= i < |r.events| ==> r.events[i].call == UpdateSensor
  {
    if records == [] then GsfOutcome(devices, [], true)
    else
      var prev := ApplyRecords(devices, deviceType, records[..|records| - 1]);
      if !prev.ok then prev
      else match ParseRecord(records[|records| - 1])
        case None => prev.(ok := false)
        case Some(parsed) =>
          var (after, posted) := ApplyRecord(prev.devices, deviceType, parsed.0, parsed.1);
          GsfOutcome(after, prev.events + posted, true)
  }

  /** `manage_gsf(parameters, records)`: only the antitheft classes "7" and
      "12" are handled; without parameters, `parameters[0]` raises. */
  function Gsf(devices: seq<Device>, parameters: seq<string>, records: seq<seq<string>>): (r: GsfOutcome)
    ensures SameKeys(devices, r.devices)
    ensures |parameters| == 0 ==> !r.ok && r.devices == devices && r.events == []
    ensures |parameters| > 0 && parameters[0] != "7" && parameters[0] != "12" ==>
      r == GsfOutcome(devices, [], true)
  {
    if |parameters| == 0 then GsfOutcome(devices, [], false)
    else if parameters[0] == "7" then
      ApplyRecordsSameKeys(devices, 7, records);
      ApplyRecords(devices, 7, records)
    else if parameters[0] == "12" then
      ApplyRecordsSameKeys(devices, 12, records);
      ApplyRecords(devices, 12, records)
    else GsfOutcome(devices, [], true)
  }

  /** The class selected by a handled first parameter. */
  function GsfClass(parameters: seq<string>): int
    requires |parameters| > 0 && (parameters[0] == "7" || parameters[0] == "12")
  {
    if parameters[0] == "7" then 7 else 12
  }

  /** For a handled class, `manage_gsf` is the record loop for that class. */
  lemma GsfSelectsClass(devices: seq<Device>, parameters: seq<string>, records: seq<seq<string>>)
    requires |parameters| > 0 && (parameters[0] == "7" || parameters[0] == "12")
    ensures Gsf(devices, parameters, records) == ApplyRecords(devices, GsfClass(parameters), records)
  {
  }

  // ---------------------------------------------------------------------
  // Properties of the record loop

  /** The loop keeps every device, in order, with its id, type and names. */
  lemma {:induction false} ApplyRecordsSameKeys(devices: seq<Device>, deviceType: int, records: seq<seq<string>>)
    ensures SameKeys(devices, ApplyRecords(devices, deviceType, records).devices)
    decreases |records|
  {
    if records != [] {
      ApplyRecordsSameKeys(devices, deviceType, records[..|records| - 1]);
    }
  }

  predicate RecordsParse(records: seq<seq<string>>)
  {
    forall j :: 0 <= j < |records| ==> ParseRecord(records[j]).Some?
  }

  /** Every record parses exactly when all but the last do and the last does. */
  lemma RecordsParseSnoc(records: seq<seq<string>>)
    requires |records| > 0
    ensures RecordsParse(records) <==>
      RecordsParse(records[..|records| - 1]) && ParseRecord(records[|records| - 1]).Some?
  {
    var prefix := records[..|records| - 1];
    assert forall j :: 0 <= j < |prefix| ==> prefix[j] == records[j];
  }

  /** The loop runs to the end exactly when every record parses. */
  lemma {:induction false} ApplyRecordsOk(devices: seq<Device>, deviceType: int, records: seq<seq<string>>)
    ensures ApplyRecords(devices, deviceType, records).ok <==> RecordsParse(records)
    decreases |records|
  {
    if records != [] {
      var prefix := records[..|records| - 1];
      ApplyRecordsOk(devices, deviceType, prefix);
      RecordsParseSnoc(records);
      var prev := ApplyRecords(devices, deviceType, prefix);
      if prev.ok && ParseRecord(records[|records| - 1]).Some? {
        var parsed := ParseRecord(records[|records| - 1]).value;
        var step := ApplyRecord(prev.devices, deviceType, parsed.0, parsed.1);
        assert ApplyRecords(devices, deviceType, records) == GsfOutcome(step.0, prev.events + step.1, true);
      }
    }
  }

  /** One more record that parses: the loop state after `records[..i + 1]`
      from the state after `records[..i]`. */
  lemma ApplyRecordsStep(devices: seq<Device>, deviceType: int, records: seq<seq<string>>, i: nat, id: int, status: int)
    requires i < |records| && ParseRecord(records[i]) == Some((id, status))
    requires ApplyRecords(devices, deviceType, records[..i]).ok
    ensures var prev := ApplyRecords(devices, deviceType, records[..i]);
      var step := ApplyRecord(prev.devices, deviceType, id, status);
      ApplyRecords(devices, deviceType, records[..i + 1]) == GsfOutcome(step.0, prev.events + step.1, true)
  {
    assert records[..i + 1][..i] == records[..i];
  }

  /** A record that does not parse ends the loop: the outcome is the state
      before it, marked as failed. */
  lemma ApplyRecordsFailStep(devices: seq<Device>, deviceType: int, records: seq<seq<string>>, i: nat)
    requires i < |records| && ParseRecord(records[i]).None?
    requires ApplyRecords(devices, deviceType, records[..i]).ok
    ensures ApplyRecords(devices, deviceType, records)
         == ApplyRecords(devices, deviceType, records[..i]).(ok := false)
  {
    assert records[..i + 1][..i] == records[..i];
    ApplyRecordsStopsAtFailure(devices, deviceType, records, i + 1);
  }

  /** Once a record has failed, later records change nothing. */
  lemma {:induction false} ApplyRecordsStopsAtFailure(devices: seq<Device>, deviceType: int, records: seq<seq<string>>, n: nat)
    requires n <= |records|
    requires !ApplyRecords(devices, deviceType, records[..n]).ok
    ensures ApplyRecords(devices, deviceType, records) == ApplyRecords(devices, deviceType, records[..n])
    decreases |records| - n
  {
    if n < |records| {
      var prefix := records[..|records| - 1];
      assert prefix[..n] == records[..n];
      ApplyRecordsStopsAtFailure(devices, deviceType, prefix, n);
    } else {
      assert records[..n] == records;
    }
  }

  /** The status of the last record naming `id`, if any. */
  function LastStatus(records: seq<seq<string>>, id: int): Option<int>
  {
    if records == [] then None
    else match ParseRecord(records[|records| - 1])
      case Some(parsed) =>
        if parsed.0 == id then Some(parsed.1) else LastStatus(records[..|records| - 1], id)
      case None => LastStatus(records[..|records| - 1], id)
  }

  /** The value of device `k` after a loop that ran to the end: the first
      device with a given (type, id) of the selected class ends with the status
      of the last record naming its id; every other device keeps its value. */
  function ExpectedValue(devices: seq<Device>, deviceType: int, records: seq<seq<string>>, k: nat): int
    requires k < |devices|
  {
    var d := devices[k];
    if d.deviceType == deviceType && FindIndex(devices, deviceType, d.id) == Some(k)
       && LastStatus(records, d.id).Some?
    then LastStatus(records, d.id).value
    else d.currentVal
  }

  lemma {:induction false} ApplyRecordsValues(devices: seq<Device>, deviceType: int, records: seq<seq<string>>)
    requires ApplyRecords(devices, deviceType, records).ok
    ensures SameKeys(devices, ApplyRecords(devices, deviceType, records).devices)
    ensures forall k :: 0 <= k < |devices| ==>
      ApplyRecords(devices, deviceType, records).devices[k].currentVal
        == ExpectedValue(devices, deviceType, records, k)
    decreases |records|
  {
    if records != [] {
      var prefix := records[..|records| - 1];
      var prev := ApplyRecords(devices, deviceType, prefix);
      ApplyRecordsValues(devices, deviceType, prefix);
      ApplyRecordsSameKeys(devices, deviceType, prefix);
      var parsed := ParseRecord(records[|records| - 1]).value;
      FindIndexSameKeys(devices, prev.devices, deviceType, parsed.0);
      var after := ApplyRecords(devices, deviceType, records).devices;
      forall k | 0 <= k < |devices|
        ensures after[k].currentVal == ExpectedValue(devices, deviceType, records, k)
      {
        var d := devices[k];
        if d.id == parsed.0 && d.deviceType == deviceType {
          if FindIndex(devices, deviceType, d.id) == Some(k) {
            assert after[k].currentVal == parsed.1;
          }
        }
      }
    }
  }

  /** A `gsf` whose records all parse leaves every device at its expected
      value, and nothing else about the list changes. */
  lemma GsfValues(devices: seq<Device>, parameters: seq<string>, records: seq<seq<string>>)
    requires Gsf(devices, parameters, records).ok
    requires parameters[0] == "7" || parameters[0] == "12"
    ensures RecordsParse(records)
    ensures SameKeys(devices, Gsf(devices, parameters, records).devices)
    ensures forall k :: 0 <= k < |devices| ==>
      Gsf(devices, parameters, records).devices[k].currentVal
        == ExpectedValue(devices, GsfClass(parameters), records, k)
  {
    ApplyRecordsOk(devices, GsfClass(parameters), records);
    ApplyRecordsValues(devices, GsfClass(parameters), records);
  }

  /** Records naming pairwise distinct ids. */
  predicate DistinctIds(records: seq<seq<string>>)
  {
    forall i, j :: 0 <= i < j < |records| && ParseRecord(records[i]).Some? && ParseRecord(records[j]).Some? ==>
      ParseRecord(records[i]).value.0 != ParseRecord(records[j]).value.0
  }

  lemma {:induction false} LastStatusDistinct(records: seq<seq<string>>, n: nat)
    requires DistinctIds(records)
    requires n < |records| && ParseRecord(records[n]).Some?
    ensures LastStatus(records, ParseRecord(records[n]).value.0) == Some(ParseRecord(records[n]).value.1)
    decreases |records|
  {
    if n < |records| - 1 {
      var prefix := records[..|records| - 1];
      assert DistinctIds(prefix) by {
        assert forall j :: 0 <= j < |prefix| ==> prefix[j] == records[j];
      }
      assert prefix[n] == records[n];
      LastStatusDistinct(prefix, n);
    }
  }

  /** Records whose status every matching device already has change nothing
      and post nothing. */
  lemma {:induction false} ApplyRecordsNoChange(devices: seq<Device>, deviceType: int, records: seq<seq<string>>)
    requires RecordsParse(records)
    requires forall j :: 0 <= j < |records| ==>
      var parsed := ParseRecord(records[j]).value;
      FindIndex(devices, deviceType, parsed.0).None? ||
      devices[FindIndex(devices, deviceType, parsed.0).value].currentVal == parsed.1
    ensures ApplyRecords(devices, deviceType, records) == GsfOutcome(devices, [], true)
    decreases |records|
  {
    if records != [] {
      var prefix := records[..|records| - 1];
      assert forall j :: 0 <= j < |prefix| ==> prefix[j] == records[j];
      ApplyRecordsNoChange(devices, deviceType, prefix);
    }
  }

  /** The first record that does not parse, when there is one. */
  lemma {:induction false} FirstFailure(records: seq<seq<string>>) returns (n: nat)
    requires !RecordsParse(records)
    ensures n < |records| && ParseRecord(records[n]).None?
    ensures RecordsParse(records[..n])
    decreases |records|
  {
    var prefix := records[..|records| - 1];
    if RecordsParse(prefix) {
      n := |records| - 1;
      assert records[..n] == prefix;
    } else {
      n := FirstFailure(prefix);
      assert records[..n] == prefix[..n];
    }
  }

  /** A record loop that ran to the end, replayed (with distinct ids) on the
      list it produced, changes nothing and posts no update. */
  lemma ApplyRecordsIdempotentWhenOk(devices: seq<Device>, deviceType: int, records: seq<seq<string>>)
    requires ApplyRecords(devices, deviceType, records).ok
    requires DistinctIds(records)
    ensures var once := ApplyRecords(devices, deviceType, records).devices;
      ApplyRecords(once, deviceType, records) == GsfOutcome(once, [], true)
  {
    var once := ApplyRecords(devices, deviceType, records).devices;
    ApplyRecordsOk(devices, deviceType, records);
    ApplyRecordsValues(devices, deviceType, records);
    forall j | 0 <= j < |records|
      ensures var parsed := ParseRecord(records[j]).value;
        FindIndex(once, deviceType, parsed.0).None? ||
        once[FindIndex(once, deviceType, parsed.0).value].currentVal == parsed.1
    {
      var parsed := ParseRecord(records[j]).value;
      FindIndexSameKeys(devices, once, deviceType, parsed.0);
      LastStatusDistinct(records, j);
    }
    ApplyRecordsNoChange(once, deviceType, records);
  }

  /** The record loop is idempotent: replaying the same records (with
      distinct ids) on the list the first run left changes nothing, posts no
      update and ends the same way, whether or not the first run stopped at a
      record that does not parse. */
  lemma ApplyRecordsIdempotent(devices: seq<Device>, deviceType: int, records: seq<seq<string>>)
    requires DistinctIds(records)
    ensures var once := ApplyRecords(devices, deviceType, records);
      ApplyRecords(once.devices, deviceType, records) == once.(events := [])
  {
    ApplyRecordsOk(devices, deviceType, records);
    if RecordsParse(records) {
      ApplyRecordsIdempotentWhenOk(devices, deviceType, records);
    } else {
      var n := FirstFailure(records);
      var prefix := records[..n];
      assert forall j :: 0 <= j < |prefix| ==> prefix[j] == records[j];
      ApplyRecordsOk(devices, deviceType, prefix);
      ApplyRecordsFailStep(devices, deviceType, records, n);
      var once := ApplyRecords(devices, deviceType, prefix).devices;
      ApplyRecordsIdempotentWhenOk(devices, deviceType, prefix);
      ApplyRecordsFailStep(once, deviceType, records, n);
    }
  }

  /** `gsf` is idempotent: replaying the same records (with distinct ids) on
      the list they produced changes nothing, posts no update and succeeds or
      raises as the first run did. */
  lemma GsfIdempotent(devices: seq<Device>, parameters: seq<string>, records: seq<seq<string>>)
    requires DistinctIds(records)
    ensures var once := Gsf(devices, parameters, records);
      Gsf(once.devices, parameters, records) == once.(events := [])
  {
    if |parameters| > 0 && (parameters[0] == "7" || parameters[0] == "12") {
      var once := Gsf(devices, parameters, records);
      GsfSelectsClass(devices, parameters, records);
      GsfSelectsClass(once.devices, parameters, records);
      ApplyRecordsIdempotent(devices, GsfClass(parameters), records);
    }
  }

  /** A `gsf` keeps the (type, id) pairs of the list unique. */
  lemma GsfKeepsUniqueKeys(devices: seq<Device>, parameters: seq<string>, records: seq<seq<string>>)
    requires UniqueKeys(devices)
    ensures UniqueKeys(Gsf(devices, parameters, records).devices)
  {
  }
}
