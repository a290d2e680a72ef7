/**
 The Transactions table: each source row left-merged with a Locations table on
 the location name and then with a Devices table on (User_ID, Device_Type),
 and projected to the fixed Transactions columns.
 */
module KeyResolver {
  import opened Wrappers
  import opened Rows
  import opened Sequences
  import opened Join
  import opened LocationEnumerator
  import opened DeviceEnumerator

  /** A source row after the Locations merge. */
  type WithLocation = (SourceRow, Option<Location>)

  /** A source row after both merges. */
  type WithDevice = (WithLocation, Option<Device>)

  /** The Devices join key of a row that has been through the Locations merge. */
  function JoinedDevice(p: WithLocation): DeviceKey {
    RowDevice(p.0)
  }

  /** Every column `t` shares with the source row `r` holds `r`'s value. */
  ghost predicate CopiesColumns(t: Transaction, r: SourceRow) {
    && t.transactionId == r.transactionId
    && t.userId == r.userId
    && t.transactionAmount == r.transactionAmount
    && t.transactionType == r.transactionType
    && t.timestamp == r.timestamp
    && t.merchantCategory == r.merchantCategory
    && t.ipAddressFlag == r.ipAddressFlag
    && t.avgTransactionAmount7d == r.avgTransactionAmount7d
    && t.riskScore == r.riskScore
    && t.fraudLabel == r.fraudLabel
  }

  /**
   The Transactions columns of a merged row: the source row's own columns,
   with each merged partner replaced by its id, and a missing partner by a
   missing id.
   */
  function Project(j: WithDevice): (t: Transaction)
    ensures CopiesColumns(t, j.0.0)
    ensures t.locationId.Some? <==> j.0.1.Some?
    ensures j.0.1.Some? ==> t.locationId.value == j.0.1.value.id
    ensures t.deviceId.Some? <==> j.1.Some?
    ensures j.1.Some? ==> t.deviceId.value == j.1.value.id
  {
    var (row, loc) := j.0;
    var dev := j.1;
    Transaction(
      row.transactionId,
      row.userId,
      row.transactionAmount,
      row.transactionType,
      row.timestamp,
      match loc case Some(l) => Some(l.id) case None => None,
      match dev case Some(d) => Some(d.id) case None => None,
      row.merchantCategory,
      row.ipAddressFlag,
      row.avgTransactionAmount7d,
      row.riskScore,
      row.fraudLabel)
  }

  /** Both merges and the projection, for any Locations and Devices tables. */
  function Resolve(rows: seq<SourceRow>, locs: seq<Location>, devs: seq<Device>): (ts: seq<Transaction>)
    ensures |ts| >= |rows|
  {
    var withLocations := LeftJoin(rows, locs, RowLocation, LocationKey);
    var withDevices := LeftJoin(withLocations, devs, JoinedDevice, DeviceKeyOf);
    seq(|withDevices|, i requires 0 <= i < |withDevices| => Project(withDevices[i]))
  }

  /** Distinct names make the name a unique join key. */
  lemma LocationKeysUnique(locs: seq<Location>)
    requires Distinct(LocationNames(locs))
    ensures UniqueKeys(locs, LocationKey)
  {
    forall i, j | 0 <= i < j < |locs|
      ensures LocationKey(locs[i]) != LocationKey(locs[j])
    {
      assert LocationNames(locs)[i] != LocationNames(locs)[j];
    }
  }

  /** Distinct pairs make the pair a unique join key. */
  lemma DeviceKeysUnique(devs: seq<Device>)
    requires Distinct(DeviceKeys(devs))
    ensures UniqueKeys(devs, DeviceKeyOf)
  {
    forall i, j | 0 <= i < j < |devs|
      ensures DeviceKeyOf(devs[i]) != DeviceKeyOf(devs[j])
    {
      assert DeviceKeys(devs)[i] != DeviceKeys(devs)[j];
    }
  }

  /**
   Against Locations and Devices tables with distinct keys, Resolve yields one
   transaction per source row, in source order, copying the row's columns; its
   Location_ID is present exactly when some Locations row has the row's
   location name, and is then that row's id; likewise Device_ID for the row's
   (User_ID, Device_Type).
   */
  lemma ResolveUniqueKeys(rows: seq<SourceRow>, locs: seq<Location>, devs: seq<Device>)
    requires Distinct(LocationNames(locs))
    requires Distinct(DeviceKeys(devs))
    ensures |Resolve(rows, locs, devs)| == |rows|
    ensures forall i :: 0 <= i < |rows| ==> CopiesColumns(Resolve(rows, locs, devs)[i], rows[i])
    ensures forall i :: 0 <= i < |rows| ==>
      (Resolve(rows, locs, devs)[i].locationId.Some? <==> rows[i].location in LocationNames(locs))
    ensures forall i :: 0 <= i < |rows| && Resolve(rows, locs, devs)[i].locationId.Some? ==>
      Location(rows[i].location, Resolve(rows, locs, devs)[i].locationId.value) in locs
    ensures forall i :: 0 <= i < |rows| ==>
      (Resolve(rows, locs, devs)[i].deviceId.Some? <==> RowDevice(rows[i]) in DeviceKeys(devs))
    ensures forall i :: 0 <= i < |rows| && Resolve(rows, locs, devs)[i].deviceId.Some? ==>
      Device(rows[i].userId, rows[i].deviceType, Resolve(rows, locs, devs)[i].deviceId.value) in devs
  {
    ResolveLength(rows, locs, devs);
    forall i | 0 <= i < |rows|
      ensures ResolvedRow(Resolve(rows, locs, devs)[i], rows[i], locs, devs)
    {
      ResolveRow(rows, locs, devs, i);
    }
  }

  /** What Resolve promises about the transaction `t` it derives from source row `r`. */
  ghost predicate ResolvedRow(t: Transaction, r: SourceRow, locs: seq<Location>, devs: seq<Device>) {
    && CopiesColumns(t, r)
    && (t.locationId.Some? <==> r.location in LocationNames(locs))
    && (t.locationId.Some? ==> Location(r.location, t.locationId.value) in locs)
    && (t.deviceId.Some? <==> RowDevice(r) in DeviceKeys(devs))
    && (t.deviceId.Some? ==> Device(r.userId, r.deviceType, t.deviceId.value) in devs)
  }

  /** Against key tables with distinct keys, Resolve keeps the source row count. */
  lemma ResolveLength(rows: seq<SourceRow>, locs: seq<Location>, devs: seq<Device>)
    requires Distinct(LocationNames(locs))
    requires Distinct(DeviceKeys(devs))
    ensures |Resolve(rows, locs, devs)| == |rows|
  {
    LocationKeysUnique(locs);
    DeviceKeysUnique(devs);
    var withLocations := LeftJoin(rows, locs, RowLocation, LocationKey);
    LeftJoinUnique(rows, locs, RowLocation, LocationKey);
    LeftJoinUnique(withLocations, devs, JoinedDevice, DeviceKeyOf);
  }

  /** Row i of Resolve, against key tables with distinct keys, is derived from source row i. */
  lemma ResolveRow(rows: seq<SourceRow>, locs: seq<Location>, devs: seq<Device>, i: int)
    requires Distinct(LocationNames(locs))
    requires Distinct(DeviceKeys(devs))
    requires 0 <= i < |rows|
    ensures |Resolve(rows, locs, devs)| == |rows|
    ensures ResolvedRow(Resolve(rows, locs, devs)[i], rows[i], locs, devs)
  {
    LocationKeysUnique(locs);
    DeviceKeysUnique(devs);
    var withLocations := LeftJoin(rows, locs, RowLocation, LocationKey);
    var withDevices := LeftJoin(withLocations, devs, JoinedDevice, DeviceKeyOf);
    LeftJoinUnique(rows, locs, RowLocation, LocationKey);
    LeftJoinUnique(withLocations, devs, JoinedDevice, DeviceKeyOf);
    var loc := Lookup(locs, LocationKey, rows[i].location);
    var dev := Lookup(devs, DeviceKeyOf, RowDevice(rows[i]));
    assert withDevices[i] == ((rows[i], loc), dev);
    assert Resolve(rows, locs, devs)[i] == Project(withDevices[i]);
    LocationLookup(locs, rows[i].location);
    DeviceLookup(devs, RowDevice(rows[i]));
  }

  /** Looking a name up in a Locations table finds a row with that name exactly when the name is listed. */
  lemma LocationLookup(locs: seq<Location>, name: LocationName)
    ensures Lookup(locs, LocationKey, name).Some? <==> name in LocationNames(locs)
    ensures Lookup(locs, LocationKey, name).Some? ==> Lookup(locs, LocationKey, name).value.name == name
  {
    if name in LocationNames(locs) {
      var k :| 0 <= k < |locs| && LocationNames(locs)[k] == name;
      assert LocationKey(locs[k]) == name;
    }
    if HasKey(locs, LocationKey, name) {
      var k :| 0 <= k < |locs| && LocationKey(locs[k]) == name;
      assert LocationNames(locs)[k] == name;
    }
  }

  /** Looking a pair up in a Devices table finds a row with that pair exactly when the pair is listed. */
  lemma DeviceLookup(devs: seq<Device>, key: DeviceKey)
    ensures Lookup(devs, DeviceKeyOf, key).Some? <==> key in DeviceKeys(devs)
    ensures Lookup(devs, DeviceKeyOf, key).Some? ==> DeviceKeyOf(Lookup(devs, DeviceKeyOf, key).value) == key
  {
    if key in DeviceKeys(devs) {
      var k :| 0 <= k < |devs| && DeviceKeys(devs)[k] == key;
      assert DeviceKeyOf(devs[k]) == key;
    }
    if HasKey(devs, DeviceKeyOf, key) {
      var k :| 0 <= k < |devs| && DeviceKeyOf(devs[k]) == key;
      assert DeviceKeys(devs)[k] == key;
    }
  }
}
