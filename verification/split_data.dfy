/**
 The whole normalisation: the four tables derived from one source load.
 Reading the CSV and writing the four output files are not part of the model.
 */
module SplitData {
  import opened Wrappers
  import opened Rows
  import opened Sequences
  import opened AccountAggregator
  import opened LocationEnumerator
  import opened DeviceEnumerator
  import opened KeyResolver

  datatype Tables = Tables(
    accounts: map<UserId, Account>,
    locations: seq<Location>,
    devices: seq<Device>,
    transactions: seq<Transaction>)

  /**
   The four tables, the Transactions one joined against the Locations and
   Devices just built. There is one account per distinct source user; the key
   tables fit the source rows; Transactions has one row per source row, and
   each is its source row with both keys resolved against the key tables.
   */
  function Split(rows: seq<SourceRow>): (tables: Tables)
    ensures OneAccountPerUser(rows, tables.accounts)
    ensures KeyTablesCover(rows, tables.locations, tables.devices)
    ensures |tables.transactions| == |rows|
    ensures forall i :: 0 <= i < |rows| ==>
      ResolvedAgainst(tables.transactions[i], rows[i], tables.locations, tables.devices)
  {
    var accounts, locs, devs := Accounts(rows), Locations(rows), Devices(rows);
    assert OneAccountPerUser(rows, accounts);
    ResolvedAll(rows, locs, devs);
    Tables(accounts, locs, devs, Resolve(rows, locs, devs))
  }

  /** There is an account for a user exactly when some source row has that user id. */
  ghost predicate OneAccountPerUser(rows: seq<SourceRow>, accounts: map<UserId, Account>) {
    forall u :: u in accounts <==> exists i :: 0 <= i < |rows| && rows[i].userId == u
  }

  /**
   Key tables fit the source rows: their keys are distinct and numbered 1, 2,
   ... in row order, and they list the location and the (user, device type)
   pair of every source row.
   */
  ghost predicate KeyTablesCover(rows: seq<SourceRow>, locs: seq<Location>, devs: seq<Device>) {
    && Distinct(LocationNames(locs)) && DenseLocationIds(locs)
    && Distinct(DeviceKeys(devs)) && DenseDeviceIds(devs)
    && (forall i :: 0 <= i < |rows| ==> rows[i].location in LocationNames(locs))
    && (forall i :: 0 <= i < |rows| ==> RowDevice(rows[i]) in DeviceKeys(devs))
  }

  /** Transaction `t` is source row `r` with both foreign keys resolved to the rows holding `r`'s keys. */
  ghost predicate ResolvedAgainst(t: Transaction, r: SourceRow, locs: seq<Location>, devs: seq<Device>) {
    CopiesColumns(t, r) && LocationIdNames(t, locs, r.location) && DeviceIdHolds(t, devs, RowDevice(r))
  }

  /** The Location_ID of `t` is present and is the id of the Locations row named `name`. */
  ghost predicate LocationIdNames(t: Transaction, locs: seq<Location>, name: LocationName) {
    && t.locationId.Some? && 1 <= t.locationId.value <= |locs|
    && locs[t.locationId.value - 1].name == name
  }

  /** The Device_ID of `t` is present and is the id of the Devices row holding `key`. */
  ghost predicate DeviceIdHolds(t: Transaction, devs: seq<Device>, key: DeviceKey) {
    && t.deviceId.Some? && 1 <= t.deviceId.value <= |devs|
    && DeviceKeyOf(devs[t.deviceId.value - 1]) == key
  }

  /** In a densely numbered table, a listed location sits at the position its id names. */
  lemma LocationRowAt(locs: seq<Location>, l: Location)
    requires DenseLocationIds(locs)
    requires l in locs
    ensures 1 <= l.id <= |locs| && locs[l.id - 1] == l
  {
  }

  /** In a densely numbered table, a listed device sits at the position its id names. */
  lemma DeviceRowAt(devs: seq<Device>, d: Device)
    requires DenseDeviceIds(devs)
    requires d in devs
    ensures 1 <= d.id <= |devs| && devs[d.id - 1] == d
  {
  }

  /** Against key tables that fit the rows, transaction `i` is row `i` with both keys resolved. */
  lemma ResolvedAt(rows: seq<SourceRow>, locs: seq<Location>, devs: seq<Device>, i: int)
    requires KeyTablesCover(rows, locs, devs)
    requires 0 <= i < |rows|
    ensures |Resolve(rows, locs, devs)| == |rows|
    ensures ResolvedAgainst(Resolve(rows, locs, devs)[i], rows[i], locs, devs)
  {
    ResolveRow(rows, locs, devs, i);
    var t := Resolve(rows, locs, devs)[i];
    assert rows[i].location in LocationNames(locs);
    assert RowDevice(rows[i]) in DeviceKeys(devs);
    LocationRowAt(locs, Location(rows[i].location, t.locationId.value));
    DeviceRowAt(devs, Device(rows[i].userId, rows[i].deviceType, t.deviceId.value));
  }

  /** Against key tables that fit the rows, every transaction is its row with both keys resolved. */
  lemma ResolvedAll(rows: seq<SourceRow>, locs: seq<Location>, devs: seq<Device>)
    requires KeyTablesCover(rows, locs, devs)
    ensures |Resolve(rows, locs, devs)| == |rows|
    ensures forall i :: 0 <= i < |rows| ==> ResolvedAgainst(Resolve(rows, locs, devs)[i], rows[i], locs, devs)
  {
    ResolveLength(rows, locs, devs);
    forall i | 0 <= i < |rows|
      ensures ResolvedAgainst(Resolve(rows, locs, devs)[i], rows[i], locs, devs)
    {
      ResolvedAt(rows, locs, devs, i);
    }
  }

  /**
   Transactions has one row per source row, in source order, and each copies
   the columns it shares with its source row.
   */
  lemma TransactionsFollowSource(rows: seq<SourceRow>)
    ensures |Split(rows).transactions| == |rows|
    ensures forall i :: 0 <= i < |rows| ==> CopiesColumns(Split(rows).transactions[i], rows[i])
  {
  }

  /**
   No lookup misses: every transaction's Location_ID is the id of the
   Locations row named by its source row's Location, and its Device_ID is the
   id of the Devices row holding its source row's (User_ID, Device_Type).
   */
  lemma ForeignKeysResolve(rows: seq<SourceRow>)
    ensures ForeignKeysHold(rows, Split(rows))
  {
  }

  /**
   Transactions has one row per source row, and row i's Location_ID and
   Device_ID are the ids of the key-table rows holding source row i's keys.
   */
  ghost predicate ForeignKeysHold(rows: seq<SourceRow>, tables: Tables) {
    && |tables.transactions| == |rows|
    && (forall i :: 0 <= i < |rows| ==>
          LocationIdNames(tables.transactions[i], tables.locations, rows[i].location))
    && (forall i :: 0 <= i < |rows| ==>
          DeviceIdHolds(tables.transactions[i], tables.devices, RowDevice(rows[i])))
  }

  /**
   The tables are consistent with each other: every transaction's user has an
   account, its Location_ID and Device_ID name existing rows, and the device
   it points at belongs to the transaction's user.
   */
  ghost predicate ReferentiallyIntact(tables: Tables) {
    forall i :: 0 <= i < |tables.transactions| ==>
      var t := tables.transactions[i];
      && t.userId in tables.accounts
      && t.locationId.Some? && 1 <= t.locationId.value <= |tables.locations|
      && t.deviceId.Some? && 1 <= t.deviceId.value <= |tables.devices|
      && tables.devices[t.deviceId.value - 1].userId == t.userId
  }

  /** The four tables Split derives are referentially intact. */
  lemma ReferentialIntegrity(rows: seq<SourceRow>)
    ensures ReferentiallyIntact(Split(rows))
  {
    IntactWhenResolved(rows, Split(rows));
  }

  /** Tables whose transactions resolve against them, one per source row whose user has an account, are intact. */
  lemma IntactWhenResolved(rows: seq<SourceRow>, tables: Tables)
    requires |tables.transactions| == |rows|
    requires forall i :: 0 <= i < |rows| ==>
      ResolvedAgainst(tables.transactions[i], rows[i], tables.locations, tables.devices)
    requires OneAccountPerUser(rows, tables.accounts)
    ensures ReferentiallyIntact(tables)
  {
    forall i | 0 <= i < |tables.transactions|
      ensures tables.transactions[i].userId in tables.accounts
    {
      assert ResolvedAgainst(tables.transactions[i], rows[i], tables.locations, tables.devices);
      assert tables.transactions[i].userId == rows[i].userId;
    }
  }

  /** The source row of a one-row example: user U1 pays at NYC from a mobile device. */
  function ExampleRow(): SourceRow {
    SourceRow("T1", "U1", "50", "POS", "2023-01-01", "NYC", "mobile", "Retail", "0", "40", "0.1", "0", "100", 0)
  }

  /**
   A one-row source (U1 pays at NYC from a mobile device) gives Locations {NYC: 1}, Devices
   {(U1, mobile): 1}, the account U1 with balance 100 and prior-fraud 0, and
   transaction T1 with location id 1 and device id 1.
   */
  lemma SingleRowExample()
    ensures Split([ExampleRow()]).locations == [Location("NYC", 1)]
    ensures Split([ExampleRow()]).devices == [Device("U1", "mobile", 1)]
    ensures Split([ExampleRow()]).accounts == map["U1" := Account("U1", "100", 0)]
    ensures Split([ExampleRow()]).transactions ==
      [Transaction("T1", "U1", "50", "POS", "2023-01-01", Some(1), Some(1), "Retail", "0", "40", "0.1", "0")]
  {
    ExampleLocations();
    ExampleDevices();
    ExampleAccounts();
    ExampleTransactions();
  }

  /** The Locations table of the one-row example. */
  lemma ExampleLocations()
    ensures Locations([ExampleRow()]) == [Location("NYC", 1)]
  {
    var rows, locs := [ExampleRow()], [Location("NYC", 1)];
    assert LocationNames(locs) == LocationColumn(rows) == ["NYC"];
    LocationsUnique(rows, locs);
  }

  /** The Devices table of the one-row example. */
  lemma ExampleDevices()
    ensures Devices([ExampleRow()]) == [Device("U1", "mobile", 1)]
  {
    var rows, devs := [ExampleRow()], [Device("U1", "mobile", 1)];
    assert DeviceKeys(devs) == DeviceColumn(rows) == [DeviceKey("U1", "mobile")];
    DevicesUnique(rows, devs);
  }

  /** The Transactions table of the one-row example, against its own Locations and Devices. */
  lemma ExampleTransactions()
    ensures Resolve([ExampleRow()], [Location("NYC", 1)], [Device("U1", "mobile", 1)]) ==
      [Transaction("T1", "U1", "50", "POS", "2023-01-01", Some(1), Some(1), "Retail", "0", "40", "0.1", "0")]
  {
    var rows, locs, devs := [ExampleRow()], [Location("NYC", 1)], [Device("U1", "mobile", 1)];
    assert LocationNames(locs) == ["NYC"];
    assert DeviceKeys(devs) == [DeviceKey("U1", "mobile")];
    ResolvedAt(rows, locs, devs, 0);
    var t := Resolve(rows, locs, devs)[0];
    assert CopiesColumns(t, ExampleRow());
    assert Resolve(rows, locs, devs) == [t];
  }

  /** The Accounts table of the one-row example. */
  lemma ExampleAccounts()
    ensures Accounts([ExampleRow()]) == map["U1" := Account("U1", "100", 0)]
  {
    SingleRowAccount(ExampleRow());
  }
}
