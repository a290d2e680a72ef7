/**
 The Devices table: the distinct (User_ID, Device_Type) pairs of the source,
 each kept at its first occurrence and in source order (pandas'
 `drop_duplicates`), numbered 1, 2, ... in that order.
 */
module DeviceEnumerator {
  import opened Rows
  import opened Sequences

  /** The join key of a source row against Devices. */
  function RowDevice(r: SourceRow): DeviceKey {
    DeviceKey(r.userId, r.deviceType)
  }

  /** The join key of a Devices row. */
  function DeviceKeyOf(d: Device): DeviceKey {
    DeviceKey(d.userId, d.deviceType)
  }

  /** The (User_ID, Device_Type) columns of the source. */
  function DeviceColumn(rows: seq<SourceRow>): (c: seq<DeviceKey>)
    ensures |c| == |rows|
    ensures forall i :: 0 <= i < |rows| ==> c[i] == RowDevice(rows[i])
  {
    seq(|rows|, i requires 0 <= i < |rows| => RowDevice(rows[i]))
  }

  /** The keys of a Devices table, in row order. */
  function DeviceKeys(devs: seq<Device>): (keys: seq<DeviceKey>)
    ensures |keys| == |devs|
    ensures forall k :: 0 <= k < |devs| ==> keys[k] == DeviceKeyOf(devs[k])
  {
    seq(|devs|, k requires 0 <= k < |devs| => DeviceKeyOf(devs[k]))
  }

  /** Row k of a table carries surrogate key k + 1, so the keys are 1..M in row order. */
  ghost predicate DenseDeviceIds(devs: seq<Device>) {
    forall k :: 0 <= k < |devs| ==> devs[k].id == k + 1
  }

  /** Numbers `keys` densely from 1, in order. */
  function NumberDevices(keys: seq<DeviceKey>): (devs: seq<Device>)
    ensures DeviceKeys(devs) == keys
    ensures DenseDeviceIds(devs)
  {
    var devs := seq(|keys|, k requires 0 <= k < |keys| => Device(keys[k].userId, keys[k].deviceType, k + 1));
    assert DeviceKeys(devs) == keys;
    devs
  }

  /**
   The Devices table. Its (user, device type) pairs are pairwise distinct,
   every source pair has a row and every row holds a source pair, the rows
   follow the order of first appearance, and row k has id k + 1, so that the
   ids are exactly 1..M for M the number of distinct pairs.
   */
  function Devices(rows: seq<SourceRow>): (devs: seq<Device>)
    ensures Distinct(DeviceKeys(devs))
    ensures forall i :: 0 <= i < |rows| ==> RowDevice(rows[i]) in DeviceKeys(devs)
    ensures forall k :: 0 <= k < |devs| ==> DeviceKeyOf(devs[k]) in DeviceColumn(rows)
    ensures InFirstOccurrenceOrder(DeviceKeys(devs), DeviceColumn(rows))
    ensures DenseDeviceIds(devs)
    ensures |devs| == |Elems(DeviceColumn(rows))|
  {
    var column := DeviceColumn(rows);
    var keys := Dedup(column);
    var devs := NumberDevices(keys);
    DistinctCardinality(keys);
    SameValuesSameElems(keys, column);
    devs
  }

  /**
   The Devices table is the only table with those properties: any listing of
   the distinct source pairs, in first-appearance order and numbered from 1,
   is Devices(rows).
   */
  lemma DevicesUnique(rows: seq<SourceRow>, devs: seq<Device>)
    requires Distinct(DeviceKeys(devs))
    requires SameValues(DeviceKeys(devs), DeviceColumn(rows))
    requires InFirstOccurrenceOrder(DeviceKeys(devs), DeviceColumn(rows))
    requires DenseDeviceIds(devs)
    ensures devs == Devices(rows)
  {
    var keys := DeviceKeys(devs);
    DedupUnique(DeviceColumn(rows), keys);
    var expected := Devices(rows);
    assert DeviceKeys(expected) == keys by {
      DedupUnique(DeviceColumn(rows), DeviceKeys(expected));
    }
    assert |expected| == |devs|;
    forall k | 0 <= k < |devs|
      ensures devs[k] == expected[k]
    {
      assert DeviceKeyOf(devs[k]) == keys[k] == DeviceKeyOf(expected[k]);
    }
  }
}
