/**
 The records of the fraud dataset and of the four tables derived from it.
 Columns the derivation only copies are opaque cells (their CSV text);
 the prior-fraud flag is an integer because Accounts takes its maximum.
 */
module Rows {
  import opened Wrappers

  type Cell = string
  type UserId = string
  type LocationName = string
  type DeviceType = string

  /** One row of the flat source dataset. */
  datatype SourceRow = SourceRow(
    transactionId: Cell,
    userId: UserId,
    transactionAmount: Cell,
    transactionType: Cell,
    timestamp: Cell,
    location: LocationName,
    deviceType: DeviceType,
    merchantCategory: Cell,
    ipAddressFlag: Cell,
    avgTransactionAmount7d: Cell,
    riskScore: Cell,
    fraudLabel: Cell,
    accountBalance: Cell,
    previousFraudulentActivity: int)

  /** A row of the Accounts table: one per user. */
  datatype Account = Account(userId: UserId, accountBalance: Cell, previousFraudulentActivity: int)

  /** A row of the Locations table: a distinct location name and its surrogate key. */
  datatype Location = Location(name: LocationName, id: nat)

  /** The natural key of a device: the user owning it and its type. */
  datatype DeviceKey = DeviceKey(userId: UserId, deviceType: DeviceType)

  /** A row of the Devices table: a distinct (user, device type) pair and its surrogate key. */
  datatype Device = Device(userId: UserId, deviceType: DeviceType, id: nat)

  /** A row of the Transactions table; a foreign key a join could not resolve is `None`. */
  datatype Transaction = Transaction(
    transactionId: Cell,
    userId: UserId,
    transactionAmount: Cell,
    transactionType: Cell,
    timestamp: Cell,
    locationId: Option<nat>,
    deviceId: Option<nat>,
    merchantCategory: Cell,
    ipAddressFlag: Cell,
    avgTransactionAmount7d: Cell,
    riskScore: Cell,
    fraudLabel: Cell)
}
