# Normalising the fraud transaction dataset

`Scripts/split_data.py` loads one flat table of card transactions and splits it
into four related tables:

- **Accounts**: one row per `User_ID`. It holds the user's last
  `Account_Balance` in source order and the largest
  `Previous_Fraudulent_Activity` flag of the user's rows.
- **Locations**: the distinct `Location` values in order of first appearance.
  They are numbered `Location_ID` 1..N.
- **Devices**: the distinct (`User_ID`, `Device_Type`) pairs in order of first
  appearance. They are numbered `Device_ID` 1..M.
- **Transactions**: every source row, left-merged with Locations on the
  location name and then with Devices on the (user, device type) pair. The
  result is projected to twelve fixed columns.

This project models those four derivations as pure functions over sequences
of records and proves what they promise.

Modules:

- `Rows`: the source record and the records of the four output tables.
- `Sequences`: order-preserving de-duplication (pandas' `unique` and
  `drop_duplicates`), with a proof that it is the only sequence that lists
  exactly the distinct values, each once, in first-appearance order.
- `Join`: a general left merge. A right table with a repeated key duplicates
  the left row, as pandas does. A proof shows that a right table with unique
  keys keeps the left row count and order.
- `AccountAggregator`, `LocationEnumerator`, `DeviceEnumerator` and
  `KeyResolver`: the four table derivations.
- `SplitData`: the whole pipeline. It proves that every foreign key resolves
  and that the four tables are referentially intact.

Cell values other than the key columns and the prior-fraud flag are opaque
strings, copied as they are.

A left merge leaves the id missing when no key-table row matches. The model
keeps that behaviour in `KeyResolver.Resolve`, whose key tables are arbitrary.
In the script, though, the Locations and Devices tables are built from the same
source rows that are merged against them. `SplitData.ForeignKeysResolve`
therefore proves that no lookup ever misses.

## Model

| member | source | states |
|---|---|---|
| AccountAggregator.Accounts | Scripts/split_data.py:8-11 | There is an account for a user exactly when some source row has that user id. |
| AccountAggregator.AccountOfGroup | Scripts/split_data.py:8-11 | A user's account is the aggregation of that user's non-empty group, and it carries the user's id as its User_ID. |
| AccountAggregator.Group | Scripts/split_data.py:8 | Every row of a user's group has that user's id. GroupMembers and GroupLast state the rest. |
| AccountAggregator.Aggregate | Scripts/split_data.py:9-10 | The aggregated account keeps the group's user. Its balance is the balance of the group's final row. Its flag is at least every flag of the group and equals one of them. |
| AccountAggregator.AccountBalanceIsLast | Scripts/split_data.py:8-9 | A user's Account_Balance is the balance of the last source row of that user: no later row belongs to the user. |
| AccountAggregator.AccountPriorFraudIsMax | Scripts/split_data.py:8-10 | A user's Previous_Fraudulent_Activity is at least the flag of every row of that user, and equals the flag of one of those rows. |
| AccountAggregator.AccountPriorFraudIsAny | Scripts/split_data.py:10 | On 0/1 flags the aggregated flag is 0 or 1. It is 1 exactly when some row of the user is flagged. |
| AccountAggregator.GroupMembers | Scripts/split_data.py:8 | The group of a user holds only source rows, and it holds every source row of that user. |
| AccountAggregator.GroupLast | Scripts/split_data.py:9 | The last row of a non-empty group is the user's last source row. |
| AccountAggregator.MaxOf | Scripts/split_data.py:10 | The maximum of a non-empty sequence bounds every element and is one of them. |
| AccountAggregator.SingleRowAccount | Scripts/split_data.py:8-11 | A one-row source gives exactly one account, holding that row's user, balance and flag. |
| Sequences.Dedup | Scripts/split_data.py:15-20 | The result is duplicate-free and lists exactly the values of the input. It follows their first-appearance order and is no longer than the input. |
| Sequences.DedupUnique | Scripts/split_data.py:15-20 | Any duplicate-free listing of exactly the input's values in first-appearance order is Dedup of the input. |
| Sequences.DistinctCardinality | Scripts/split_data.py:16-21 | A duplicate-free sequence has as many distinct values as elements, so the table length is the number of distinct keys. |
| LocationEnumerator.Locations | Scripts/split_data.py:15-16 | Names are distinct. Every source location has a row and every row names a source location. Rows follow first appearance, row k has id k+1, and the length is the number of distinct names. |
| LocationEnumerator.LocationsUnique | Scripts/split_data.py:15-16 | Any table with distinct names covering exactly the source locations, in first-appearance order and numbered from 1, equals Locations. |
| LocationEnumerator.NumberLocations | Scripts/split_data.py:16 | Numbering keeps the names in order and gives row k the id k+1. |
| DeviceEnumerator.Devices | Scripts/split_data.py:20-21 | The (user, device type) pairs are distinct. Every source pair has a row and every row holds a source pair. Rows follow first appearance, row k has id k+1, and the length is the number of distinct pairs. |
| DeviceEnumerator.DevicesUnique | Scripts/split_data.py:20-21 | Any table with distinct pairs covering exactly the source pairs, in first-appearance order and numbered from 1, equals Devices. |
| DeviceEnumerator.NumberDevices | Scripts/split_data.py:21 | Numbering keeps the pairs in order and gives row k the id k+1. |
| Join.Matches | Scripts/split_data.py:25-26 | The matches of a key are right rows carrying that key, and every right row carrying it is among them. |
| Join.MatchesAppend | Scripts/split_data.py:25-26 | Matching is an order-keeping filter: the matches in a concatenation of two right tables are the first table's matches followed by the second's. |
| Join.MatchesTwo | Scripts/split_data.py:25-26 | Two right rows carrying the key give at least two matches. |
| Join.MatchesHead | Scripts/split_data.py:25-26 | When some right row has the key, the first match is the row Lookup finds. |
| Join.JoinRow | Scripts/split_data.py:25-26 | A left row with no right row carrying its key contributes exactly one row, paired with a missing value. Otherwise it contributes one row per matching right row, in right order, each pairing it with that right row; the first is its pairing with the Lookup result. |
| Join.Lookup | Scripts/split_data.py:25-26 | A lookup finds a row exactly when some right row has the key, and the row it finds is a right row with that key. |
| Join.LeftJoin | Scripts/split_data.py:25-26 | The merge is at least as long as the left table, and every left row appears in it paired with its Lookup result. Every output row pairs a left row with a right row carrying its key, or with a missing value only when no right row carries that key. |
| Join.LeftJoinAppend | Scripts/split_data.py:25-26 | The merge works row by row and keeps left order: merging a concatenation of two left tables gives the first merge followed by the second. |
| Join.LeftJoinSingle | Scripts/split_data.py:25-26 | Merging one left row gives exactly the rows JoinRow says it contributes. |
| Join.MatchesUnique | Scripts/split_data.py:25-26 | Under unique right keys a key matches at most one row, the one Lookup finds. |
| Join.LeftJoinUnique | Scripts/split_data.py:25-26 | Under unique right keys the merge keeps the left row count and order. Row i is left row i paired with the lookup of its key. |
| Join.LeftJoinDuplicates | Scripts/split_data.py:25-26 | For any left and right tables, if two right rows carry the key of some left row, the merge has more rows than the left table. |
| KeyResolver.Project | Scripts/split_data.py:28-32 | The projection keeps the ten columns the transaction shares with its source row. Each id is present exactly when its merged partner is, and is then that partner's id. |
| KeyResolver.Resolve | Scripts/split_data.py:25-32 | Both merges and the projection yield at least as many transactions as source rows, for any key tables. ResolveUniqueKeys states the exact result for distinct key tables, and SplitData.ForeignKeysResolve states it for the script's own tables. |
| KeyResolver.ResolveUniqueKeys | Scripts/split_data.py:25-32 | Against key tables with distinct keys there is one transaction per source row, in order, copying its ten shared columns. Location_ID is present exactly when the row's name is listed, and is then the id of the row with that name; likewise Device_ID for the (user, device type) pair. |
| KeyResolver.ResolveRow | Scripts/split_data.py:25-32 | The same per-row facts for one source row i. |
| KeyResolver.LocationLookup | Scripts/split_data.py:25 | A name lookup in Locations succeeds exactly when the name is listed, and returns a row with that name. |
| KeyResolver.DeviceLookup | Scripts/split_data.py:26 | A pair lookup in Devices succeeds exactly when the pair is listed, and returns a row with that pair. |
| SplitData.Split | Scripts/split_data.py:8-32 | There is an account exactly for each user of the source; AccountBalanceIsLast and AccountPriorFraudIsMax state the account values. The Locations and Devices tables it builds have distinct keys, numbered 1, 2, ... in row order, and list every source row's keys. Transactions has one row per source row, and row i copies source row i with both ids naming the key-table rows holding its keys. |
| SplitData.ResolvedAll | Scripts/split_data.py:25-32 | Against any key tables that are distinct, densely numbered and cover the source, every transaction is its source row with both keys resolved. |
| SplitData.TransactionsFollowSource | Scripts/split_data.py:25-32 | Transactions has one row per source row, in source order, and each copies the columns it shares with its source row. |
| SplitData.ForeignKeysResolve | Scripts/split_data.py:15-26 | No lookup misses. Location_ID is the id of the Locations row named by the row's location. Device_ID is the id of the Devices row holding the row's user and device type. |
| SplitData.ResolvedAt | Scripts/split_data.py:25-32 | Against key tables that are distinct, dense and cover the source, transaction i resolves both keys to row i's location and device. |
| SplitData.ReferentialIntegrity | Scripts/split_data.py:8-32 | Every transaction's user has an account. Its Location_ID and Device_ID name existing rows, and that device belongs to the transaction's user. |
| SplitData.SingleRowExample | Scripts/split_data.py:8-32 | A one-row source (U1 at NYC on mobile) gives Locations [(NYC, 1)], Devices [(U1, mobile, 1)], account U1 with balance 100 and flag 0, and transaction T1 with both ids 1. |

## Left out

- Reading `synthetic_fraud_dataset.csv` (line 5) is left out: the source rows are a parameter.
- Writing the four CSV files and the success message (lines 12, 17, 22, 33, 35) are left out, because they are I/O.
- A missing file and a missing column (a pandas `KeyError`) are left out. The source record always has every column, so those failures cannot occur in the model.
- Cells are opaque strings; float parsing and representation are left out. The prior-fraud flag is an unbounded integer, so `max` is exact.
- Missing values (NaN) are left out. pandas' `last` and `max` skip them, `groupby('User_ID')` drops rows whose User_ID is missing (so such rows get no account), and `unique`, `drop_duplicates` and `merge` treat NaN as an ordinary key. The model has no missing cells.
- AccountAggregator.Accounts: the Accounts table is a map keyed by user, so it does not model the row order pandas writes the groups in (sorted by `User_ID`).
- KeyResolver.Resolve: its own contract promises only at least as many transactions as source rows. Against key tables with a repeated key the merge duplicates rows (Join.LeftJoinDuplicates), so the exact result is stated by the lemmas for distinct key tables.
- Column renaming and suffixing by `merge` are left out: the model names its output columns directly.
- Running the pipeline twice gives the same tables because `SplitData.Split` is a pure function, so idempotence needs no separate lemma.
