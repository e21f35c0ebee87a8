# ActingWeb list storage and its neighbours: a Dafny model

ActingWeb keeps a Python-like list as rows of a key/value table. A list is in one of two storage
formats: format 1 has one row per index and a stored `length`; format 2 has one row per item under a
fractional rank key whose byte order is the list order, and an advisory `count_hint`. The project
models the list and proves that both formats are the same list for one instance, that migration may
stop at any row write, and that any interleaving of concurrent callers keeps every item. Around it
stand the other state machines of the repository: the callback reorder buffer, the attribute list,
refresh-token rotation, permission rules, and the re-levelling of subscription diffs.

Check everything with `dafny verify dfyconfig.toml`.

## Layout

| files | about |
|---|---|
| `Options`, `Order`, `Decimals` | optional values; byte order; natural numbers in decimal |
| `Keys`, `Ranked` | the contract of the fractional key library, with a concrete library that meets it; rank-keyed rows read in order |
| `JsonText` | what the code needs of the JSON library, with a concrete text form that has it |
| `PyList` | the plain Python list every representation must imitate |
| `ListModel`, `RowStore` | the rows and metadata of one list; atomic row operations that record every state they pass through |
| `Shift`, `Migration`, `Rebalance`, `Repair` | the multi-row algorithms, safe after each row write |
| `ListFacts`, `PropertyList` | what the calls mean on rows, damaged or not; the `ListProperty` instance with its caches |
| `HiddenDamage` | which calls make a damaged list look undamaged |
| `Runs` | whole runs, crashes, the life of a list name |
| `RowNames`, `TableSlices` | row names in the shared table: one list is one independent slice |
| `Interleaving`, `Conservation`, `Linear`, `Alone`, `MetadataCas` | any number of concurrent callers, one row operation at a time; a caller that moves alone is the plain list's call |
| `ReorderBuffer`, `Epochs` | callback ordering: one call, and whole runs |
| `AttributeList`, `RefreshTokens`, `Globs`, `Permissions`, `DiffLevels` | the other cores |

Code that changes stored state is a class or a method over a store, with loops where the source
loops; concurrent code is a step function over a state with one program counter per caller.

Conventions. An item is its stored JSON text (`Raw`); a `Match` is a condition on that text and stands
for comparing decoded values. The clock and the lazy-migration limit are inputs. A list's key library
is any `KeyGen` that is `Sound`: keys are rank-shaped and a generated key lies strictly between its
bounds. A valid list may be damaged: a format 1 list may miss rows (it is not `Complete`) or have rows past
its end (it is not `Healthy`), and rows of the other format or of a deleted list of that name may be there;
each call says what it then answers and does.

## Where the code and its documentation differ

- `_v2_extend` says that its count delta covers the path on which it raises. It does not: stopped by the
  rank cap, the rows already created stay, the hint learns of none of them and a warm rank cache stays
  short. An exact hint stays exact if and only if none of the keys the batch needs is over the cap or the
  first one already is (`PropertyList.ListProperty.ExtendV2`, `Conservation.CappedIsUnrecorded`).
  `ListFacts.CapWithinBatch` is an input under the concrete key library of `Keys`, whose keys grow with each
  append: behind a rank of 179 characters, the second of two keys is over.
- A damaged list is documented never to be migrated by a mutation, so that its damage stays reportable. Each
  of the four changes to format 1 rows can hide the damage, and the next mutation (already the next item of
  one `extend`) then migrates the list. An append or insert overwrites a row just past the end; an insert
  takes that row in as the last item when the last recorded row is missing, or parts two equal neighbours; an
  assignment fills the only hole; a deletion closes it; both can remove one of two equal neighbours. A call
  takes a list from "not to be migrated" to "to be migrated" if and only if it is one of these, or a deletion
  that brings an undamaged list down to the limit, and name and length allow it (`HiddenDamage.MutationHides`; `HiddenDamage.AppendCanHide`, `InsertCanHide`, `SetCanHide`
  and `DeleteCanHide` are inputs).
- The rollback of a migration whose list was deleted meanwhile is documented to leave a successor's items
  alone. Keys are deterministic, so the successor's items have the ranks of the migrated ones: of those it
  was given by appends, it keeps exactly the items that differ from the migrated item at the same position
  (`Migration.SuccessorIsSpared`).
- The sweep is skipped when the metadata says the format never changed. A migration that stops before its
  flip, on a format 1 list carrying that flag, leaves scratch rows that survive `delete` and become the
  items of the next list of that name (`PropertyList.StoppedMigrationOutlivesDelete`).
  `ListFacts.EmptiedFacts` says exactly which rows `clear` and `delete` leave, from any state; a second
  `delete` of the name leaves none (`PropertyList.ListProperty.Delete`).
- `remove_where` is documented to return items in removal order. Format 1 deletes from the last match to
  the first and returns list order. The positions come in the same order if and only if the list is in format
  2 or at most one item is removed, the texts if and only if it is or they read the same backwards
  (`PropertyList.ListProperty.RemoveWhere`, `ListFacts.RemovalOrderIs`).
- The attribute list accepts any item, but the attribute store deletes a row that is set to a value Python
  calls false. A list operation keeps the list whole if and only if the item it stores is truthy
  (`AttributeList.ListAttribute.Append`, `SetItem`, `Insert`).
- Glob patterns are documented as matching any characters. Expressions and globs agree on a text, whatever
  the pattern, if and only if the text has no newline (`Globs.AgreeOnLines`; with the shortcuts before the
  expression, `Permissions.CoveredOnLines`). `Globs.RegexMatchIs` gives the exact set matched,
  `Globs.NewlinesDiffer` one input for each direction.
- A callback whose number has been processed is documented to be a duplicate. It is if and only if the number
  is settled in the current epoch: not above what the last reset left, or handled since
  (`Epochs.DuplicateMeansSettled`, `Epochs.SettledIs`). So it is a duplicate up to the next reset
  (`Epochs.HandledStaysHandled`), and after a gap timeout it is handled again (`Epochs.TimeoutForgets` is an
  input). Without a subscription record, number 1 is handled each time it arrives, and no other number is
  handled on its arrival: lower ones are duplicates, higher ones are queued, rejected or time out
  (`Epochs.RedeliveryIsDuplicate`, `Epochs.WithoutRecord`, `Epochs.NoRecordRuns`).
- Metadata saves are merged so that no writer's field is lost. Beside a migration a merge takes part if and
  only if it lands before the migration's last read or after its flip (`MetadataCas.FlipDropsTheGap`,
  `MetadataCas.GapIsDropped`; `MetadataCas.FlipDropsASave` is one schedule).

## Model

| member | source | states |
|---|---|---|
| Keys.NKeysAscend | actingweb/property_list.py:1591-1600 | generated keys are keys, strictly increase, and all lie above the lower bound |
| Keys.NKeysStep | actingweb/property_list.py:1574-1600 | with an open upper bound each key is the key after its predecessor, as repeated appends would generate |
| Keys.MidKeysSound | actingweb/property_list.py:1481-1505 | the key-library contract is met by a concrete library, so no theorem rests on an empty assumption |
| Ranked.SortKeys | actingweb/property_list.py:454-472 | an insertion sort of the rank set is the only ascending arrangement of it |
| Ranked.InsertRow | actingweb/property_list.py:2034-2066 | a row under a key that fits at a position inserts its item at that position of the list |
| Ranked.DeleteRow | actingweb/property_list.py:1385-1408 | deleting the row of the i-th rank deletes the i-th item and nothing else |
| PyList.SplitIsPartition | actingweb/property_list.py:2409-2473 | what removal by condition keeps and what it returns are together exactly the list, duplicates counted |
| PyList.SplitByCondition | actingweb/property_list.py:2409-2473 | everything returned matches, nothing kept does |
| PyList.KeptAreTheOthers | actingweb/property_list.py:2409-2473 | the kept items are, in order, those that match the opposite condition |
| PyList.IndexOfMeans | actingweb/property_list.py:2189-2238 | `index` answers exactly the least matching position not before the start and before the stop, and is an error exactly if there is none |
| PyList.SliceMeans | actingweb/property_list.py:1888-1928 | a slice is the stretch of exactly the positions not before the start and before the end |
| PyList.InsertMeans | actingweb/property_list.py:2068-2123 | `insert` puts the item behind exactly the old items at positions before the index |
| PyList.SubscriptMeans | actingweb/property_list.py:1174-1467 | a subscript from 0 on is a position, a negative one counts from the end, anything else is an index error that changes nothing |
| ListFacts.SearchedMeans | actingweb/property_list.py:2189-2238 | on a damaged list `index` answers exactly the first match, unless a searched row before it is missing, which is a corruption error |
| ListFacts.FetchedMeans | actingweb/property_list.py:1174-1249 | reading one row of a damaged list: out of range, missing, or the row |
| ListFacts.AppendHides | actingweb/property_list.py:3333-3385 | an append makes a list that may not be migrated one that may, if and only if the damage was one row just past the end; the other calls are in HiddenDamage |
| ListFacts.CapWithinBatch | actingweb/property_list.py:1591-1634 | a concrete batch, under the concrete key library, whose first key is within the cap and whose second is not |
| ListFacts.RemovalOrderIs | actingweb/property_list.py:2409-2473 | returned positions are in the order of removal if and only if the list is in format 2 or at most one item goes, returned texts if and only if it is or they read the same backwards |
| ListFacts.EmptiedFacts | actingweb/property_list.py:1740-1855 | from any state: rows of the other format are left exactly if the list wrongly says it never changed format, rows of its own exactly if they lie past a recorded end |
| HiddenDamage.MutationHides | actingweb/property_list.py:3333-3385 | for each of the four changes to format 1 rows, the exact condition on rows, length, name, limit and arguments under which a list that may not be migrated becomes one that may |
| HiddenDamage.InsertHides | actingweb/property_list.py:2078-2123 | for insert: it overwrites the row past the end, parts two equal neighbours, or takes the row past the end in for a missing last one |
| HiddenDamage.SetHides | actingweb/property_list.py:1362-1383 | for assignment: it fills the only hole or changes one of two equal neighbours |
| HiddenDamage.DeleteHides | actingweb/property_list.py:1420-1467 | for deletion: it closes the only hole, removes one of two equal neighbours, or brings the list down to the limit |
| HiddenDamage.AppendCanHide | actingweb/property_list.py:1535-1572 | a concrete damaged list whose damage an append hides |
| HiddenDamage.InsertCanHide | actingweb/property_list.py:2078-2123 | a concrete damaged list whose damage an insert hides |
| HiddenDamage.SetCanHide | actingweb/property_list.py:1362-1383 | a concrete damaged list whose damage an assignment hides |
| HiddenDamage.DeleteCanHide | actingweb/property_list.py:1420-1467 | a concrete damaged list whose damage a deletion hides |
| Shift.ShiftDown | actingweb/property_list.py:1428-1467 | rows above the deleted one, holes included, end one lower; after every single write each other item is still in a row of its own |
| Shift.ShiftUp | actingweb/property_list.py:2090-2123 | occupied rows end one higher with the item in the gap; after every single write every item is still in a row of its own |
| Shift.ShiftDownDeletes | actingweb/property_list.py:1410-1467 | on a list without holes the loop is sequence deletion |
| Shift.ShiftUpInserts | actingweb/property_list.py:2068-2123 | on a list without holes the loop is sequence insertion |
| Shift.HolesShiftByOne | actingweb/property_list.py:1428-1467 | a hole above the deleted row is afterwards exactly one lower, and no other appears |
| Shift.InsertNeedsNoHoles | actingweb/property_list.py:2090-2123 | insertion moves every row up if and only if no hole in the moved stretch lies below an occupied row |
| Migration.Verify | actingweb/property_list.py:2739-2802 | the report lists exactly the missing indices, the rows past the end, the equal neighbours and the number of rows of the other format |
| Migration.CleanMeansDense | actingweb/property_list.py:2739-2802 | no missing index and no orphan if and only if the rows are exactly those below the stored length |
| Migration.SweepForeign | actingweb/property_list.py:1703-1757 | exactly the rows of the format the list is not in are deleted, none when the flag says it never changed, and every state on the way is safe |
| Migration.MigrateToV2 | actingweb/property_list.py:3136-3312 | refuses exactly the documented cases; a complete run leaves the current items in order, format 2 and no old row; every state passed through is one of the safe ones |
| Migration.CopyAndFlip | actingweb/property_list.py:3163-3306 | the row writes themselves: before the flip only scratch rows change, after it only old rows go |
| Migration.StoppedMigrationReads | actingweb/property_list.py:3196-3306 | in every state a migration can be stopped in the list reads as before it started, and a healthy list stays healthy |
| Migration.FreshRowsRead | actingweb/property_list.py:3214-3226 | the copied rows read back as the values in order |
| Migration.RollBack | actingweb/property_list.py:3246-3282 | the rollback deletes exactly the rows that still hold what the migration wrote under their ranks |
| Migration.SuccessorIsSpared | actingweb/property_list.py:3250-3282 | of a successor list built by appends, the rollback deletes exactly the items equal to the migrated item at the same position |
| Migration.AppendsAreFresh | actingweb/property_list.py:3250-3282 | a list that starts empty and is only appended to has the keys a migration generates |
| Rebalance.FindRank | actingweb/property_list.py:2849-2893 | succeeds if and only if one of the candidates, the target and its successive bisections, is no other item's rank, and then finds the first of them |
| Rebalance.NineCandidates | actingweb/property_list.py:74-74 | there are nine candidates |
| Rebalance.EightOthersLeaveRoom | actingweb/property_list.py:2863-2892 | the nine candidates are distinct and in their slot, so a slot holding at most eight other items' ranks has room for its item |
| Rebalance.UncrowdedIsPlaceable | actingweb/property_list.py:2849-2892 | a list none of whose slots holds more than eight other items' ranks can be rebalanced |
| Rebalance.TenCanStorm | actingweb/property_list.py:2863-2881 | the bound is tight: with any key library some list of ten items cannot be rebalanced |
| Rebalance.RebalanceRows | actingweb/property_list.py:2849-2909 | returns normally if and only if every row has such a candidate; then the same sequence under the first free candidates; after every write, and after a storm, every item is still there in order; nothing is written when every row has its target rank |
| Rebalance.RebalanceConverges | actingweb/property_list.py:2804-2909 | after one normal run a second is never stopped and gives every item its target rank; the first already does exactly if no target was another item's rank |
| Rebalance.DropOld | actingweb/property_list.py:2893-2909 | deleting the superseded rows leaves exactly the new ranks and items, complete at each step |
| Rebalance.WrittenAscends | actingweb/property_list.py:2862-2893 | one rank per slot is ascending whatever the retries chose |
| PropertyList.ListProperty.LoadMetadata | actingweb/property_list.py:579-637 | answers the stored metadata, or a fresh default for a list that may be created, or refuses; the cache then agrees with storage |
| PropertyList.ListProperty.SaveMetadata | actingweb/property_list.py:694-936 | the merge lands on the stored row whatever an earlier call stashed, an absent row is created or skipped as asked, item rows are untouched |
| PropertyList.ListProperty.EnsureRankCache | actingweb/property_list.py:454-472 | a warm or forced cache is the sorted stored ranks |
| PropertyList.ListProperty.LastRank | actingweb/property_list.py:474-518 | the greatest stored rank of the list, and no stale cache entry |
| PropertyList.ListProperty.TouchMetadata | actingweb/property_list.py:1251-1321 | after a committed row change the hint is exact if it was behind by exactly that change, and a list is complete once its row exists |
| PropertyList.ListProperty.ListLength | actingweb/property_list.py:1165-1172 | the number of items the list claims, which is its length unless it has holes |
| PropertyList.ListProperty.ReadAll | actingweb/property_list.py:520-555 | the items in order in either format, or a corruption error exactly if one is missing |
| PropertyList.ListProperty.GetItem | actingweb/property_list.py:1174-1249 | indexing as a Python list; out of range, missing and refused are three different errors |
| PropertyList.ListProperty.Slice | actingweb/property_list.py:1888-1928 | slicing as documented in either format; an error exactly if a row within the bounds is missing |
| PropertyList.ListProperty.IndexOf | actingweb/property_list.py:2190-2238 | the first match between normalised bounds; a missing row before it is an error |
| PropertyList.ListProperty.AppendV2 | actingweb/property_list.py:1481-1533 | one more item at the end, under the key after the last rank; refused, with nothing changed, exactly when the key after the last rank is over the cap; caches and hint stay exact |
| PropertyList.ListProperty.ExtendV2 | actingweb/property_list.py:1574-1634 | the items before the first key over the cap land, all of them exactly if there is no such key; an exact hint stays exact if and only if no key is over the cap or the first one is |
| PropertyList.ListProperty.InsertV2 | actingweb/property_list.py:2034-2066 | Python insertion, under the key between the neighbours; refused, with nothing changed, exactly when the key between the neighbours is over the cap |
| PropertyList.ListProperty.SetItemV2 | actingweb/property_list.py:1323-1347 | Python assignment, hint re-established |
| PropertyList.ListProperty.DelItemV2 | actingweb/property_list.py:1385-1408 | Python deletion, cache edited in place |
| PropertyList.ListProperty.PopV2 | actingweb/property_list.py:1955-2004 | the item returned is the item removed; an error changes nothing |
| PropertyList.ListProperty.RemoveV2 | actingweb/property_list.py:2125-2170 | the first match goes, or an error and no change |
| PropertyList.ListProperty.DeleteByHandle | actingweb/property_list.py:2338-2378 | true exactly if the handle is current, and then its own position is deleted; a stale handle changes nothing, a format 1 list is refused |
| PropertyList.ListProperty.UpdateByHandle | actingweb/property_list.py:2380-2407 | true exactly if the handle is current, and then its own position is overwritten, ranks unchanged; a stale handle changes nothing |
| PropertyList.ListProperty.RemoveWhereV2 | actingweb/property_list.py:2442-2455 | exactly the matches, or the first one, are removed, and returned in the order in which they went |
| PropertyList.ListProperty.UpdateWhereV2 | actingweb/property_list.py:2475-2523 | exactly the matches, or the first one, are replaced, and the old values returned |
| PropertyList.ListProperty.AppendV1 | actingweb/property_list.py:1549-1572 | the row at the recorded end is written and the length grows, holes or not; Python append on a list without holes |
| PropertyList.ListProperty.InsertV1 | actingweb/property_list.py:2078-2123 | the shift loop on any format 1 list, holes included; Python insertion on a list without holes |
| PropertyList.ListProperty.SetItemV1 | actingweb/property_list.py:1362-1383 | Python assignment on index rows; fills a hole |
| PropertyList.ListProperty.DelItemV1 | actingweb/property_list.py:1420-1467 | the shift loop on any format 1 list, holes moving down; Python deletion on a list without holes |
| PropertyList.ListProperty.Migrate | actingweb/property_list.py:3136-3312 | ValueError exactly for an absent list whose name is taken, refused exactly for a name with a hash or a damaged list without permission; otherwise format 2 with the same readable items; every state passed through is safe |
| PropertyList.ListProperty.MaybeLazyMigrate | actingweb/property_list.py:3314-3386 | migrates exactly the short, undamaged format 1 lists without equal neighbours; the list reads the same before and after |
| PropertyList.ListProperty.Append | actingweb/property_list.py:1535-1572 | Python append in either format at any lazy-migration limit; the rank cap is answered exactly when the next key is too long; on a damaged list, what happens to its rows |
| PropertyList.ListProperty.Extend | actingweb/property_list.py:1636-1652 | Python extend in either format; at the cap, the prefix before the first key that is too long; on a damaged format 1 list, the appends one by one |
| PropertyList.ListProperty.Insert | actingweb/property_list.py:2068-2123 | Python insert in either format; the rank cap is answered exactly when the key between the neighbours is too long; on a damaged list, what happens to its rows |
| PropertyList.ListProperty.SetItem | actingweb/property_list.py:1349-1383 | Python assignment in either format; index error exactly out of range, damaged or not |
| PropertyList.ListProperty.DelItem | actingweb/property_list.py:1410-1467 | Python deletion in either format; index error exactly out of range; on a damaged list, what happens to its rows |
| PropertyList.ListProperty.Pop | actingweb/property_list.py:2006-2032 | Python pop in either format; a missing row is an error that changes and repairs nothing |
| PropertyList.ListProperty.Remove | actingweb/property_list.py:2172-2187 | Python remove in either format; a missing row before the first match is an error that changes and repairs nothing |
| PropertyList.ListProperty.RemoveWhere | actingweb/property_list.py:2409-2473 | removal by condition in either format, and the order in which the rows went; a list with a missing row is an error and stays as it was |
| PropertyList.ListProperty.UpdateWhere | actingweb/property_list.py:2475-2523 | replacement by condition in either format; a list with a missing row is an error and stays as it was |
| PropertyList.ListProperty.Clear | actingweb/property_list.py:1759-1801 | from any state the list is empty, and the rows left are exactly those clear does not reach |
| PropertyList.ListProperty.Delete | actingweb/property_list.py:1803-1855 | from any state the metadata row is gone, and the rows left are exactly those delete does not reach; none after a second delete |
| PropertyList.ListProperty.SetDescription | actingweb/property_list.py:1104-1106 | only the named field and the time stamp change |
| PropertyList.ListProperty.CompactV2 | actingweb/property_list.py:2804-2909 | succeeds if and only if every row has a free candidate; then the same items under those ranks and an exact hint whatever the drift; a collision storm loses nothing; rows at their targets are not touched |
| PropertyList.ListProperty.CompactTwice | actingweb/property_list.py:2804-2909 | repeated compaction converges: if the first run is not stopped the second is not either, and every item then has its evenly spaced rank |
| PropertyList.ListProperty.PrimeFromRows | actingweb/property_list.py:1011-1054 | on a full current dump both caches become what storage holds |
| PropertyList.ListProperty.ToListFromRows | actingweb/property_list.py:1056-1096 | reading the dump is reading row by row in both formats, missing rows included |
| PropertyList.StoppedMigrationOutlivesDelete | actingweb/property_list.py:1740-1757 | a concrete history in which the flag is wrong and a deleted list's item comes back |
| Runs.Do | actingweb/property_list.py:1323-2523 | any one call on any undamaged list is the Python list's call; the rank cap is answered if and only if it needs a key over the cap |
| Runs.RunAll | actingweb/property_list.py:1323-2523 | representation independence: any sequence of calls, at any limits and with any hint drift, answers and ends as the plain list; it stops early only at a call that, on the list then reached, needs a key over the cap |
| Runs.CrashingAttempt | actingweb/property_list.py:3136-3312 | an attempt stopped at any row write leaves a healthy list with the same content |
| Runs.Survive | actingweb/property_list.py:3136-3312 | any number of stopped attempts with calls between them, then one complete run, ends in format 2 with exactly the current items; it stops early only at a call that needs a key over the cap |
| Runs.StoppedAfterFlip | actingweb/property_list.py:3283-3306 | a migration stopped at any write after its flip leaves an exact, healthy list |
| Runs.LifeCycle | actingweb/property_list.py:1740-1855 | through calls, migrations, clearing, deletion and re-creation the skipped sweeps stay justified and the hint exact; it stops early only at a call that needs a key over the cap |
| Repair.ToList | actingweb/property_list.py:1857-1886 | the whole list, or the first missing index |
| Repair.VerifyAgreesWithRead | actingweb/property_list.py:2739-2802 | no missing index is reported if and only if the list can be read, and the first reported is where reading fails |
| Repair.ReadableSpec | actingweb/property_list.py:3005-3030 | the readable items are those of all rows below the length, in index order |
| Repair.Densify | actingweb/property_list.py:3010-3040 | the rewrite yields exactly rows 0 to n-1 in order; after every write each readable item is in a row of its own |
| Repair.Compact | actingweb/property_list.py:2911-3043 | refuses exactly the reverted-looking lists; otherwise the readable items in order, duplicates kept, with the true length |
| Repair.CompactThenVerify | actingweb/property_list.py:2739-3043 | verifying what compact leaves reports no damage, the readable items' number as length, and as suspicious exactly the equal neighbours among them |
| RowNames.RenderInjective | actingweb/property_list.py:347-353 | a row name determines its list and its place, whatever the names contain |
| RowNames.Isolation1 | actingweb/property_list.py:1670-1701 | the format 1 range with its digit filter selects exactly the named list's own rows |
| RowNames.Isolation2 | actingweb/property_list.py:154-164 | the format 2 range with its rank filter selects exactly the named list's own rows |
| RowNames.Own2Is | actingweb/property_list.py:1654-1668 | the range query and the filter on a whole dump select the same rows |
| RowNames.MetaNamesInvert | actingweb/property.py:31-52 | exactly the metadata rows look like metadata rows, and cutting the fixed parts gives the name back |
| RowNames.GreatestRowIsLastRank | actingweb/property_list.py:474-518 | a rank-shaped greatest row of the byte range is the list's greatest rank, whatever else the range holds |
| TableSlices.WriteIsLocal | actingweb/property_list.py:443-452 | writing a row changes its own list in that place and no other list |
| TableSlices.DeleteIsLocal | actingweb/property_list.py:443-452 | deleting a row likewise |
| TableSlices.RangeDeleteIsLocal | actingweb/property_list.py:1654-1701 | deleting what a range read selected empties that range of that list only |
| TableSlices.PlainWriteIsInvisible | actingweb/property.py:106-129 | a plain property is in no list |
| TableSlices.ListAllIsComplete | actingweb/property.py:31-88 | the names listed are exactly those of lists with a metadata row |
| TableSlices.LastRank | actingweb/property_list.py:474-518 | one greatest-row read over the shared byte range, or the full read it falls back to, gives the greatest rank of the list's slice |
| Conservation.CallerStep | actingweb/property_list.py:1481-2473 | each row operation of each kind of caller creates under a free key, deletes what it will report, or leaves the items alone |
| Conservation.Conserved | actingweb/property_list.py:1481-2473 | in every interleaving stored plus removed equals initial plus added, and each answer is exactly what that caller did |
| Conservation.NoOverwrite | actingweb/property_list.py:2034-2066 | no step changes the value under another row's key |
| Conservation.HintConserved | actingweb/property_list.py:895-936 | at every moment the hint is behind the count by exactly the additions not yet touched, given up on, or capped |
| Conservation.CappedIsUnrecorded | actingweb/property_list.py:1600-1634 | a capped extend has recorded none of the prefix it added |
| Alone.AloneIsSequential | actingweb/property_list.py:1481-2473 | from whatever state others have left, a caller that moves alone (append, extend, insert, pop, remove, remove_where) makes the plain list's call: same list, same answer, an exact hint stays exact; the rank cap stops it exactly behind the items before the first key that is too long |
| Alone.HandleIsSequential | actingweb/property_list.py:2338-2378 | alone, a deletion by handle succeeds exactly if the handle is current |
| Alone.PopTakesTheIndexed | actingweb/property_list.py:1955-2004 | in every interleaving, the item a pop answers was in the row it removed, and that row stood at its index, or that many from the end, at its last range read |
| Interleaving.StepIsPatient | actingweb/property_list.py:1495-1533 | every lost race is counted, contention is answered exactly after the eighth and a touch given up after the third |
| Interleaving.RunIsPatient | actingweb/property_list.py:1495-1533 | no caller of any run tries a row more than eight times or a touch more than three times |
| Interleaving.RunKeepsRest | actingweb/property_list.py:895-936 | touches change nothing of the metadata but the hint and the time stamp |
| Linear.AppendsLinearize | actingweb/property_list.py:1481-1533 | append-only: at every moment the list is the initial one followed by the created items in creation order, under consecutive keys |
| Linear.OwnOrderKept | actingweb/property_list.py:1574-1634 | each caller's created items are a prefix of its own in order, and all of them once it returned normally |
| Linear.GrowsAtEnd | actingweb/property_list.py:1481-1634 | the list only grows, and only at its end |
| MetadataCas.FormatRevertsExactly | actingweb/property_list.py:938-993 | the one kind of step that takes format 2 away is the reset of a clear that dispatched before the flip |
| MetadataCas.FormatNeverReverts | actingweb/property_list.py:787-936 | with any stale stashes and any flips, stored format 2 stays and no stale length is put over it |
| MetadataCas.PlainMetaRoundTrips | actingweb/property_list.py:787-936 | the round trip assumed of metadata text is met by a concrete text form |
| MetadataCas.RowIsReplay | actingweb/property_list.py:787-936 | without migration or clear, the row is the returned savers' merges applied in the order they landed, each once |
| MetadataCas.LastNamingDecides | actingweb/property_list.py:889-909 | a field holds what the last merge that named it wrote; other merges leave it alone |
| MetadataCas.NamedFieldSurvives | actingweb/property_list.py:694-712 | in a run, a field some saver named and no later one renamed reads back as that saver wrote it |
| MetadataCas.DeltasAddUp | actingweb/property_list.py:895-899 | relative count changes of concurrent additions all arrive |
| MetadataCas.LengthsAddUp | actingweb/property_list.py:900-903 | so do the length changes of format 1 |
| ListModel.MergeCounts | actingweb/property_list.py:889-903 | relative changes add up and stop at zero; a length is never written over format 2 |
| MetadataCas.LoneSaverSaves | actingweb/property_list.py:787-936 | a saver that nobody interferes with merges what it names into what is stored, and returns |
| MetadataCas.AttemptsAreBounded | actingweb/property_list.py:780-936 | no saver of any run tries more than six times, an advisory one more than three times |
| MetadataCas.ContentionMeansProgress | actingweb/property_list.py:780-936 | a saver that gives up was overtaken since it started by at least six merges of others, three for an advisory touch, one less if it started with a stash |
| MetadataCas.FlipDropsTheGap | actingweb/property_list.py:3228-3292 | in every run with one migration among savers the row is the flip of the merges landed before its read, followed by those landed after its write |
| MetadataCas.GapIsDropped | actingweb/property_list.py:3283-3292 | every field the flip does not write reads as if the merges in between had never been made, and the others all had |
| MetadataCas.FlipDropsASave | actingweb/property_list.py:3228-3292 | a concrete schedule: a save between a migration's read and its flip returns normally and is lost |
| MetadataCas.ClearRevertsAFlip | actingweb/property_list.py:1759-1801 | a clear that dispatched before a flip puts format 1 back |
| ReorderBuffer.SortIsStable | actingweb/callback_processor.py:236-251 | queueing orders by number, loses nothing and keeps arrival order among equals |
| ReorderBuffer.CallbackProcessor.CheckGapTimeout | actingweb/callback_processor.py:265-271 | late exactly if some queued callback has waited longer than the limit |
| ReorderBuffer.CallbackProcessor.AddPending | actingweb/callback_processor.py:236-251 | refuses exactly at the bound, otherwise queues |
| ReorderBuffer.CallbackProcessor.Drain | actingweb/callback_processor.py:644-665 | ends, having collected the callback and the longest consecutive run behind it, first arrivals first, and removed exactly those numbers |
| ReorderBuffer.CallbackProcessor.HandleResync | actingweb/callback_processor.py:709-749 | the queue is emptied, the sequence becomes the resync's |
| ReorderBuffer.CallbackProcessor.ProcessDiff | actingweb/callback_processor.py:586-707 | duplicate, pending, rejected, timed out or processed, each with its whole new state |
| ReorderBuffer.CallbackProcessor.ProcessCallback | actingweb/callback_processor.py:552-749 | one call is one transition of the reorder buffer |
| Epochs.RunsAreBuffered | actingweb/callback_processor.py:586-707 | in every reachable state of every run, since the last reset the handler has seen exactly the longest gap-free run of the arrivals, once each, in order, and the queue holds exactly the rest |
| Epochs.QueueBound | actingweb/callback_processor.py:236-271 | every queued number is at least two past the last, and the queue never exceeds its bound |
| Epochs.HandledAreConsecutive | actingweb/callback_processor.py:676-702 | within an epoch the handled numbers are consecutive |
| Epochs.OrderDoesNotMatter | actingweb/callback_processor.py:586-707 | sequence, handler calls and queue depend on what arrived, not on the order in which different numbers arrived |
| Epochs.DuplicateMeansSettled | actingweb/callback_processor.py:586-621 | in every run a callback is a duplicate if and only if its number is settled in the epoch in which it arrives |
| Epochs.SettledIs | actingweb/callback_processor.py:586-707 | settled are the numbers up to what the last reset left and those handled since, no others |
| Epochs.QueueIs | actingweb/callback_processor.py:236-251 | the queue is what has arrived beyond the settled numbers, sorted |
| Epochs.AnswerMeans | actingweb/callback_processor.py:586-637 | every answer of every run in terms of what has arrived and the clock: exactly when a callback is a duplicate, processed, queued, rejected, or triggers a resync |
| Epochs.HandledStaysHandled | actingweb/callback_processor.py:586-707 | a number once handled is a duplicate whenever it arrives again, at any later point, up to the next reset |
| Epochs.TimeoutForgets | actingweb/callback_processor.py:609-621 | a concrete run in which number 1 is handled twice, with a gap timeout in between |
| Epochs.RedeliveryIsDuplicate | actingweb/callback_processor.py:586-600 | a processed callback that arrives again right away is a duplicate if and only if there is a subscription record |
| Epochs.WithoutRecord | actingweb/callback_processor.py:96-172 | without a record, number 1 is handled, lower numbers are duplicates, and nothing else is handled or recorded |
| Epochs.NoRecordRuns | actingweb/callback_processor.py:96-172 | in every run without a record, exactly the arrivals of number 1 are handled |
| Epochs.NoRecordRepeats | actingweb/callback_processor.py:96-117 | a concrete run: number 1 is handled twice in a row |
| AttributeList.ListAttribute.SetItem | actingweb/attribute_list.py:258-284 | Python assignment; the list stays whole if and only if the value is truthy or the index was refused |
| AttributeList.ListAttribute.DelItem | actingweb/attribute_list.py:286-389 | rows above move down with their holes on any list; after every write each other item is in a row; Python deletion on a whole list |
| AttributeList.ListAttribute.Append | actingweb/attribute_list.py:395-417 | Python append; the list stays whole if and only if the item is truthy |
| AttributeList.ListAttribute.Extend | actingweb/attribute_list.py:419-422 | Python extend; the list stays whole if and only if every item is truthy |
| AttributeList.ListAttribute.Insert | actingweb/attribute_list.py:543-641 | Python insert, whole if and only if the item is truthy; every other row ends in its place either way; after every write every old item is in a row |
| AttributeList.ListAttribute.GetItem | actingweb/attribute_list.py:223-256 | the row, or an index error when out of range or missing |
| AttributeList.ListAttribute.ToList | actingweb/attribute_list.py:473-492 | the whole list, or an error exactly when a row below the length is missing |
| AttributeList.ListAttribute.Slice | actingweb/attribute_list.py:494-529 | the documented slice |
| AttributeList.ListAttribute.Pop | actingweb/attribute_list.py:531-541 | Python pop |
| AttributeList.ListAttribute.Remove | actingweb/attribute_list.py:643-649 | Python remove of the first match; a missing row before it is an index error and changes nothing |
| AttributeList.ListAttribute.Clear | actingweb/attribute_list.py:424-444 | empty, and no row left |
| AttributeList.ListAttribute.Delete | actingweb/attribute_list.py:446-471 | neither rows nor metadata left |
| AttributeList.ExtendKeepsDense | actingweb/attribute_list.py:419-422 | a falsy item anywhere in an extend leaves a hole that the later appends do not fill |
| AttributeList.AppendKeepsDense | actingweb/attribute_list.py:395-417 | writing the next row keeps the list whole exactly for a truthy item |
| AttributeList.InsertEnds | actingweb/attribute_list.py:602-641 | the last write of an insert loses no old item, and leaves a hole exactly for a falsy one |
| AttributeList.RunAll | actingweb/attribute_list.py:223-649 | any run that stores truthy items answers and ends as a plain Python list |
| RefreshTokens.SingleRotation | actingweb/oauth_session.py:535-631 | in every interleaving at most one call succeeds for a token |
| RefreshTokens.SpentForever | actingweb/oauth_session.py:497-631 | a consumed or removed token is never again stored unconsumed, late re-stamps and marks included |
| RefreshTokens.AnswersAreHonest | actingweb/oauth_session.py:538-556 | data in an answer is the token as issued, but consumed; a winner read it before it expired |
| RefreshTokens.RefusedMeansWon | actingweb/oauth_session.py:589-631 | while nothing removes or marks a token, a caller that is refused for whatever reason was beaten by one that succeeds |
| RefreshTokens.NoDataMeansMissed | actingweb/oauth_session.py:571-586 | "absent or expired" is only answered if the token was not stored or had expired when that caller looked |
| RefreshTokens.GoodTokenRotates | actingweb/oauth_session.py:571-618 | a caller that moves alone rotates every stored, unused token that has not expired, and answers and stores it as issued but consumed |
| RefreshTokens.IssuedTokenRotates | actingweb/oauth_session.py:409-618 | a token is good from its issue to the end of its lifetime |
| RefreshTokens.MarkConsumes | actingweb/oauth_session.py:497-533 | a mark that moves alone says whether the token was stored, and consumes it |
| RefreshTokens.StepIsGood | actingweb/oauth_session.py:409-665 | every step of callers, issue, revocation, clean-up and expiry keeps the whole invariant |
| Globs.TranslationCompiles | actingweb/permission_evaluator.py:635-645 | every pattern's translated text is a valid expression of one atom per character: nothing in a pattern acts as an operator |
| Globs.RegexMatchIs | actingweb/permission_evaluator.py:604-645 | for every pattern and text, the exact set the expression matches, newlines included |
| Globs.RegexIsGlob | actingweb/permission_evaluator.py:604-645 | on a text without newlines the expression is the inductive glob |
| Globs.AgreeOnLines | actingweb/permission_evaluator.py:604-645 | expressions and globs agree on a text for every pattern if and only if it has no newline |
| Globs.NewlinesDiffer | actingweb/permission_evaluator.py:635-645 | one input for each direction in which they differ |
| Globs.GlobItself | actingweb/permission_evaluator.py:614-618 | every pattern matches itself, so the exact-match shortcut changes nothing |
| Globs.FinalStar | actingweb/permission_evaluator.py:604-613 | a final star matches exactly the continuations of what the rest matches |
| Permissions.MatchesIsCovers | actingweb/permission_evaluator.py:604-633 | the shortcuts and the expression together are the glob or the scheme prefix |
| Permissions.CoveredOnLines | actingweb/permission_evaluator.py:604-633 | matching and covering agree on a target for every pattern if and only if it has no newline |
| Permissions.PermissionEvaluator.MatchesPattern | actingweb/permission_evaluator.py:604-633 | the answer does not depend on what the cache holds, and the cache stays right |
| Permissions.PermissionEvaluator.MatchesAnyPattern | actingweb/permission_evaluator.py:590-602 | true exactly if some pattern matches |
| Permissions.PermissionEvaluator.EvaluateRules | actingweb/permission_evaluator.py:489-588 | the decision is a function of rules, target and operation alone |
| Permissions.PermissionEvaluator.EvaluatePermission | actingweb/permission_evaluator.py:68-120 | missing permissions or rules are no decision, otherwise the rules' decision |
| Permissions.PermissionEvaluator.EvaluateBulk | actingweb/permission_evaluator.py:145-224 | one entry per path, each the single evaluation on the same snapshot |
| Permissions.AllowedMeans | actingweb/permission_evaluator.py:520-588 | exactly when a target is allowed, in terms of what patterns stand for |
| Permissions.NotFoundMeans | actingweb/permission_evaluator.py:564-588 | exactly when there is no decision |
| Permissions.AllowedGrows | actingweb/permission_evaluator.py:520-588 | what is allowed stays allowed with more allowed, patterns and operations and less denied and excluded |
| Permissions.OnlyTheSetsMatter | actingweb/trust_permissions.py:683-686 | order and repetition within the lists do not change what is allowed |
| Permissions.ExclusionsSurvive | actingweb/trust_permissions.py:635-657 | an override cannot take a base exclusion away except through the allowed list |
| Permissions.AddedPatternsOnlyGrant | actingweb/trust_permissions.py:635-657 | an override that only adds patterns takes nothing away |
| Permissions.MergedMeans | actingweb/trust_permissions.py:622-695 | exactly what is allowed after an override, in terms of both sides |
| DiffLevels.RelevelSendsWhatIsOwed | actingweb/actor.py:2771-2852 | all five branches send the part of the change, put where it belongs, that the subscription watches; nothing is sent exactly if there is no such part |
| DiffLevels.LevelsAgree | actingweb/actor.py:2771-2852 | what a higher subscription gets contains exactly what a lower one gets |
| DiffLevels.PartOfNest | actingweb/actor.py:2802-2817 | wrapping a change and cutting it again gives it back |
| DiffLevels.Actor.RegisterDiffs | actingweb/actor.py:2679-2873 | every subscription gets what it is owed under its next number, the others and a suspended target nothing; stored diffs stay numbered 1 to the sequence without gaps |
| JsonText.PrintEnds | actingweb/actor.py:2771-2852 | a compact JSON text has one reading: the value it starts with and the rest |
| JsonText.PlainJsonRoundTrips | actingweb/actor.py:2771-2852 | the round trip assumed of the JSON library is met by a concrete text form |

## Left out

- Storage backends: row operations are atomic and succeed; write faults, read consistency and timeouts are not modelled, except that a crash may follow any row write.
- The fractional key library beyond its contract, and JSON beyond an exact round trip (a number is known by its text; white space, escapes and key order of the text are not those of Python); metadata that is not a JSON object, and numbers stored as text in metadata.
- PropertyList.ListProperty.SaveMetadata: one instance, so at most one retry happens; the bounded retries under contention are in MetadataCas and Interleaving.
- PropertyList.ListProperty.AppendV2: a collision cannot happen without a concurrent writer, so the create succeeds at once; the collision retries are in Interleaving and Linear. The same holds of ExtendV2, InsertV2, PopV2 and RemoveV2.
- PropertyList.ListProperty.PopV2: a list that has no metadata and may not be created under its name has no format 2 rows; on leftover rows there, the row goes before the ValueError of the metadata write. The same holds of the other calls that change a format 2 row.
- PropertyList.ListProperty.UpdateByHandle: one instance; among concurrent callers only deletion by handle is modelled, in Conservation.
- Runs.RunAll: undamaged lists, like every member of Runs; what a call does to a damaged format 1 list is in its own contract.
- PropertyList.ListProperty.MaybeLazyMigrate: the failure of a lazy migration is not modelled, since writes succeed.
- PropertyList.ListProperty.Migrate: a list deleted while it is being copied is not modelled in the whole run; the rollback that follows is Migration.RollBack.
- Migration.MigrateToV2: the second format check before the first destructive write never fires without a concurrent migration, and is not modelled.
- Migration.CopyAndFlip: the metadata row is there at the flip; the branch for a vanished row is Migration.RollBack.
- Migration.RollBack: the rows a concurrent deleter or a successor left are an arbitrary starting state; their writes do not interleave with the rollback.
- Conservation.HintConserved: additions only; with concurrent deletions a retried absolute count or the clamp at zero can land after another writer's delta, and no such equation holds.
- Conservation.Conserved: concurrent assignment by index and update by handle or condition, which replace values, are not among the callers.
- MetadataCas.FormatNeverReverts: the metadata row exists throughout; racing first creations and deletion are unconditional writes and not modelled.
- The believed-format warning, log output, back-off sleeps and jitter.
- Duplicate detection by identity field, `find`, `find_all`, `count` and iteration: reads that add nothing to the ones proved.
- ReorderBuffer.CallbackProcessor.ProcessDiff: one callback at a time per subscription, so the version check never fails and no retry is needed; concurrent callbacks are not modelled. A handler is always given, and its exceptions are swallowed, so a handler call counts as seen.
- ReorderBuffer.CallbackProcessor.ProcessCallback: permission callbacks bypass the buffer and are left out.
- The attribute list's `index` and `count`, and attribute-list metadata of an invalid shape.
- RefreshTokens.SingleRotation: spurious failures of the backend's compare-and-swap are not modelled; token names are assumed never to repeat. Access tokens and the grace window of the token endpoint are left out.
- Permissions.MergedMeans: one category on both sides with the default `merge_base`; with `merge_base=False` every list of the override stands in for that of the base.
- Permissions.PermissionEvaluator.EvaluatePermission: the effective permissions are an input; trust lookup, and the denial on an evaluation exception, are left out.
- DiffLevels.Actor.RegisterDiffs: places name a resource only below a subtarget; storing a diff always succeeds, and the callback itself is left out.
- Circuit breakers, tombstones, ticket stores, purge throttles, HTTP, trust handshakes, OAuth providers and peer caches: input/output, or true but easy.
