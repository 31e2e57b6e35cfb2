# Sync-committee duty check, modelled in Dafny

This project models the sync-committee duty check of the validator monitor.
The check is `SyncService.check` together with
`getSyncCommitteeIndexedValidators` in `src/duty/sync/sync.service.ts`.
For one epoch, a pass does the following:

1. It walks the slot window `[epoch * N, epoch * N + N)`, where `N` is
   `FETCH_INTERVAL_SLOTS`. Each slot's block goes on the produced-block list;
   a slot with no block goes on the missed list.
2. It numbers the sync-committee roster by position.
3. It decodes every produced block's sync-aggregate bit field.
4. For each committee member, in roster order:
   - It keeps the produced blocks whose bit at the member's committee index
     is set.
   - It updates the member's summary record for the epoch. A record that
     is not yet synced is replaced by one holding this pass alone. A synced
     record gets a new `sync_meta` entry appended and `sync_percent`
     recomputed. The model reads a validator with no record as not synced
     (see "## Left out").
5. It overwrites the epoch's sync meta with the produced blocks' slots.

The model is functional:
- The consensus client is a total function from slot to an optional block.
  `None` is a missed slot.
- The roster is a given sequence of validator indices.
- The epoch's summary store is a value: a map from validator index to
  record, plus the epoch meta. A pass returns the store updated, or the
  decode error that stopped it.
- Percentages are exact `real`s.

The modules follow the steps of the pass:
- `SyncTypes` (`sync_types.dfy`): blocks, committee members, summary
  records, the epoch store, and the percentage.
- `EpochWindow` (`epoch_window.dfy`): the slot window, the produced/missed
  classification, and the scanning loop as a method.
- `Committee` (`committee.dfy`): the indexed roster.
- `Participation` (`participation.dfy`):
  - bit-field decoding;
  - the per-member synced-block filter;
  - one member's record update and its averaging rule.
- `SyncService` (`sync_service.dfy`):
  - the roster loop over the store;
  - the whole pass `Check`;
  - properties of the store after a pass.
- `SyncScenarios` (`scenarios.dfy`): a worked first pass, evaluated
  completely.

### Averaging, as the code does it

A record that is already synced gets its new percent in two steps:
- Each earlier `sync_meta` entry's length is taken as a percentage of the
  *current* pass's produced-block count.
- Those percentages and the new entry's are averaged.

So the stored value is `100 * (total synced slots over all entries) /
(current block count * number of entries)`. `ObservePercentPooled` states
this closed form.

This is not a mean of each pass's own percentage. Two worked
cases show the difference:
- `AveragingUsesCurrentCount`: one of three blocks, then none of two. A mean
  of each pass's own percentage would be 16.67; the code stores 25.
- `PercentCanExceedHundred`: an earlier entry longer than the current block
  count pushes the stored value past 100.

So the `[0, 100]` bound on `sync_percent` holds only under a premise: no
stored entry may be longer than the current pass's block count.
`PercentStaysInRange` and `CheckPercentInRange` state the bound in that
conditional form.

The code has no zero-block guard (its own to-do note at lines 42-44 asks
whether a pass can see no produced block). With a non-empty roster and no
produced block it divides zero by zero. So the model requires at least one
produced block wherever a percentage is computed, rather than inventing a
value.

## Model

| member | source | states |
|---|---|---|
| EpochWindow.Window | src/duty/sync/sync.service.ts:31-32 | The pass examines exactly `N` slots, and slot `i` is `epoch * N + i`. |
| EpochWindow.ScanWindow | src/duty/sync/sync.service.ts:29-39 | The scanning loop collects the blocks of the window in slot order. Produced plus missed count exactly `N`. The missed list is strictly increasing and holds exactly the window slots that have no block. |
| EpochWindow.ClassificationPartition | src/duty/sync/sync.service.ts:32-38 | Every examined slot lands in exactly one of the two lists. A slot with a block has that block collected and is not on the missed list; a slot without one is on the missed list. The two lists together are as long as the examined slots. |
| EpochWindow.MissedSpec | src/duty/sync/sync.service.ts:36-38 | A slot is on the missed list if and only if it was examined and the client had no block for it. Examining slots in increasing order keeps the missed list strictly increasing. |
| EpochWindow.Missed | src/duty/sync/sync.service.ts:36-38 | The missed list is never longer than the examined slots, and every slot on it is one the client had no block for. |
| EpochWindow.FetchedFromChain | src/duty/sync/sync.service.ts:33-35 | Every produced block is what the client returned for one of the examined slots, and every block the client returns for an examined slot is collected. |
| EpochWindow.FetchedSlots | src/duty/sync/sync.service.ts:32-35 | With a client that answers with the asked-for slot, a slot is among the produced blocks' slots if and only if it was examined and has a block, and those slots are increasing. |
| EpochWindow.MissedInWindow | src/duty/sync/sync.service.ts:31-38 | The missed list holds exactly the slots in `[epoch * N, epoch * N + N)` without a block. |
| Committee.IndexedValidators | src/duty/sync/sync.service.ts:99-107 | One member per roster entry. Member `i` has committee index `i`, validator index `roster[i]` and participation percent 0, and reading the validator indices back gives the roster. |
| Committee.CommitteeIndicesContiguous | src/duty/sync/sync.service.ts:101-106 | The committee indices are below the roster length and pairwise distinct. The members name exactly the roster's validators. |
| Participation.DecodeAll | src/duty/sync/sync.service.ts:45-50 | A successful decode yields one entry per produced block, and every entry's bit vector has exactly the committee size. |
| Participation.DecodeAllSpec | src/duty/sync/sync.service.ts:45-50 | Decoding succeeds if and only if every bit field has the committee size. Success yields one entry per block, with the block's slot and bits, in order. A failure names the first block whose field has the wrong size. |
| Participation.DecodeKeepsSlots | src/duty/sync/sync.service.ts:45-50 | The decoded list reports the same slots, in the same order, as the produced blocks. |
| Participation.SyncedBlocks | src/duty/sync/sync.service.ts:53-58 | A member's synced list is never longer than the list of produced blocks. |
| Participation.SyncedBlocksOrdered | src/duty/sync/sync.service.ts:53-58 | A member's synced slots are an order-preserving subsequence of the produced-block slots, no longer than the produced list. |
| Participation.SyncedBlocksMembers | src/duty/sync/sync.service.ts:53-58 | A slot is synced for a member if and only if some produced block has that slot and its bit at the member's committee index is set. |
| Participation.SumPercents | src/duty/sync/sync.service.ts:64-67 | The running sum of the earlier entries' percentages of the current block count is never negative. |
| Participation.SumPercentsPooled | src/duty/sync/sync.service.ts:64-67 | Summing every earlier entry's percentage of the current block count equals 100 times their pooled slot count over that block count. |
| Participation.ObserveMember | src/duty/sync/sync.service.ts:63-89 | The updated record carries the pass's epoch and validator and is marked synced. A synced record keeps its earlier meta entries unchanged in front, and the new entry goes last. Any other record restarts with the one new entry. |
| Participation.ObservePercentPooled | src/duty/sync/sync.service.ts:64-88 | In both branches the stored percent equals 100 times the total synced slots over all entries, divided by the current block count times the number of entries. |
| Participation.FirstObservation | src/duty/sync/sync.service.ts:81-88 | A record that is not synced (and, by the model's reading of the store, a missing one) becomes a single-entry meta, and its percent is this pass's own synced share. |
| Participation.ObservePercentInRange | src/duty/sync/sync.service.ts:63-88 | If neither an earlier entry nor the new one holds more slots than the current pass produced, the stored percent lies in `[0, 100]`. |
| Participation.PercentCanExceedHundred | src/duty/sync/sync.service.ts:64-78 | Without that premise the bound fails. Three synced slots then two of two stores 125. |
| Participation.AveragingUsesCurrentCount | src/duty/sync/sync.service.ts:64-78 | One of three blocks, then none of two, stores 25. The mean of the two passes' own percentages is not 25. |
| SyncTypes.Percent | src/duty/sync/sync.service.ts:86 | A pass's share is never negative, and it is at most 100 when no more slots were synced than blocks produced. |
| SyncTypes.PercentScale | src/duty/sync/sync.service.ts:86 | A pass's share is never negative. It is at most 100 if and only if no more slots were synced than produced. It is exactly 100 if and only if every produced block was synced. |
| SyncService.ObserveOneSpec | src/duty/sync/sync.service.ts:60-89 | One roster step writes only the member's key. The record is marked synced with the pass's epoch and the validator's index. Its latest entry lists slots of this pass's blocks, and a synced record's earlier meta is kept as a prefix. |
| SyncService.RosterKeys | src/duty/sync/sync.service.ts:52-90 | After the roster loop the store's keys are the old keys plus the roster's validators. Every record outside the roster is unchanged. |
| SyncService.RosterRecords | src/duty/sync/sync.service.ts:52-90 | After the roster loop every roster validator has a record. Each is marked synced for this epoch, and its latest entry lists only produced-block slots. |
| SyncService.RosterEntries | src/duty/sync/sync.service.ts:52-90 | Every entry the roster loop appends to a roster validator's record lists only slots of this pass's produced blocks. These are the entries after the meta of the record the pass started from, when that record was already synced. |
| SyncService.SyncedRecordsGrow | src/duty/sync/sync.service.ts:63-80 | A record that was synced before the pass stays synced, and its old meta remains a prefix of the new one. |
| SyncService.DistinctRoster | src/duty/sync/sync.service.ts:52-89 | When each validator is listed once, over any prior store, the record written for roster position `i` is one observation of the record the store held before the pass: that member's synced slots against the produced-block count. A synced record resumes with one more entry; an unsynced one, or a missing one read as unsynced, restarts. |
| SyncService.FreshRoster | src/duty/sync/sync.service.ts:52-89 | A corollary of `DistinctRoster`. When each validator is listed once and none has a record yet, every record written is the first-observation record for that member's synced slots. |
| SyncService.MetaGrowth | src/duty/sync/sync.service.ts:52-79 | A roster validator's meta grows by one entry per roster occurrence, on top of what an already synced record held. So a repeated validator sees the record its earlier occurrence wrote. |
| SyncService.PercentStaysInRange | src/duty/sync/sync.service.ts:52-90 | If no stored synced entry is longer than this pass's block count, that remains true after the loop, and every roster validator's percent lies in `[0, 100]`. |
| SyncService.CheckRejects | src/duty/sync/sync.service.ts:45-50 | A pass fails if and only if some produced block's bit field has the wrong size, and the error names the first such block. |
| SyncService.Check | src/duty/sync/sync.service.ts:24-97 | A successful pass sets the epoch meta to the slots of the blocks it collected from the window, in collection order. |
| SyncService.CheckWrites | src/duty/sync/sync.service.ts:52-96 | A successful pass replaces the epoch meta with the produced blocks' slots, adds exactly the roster's validators as keys, and leaves every other record unchanged. |
| SyncService.CheckRecords | src/duty/sync/sync.service.ts:52-96 | After a successful pass every roster validator's record is marked synced for the epoch. Every entry the pass appended to it, the latest included, lists only slots that the epoch meta names as produced. |
| SyncService.CheckResumes | src/duty/sync/sync.service.ts:24-97 | When the roster lists each validator once, a successful pass stores for roster position `i` one observation of the record the store held: the decoded blocks whose bit `i` is set, against the number of produced blocks. |
| SyncService.CheckPercentInRange | src/duty/sync/sync.service.ts:24-97 | Under the stored-entry premise, every roster validator's percent after a successful pass lies in `[0, 100]`. |
| SyncService.ProducedWindow | src/duty/sync/sync.service.ts:31-39 | With a client that answers with the asked-for slot, the produced-block slots stored as the epoch meta are strictly increasing. They are exactly the window's slots that have a block, and with the missed slots they make up all `N` slots. |
| SyncScenarios.ScenarioFirstPass | src/duty/sync/sync.service.ts:24-97 | A first pass of four members over four slots, with slot 2 missed, stores percents 100, 100/3, 200/3 and 100/3 and the epoch meta `[0, 1, 3]`. |

## Left out

- Network calls to the consensus client (`getBlockInfo`, `getSyncCommitteeInfo`) are inputs: a slot-to-block function and a roster sequence. Transport and other provider failures are not modelled; they abort the pass before anything is written.
- SSZ decoding of the hex bit field (`fromHexString`, `BitVectorType`) is not modelled. A block carries its bits unpacked, and decoding only checks the length against SYNC_COMMITTEE_SIZE. A wrong length becomes `DecodeError`. Hex parsing, bit order and padding are out of scope.
- SYNC_COMMITTEE_SIZE and FETCH_INTERVAL_SLOTS are parameters. `sync.constants` and the configuration service are not part of this model.
- Logging, Prometheus task tracking and dependency injection carry no logic and are not modelled. The `stateSlot` argument only reaches the roster call, which is itself an input.
- The asynchronous sequencing and concurrent passes over the same epoch are not modelled. A pass is one atomic function of the store.
- Floating point: percentages are exact reals, so IEEE rounding of the division and the running sum is not modelled.
- The summary store's persistence is not shown in the source. It is a map plus an epoch meta, and only the sync fields of a record are modelled. The synced branch's write omits `is_sync`, so it keeps the record's other fields, including `is_sync`.
- Participation.BitSet: a committee index past the end of the bit vector reads as unset. Decoding fixes the length at the committee size, so the case arises only if the client returns a roster longer than SYNC_COMMITTEE_SIZE. The protocol's committee has exactly that many members, but neither the code nor the model checks this.
- SyncService.Check: requires at least one produced block when the roster is non-empty. With none, the source computes 0 / 0 (NaN) and stores it; the model does not assign that case a value.
- Participation.ObserveMember: requires a positive block count, for the same reason.
- Participation.ObserveMember: assumes the store's `get` (`src/duty/sync/sync.service.ts`, line 61) returns a record for every roster validator, and reads a missing one (`Lookup` gives `None`) as a record that is not synced. The store's implementation is not part of this model. Line 63 reads `is_sync` on the result with no guard, so if `get` returned `undefined` the source would throw there. By then the earlier roster members' records are already written and the epoch meta is not. The model does not represent that failure or the partial writes it leaves; `ScenarioFirstPass`, `FreshRoster` and `FirstObservation` rely on this reading for missing validators.
- SyncService.CheckPercentInRange: proves the `[0, 100]` bound only under the premise that no stored entry is longer than the current block count. `PercentCanExceedHundred` shows the bound is false without it.
