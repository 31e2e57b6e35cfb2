/** `SyncService.check` (sync.service.ts:23-97): one pass over an epoch. The
    consensus client is a function from slot to optional block, the committee
    roster is a given sequence of validator indices, and the epoch's summary
    store is a value the pass returns updated. */
module SyncService {
  import opened SyncTypes
  import opened EpochWindow
  import opened Committee
  import opened Participation

  /** The store's read: the record of validator `v`, if any. A missing
      record is read as one that is not synced. */
  function Lookup(validators: map<nat, ValidatorSummary>, v: nat): (rec: Option<ValidatorSummary>)
  {
    if v in validators then Some(validators[v]) else None
  }

  /** The record has a latest meta entry, and every slot in it is one of `slots`. */
  predicate LatestWithin(rec: ValidatorSummary, slots: seq<nat>)
  {
    |rec.syncMeta| > 0 && forall s :: s in rec.syncMeta[|rec.syncMeta| - 1].syncedBlocks ==> s in slots
  }

  /** Every meta entry from position `from` on lists only slots of `slots`:
      the entries a pass appended after the `from` it built on. */
  predicate EntriesFrom(rec: ValidatorSummary, from: nat, slots: seq<nat>)
  {
    forall k, s :: from <= k < |rec.syncMeta| && s in rec.syncMeta[k].syncedBlocks ==> s in slots
  }

  lemma SyncedWithinBlocks(blocks: seq<BlockBits>, index: nat)
    ensures forall s :: s in SyncedBlocks(blocks, index) ==> s in BitsSlots(blocks)
  {
    SyncedBlocksMembers(blocks, index);
    forall s | s in SyncedBlocks(blocks, index)
      ensures s in BitsSlots(blocks)
    {
      var i :| 0 <= i < |blocks| && blocks[i].block == s && BitSet(blocks[i].bits, index);
      assert BitsSlots(blocks)[i] == s;
    }
  }

  lemma RosterSetSnoc(members: seq<CommitteeMember>)
    requires |members| > 0
    ensures RosterSet(members) == RosterSet(members[..|members| - 1]) + {members[|members| - 1].validatorIndex}
  {
    assert members == members[..|members| - 1] + [members[|members| - 1]];
  }

  /** One iteration of the roster loop (sync.service.ts:52-89): read the
      member's record, then write back the observed one. */
  function ObserveOne(validators: map<nat, ValidatorSummary>, epoch: nat,
                      member: CommitteeMember, blocks: seq<BlockBits>): (r: map<nat, ValidatorSummary>)
    requires |blocks| > 0
  {
    var v := member.validatorIndex;
    validators[v := ObserveMember(Lookup(validators, v), epoch, v,
                                  SyncedBlocks(blocks, member.inCommitteeIndex), |blocks|)]
  }

  /** One iteration writes the member's record and no other: the record is
      marked synced for this epoch under the member's validator index, its
      latest entry lists slots of this pass's blocks, and a synced record's
      earlier entries are kept in front. */
  lemma ObserveOneSpec(validators: map<nat, ValidatorSummary>, epoch: nat,
                       member: CommitteeMember, blocks: seq<BlockBits>)
    requires |blocks| > 0
    ensures var r := ObserveOne(validators, epoch, member, blocks);
      && r.Keys == validators.Keys + {member.validatorIndex}
      && (forall v :: v in validators && v != member.validatorIndex ==> r[v] == validators[v])
      && LatestWithin(r[member.validatorIndex], BitsSlots(blocks))
      && r[member.validatorIndex].isSync && r[member.validatorIndex].epoch == epoch
      && r[member.validatorIndex].valId == member.validatorIndex
      && PriorMeta(Lookup(validators, member.validatorIndex)) <= r[member.validatorIndex].syncMeta
  {
    SyncedWithinBlocks(blocks, member.inCommitteeIndex);
  }

  /** The roster loop: members are observed in roster order, so a validator
      listed twice sees the record its first occurrence wrote. */
  function ObserveRoster(validators: map<nat, ValidatorSummary>, epoch: nat,
                         members: seq<CommitteeMember>, blocks: seq<BlockBits>): (r: map<nat, ValidatorSummary>)
    requires |members| == 0 || |blocks| > 0
  {
    if |members| == 0 then validators
    else ObserveOne(ObserveRoster(validators, epoch, members[..|members| - 1], blocks),
                    epoch, members[|members| - 1], blocks)
  }

  /** Only the roster's validators are written: the store gains exactly
      their keys, and every other record is left as it was. */
  lemma {:induction false} RosterKeys(validators: map<nat, ValidatorSummary>, epoch: nat,
                                      members: seq<CommitteeMember>, blocks: seq<BlockBits>)
    requires |members| == 0 || |blocks| > 0
    ensures var r := ObserveRoster(validators, epoch, members, blocks);
      && r.Keys == validators.Keys + RosterSet(members)
      && forall v :: v in validators && v !in RosterSet(members) ==> r[v] == validators[v]
  {
    if |members| > 0 {
      var init := members[..|members| - 1];
      RosterKeys(validators, epoch, init, blocks);
      RosterSetSnoc(members);
      ObserveOneSpec(ObserveRoster(validators, epoch, init, blocks), epoch, members[|members| - 1], blocks);
    }
  }

  /** After the roster loop every roster validator's record is marked synced
      for this epoch, with a latest entry drawn from this pass's blocks. */
  lemma {:induction false} RosterRecords(validators: map<nat, ValidatorSummary>, epoch: nat,
                                         members: seq<CommitteeMember>, blocks: seq<BlockBits>)
    requires |members| == 0 || |blocks| > 0
    ensures var r := ObserveRoster(validators, epoch, members, blocks);
      forall v :: v in RosterSet(members) ==>
        v in r && r[v].isSync && r[v].epoch == epoch && r[v].valId == v && LatestWithin(r[v], BitsSlots(blocks))
  {
    if |members| > 0 {
      var init := members[..|members| - 1];
      var last := members[|members| - 1];
      var before := ObserveRoster(validators, epoch, init, blocks);
      var r := ObserveOne(before, epoch, last, blocks);
      assert ObserveRoster(validators, epoch, members, blocks) == r;
      RosterRecords(validators, epoch, init, blocks);
      RosterSetSnoc(members);
      ObserveOneSpec(before, epoch, last, blocks);
      forall v | v in RosterSet(members)
        ensures v in r && r[v].isSync && r[v].epoch == epoch && r[v].valId == v && LatestWithin(r[v], BitsSlots(blocks))
      {
        if v != last.validatorIndex {
          assert v in RosterSet(init) && v in before;
          assert r[v] == before[v];
        }
      }
    }
  }

  /** Every entry the roster loop appends to a roster validator's record,
      one per roster occurrence, lists only slots of this pass's blocks: the
      entries after those of the synced record the pass started from. */
  lemma {:induction false} RosterEntries(validators: map<nat, ValidatorSummary>, epoch: nat,
                                         members: seq<CommitteeMember>, blocks: seq<BlockBits>)
    requires |members| == 0 || |blocks| > 0
    ensures var r := ObserveRoster(validators, epoch, members, blocks);
      forall v :: v in RosterSet(members) ==>
        v in r && EntriesFrom(r[v], |PriorMeta(Lookup(validators, v))|, BitsSlots(blocks))
  {
    if |members| > 0 {
      var init := members[..|members| - 1];
      var last := members[|members| - 1];
      var before := ObserveRoster(validators, epoch, init, blocks);
      var r := ObserveOne(before, epoch, last, blocks);
      assert ObserveRoster(validators, epoch, members, blocks) == r;
      RosterEntries(validators, epoch, init, blocks);
      RosterRecords(validators, epoch, init, blocks);
      RosterKeys(validators, epoch, init, blocks);
      RosterSetSnoc(members);
      ObserveOneSpec(before, epoch, last, blocks);
      var lv := last.validatorIndex;
      var slots := BitsSlots(blocks);
      assert r[lv].syncMeta == PriorMeta(Lookup(before, lv)) + [r[lv].syncMeta[|r[lv].syncMeta| - 1]];
      if lv in RosterSet(init) {
        assert lv in before && before[lv].isSync;
        assert EntriesFrom(before[lv], |PriorMeta(Lookup(validators, lv))|, slots);
      } else {
        assert Lookup(before, lv) == Lookup(validators, lv);
      }
      AppendedEntries(Lookup(before, lv), Lookup(validators, lv), r[lv], slots);
      forall v | v in RosterSet(members)
        ensures v in r && EntriesFrom(r[v], |PriorMeta(Lookup(validators, v))|, BitsSlots(blocks))
      {
        if v != lv {
          assert v in RosterSet(init) && v in before;
          assert r[v] == before[v];
        }
      }
    }
  }

  /** The step of `RosterEntries` for the member just observed: its record is
      the prior meta plus one entry within `slots`, and the prior meta is
      either the one the pass started from or already a synced record whose
      later entries are within `slots`. */
  lemma AppendedEntries(prior: Option<ValidatorSummary>, start: Option<ValidatorSummary>,
                        rec: ValidatorSummary, slots: seq<nat>)
    requires LatestWithin(rec, slots)
    requires rec.syncMeta == PriorMeta(prior) + [rec.syncMeta[|rec.syncMeta| - 1]]
    requires prior == start || (prior.Some? && prior.value.isSync && EntriesFrom(prior.value, |PriorMeta(start)|, slots))
    ensures EntriesFrom(rec, |PriorMeta(start)|, slots)
  {
    forall k, s | |PriorMeta(start)| <= k < |rec.syncMeta| && s in rec.syncMeta[k].syncedBlocks
      ensures s in slots
    {
      if k < |rec.syncMeta| - 1 {
        assert rec.syncMeta[k] == PriorMeta(prior)[k];
      }
    }
  }

  /** A record that was already synced stays synced, and its meta only grows
      at its end. */
  lemma {:induction false} SyncedRecordsGrow(validators: map<nat, ValidatorSummary>, epoch: nat,
                                             members: seq<CommitteeMember>, blocks: seq<BlockBits>)
    requires |members| == 0 || |blocks| > 0
    ensures var r := ObserveRoster(validators, epoch, members, blocks);
      forall v :: v in validators && validators[v].isSync ==>
        v in r && r[v].isSync && validators[v].syncMeta <= r[v].syncMeta
  {
    if |members| > 0 {
      var init := members[..|members| - 1];
      var last := members[|members| - 1];
      var before := ObserveRoster(validators, epoch, init, blocks);
      var r := ObserveOne(before, epoch, last, blocks);
      assert ObserveRoster(validators, epoch, members, blocks) == r;
      SyncedRecordsGrow(validators, epoch, init, blocks);
      ObserveOneSpec(before, epoch, last, blocks);
      forall v | v in validators && validators[v].isSync
        ensures v in r && r[v].isSync && validators[v].syncMeta <= r[v].syncMeta
      {
        if v == last.validatorIndex {
          assert PriorMeta(Lookup(before, v)) == before[v].syncMeta;
        } else {
          assert r[v] == before[v];
        }
      }
    }
  }

  /** A validator is listed at most once. */
  predicate DistinctValidators(members: seq<CommitteeMember>)
  {
    forall i, j :: 0 <= i < j < |members| ==> members[i].validatorIndex != members[j].validatorIndex
  }

  lemma DistinctPrefix(members: seq<CommitteeMember>)
    requires |members| > 0 && DistinctValidators(members)
    ensures var init := members[..|members| - 1];
      && DistinctValidators(init)
      && (forall m :: m in init ==> m in members)
      && members[|members| - 1].validatorIndex !in RosterSet(init)
  {
    var init := members[..|members| - 1];
    assert forall i :: 0 <= i < |init| ==> init[i] == members[i];
  }

  /** When each validator is listed once, the roster loop writes for every
      member exactly one observation of the record the store held before the
      pass: a resumed record gets one more entry on top of its stored meta, a
      missing or unsynced one restarts. */
  lemma {:induction false} DistinctRoster(validators: map<nat, ValidatorSummary>, epoch: nat,
                                          members: seq<CommitteeMember>, blocks: seq<BlockBits>)
    requires |blocks| > 0
    requires DistinctValidators(members)
    ensures var r := ObserveRoster(validators, epoch, members, blocks);
      forall i :: 0 <= i < |members| ==>
        && members[i].validatorIndex in r
        && r[members[i].validatorIndex]
           == ObserveMember(Lookup(validators, members[i].validatorIndex), epoch, members[i].validatorIndex,
                            SyncedBlocks(blocks, members[i].inCommitteeIndex), |blocks|)
  {
    if |members| > 0 {
      var init := members[..|members| - 1];
      var last := members[|members| - 1];
      var before := ObserveRoster(validators, epoch, init, blocks);
      var r := ObserveOne(before, epoch, last, blocks);
      assert ObserveRoster(validators, epoch, members, blocks) == r;
      DistinctPrefix(members);
      DistinctRoster(validators, epoch, init, blocks);
      RosterKeys(validators, epoch, init, blocks);
      ObserveOneSpec(before, epoch, last, blocks);
      var lv := last.validatorIndex;
      assert Lookup(before, lv) == Lookup(validators, lv);
      assert r[lv] == ObserveMember(Lookup(validators, lv), epoch, lv,
                                    SyncedBlocks(blocks, last.inCommitteeIndex), |blocks|);
      forall i | 0 <= i < |members|
        ensures members[i].validatorIndex in r
                && r[members[i].validatorIndex]
                   == ObserveMember(Lookup(validators, members[i].validatorIndex), epoch, members[i].validatorIndex,
                                    SyncedBlocks(blocks, members[i].inCommitteeIndex), |blocks|)
      {
        var m := members[i];
        if i < |init| {
          assert m == init[i];
          assert m.validatorIndex != lv;
          assert r[m.validatorIndex] == before[m.validatorIndex];
        } else {
          assert m == last;
        }
      }
    }
  }

  /** When no roster validator has a record yet and each is listed once,
      every record the roster loop writes holds this pass alone. */
  lemma FreshRoster(validators: map<nat, ValidatorSummary>, epoch: nat,
                    members: seq<CommitteeMember>, blocks: seq<BlockBits>)
    requires |blocks| > 0
    requires DistinctValidators(members)
    requires forall m :: m in members ==> m.validatorIndex !in validators
    ensures var r := ObserveRoster(validators, epoch, members, blocks);
      forall i :: 0 <= i < |members| ==>
        && members[i].validatorIndex in r
        && r[members[i].validatorIndex]
           == ObserveMember(None, epoch, members[i].validatorIndex,
                            SyncedBlocks(blocks, members[i].inCommitteeIndex), |blocks|)
  {
    DistinctRoster(validators, epoch, members, blocks);
    forall i | 0 <= i < |members|
      ensures Lookup(validators, members[i].validatorIndex) == None
    {
      assert members[i] in members;
    }
  }

  /** How many times validator `v` is listed. */
  function Occurrences(members: seq<CommitteeMember>, v: nat): (count: nat)
  {
    if |members| == 0 then 0
    else Occurrences(members[..|members| - 1], v) + (if members[|members| - 1].validatorIndex == v then 1 else 0)
  }

  lemma {:induction false} OccurrencesListed(members: seq<CommitteeMember>, v: nat)
    ensures Occurrences(members, v) > 0 <==> v in RosterSet(members)
  {
    if |members| > 0 {
      var init := members[..|members| - 1];
      OccurrencesListed(init, v);
      RosterSetSnoc(members);
    }
  }

  /** A pass appends exactly one meta entry per roster occurrence of a
      validator, on top of what an already synced record held. */
  lemma {:induction false} MetaGrowth(validators: map<nat, ValidatorSummary>, epoch: nat,
                                      members: seq<CommitteeMember>, blocks: seq<BlockBits>, v: nat)
    requires |blocks| > 0
    requires v in RosterSet(members)
    ensures var r := ObserveRoster(validators, epoch, members, blocks);
      v in r && |r[v].syncMeta| == |PriorMeta(Lookup(validators, v))| + Occurrences(members, v)
  {
    var init := members[..|members| - 1];
    var last := members[|members| - 1];
    var before := ObserveRoster(validators, epoch, init, blocks);
    var r := ObserveOne(before, epoch, last, blocks);
    assert ObserveRoster(validators, epoch, members, blocks) == r;
    OccurrencesListed(init, v);
    RosterSetSnoc(members);
    RosterKeys(validators, epoch, init, blocks);
    ObserveOneSpec(before, epoch, last, blocks);
    if v in RosterSet(init) {
      MetaGrowth(validators, epoch, init, blocks, v);
      RosterRecords(validators, epoch, init, blocks);
      if v == last.validatorIndex {
        assert PriorMeta(Lookup(before, v)) == before[v].syncMeta;
      } else {
        assert r[v] == before[v];
      }
    } else {
      assert Lookup(before, v) == Lookup(validators, v);
    }
  }

  /** Every synced record's entries hold at most `blockCount` slots. */
  ghost predicate EntriesWithin(validators: map<nat, ValidatorSummary>, blockCount: nat)
  {
    forall v, e :: v in validators && validators[v].isSync && e in validators[v].syncMeta ==>
      |e.syncedBlocks| <= blockCount
  }

  /** If no stored entry holds more slots than this pass produced, that stays
      so, and every roster validator's percent lies in [0, 100]. */
  lemma {:induction false} PercentStaysInRange(validators: map<nat, ValidatorSummary>, epoch: nat,
                                               members: seq<CommitteeMember>, blocks: seq<BlockBits>)
    requires |blocks| > 0
    requires EntriesWithin(validators, |blocks|)
    ensures EntriesWithin(ObserveRoster(validators, epoch, members, blocks), |blocks|)
    ensures var r := ObserveRoster(validators, epoch, members, blocks);
      forall v :: v in RosterSet(members) ==> v in r && 0.0 <= r[v].syncPercent <= 100.0
  {
    if |members| > 0 {
      var init := members[..|members| - 1];
      var last := members[|members| - 1];
      var before := ObserveRoster(validators, epoch, init, blocks);
      var r := ObserveOne(before, epoch, last, blocks);
      assert ObserveRoster(validators, epoch, members, blocks) == r;
      PercentStaysInRange(validators, epoch, init, blocks);
      PercentStepInRange(before, epoch, last, blocks);
      RosterSetSnoc(members);
      RosterKeys(validators, epoch, init, blocks);
      ObserveOneSpec(before, epoch, last, blocks);
      forall v | v in RosterSet(members)
        ensures v in r && 0.0 <= r[v].syncPercent <= 100.0
      {
        if v != last.validatorIndex {
          assert v in RosterSet(init) && v in before;
          assert r[v] == before[v];
        }
      }
    }
  }

  lemma PercentStepInRange(validators: map<nat, ValidatorSummary>, epoch: nat,
                           member: CommitteeMember, blocks: seq<BlockBits>)
    requires |blocks| > 0
    requires EntriesWithin(validators, |blocks|)
    ensures EntriesWithin(ObserveOne(validators, epoch, member, blocks), |blocks|)
    ensures 0.0 <= ObserveOne(validators, epoch, member, blocks)[member.validatorIndex].syncPercent <= 100.0
  {
    var v := member.validatorIndex;
    var synced := SyncedBlocks(blocks, member.inCommitteeIndex);
    var prev := Lookup(validators, v);
    SyncedBlocksOrdered(blocks, member.inCommitteeIndex);
    assert forall e :: e in PriorMeta(prev) ==> |e.syncedBlocks| <= |blocks|;
    ObservePercentInRange(prev, epoch, v, synced, |blocks|);
    var rec := ObserveMember(prev, epoch, v, synced, |blocks|);
    assert rec.syncMeta == PriorMeta(prev) + [SyncMetaItem(synced)];
  }

  /** The whole pass (sync.service.ts:24-97). It decodes every produced
      block before writing anything, so a decode failure leaves the store as
      it was. Otherwise the roster's records are observed in order and the
      epoch meta is overwritten with the produced blocks' slots. A pass over
      a non-empty roster needs at least one produced block: with none, the
      source divides zero by zero. */
  function Check(chain: nat -> Option<Block>, epoch: nat, n: nat, committeeSize: nat,
                 roster: seq<nat>, summary: EpochSummary): (r: Result<EpochSummary>)
    requires |roster| == 0 || |Fetched(chain, Window(epoch, n))| > 0
    ensures r.Ok? ==> r.value.meta == Some(SyncEpochMeta(Slots(Fetched(chain, Window(epoch, n)))))
  {
    match DecodeAll(Fetched(chain, Window(epoch, n)), committeeSize)
    case Err(e) => Err(e)
    case Ok(epochBlocksBits) =>
      DecodeKeepsSlots(Fetched(chain, Window(epoch, n)), committeeSize);
      var validators := ObserveRoster(summary.validators, epoch, IndexedValidators(roster), epochBlocksBits);
      Ok(EpochSummary(validators, Some(SyncEpochMeta(BitsSlots(epochBlocksBits)))))
  }

  /** A pass fails exactly when some produced block's bit field is not
      SYNC_COMMITTEE_SIZE bits long, and the error names the first such
      block; the store is then returned to nobody, so nothing is written. */
  lemma CheckRejects(chain: nat -> Option<Block>, epoch: nat, n: nat, committeeSize: nat,
                     roster: seq<nat>, summary: EpochSummary)
    requires |roster| == 0 || |Fetched(chain, Window(epoch, n))| > 0
    ensures var r := Check(chain, epoch, n, committeeSize, roster, summary);
      var blocks := Fetched(chain, Window(epoch, n));
      && (r.Err? <==> exists b :: b in blocks && |b.syncCommitteeBits| != committeeSize)
      && (r.Err? ==> exists i :: 0 <= i < |blocks| && |blocks[i].syncCommitteeBits| != committeeSize
                                 && r.error == DecodeError(blocks[i].slot)
                                 && forall j :: 0 <= j < i ==> |blocks[j].syncCommitteeBits| == committeeSize)
  {
    var blocks := Fetched(chain, Window(epoch, n));
    DecodeAllSpec(blocks, committeeSize);
    if exists b :: b in blocks && |b.syncCommitteeBits| != committeeSize {
      var b :| b in blocks && |b.syncCommitteeBits| != committeeSize;
      var i :| 0 <= i < |blocks| && blocks[i] == b;
    }
  }

  /** A successful pass overwrites the epoch meta with the produced blocks'
      slots, adds a record for every roster validator, and leaves every
      other record as it was. */
  lemma CheckWrites(chain: nat -> Option<Block>, epoch: nat, n: nat, committeeSize: nat,
                    roster: seq<nat>, summary: EpochSummary)
    requires |roster| == 0 || |Fetched(chain, Window(epoch, n))| > 0
    ensures var r := Check(chain, epoch, n, committeeSize, roster, summary);
      r.Ok? ==>
        && r.value.meta == Some(SyncEpochMeta(Slots(Fetched(chain, Window(epoch, n)))))
        && r.value.validators.Keys == summary.validators.Keys + (set v | v in roster)
        && forall v :: v in summary.validators && v !in roster ==> r.value.validators[v] == summary.validators[v]
  {
    var blocks := Fetched(chain, Window(epoch, n));
    var decoded := DecodeAll(blocks, committeeSize);
    if decoded.Ok? {
      CommitteeIndicesContiguous(roster);
      DecodeKeepsSlots(blocks, committeeSize);
      RosterKeys(summary.validators, epoch, IndexedValidators(roster), decoded.value);
    }
  }

  /** After a successful pass every roster validator's record is marked
      synced for the epoch, and its latest entry, like every other entry the
      pass appended, lists only slots of the epoch meta's produced blocks. */
  lemma CheckRecords(chain: nat -> Option<Block>, epoch: nat, n: nat, committeeSize: nat,
                     roster: seq<nat>, summary: EpochSummary)
    requires |roster| == 0 || |Fetched(chain, Window(epoch, n))| > 0
    ensures var r := Check(chain, epoch, n, committeeSize, roster, summary);
      r.Ok? ==> forall v :: v in roster ==>
        && v in r.value.validators && r.value.validators[v].isSync && r.value.validators[v].epoch == epoch
        && LatestWithin(r.value.validators[v], r.value.meta.value.blocksToSync)
        && EntriesFrom(r.value.validators[v], |PriorMeta(Lookup(summary.validators, v))|,
                       r.value.meta.value.blocksToSync)
  {
    var epochBlocks := Fetched(chain, Window(epoch, n));
    var decoded := DecodeAll(epochBlocks, committeeSize);
    if decoded.Ok? {
      var members := IndexedValidators(roster);
      var validators := ObserveRoster(summary.validators, epoch, members, decoded.value);
      assert Check(chain, epoch, n, committeeSize, roster, summary)
             == Ok(EpochSummary(validators, Some(SyncEpochMeta(BitsSlots(decoded.value)))));
      CommitteeIndicesContiguous(roster);
      RosterRecords(summary.validators, epoch, members, decoded.value);
      RosterEntries(summary.validators, epoch, members, decoded.value);
      forall v | v in roster
        ensures && v in validators && validators[v].isSync && validators[v].epoch == epoch
                && LatestWithin(validators[v], BitsSlots(decoded.value))
                && EntriesFrom(validators[v], |PriorMeta(Lookup(summary.validators, v))|, BitsSlots(decoded.value))
      {
        assert v in RosterSet(members);
      }
    }
  }

  /** For a roster that lists each validator once, a successful pass stores
      for roster position `i` one observation of the record the store held:
      the slots of the decoded blocks whose bit `i` is set, against the
      number of produced blocks. */
  lemma CheckResumes(chain: nat -> Option<Block>, epoch: nat, n: nat, committeeSize: nat,
                     roster: seq<nat>, summary: EpochSummary)
    requires |roster| == 0 || |Fetched(chain, Window(epoch, n))| > 0
    requires forall i, j :: 0 <= i < j < |roster| ==> roster[i] != roster[j]
    ensures var r := Check(chain, epoch, n, committeeSize, roster, summary);
      var decoded := DecodeAll(Fetched(chain, Window(epoch, n)), committeeSize);
      r.Ok? ==> decoded.Ok? && forall i :: 0 <= i < |roster| ==>
        && roster[i] in r.value.validators
        && r.value.validators[roster[i]]
           == ObserveMember(Lookup(summary.validators, roster[i]), epoch, roster[i],
                            SyncedBlocks(decoded.value, i), |decoded.value|)
  {
    var epochBlocks := Fetched(chain, Window(epoch, n));
    var decoded := DecodeAll(epochBlocks, committeeSize);
    if decoded.Ok? && |roster| > 0 {
      var members := IndexedValidators(roster);
      var validators := ObserveRoster(summary.validators, epoch, members, decoded.value);
      assert Check(chain, epoch, n, committeeSize, roster, summary).value.validators == validators;
      DecodeAllSpec(epochBlocks, committeeSize);
      assert |decoded.value| == |epochBlocks|;
      assert forall i :: 0 <= i < |members| ==> members[i].validatorIndex == roster[i] by {
        assert ValidatorIndices(members) == roster;
      }
      DistinctRoster(summary.validators, epoch, members, decoded.value);
    }
  }

  /** If no stored synced record holds an entry longer than this pass's
      produced-block count, every roster validator's percent after the pass
      lies in [0, 100]. */
  lemma CheckPercentInRange(chain: nat -> Option<Block>, epoch: nat, n: nat, committeeSize: nat,
                            roster: seq<nat>, summary: EpochSummary)
    requires |roster| == 0 || |Fetched(chain, Window(epoch, n))| > 0
    requires EntriesWithin(summary.validators, |Fetched(chain, Window(epoch, n))|)
    ensures var r := Check(chain, epoch, n, committeeSize, roster, summary);
      r.Ok? ==> forall v :: v in roster ==>
        v in r.value.validators && 0.0 <= r.value.validators[v].syncPercent <= 100.0
  {
    var epochBlocks := Fetched(chain, Window(epoch, n));
    var decoded := DecodeAll(epochBlocks, committeeSize);
    if decoded.Ok? && |roster| > 0 {
      var members := IndexedValidators(roster);
      var validators := ObserveRoster(summary.validators, epoch, members, decoded.value);
      assert Check(chain, epoch, n, committeeSize, roster, summary).value.validators == validators;
      DecodeAllSpec(epochBlocks, committeeSize);
      assert |decoded.value| == |epochBlocks|;
      CommitteeIndicesContiguous(roster);
      PercentStaysInRange(summary.validators, epoch, members, decoded.value);
      forall v | v in roster
        ensures v in validators && 0.0 <= validators[v].syncPercent <= 100.0
      {
        assert v in RosterSet(members);
      }
    }
  }

  /** With a client that reports the asked-for slot, the produced-block
      slots a pass stores as its epoch meta are exactly the window's slots
      that have a block, in increasing order; together with the missed slots
      they make up the whole window. */
  lemma ProducedWindow(chain: nat -> Option<Block>, epoch: nat, n: nat)
    requires ConsistentChain(chain)
    ensures var produced := Slots(Fetched(chain, Window(epoch, n)));
      && StrictlyIncreasing(produced)
      && (forall s :: s in produced <==> epoch * n <= s < epoch * n + n && chain(s).Some?)
      && |produced| + |Missed(chain, Window(epoch, n))| == n
  {
    var w := Window(epoch, n);
    WindowIncreasing(epoch, n);
    FetchedSlots(chain, w);
    ClassificationPartition(chain, w);
    ProducedInWindow(chain, epoch, n);
  }

  lemma ProducedInWindow(chain: nat -> Option<Block>, epoch: nat, n: nat)
    requires ConsistentChain(chain)
    ensures forall s :: s in Slots(Fetched(chain, Window(epoch, n))) <==> epoch * n <= s < epoch * n + n && chain(s).Some?
  {
    FetchedSlots(chain, Window(epoch, n));
    forall s: nat
      ensures s in Slots(Fetched(chain, Window(epoch, n))) <==> epoch * n <= s < epoch * n + n && chain(s).Some?
    {
      WindowMembership(epoch, n, s);
      assert s in Slots(Fetched(chain, Window(epoch, n))) <==> s in Window(epoch, n) && chain(s).Some?;
    }
  }
}
