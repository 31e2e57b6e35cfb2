/** The data the sync-duty check works on: the blocks the consensus client
    returns, the sync committee roster, and the per-validator summary records
    of one epoch. Slots, epochs and validator indices are unbounded naturals;
    participation percentages are exact reals. */
module SyncTypes {

  datatype Option<+T> = None | Some(value: T)

  /** The decode failure that aborts a pass: a block whose sync-aggregate bit
      field does not decode to a vector of SYNC_COMMITTEE_SIZE bits. The
      failure comes from the SSZ library and carries no slot; the model tags
      it with the failing block's slot. */
  datatype SyncError = DecodeError(slot: nat)

  datatype Result<+T> = Ok(value: T) | Err(error: SyncError)

  /** A block as the consensus client reports it: the slot written in the
      block message and its sync-aggregate bit field, already unpacked into
      bits but not yet checked against the committee size. */
  datatype Block = Block(slot: nat, syncCommitteeBits: seq<bool>)

  /** One entry of the decoded block list: the block's slot and its bit vector,
      one bit per committee position. */
  datatype BlockBits = BlockBits(block: nat, bits: seq<bool>)

  /** A sync committee member: its position in the bit vector and its global
      validator index. */
  datatype CommitteeMember = CommitteeMember(
    inCommitteeIndex: nat,
    validatorIndex: nat,
    epochParticipationPercent: int)

  /** What one pass recorded for one validator: the slots of the produced
      blocks its signature bit was set in. */
  datatype SyncMetaItem = SyncMetaItem(syncedBlocks: seq<nat>)

  /** The sync part of a validator's summary record for one epoch. */
  datatype ValidatorSummary = ValidatorSummary(
    epoch: nat,
    valId: nat,
    isSync: bool,
    syncPercent: real,
    syncMeta: seq<SyncMetaItem>)

  /** The epoch-level sync meta: the produced-block slots of the latest pass. */
  datatype SyncEpochMeta = SyncEpochMeta(blocksToSync: seq<nat>)

  /** The summary store of one epoch: records keyed by validator index, and
      the epoch meta once a pass has written it. */
  datatype EpochSummary = EpochSummary(
    validators: map<nat, ValidatorSummary>,
    meta: Option<SyncEpochMeta>)

  predicate StrictlyIncreasing(s: seq<nat>)
  {
    forall i, j :: 0 <= i < j < |s| ==> s[i] < s[j]
  }

  /** `a` can be obtained from `b` by deleting elements, keeping the order. */
  ghost predicate IsSubsequence<T>(a: seq<T>, b: seq<T>)
    decreases |b|
  {
    && |a| <= |b|
    && (|a| == 0
        || (&& 0 < |b|
            && ((a[|a| - 1] == b[|b| - 1] && IsSubsequence(a[..|a| - 1], b[..|b| - 1]))
                || IsSubsequence(a, b[..|b| - 1]))))
  }

  /** The slots the blocks report, in list order. */
  function Slots(blocks: seq<Block>): (r: seq<nat>)
    ensures |r| == |blocks|
    ensures forall i :: 0 <= i < |blocks| ==> r[i] == blocks[i].slot
  {
    seq(|blocks|, i requires 0 <= i < |blocks| => blocks[i].slot)
  }

  /** The slots of decoded blocks, in list order: what the epoch meta stores. */
  function BitsSlots(blocks: seq<BlockBits>): (r: seq<nat>)
    ensures |r| == |blocks|
    ensures forall i :: 0 <= i < |blocks| ==> r[i] == blocks[i].block
  {
    seq(|blocks|, i requires 0 <= i < |blocks| => blocks[i].block)
  }

  /** A participation percentage: `synced` out of `blocks` produced blocks,
      scaled to 100. The source divides without a guard, so a zero block
      count is excluded rather than given a value. */
  function Percent(synced: nat, blocks: nat): (percent: real)
    requires blocks > 0
    ensures 0.0 <= percent
    ensures synced <= blocks ==> percent <= 100.0
  {
    (synced as real / blocks as real) * 100.0
  }

  /** The percentage is never negative, is at most 100 exactly when no more
      slots were synced than blocks produced, and is 100 exactly when every
      produced block was synced. */
  lemma PercentScale(synced: nat, blocks: nat)
    requires blocks > 0
    ensures 0.0 <= Percent(synced, blocks)
    ensures Percent(synced, blocks) <= 100.0 <==> synced <= blocks
    ensures Percent(synced, blocks) == 100.0 <==> synced == blocks
  {
    var q := synced as real / blocks as real;
    assert q * blocks as real == synced as real;
    assert synced <= blocks <==> q <= 1.0;
    assert synced == blocks <==> q == 1.0;
  }
}
