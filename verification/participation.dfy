/** Per-member participation (sync.service.ts, `check`, lines 45-89): decoding
    every produced block's bit field, filtering the produced blocks down to
    those a member signed, and updating the member's summary record. */
module Participation {
  import opened SyncTypes

  /** Decodes the bit field of every produced block, in order. Decoding stops
      at the first block whose field is not SYNC_COMMITTEE_SIZE bits long. */
  function DecodeAll(blocks: seq<Block>, size: nat): (r: Result<seq<BlockBits>>)
    ensures r.Ok? ==> |r.value| == |blocks|
    ensures r.Ok? ==> forall i :: 0 <= i < |r.value| ==> |r.value[i].bits| == size
  {
    if |blocks| == 0 then Ok([])
    else if |blocks[0].syncCommitteeBits| != size then Err(DecodeError(blocks[0].slot))
    else
      match DecodeAll(blocks[1..], size)
      case Err(e) => Err(e)
      case Ok(rest) => Ok([BlockBits(blocks[0].slot, blocks[0].syncCommitteeBits)] + rest)
  }

  /** Decoding succeeds exactly when every field has the committee's size,
      and then yields one entry per block with the block's slot and bits;
      otherwise the error names the first block whose field is off. */
  lemma {:induction false} DecodeAllSpec(blocks: seq<Block>, size: nat)
    ensures var r := DecodeAll(blocks, size);
      && (r.Ok? <==> forall i :: 0 <= i < |blocks| ==> |blocks[i].syncCommitteeBits| == size)
      && (r.Ok? ==> |r.value| == |blocks|
                    && forall i :: 0 <= i < |blocks| ==>
                         r.value[i] == BlockBits(blocks[i].slot, blocks[i].syncCommitteeBits))
      && (r.Err? ==> exists i :: 0 <= i < |blocks| && |blocks[i].syncCommitteeBits| != size
                                && r.error == DecodeError(blocks[i].slot)
                                && forall j :: 0 <= j < i ==> |blocks[j].syncCommitteeBits| == size)
  {
    if |blocks| > 0 && |blocks[0].syncCommitteeBits| == size {
      DecodeAllSpec(blocks[1..], size);
      assert forall i :: 0 <= i < |blocks| - 1 ==> blocks[1..][i] == blocks[i + 1];
      match DecodeAll(blocks[1..], size)
      case Err(e) =>
        var i :| 0 <= i < |blocks| - 1 && |blocks[1..][i].syncCommitteeBits| != size
                 && e == DecodeError(blocks[1..][i].slot)
                 && forall j :: 0 <= j < i ==> |blocks[1..][j].syncCommitteeBits| == size;
        assert forall j :: 0 <= j < i + 1 ==> |blocks[j].syncCommitteeBits| == size by {
          forall j | 0 <= j < i + 1
            ensures |blocks[j].syncCommitteeBits| == size
          {
            if j > 0 {
              assert blocks[j] == blocks[1..][j - 1];
            }
          }
        }
      case Ok(rest) =>
        forall i | 0 <= i < |blocks|
          ensures |blocks[i].syncCommitteeBits| == size
        {
          if i > 0 {
            assert blocks[i] == blocks[1..][i - 1];
          }
        }
    }
  }

  /** Decoding keeps the slots: the decoded list names the same slots as the
      blocks it came from. */
  lemma DecodeKeepsSlots(blocks: seq<Block>, size: nat)
    requires DecodeAll(blocks, size).Ok?
    ensures BitsSlots(DecodeAll(blocks, size).value) == Slots(blocks)
  {
    DecodeAllSpec(blocks, size);
  }

  /** Whether the bit at `index` is set. An index past the end of the vector
      reads as unset. */
  function BitSet(bits: seq<bool>, index: nat): (on: bool)
  {
    index < |bits| && bits[index]
  }

  /** The slots of the blocks whose bit at `index` is set, in block order
      (sync.service.ts:53-58). */
  function SyncedBlocks(blocks: seq<BlockBits>, index: nat): (synced: seq<nat>)
    ensures |synced| <= |blocks|
  {
    if |blocks| == 0 then []
    else
      var rest := SyncedBlocks(blocks[..|blocks| - 1], index);
      if BitSet(blocks[|blocks| - 1].bits, index) then rest + [blocks[|blocks| - 1].block] else rest
  }

  /** The filter keeps a subsequence of the produced-block slots. */
  lemma {:induction false} SyncedBlocksOrdered(blocks: seq<BlockBits>, index: nat)
    ensures |SyncedBlocks(blocks, index)| <= |blocks|
    ensures IsSubsequence(SyncedBlocks(blocks, index), BitsSlots(blocks))
  {
    if |blocks| > 0 {
      var init := blocks[..|blocks| - 1];
      var last := blocks[|blocks| - 1];
      var rest := SyncedBlocks(init, index);
      SyncedBlocksOrdered(init, index);
      assert BitsSlots(blocks)[..|blocks| - 1] == BitsSlots(init);
      if BitSet(last.bits, index) {
        assert (rest + [last.block])[..|rest|] == rest;
      }
    }
  }

  /** The filter keeps exactly the slots of the blocks whose bit is set. */
  lemma {:induction false} SyncedBlocksMembers(blocks: seq<BlockBits>, index: nat)
    ensures forall s :: s in SyncedBlocks(blocks, index) <==>
      exists i :: 0 <= i < |blocks| && blocks[i].block == s && BitSet(blocks[i].bits, index)
  {
    if |blocks| > 0 {
      var init := blocks[..|blocks| - 1];
      SyncedBlocksMembers(init, index);
      assert forall i :: 0 <= i < |init| ==> init[i] == blocks[i];
    }
  }

  /** The number of synced slots over all entries of a record's meta. */
  function TotalSynced(meta: seq<SyncMetaItem>): (total: nat)
  {
    if |meta| == 0 then 0
    else TotalSynced(meta[..|meta| - 1]) + |meta[|meta| - 1].syncedBlocks|
  }

  /** The sum computed at sync.service.ts:64-67: every earlier entry's length
      taken as a percentage of the CURRENT pass's block count. */
  function SumPercents(meta: seq<SyncMetaItem>, blockCount: nat): (sum: real)
    requires blockCount > 0
    ensures 0.0 <= sum
  {
    if |meta| == 0 then 0.0
    else SumPercents(meta[..|meta| - 1], blockCount) + Percent(|meta[|meta| - 1].syncedBlocks|, blockCount)
  }

  lemma SplitFraction(a: real, b: real, d: real)
    requires d > 0.0
    ensures 100.0 * a / d + (b / d) * 100.0 == 100.0 * (a + b) / d
  {
  }

  /** The summed percentages are the pooled count over the current block
      count. */
  lemma {:induction false} SumPercentsPooled(meta: seq<SyncMetaItem>, blockCount: nat)
    requires blockCount > 0
    ensures SumPercents(meta, blockCount) == 100.0 * TotalSynced(meta) as real / blockCount as real
  {
    if |meta| > 0 {
      var init := meta[..|meta| - 1];
      SumPercentsPooled(init, blockCount);
      SplitFraction(TotalSynced(init) as real, |meta[|meta| - 1].syncedBlocks| as real, blockCount as real);
    }
  }

  lemma {:induction false} TotalAppend(meta: seq<SyncMetaItem>, item: SyncMetaItem)
    ensures TotalSynced(meta + [item]) == TotalSynced(meta) + |item.syncedBlocks|
  {
    assert (meta + [item])[..|meta|] == meta;
  }

  /** `total` synced slots spread over `entries` passes, each taken against
      `blockCount` produced blocks, as a percentage. */
  function PooledPercent(total: nat, blockCount: nat, entries: nat): (percent: real)
    requires blockCount > 0 && entries > 0
  {
    PositiveProduct(blockCount as real, entries as real);
    100.0 * total as real / (blockCount as real * entries as real)
  }

  lemma PositiveProduct(a: real, b: real)
    requires a > 0.0 && b > 0.0
    ensures a * b > 0.0
  {
  }

  /** The meta a pass builds on: the record's entries when it is marked
      synced, and nothing otherwise. */
  function PriorMeta(prev: Option<ValidatorSummary>): (meta: seq<SyncMetaItem>)
  {
    if prev.Some? && prev.value.isSync then prev.value.syncMeta else []
  }

  /** One member's record update (sync.service.ts:60-89). A record marked
      synced gets one more meta entry and a recomputed percent; its other
      fields are kept, since that write does not pass `is_sync`. Any other
      record is replaced by a fresh one holding this pass alone. */
  function ObserveMember(prev: Option<ValidatorSummary>, epoch: nat, valId: nat,
                         synced: seq<nat>, blockCount: nat): (r: ValidatorSummary)
    requires blockCount > 0
    ensures r.epoch == epoch && r.valId == valId && r.isSync
    ensures |r.syncMeta| == |PriorMeta(prev)| + 1
    ensures r.syncMeta[..|PriorMeta(prev)|] == PriorMeta(prev)
    ensures r.syncMeta[|PriorMeta(prev)|] == SyncMetaItem(synced)
  {
    var item := SyncMetaItem(synced);
    if prev.Some? && prev.value.isSync then
      var meta := prev.value.syncMeta;
      var percentSum := SumPercents(meta, blockCount) + Percent(|synced|, blockCount);
      assert (meta + [item])[..|meta|] == meta;
      prev.value.(epoch := epoch, valId := valId,
                  syncPercent := percentSum / (|meta| + 1) as real,
                  syncMeta := meta + [item])
    else
      ValidatorSummary(epoch, valId, true, Percent(|synced|, blockCount), [item])
  }

  /** In both branches the stored percent is the pooled synced count over
      the current block count times the number of entries. */
  lemma ObservePercentPooled(prev: Option<ValidatorSummary>, epoch: nat, valId: nat,
                             synced: seq<nat>, blockCount: nat)
    requires blockCount > 0
    ensures var r := ObserveMember(prev, epoch, valId, synced, blockCount);
            r.syncPercent == PooledPercent(TotalSynced(r.syncMeta), blockCount, |r.syncMeta|)
  {
    var item := SyncMetaItem(synced);
    var r := ObserveMember(prev, epoch, valId, synced, blockCount);
    if prev.Some? && prev.value.isSync {
      var meta := prev.value.syncMeta;
      assert r.syncMeta == meta + [item];
      assert r.syncPercent == (SumPercents(meta, blockCount) + Percent(|synced|, blockCount)) / (|meta| + 1) as real;
      AppendedAverage(meta, synced, blockCount);
    } else {
      assert r.syncMeta == [item] && r.syncPercent == Percent(|synced|, blockCount);
      TotalAppend([], item);
      assert [] + [item] == [item];
      SinglePass(|synced|, blockCount);
    }
  }

  lemma SinglePass(synced: nat, blockCount: nat)
    requires blockCount > 0
    ensures Percent(synced, blockCount) == PooledPercent(synced, blockCount, 1)
  {
  }

  /** The averaging of the synced branch, in closed form. */
  lemma AppendedAverage(meta: seq<SyncMetaItem>, synced: seq<nat>, blockCount: nat)
    requires blockCount > 0
    ensures (SumPercents(meta, blockCount) + Percent(|synced|, blockCount)) / (|meta| + 1) as real
            == PooledPercent(TotalSynced(meta + [SyncMetaItem(synced)]), blockCount, |meta| + 1)
  {
    SummedShares(meta, synced, blockCount);
    PooledOfSum(SumPercents(meta, blockCount) + Percent(|synced|, blockCount),
                TotalSynced(meta + [SyncMetaItem(synced)]), blockCount, |meta| + 1);
  }

  lemma PooledOfSum(sum: real, total: nat, blockCount: nat, entries: nat)
    requires blockCount > 0 && entries > 0
    requires sum == 100.0 * total as real / blockCount as real
    ensures sum / entries as real == PooledPercent(total, blockCount, entries)
  {
    AverageOfSum(sum, total as real, blockCount as real, entries as real);
  }

  lemma SummedShares(meta: seq<SyncMetaItem>, synced: seq<nat>, blockCount: nat)
    requires blockCount > 0
    ensures SumPercents(meta, blockCount) + Percent(|synced|, blockCount)
            == 100.0 * TotalSynced(meta + [SyncMetaItem(synced)]) as real / blockCount as real
  {
    TotalAppend(meta, SyncMetaItem(synced));
    SumPercentsPooled(meta, blockCount);
    SplitFraction(TotalSynced(meta) as real, |synced| as real, blockCount as real);
  }

  lemma AverageOfSum(sum: real, total: real, blocks: real, entries: real)
    requires blocks > 0.0 && entries > 0.0
    requires sum == 100.0 * total / blocks
    ensures sum / entries == 100.0 * total / (blocks * entries)
  {
  }

  /** On first observation the percent is this pass's own share. */
  lemma FirstObservation(prev: Option<ValidatorSummary>, epoch: nat, valId: nat,
                         synced: seq<nat>, blockCount: nat)
    requires blockCount > 0
    requires prev.None? || !prev.value.isSync
    ensures ObserveMember(prev, epoch, valId, synced, blockCount).syncMeta == [SyncMetaItem(synced)]
    ensures ObserveMember(prev, epoch, valId, synced, blockCount).syncPercent == Percent(|synced|, blockCount)
  {
  }

  lemma {:induction false} TotalBounded(meta: seq<SyncMetaItem>, blockCount: nat)
    requires forall e :: e in meta ==> |e.syncedBlocks| <= blockCount
    ensures TotalSynced(meta) <= blockCount * |meta|
  {
    if |meta| > 0 {
      var init := meta[..|meta| - 1];
      assert forall e :: e in init ==> e in meta;
      assert meta[|meta| - 1] in meta;
      TotalBounded(init, blockCount);
      assert blockCount * |meta| == blockCount * |init| + blockCount;
    }
  }

  lemma PooledInRange(total: nat, blockCount: nat, entries: nat)
    requires blockCount > 0 && entries > 0
    requires total <= blockCount * entries
    ensures 0.0 <= PooledPercent(total, blockCount, entries) <= 100.0
  {
    var den := blockCount as real * entries as real;
    assert total as real <= den;
    ScaledShare(total as real, den);
  }

  /** A share `a / d` of a positive `d` with `0 <= a <= d`, scaled to 100,
      lies in [0, 100]. */
  lemma ScaledShare(a: real, d: real)
    requires d > 0.0 && 0.0 <= a <= d
    ensures 0.0 <= 100.0 * a / d <= 100.0
  {
    var p := 100.0 * a / d;
    assert p * d == 100.0 * a;
    assert (100.0 - p) * d == 100.0 * (d - a);
  }

  /** When no entry, old or new, holds more slots than the current pass
      produced, the stored percent lies in [0, 100]. */
  lemma ObservePercentInRange(prev: Option<ValidatorSummary>, epoch: nat, valId: nat,
                              synced: seq<nat>, blockCount: nat)
    requires blockCount > 0
    requires |synced| <= blockCount
    requires forall e :: e in PriorMeta(prev) ==> |e.syncedBlocks| <= blockCount
    ensures 0.0 <= ObserveMember(prev, epoch, valId, synced, blockCount).syncPercent <= 100.0
  {
    var r := ObserveMember(prev, epoch, valId, synced, blockCount);
    assert r.syncMeta == PriorMeta(prev) + [SyncMetaItem(synced)];
    ObservePercentPooled(prev, epoch, valId, synced, blockCount);
    TotalBounded(r.syncMeta, blockCount);
    PooledInRange(TotalSynced(r.syncMeta), blockCount, |r.syncMeta|);
  }

  /** The bound needs its premise: an earlier entry longer than the current
      block count pushes the percent past 100. Three of three blocks synced,
      then two of two, stores (150 + 100) / 2 = 125. */
  lemma PercentCanExceedHundred()
    ensures ObserveMember(Some(ValidatorSummary(0, 101, true, 100.0, [SyncMetaItem([0, 1, 3])])),
                          0, 101, [0, 1], 2).syncPercent == 125.0
  {
    var prev := Some(ValidatorSummary(0, 101, true, 100.0, [SyncMetaItem([0, 1, 3])]));
    var r := ObserveMember(prev, 0, 101, [0, 1], 2);
    assert r.syncMeta == [SyncMetaItem([0, 1, 3]), SyncMetaItem([0, 1])];
    assert TotalSynced(r.syncMeta) == 5 by {
      assert r.syncMeta[..1] == [SyncMetaItem([0, 1, 3])];
      assert [SyncMetaItem([0, 1, 3])][..0] == [];
    }
  }

  /** A second pass divides the first entry by the second pass's block count,
      not by its own: one synced block out of 3, then none out of 2, averages
      to 25, not to the mean 16.67 of the two passes' own shares. */
  lemma AveragingUsesCurrentCount()
    ensures ObserveMember(Some(ValidatorSummary(0, 102, true, Percent(1, 3), [SyncMetaItem([1])])),
                          0, 102, [], 2).syncPercent == 25.0
    ensures (Percent(1, 3) + Percent(0, 2)) / 2.0 != 25.0
  {
    var prev := Some(ValidatorSummary(0, 102, true, Percent(1, 3), [SyncMetaItem([1])]));
    var r := ObserveMember(prev, 0, 102, [], 2);
    assert r.syncMeta == [SyncMetaItem([1]), SyncMetaItem([])];
    assert TotalSynced(r.syncMeta) == 1 by {
      assert r.syncMeta[..1] == [SyncMetaItem([1])];
      assert [SyncMetaItem([1])][..0] == [];
    }
  }
}
