/** The slot window of one pass and the split of its slots into produced
    blocks and missed slots (sync.service.ts, `check`, lines 29-39). The
    consensus client is a total function from slot to an optional block:
    `None` is a missed slot. */
module EpochWindow {
  import opened SyncTypes

  /** The slots a pass over `epoch` examines, in increasing order: from
      `epoch * n` up to but excluding `epoch * n + n`, where `n` is
      FETCH_INTERVAL_SLOTS. */
  function Window(epoch: nat, n: nat): (w: seq<nat>)
    ensures |w| == n
    ensures forall i :: 0 <= i < n ==> w[i] == epoch * n + i
  {
    seq(n, i requires 0 <= i < n => epoch * n + i)
  }

  /** The blocks the client returns for `slots`, in slot order. */
  function Fetched(chain: nat -> Option<Block>, slots: seq<nat>): (blocks: seq<Block>)
  {
    if |slots| == 0 then []
    else
      var rest := Fetched(chain, slots[..|slots| - 1]);
      match chain(slots[|slots| - 1])
      case Some(b) => rest + [b]
      case None => rest
  }

  /** The slots of `slots` for which the client returns no block, in order. */
  function Missed(chain: nat -> Option<Block>, slots: seq<nat>): (missed: seq<nat>)
    ensures |missed| <= |slots|
    ensures forall s :: s in missed ==> chain(s).None?
  {
    if |slots| == 0 then []
    else
      var rest := Missed(chain, slots[..|slots| - 1]);
      if chain(slots[|slots| - 1]).None? then rest + [slots[|slots| - 1]] else rest
  }

  /** Every produced block is what the client returned for one of the
      examined slots, and every block the client returns for an examined
      slot is collected. */
  lemma {:induction false} FetchedFromChain(chain: nat -> Option<Block>, slots: seq<nat>)
    ensures forall b :: b in Fetched(chain, slots) ==> exists s :: s in slots && chain(s) == Some(b)
    ensures forall s :: s in slots && chain(s).Some? ==> chain(s).value in Fetched(chain, slots)
  {
    if |slots| > 0 {
      var init := slots[..|slots| - 1];
      var last := slots[|slots| - 1];
      FetchedFromChain(chain, init);
      assert slots == init + [last];
      assert forall s :: s in init ==> s in slots;
      assert last in slots;
    }
  }

  /** The missed list holds exactly the examined slots without a block, and
      keeps them in increasing order when they were examined that way. */
  lemma {:induction false} MissedSpec(chain: nat -> Option<Block>, slots: seq<nat>)
    ensures forall s :: s in Missed(chain, slots) <==> s in slots && chain(s).None?
    ensures StrictlyIncreasing(slots) ==> StrictlyIncreasing(Missed(chain, slots))
  {
    if |slots| > 0 {
      var init := slots[..|slots| - 1];
      var last := slots[|slots| - 1];
      var rest := Missed(chain, init);
      MissedSpec(chain, init);
      assert slots == init + [last];
      if StrictlyIncreasing(slots) {
        forall k | 0 <= k < |rest|
          ensures rest[k] < last
        {
          assert rest[k] in init;
        }
      }
    }
  }

  /** The client reports, for every block, the slot it was asked for. */
  ghost predicate ConsistentChain(chain: nat -> Option<Block>)
  {
    forall s :: chain(s).Some? ==> chain(s).value.slot == s
  }

  lemma WindowMembership(epoch: nat, n: nat, s: nat)
    ensures s in Window(epoch, n) <==> epoch * n <= s < epoch * n + n
  {
    if epoch * n <= s < epoch * n + n {
      assert Window(epoch, n)[s - epoch * n] == s;
    }
  }

  lemma WindowIncreasing(epoch: nat, n: nat)
    ensures StrictlyIncreasing(Window(epoch, n))
  {
  }

  /** Every examined slot lands in exactly one of the two lists: a slot with
      a block has that block collected and is not missed, a slot without one
      is missed; and the two lists together are as long as the slots. */
  lemma {:induction false} ClassificationPartition(chain: nat -> Option<Block>, slots: seq<nat>)
    ensures forall s :: s in slots && chain(s).Some? ==>
      chain(s).value in Fetched(chain, slots) && s !in Missed(chain, slots)
    ensures forall s :: s in slots && chain(s).None? ==> s in Missed(chain, slots)
    ensures |Fetched(chain, slots)| + |Missed(chain, slots)| == |slots|
  {
    FetchedFromChain(chain, slots);
    MissedSpec(chain, slots);
    if |slots| > 0 {
      ClassificationPartition(chain, slots[..|slots| - 1]);
    }
  }

  /** With a client that reports the asked-for slot, the produced list holds
      exactly the slots that have a block, in the order they were examined. */
  lemma {:induction false} FetchedSlots(chain: nat -> Option<Block>, slots: seq<nat>)
    requires ConsistentChain(chain)
    ensures forall s :: s in Slots(Fetched(chain, slots)) <==> s in slots && chain(s).Some?
    ensures StrictlyIncreasing(slots) ==> StrictlyIncreasing(Slots(Fetched(chain, slots)))
  {
    if |slots| > 0 {
      var init := slots[..|slots| - 1];
      var last := slots[|slots| - 1];
      FetchedSlots(chain, init);
      var rest := Fetched(chain, init);
      assert slots == init + [last];
      match chain(last)
      case Some(b) =>
        assert Slots(rest + [b]) == Slots(rest) + [last];
        if StrictlyIncreasing(slots) {
          forall k | 0 <= k < |Slots(rest)|
            ensures Slots(rest)[k] < last
          {
            assert Slots(rest)[k] in init;
          }
        }
      case None =>
    }
  }

  lemma MissedInWindow(chain: nat -> Option<Block>, epoch: nat, n: nat)
    ensures forall s :: s in Missed(chain, Window(epoch, n)) <==> epoch * n <= s < epoch * n + n && chain(s).None?
  {
    MissedSpec(chain, Window(epoch, n));
    forall s: nat
      ensures s in Missed(chain, Window(epoch, n)) <==> epoch * n <= s < epoch * n + n && chain(s).None?
    {
      WindowMembership(epoch, n, s);
    }
  }

  /** The loop at sync.service.ts:31-39: it walks the window slot by slot and
      pushes each slot's block, or the slot itself when it was missed. */
  method ScanWindow(chain: nat -> Option<Block>, epoch: nat, n: nat)
    returns (epochBlocks: seq<Block>, missedSlots: seq<nat>)
    ensures epochBlocks == Fetched(chain, Window(epoch, n))
    ensures |epochBlocks| + |missedSlots| == n
    ensures StrictlyIncreasing(missedSlots)
    ensures forall s :: s in missedSlots <==> epoch * n <= s < epoch * n + n && chain(s).None?
  {
    epochBlocks := [];
    missedSlots := [];
    ghost var w := Window(epoch, n);
    var startSlot := epoch * n;
    var slot := startSlot;
    ghost var k := 0;
    while slot < startSlot + n
      invariant slot == startSlot + k && k <= n
      invariant epochBlocks == Fetched(chain, w[..k])
      invariant missedSlots == Missed(chain, w[..k])
    {
      assert w[..k + 1][..k] == w[..k];
      assert w[k] == slot;
      var blockInfo := chain(slot);
      if blockInfo.Some? {
        epochBlocks := epochBlocks + [blockInfo.value];
      } else {
        missedSlots := missedSlots + [slot];
      }
      slot := slot + 1;
      k := k + 1;
    }
    assert w[..k] == w;
    ClassificationPartition(chain, w);
    WindowIncreasing(epoch, n);
    MissedSpec(chain, w);
    MissedInWindow(chain, epoch, n);
  }
}
