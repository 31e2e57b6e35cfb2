/** `getSyncCommitteeIndexedValidators` (sync.service.ts:99-107): the roster
    the client returns, numbered by position. The client call itself is a
    given input: the roster is the sequence of validator indices it returns. */
module Committee {
  import opened SyncTypes

  /** The validator indices of the members, in committee order. */
  function ValidatorIndices(members: seq<CommitteeMember>): (r: seq<nat>)
    ensures |r| == |members|
    ensures forall i :: 0 <= i < |members| ==> r[i] == members[i].validatorIndex
  {
    seq(|members|, i requires 0 <= i < |members| => members[i].validatorIndex)
  }

  /** The set of validators a roster names. */
  function RosterSet(members: seq<CommitteeMember>): (validators: set<nat>)
  {
    set m | m in members :: m.validatorIndex
  }

  /** One member per roster entry, its committee index being its position and
      its participation percent starting at 0; reading the validator indices
      back gives the roster. */
  function IndexedValidators(roster: seq<nat>): (members: seq<CommitteeMember>)
    ensures |members| == |roster|
    ensures ValidatorIndices(members) == roster
    ensures forall i :: 0 <= i < |members| ==> members[i].inCommitteeIndex == i
    ensures forall i :: 0 <= i < |members| ==> members[i].epochParticipationPercent == 0
  {
    seq(|roster|, i requires 0 <= i < |roster| => CommitteeMember(i, roster[i], 0))
  }

  /** The committee indices of one roster lie in 0 .. |roster|-1 and are
      pairwise distinct, so they are exactly that range; and the members
      name exactly the roster's validators. */
  lemma CommitteeIndicesContiguous(roster: seq<nat>)
    ensures forall m :: m in IndexedValidators(roster) ==> m.inCommitteeIndex < |roster|
    ensures forall i, j :: 0 <= i < j < |roster| ==>
      IndexedValidators(roster)[i].inCommitteeIndex != IndexedValidators(roster)[j].inCommitteeIndex
    ensures RosterSet(IndexedValidators(roster)) == set v | v in roster
  {
    var members := IndexedValidators(roster);
    forall v | v in roster
      ensures v in RosterSet(members)
    {
      var i :| 0 <= i < |roster| && roster[i] == v;
      assert members[i] in members;
    }
  }
}
