/** A worked pass: a committee of four validators (101, 102, 103, 104) over
    an epoch of four slots, where slot 2 is missed and the other blocks carry
    the bit vectors 1010, 1111 and 1000. */
module SyncScenarios {
  import opened SyncTypes
  import opened EpochWindow
  import opened Committee
  import opened Participation
  import opened SyncService

  function ScenarioChain(s: nat): (block: Option<Block>)
  {
    if s == 0 then Some(Block(0, [true, false, true, false]))
    else if s == 1 then Some(Block(1, [true, true, true, true]))
    else if s == 3 then Some(Block(3, [true, false, false, false]))
    else None
  }

  function ScenarioBlocks(): (blocks: seq<Block>)
  {
    [Block(0, [true, false, true, false]), Block(1, [true, true, true, true]),
     Block(3, [true, false, false, false])]
  }

  function ScenarioRoster(): (roster: seq<nat>)
  {
    [101, 102, 103, 104]
  }

  function ScenarioBits(): (bits: seq<BlockBits>)
  {
    [BlockBits(0, [true, false, true, false]),
     BlockBits(1, [true, true, true, true]),
     BlockBits(3, [true, false, false, false])]
  }

  function ScenarioMembers(): (members: seq<CommitteeMember>)
  {
    [CommitteeMember(0, 101, 0), CommitteeMember(1, 102, 0),
     CommitteeMember(2, 103, 0), CommitteeMember(3, 104, 0)]
  }

  function R101(): (rec: ValidatorSummary) { ValidatorSummary(0, 101, true, 100.0, [SyncMetaItem([0, 1, 3])]) }
  function R102(): (rec: ValidatorSummary) { ValidatorSummary(0, 102, true, 100.0 / 3.0, [SyncMetaItem([1])]) }
  function R103(): (rec: ValidatorSummary) { ValidatorSummary(0, 103, true, 200.0 / 3.0, [SyncMetaItem([0, 1])]) }
  function R104(): (rec: ValidatorSummary) { ValidatorSummary(0, 104, true, 100.0 / 3.0, [SyncMetaItem([1])]) }

  /** The records the first pass writes. */
  function ScenarioRecords(): (records: map<nat, ValidatorSummary>)
  {
    map[101 := R101(), 102 := R102(), 103 := R103(), 104 := R104()]
  }

  /** Slot 2 is missed; the other three slots give the produced blocks. */
  lemma ScenarioWindow()
    ensures Fetched(ScenarioChain, Window(0, 4)) == ScenarioBlocks()
  {
    var w := Window(0, 4);
    assert w == [0, 1, 2, 3];
    assert w[..3] == [0, 1, 2] && w[..3][..2] == [0, 1] && w[..3][..2][..1] == [0] && [0][..0] == [];
    assert Fetched(ScenarioChain, [0]) == [ScenarioBlocks()[0]];
    assert Fetched(ScenarioChain, [0, 1]) == ScenarioBlocks()[..2];
    assert Fetched(ScenarioChain, [0, 1, 2]) == ScenarioBlocks()[..2];
  }

  lemma ScenarioDecode()
    ensures DecodeAll(Fetched(ScenarioChain, Window(0, 4)), 4) == Ok(ScenarioBits())
  {
    ScenarioWindow();
    var b := ScenarioBlocks();
    var t1 := b[1..];
    var t2 := t1[1..];
    assert |t2[1..]| == 0 && t2[0] == b[2] && t1[0] == b[1];
    var d2 := [BlockBits(3, [true, false, false, false])];
    assert DecodeAll(t2[1..], 4) == Ok([]);
    assert d2 == [BlockBits(3, [true, false, false, false])] + [];
    assert DecodeAll(t2, 4) == Ok(d2);
    var d1 := [BlockBits(1, [true, true, true, true])] + d2;
    assert DecodeAll(t1, 4) == Ok(d1);
    assert [BlockBits(0, [true, false, true, false])] + d1 == ScenarioBits();
  }

  lemma ScenarioSynced()
    ensures SyncedBlocks(ScenarioBits(), 0) == [0, 1, 3]
    ensures SyncedBlocks(ScenarioBits(), 1) == [1]
    ensures SyncedBlocks(ScenarioBits(), 2) == [0, 1]
    ensures SyncedBlocks(ScenarioBits(), 3) == [1]
  {
    var b := ScenarioBits();
    assert b[..2] == [b[0], b[1]] && b[..2][..1] == [b[0]] && [b[0]][..0] == [];
    assert SyncedBlocks([b[0]], 0) == [0] && SyncedBlocks([b[0]], 1) == [];
    assert SyncedBlocks([b[0]], 2) == [0];
    assert !BitSet(b[0].bits, 3) && SyncedBlocks([b[0]], 3) == [];
  }

  /** Each member's record on first observation: 101 signed all three
      produced blocks, 102 and 104 one, 103 two. */
  lemma FreshRecords()
    ensures ObserveMember(None, 0, 101, SyncedBlocks(ScenarioBits(), 0), 3) == R101()
    ensures ObserveMember(None, 0, 102, SyncedBlocks(ScenarioBits(), 1), 3) == R102()
    ensures ObserveMember(None, 0, 103, SyncedBlocks(ScenarioBits(), 2), 3) == R103()
    ensures ObserveMember(None, 0, 104, SyncedBlocks(ScenarioBits(), 3), 3) == R104()
  {
    ScenarioSynced();
  }

  lemma ScenarioCommittee()
    ensures IndexedValidators(ScenarioRoster()) == ScenarioMembers()
  {
    var members := IndexedValidators(ScenarioRoster());
    assert ValidatorIndices(members) == ScenarioRoster();
    forall i | 0 <= i < 4
      ensures members[i] == ScenarioMembers()[i]
    {
      assert members[i].validatorIndex == ValidatorIndices(members)[i];
    }
  }

  lemma RosterSetOfFour(a: CommitteeMember, b: CommitteeMember, c: CommitteeMember, d: CommitteeMember)
    ensures RosterSet([a, b, c, d]) == {a.validatorIndex, b.validatorIndex, c.validatorIndex, d.validatorIndex}
  {
    assert a in [a, b, c, d] && b in [a, b, c, d] && c in [a, b, c, d] && d in [a, b, c, d];
  }

  lemma ScenarioKeys()
    ensures ObserveRoster(map[], 0, ScenarioMembers(), ScenarioBits()).Keys == {101, 102, 103, 104}
  {
    var ms := ScenarioMembers();
    RosterKeys(map[], 0, ms, ScenarioBits());
    RosterSetOfFour(ms[0], ms[1], ms[2], ms[3]);
  }

  /** Over a store holding none of the four validators, each record the
      roster loop writes is that member's first observation. */
  lemma ScenarioFresh(validators: map<nat, ValidatorSummary>)
    requires forall m :: m in ScenarioMembers() ==> m.validatorIndex !in validators
    ensures var r := ObserveRoster(validators, 0, ScenarioMembers(), ScenarioBits());
      forall i :: 0 <= i < 4 ==>
        && ScenarioMembers()[i].validatorIndex in r
        && r[ScenarioMembers()[i].validatorIndex]
           == ObserveMember(None, 0, ScenarioMembers()[i].validatorIndex, SyncedBlocks(ScenarioBits(), i), 3)
  {
    ScenarioDistinct();
    FreshRoster(validators, 0, ScenarioMembers(), ScenarioBits());
  }

  lemma ScenarioDistinct()
    ensures DistinctValidators(ScenarioMembers())
  {
    var ms := ScenarioMembers();
    assert ms[0].validatorIndex == 101 && ms[1].validatorIndex == 102;
    assert ms[2].validatorIndex == 103 && ms[3].validatorIndex == 104;
  }

  lemma ScenarioValues()
    ensures var r := ObserveRoster(map[], 0, ScenarioMembers(), ScenarioBits());
      && 101 in r && r[101] == R101() && 102 in r && r[102] == R102()
      && 103 in r && r[103] == R103() && 104 in r && r[104] == R104()
  {
    var ms := ScenarioMembers();
    ScenarioFresh(map[]);
    FreshRecords();
    assert ms[0].validatorIndex == 101 && ms[1].validatorIndex == 102;
    assert ms[2].validatorIndex == 103 && ms[3].validatorIndex == 104;
  }

  lemma ScenarioObserved()
    ensures ObserveRoster(map[], 0, ScenarioMembers(), ScenarioBits()) == ScenarioRecords()
  {
    ScenarioKeys();
    ScenarioValues();
  }

  /** The first pass over an empty store: validator 101 signed every produced
      block (100%), 102 and 104 one of three, 103 two of three, and the epoch
      meta lists the produced slots 0, 1 and 3. */
  lemma ScenarioFirstPass()
    ensures Check(ScenarioChain, 0, 4, 4, ScenarioRoster(), EpochSummary(map[], None))
            == Ok(EpochSummary(ScenarioRecords(), Some(SyncEpochMeta([0, 1, 3]))))
  {
    ScenarioDecode();
    ScenarioCommittee();
    ScenarioObserved();
    assert BitsSlots(ScenarioBits()) == [0, 1, 3];
  }
}
