/** Two drifts of Secrets, one after the other, that are reverted in any order and any number of
    attempts: when both values come back, also if their rollback Secrets share a name, or if they
    are drifts of two keys of one Secret. */
module DriftOverlap {
  import opened Wrappers
  import opened ConfigDrift
  import opened DriftTheorems

  datatype Drift = Drift(name: string, key: string, value: string)
  {
    function Ref(): string {
      RollbackName(name, key)
    }
  }

  function Value(s: Store, d: Drift): Option<string>
    requires d.name in s
  {
    Get(Data(s[d.name]), d.key)
  }

  /** Validation rejects the names of what the injectors manage themselves. */
  predicate Targetable(name: string) {
    !("chaos-rollback-" <= name)
  }

  /** Two keys to drift. */
  predicate Targets(s: Store, d1: Drift, d2: Drift) {
    && (d1.name != d2.name || d1.key != d2.key) && Targetable(d1.name) && Targetable(d2.name)
    && d1.name in s && s[d1.name].rollback.None? && d2.name in s && s[d2.name].rollback.None?
  }

  lemma RefIsNoTarget(d: Drift, name: string)
    requires Targetable(name)
    ensures d.Ref() != name && d.Ref() != ""
  {
    var prefix := "chaos-rollback-";
    assert d.Ref()[..|prefix|] == prefix;
  }

  function Drifted(s: Store, d: Drift): Store
    requires d.name in s
  {
    SecretInjection(s, d.name, d.key, d.value)[1]
  }

  function BothDrifted(s: Store, d1: Drift, d2: Drift): Store
    requires d1.name in s && d2.name in s
  {
    Drifted(Drifted(s, d1), d2)
  }

  /** Cut reverts of both, in any order, and writes of others. */
  ghost predicate Mixed(ss: seq<Store>, d1: Drift, d2: Drift) {
    forall i {:trigger ss[i]} | 0 < i < |ss| :: MixedStep(ss[i - 1], ss[i], d1, d2)
  }

  ghost predicate MixedStep(s: Store, s': Store, d1: Drift, d2: Drift) {
    || CutRevert(s, s', d1.name, d1.key) || CutRevert(s, s', d2.name, d2.key)
    || (OthersWrite(s, s', d1.name, d1.key) && OthersWrite(s, s', d2.name, d2.key))
  }

  /** A history after which both Secrets count as reverted. */
  ghost predicate BothReverted(s: Store, ss: seq<Store>, d1: Drift, d2: Drift) {
    && d1.name in s && d2.name in s
    && |ss| > 0 && ss[0] == BothDrifted(s, d1, d2) && Mixed(ss, d1, d2)
    && var last := ss[|ss| - 1];
       d1.name in last && last[d1.name].rollback.None? && d2.name in last && last[d2.name].rollback.None?
  }

  /** Then both values are what they were, whatever the history. */
  ghost predicate BothComeBack(s: Store, d1: Drift, d2: Drift)
    requires d1.name in s && d2.name in s
  {
    forall ss {:trigger BothReverted(s, ss, d1, d2)} | BothReverted(s, ss, d1, d2) ::
      Value(ss[|ss| - 1], d1) == Value(s, d1) && Value(ss[|ss| - 1], d2) == Value(s, d2)
  }

  /** The record of the second drift, as the revert of the first would read it. */
  function Misread(s: Store, d1: Drift, d2: Drift): Option<Option<string>>
    requires d2.name in s
  {
    Recorded(RollbackEntries(d2.key, Value(s, d2)), d1.key)
  }

  /** Each drift has its own Secret and its own rollback Secret. */
  predicate Apart(d1: Drift, d2: Drift) {
    d1.name != d2.name && d1.Ref() != d2.Ref()
  }

  /** Apart, both values have to be recoverable.  Otherwise the second must be, the first drift must have
      changed nothing, and if the record of the second can be read as one of the first, it must read the
      same, and the second drift must have changed nothing either. */
  predicate Separable(s: Store, d1: Drift, d2: Drift)
    requires d1.name in s && d2.name in s
  {
    && Recoverable(d2.key, Value(s, d2))
    && if Apart(d1, d2) then Recoverable(d1.key, Value(s, d1))
       else
         && Value(s, d1) == Some(d1.value)
         && (Misread(s, d1, d2).Some? ==> Misread(s, d1, d2).value == Value(s, d1) && Value(s, d2) == Some(d2.value))
  }

  lemma ReturnedIff(key: string, original: Option<string>)
    ensures Returned(key, original) == original <==> Recoverable(key, original)
  {
  }

  // --- drifts apart ---

  ghost predicate BothRecover(s: Store, d1: Drift, d2: Drift, o1: Option<string>, o2: Option<string>) {
    Recovers(s, d1.name, d1.key, o1) && Recovers(s, d2.name, d2.key, o2)
  }

  lemma RevertTouches(s: Store, s': Store, d: Drift, original: Option<string>, x: string)
    requires Recovers(s, d.name, d.key, original) && CutRevert(s, s', d.name, d.key) && x != d.name && x != d.Ref()
    ensures x in s' <==> x in s
    ensures x in s ==> s'[x] == s[x]
  {
    RollbackNameIsLonger(d.name, d.key);
    CutIsOneOf(s, s', d);
    if s[d.name].rollback.Some? && d.Ref() in s {
      RevertOfRecord(s, d.name, d.key, original);
      var restored := Put(s[d.name], d.key, Returned(d.key, original));
      ThreeWritesTouch(s, s', d, restored, x);
    }
  }

  lemma CutIsOneOf(s: Store, s': Store, d: Drift)
    requires CutRevert(s, s', d.name, d.key)
    ensures s' == s || (SecretRevert(s, d.name, d.key).Some? && s' in SecretRevert(s, d.name, d.key).value)
  {
  }

  lemma ThreeWritesTouch(s: Store, s': Store, d: Drift, restored: Object, x: string)
    requires var s1 := s[d.name := restored]; var s2 := s1 - {d.Ref()};
      s' == s || s' == s1 || s' == s2 || s' == s2[d.name := Unmark(restored)]
    requires x != d.name && x != d.Ref()
    ensures x in s' <==> x in s
    ensures x in s ==> s'[x] == s[x]
  {
  }

  lemma RevertIsForeign(s: Store, s': Store, d1: Drift, d2: Drift, o1: Option<string>, o2: Option<string>)
    requires BothRecover(s, d1, d2, o1, o2) && CutRevert(s, s', d1.name, d1.key)
    requires Targetable(d1.name) && Targetable(d2.name) && Apart(d1, d2)
    ensures BothRecover(s', d1, d2, o1, o2) && s'[d2.name] == s[d2.name]
  {
    CutRevertRecovers(s, s', d1.name, d1.key, o1);
    RefIsNoTarget(d1, d2.name);
    RefIsNoTarget(d2, d1.name);
    RevertTouches(s, s', d1, o1, d2.name);
    RevertTouches(s, s', d1, o1, d2.Ref());
    OthersKeepRecovers(s, s', d2.name, d2.key, o2);
  }

  lemma MixedStepRecovers(s: Store, s': Store, d1: Drift, d2: Drift, o1: Option<string>, o2: Option<string>)
    requires BothRecover(s, d1, d2, o1, o2) && MixedStep(s, s', d1, d2)
    requires Targetable(d1.name) && Targetable(d2.name) && Apart(d1, d2)
    ensures BothRecover(s', d1, d2, o1, o2)
  {
    if CutRevert(s, s', d1.name, d1.key) {
      RevertIsForeign(s, s', d1, d2, o1, o2);
    } else if CutRevert(s, s', d2.name, d2.key) {
      RevertIsForeign(s, s', d2, d1, o2, o1);
    } else {
      OthersKeepRecovers(s, s', d1.name, d1.key, o1);
      OthersKeepRecovers(s, s', d2.name, d2.key, o2);
    }
  }

  lemma {:induction false} MixedRecovers(ss: seq<Store>, d1: Drift, d2: Drift, o1: Option<string>, o2: Option<string>)
    requires |ss| > 0 && BothRecover(ss[0], d1, d2, o1, o2) && Mixed(ss, d1, d2)
    requires Targetable(d1.name) && Targetable(d2.name) && Apart(d1, d2)
    ensures BothRecover(ss[|ss| - 1], d1, d2, o1, o2)
  {
    if |ss| > 1 {
      MixedRecovers(ss[..|ss| - 1], d1, d2, o1, o2);
      MixedStepRecovers(ss[|ss| - 2], ss[|ss| - 1], d1, d2, o1, o2);
    }
  }

  lemma BothDriftedRecover(s: Store, d1: Drift, d2: Drift)
    requires Targets(s, d1, d2) && Apart(d1, d2)
    ensures BothRecover(BothDrifted(s, d1, d2), d1, d2, Value(s, d1), Value(s, d2))
  {
    RefIsNoTarget(d1, d2.name);
    RefIsNoTarget(d2, d1.name);
    InjectionRecovers(s, d1.name, d1.key, d1.value);
    InjectionRecovers(Drifted(s, d1), d2.name, d2.key, d2.value);
  }

  /** The whole of a revert, as one attempt. */
  lemma FullRevert(s: Store, d: Drift) returns (s': Store)
    requires SecretRevert(s, d.name, d.key).Some?
    ensures var writes := SecretRevert(s, d.name, d.key).value;
      s' == Written(s, writes, |writes|) && CutRevert(s, s', d.name, d.key)
  {
    var writes := SecretRevert(s, d.name, d.key).value;
    s' := Written(s, writes, |writes|);
  }

  lemma ApartIff(s: Store, d1: Drift, d2: Drift)
    requires Targets(s, d1, d2) && Apart(d1, d2)
    ensures BothComeBack(s, d1, d2) <==> Separable(s, d1, d2)
  {
    var o1, o2 := Value(s, d1), Value(s, d2);
    BothDriftedRecover(s, d1, d2);
    ReturnedIff(d1.key, o1);
    ReturnedIff(d2.key, o2);
    if Separable(s, d1, d2) {
      forall ss | BothReverted(s, ss, d1, d2)
        ensures Value(ss[|ss| - 1], d1) == o1 && Value(ss[|ss| - 1], d2) == o2
      {
        MixedRecovers(ss, d1, d2, o1, o2);
      }
    } else {
      var ss := OneAfterTheOther(s, d1, d2);
      assert BothReverted(s, ss, d1, d2);
    }
  }

  lemma OneAfterTheOther(s: Store, d1: Drift, d2: Drift) returns (ss: seq<Store>)
    requires Targets(s, d1, d2) && Apart(d1, d2)
    ensures BothReverted(s, ss, d1, d2)
    ensures Value(ss[|ss| - 1], d1) == Returned(d1.key, Value(s, d1)) && Value(ss[|ss| - 1], d2) == Returned(d2.key, Value(s, d2))
  {
    var o1, o2, t := Value(s, d1), Value(s, d2), BothDrifted(s, d1, d2);
    BothDriftedRecover(s, d1, d2);
    RevertEnds(t, d1.name, d1.key, o1);
    var t1 := FullRevert(t, d1);
    RevertIsForeign(t, t1, d1, d2, o1, o2);
    RevertEnds(t1, d2.name, d2.key, o2);
    var t2 := FullRevert(t1, d2);
    RevertIsForeign(t1, t2, d2, d1, o2, o1);
    TwoReverts(s, t1, t2, d1, d2);
    ss := [t, t1, t2];
  }

  // --- drifts that are not apart ---

  ghost predicate RefersTo(o: Object, ref: string) {
    && ref != ""
    && (o.rollback.Some? ==> o.rollback.value.Wrapped? && Get(o.rollback.value.info, "rollbackSecretRef") == Some(ref))
  }

  /** What marks there are name one rollback Secret, which holds the record if it is there. */
  ghost predicate SharedMarks(s: Store, d1: Drift, d2: Drift, record: Entries) {
    && (d1.name != d2.name || d1.key != d2.key)
    && d1.name in s && d2.name in s && d2.Ref() != d1.name && d2.Ref() != d2.name
    && RefersTo(s[d1.name], d2.Ref()) && RefersTo(s[d2.name], d2.Ref())
    && (d2.Ref() in s ==> s[d2.Ref()].data == Some(record))
  }

  lemma SharedAfterDrifts(s: Store, d1: Drift, d2: Drift)
    requires Targets(s, d1, d2) && !Apart(d1, d2)
    ensures var t := BothDrifted(s, d1, d2);
      && SharedMarks(t, d1, d2, RollbackEntries(d2.key, Value(s, d2)))
      && t[d1.name].rollback.Some? && t[d2.name].rollback.Some? && d2.Ref() in t
      && Value(t, d1) == Some(d1.value) && Value(t, d2) == Some(d2.value)
  {
    RefIsNoTarget(d1, d1.name);
    RefIsNoTarget(d1, d2.name);
    RefIsNoTarget(d2, d1.name);
    RefIsNoTarget(d2, d2.name);
    assert Value(Drifted(s, d1), d2) == Value(s, d2);
  }

  /** The writes of a revert that finds a mark. */
  lemma SharedRevert(s: Store, d: Drift, ref: string, record: Entries)
    requires d.name in s && s[d.name].rollback.Some? && RefersTo(s[d.name], ref)
    requires ref in s ==> s[ref].data == Some(record)
    ensures ref !in s ==> SecretRevert(s, d.name, d.key) == Some([s[d.name := Unmark(s[d.name])]])
    ensures ref in s && Recorded(record, d.key).None? ==> SecretRevert(s, d.name, d.key).None?
    ensures ref in s && Recorded(record, d.key).Some? ==>
      var restored := Put(s[d.name], d.key, Recorded(record, d.key).value);
      var s1 := s[d.name := restored]; var s2 := s1 - {ref};
      SecretRevert(s, d.name, d.key) == Some([s1, s2, s2[d.name := Unmark(restored)]])
  {
  }

  /** What stays so, if the drifts are separable: the first value is what it was; so is the second, unless
      its record is there, is not to be misread, and the Secret is marked. */
  ghost predicate Keeps(s: Store, d1: Drift, d2: Drift, o1: Option<string>, o2: Option<string>) {
    var record := RollbackEntries(d2.key, o2);
    && SharedMarks(s, d1, d2, record) && Value(s, d1) == o1
    && (Value(s, d2) == o2 || (d2.Ref() in s && s[d2.name].rollback.Some? && Recorded(record, d1.key).None?))
  }

  /** The states between the writes of a revert that writes back v. */
  predicate OneOfTheWrites(s: Store, s': Store, d: Drift, ref: string, v: Option<string>)
    requires d.name in s
  {
    var restored := Put(s[d.name], d.key, v);
    var s1 := s[d.name := restored]; var s2 := s1 - {ref};
    s' == s || s' == s1 || s' == s2 || s' == s2[d.name := Unmark(restored)]
  }

  lemma PutAndGet(o: Object, key: string, v: Option<string>, other: string)
    ensures Get(Data(Put(o, key, v)), key) == v && Get(Data(Unmark(Put(o, key, v))), key) == v
    ensures other != key ==>
      Get(Data(Put(o, key, v)), other) == Get(Data(o), other) && Get(Data(Unmark(Put(o, key, v))), other) == Get(Data(o), other)
  {
  }

  lemma FirstRevertKeeps(s: Store, s': Store, d1: Drift, d2: Drift, o1: Option<string>, o2: Option<string>)
    requires Keeps(s, d1, d2, o1, o2) && CutRevert(s, s', d1.name, d1.key)
    requires var misread := Recorded(RollbackEntries(d2.key, o2), d1.key); misread.Some? ==> misread.value == o1
    ensures Keeps(s', d1, d2, o1, o2)
  {
    CutIsOneOf(s, s', d1);
    if s[d1.name].rollback.Some? {
      SharedRevert(s, d1, d2.Ref(), RollbackEntries(d2.key, o2));
      if d2.Ref() !in s {
        UnmarkingKeeps(s, s', d1, d2, d1, o1, o2);
      } else if Recorded(RollbackEntries(d2.key, o2), d1.key).Some? {
        FirstWritesKeep(s, s', d1, d2, o1, o2);
      }
    }
  }

  lemma UnmarkingKeeps(s: Store, s': Store, d1: Drift, d2: Drift, d: Drift, o1: Option<string>, o2: Option<string>)
    requires Keeps(s, d1, d2, o1, o2) && d2.Ref() !in s && (d == d1 || d == d2)
    requires s' == s || s' == s[d.name := Unmark(s[d.name])]
    ensures Keeps(s', d1, d2, o1, o2)
  {
  }

  lemma FirstWritesKeep(s: Store, s': Store, d1: Drift, d2: Drift, o1: Option<string>, o2: Option<string>)
    requires Keeps(s, d1, d2, o1, o2) && s[d1.name].rollback.Some? && Value(s, d2) == o2
    requires OneOfTheWrites(s, s', d1, d2.Ref(), o1)
    ensures Keeps(s', d1, d2, o1, o2)
  {
    PutAndGet(s[d1.name], d1.key, o1, d2.key);
  }

  lemma SecondRevertKeeps(s: Store, s': Store, d1: Drift, d2: Drift, o1: Option<string>, o2: Option<string>)
    requires Keeps(s, d1, d2, o1, o2) && CutRevert(s, s', d2.name, d2.key) && Recoverable(d2.key, o2)
    ensures Keeps(s', d1, d2, o1, o2)
  {
    CutIsOneOf(s, s', d2);
    RecordIsFaithfulIff(d2.key, o2);
    if s[d2.name].rollback.Some? {
      SharedRevert(s, d2, d2.Ref(), RollbackEntries(d2.key, o2));
      if d2.Ref() !in s {
        UnmarkingKeeps(s, s', d1, d2, d2, o1, o2);
      } else {
        SecondWritesKeep(s, s', d1, d2, o1, o2);
      }
    }
  }

  lemma SecondWritesKeep(s: Store, s': Store, d1: Drift, d2: Drift, o1: Option<string>, o2: Option<string>)
    requires Keeps(s, d1, d2, o1, o2) && s[d2.name].rollback.Some? && OneOfTheWrites(s, s', d2, d2.Ref(), o2)
    ensures Keeps(s', d1, d2, o1, o2)
  {
    PutAndGet(s[d2.name], d2.key, o2, d1.key);
  }

  lemma {:induction false} MixedKeeps(ss: seq<Store>, d1: Drift, d2: Drift, o1: Option<string>, o2: Option<string>)
    requires |ss| > 0 && Keeps(ss[0], d1, d2, o1, o2) && Mixed(ss, d1, d2) && Recoverable(d2.key, o2)
    requires var misread := Recorded(RollbackEntries(d2.key, o2), d1.key); misread.Some? ==> misread.value == o1
    ensures Keeps(ss[|ss| - 1], d1, d2, o1, o2)
  {
    if |ss| > 1 {
      MixedKeeps(ss[..|ss| - 1], d1, d2, o1, o2);
      MixedStepKeeps(ss[|ss| - 2], ss[|ss| - 1], d1, d2, o1, o2);
    }
  }

  lemma MixedStepKeeps(s: Store, s': Store, d1: Drift, d2: Drift, o1: Option<string>, o2: Option<string>)
    requires Keeps(s, d1, d2, o1, o2) && MixedStep(s, s', d1, d2) && Recoverable(d2.key, o2)
    requires var misread := Recorded(RollbackEntries(d2.key, o2), d1.key); misread.Some? ==> misread.value == o1
    ensures Keeps(s', d1, d2, o1, o2)
  {
    if CutRevert(s, s', d1.name, d1.key) {
      FirstRevertKeeps(s, s', d1, d2, o1, o2);
    } else if CutRevert(s, s', d2.name, d2.key) {
      SecondRevertKeeps(s, s', d1, d2, o1, o2);
    }
  }

  /** A whole revert that finds the record. */
  lemma RevertWithRecord(s: Store, d1: Drift, d2: Drift, d: Drift, other: Drift, record: Entries) returns (s': Store)
    requires SharedMarks(s, d1, d2, record) && ((d == d1 && other == d2) || (d == d2 && other == d1))
    requires s[d.name].rollback.Some? && d2.Ref() in s && Recorded(record, d.key).Some?
    ensures CutRevert(s, s', d.name, d.key) && SharedMarks(s', d1, d2, record) && d2.Ref() !in s'
    ensures s'[d.name].rollback.None? && Value(s', d) == Recorded(record, d.key).value && Value(s', other) == Value(s, other)
  {
    SharedRevert(s, d, d2.Ref(), record);
    PutAndGet(s[d.name], d.key, Recorded(record, d.key).value, other.key);
    s' := FullRevert(s, d);
  }

  /** A whole revert without the record changes no value. */
  lemma RevertWithoutRecord(s: Store, d1: Drift, d2: Drift, d: Drift, other: Drift, record: Entries) returns (s': Store)
    requires SharedMarks(s, d1, d2, record) && ((d == d1 && other == d2) || (d == d2 && other == d1))
    requires d2.Ref() !in s && s[other.name].rollback.None?
    ensures CutRevert(s, s', d.name, d.key) && d.name in s' && other.name in s'
    ensures s'[d.name].rollback.None? && s'[other.name].rollback.None?
    ensures Value(s', d) == Value(s, d) && Value(s', other) == Value(s, other)
  {
    if s[d.name].rollback.Some? { SharedRevert(s, d, d2.Ref(), record); }
    s' := FullRevert(s, d);
  }

  lemma TwoReverts(s: Store, t1: Store, t2: Store, d1: Drift, d2: Drift)
    requires d1.name in s && d2.name in s
    requires MixedStep(BothDrifted(s, d1, d2), t1, d1, d2) && MixedStep(t1, t2, d1, d2)
    requires d1.name in t2 && t2[d1.name].rollback.None? && d2.name in t2 && t2[d2.name].rollback.None?
    ensures BothReverted(s, [BothDrifted(s, d1, d2), t1, t2], d1, d2)
  {
    var ss := [BothDrifted(s, d1, d2), t1, t2];
    forall i {:trigger ss[i]} | 0 < i < |ss| ensures MixedStep(ss[i - 1], ss[i], d1, d2) {
      assert i == 1 || i == 2;
    }
  }

  /** Reverting the second drift first takes the record, or the mark, away: the revert of the first
      then succeeds and leaves the drifted value in place. */
  lemma SecondRevertedFirst(s: Store, d1: Drift, d2: Drift) returns (ss: seq<Store>)
    requires Targets(s, d1, d2) && !Apart(d1, d2)
    ensures BothReverted(s, ss, d1, d2)
    ensures Value(ss[|ss| - 1], d1) == Some(d1.value) && Value(ss[|ss| - 1], d2) == Returned(d2.key, Value(s, d2))
  {
    var t, record := BothDrifted(s, d1, d2), RollbackEntries(d2.key, Value(s, d2));
    SharedAfterDrifts(s, d1, d2);
    RecordIsReturned(d2.key, Value(s, d2));
    var t1 := RevertWithRecord(t, d1, d2, d2, d1, record);
    var t2 := RevertWithoutRecord(t1, d1, d2, d1, d2, record);
    TwoReverts(s, t1, t2, d1, d2);
    ss := [t, t1, t2];
  }

  lemma RecordIsReturned(key: string, original: Option<string>)
    ensures Recorded(RollbackEntries(key, original), key) == Some(Returned(key, original))
  {
  }

  /** Reverting the first drift first writes what it reads in the record of the second, if that can be
      read, and takes it away: the second key keeps its drifted value. */
  lemma FirstRevertedFirst(s: Store, d1: Drift, d2: Drift) returns (ss: seq<Store>)
    requires Targets(s, d1, d2) && !Apart(d1, d2) && Misread(s, d1, d2).Some?
    ensures BothReverted(s, ss, d1, d2)
    ensures Value(ss[|ss| - 1], d1) == Misread(s, d1, d2).value && Value(ss[|ss| - 1], d2) == Some(d2.value)
  {
    var t, record := BothDrifted(s, d1, d2), RollbackEntries(d2.key, Value(s, d2));
    SharedAfterDrifts(s, d1, d2);
    var t1 := RevertWithRecord(t, d1, d2, d1, d2, record);
    var t2 := RevertWithoutRecord(t1, d1, d2, d2, d1, record);
    TwoReverts(s, t1, t2, d1, d2);
    ss := [t, t1, t2];
  }

  lemma SharedIff(s: Store, d1: Drift, d2: Drift)
    requires Targets(s, d1, d2) && !Apart(d1, d2)
    ensures BothComeBack(s, d1, d2) <==> Separable(s, d1, d2)
  {
    var o1, o2 := Value(s, d1), Value(s, d2);
    ReturnedIff(d2.key, o2);
    if Separable(s, d1, d2) {
      SharedAfterDrifts(s, d1, d2);
      forall ss | BothReverted(s, ss, d1, d2)
        ensures Value(ss[|ss| - 1], d1) == o1 && Value(ss[|ss| - 1], d2) == o2
      {
        MixedKeeps(ss, d1, d2, o1, o2);
      }
    } else {
      var ss := SecondRevertedFirst(s, d1, d2);
      if Misread(s, d1, d2).Some? {
        var ss' := FirstRevertedFirst(s, d1, d2);
      }
    }
  }

  /** For all pairs of drifts, both values come back after every history if and only if the drifts are
      separable. */
  lemma BothComeBackIff(s: Store, d1: Drift, d2: Drift)
    requires Targets(s, d1, d2)
    ensures BothComeBack(s, d1, d2) <==> Separable(s, d1, d2)
  {
    if Apart(d1, d2) { ApartIff(s, d1, d2); } else { SharedIff(s, d1, d2); }
  }

  /** A Secret "app" with key "db-pw" and a Secret "app-db" with key "pw" share their rollback Secret.
      When both are drifted, the revert of the first fails; and once the second is reverted, that of the
      first succeeds with the drifted value in place. */
  lemma CollisionExample(s: Store, v1: string, v2: string) returns (ss: seq<Store>)
    requires var d1, d2 := Drift("app", "db-pw", v1), Drift("app-db", "pw", v2);
      Targets(s, d1, d2) && Value(s, d1) != Some(v1) && Value(s, d2).Some?
    ensures var d1, d2 := Drift("app", "db-pw", v1), Drift("app-db", "pw", v2);
      && SecretRevert(BothDrifted(s, d1, d2), d1.name, d1.key).None?
      && BothReverted(s, ss, d1, d2) && Value(ss[|ss| - 1], d1) == Some(v1) != Value(s, d1)
  {
    var d1, d2 := Drift("app", "db-pw", v1), Drift("app-db", "pw", v2);
    SharedExampleName(v1, v2);
    SharedAfterDrifts(s, d1, d2);
    SharedRevert(BothDrifted(s, d1, d2), d1, d2.Ref(), RollbackEntries(d2.key, Value(s, d2)));
    ss := SecondRevertedFirst(s, d1, d2);
  }

  lemma {:induction false} SanitizedLength(key: string)
    ensures |Sanitized(key)| == |key|
  {
    if key != "" { SanitizedLength(key[1..]); }
  }

  lemma SharedExampleName(v1: string, v2: string)
    ensures Drift("app", "db-pw", v1).Ref() == Drift("app-db", "pw", v2).Ref()
  {
    assert "db-pw" == "db" + "-" + "pw" && "app-db" == "app" + "-" + "db" && "db"[1..] == "b" && "b"[1..] == "";
    assert Sanitized("b") == "b" && Sanitized("db") == "db";
    SanitizedLength("db-pw");
    RollbackNamesCollide("app", "db", "pw");
  }

  // --- two drifts of ConfigMaps ---

  function BothConfigMapsDrifted(s: Store, d1: Drift, d2: Drift): Store
    requires d1.name in s && d2.name in s
  {
    ConfigMapInjection(ConfigMapInjection(s, d1.name, d1.key, d1.value), d2.name, d2.key, d2.value)
  }

  ghost predicate MixedConfigMapStep(s: Store, s': Store, d1: Drift, d2: Drift) {
    || CutConfigMapRevert(s, s', d1.name, d1.key) || CutConfigMapRevert(s, s', d2.name, d2.key)
    || (OthersWriteConfigMap(s, s', d1.name, d1.key) && OthersWriteConfigMap(s, s', d2.name, d2.key))
  }

  ghost predicate BothConfigMapsReverted(s: Store, ss: seq<Store>, d1: Drift, d2: Drift) {
    && d1.name in s && d2.name in s
    && |ss| > 0 && ss[0] == BothConfigMapsDrifted(s, d1, d2)
    && (forall i {:trigger ss[i]} | 0 < i < |ss| :: MixedConfigMapStep(ss[i - 1], ss[i], d1, d2))
    && var last := ss[|ss| - 1];
       d1.name in last && last[d1.name].rollback.None? && d2.name in last && last[d2.name].rollback.None?
  }

  ghost predicate BothConfigMapsComeBack(s: Store, d1: Drift, d2: Drift)
    requires d1.name in s && d2.name in s
  {
    forall ss {:trigger BothConfigMapsReverted(s, ss, d1, d2)} | BothConfigMapsReverted(s, ss, d1, d2) ::
      Value(ss[|ss| - 1], d1) == Value(s, d1) && Value(ss[|ss| - 1], d2) == Value(s, d2)
  }

  /** What stays so, for different ConfigMaps or for drifts that changed nothing and agree. */
  ghost predicate ConfigMapsKeep(s: Store, d1: Drift, d2: Drift, o1: Option<string>, o2: Option<string>) {
    if d1.name != d2.name then ConfigMapRecovers(s, d1.name, d1.key, o1) && ConfigMapRecovers(s, d2.name, d2.key, o2)
    else
      && d1.name in s && Value(s, d1) == o1 && Value(s, d2) == o2
      && (s[d1.name].rollback.Some? ==> s[d1.name].rollback.value == Wrapped(ConfigMapInfo(d2.key, o2)))
  }

  lemma ConfigMapsKeepOn(s: Store, s': Store, d1: Drift, d2: Drift, o1: Option<string>, o2: Option<string>)
    requires ConfigMapsKeep(s, d1, d2, o1, o2) && MixedConfigMapStep(s, s', d1, d2)
    requires d1.name != d2.name || (d1.key != d2.key && o1 == o2)
    ensures ConfigMapsKeep(s', d1, d2, o1, o2)
  {
    if d1.name != d2.name {
      ConfigMapRevertEnds(s, d1.name, d1.key, o1);
      ConfigMapRevertEnds(s, d2.name, d2.key, o2);
    } else if s[d1.name].rollback.Some? {
      PutAndGet(s[d1.name], d1.key, o1, d2.key);
      PutAndGet(s[d2.name], d2.key, o2, d1.key);
    }
  }

  lemma {:induction false} ConfigMapHistoryKeeps(ss: seq<Store>, d1: Drift, d2: Drift, o1: Option<string>, o2: Option<string>)
    requires |ss| > 0 && ConfigMapsKeep(ss[0], d1, d2, o1, o2)
    requires forall i {:trigger ss[i]} | 0 < i < |ss| :: MixedConfigMapStep(ss[i - 1], ss[i], d1, d2)
    requires d1.name != d2.name || (d1.key != d2.key && o1 == o2)
    ensures ConfigMapsKeep(ss[|ss| - 1], d1, d2, o1, o2)
  {
    if |ss| > 1 {
      ConfigMapHistoryKeeps(ss[..|ss| - 1], d1, d2, o1, o2);
      ConfigMapsKeepOn(ss[|ss| - 2], ss[|ss| - 1], d1, d2, o1, o2);
    }
  }

  /** Of two keys of one ConfigMap, the record of the second is the only one: whichever drift is reverted
      first gets the original of the second, and the other keeps its drifted value. */
  lemma FirstConfigMapRevert(s: Store, d1: Drift, d2: Drift, d: Drift) returns (ss: seq<Store>)
    requires d1.name == d2.name && d1.key != d2.key && d1.name in s && s[d1.name].rollback.None? && (d == d1 || d == d2)
    ensures BothConfigMapsReverted(s, ss, d1, d2)
    ensures Value(ss[|ss| - 1], d) == Value(s, d2)
    ensures d == d1 ==> Value(ss[|ss| - 1], d2) == Some(d2.value)
    ensures d == d2 ==> Value(ss[|ss| - 1], d1) == Some(d1.value)
  {
    var t, o2 := BothConfigMapsDrifted(s, d1, d2), Value(s, d2);
    var restored := Put(t[d.name], d.key, o2);
    var t' := t[d.name := Unmark(restored)];
    assert ConfigMapRevert(t, d.name, d.key) == Some([t']);
    assert t' == Written(t, [t'], 1);
    PutAndGet(t[d.name], d.key, o2, if d == d1 then d2.key else d1.key);
    ss := [t, t'];
    assert MixedConfigMapStep(t, t', d1, d2);
  }

  /** Two drifts of ConfigMaps both come back after every history if and only if they are of different
      ConfigMaps, or changed nothing and wrote the same. */
  lemma BothConfigMapsComeBackIff(s: Store, d1: Drift, d2: Drift)
    requires d1.name in s && s[d1.name].rollback.None? && d2.name in s && s[d2.name].rollback.None?
    requires d1.name != d2.name || d1.key != d2.key
    ensures BothConfigMapsComeBack(s, d1, d2) <==>
      d1.name != d2.name || (Value(s, d1) == Some(d1.value) && Value(s, d2) == Some(d2.value) && d1.value == d2.value)
  {
    var o1, o2 := Value(s, d1), Value(s, d2);
    if d1.name != d2.name || (o1 == Some(d1.value) && o2 == Some(d2.value) && o1 == o2) {
      forall ss | BothConfigMapsReverted(s, ss, d1, d2)
        ensures Value(ss[|ss| - 1], d1) == o1 && Value(ss[|ss| - 1], d2) == o2
      {
        assert ConfigMapsKeep(ss[0], d1, d2, o1, o2);
        ConfigMapHistoryKeeps(ss, d1, d2, o1, o2);
      }
    } else {
      var ss := FirstConfigMapRevert(s, d1, d2, d1);
      var ss' := FirstConfigMapRevert(s, d1, d2, d2);
    }
  }
}
