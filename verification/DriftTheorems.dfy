/** Drift followed by any number of interrupted reverts. */
module DriftTheorems {
  import opened Wrappers
  import opened ConfigDrift

  lemma RollbackNameIsLonger(name: string, key: string)
    ensures RollbackName(name, key) != name && RollbackName(name, key) != ""
  {
    assert |RollbackName(name, key)| > |name|;
  }

  /** The record of a value gives it back if and only if the key is not the one under which the
      record keeps its flag, or the key was absent, or its value is what the flag says. */
  predicate Recoverable(key: string, original: Option<string>) {
    key != "keyExists" || original.None? || original == Some("true")
  }

  lemma RecordIsFaithfulIff(key: string, original: Option<string>)
    ensures Recorded(RollbackEntries(key, original), key) == Some(original) <==> Recoverable(key, original)
    ensures Recorded(RollbackEntries(key, original), key).Some?
  {
  }

  /** What a revert of the record writes back. */
  function Returned(key: string, original: Option<string>): Option<string> {
    if key == "keyExists" && original.Some? then Some("true") else original
  }

  /** Nothing but the key, the annotation and the chaos labels differs. */
  ghost predicate OnlyDrifts(o: Object, o': Object, key: string) {
    Data(o) - {key} == Data(o') - {key} && o.labels - CHAOS_LABELS.Keys == o'.labels - CHAOS_LABELS.Keys
  }

  /** Between injection and completed revert: while the annotation is there, the rollback Secret
      holds the record or the value is back already; without it, the value is back. */
  ghost predicate Recovers(s: Store, name: string, key: string, original: Option<string>) {
    && name in s
    && match s[name].rollback {
       case None => Get(Data(s[name]), key) == Returned(key, original)
       case Some(e) =>
         && e == Wrapped(SecretInfo(name, key))
         && (if RollbackName(name, key) in s
             then s[RollbackName(name, key)].data == Some(RollbackEntries(key, original))
             else Get(Data(s[name]), key) == Returned(key, original))
       }
  }

  /** A revert attempt, cut off after any of its writes. */
  ghost predicate CutRevert(s: Store, s': Store, name: string, key: string) {
    var writes := SecretRevert(s, name, key);
    if writes.None? then s' == s else exists n :: 0 <= n <= |writes.value| && s' == Written(s, writes.value, n)
  }

  /** What others may do meanwhile: anything but to touch the key, the annotation or the rollback Secret. */
  ghost predicate OthersWrite(s: Store, s': Store, name: string, key: string) {
    var ref := RollbackName(name, key);
    && name in s && name in s' && s[name].rollback == s'[name].rollback
    && Get(Data(s[name]), key) == Get(Data(s'[name]), key)
    && (ref in s <==> ref in s') && (ref in s ==> s[ref] == s'[ref])
  }

  lemma InjectionRecovers(s: Store, name: string, key: string, value: string)
    requires name in s && s[name].rollback.None?
    ensures var original, writes := Get(Data(s[name]), key), SecretInjection(s, name, key, value);
      && Recovers(writes[1], name, key, original) && OnlyDrifts(s[name], writes[1][name], key)
      && writes[0][name] == s[name]
  {
    RollbackNameIsLonger(name, key);
    assert (s[name].labels + CHAOS_LABELS) - CHAOS_LABELS.Keys == s[name].labels - CHAOS_LABELS.Keys;
  }

  /** The writes of a revert that finds the rollback Secret. */
  lemma RevertOfRecord(s: Store, name: string, key: string, original: Option<string>)
    requires Recovers(s, name, key, original) && s[name].rollback.Some? && RollbackName(name, key) in s
    ensures var restored := Put(s[name], key, Returned(key, original));
      var s1 := s[name := restored]; var s2 := s1 - {RollbackName(name, key)};
      SecretRevert(s, name, key) == Some([s1, s2, s2[name := Unmark(restored)]])
  {
    RollbackNameIsLonger(name, key);
    RecordIsFaithfulIff(key, original);
  }

  lemma CutRevertRecovers(s: Store, s': Store, name: string, key: string, original: Option<string>)
    requires Recovers(s, name, key, original) && CutRevert(s, s', name, key)
    ensures Recovers(s', name, key, original) && OnlyDrifts(s[name], s'[name], key)
  {
    RollbackNameIsLonger(name, key);
    if s[name].rollback.Some? && RollbackName(name, key) in s {
      RevertOfRecord(s, name, key, original);
      RestoringRecovers(s, name, key, original);
      var n :| 0 <= n <= 3 && s' == Written(s, SecretRevert(s, name, key).value, n);
    }
  }

  lemma RestoringRecovers(s: Store, name: string, key: string, original: Option<string>)
    requires Recovers(s, name, key, original) && s[name].rollback.Some? && RollbackName(name, key) in s
    ensures var restored := Put(s[name], key, Returned(key, original));
      var s1 := s[name := restored]; var s2 := s1 - {RollbackName(name, key)}; var s3 := s2[name := Unmark(restored)];
      && Recovers(s1, name, key, original) && OnlyDrifts(s[name], restored, key)
      && name in s2 && s2[name] == restored && Recovers(s2, name, key, original)
      && Recovers(s3, name, key, original) && OnlyDrifts(s[name], s3[name], key)
  {
    RollbackNameIsLonger(name, key);
    var restored := Put(s[name], key, Returned(key, original));
    assert Get(Data(restored), key) == Returned(key, original);
    assert Data(restored) - {key} == Data(s[name]) - {key};
    assert Unmark(restored).labels - CHAOS_LABELS.Keys == s[name].labels - CHAOS_LABELS.Keys;
  }

  /** The rollback Secret that the mark of the object names. */
  function NamedRollback(s: Store, name: string): set<string> {
    if name in s && s[name].rollback.Some? && s[name].rollback.value.Wrapped? && "rollbackSecretRef" in s[name].rollback.value.info
    then {s[name].rollback.value.info["rollbackSecretRef"]} else {}
  }

  /** A revert, cut off or not, touches nothing but the object and the rollback Secret. */
  lemma CutRevertKeepsOthers(s: Store, s': Store, name: string, key: string)
    ensures CutRevert(s, s', name, key) ==> s' - {name} - NamedRollback(s, name) == s - {name} - NamedRollback(s, name)
    ensures CutConfigMapRevert(s, s', name, key) ==> s' - {name} == s - {name}
  {
  }

  lemma OthersKeepRecovers(s: Store, s': Store, name: string, key: string, original: Option<string>)
    requires Recovers(s, name, key, original) && OthersWrite(s, s', name, key)
    ensures Recovers(s', name, key, original)
  {
  }

  /** A history of revert attempts, cut off anywhere, and writes of others. */
  ghost predicate History(ss: seq<Store>, name: string, key: string) {
    forall i {:trigger ss[i]} | 0 < i < |ss| :: HistoryStep(ss[i - 1], ss[i], name, key)
  }

  ghost predicate HistoryStep(s: Store, s': Store, name: string, key: string) {
    CutRevert(s, s', name, key) || OthersWrite(s, s', name, key)
  }

  lemma StepRecovers(s: Store, s': Store, name: string, key: string, original: Option<string>)
    requires Recovers(s, name, key, original) && HistoryStep(s, s', name, key)
    ensures Recovers(s', name, key, original)
  {
    if CutRevert(s, s', name, key) {
      CutRevertRecovers(s, s', name, key, original);
    } else {
      OthersKeepRecovers(s, s', name, key, original);
    }
  }

  lemma {:induction false} HistoryRecovers(ss: seq<Store>, name: string, key: string, original: Option<string>)
    requires |ss| > 0 && Recovers(ss[0], name, key, original) && History(ss, name, key)
    ensures Recovers(ss[|ss| - 1], name, key, original)
  {
    if |ss| > 1 {
      HistoryRecovers(ss[..|ss| - 1], name, key, original);
      StepRecovers(ss[|ss| - 2], ss[|ss| - 1], name, key, original);
    }
  }

  /** After an injection and any history, a revert never fails on the record; the first that completes
      puts the original value back if and only if the value is recoverable. */
  lemma SecretIsRestoredIff(s: Store, name: string, key: string, value: string, ss: seq<Store>)
    requires name in s && s[name].rollback.None?
    requires |ss| > 0 && ss[0] == SecretInjection(s, name, key, value)[1] && History(ss, name, key)
    ensures var last, original := ss[|ss| - 1], Get(Data(s[name]), key);
      && SecretRevert(last, name, key).Some?
      && var writes := SecretRevert(last, name, key).value; var end := Written(last, writes, |writes|);
        && name in end && end[name].rollback.None?
        && Get(Data(end[name]), key) == Returned(key, original)
        && (Get(Data(end[name]), key) == original <==> Recoverable(key, original))
  {
    var last, original := ss[|ss| - 1], Get(Data(s[name]), key);
    InjectionRecovers(s, name, key, value);
    HistoryRecovers(ss, name, key, original);
    RevertEnds(last, name, key, original);
  }

  lemma RevertEnds(s: Store, name: string, key: string, original: Option<string>)
    requires Recovers(s, name, key, original)
    ensures SecretRevert(s, name, key).Some?
    ensures var writes := SecretRevert(s, name, key).value; var end := Written(s, writes, |writes|);
      name in end && end[name].rollback.None? && Get(Data(end[name]), key) == Returned(key, original)
  {
    RollbackNameIsLonger(name, key);
    if s[name].rollback.Some? && RollbackName(name, key) in s { RevertOfRecord(s, name, key, original); }
  }

  /** An injection that is cut off after its first write has changed nothing in the Secret, and a
      revert then has nothing to do; it does not remove the rollback Secret either. */
  lemma CutInjectionIsHarmless(s: Store, name: string, key: string, value: string)
    requires name in s && s[name].rollback.None?
    ensures var s' := SecretInjection(s, name, key, value)[0];
      && s'[name] == s[name] && SecretRevert(s', name, key) == Some([]) && RollbackName(name, key) in s'
  {
    RollbackNameIsLonger(name, key);
  }

  /** Injecting a second time before a revert overwrites the record: the drifted value becomes the
      original one, and is what a revert restores.  So the original comes back only if the first drift
      had changed nothing, or is undone by the flag in the record. */
  lemma SecondInjectionLosesOriginal(s: Store, name: string, key: string, value: string, value': string)
    requires name in s && s[name].rollback.None?
    ensures var twice := SecretInjection(SecretInjection(s, name, key, value)[1], name, key, value')[1];
      var writes := SecretRevert(twice, name, key);
      && writes.Some? && |writes.value| > 0
      && var end := writes.value[|writes.value| - 1];
        && name in end && Get(Data(end[name]), key) == Returned(key, Some(value))
        && (Get(Data(end[name]), key) == Get(Data(s[name]), key) <==>
              Get(Data(s[name]), key) == if key == "keyExists" then Some("true") else Some(value))
  {
    RollbackNameIsLonger(name, key);
  }

  /** What an injection leaves in s': the key of that name holds the value, and carries the mark.  All else is
      as before, except the rollback Secret, which has the record. */
  ghost predicate Drifted(s: Store, s': Store, name: string, key: string, value: string, others: set<string>)
    requires name in s
  {
    && name in s' && Get(Data(s'[name]), key) == Some(value) && OnlyDrifts(s[name], s'[name], key)
    && s'[name].rollback.Some? && CHAOS_LABELS.Items <= s'[name].labels.Items
    && s' - {name} - others == s - {name} - others
  }

  lemma InjectionDrifts(s: Store, name: string, key: string, value: string)
    requires name in s
    ensures Drifted(s, SecretInjection(s, name, key, value)[1], name, key, value, {RollbackName(name, key)})
    ensures Drifted(s, ConfigMapInjection(s, name, key, value), name, key, value, {})
  {
    RollbackNameIsLonger(name, key);
    var ref := RollbackName(name, key);
    var first, s' := SecretInjection(s, name, key, value)[0], SecretInjection(s, name, key, value)[1];
    assert s' - {name} - {ref} == s - {name} - {ref};
    assert ConfigMapInjection(s, name, key, value) - {name} == s - {name};
    MarkAddsLabels(Put(s[name], key, Some(value)), SecretInfo(name, key));
    MarkAddsLabels(Put(s[name], key, Some(value)), ConfigMapInfo(key, Get(Data(s[name]), key)));
  }

  lemma MarkAddsLabels(o: Object, info: Entries)
    ensures CHAOS_LABELS.Items <= Mark(o, info).labels.Items
    ensures Mark(o, info).labels - CHAOS_LABELS.Keys == o.labels - CHAOS_LABELS.Keys
  {
    forall e | e in CHAOS_LABELS.Items ensures e in Mark(o, info).labels.Items {
      assert Mark(o, info).labels[e.0] == e.1;
    }
  }

  lemma {:induction false} SanitizedConcat(a: string, b: string)
    ensures Sanitized(a + b) == Sanitized(a) + Sanitized(b)
  {
    if a == "" {
      assert a + b == b;
    } else {
      assert (a + b)[1..] == a[1..] + b;
      SanitizedConcat(a[1..], b);
    }
  }

  /** Both stand for the same character of a rollback name. */
  predicate SameFolded(c: char, d: char) {
    || c == d || (c in "_-" && d in "_-")
    || ('A' <= c <= 'Z' && d as int == c as int + 32) || ('A' <= d <= 'Z' && c as int == d as int + 32)
  }

  function Cut(key: string): (r: string)
    ensures |r| <= 30 && r <= key && (|key| <= 30 ==> r == key)
  {
    if |key| > 30 then key[..30] else key
  }

  lemma {:induction false} SanitizedAt(key: string, i: nat)
    ensures |Sanitized(key)| == |key|
    ensures i < |key| ==> var c := Sanitized(key)[i];
      && SameFolded(key[i], c) && c != '_' && !('A' <= c <= 'Z')
  {
    if key != "" { SanitizedAt(key[1..], if i == 0 then 0 else i - 1); }
  }

  /** Two keys of a Secret have the same rollback Secret exactly if they agree in their first 30 characters,
      up to case and to underscores for hyphens. */
  lemma SameRollbackNameIff(name: string, key: string, key': string)
    ensures RollbackName(name, key) == RollbackName(name, key') <==>
      |Cut(key)| == |Cut(key')| && forall i | 0 <= i < |Cut(key)| :: SameFolded(key[i], key'[i])
  {
    var a, b := Cut(Sanitized(key)), Cut(Sanitized(key'));
    SanitizedAt(key, 0);
    SanitizedAt(key', 0);
    forall i | 0 <= i < |a| && i < |b| ensures a[i] == b[i] <==> SameFolded(key[i], key'[i]) {
      SanitizedAt(key, i);
      SanitizedAt(key', i);
    }
    var front := "chaos-rollback-" + name + "-";
    assert RollbackName(name, key) == front + a && RollbackName(name, key') == front + b;
    assert (front + a)[|front|..] == a && (front + b)[|front|..] == b;
  }

  /** Two Secrets can share the name of their rollback Secrets: a hyphen may belong to either part. */
  lemma RollbackNamesCollide(name: string, part: string, key: string)
    requires Sanitized(part) == part && |Sanitized(part + "-" + key)| <= 30
    ensures RollbackName(name, part + "-" + key) == RollbackName(name + "-" + part, key)
  {
    SanitizedConcat(part + "-", key);
    SanitizedConcat(part, "-");
    assert Sanitized("-") == "-";
    Regroup("chaos-rollback-", name, "-", part, Sanitized(key));
  }

  lemma Regroup<T>(p: seq<T>, a: seq<T>, h: seq<T>, b: seq<T>, c: seq<T>)
    ensures p + a + h + (b + h + c) == p + (a + h + b) + h + c
  {
  }

  // --- ConfigMaps ---

  /** While the annotation is there, it is the record; without it, the value is back. */
  ghost predicate ConfigMapRecovers(s: Store, name: string, key: string, original: Option<string>) {
    && name in s
    && match s[name].rollback {
       case None => Get(Data(s[name]), key) == original
       case Some(e) => e == Wrapped(ConfigMapInfo(key, original))
       }
  }

  ghost predicate CutConfigMapRevert(s: Store, s': Store, name: string, key: string) {
    var writes := ConfigMapRevert(s, name, key);
    if writes.None? then s' == s else exists n :: 0 <= n <= |writes.value| && s' == Written(s, writes.value, n)
  }

  /** Others do anything but to touch the key and the annotation. */
  ghost predicate OthersWriteConfigMap(s: Store, s': Store, name: string, key: string) {
    && name in s && name in s' && s[name].rollback == s'[name].rollback
    && Get(Data(s[name]), key) == Get(Data(s'[name]), key)
  }

  ghost predicate ConfigMapStep(s: Store, s': Store, name: string, key: string) {
    CutConfigMapRevert(s, s', name, key) || OthersWriteConfigMap(s, s', name, key)
  }

  lemma ConfigMapStepRecovers(s: Store, s': Store, name: string, key: string, original: Option<string>)
    requires ConfigMapRecovers(s, name, key, original) && ConfigMapStep(s, s', name, key)
    ensures ConfigMapRecovers(s', name, key, original)
  {
    ConfigMapRevertEnds(s, name, key, original);
  }

  lemma ConfigMapRevertEnds(s: Store, name: string, key: string, original: Option<string>)
    requires ConfigMapRecovers(s, name, key, original)
    ensures ConfigMapRevert(s, name, key).Some? && |ConfigMapRevert(s, name, key).value| <= 1
    ensures s[name].rollback.Some? ==>
      && |ConfigMapRevert(s, name, key).value| == 1
      && var end := ConfigMapRevert(s, name, key).value[0];
        && end == s[name := Unmark(Put(s[name], key, original))]
        && end[name].rollback.None? && Get(Data(end[name]), key) == original
    ensures s[name].rollback.None? ==> ConfigMapRevert(s, name, key).value == []
  {
  }

  lemma {:induction false} ConfigMapHistoryRecovers(ss: seq<Store>, name: string, key: string, original: Option<string>)
    requires |ss| > 0 && ConfigMapRecovers(ss[0], name, key, original)
    requires forall i {:trigger ss[i]} | 0 < i < |ss| :: ConfigMapStep(ss[i - 1], ss[i], name, key)
    ensures ConfigMapRecovers(ss[|ss| - 1], name, key, original)
  {
    if |ss| > 1 {
      ConfigMapHistoryRecovers(ss[..|ss| - 1], name, key, original);
      ConfigMapStepRecovers(ss[|ss| - 2], ss[|ss| - 1], name, key, original);
    }
  }

  /** A ConfigMap, whose record keeps value and flag under fixed names, comes back for every key, after any
      history of cut reverts and of writes of others: a revert never fails on the record, and the first
      that completes puts the original value back. */
  lemma ConfigMapIsRestored(s: Store, name: string, key: string, value: string, ss: seq<Store>)
    requires name in s && s[name].rollback.None?
    requires |ss| > 0 && ss[0] == ConfigMapInjection(s, name, key, value)
    requires forall i {:trigger ss[i]} | 0 < i < |ss| :: ConfigMapStep(ss[i - 1], ss[i], name, key)
    ensures var last, original := ss[|ss| - 1], Get(Data(s[name]), key);
      && ConfigMapRevert(last, name, key).Some?
      && var writes := ConfigMapRevert(last, name, key).value; var end := Written(last, writes, |writes|);
        && name in last && name in end && end[name].rollback.None? && Get(Data(end[name]), key) == original
        && (last[name].rollback.None? ==> end == last)
  {
    var original := Get(Data(s[name]), key);
    ConfigMapHistoryRecovers(ss, name, key, original);
    ConfigMapRevertEnds(ss[|ss| - 1], name, key, original);
  }

  /** If nothing else happens, all its data come back, and a second revert does nothing. */
  lemma ConfigMapRoundTrip(s: Store, name: string, key: string, value: string)
    requires name in s && s[name].rollback.None?
    ensures var drifted := ConfigMapInjection(s, name, key, value);
      && ConfigMapRevert(drifted, name, key).Some? && |ConfigMapRevert(drifted, name, key).value| == 1
      && var end := ConfigMapRevert(drifted, name, key).value[0];
        && end.Keys == s.Keys && Data(end[name]) == Data(s[name]) && end[name].rollback.None?
        && end[name].labels == s[name].labels - CHAOS_LABELS.Keys
        && ConfigMapRevert(end, name, key) == Some([])
  {
    var drifted := ConfigMapInjection(s, name, key, value);
    assert (s[name].labels + CHAOS_LABELS) - CHAOS_LABELS.Keys == s[name].labels - CHAOS_LABELS.Keys;
    var original := Get(Data(s[name]), key);
    assert Data(Put(Put(s[name], key, Some(value)), key, original)) == Data(s[name]);
  }
}
