/** Drift of one key of a ConfigMap or a Secret, its rollback record, and its revert. */
module ConfigDrift {
  import opened Wrappers

  type Entries = map<string, string>

  /** What is kept in the rollback annotation: a checksummed wrapping of a map, or something else. */
  datatype Envelope = Wrapped(info: Entries) | Invalid

  /** A ConfigMap or Secret; absent data is distinguished from empty data. */
  datatype Object = Object(data: Option<Entries>, rollback: Option<Envelope>, labels: Entries)

  /** The objects of one kind in one namespace, by name. */
  type Store = map<string, Object>

  const MANAGED_BY := "app.kubernetes.io/managed-by"
  const CHAOS_TYPE := "chaos.operatorchaos.io/type"
  const CHAOS_LABELS := map[MANAGED_BY := "operator-chaos", CHAOS_TYPE := "ConfigDrift"]

  function Data(o: Object): Entries {
    if o.data.Some? then o.data.value else map[]
  }

  function Get(m: Entries, key: string): Option<string> {
    if key in m then Some(m[key]) else None
  }

  /** Sets or, for None, removes the key. */
  function Put(o: Object, key: string, v: Option<string>): Object {
    o.(data := Some(if v.Some? then Data(o)[key := v.value] else Data(o) - {key}))
  }

  function Mark(o: Object, info: Entries): Object {
    o.(rollback := Some(Wrapped(info)), labels := o.labels + CHAOS_LABELS)
  }

  function Unmark(o: Object): Object {
    o.(rollback := None, labels := o.labels - CHAOS_LABELS.Keys)
  }

  // --- the rollback Secret ---

  function Sanitized(key: string): string {
    if key == "" then ""
    else
      var c := key[0];
      [if c == '_' then '-' else if 'A' <= c <= 'Z' then (c as int + 32) as char else c] + Sanitized(key[1..])
  }

  function RollbackName(name: string, key: string): string {
    var s := Sanitized(key);
    "chaos-rollback-" + name + "-" + if |s| > 30 then s[..30] else s
  }

  function Flag(b: bool): string {
    if b then "true" else "false"
  }

  /** The record of a value.  The flag shares the map with the value, and is entered last. */
  function RollbackEntries(key: string, original: Option<string>): Entries {
    map[key := if original.Some? then original.value else "", "keyExists" := Flag(original.Some?)]
  }

  /** The value to restore; None if the record lacks it. */
  function Recorded(rollback: Entries, key: string): Option<Option<string>> {
    if Get(rollback, "keyExists") == Some("false") then Some(None)
    else if key in rollback then Some(Some(rollback[key]))
    else None
  }

  function RollbackLabels(name: string): Entries {
    CHAOS_LABELS["chaos.operatorchaos.io/experiment" := name]
  }

  function SecretInfo(name: string, key: string): Entries {
    map["resourceType" := "Secret", "key" := key, "rollbackSecretRef" := RollbackName(name, key)]
  }

  // --- the writes of each operation, as the states after them ---

  function SecretInjection(s: Store, name: string, key: string, value: string): (writes: seq<Store>)
    requires name in s
    ensures |writes| == 2
  {
    var ref, record := RollbackName(name, key), RollbackEntries(key, Get(Data(s[name]), key));
    var s1 := s[ref := if ref in s then s[ref].(data := Some(record)) else Object(Some(record), None, RollbackLabels(name))];
    [s1, s1[name := Mark(Put(s[name], key, Some(value)), SecretInfo(name, key))]]
  }

  /** None: the revert fails before it writes anything. */
  function SecretRevert(s: Store, name: string, key: string): Option<seq<Store>> {
    if name !in s || s[name].rollback.None? then Some([])
    else if s[name].rollback.value.Invalid? then None
    else
      var ref := Get(s[name].rollback.value.info, "rollbackSecretRef");
      if ref.None? || ref.value == "" then None
      else if ref.value !in s then Some([s[name := Unmark(s[name])]])
      else if s[ref.value].data.None? || Recorded(Data(s[ref.value]), key).None? then None
      else
        var restored := Put(s[name], key, Recorded(Data(s[ref.value]), key).value);
        var s1 := s[name := restored];
        var s2 := s1 - {ref.value};
        Some([s1, s2, s2[name := Unmark(restored)]])
  }

  function ConfigMapInfo(key: string, original: Option<string>): Entries {
    map["resourceType" := "ConfigMap", "key" := key,
        "originalValue" := if original.Some? then original.value else "", "keyExists" := Flag(original.Some?)]
  }

  function ConfigMapInjection(s: Store, name: string, key: string, value: string): Store
    requires name in s
  {
    s[name := Mark(Put(s[name], key, Some(value)), ConfigMapInfo(key, Get(Data(s[name]), key)))]
  }

  function ConfigMapRevert(s: Store, name: string, key: string): Option<seq<Store>> {
    if name !in s || s[name].rollback.None? then Some([])
    else if s[name].rollback.value.Invalid? then None
    else
      var info := s[name].rollback.value.info;
      var value := if Get(info, "keyExists") == Some("false") then None
                   else Some(if "originalValue" in info then info["originalValue"] else "");
      Some([s[name := Unmark(Put(s[name], key, value))]])
  }

  /** The state after the first n writes. */
  function Written(s: Store, writes: seq<Store>, n: nat): Store
    requires n <= |writes|
  {
    if n == 0 then s else writes[n - 1]
  }

  /** The injector, with the objects of the namespace as the API server holds them. */
  class ConfigDriftInjector {
    var secrets: Store
    var configMaps: Store
    ghost var failures: nat        // the requests that failed

    constructor (secrets: Store, configMaps: Store)
      ensures this.secrets == secrets && this.configMaps == configMaps && failures == 0
    {
      this.secrets, this.configMaps, failures := secrets, configMaps, 0;
    }

    /** A read may fail. */
    method Read() returns (ok: bool)
      modifies this`failures
      ensures failures == old(failures) + if ok then 0 else 1
    {
      ok := *;
      failures := failures + if ok then 0 else 1;
    }

    /** A create, update or delete of Secrets: applied, refused, or applied with its reply lost. */
    method WriteSecrets(s: Store) returns (ok: bool)
      modifies this`secrets, this`failures
      ensures secrets == old(secrets) || secrets == s
      ensures ok ==> secrets == s
      ensures failures == old(failures) + if ok then 0 else 1
    {
      var reached: bool, replied: bool := *, *;
      if reached {
        secrets := s;
      }
      ok := reached && replied;
      failures := failures + if ok then 0 else 1;
    }

    method WriteConfigMaps(s: Store) returns (ok: bool)
      modifies this`configMaps, this`failures
      ensures configMaps == old(configMaps) || configMaps == s
      ensures ok ==> configMaps == s
      ensures failures == old(failures) + if ok then 0 else 1
    {
      var reached: bool, replied: bool := *, *;
      if reached {
        configMaps := s;
      }
      ok := reached && replied;
      failures := failures + if ok then 0 else 1;
    }

    /** sent counts the writes that took effect.  It fails only if the Secret is missing or a request fails. */
    method InjectSecret(name: string, dataKey: string, newValue: string) returns (ok: bool, ghost sent: nat)
      modifies this`secrets, this`failures
      ensures name !in old(secrets) ==> !ok && secrets == old(secrets)
      ensures name in old(secrets) ==>
        && sent <= 2 && (ok ==> sent == 2)
        && secrets == Written(old(secrets), SecretInjection(old(secrets), name, dataKey, newValue), sent)
      ensures ok <==> name in old(secrets) && failures == old(failures)
    {
      sent := 0;
      var readable := Read();
      if !readable || name !in secrets {
        return false, 0;
      }
      var secret, original := secrets[name], None;
      if secret.data.Some? && dataKey in secret.data.value {
        original := Some(secret.data.value[dataKey]);
      }
      secret := Put(secret, dataKey, Some(newValue));
      var rollbackSecretName := RollbackName(name, dataKey);
      var rollbackData := RollbackEntries(dataKey, original);
      ghost var was := secrets;
      if rollbackSecretName !in secrets {
        ok := WriteSecrets(secrets[rollbackSecretName := Object(Some(rollbackData), None, RollbackLabels(name))]);
      } else {
        var existingRB := secrets[rollbackSecretName];
        ok := WriteSecrets(secrets[rollbackSecretName := existingRB.(data := Some(rollbackData))]);
      }
      sent := if secrets == was then 0 else 1;
      if !ok {
        return;
      }
      sent := 1;
      secret := Mark(secret, SecretInfo(name, dataKey));
      ghost var between := secrets;
      ok := WriteSecrets(secrets[name := secret]);
      sent := if secrets == between && !ok then 1 else 2;
    }

    method RevertSecret(name: string, dataKey: string) returns (ok: bool, ghost sent: nat)
      modifies this`secrets, this`failures
      ensures var writes := SecretRevert(old(secrets), name, dataKey);
        && (writes.None? ==> !ok && secrets == old(secrets))
        && (ok <==> writes.Some? && failures == old(failures))
        && (writes.Some? ==> sent <= |writes.value| && secrets == Written(old(secrets), writes.value, sent)
                             && (ok ==> sent == |writes.value|))
    {
      sent := 0;
      var readable := Read();
      if !readable {
        return false, 0;
      }
      if name !in secrets || secrets[name].rollback.None? {
        return true, 0;
      }
      var secret := secrets[name];
      if secret.rollback.value.Invalid? {
        return false, 0;
      }
      var rollbackSecretName := Get(secret.rollback.value.info, "rollbackSecretRef");
      if rollbackSecretName.None? || rollbackSecretName.value == "" {
        return false, 0;
      }
      var ref := rollbackSecretName.value;
      readable := Read();
      if !readable {
        return false, 0;
      }
      ghost var was := secrets;
      if ref !in secrets {
        ok := WriteSecrets(secrets[name := Unmark(secret)]);
        sent := if secrets == was && !ok then 0 else 1;
        return;
      }
      if secrets[ref].data.None? {
        return false, 0;
      }
      var value := Recorded(Data(secrets[ref]), dataKey);
      if value.None? {
        return false, 0;
      }
      secret := Put(secret, dataKey, value.value);
      ok, sent := FinishRevert(name, secret, ref);
    }

    /** The annotation goes last: it is what makes a retry come back. */
    method FinishRevert(name: string, restored: Object, ref: string) returns (ok: bool, ghost sent: nat)
      modifies this`secrets, this`failures
      ensures var s1 := old(secrets)[name := restored]; var s2 := s1 - {ref};
        && sent <= 3 && secrets == Written(old(secrets), [s1, s2, s2[name := Unmark(restored)]], sent)
        && (ok ==> sent == 3) && (ok <==> failures == old(failures))
    {
      ghost var was := secrets;
      ok := WriteSecrets(secrets[name := restored]);
      sent := if secrets == was && !ok then 0 else 1;
      if !ok {
        return;
      }
      was := secrets;
      ok := WriteSecrets(secrets - {ref});
      sent := if secrets == was && !ok then 1 else 2;
      if !ok {
        return;
      }
      was := secrets;
      ok := WriteSecrets(secrets[name := Unmark(restored)]);
      sent := if secrets == was && !ok then 2 else 3;
    }

    method InjectConfigMap(name: string, dataKey: string, newValue: string) returns (ok: bool)
      modifies this`configMaps, this`failures
      ensures configMaps == old(configMaps)
        || (name in old(configMaps) && configMaps == ConfigMapInjection(old(configMaps), name, dataKey, newValue))
      ensures ok <==> name in old(configMaps) && failures == old(failures)
      ensures ok ==> name in old(configMaps) && configMaps == ConfigMapInjection(old(configMaps), name, dataKey, newValue)
    {
      var readable := Read();
      if !readable || name !in configMaps {
        return false;
      }
      var cm, original := configMaps[name], None;
      if cm.data.Some? && dataKey in cm.data.value {
        original := Some(cm.data.value[dataKey]);
      }
      cm := Put(cm, dataKey, Some(newValue));
      cm := Mark(cm, ConfigMapInfo(dataKey, original));
      ok := WriteConfigMaps(configMaps[name := cm]);
    }

    method RevertConfigMap(name: string, dataKey: string) returns (ok: bool, ghost sent: nat)
      modifies this`configMaps, this`failures
      ensures var writes := ConfigMapRevert(old(configMaps), name, dataKey);
        && (writes.None? ==> !ok && configMaps == old(configMaps))
        && (ok <==> writes.Some? && failures == old(failures))
        && (writes.Some? ==> sent <= |writes.value| && configMaps == Written(old(configMaps), writes.value, sent)
                             && (ok ==> sent == |writes.value|))
    {
      sent := 0;
      var readable := Read();
      if !readable {
        return false, 0;
      }
      if name !in configMaps || configMaps[name].rollback.None? {
        return true, 0;
      }
      var cm := configMaps[name];
      if cm.rollback.value.Invalid? {
        return false, 0;
      }
      var info := cm.rollback.value.info;
      if Get(info, "keyExists") == Some("false") {
        cm := Put(cm, dataKey, None);
      } else {
        cm := Put(cm, dataKey, Some(if "originalValue" in info then info["originalValue"] else ""));
      }
      cm := Unmark(cm);
      ghost var was := configMaps;
      ok := WriteConfigMaps(configMaps[name := cm]);
      sent := if configMaps == was && !ok then 0 else 1;
    }
  }
}
