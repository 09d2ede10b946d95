/** Injecting a value into a custom resource and taking it back out, with merge patches
    and a rollback annotation that marks the fault. */
module CrdMutation {
  import opened Wrappers
  import opened Strings
  import opened Json
  import opened JsonPath
  import opened MutationPath

  // --- patches ---

  /** A patch of the rollback annotation and the two chaos labels. */
  function MetadataPatch(marker: Json, managedBy: Json, chaosType: Json): (r: Json)
    ensures r.Object?
  {
    Object(map["metadata" := Object(map[
      "annotations" := Object(map[ROLLBACK_ANNOTATION := marker]),
      "labels" := Object(map[MANAGED_BY_LABEL := managedBy, CHAOS_TYPE_LABEL := chaosType])])])
  }

  function MarkWith(path: string, original: Json): Json {
    MetadataPatch(Envelope(path, original), String("operator-chaos"), String("CRDMutation"))
  }

  const UNMARK := MetadataPatch(Null, Null, Null)

  /** The single patch of an injection at path p. */
  function InjectPatch(m: Members, p: Path, value: Json): Json {
    DeepMerge(Nested(p, value), MarkWith(Join(p, '.'), Lookup(Object(m), p)))
  }

  function Injected(m: Members, p: Path, value: Json): Members {
    MergeMembers(m, InjectPatch(m, p, value))
  }

  /** Scalars and lists are restored in one patch; objects are first nulled, to drop what
      was injected below them; what was absent is nulled and then unmarked. */
  function RestorePatches(p: Path, original: Json): (r: seq<Json>)
    ensures forall patch | patch in r :: patch.Object?
  {
    if !original.Null? && !original.Object? then [DeepMerge(Nested(p, original), UNMARK)]
    else if original.Object? then [Nested(p, Null), DeepMerge(Nested(p, original), UNMARK)]
    else [Nested(p, Null), UNMARK]
  }

  function Marker(m: Members): Option<Json> {
    var annotations := MembersOf(Member(MembersOf(Member(m, "metadata")), "annotations"));
    if ROLLBACK_ANNOTATION in annotations then Some(annotations[ROLLBACK_ANNOTATION]) else None
  }

  /** The patches a revert sends; None when the rollback data can not be read. */
  function RevertPatches(m: Members): Option<seq<Json>> {
    match Marker(m)
    case None => Some([])
    case Some(Envelope(path, original)) =>
      if path != "" then Some(RestorePatches(Split(path, '.'), original)) else None
    case Some(_) => None
  }

  function ApplyAll(m: Members, patches: seq<Json>): Members
    requires forall patch | patch in patches :: patch.Object?
    decreases |patches|
  {
    if patches == [] then m else ApplyAll(MergeMembers(m, patches[0]), patches[1..])
  }

  lemma ApplyFew(m: Members, patches: seq<Json>)
    requires forall patch | patch in patches :: patch.Object?
    ensures |patches| == 1 ==> ApplyAll(m, patches) == MergeMembers(m, patches[0])
    ensures |patches| == 2 ==> ApplyAll(m, patches) == MergeMembers(MergeMembers(m, patches[0]), patches[1])
    decreases |patches|
  {
    if |patches| == 2 {
      ApplyFew(MergeMembers(m, patches[0]), patches[1..]);
    }
  }

  /** The outcome of an uninterrupted revert. */
  function Reverted(m: Members): Members
    requires RevertPatches(m).Some?
  {
    ApplyAll(m, RevertPatches(m).value)
  }

  // --- the injector ---

  class CustomResource {
    var members: Members
    ghost var failures: nat        // the requests that failed

    constructor (m: Members)
      ensures members == m && failures == 0
    {
      members, failures := m, 0;
    }

    /** A read may fail. */
    method Get() returns (ok: bool)
      modifies this`failures
      ensures failures == old(failures) + if ok then 0 else 1
    {
      ok := *;
      failures := failures + if ok then 0 else 1;
    }

    /** A patch request: applied, refused, or applied with its reply lost. */
    method Patch(patch: Json) returns (ok: bool)
      requires patch.Object?
      modifies this
      ensures members == old(members) || members == MergeMembers(old(members), patch)
      ensures ok ==> members == MergeMembers(old(members), patch)
      ensures failures == old(failures) + if ok then 0 else 1
    {
      var reached: bool, replied: bool := *, *;
      if reached {
        members := MergeMembers(members, patch);
      }
      ok := reached && replied;
      failures := failures + if ok then 0 else 1;
    }

    /** It fails only if a request fails. */
    method Inject(path: string, field: string, value: Json) returns (ok: bool)
      modifies this
      ensures var p := ResolveMutationPath(path, field);
        && (members == old(members) || members == Injected(old(members), p, value))
        && (ok ==> members == Injected(old(members), p, value))
      ensures ok <==> failures == old(failures)
    {
      ok := Get();
      if !ok {
        return;
      }
      var p := ResolveMutationPath(path, field);
      var originalValue := Lookup(Object(members), p);
      var valueMap := Nested(p, value);
      var patchMap := DeepMergeMaps(valueMap, MarkWith(Join(p, '.'), originalValue));
      ok := Patch(patchMap);
    }

    /** One revert attempt.  It sends a prefix of the revert patches, all of them if it reports success,
        and reports failure only if a request failed or the rollback data can not be read; `sent` counts
        the patches that took effect. */
    method Revert() returns (ok: bool, ghost sent: nat)
      modifies this
      ensures RevertPatches(old(members)).None? ==> !ok && members == old(members)
      ensures RevertPatches(old(members)).Some? ==>
        && sent <= |RevertPatches(old(members)).value|
        && members == ApplyAll(old(members), RevertPatches(old(members)).value[..sent])
        && (ok ==> members == Reverted(old(members)))
        && (ok <==> failures == old(failures))
    {
      sent := 0;
      ok := Get();
      if !ok {
        return;
      }
      var marker := Marker(members);
      if marker.None? {
        return true, 0;
      }
      if !marker.value.Envelope? || marker.value.path == "" {
        return false, 0;
      }
      var p := Split(marker.value.path, '.');
      var originalValue := marker.value.original;
      ghost var was, patches := members, RestorePatches(p, originalValue);
      ApplyFew(was, patches);
      ApplyFew(was, patches[..1]);
      assert patches[..|patches|] == patches;
      if !originalValue.Null? && !originalValue.Object? {
        var restoreMap := DeepMergeMaps(Nested(p, originalValue), UNMARK);
        ok := Patch(restoreMap);
        sent := if members == was then 0 else 1;
        return;
      }
      // The annotation stays until the value is restored: it is what makes a retry re-enter.
      ok := Patch(Nested(p, Null));
      sent := if members == was then 0 else 1;
      if !ok {
        return;
      }
      ghost var between := members;
      if !originalValue.Null? {
        ok := Get();
        if !ok {
          return;
        }
        var restoreMap := DeepMergeMaps(Nested(p, originalValue), UNMARK);
        ok := Patch(restoreMap);
      } else {
        ok := Patch(UNMARK);
      }
      sent := if members == between then sent else 2;
    }
  }
}
