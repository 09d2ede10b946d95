/** What an injection changes, and what it leaves alone. */
module MutationTarget {
  import opened Json
  import opened JsonPath
  import opened MutationPath
  import opened CrdMutation
  import opened CrdRoundTrip
  import opened Strings

  const ANNOTATION_MARK: Path := ["metadata", "annotations", ROLLBACK_ANNOTATION]
  const MANAGED_MARK: Path := ["metadata", "labels", MANAGED_BY_LABEL]
  const TYPE_MARK: Path := ["metadata", "labels", CHAOS_TYPE_LABEL]

  /** Neither path leads to the other. */
  predicate Apart(p: Path, q: Path) {
    !(p <= q) && !(q <= p)
  }

  // --- patches in general ---

  /** The patch says nothing of the member at q, nor of anything that holds it or is below it. */
  predicate Spares(patch: Json, q: Path)
    requires patch.Object?
    decreases |q|
  {
    q[0] in patch.members ==> |q| > 1 && patch.members[q[0]].Object? && Spares(patch.members[q[0]], q[1..])
  }

  lemma {:induction false} SparedIsKept(m: Members, patch: Json, q: Path)
    requires patch.Object? && Spares(patch, q)
    ensures Lookup(Object(MergeMembers(m, patch)), q) == Lookup(Object(m), q)
    decreases |q|
  {
    PatchedMember(m, patch, q[0]);
    if q[0] in patch.members {
      SparedIsKept(MembersOf(Member(m, q[0])), patch.members[q[0]], q[1..]);
    }
  }

  /** A value in the patch is merged with the one at the same place. */
  lemma {:induction false} PatchedAlong(m: Members, patch: Json, q: Path)
    requires patch.Object? && !Lookup(patch, q).Null?
    ensures Lookup(Object(MergeMembers(m, patch)), q) == MergePatch(Lookup(Object(m), q), Lookup(patch, q))
    decreases |q|
  {
    PatchedMember(m, patch, q[0]);
    if |q| > 1 {
      PatchedAlong(MembersOf(Member(m, q[0])), patch.members[q[0]], q[1..]);
    } else {
      assert q[1..] == [];
    }
  }

  lemma {:induction false} NestedAlong(m: Members, p: Path, v: Json)
    ensures Lookup(Nested(p, v), p) == v
    ensures Lookup(Object(MergeMembers(m, Nested(p, v))), p) == MergePatch(Lookup(Object(m), p), v)
    decreases |p|
  {
    PatchedMember(m, Nested(p, v), p[0]);
    if |p| > 1 {
      NestedAlong(MembersOf(Member(m, p[0])), p[1..], v);
    } else {
      assert p[1..] == [];
    }
  }

  lemma {:induction false} NestedSpares(p: Path, v: Json, q: Path)
    requires Apart(p, q)
    ensures Spares(Nested(p, v), q)
    decreases |p|
  {
    if q[0] == p[0] {
      assert p == [p[0]] + p[1..] && q == [q[0]] + q[1..];
      NestedSpares(p[1..], v, q[1..]);
    }
  }

  // --- the mark ---

  ghost predicate ApartFromMark(q: Path) {
    Apart(ANNOTATION_MARK, q) && Apart(MANAGED_MARK, q) && Apart(TYPE_MARK, q)
  }

  lemma MarkSpares(path: string, original: Json, q: Path)
    requires ApartFromMark(q)
    ensures Spares(MarkWith(path, original), q)
  {
    if q[0] == "metadata" {
      assert q == ["metadata"] + q[1..];
      assert |q| > 1 by { assert ["metadata"] <= ANNOTATION_MARK; }
      if q[1] == "annotations" || q[1] == "labels" {
        assert ["metadata", "annotations"] <= ANNOTATION_MARK && ["metadata", "labels"] <= MANAGED_MARK;
        assert q[1..2] == [q[1]];
        assert q[..3] == ["metadata", q[1], q[2]] && q[..3] <= q;
      }
    }
  }

  lemma MarkHolds(m: Members, path: string, original: Json)
    ensures var o := Object(MergeMembers(m, MarkWith(path, original)));
      && Lookup(o, ANNOTATION_MARK) == Envelope(path, original)
      && Lookup(o, MANAGED_MARK) == String("operator-chaos") && Lookup(o, TYPE_MARK) == String("CRDMutation")
  {
    var mark := MarkWith(path, original);
    NestedMarks(mark, "annotations", ROLLBACK_ANNOTATION);
    NestedMarks(mark, "labels", MANAGED_BY_LABEL);
    NestedMarks(mark, "labels", CHAOS_TYPE_LABEL);
    PatchedAlong(m, mark, ANNOTATION_MARK);
    PatchedAlong(m, mark, MANAGED_MARK);
    PatchedAlong(m, mark, TYPE_MARK);
  }

  lemma LookupStep(v: Json, key: string, rest: seq<string>)
    requires v.Object? && key in v.members
    ensures Lookup(v, [key] + rest) == Lookup(v.members[key], rest)
  {
    assert ([key] + rest)[1..] == rest;
  }

  lemma NestedMarks(mark: Json, holder: string, key: string)
    requires mark.Object? && "metadata" in mark.members && mark.members["metadata"].Object?
    requires holder in mark.members["metadata"].members && mark.members["metadata"].members[holder].Object?
    requires key in mark.members["metadata"].members[holder].members
    ensures Lookup(mark, ["metadata", holder, key]) == mark.members["metadata"].members[holder].members[key]
  {
    LookupStep(mark, "metadata", [holder, key]);
    LookupStep(mark.members["metadata"], holder, [key]);
    LookupStep(mark.members["metadata"].members[holder], key, []);
    assert ["metadata", holder, key] == ["metadata"] + [holder, key] && [holder, key] == [holder] + [key] && [key] == [key] + [];
  }

  lemma MutableIsApartFromMark(p: Path)
    requires Mutable(p) && p != LABELS_PATH
    ensures ApartFromMark(p)
  {
    assert ROLLBACK_ANNOTATION[22] == '/' && MANAGED_BY_LABEL[17] == '/' && CHAOS_TYPE_LABEL[22] == '/';
    if |p| == 1 { assert p == [p[0]]; }
    if |p| == 2 { assert p == [p[0], p[1]]; }
    if |p| > 2 { assert p[2] in p && Free(p[2], '/'); }
  }

  // --- injections ---

  /** Whatever the object looks like, the value is merged into the place that the path leads to, the mark
      records the path and what was there before, and nothing else can be read differently. */
  lemma InjectionHitsTarget(m: Members, p: Path, v: Json)
    requires Mutable(p) && (p == LABELS_PATH ==> v.Object?)
    ensures var before, after := Object(m), Object(Injected(m, p, v));
      && (p != LABELS_PATH ==> Lookup(after, p) == MergePatch(Lookup(before, p), v))
      && Lookup(after, ANNOTATION_MARK) == Envelope(Join(p, '.'), Lookup(before, p))
      && Lookup(after, MANAGED_MARK) == String("operator-chaos") && Lookup(after, TYPE_MARK) == String("CRDMutation")
      && forall q: Path | Apart(p, q) && ApartFromMark(q) :: Lookup(after, q) == Lookup(before, q)
  {
    var mark := MarkWith(Join(p, '.'), Lookup(Object(m), p));
    var between := MergeMembers(m, Nested(p, v));
    ValueAndMetadataAreCompatible(p, v, mark);
    MergedPatchIsBothPatches(m, Nested(p, v), mark);
    MarkHolds(between, Join(p, '.'), Lookup(Object(m), p));
    NestedAlong(m, p, v);
    if p != LABELS_PATH {
      MutableIsApartFromMark(p);
      MarkSpares(Join(p, '.'), Lookup(Object(m), p), p);
      SparedIsKept(between, mark, p);
    }
    forall q: Path | Apart(p, q) && ApartFromMark(q)
      ensures Lookup(Object(MergeMembers(between, mark)), q) == Lookup(Object(m), q)
    {
      NestedSpares(p, v, q);
      SparedIsKept(m, Nested(p, v), q);
      MarkSpares(Join(p, '.'), Lookup(Object(m), p), q);
      SparedIsKept(between, mark, q);
    }
  }

  /** x and y agree on every member that is not in keys. */
  ghost predicate AgreeOutside(x: Members, y: Members, keys: set<string>) {
    forall k {:trigger k in x} {:trigger k in y} | k !in keys :: (k in x <==> k in y) && (k in x ==> x[k] == y[k])
  }

  lemma AgreeingDifference(x: Members, y: Members, keys: set<string>)
    ensures AgreeOutside(x, y, keys) <==> x - keys == y - keys
  {
    if x - keys == y - keys {
      forall k | k !in keys ensures (k in x <==> k in y) && (k in x ==> x[k] == y[k]) {
        assert k in x <==> k in x - keys;
        assert k in y <==> k in y - keys;
        if k in x - keys { assert (x - keys)[k] == (y - keys)[k]; }
      }
    }
  }

  lemma OtherMembersStay(m: Members, p: Path, v: Json)
    requires Mutable(p) && (p == LABELS_PATH ==> v.Object?)
    ensures AgreeOutside(Injected(m, p, v), m, {p[0], "metadata"})
    ensures AgreeOutside(Injected(m, p, v), MergeMembers(m, Nested(p, v)), {"metadata"})
  {
    var mark := MarkWith(Join(p, '.'), Lookup(Object(m), p));
    var r, between := Injected(m, p, v), MergeMembers(m, Nested(p, v));
    ValueAndMetadataAreCompatible(p, v, mark);
    MergedPatchIsBothPatches(m, Nested(p, v), mark);
    forall k | k != "metadata"
      ensures (k in r <==> k in between) && (k in r ==> r[k] == between[k])
      ensures k != p[0] ==> (k in r <==> k in m) && (k in r ==> r[k] == m[k])
    {
      PatchedMember(between, mark, k);
      PatchedMember(m, Nested(p, v), k);
    }
  }

  /** Injecting into an accepted field changes that member of spec and marks the object.  No other member
      of spec, and none of the object but spec and metadata, changes; metadata only as far as the mark goes. */
  lemma FieldInjection(m: Members, field: string, v: Json)
    requires Stored(m) && Accepts("", field)
    ensures var r := Injected(m, ResolveMutationPath("", field), v);
      && AgreeOutside(r, m, {"spec", "metadata"})
      && "spec" in r && r["spec"].Object?
      && (var spec, spec' := MembersOf(Member(m, "spec")), r["spec"].members;
          && AgreeOutside(spec', spec, {field})
          && (v.Null? ==> field !in spec')
          && (!v.Null? ==> field in spec' && spec'[field] == MergePatch(Member(spec, field), v)))
      && AgreeOutside(Metadata(r), Metadata(m), {"annotations", "labels"})
      && Visible(Metadata(r), "annotations", HIDDEN_ANNOTATIONS) == Visible(Metadata(m), "annotations", HIDDEN_ANNOTATIONS)
      && Visible(Metadata(r), "labels", HIDDEN_LABELS) == Visible(Metadata(m), "labels", HIDDEN_LABELS)
  {
    var p := ResolveMutationPath("", field);
    AcceptedIsMutable("", field);
    OtherMembersStay(m, p, v);
    SpecMemberIsPatched(m, field, v);
    var between, r := MergeMembers(m, Nested(p, v)), Injected(m, p, v);
    assert "spec" in between && "spec" in r && r["spec"] == between["spec"];
    MarkHidesInMetadata(m, p, v);
  }

  lemma SpecMemberIsPatched(m: Members, field: string, v: Json)
    ensures var r, spec := MergeMembers(m, Nested(["spec", field], v)), MembersOf(Member(m, "spec"));
      && "spec" in r && r["spec"].Object?
      && (var spec' := r["spec"].members;
          && AgreeOutside(spec', spec, {field})
          && (v.Null? ==> field !in spec')
          && (!v.Null? ==> field in spec' && spec'[field] == MergePatch(Member(spec, field), v)))
  {
    var spec, inner := MembersOf(Member(m, "spec")), Nested([field], v);
    assert ["spec", field][1..] == [field];
    PatchedMember(m, Nested(["spec", field], v), "spec");
    forall k | k != field
      ensures var spec' := MergeMembers(spec, inner); (k in spec' <==> k in spec) && (k in spec' ==> spec'[k] == spec[k])
    {
      PatchedMember(spec, inner, k);
    }
    PatchedMember(spec, inner, field);
  }

  lemma MarkHidesInMetadata(m: Members, p: Path, v: Json)
    requires HasMetadata(m) && Mutable(p) && p[0] != "metadata"
    ensures var r := Injected(m, p, v);
      && AgreeOutside(Metadata(r), Metadata(m), {"annotations", "labels"})
      && Visible(Metadata(r), "annotations", HIDDEN_ANNOTATIONS) == Visible(Metadata(m), "annotations", HIDDEN_ANNOTATIONS)
      && Visible(Metadata(r), "labels", HIDDEN_LABELS) == Visible(Metadata(m), "labels", HIDDEN_LABELS)
  {
    var mark, between := MarkWith(Join(p, '.'), Lookup(Object(m), p)), MergeMembers(m, Nested(p, v));
    PatchedMember(m, Nested(p, v), "metadata");
    ValueAndMetadataAreCompatible(p, v, mark);
    MergedPatchIsBothPatches(m, Nested(p, v), mark);
    MetadataPatchIsInvisible(between, mark);
    AgreeingDifference(Metadata(Injected(m, p, v)), Metadata(m), {"annotations", "labels"});
  }

  /** The corresponding fact for an accepted path. */
  lemma PathInjection(m: Members, path: string, v: Json)
    requires path != "" && Accepts(path, "") && (path == "metadata.labels" ==> v.Object?)
    ensures var p := ResolveMutationPath(path, "");
      && Join(p, '.') == path
      && AgreeOutside(Injected(m, p, v), m, {p[0], "metadata"})
      && (path != "metadata.labels" ==> Lookup(Object(Injected(m, p, v)), p) == MergePatch(Lookup(Object(m), p), v))
      && forall q: Path | Apart(p, q) && ApartFromMark(q) :: Lookup(Object(Injected(m, p, v)), q) == Lookup(Object(m), q)
  {
    var p := ResolveMutationPath(path, "");
    AcceptedIsMutable(path, "");
    PathIsJoined(path, "", p);
    assert LABELS_PATH[1..] == ["labels"] && Join(LABELS_PATH, '.') == "metadata.labels";
    OtherMembersStay(m, p, v);
    InjectionHitsTarget(m, p, v);
  }
}
