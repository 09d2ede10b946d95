/** When a revert gives back what an injection found, and why interrupted reverts can be
    retried.  Objects are compared up to what the injector marks them with: the rollback
    annotation, the two chaos labels, and label or annotation maps that are empty. */
module CrdRoundTrip {
  import opened Wrappers
  import opened Strings
  import opened Json
  import opened JsonPath
  import opened MutationPath
  import opened CrdMutation

  const HIDDEN_ANNOTATIONS := {ROLLBACK_ANNOTATION}
  const HIDDEN_LABELS := {MANAGED_BY_LABEL, CHAOS_TYPE_LABEL}

  function Metadata(m: Members): Members {
    MembersOf(Member(m, "metadata"))
  }

  function Visible(metadata: Members, key: string, hidden: set<string>): Members {
    MembersOf(Member(metadata, key)) - hidden
  }

  predicate Alike(x: Members, y: Members) {
    && x - {"metadata"} == y - {"metadata"}
    && Metadata(x) - {"annotations", "labels"} == Metadata(y) - {"annotations", "labels"}
    && Visible(Metadata(x), "annotations", HIDDEN_ANNOTATIONS) == Visible(Metadata(y), "annotations", HIDDEN_ANNOTATIONS)
    && Visible(Metadata(x), "labels", HIDDEN_LABELS) == Visible(Metadata(y), "labels", HIDDEN_LABELS)
  }

  predicate ObjectOrAbsent(m: Members, key: string) {
    key in m ==> m[key].Object?
  }

  predicate HasMetadata(m: Members) {
    && "metadata" in m && m["metadata"].Object?
    && ObjectOrAbsent(Metadata(m), "annotations") && ObjectOrAbsent(Metadata(m), "labels")
  }

  predicate StringsOnly(m: Members) {
    forall k | k in m :: m[k].String? || m[k].Envelope?
  }

  /** What the API server guarantees of a stored object: it has metadata, whose labels and
      annotations are maps of strings. */
  predicate Stored(m: Members) {
    && HasMetadata(m)
    && StringsOnly(MembersOf(Member(Metadata(m), "annotations")))
    && StringsOnly(MembersOf(Member(Metadata(m), "labels")))
  }

  // --- writing along a path and what is hidden ---

  lemma HiddenKeysAreQualified(p: Path, k: string)
    requires Mutable(p) && k in p
    ensures k !in HIDDEN_ANNOTATIONS && k !in HIDDEN_LABELS
  {
    assert Free(k, '/');
    assert ROLLBACK_ANNOTATION[22] == '/' && MANAGED_BY_LABEL[17] == '/' && CHAOS_TYPE_LABEL[22] == '/';
  }

  /** Writing at a path that starts outside a hidden set keeps agreement outside of it. */
  lemma PutKeepsAgreement(x: Members, y: Members, hidden: set<string>, p: Path, v: Option<Json>)
    requires x - hidden == y - hidden && p[0] !in hidden
    requires ParentsExist(x, p) && ParentsExist(y, p)
    ensures PutLeaf(x, p, v) - hidden == PutLeaf(y, p, v) - hidden
  {
    assert p[0] in x <==> p[0] in x - hidden;
    assert p[0] in y <==> p[0] in y - hidden;
    var x', y' := PutLeaf(x, p, v), PutLeaf(y, p, v);
    forall k | k !in hidden
      ensures k in x' <==> k in y'
      ensures k in x' ==> x'[k] == y'[k]
    {
      assert k in x <==> k in x - hidden;
      assert k in y <==> k in y - hidden;
      if k in x - hidden { assert (x - hidden)[k] == (y - hidden)[k]; }
    }
  }

  const LABELS_PATH: Path := ["metadata", "labels"]

  /** What may be written at a path without breaking the label map itself. */
  predicate FitsAt(p: Path, v: Option<Json>) {
    p == LABELS_PATH && v.Some? ==> v.value.Object?
  }

  /** Alike objects stay alike when the same leaf is written into both. */
  lemma PutKeepsAlike(x: Members, y: Members, p: Path, v: Option<Json>)
    requires HasMetadata(x) && HasMetadata(y) && Alike(x, y)
    requires Mutable(p) && ParentsExist(x, p) && ParentsExist(y, p)
    ensures Alike(PutLeaf(x, p, v), PutLeaf(y, p, v))
  {
    if p[0] != "metadata" {
      PutKeepsAgreement(x, y, {"metadata"}, p, v);
    } else {
      PutInMetadata(x, p, v);
      PutInMetadata(y, p, v);
      PutKeepsMetadataAlike(Metadata(x), Metadata(y), p, v);
    }
  }

  lemma PutInMetadata(x: Members, p: Path, v: Option<Json>)
    requires HasMetadata(x) && Mutable(p) && p[0] == "metadata" && ParentsExist(x, p)
    ensures |p| > 1 && ParentsExist(Metadata(x), p[1..])
    ensures Metadata(PutLeaf(x, p, v)) == PutLeaf(Metadata(x), p[1..], v)
    ensures PutLeaf(x, p, v) - {"metadata"} == x - {"metadata"}
  {
    assert p == ["metadata"] + p[1..];
  }

  lemma PutKeepsMetadataAlike(mx: Members, my: Members, p: Path, v: Option<Json>)
    requires mx - {"annotations", "labels"} == my - {"annotations", "labels"}
    requires Visible(mx, "annotations", HIDDEN_ANNOTATIONS) == Visible(my, "annotations", HIDDEN_ANNOTATIONS)
    requires Visible(mx, "labels", HIDDEN_LABELS) == Visible(my, "labels", HIDDEN_LABELS)
    requires Mutable(p) && |p| > 1 && p[0] == "metadata" && ParentsExist(mx, p[1..]) && ParentsExist(my, p[1..])
    ensures var nx, ny := PutLeaf(mx, p[1..], v), PutLeaf(my, p[1..], v);
      && nx - {"annotations", "labels"} == ny - {"annotations", "labels"}
      && Visible(nx, "annotations", HIDDEN_ANNOTATIONS) == Visible(ny, "annotations", HIDDEN_ANNOTATIONS)
      && Visible(nx, "labels", HIDDEN_LABELS) == Visible(ny, "labels", HIDDEN_LABELS)
  {
    var q := p[1..];
    if q[0] != "annotations" && q[0] != "labels" {
      PutKeepsAgreement(mx, my, {"annotations", "labels"}, q, v);
    } else {
      PutKeepsVisible(mx, my, "annotations", HIDDEN_ANNOTATIONS, p, v);
      PutKeepsVisible(mx, my, "labels", HIDDEN_LABELS, p, v);
      assert PutLeaf(mx, q, v) - {"annotations", "labels"} == mx - {"annotations", "labels"};
      assert PutLeaf(my, q, v) - {"annotations", "labels"} == my - {"annotations", "labels"};
    }
  }

  lemma PutKeepsVisible(mx: Members, my: Members, key: string, hidden: set<string>, p: Path, v: Option<Json>)
    requires Visible(mx, key, hidden) == Visible(my, key, hidden)
    requires Mutable(p) && |p| > 1 && (p[1] == "annotations" || p[1] == "labels") && p[0] == "metadata"
    requires ParentsExist(mx, p[1..]) && ParentsExist(my, p[1..])
    requires hidden == HIDDEN_ANNOTATIONS || hidden == HIDDEN_LABELS
    ensures Visible(PutLeaf(mx, p[1..], v), key, hidden) == Visible(PutLeaf(my, p[1..], v), key, hidden)
  {
    var q := p[1..];
    if q[0] == key && |q| > 1 {
      assert q[1] == p[2] && q[1] in p;
      HiddenKeysAreQualified(p, q[1]);
      PutKeepsAgreement(mx[key].members, my[key].members, hidden, q[1..], v);
    }
  }

  lemma PutKeepsMetadata(x: Members, p: Path, v: Option<Json>)
    requires HasMetadata(x) && Mutable(p) && ParentsExist(x, p) && FitsAt(p, v)
    ensures HasMetadata(PutLeaf(x, p, v))
  {
    if p[0] == "metadata" {
      var q := p[1..];
      assert p == ["metadata"] + q;
      assert Metadata(PutLeaf(x, p, v)) == PutLeaf(Metadata(x), q, v);
      if |q| == 1 { assert q == [q[0]]; }
    }
  }

  // --- the metadata patches ---

  ghost predicate IsMetadataPatch(patch: Json) {
    exists a: Json, m: Json, t: Json :: !a.Object? && !m.Object? && !t.Object? && patch == MetadataPatch(a, m, t)
  }

  lemma PatchedMap(m: Members, patch: Json, hidden: set<string>)
    requires patch.Object? && patch.members.Keys == hidden
    requires forall k | k in patch.members :: !patch.members[k].Object?
    ensures MergeMembers(m, patch) - hidden == m - hidden
  {
    var r := MergeMembers(m, patch);
    forall k | k !in hidden ensures k in r <==> k in m
                            ensures k in r ==> r[k] == m[k]
    {
      PatchedMember(m, patch, k);
    }
  }

  /** The part of a metadata patch below metadata. */
  lemma MapsPatchIsInvisible(md: Members, inner: Json)
    requires inner.Object? && inner.members.Keys == {"annotations", "labels"}
    requires forall k | k in inner.members :: inner.members[k].Object?
    requires inner.members["annotations"].members.Keys == HIDDEN_ANNOTATIONS
    requires inner.members["labels"].members.Keys == HIDDEN_LABELS
    requires forall k | k in inner.members["annotations"].members :: !inner.members["annotations"].members[k].Object?
    requires forall k | k in inner.members["labels"].members :: !inner.members["labels"].members[k].Object?
    ensures var md' := MergeMembers(md, inner);
      && "annotations" in md' && md'["annotations"].Object? && "labels" in md' && md'["labels"].Object?
      && md' - {"annotations", "labels"} == md - {"annotations", "labels"}
      && Visible(md', "annotations", HIDDEN_ANNOTATIONS) == Visible(md, "annotations", HIDDEN_ANNOTATIONS)
      && Visible(md', "labels", HIDDEN_LABELS) == Visible(md, "labels", HIDDEN_LABELS)
  {
    var md' := MergeMembers(md, inner);
    forall k | k != "annotations" && k != "labels" ensures k in md' <==> k in md
                                                  ensures k in md' ==> md'[k] == md[k]
    {
      PatchedMember(md, inner, k);
    }
    PatchedMember(md, inner, "annotations");
    PatchedMember(md, inner, "labels");
    PatchedMap(MembersOf(Member(md, "annotations")), inner.members["annotations"], HIDDEN_ANNOTATIONS);
    PatchedMap(MembersOf(Member(md, "labels")), inner.members["labels"], HIDDEN_LABELS);
  }

  /** A metadata patch leaves both maps in place and changes only what is hidden. */
  lemma MetadataPatchIsInvisible(x: Members, patch: Json)
    requires HasMetadata(x) && IsMetadataPatch(patch)
    ensures HasMetadata(MergeMembers(x, patch)) && Alike(MergeMembers(x, patch), x)
    ensures "annotations" in Metadata(MergeMembers(x, patch)) && "labels" in Metadata(MergeMembers(x, patch))
  {
    var x' := MergeMembers(x, patch);
    PatchedMember(x, patch, "metadata");
    MapsPatchIsInvisible(Metadata(x), patch.members["metadata"]);
    forall k | k != "metadata" ensures k in x' <==> k in x
                               ensures k in x' ==> x'[k] == x[k]
    {
      PatchedMember(x, patch, k);
    }
  }

  /** A metadata patch does not remove a parent of any path. */
  lemma MetadataPatchKeepsParents(x: Members, patch: Json, p: Path)
    requires HasMetadata(x) && IsMetadataPatch(patch) && Mutable(p) && ParentsExist(x, p)
    ensures ParentsExist(MergeMembers(x, patch), p)
  {
    MetadataPatchIsInvisible(x, patch);
    AlikeKeepsParents(x, MergeMembers(x, patch), p);
  }

  /** Agreement outside a hidden set carries the parents of a path over. */
  lemma AgreementKeepsParents(x: Members, y: Members, hidden: set<string>, p: Path)
    requires x - hidden == y - hidden && (|p| > 1 ==> p[0] !in hidden) && ParentsExist(x, p)
    ensures ParentsExist(y, p)
  {
    if |p| > 1 {
      assert p[0] in x - hidden && p[0] in y - hidden;
      assert (x - hidden)[p[0]] == (y - hidden)[p[0]];
    }
  }

  /** Alike objects have the same parents, if the second has the label and annotation maps. */
  lemma AlikeKeepsParents(x: Members, y: Members, p: Path)
    requires HasMetadata(x) && HasMetadata(y) && Alike(x, y) && Mutable(p) && ParentsExist(x, p)
    requires "annotations" in Metadata(y) && "labels" in Metadata(y)
    ensures ParentsExist(y, p)
  {
    if p[0] != "metadata" {
      AgreementKeepsParents(x, y, {"metadata"}, p);
    } else if |p| > 2 {
      var q := p[1..];
      var mx, my := Metadata(x), Metadata(y);
      if q[0] != "annotations" && q[0] != "labels" {
        AgreementKeepsParents(mx, my, {"annotations", "labels"}, q);
      } else {
        assert q[1] == p[2] && q[1] in p;
        HiddenKeysAreQualified(p, q[1]);
        var hidden := if q[0] == "annotations" then HIDDEN_ANNOTATIONS else HIDDEN_LABELS;
        assert Visible(mx, q[0], hidden) == Visible(my, q[0], hidden);
        AgreementKeepsParents(mx[q[0]].members, my[q[0]].members, hidden, q[1..]);
      }
    }
  }

  // --- injection and restore as leaf writes ---

  /** A value patch and a metadata patch are compatible, except for a value that is not an
      object put in the place of the whole label map. */
  lemma ValueAndMetadataAreCompatible(p: Path, v: Json, patch: Json)
    requires Mutable(p) && IsMetadataPatch(patch) && (p == LABELS_PATH ==> v.Object?)
    ensures Compatible(Nested(p, v), patch)
  {
    if p[0] == "metadata" {
      var q := p[1..];
      assert p == ["metadata"] + q;
      if |q| == 1 { assert q == [q[0]]; }
      assert Compatible(Nested(q, v), patch.members["metadata"]);
    }
  }

  /** Such a value is ignored: the labels of the metadata patch take its place. */
  lemma LabelMapValueIsIgnored(v: Json, patch: Json)
    requires !v.Object? && IsMetadataPatch(patch)
    ensures DeepMerge(Nested(LABELS_PATH, v), patch) == patch
  {
    assert LABELS_PATH[1..] == ["labels"];
    var inner := Nested(["labels"], v);
    assert DeepMerge(inner, patch.members["metadata"]).members == patch.members["metadata"].members;
    assert DeepMerge(Nested(LABELS_PATH, v), patch).members == patch.members;
  }

  /** With existing parents an injection writes some leaf and marks the object. */
  lemma InjectionWritesLeaf(m: Members, p: Path, v: Json) returns (leaf: Option<Json>)
    requires HasMetadata(m) && Mutable(p) && ParentsExist(m, p)
    ensures FitsAt(p, leaf) && (p != LABELS_PATH || v.Object? ==> leaf == PatchedLeaf(Leaf(m, p), v))
    ensures Injected(m, p, v) == MergeMembers(PutLeaf(m, p, leaf), MarkWith(Join(p, '.'), Lookup(Object(m), p)))
  {
    var mark := MarkWith(Join(p, '.'), Lookup(Object(m), p));
    if p == LABELS_PATH && !v.Object? {
      leaf := Leaf(m, p);
      PutBack(m, p);
      LabelMapValueIsIgnored(v, mark);
      assert p[1..] == ["labels"];
    } else {
      leaf := PatchedLeaf(Leaf(m, p), v);
      NestedPatchPutsLeaf(m, p, v);
      ValueAndMetadataAreCompatible(p, v, mark);
      MergedPatchIsBothPatches(m, Nested(p, v), mark);
    }
  }

  /** What a marked object must look like for its revert to work. */
  ghost predicate Marked(o: Members, p: Path, original: Json) {
    && HasMetadata(o) && Mutable(p) && ParentsExist(o, p)
    && (p == LABELS_PATH ==> original.Object? || original.Null?)
    && Marker(o) == Some(Envelope(Join(p, '.'), original)) && Split(Join(p, '.'), '.') == p && Join(p, '.') != ""
  }

  lemma MarkIsReadBack(x: Members, path: string, original: Json)
    requires HasMetadata(x)
    ensures Marker(MergeMembers(x, MarkWith(path, original))) == Some(Envelope(path, original))
    ensures Marker(MergeMembers(x, UNMARK)) == None
  {
    var mark := MarkWith(path, original);
    ghost var md := Metadata(x);
    PatchedMember(x, mark, "metadata");
    PatchedMember(md, mark.members["metadata"], "annotations");
    PatchedMember(MembersOf(Member(md, "annotations")), mark.members["metadata"].members["annotations"], ROLLBACK_ANNOTATION);
    PatchedMember(x, UNMARK, "metadata");
    PatchedMember(md, UNMARK.members["metadata"], "annotations");
    PatchedMember(MembersOf(Member(md, "annotations")), UNMARK.members["metadata"].members["annotations"], ROLLBACK_ANNOTATION);
  }

  function RestoredLeaf(original: Json): Option<Json> {
    if original.Null? then None else Some(MergePatch(Null, original))
  }

  /** A restore writes the original value and removes the mark. */
  lemma RestoreWritesLeaf(o: Members, p: Path, original: Json)
    requires HasMetadata(o) && Mutable(p) && ParentsExist(o, p)
    requires p == LABELS_PATH ==> original.Object? || original.Null?
    ensures ApplyAll(o, RestorePatches(p, original)) == MergeMembers(PutLeaf(o, p, RestoredLeaf(original)), UNMARK)
  {
    ApplyFew(o, RestorePatches(p, original));
    NestedPatchPutsLeaf(o, p, Null);
    if !original.Null? {
      ValueAndMetadataAreCompatible(p, original, UNMARK);
      if original.Object? {
        var cleared := PutLeaf(o, p, None);
        PutKeepsParents(o, p, None);
        NestedPatchPutsLeaf(cleared, p, original);
        PutTwice(o, p, None, RestoredLeaf(original));
        MergedPatchIsBothPatches(cleared, Nested(p, original), UNMARK);
      } else {
        NestedPatchPutsLeaf(o, p, original);
        MergedPatchIsBothPatches(o, Nested(p, original), UNMARK);
      }
    }
  }
}
