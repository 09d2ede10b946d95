/** The main results on CRD mutation: the exact condition of the round trip, and the
    retry of interrupted reverts. */
module CrdTheorems {
  import opened Wrappers
  import opened Strings
  import opened Json
  import opened JsonPath
  import opened MutationPath
  import opened CrdMutation
  import opened CrdRoundTrip

  /** A mutable path whose segments survive the rollback data. */
  predicate Target(p: Path) {
    Mutable(p) && Split(Join(p, '.'), '.') == p && Join(p, '.') != ""
  }

  /** Every target that validation accepts is one. */
  lemma AcceptedIsTarget(path: string, field: string)
    requires Accepts(path, field)
    ensures Target(ResolveMutationPath(path, field))
  {
    AcceptedIsMutable(path, field);
    if path != "" {
      JoinAfterSplit(path, '.');
    }
  }

  // --- the round trip ---

  lemma OriginalFitsLabels(m: Members, p: Path)
    requires Stored(m) && Target(p)
    ensures var original := Lookup(Object(m), p);
      p == LABELS_PATH ==> (original.Object? && NullFree(original)) || original.Null?
  {
    if p == LABELS_PATH {
      assert p[0] == "metadata" && p[1..] == ["labels"] && ["labels"][1..] == [];
      assert "metadata" in m && m["metadata"].Object?;
      assert Lookup(Object(m), p) == Lookup(m["metadata"], ["labels"]);
      var md := m["metadata"].members;
      assert Lookup(m["metadata"], ["labels"]) == if "labels" in md then md["labels"] else Null;
    }
  }

  lemma MarkingMarks(o: Members, p: Path, original: Json)
    requires HasMetadata(o) && Target(p) && ParentsExist(o, p) && (p == LABELS_PATH ==> original.Object? || original.Null?)
    ensures var o' := MergeMembers(o, MarkWith(Join(p, '.'), original)); Marked(o', p, original) && Alike(o', o)
  {
    var mark := MarkWith(Join(p, '.'), original);
    MetadataPatchIsInvisible(o, mark);
    MetadataPatchKeepsParents(o, mark, p);
    MarkIsReadBack(o, Join(p, '.'), original);
  }

  /** An injected object is ready for its revert, which writes back the original value
      with its null members stripped. */
  lemma RevertWritesOriginal(m: Members, p: Path, v: Json)
    requires Stored(m) && Target(p) && ParentsExist(m, p)
    ensures var original := Lookup(Object(m), p); var injected := Injected(m, p, v);
      && Marked(injected, p, original) && RevertPatches(injected).Some?
      && HasMetadata(Reverted(injected)) && ParentsExist(Reverted(injected), p)
      && Alike(Reverted(injected), PutLeaf(m, p, RestoredLeaf(original)))
  {
    var original := Lookup(Object(m), p);
    var mark := MarkWith(Join(p, '.'), original);
    OriginalFitsLabels(m, p);
    var leaf := InjectionWritesLeaf(m, p, v);
    var put := PutLeaf(m, p, leaf);
    PutKeepsMetadata(m, p, leaf);
    PutKeepsParents(m, p, leaf);
    MarkingMarks(put, p, original);
    RevertOfMarked(Injected(m, p, v), p, original);
    PutKeepsAlike(Injected(m, p, v), put, p, RestoredLeaf(original));
    PutTwice(m, p, leaf, RestoredLeaf(original));
  }

  lemma RevertOfMarked(o: Members, p: Path, original: Json)
    requires Marked(o, p, original)
    ensures RevertPatches(o) == Some(RestorePatches(p, original))
    ensures HasMetadata(Reverted(o)) && ParentsExist(Reverted(o), p) && Marker(Reverted(o)).None?
    ensures Reverted(o) == MergeMembers(PutLeaf(o, p, RestoredLeaf(original)), UNMARK)
    ensures Alike(Reverted(o), PutLeaf(o, p, RestoredLeaf(original)))
  {
    var put := PutLeaf(o, p, RestoredLeaf(original));
    RestoreWritesLeaf(o, p, original);
    PutKeepsMetadata(o, p, RestoredLeaf(original));
    PutKeepsParents(o, p, RestoredLeaf(original));
    MetadataPatchIsInvisible(put, UNMARK);
    MetadataPatchKeepsParents(put, UNMARK, p);
    MarkIsReadBack(put, "", Null);
  }

  /** Different leaves outside a hidden set tell two objects apart. */
  lemma LeavesTellApart(m: Members, hidden: set<string>, p: Path, a: Option<Json>, b: Option<Json>)
    requires ParentsExist(m, p) && p[0] !in hidden
    ensures PutLeaf(m, p, a) - hidden == PutLeaf(m, p, b) - hidden ==> a == b
  {
    PutKeepsParents(m, p, a);
    PutKeepsParents(m, p, b);
    var x, y := PutLeaf(m, p, a), PutLeaf(m, p, b);
    if x - hidden == y - hidden {
      assert p[0] in x <==> p[0] in x - hidden;
      assert p[0] in y <==> p[0] in y - hidden;
      if p[0] in x { assert (x - hidden)[p[0]] == (y - hidden)[p[0]]; }
    }
  }

  lemma AlikeIffSameLeaf(m: Members, p: Path, a: Option<Json>, b: Option<Json>)
    requires HasMetadata(m) && Mutable(p) && ParentsExist(m, p) && p != LABELS_PATH
    ensures Alike(PutLeaf(m, p, a), PutLeaf(m, p, b)) <==> a == b
  {
    if a != b {
      if p[0] != "metadata" {
        LeavesTellApart(m, {"metadata"}, p, a, b);
      } else {
        var q := p[1..];
        assert p == ["metadata"] + q;
        var md := Metadata(m);
        assert Metadata(PutLeaf(m, p, a)) == PutLeaf(md, q, a) && Metadata(PutLeaf(m, p, b)) == PutLeaf(md, q, b);
        if q[0] != "annotations" && q[0] != "labels" {
          LeavesTellApart(md, {"annotations", "labels"}, q, a, b);
        } else {
          assert q[1] == p[2] && q[1] in p;
          HiddenKeysAreQualified(p, q[1]);
          var hidden := if q[0] == "annotations" then HIDDEN_ANNOTATIONS else HIDDEN_LABELS;
          LeavesTellApart(md[q[0]].members, hidden, q[1..], a, b);
          assert Visible(PutLeaf(md, q, a), q[0], hidden) == PutLeaf(md[q[0]].members, q[1..], a) - hidden;
          assert Visible(PutLeaf(md, q, b), q[0], hidden) == PutLeaf(md[q[0]].members, q[1..], b) - hidden;
        }
      }
    }
  }

  /** The round trip with existing parents: it fails exactly for a null, or an object with
      a null member somewhere inside. */
  lemma RoundTripWithParents(m: Members, p: Path, v: Json)
    requires Stored(m) && Target(p) && ParentsExist(m, p)
    ensures RevertPatches(Injected(m, p, v)).Some?
    ensures Alike(Reverted(Injected(m, p, v)), m) <==>
      (Leaf(m, p).Some? ==> !Leaf(m, p).value.Null? && NullFree(Leaf(m, p).value))
  {
    var original := Lookup(Object(m), p);
    RevertWritesOriginal(m, p, v);
    LookupIsLeaf(m, p);
    PutBack(m, p);
    MergedOntoNothing(original);
    OriginalFitsLabels(m, p);
    if p == LABELS_PATH {
      assert p[1..] == ["labels"];
      assert RestoredLeaf(original) == Leaf(m, p);
    } else {
      AlikeIffSameLeaf(m, p, RestoredLeaf(original), Leaf(m, p));
    }
  }

  /** The object with its label and annotation maps present, if empty. */
  function WithMaps(m: Members): Members
    requires HasMetadata(m)
  {
    var md := Metadata(m);
    var md' := if "annotations" in md then md else md["annotations" := Object(map[])];
    var md'' := if "labels" in md' then md' else md'["labels" := Object(map[])];
    m["metadata" := Object(md'')]
  }

  /** The exact condition: the path leads through existing objects (a missing label or
      annotation map counts as an empty one), and the value it leads to, if any, is
      neither null nor an object with a null member inside. */
  predicate Restorable(m: Members, p: Path)
    requires HasMetadata(m)
  {
    var w := WithMaps(m);
    ParentsExist(w, p) && (Leaf(w, p).Some? ==> !Leaf(w, p).value.Null? && NullFree(Leaf(w, p).value))
  }

  lemma WithMapsIsStored(m: Members)
    requires Stored(m)
    ensures Stored(WithMaps(m)) && Alike(WithMaps(m), m)
    ensures "annotations" in Metadata(WithMaps(m)) && "labels" in Metadata(WithMaps(m))
  {
    assert WithMaps(m) - {"metadata"} == m - {"metadata"};
  }

  lemma LeafOfWithMaps(m: Members, p: Path)
    requires Stored(m) && Mutable(p) && ParentsExist(m, p) && p != LABELS_PATH
    ensures ParentsExist(WithMaps(m), p) && Leaf(WithMaps(m), p) == Leaf(m, p)
  {
    if p[0] == "metadata" {
      var q := p[1..];
      assert p == ["metadata"] + q;
      if |q| == 1 { assert q == [q[0]]; }
    }
  }

  lemma LookupOfWithMaps(m: Members, p: Path)
    requires Stored(m) && Mutable(p) && p != LABELS_PATH
    ensures Lookup(Object(m), p) == Lookup(Object(WithMaps(m)), p)
  {
    if p[0] == "metadata" {
      var q := p[1..];
      assert p == ["metadata"] + q;
      if |q| == 1 { assert q == [q[0]]; }
      assert Lookup(Object(m), p) == Lookup(Object(Metadata(m)), q);
      assert Lookup(Object(WithMaps(m)), p) == Lookup(Object(Metadata(WithMaps(m))), q);
      var md, wd := Metadata(m), Metadata(WithMaps(m));
      if q[0] in wd && q[0] !in md {
        assert wd[q[0]] == Object(map[]) && Lookup(wd[q[0]], q[1..]) == Null;
      }
    }
  }

  predicate SetsBothMaps(patch: Json) {
    && patch.Object? && "metadata" in patch.members && patch.members["metadata"].Object?
    && var inner := patch.members["metadata"];
       && "annotations" in inner.members && inner.members["annotations"].Object?
       && "labels" in inner.members && inner.members["labels"].Object?
  }

  lemma InjectPatchSetsBothMaps(m: Members, p: Path, v: Json)
    ensures SetsBothMaps(InjectPatch(m, p, v))
  {
    var mark := MarkWith(Join(p, '.'), Lookup(Object(m), p));
    MergedMember(Nested(p, v), mark, "metadata");
    if p[0] == "metadata" && Nested(p, v).members["metadata"].Object? {
      MergedMember(Nested(p, v).members["metadata"], mark.members["metadata"], "annotations");
      MergedMember(Nested(p, v).members["metadata"], mark.members["metadata"], "labels");
    }
  }

  lemma PatchFillsMaps(m: Members, patch: Json)
    requires HasMetadata(m) && SetsBothMaps(patch)
    ensures MergeMembers(m, patch) == MergeMembers(WithMaps(m), patch)
  {
    var w, inner := WithMaps(m), patch.members["metadata"];
    var md, wd := Metadata(m), Metadata(w);
    forall k ensures k in MergeMembers(md, inner) <==> k in MergeMembers(wd, inner)
             ensures k in MergeMembers(md, inner) ==> MergeMembers(md, inner)[k] == MergeMembers(wd, inner)[k]
    {
      PatchedMember(md, inner, k);
      PatchedMember(wd, inner, k);
    }
    assert MergeMembers(md, inner) == MergeMembers(wd, inner);
    forall k ensures k in MergeMembers(m, patch) <==> k in MergeMembers(w, patch)
             ensures k in MergeMembers(m, patch) ==> MergeMembers(m, patch)[k] == MergeMembers(w, patch)[k]
    {
      PatchedMember(m, patch, k);
      PatchedMember(w, patch, k);
    }
  }

  /** An injection does not see whether a map that it will fill is missing or empty. */
  lemma InjectionFillsMaps(m: Members, p: Path, v: Json)
    requires Stored(m) && Mutable(p) && p != LABELS_PATH
    ensures Injected(m, p, v) == Injected(WithMaps(m), p, v)
  {
    LookupOfWithMaps(m, p);
    InjectPatchSetsBothMaps(m, p, v);
    PatchFillsMaps(m, InjectPatch(m, p, v));
  }

  lemma NestedPatchKeepsMetadata(m: Members, p: Path, v: Json)
    requires HasMetadata(m) && Mutable(p) && p != LABELS_PATH
    ensures HasMetadata(MergeMembers(m, Nested(p, v)))
  {
    PatchedMember(m, Nested(p, v), "metadata");
    if p[0] == "metadata" {
      var q := p[1..];
      assert p == ["metadata"] + q;
      if |q| == 1 { assert q == [q[0]]; }
      PatchedMember(Metadata(m), Nested(q, v), "annotations");
      PatchedMember(Metadata(m), Nested(q, v), "labels");
    }
  }

  lemma CreatedIsMarked(m: Members, p: Path, v: Json)
    requires Stored(m) && Target(p) && !ParentsExist(WithMaps(m), p)
    ensures Marked(Injected(m, p, v), p, Lookup(Object(m), p))
  {
    var original := Lookup(Object(m), p);
    var mark := MarkWith(Join(p, '.'), original);
    if p == LABELS_PATH {
      LabelsHaveParents(m);
      assert false;
    }
    NestedPatchKeepsMetadata(m, p, v);
    NestedPatchMakesParents(m, p, v);
    ValueAndMetadataAreCompatible(p, v, mark);
    MergedPatchIsBothPatches(m, Nested(p, v), mark);
    MarkingMarks(MergeMembers(m, Nested(p, v)), p, original);
  }

  lemma LabelsHaveParents(m: Members)
    requires Stored(m)
    ensures ParentsExist(WithMaps(m), LABELS_PATH)
  {
    assert LABELS_PATH[1..] == ["labels"];
  }

  /** Without existing parents the injection creates them, and no revert removes them. */
  lemma CreatedParentsRemain(m: Members, p: Path, v: Json)
    requires Stored(m) && Target(p) && !ParentsExist(WithMaps(m), p)
    ensures RevertPatches(Injected(m, p, v)).Some?
    ensures !Alike(Reverted(Injected(m, p, v)), m)
  {
    var o := Injected(m, p, v);
    CreatedIsMarked(m, p, v);
    RevertOfMarked(o, p, Lookup(Object(m), p));
    if Alike(Reverted(o), m) {
      WithMapsIsStored(m);
      AlikeKeepsParents(Reverted(o), WithMaps(m), p);
      assert false;
    }
  }

  /** For every stored object, every target and every injected value, a revert gives back
      the original object if and only if it was restorable. */
  lemma RoundTripExactly(m: Members, p: Path, v: Json)
    requires Stored(m) && Target(p)
    ensures RevertPatches(Injected(m, p, v)).Some?
    ensures Alike(Reverted(Injected(m, p, v)), m) <==> Restorable(m, p)
  {
    WithMapsIsStored(m);
    if p == LABELS_PATH {
      assert p[1..] == ["labels"];
      RoundTripWithParents(m, p, v);
    } else if ParentsExist(m, p) {
      RoundTripWithParents(m, p, v);
      LeafOfWithMaps(m, p);
    } else if ParentsExist(WithMaps(m), p) {
      InjectionFillsMaps(m, p, v);
      RoundTripWithParents(WithMaps(m), p, v);
    } else {
      CreatedParentsRemain(m, p, v);
    }
  }

  // --- exactly the same object ---

  /** The object has both maps, and none of the entries that the injector marks objects with. */
  predicate Unhidden(m: Members) {
    && HasMetadata(m) && "annotations" in Metadata(m) && "labels" in Metadata(m)
    && ROLLBACK_ANNOTATION !in MembersOf(Metadata(m)["annotations"])
    && MANAGED_BY_LABEL !in MembersOf(Metadata(m)["labels"]) && CHAOS_TYPE_LABEL !in MembersOf(Metadata(m)["labels"])
  }

  lemma UnmarkedIsUnhidden(m: Members)
    requires HasMetadata(m)
    ensures Unhidden(MergeMembers(m, UNMARK))
  {
    MetadataPatchIsInvisible(m, UNMARK);
    var md, inner := Metadata(m), UNMARK.members["metadata"];
    PatchedMember(m, UNMARK, "metadata");
    PatchedMember(md, inner, "annotations");
    PatchedMember(md, inner, "labels");
    PatchedMember(MembersOf(Member(md, "annotations")), inner.members["annotations"], ROLLBACK_ANNOTATION);
    PatchedMember(MembersOf(Member(md, "labels")), inner.members["labels"], MANAGED_BY_LABEL);
    PatchedMember(MembersOf(Member(md, "labels")), inner.members["labels"], CHAOS_TYPE_LABEL);
  }

  lemma UnhiddenAreEqual(x: Members, y: Members)
    requires Unhidden(x) && Unhidden(y) && Alike(x, y)
    ensures x == y
  {
    var mx, my := Metadata(x), Metadata(y);
    SameWithout(MembersOf(mx["annotations"]), MembersOf(my["annotations"]), HIDDEN_ANNOTATIONS);
    SameWithout(MembersOf(mx["labels"]), MembersOf(my["labels"]), HIDDEN_LABELS);
    SameOutside(mx, my, {"annotations", "labels"});
    SameOutside(x, y, {"metadata"});
  }

  lemma SameWithout(x: Members, y: Members, hidden: set<string>)
    requires x - hidden == y - hidden && x.Keys !! hidden && y.Keys !! hidden
    ensures x == y
  {
    assert x - hidden == x && y - hidden == y;
  }

  lemma SameOutside(x: Members, y: Members, keys: set<string>)
    requires x - keys == y - keys && forall k | k in keys :: k in x && k in y && x[k] == y[k]
    ensures x == y
  {
    forall k ensures k in x <==> k in y
             ensures k in x ==> x[k] == y[k]
    {
      if k !in keys {
        assert k in x <==> k in x - keys;
        assert k in y <==> k in y - keys;
        if k in x - keys { assert (x - keys)[k] == (y - keys)[k]; }
      }
    }
  }

  /** A revert gives back the very object, hidden entries included, if and only if it was restorable,
      had a label and an annotation map, and had none of the three entries: a managed-by label of its
      own, for one, is overwritten and then removed. */
  lemma SameObjectExactly(m: Members, p: Path, v: Json)
    requires Stored(m) && Target(p)
    ensures RevertPatches(Injected(m, p, v)).Some?
    ensures Reverted(Injected(m, p, v)) == m <==> Restorable(m, p) && Unhidden(m)
  {
    RoundTripExactly(m, p, v);
    var o, original := Injected(m, p, v), Lookup(Object(m), p);
    if Restorable(m, p) {
      RestorableInjectionIsMarked(m, p, v);
      RevertOfMarked(o, p, original);
      PutKeepsMetadata(o, p, RestoredLeaf(original));
      UnmarkedIsUnhidden(PutLeaf(o, p, RestoredLeaf(original)));
      if Unhidden(m) { UnhiddenAreEqual(Reverted(o), m); }
    }
  }

  // --- interrupted reverts ---

  /** o' is what a revert attempt on o leaves if it is cut off after some of its patches. */
  ghost predicate CutRevert(o: Members, o': Members) {
    RevertPatches(o).Some? &&
    exists sent: nat :: sent <= |RevertPatches(o).value| && o' == ApplyAll(o, RevertPatches(o).value[..sent])
  }

  /** One cut attempt changes nothing about the final outcome, and as long as the original
      value is not back, the mark is still there. */
  lemma CutRevertKeepsOutcome(o: Members, o': Members, p: Path, original: Json)
    requires Marked(o, p, original) && CutRevert(o, o')
    ensures RevertPatches(o).Some? && RevertPatches(o').Some? && Reverted(o') == Reverted(o)
    ensures Marked(o', p, original) || o' == Reverted(o)
  {
    RevertOfMarked(o, p, original);
    var patches := RestorePatches(p, original);
    var sent: nat :| sent <= |patches| && o' == ApplyAll(o, patches[..sent]);
    if sent == |patches| {
      assert patches[..sent] == patches;
    } else if sent == 1 {
      ApplyFew(o, patches[..1]);
      ClearingKeepsMark(o, p, original);
      RevertOfMarked(o', p, original);
      PutTwice(o, p, None, RestoredLeaf(original));
    } else {
      assert patches[..0] == [];
    }
  }

  lemma MutableNullKeepsMark(m: Members, p: Path)
    requires HasMetadata(m) && Marker(m).Some? && Mutable(p)
    ensures Marker(MergeMembers(m, Nested(p, Null))) == Marker(m)
  {
    PatchedMember(m, Nested(p, Null), "metadata");
    if p[0] == "metadata" {
      var q := p[1..];
      assert p == ["metadata"] + q;
      if |q| == 1 { assert q == [q[0]]; }
      PatchedMember(Metadata(m), Nested(q, Null), "annotations");
      if q[0] == "annotations" {
        assert q[1] == p[2] && q[1] in p;
        HiddenKeysAreQualified(p, q[1]);
        PatchedMember(Metadata(m)["annotations"].members, Nested(q[1..], Null), ROLLBACK_ANNOTATION);
      }
    }
  }

  /** Nulling the leaf keeps the mark and the parents. */
  lemma ClearingKeepsMark(o: Members, p: Path, original: Json)
    requires Marked(o, p, original)
    ensures MergeMembers(o, Nested(p, Null)) == PutLeaf(o, p, None)
    ensures Marked(PutLeaf(o, p, None), p, original)
  {
    NestedPatchPutsLeaf(o, p, Null);
    PutKeepsParents(o, p, None);
    PutKeepsMetadata(o, p, None);
    MutableNullKeepsMark(o, p);
  }

  /** A completed revert of o ends in end; without a mark o is end already. */
  ghost predicate LeadsTo(o: Members, end: Members, p: Path, original: Json) {
    && RevertPatches(o).Some? && Reverted(o) == end
    && (Marker(o).None? ==> o == end) && (Marked(o, p, original) || (o == end && Marker(o).None?))
  }

  lemma MarkedLeadsToReverted(o: Members, p: Path, original: Json)
    requires Marked(o, p, original)
    ensures LeadsTo(o, Reverted(o), p, original) && LeadsTo(Reverted(o), Reverted(o), p, original)
  {
    RevertOfMarked(o, p, original);
  }

  lemma CutRevertLeadsToSame(o: Members, o': Members, end: Members, p: Path, original: Json)
    requires LeadsTo(o, end, p, original) && CutRevert(o, o')
    ensures LeadsTo(o', end, p, original)
  {
    if Marked(o, p, original) {
      CutRevertKeepsOutcome(o, o', p, original);
      MarkedLeadsToReverted(o, p, original);
    } else {
      assert RevertPatches(o).value == [];
    }
  }

  ghost predicate CutReverts(os: seq<Members>) {
    forall i {:trigger os[i]} | 0 < i < |os| :: CutRevert(os[i - 1], os[i])
  }

  lemma CutRevertsBefore(os: seq<Members>)
    requires |os| > 1 && CutReverts(os)
    ensures CutReverts(os[..|os| - 1]) && os[..|os| - 1][0] == os[0] && os[..|os| - 1][|os| - 2] == os[|os| - 2]
    ensures CutRevert(os[|os| - 2], os[|os| - 1])
  {
  }

  /** Any number of attempts cut off anywhere, followed by one that completes, ends in the
      object that one uninterrupted revert gives; and whenever the mark is gone, the
      object is already that one. */
  lemma {:induction false} RetriedRevertConverges(os: seq<Members>, p: Path, original: Json)
    requires |os| > 0 && Marked(os[0], p, original)
    requires CutReverts(os)
    ensures RevertPatches(os[0]).Some? && LeadsTo(os[|os| - 1], Reverted(os[0]), p, original)
  {
    MarkedLeadsToReverted(os[0], p, original);
    if |os| > 1 {
      CutRevertsBefore(os);
      RetriedRevertConverges(os[..|os| - 1], p, original);
      CutRevertLeadsToSame(os[|os| - 2], os[|os| - 1], Reverted(os[0]), p, original);
    }
  }

  lemma RestorableInjectionIsMarked(m: Members, p: Path, v: Json)
    requires Stored(m) && Target(p) && Restorable(m, p)
    ensures Marked(Injected(m, p, v), p, Lookup(Object(m), p))
  {
    if ParentsExist(m, p) {
      RevertWritesOriginal(m, p, v);
    } else {
      WithMapsIsStored(m);
      LookupOfWithMaps(m, p);
      InjectionFillsMaps(m, p, v);
      RevertWritesOriginal(WithMaps(m), p, v);
    }
  }

  /** A restorable object comes back however often its revert was interrupted, and the
      mark does not disappear before the original value is back. */
  lemma RetriedRevertRestores(m: Members, p: Path, v: Json, os: seq<Members>)
    requires Stored(m) && Target(p) && Restorable(m, p)
    requires |os| > 0 && os[0] == Injected(m, p, v)
    requires CutReverts(os)
    ensures var last := os[|os| - 1];
      RevertPatches(last).Some? && Alike(Reverted(last), m) && (Marker(last).None? ==> Alike(last, m))
  {
    RestorableInjectionIsMarked(m, p, v);
    RoundTripExactly(m, p, v);
    RetriedRevertConverges(os, p, Lookup(Object(m), p));
  }

  // --- a second mutation of the same object ---

  /** A second injection replaces the mark of the first.  Whatever cut reverts follow, and by whichever of
      the two experiments, the object that counts as reverted is the one after the first injection: it is
      the original one if and only if the first injection changed nothing. */
  lemma SecondMutationHidesFirst(m: Members, p: Path, v: Json, q: Path, w: Json, os: seq<Members>)
    requires Target(q) && Stored(Injected(m, p, v)) && Restorable(Injected(m, p, v), q)
    requires |os| > 0 && os[0] == Injected(Injected(m, p, v), q, w)
    requires CutReverts(os)
    ensures var last := os[|os| - 1];
      && RevertPatches(last).Some? && Alike(Reverted(last), Injected(m, p, v))
      && (Alike(Reverted(last), m) <==> Alike(Injected(m, p, v), m))
      && (Marker(last).None? ==> (Alike(last, m) <==> Alike(Injected(m, p, v), m)))
  {
    RetriedRevertRestores(Injected(m, p, v), q, w, os);
  }

  /** With existing parents an injection changes nothing if and only if the patched leaf is the old one. */
  lemma ChangesNothingIff(m: Members, p: Path, v: Json)
    requires HasMetadata(m) && Mutable(p) && ParentsExist(m, p) && p != LABELS_PATH
    ensures Alike(Injected(m, p, v), m) <==> PatchedLeaf(Leaf(m, p), v) == Leaf(m, p)
  {
    var leaf := InjectionWritesLeaf(m, p, v);
    PutKeepsMetadata(m, p, leaf);
    MetadataPatchIsInvisible(PutLeaf(m, p, leaf), MarkWith(Join(p, '.'), Lookup(Object(m), p)));
    PutBack(m, p);
    AlikeIffSameLeaf(m, p, leaf, Leaf(m, p));
  }

  // --- the reserved paths ---

  /** The null step of a revert keeps the mark of every marked object. */
  ghost predicate NullStepKeepsMark(p: Path) {
    forall m: Members | HasMetadata(m) && Marker(m).Some? :: Marker(MergeMembers(m, Nested(p, Null))).Some?
  }

  /** Of the well-formed paths, validation rejects exactly those whose null step could
      remove the mark. */
  lemma RejectedExactlyWhenUnsafe(path: string)
    requires WellFormedPath(path)
    ensures NullStepKeepsMark(Split(path, '.')) <==> !RejectsChaosMetadataPath(path)
  {
    var p: Path := Split(path, '.');
    ReservedPaths(path);
    ReservedSegments(path);
    ValidSegmentsAreFree(p);
    if Mutable(p) {
      forall m: Members | HasMetadata(m) && Marker(m).Some?
        ensures Marker(MergeMembers(m, Nested(p, Null))).Some?
      {
        MutableNullKeepsMark(m, p);
      }
    } else {
      var m := ReservedNullDropsMark(p);
    }
  }

  lemma ReservedNullDropsMark(p: Path) returns (m: Members)
    requires p == ["metadata"] || p == ["metadata", "annotations"]
    ensures HasMetadata(m) && Marker(m).Some? && Marker(MergeMembers(m, Nested(p, Null))).None?
  {
    var annotations := Object(map[ROLLBACK_ANNOTATION := Envelope("spec.x", Null)]);
    var md := map["annotations" := annotations];
    m := map["metadata" := Object(md)];
    PatchedMember(m, Nested(p, Null), "metadata");
    if |p| == 2 {
      assert p[1..] == ["annotations"];
      PatchedMember(md, Nested(["annotations"], Null), "annotations");
    }
  }
}
