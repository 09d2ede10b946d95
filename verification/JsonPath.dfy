/** The value at the end of a path of object members, and how merge patches along a
    path read and write it. */
module JsonPath {
  import opened Wrappers
  import opened Json

  type Path = p: seq<string> | |p| > 0 witness ["spec"]

  /** Everything on the way to the last member is an existing object. */
  predicate ParentsExist(m: Members, p: Path)
    decreases |p|
  {
    |p| == 1 || (p[0] in m && m[p[0]].Object? && ParentsExist(m[p[0]].members, p[1..]))
  }

  function Leaf(m: Members, p: Path): Option<Json>
    requires ParentsExist(m, p)
    decreases |p|
  {
    if |p| > 1 then Leaf(m[p[0]].members, p[1..])
    else if p[0] in m then Some(m[p[0]]) else None
  }

  function PutLeaf(m: Members, p: Path, v: Option<Json>): Members
    requires ParentsExist(m, p)
    decreases |p|
  {
    if |p| > 1 then m[p[0] := Object(PutLeaf(m[p[0]].members, p[1..], v))]
    else if v.Some? then m[p[0] := v.value] else m - {p[0]}
  }

  /** What reading a field of an unstructured object returns: nil for a missing field, a
      null, and anything below a value that is not an object. */
  function Lookup(v: Json, p: seq<string>): Json {
    if p == [] then v
    else if v.Object? && p[0] in v.members then Lookup(v.members[p[0]], p[1..])
    else Null
  }

  lemma {:induction false} LookupIsLeaf(m: Members, p: Path)
    ensures ParentsExist(m, p) ==>
      Lookup(Object(m), p) == (if Leaf(m, p).Some? then Leaf(m, p).value else Null)
    decreases |p|
  {
    if |p| > 1 && p[0] in m && m[p[0]].Object? {
      LookupIsLeaf(m[p[0]].members, p[1..]);
    }
  }

  // --- lens laws ---

  lemma {:induction false} PutKeepsParents(m: Members, p: Path, v: Option<Json>)
    requires ParentsExist(m, p)
    ensures ParentsExist(PutLeaf(m, p, v), p)
    ensures Leaf(PutLeaf(m, p, v), p) == v
    decreases |p|
  {
    if |p| > 1 { PutKeepsParents(m[p[0]].members, p[1..], v); }
  }

  lemma {:induction false} PutTwice(m: Members, p: Path, v: Option<Json>, v': Option<Json>)
    requires ParentsExist(m, p) && ParentsExist(PutLeaf(m, p, v), p)
    ensures PutLeaf(PutLeaf(m, p, v), p, v') == PutLeaf(m, p, v')
    decreases |p|
  {
    if |p| > 1 {
      PutKeepsParents(m[p[0]].members, p[1..], v);
      PutTwice(m[p[0]].members, p[1..], v, v');
    }
  }

  lemma {:induction false} PutBack(m: Members, p: Path)
    requires ParentsExist(m, p)
    ensures PutLeaf(m, p, Leaf(m, p)) == m
    decreases |p|
  {
    if |p| > 1 { PutBack(m[p[0]].members, p[1..]); }
  }

  // --- merge patches along a path ---

  function PatchedLeaf(leaf: Option<Json>, v: Json): Option<Json> {
    if v.Null? then None else Some(MergePatch(if leaf.Some? then leaf.value else Null, v))
  }

  /** With existing parents, a nested patch changes the leaf and nothing else. */
  lemma {:induction false} NestedPatchPutsLeaf(m: Members, p: Path, v: Json)
    requires ParentsExist(m, p)
    ensures MergeMembers(m, Nested(p, v)) == PutLeaf(m, p, PatchedLeaf(Leaf(m, p), v))
    decreases |p|
  {
    var patch := Nested(p, v);
    var r := MergeMembers(m, patch);
    if |p| > 1 {
      NestedPatchPutsLeaf(m[p[0]].members, p[1..], v);
    }
    forall k ensures k in r <==> k in PutLeaf(m, p, PatchedLeaf(Leaf(m, p), v))
             ensures k in r ==> r[k] == PutLeaf(m, p, PatchedLeaf(Leaf(m, p), v))[k]
    {
      PatchedMember(m, patch, k);
    }
  }

  /** Whatever it is applied to, a nested patch leaves objects along its path. */
  lemma {:induction false} NestedPatchMakesParents(m: Members, p: Path, v: Json)
    ensures ParentsExist(MergeMembers(m, Nested(p, v)), p)
    decreases |p|
  {
    if |p| > 1 {
      PatchedMember(m, Nested(p, v), p[0]);
      NestedPatchMakesParents(MembersOf(Member(m, p[0])), p[1..], v);
    }
  }

  // --- nulls ---

  /** No object in v, however deep (arrays aside), has a null member. */
  predicate NullFree(v: Json) {
    v.Object? ==> forall k | k in v.members :: !v.members[k].Null? && NullFree(v.members[k])
  }

  /** A value merged onto nothing comes out unchanged exactly when it is free of nulls. */
  lemma {:induction false} MergedOntoNothing(v: Json)
    ensures MergePatch(Null, v) == v <==> NullFree(v)
  {
    if v.Object? {
      var r := MergeMembers(map[], v);
      forall k | k in v.members
        ensures (k in r && r[k] == v.members[k]) <==> (!v.members[k].Null? && NullFree(v.members[k]))
      {
        PatchedMember(map[], v, k);
        MergedOntoNothing(v.members[k]);
        assert Member(map[], k) == Null;
      }
      assert r.Keys <= v.members.Keys;
      if NullFree(v) { assert r == v.members; }
    }
  }
}
