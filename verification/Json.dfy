/** JSON values, the merge patch of section 2 of RFC 7396, and what a patch along a
    single path does. */
module Json {
  import opened Wrappers

  /** An Envelope stands for the string that the rollback envelope encodes: the path and
      the original value can be read back from it, and no other string is one. */
  datatype Json =
    | Null
    | Bool(b: bool)
    | Number(text: string)
    | String(s: string)
    | Array(items: seq<Json>)
    | Object(members: map<string, Json>)
    | Envelope(path: string, original: Json)

  type Members = map<string, Json>

  // --- merge patch ---

  function MergePatch(target: Json, patch: Json): Json
    decreases patch
  {
    if patch.Object? then Object(MergeMembers(MembersOf(target), patch)) else patch
  }

  function MergeMembers(target: Members, patch: Json): Members
    requires patch.Object?
    decreases patch, 0
  {
    map k | k in target.Keys + patch.members.Keys && !(k in patch.members && patch.members[k].Null?) ::
      if k in patch.members then MergePatch(Member(target, k), patch.members[k]) else target[k]
  }

  function MembersOf(v: Json): Members {
    if v.Object? then v.members else map[]
  }

  /** What a patch does to one member. */
  lemma PatchedMember(target: Members, patch: Json, k: string)
    requires patch.Object?
    ensures var r := MergeMembers(target, patch);
      if k !in patch.members then (k in r <==> k in target) && (k in r ==> r[k] == target[k])
      else if patch.members[k].Null? then k !in r
      else if patch.members[k].Object? then
        k in r && r[k] == Object(MergeMembers(MembersOf(Member(target, k)), patch.members[k]))
      else k in r && r[k] == patch.members[k]
  {
    var r := MergeMembers(target, patch);
    if k in patch.members && !patch.members[k].Null? {
      assert r[k] == MergePatch(Member(target, k), patch.members[k]);
    }
  }

  /** The value of a member, Null when there is none: merge patch treats both alike. */
  function Member(m: Members, k: string): Json {
    if k in m then m[k] else Null
  }

  // --- patches as the injector builds them ---

  /** The nested object that holds value at the end of the path. */
  function Nested(segments: seq<string>, value: Json): (r: Json)
    requires |segments| > 0
    ensures r.Object?
  {
    Object(map[segments[0] := if |segments| == 1 then value else Nested(segments[1..], value)])
  }

  /** Recursive merge of two patches; the second wins where they do not both hold objects. */
  function DeepMerge(a: Json, b: Json): (r: Json)
    requires a.Object? && b.Object?
    ensures r.Object?
    decreases b
  {
    Object(map k | k in a.members.Keys + b.members.Keys ::
      if k !in b.members then a.members[k]
      else if k in a.members && a.members[k].Object? && b.members[k].Object? then DeepMerge(a.members[k], b.members[k])
      else b.members[k])
  }

  /** What the merge of two patches says about one member. */
  lemma MergedMember(a: Json, b: Json, k: string)
    requires a.Object? && b.Object? && (k in a.members || k in b.members)
    ensures var r := DeepMerge(a, b).members;
      k in r && r[k] == MergedValue(a, b, k)
  {
  }

  function MergedValue(a: Json, b: Json, k: string): Json
    requires a.Object? && b.Object? && (k in a.members || k in b.members)
  {
    if k !in b.members then a.members[k]
    else if k in a.members && a.members[k].Object? && b.members[k].Object? then DeepMerge(a.members[k], b.members[k])
    else b.members[k]
  }

  /** The first map with the second laid over it, except for the keys still to do. */
  ghost function Partial(a: Json, b: Json, todo: set<string>): Members
    requires a.Object? && b.Object? && todo <= b.members.Keys
  {
    map k | k in a.members.Keys + (b.members.Keys - todo) ::
      if k in todo then a.members[k] else MergedValue(a, b, k)
  }

  lemma PartialStep(a: Json, b: Json, todo: set<string>, k: string)
    requires a.Object? && b.Object? && todo <= b.members.Keys && k in todo
    ensures Partial(a, b, todo - {k}) == Partial(a, b, todo)[k := MergedValue(a, b, k)]
  {
  }

  lemma PartialEnds(a: Json, b: Json)
    requires a.Object? && b.Object?
    ensures Partial(a, b, b.members.Keys) == a.members
    ensures Object(Partial(a, b, {})) == DeepMerge(a, b)
  {
    assert Partial(a, b, {}) == DeepMerge(a, b).members;
  }

  /** The loops of deepMerge: copy the first map, then lay the second over it. */
  method DeepMergeMaps(a: Json, b: Json) returns (result: Json)
    requires a.Object? && b.Object?
    ensures result == DeepMerge(a, b)
    decreases b, 0
  {
    var m: Members := CopyOf(a.members);
    var todo := b.members.Keys;
    PartialEnds(a, b);
    while todo != {}
      invariant todo <= b.members.Keys && m == Partial(a, b, todo)
      decreases |todo|
    {
      var k :| k in todo;
      var v := b.members[k];
      if k in m {
        v := MergeValues(m[k], v);
      }
      PartialStep(a, b, todo, k);
      m, todo := m[k := v], todo - {k};
    }
    result := Object(m);
  }

  /** The inner branch of deepMerge: two objects are merged, otherwise the second wins. */
  method MergeValues(existing: Json, v: Json) returns (r: Json)
    ensures r == if existing.Object? && v.Object? then DeepMerge(existing, v) else v
    decreases v, 1
  {
    r := v;
    if existing.Object? && v.Object? {
      r := DeepMergeMaps(existing, v);
    }
  }

  method CopyOf(a: Members) returns (result: Members)
    ensures result == a
  {
    result := map[];
    var todo := a.Keys;
    while todo != {}
      invariant todo <= a.Keys && result.Keys == a.Keys - todo
      invariant forall k | k in result :: result[k] == a[k]
      decreases |todo|
    {
      var k :| k in todo;
      result := result[k := a[k]];
      todo := todo - {k};
    }
  }

  /** The first patch never puts a non-object where the second puts an object. */
  predicate Compatible(a: Json, b: Json)
    requires a.Object? && b.Object?
    decreases b
  {
    forall k | k in a.members && k in b.members && b.members[k].Object? ::
      a.members[k].Object? && Compatible(a.members[k], b.members[k])
  }

  /** One merged patch does what the two patches do in turn. */
  lemma {:induction false} MergedPatchIsBothPatches(target: Members, a: Json, b: Json)
    requires a.Object? && b.Object? && Compatible(a, b)
    ensures MergeMembers(target, DeepMerge(a, b)) == MergeMembers(MergeMembers(target, a), b)
    decreases b
  {
    var c := DeepMerge(a, b);
    var between := MergeMembers(target, a);
    var once, twice := MergeMembers(target, c), MergeMembers(between, b);
    forall k ensures k in once <==> k in twice
             ensures k in once ==> once[k] == twice[k]
    {
      PatchedMember(target, a, k);
      PatchedMember(between, b, k);
      PatchedMember(target, c, k);
      if k in a.members && k in b.members && b.members[k].Object? {
        MergedPatchIsBothPatches(MembersOf(Member(target, k)), a.members[k], b.members[k]);
      }
    }
    assert once == twice;
  }

  /** And it does so for every target only then: an incompatible pair can be told apart. */
  lemma {:induction false} IncompatiblePatchesDiffer(a: Json, b: Json) returns (target: Members)
    requires a.Object? && b.Object? && !Compatible(a, b)
    ensures MergeMembers(target, DeepMerge(a, b)) != MergeMembers(MergeMembers(target, a), b)
    decreases b
  {
    var k :| k in a.members && k in b.members && b.members[k].Object? &&
             !(a.members[k].Object? && Compatible(a.members[k], b.members[k]));
    var c := DeepMerge(a, b);
    if a.members[k].Object? {
      var inner := IncompatiblePatchesDiffer(a.members[k], b.members[k]);
      target := map[k := Object(inner)];
    } else {
      // A member that b does not mention survives the merged patch only.
      var extra := FreshKey(b.members[k].members);
      var inner := map[extra := Bool(true)];
      target := map[k := Object(inner)];
      PatchedMember(inner, b.members[k], extra);
      PatchedMember(map[], b.members[k], extra);
    }
    PatchedMember(target, a, k);
    PatchedMember(MergeMembers(target, a), b, k);
    PatchedMember(target, c, k);
  }

  ghost function Longest(keys: set<string>): (n: nat)
    ensures forall k | k in keys :: |k| <= n
  {
    if keys == {} then 0
    else
      var k :| k in keys;
      var n := Longest(keys - {k});
      if |k| > n then |k| else n
  }

  lemma FreshKey(m: Members) returns (k: string)
    ensures k !in m
  {
    k := seq(Longest(m.Keys) + 1, _ => 'x');
  }
}
