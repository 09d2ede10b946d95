/** Which paths a CRD mutation may target. */
module MutationPath {
  import opened Strings
  import opened JsonPath

  const MAX_NAME_LENGTH := 253
  const ROLLBACK_ANNOTATION := "chaos.operatorchaos.io/rollback-data"
  const MANAGED_BY_LABEL := "app.kubernetes.io/managed-by"
  const CHAOS_TYPE_LABEL := "chaos.operatorchaos.io/type"

  const DANGEROUS_PATHS := {
    "apiVersion", "kind", "metadata.name", "metadata.namespace", "metadata.uid",
    "metadata.resourceVersion", "metadata.generation", "metadata.creationTimestamp",
    "metadata.deletionTimestamp", "metadata.deletionGracePeriodSeconds"
  }

  predicate IsNameStart(c: char) {
    'a' <= c <= 'z' || 'A' <= c <= 'Z' || c == '_'
  }

  predicate IsNameChar(c: char) {
    IsNameStart(c) || '0' <= c <= '9' || c == '-'
  }

  predicate ValidSegment(s: string) {
    |s| > 0 && IsNameStart(s[0]) && forall c | c in s :: IsNameChar(c)
  }

  predicate ValidFieldName(field: string) {
    0 < |field| <= MAX_NAME_LENGTH && ValidSegment(field)
  }

  /** The syntactic part of the path check. */
  predicate WellFormedPath(path: string) {
    && 0 < |path| <= MAX_NAME_LENGTH
    && path[0] != '.' && path[|path| - 1] != '.'
    && !(exists i {:trigger path[i]} | 0 <= i < |path| - 1 :: path[i] == '.' && path[i + 1] == '.')
    && (forall part | part in Split(path, '.') :: ValidSegment(part))
  }

  predicate ValidJsonPath(path: string) {
    WellFormedPath(path) && path !in DANGEROUS_PATHS
  }

  predicate RejectsChaosMetadataPath(path: string) {
    || path == "metadata" || path == "metadata.annotations"
    || "metadata.annotations.chaos.operatorchaos.io/" <= path
    || "metadata.labels.chaos.operatorchaos.io/" <= path
  }

  /** The path part of the parameter check: exactly one of path and field is set. */
  predicate Accepts(path: string, field: string) {
    if path != "" then field == "" && ValidJsonPath(path) && !RejectsChaosMetadataPath(path)
    else ValidFieldName(field)
  }

  function ResolveMutationPath(path: string, field: string): (r: Path) {
    if path != "" then Split(path, '.') else ["spec", field]
  }

  /** What the injector needs of a path: its segments are free of the characters that
      separate segments and qualify annotation and label keys, and it does not contain the
      rollback marker's own storage. */
  predicate Mutable(p: Path) {
    && (forall part | part in p :: Free(part, '.') && Free(part, '/'))
    && p != ["metadata"] && p != ["metadata", "annotations"]
  }

  lemma ValidSegmentsAreFree(p: seq<string>)
    requires forall part | part in p :: ValidSegment(part)
    ensures forall part | part in p :: Free(part, '.') && Free(part, '/')
  {
    assert !IsNameChar('.') && !IsNameChar('/');
  }

  /** The two reserved paths and their segments. */
  lemma ReservedSegments(path: string)
    ensures Split(path, '.') == ["metadata"] <==> path == "metadata"
    ensures Split(path, '.') == ["metadata", "annotations"] <==> path == "metadata.annotations"
  {
    var two := ["metadata", "annotations"];
    assert Join(two, '.') == "metadata.annotations" by {
      assert two[1..] == ["annotations"];
    }
    SplitIffJoin(path, ["metadata"]);
    SplitIffJoin(path, two);
  }

  lemma SplitIffJoin(path: string, p: Path)
    requires forall part | part in p :: Free(part, '.')
    ensures Split(path, '.') == p <==> path == Join(p, '.')
  {
    JoinAfterSplit(path, '.');
    SplitAfterJoin(p, '.');
  }

  lemma NoSlash(path: string)
    requires WellFormedPath(path)
    ensures '/' !in path
  {
    ValidSegmentsAreFree(Split(path, '.'));
    if '/' in path {
      CharIsInSomePart(path, '.', '/');
    }
  }

  /** Every accepted target is mutable, and its path survives being joined for the rollback
      data and split again. */
  lemma AcceptedIsMutable(path: string, field: string)
    requires Accepts(path, field)
    ensures var p := ResolveMutationPath(path, field); Mutable(p) && Split(Join(p, '.'), '.') == p
  {
    var p := ResolveMutationPath(path, field);
    ValidSegmentsAreFree(p);
    SplitAfterJoin(p, '.');
    if path != "" {
      ReservedSegments(path);
    }
  }

  /** A field is a member of spec: it names what the path "spec." followed by it names.  That is so for
      every field without a dot, and for no other. */
  lemma FieldIsSpecMember(field: string)
    ensures ResolveMutationPath("", field) == ResolveMutationPath("spec." + field, "") <==> Free(field, '.')
    ensures ValidFieldName(field) ==> Free(field, '.')
  {
    var p := ["spec", field];
    assert p[1..] == [field] && Join(p, '.') == "spec." + field;
    if Free(field, '.') { SplitAfterJoin(p, '.'); }
    SplitIsFree("spec." + field, '.');
    assert ResolveMutationPath("", field)[1] == field;
    if ValidFieldName(field) { ValidSegmentsAreFree([field]); }
  }

  /** A path, which goes before a field, names the one target whose segments are without dots and give the
      path when they are joined by dots. */
  lemma PathIsJoined(path: string, field: string, p: Path)
    requires path != ""
    ensures ResolveMutationPath(path, field) == p <==> Join(p, '.') == path && forall part | part in p :: Free(part, '.')
  {
    JoinAfterSplit(path, '.');
    SplitIsFree(path, '.');
    if forall part | part in p :: Free(part, '.') { SplitAfterJoin(p, '.'); }
  }

  /** Everything is accepted that is short enough, made of valid segments, and neither a dangerous path
      nor one of the two that hold the mark. */
  lemma AcceptsIff(path: string, field: string)
    ensures Accepts(path, field) <==>
      var p := ResolveMutationPath(path, field);
      && (path == "" || field == "") && (if path != "" then |path| else |field|) <= MAX_NAME_LENGTH
      && (forall part | part in p :: ValidSegment(part))
      && (path != "" ==> path !in DANGEROUS_PATHS && path != "metadata" && path != "metadata.annotations")
  {
    if path == "" {
      assert ["spec", field][1] == field;
      assert ValidSegment(field) ==> forall part | part in ["spec", field] :: ValidSegment(part);
    } else if forall part | part in Split(path, '.') :: ValidSegment(part) {
      SegmentsMakeWellFormed(path);
      if |path| <= MAX_NAME_LENGTH { ReservedPaths(path); }
    }
  }

  /** Valid segments leave no room for a dot at either end, or for two in a row. */
  lemma SegmentsMakeWellFormed(path: string)
    requires path != "" && forall part | part in Split(path, '.') :: ValidSegment(part)
    ensures path[0] != '.' && path[|path| - 1] != '.'
    ensures !(exists i {:trigger path[i]} | 0 <= i < |path| - 1 :: path[i] == '.' && path[i + 1] == '.')
  {
    assert ValidSegment(Split(path, '.')[0]);
    forall i | 0 <= i < |path| && path[i] == '.'
      ensures i + 1 < |path| && path[i + 1] != '.'
    {
      DotIsFollowed(path, i);
    }
  }

  predicate ValidAfterFirst(parts: seq<string>) {
    forall k | 1 <= k < |parts| :: ValidSegment(parts[k])
  }

  lemma {:induction false} DotIsFollowed(path: string, i: nat)
    requires i < |path| && path[i] == '.'
    requires ValidAfterFirst(Split(path, '.'))
    ensures i + 1 < |path| && path[i + 1] != '.'
  {
    var parts, rest := Split(path, '.'), Split(path[1..], '.');
    if i == 0 {
      assert parts == [""] + rest && ValidSegment(parts[1]);
    } else {
      forall k | 1 <= k < |rest| ensures ValidSegment(rest[k]) {
        assert ValidSegment(parts[if path[0] == '.' then k + 1 else k]);
      }
      DotIsFollowed(path[1..], i - 1);
    }
  }

  /** Among well-formed paths the reserved ones are exactly two: the prefix rules can not
      be reached, since a segment never contains a slash. */
  lemma ReservedPaths(path: string)
    requires WellFormedPath(path)
    ensures RejectsChaosMetadataPath(path) <==> path == "metadata" || path == "metadata.annotations"
    ensures RejectsChaosMetadataPath(path) <==> !Mutable(Split(path, '.'))
  {
    NoSlash(path);
    ValidSegmentsAreFree(Split(path, '.'));
    ReservedSegments(path);
    var annotations, labels := "metadata.annotations.chaos.operatorchaos.io/", "metadata.labels.chaos.operatorchaos.io/";
    assert annotations[|annotations| - 1] == '/' && labels[|labels| - 1] == '/';
    if annotations <= path { PrefixNeedsSlash(annotations, path); }
    if labels <= path { PrefixNeedsSlash(labels, path); }
  }

  lemma PrefixNeedsSlash(prefix: string, path: string)
    requires '/' in prefix && prefix <= path
    ensures '/' in path
  {
    var i :| 0 <= i < |prefix| && prefix[i] == '/';
    assert path[i] == '/';
  }
}
