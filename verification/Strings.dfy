/** Splitting a string at a separator and joining the parts again. */
module Strings {
  function Split(s: string, sep: char): (parts: seq<string>)
    ensures |parts| > 0
  {
    if s == "" then [""]
    else
      var rest := Split(s[1..], sep);
      if s[0] == sep then [""] + rest else [[s[0]] + rest[0]] + rest[1..]
  }

  function Join(parts: seq<string>, sep: char): string
    requires |parts| > 0
  {
    if |parts| == 1 then parts[0] else parts[0] + [sep] + Join(parts[1..], sep)
  }

  predicate Free(s: string, c: char) {
    c !in s
  }

  lemma {:induction false} SplitIsFree(s: string, sep: char)
    ensures forall part | part in Split(s, sep) :: Free(part, sep)
  {
    if s != "" {
      SplitIsFree(s[1..], sep);
      var rest := Split(s[1..], sep);
      forall part | part in Split(s, sep) ensures Free(part, sep) {
        if part in rest || part == "" {
        } else {
          assert part == [s[0]] + rest[0];
          assert rest[0] in rest;
        }
      }
    }
  }

  lemma {:induction false} JoinAfterSplit(s: string, sep: char)
    ensures Join(Split(s, sep), sep) == s
  {
    if s != "" {
      var rest := Split(s[1..], sep);
      JoinAfterSplit(s[1..], sep);
      if s[0] == sep {
        assert ([""] + rest)[1..] == rest;
      } else {
        assert ([[s[0]] + rest[0]] + rest[1..])[1..] == rest[1..];
      }
    }
  }

  /** Splitting at a separator undoes joining parts that do not contain it. */
  lemma {:induction false} SplitAfterJoin(parts: seq<string>, sep: char)
    requires |parts| > 0 && forall part | part in parts :: Free(part, sep)
    ensures Split(Join(parts, sep), sep) == parts
  {
    var first := parts[0];
    assert first in parts;
    if |parts| == 1 {
      SplitOfFree(first, sep);
    } else {
      SplitAfterJoin(parts[1..], sep);
      SplitAtFirst(first, Join(parts[1..], sep), sep);
    }
  }

  lemma {:induction false} SplitOfFree(s: string, sep: char)
    requires Free(s, sep)
    ensures Split(s, sep) == [s]
  {
    if s != "" {
      SplitOfFree(s[1..], sep);
      assert [s[0]] + s[1..] == s;
    }
  }

  lemma {:induction false} SplitAtFirst(first: string, rest: string, sep: char)
    requires Free(first, sep)
    ensures Split(first + [sep] + rest, sep) == [first] + Split(rest, sep)
  {
    var s := first + [sep] + rest;
    if first == "" {
      assert s[1..] == rest;
    } else {
      SplitAtFirst(first[1..], rest, sep);
      assert s[1..] == first[1..] + [sep] + rest;
      assert [first[0]] + first[1..] == first;
    }
  }

  /** A character other than the separator that occurs in s occurs in one of its parts. */
  lemma {:induction false} CharIsInSomePart(s: string, sep: char, c: char)
    requires c in s && c != sep
    ensures exists part :: part in Split(s, sep) && c in part
  {
    var rest := Split(s[1..], sep);
    if s[0] == c {
      assert c in Split(s, sep)[0];
    } else {
      assert c in s[1..];
      CharIsInSomePart(s[1..], sep, c);
      var part :| part in rest && c in part;
      if part == rest[0] {
        assert c in (if s[0] == sep then rest[0] else [s[0]] + rest[0]);
        assert (if s[0] == sep then rest[0] else [s[0]] + rest[0]) in Split(s, sep);
      } else {
        assert part in Split(s, sep);
      }
    }
  }
}
