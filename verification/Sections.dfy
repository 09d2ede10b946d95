/** Custom sections of a generated page: taking them out of the old page and putting them into
    the new one. */
module Sections {
  import opened Strings
  import opened Wrappers

  const START := "<!-- custom-start:"

  predicate IsSpace(c: char) {
    var n := c as int;
    || 9 <= n <= 13 || n == 0x20 || n == 0x85 || n == 0xA0 || n == 0x1680 || 0x2000 <= n <= 0x200A
    || n == 0x2028 || n == 0x2029 || n == 0x202F || n == 0x205F || n == 0x3000
  }

  function TrimLeft(s: string): string {
    if s != "" && IsSpace(s[0]) then TrimLeft(s[1..]) else s
  }

  function TrimRight(s: string): string {
    if s != "" && IsSpace(s[|s| - 1]) then TrimRight(s[..|s| - 1]) else s
  }

  function TrimSpace(s: string): string {
    TrimRight(TrimLeft(s))
  }

  function TrimSuffix(s: string, suffix: string): string {
    if |s| >= |suffix| && s[|s| - |suffix|..] == suffix then s[..|s| - |suffix|] else s
  }

  predicate IsStart(line: string) {
    START <= TrimSpace(line)
  }

  function SectionName(line: string): string
    requires IsStart(line)
  {
    TrimSpace(TrimSuffix(TrimSpace(line)[|START|..], "-->"))
  }

  predicate IsEnd(line: string, name: string) {
    TrimSpace(line) == "<!-- custom-end: " + name + " -->"
  }

  // --- the markers ---

  predicate Blank(s: string) {
    forall c | c in s :: IsSpace(c)
  }

  predicate Trimmed(s: string) {
    s == "" || (!IsSpace(s[0]) && !IsSpace(s[|s| - 1]))
  }

  lemma {:induction false} TrimLeftBlank(blank: string, s: string)
    requires Blank(blank)
    ensures TrimLeft(blank + s) == TrimLeft(s)
  {
    if blank == "" {
      assert blank + s == s;
    } else {
      assert (blank + s)[1..] == blank[1..] + s && blank[0] in blank;
      TrimLeftBlank(blank[1..], s);
    }
  }

  lemma {:induction false} TrimRightBlank(s: string, blank: string)
    requires Blank(blank)
    ensures TrimRight(s + blank) == TrimRight(s)
  {
    if blank == "" {
      assert s + blank == s;
    } else {
      var last := |blank| - 1;
      assert (s + blank)[..|s| + last] == s + blank[..last] && blank[last] in blank;
      TrimRightBlank(s, blank[..last]);
    }
  }

  lemma TrimPadded(left: string, s: string, right: string)
    requires Blank(left) && Blank(right) && Trimmed(s)
    ensures TrimSpace(left + s + right) == s
  {
    assert left + s + right == left + (s + right);
    TrimLeftBlank(left, s + right);
    if s == "" {
      assert s + right == right + "";
      TrimLeftBlank(right, "");
    } else {
      TrimRightBlank(s, right);
    }
  }

  /** A comment as the page writes it, with any white space around it, starts or ends the section of that name. */
  lemma MarkersAreRead(left: string, name: string, right: string)
    requires Blank(left) && Blank(right) && Trimmed(name)
    ensures var start := left + ("<!-- custom-start: " + name + " -->") + right; IsStart(start) && SectionName(start) == name
    ensures var end := left + ("<!-- custom-end: " + name + " -->") + right; IsEnd(end, name) && !IsStart(end)
  {
    var start, end := "<!-- custom-start: " + name + " -->", "<!-- custom-end: " + name + " -->";
    TrimPadded(left, start, right);
    TrimPadded(left, end, right);
    assert start[|START|..] == " " + name + " " + "-->";
    assert TrimSuffix(start[|START|..], "-->") == " " + name + " ";
    TrimPadded(" ", name, " ");
    assert end[12] == 'e' && START[12] == 's';
  }

  /** The position of the first end marker of the section, or the number of lines. */
  function FindEnd(lines: seq<string>, name: string): (k: nat)
    ensures k <= |lines| && (k < |lines| ==> IsEnd(lines[k], name))
    ensures forall m | 0 <= m < k :: !IsEnd(lines[m], name)
  {
    if lines == [] || IsEnd(lines[0], name) then 0 else 1 + FindEnd(lines[1..], name)
  }

  function Unlines(lines: seq<string>): string {
    if lines == [] then "" else Unlines(lines[..|lines| - 1]) + lines[|lines| - 1] + "\n"
  }

  // --- extraction ---

  /** The sections of the lines, added to acc; None if one is not closed. */
  function SectionsOf(lines: seq<string>, acc: map<string, string>): Option<map<string, string>> {
    if lines == [] then Some(acc)
    else if !IsStart(lines[0]) then SectionsOf(lines[1..], acc)
    else
      var name, rest := SectionName(lines[0]), lines[1..];
      var k := FindEnd(rest, name);
      if k == |rest| then None else SectionsOf(rest[k + 1..], acc[name := Unlines(rest[..k])])
  }

  function Extract(content: string): map<string, string> {
    OrNone(SectionsOf(Split(content, '\n'), map[]))
  }

  /** Line j is the first end marker after line i. */
  predicate EndsAt(lines: seq<string>, i: nat, j: nat, name: string) {
    i < j < |lines| && IsEnd(lines[j], name) && forall m | i < m < j :: !IsEnd(lines[m], name)
  }

  predicate NeverEnds(lines: seq<string>, i: nat, name: string) {
    forall m | i < m < |lines| :: !IsEnd(lines[m], name)
  }

  lemma FindEndAt(body: seq<string>, end: string, after: seq<string>, name: string)
    requires IsEnd(end, name) && forall l | l in body :: !IsEnd(l, name)
    ensures var rest := body + [end] + after; var k := FindEnd(rest, name);
      k == |body| && rest[..k] == body && rest[k] == end && rest[k + 1..] == after
  {
    var rest := body + [end] + after;
    assert rest[|body|] == end && forall m | 0 <= m < |body| :: rest[m] == body[m] && body[m] in body;
  }

  lemma HeadAndTail<T>(s: seq<T>, i: nat)
    requires i < |s|
    ensures s[i..] == [s[i]] + s[i + 1..]
  {
  }

  lemma FourParts<T>(s: seq<T>, i: nat, j: nat)
    requires i < j < |s|
    ensures s[i..] == [s[i]] + (s[i + 1..j] + [s[j]] + s[j + 1..])
  {
  }

  lemma SectionsOfText(text: string, rest: seq<string>, acc: map<string, string>)
    requires !IsStart(text)
    ensures SectionsOf([text] + rest, acc) == SectionsOf(rest, acc)
  {
    assert ([text] + rest)[1..] == rest;
  }

  lemma SectionsOfClosed(start: string, body: seq<string>, end: string, after: seq<string>, acc: map<string, string>)
    requires IsStart(start) && IsEnd(end, SectionName(start)) && forall l | l in body :: !IsEnd(l, SectionName(start))
    ensures SectionsOf([start] + (body + [end] + after), acc) == SectionsOf(after, acc[SectionName(start) := Unlines(body)])
  {
    FindEndAt(body, end, after, SectionName(start));
    assert ([start] + (body + [end] + after))[1..] == body + [end] + after;
  }

  lemma SectionsOfOpen(start: string, rest: seq<string>, acc: map<string, string>)
    requires IsStart(start) && forall l | l in rest :: !IsEnd(l, SectionName(start))
    ensures SectionsOf([start] + rest, acc) == None
  {
    assert ([start] + rest)[1..] == rest;
  }

  lemma StepText(lines: seq<string>, i: nat, acc: map<string, string>)
    requires i < |lines| && !IsStart(lines[i])
    ensures SectionsOf(lines[i..], acc) == SectionsOf(lines[i + 1..], acc)
  {
    HeadAndTail(lines, i);
    SectionsOfText(lines[i], lines[i + 1..], acc);
  }

  lemma StepOpen(lines: seq<string>, i: nat, acc: map<string, string>)
    requires i < |lines| && IsStart(lines[i]) && NeverEnds(lines, i, SectionName(lines[i]))
    ensures SectionsOf(lines[i..], acc) == None
  {
    HeadAndTail(lines, i);
    SectionsOfOpen(lines[i], lines[i + 1..], acc);
  }

  lemma StepClosed(lines: seq<string>, i: nat, j: nat, acc: map<string, string>)
    requires i < |lines| && IsStart(lines[i]) && EndsAt(lines, i, j, SectionName(lines[i]))
    ensures SectionsOf(lines[i..], acc) == SectionsOf(lines[j + 1..], acc[SectionName(lines[i]) := Unlines(lines[i + 1..j])])
  {
    FourParts(lines, i, j);
    SectionsOfClosed(lines[i], lines[i + 1..j], lines[j], lines[j + 1..], acc);
  }

  lemma UnlinesGrow(lines: seq<string>, i: nat, j: nat)
    requires i <= j < |lines|
    ensures Unlines(lines[i..j + 1]) == Unlines(lines[i..j]) + lines[j] + "\n"
  {
    assert lines[i..j + 1][..j - i] == lines[i..j];
  }

  /** Reads the lines of the section that starts in line i, up to its end. */
  method ReadSection(lines: seq<string>, i: nat, name: string) returns (found: bool, j: nat, body: string)
    requires i < |lines|
    ensures if found then EndsAt(lines, i, j, name) && body == Unlines(lines[i + 1..j]) else NeverEnds(lines, i, name)
  {
    body := "";
    j := i + 1;
    while j < |lines|
      invariant i < j <= |lines| && forall m | i < m < j :: !IsEnd(lines[m], name)
      invariant body == Unlines(lines[i + 1..j])
    {
      if IsEnd(lines[j], name) {
        return true, j, body;
      }
      UnlinesGrow(lines, i + 1, j);
      body := body + lines[j] + "\n";
      j := j + 1;
    }
    found := false;
  }

  method ExtractCustomSections(content: string) returns (sections: map<string, string>)
    ensures sections == Extract(content)
  {
    sections := ReadSections(Split(content, '\n'));
  }

  /** What is read from line i on, with the sections so far. */
  function SectionsFrom(lines: seq<string>, i: nat, acc: map<string, string>): Option<map<string, string>>
    requires i <= |lines|
  {
    SectionsOf(lines[i..], acc)
  }

  lemma FromFirstLine(lines: seq<string>)
    ensures SectionsFrom(lines, 0, map[]) == SectionsOf(lines, map[])
  {
    assert lines[0..] == lines;
  }

  lemma AfterLastLine(lines: seq<string>, acc: map<string, string>)
    ensures SectionsFrom(lines, |lines|, acc) == Some(acc)
  {
  }

  /** Reads the section that starts in line i. */
  method TakeSection(lines: seq<string>, i: nat, acc: map<string, string>)
    returns (found: bool, j: nat, sections: map<string, string>)
    requires i < |lines| && IsStart(lines[i])
    ensures found ==> i < j < |lines| && SectionsFrom(lines, j + 1, sections) == SectionsFrom(lines, i, acc)
    ensures !found ==> SectionsFrom(lines, i, acc).None?
  {
    var name, body := SectionName(lines[i]), "";
    found, j, body := ReadSection(lines, i, name);
    sections := acc[name := body];
    if found { StepClosed(lines, i, j, acc); } else { StepOpen(lines, i, acc); }
  }

  lemma SkipText(lines: seq<string>, i: nat, acc: map<string, string>)
    requires i < |lines| && !IsStart(lines[i])
    ensures SectionsFrom(lines, i, acc) == SectionsFrom(lines, i + 1, acc)
  {
    StepText(lines, i, acc);
  }

  function OrNone(sections: Option<map<string, string>>): map<string, string> {
    if sections.Some? then sections.value else map[]
  }

  method ReadSections(lines: seq<string>) returns (sections: map<string, string>)
    ensures sections == OrNone(SectionsOf(lines, map[]))
  {
    sections := map[];
    var i := 0;
    FromFirstLine(lines);
    ghost var all := SectionsOf(lines, map[]);
    while i < |lines|
      invariant i <= |lines| && SectionsFrom(lines, i, sections) == all
    {
      if IsStart(lines[i]) {
        var found;
        found, i, sections := TakeSection(lines, i, sections);
        if !found {
          return map[];
        }
      } else {
        SkipText(lines, i, sections);
      }
      i := i + 1;
    }
    AfterLastLine(lines, sections);
  }

  // --- injection ---

  /** What ends a line: nothing if no line follows. */
  function Newline(rest: seq<string>): string {
    if rest == [] then "" else "\n"
  }

  function ContentFor(sections: map<string, string>, name: string): string {
    if name in sections then sections[name] else ""
  }

  /** The page with the bodies of its sections replaced; the start line of a section that is not
      closed is repeated in place of its end. */
  function Render(lines: seq<string>, sections: map<string, string>): string {
    if lines == [] then ""
    else
      var rest := lines[1..];
      if !IsStart(lines[0]) then lines[0] + Newline(rest) + Render(rest, sections)
      else
        var name := SectionName(lines[0]);
        var k := FindEnd(rest, name);
        if k == |rest|
        then lines[0] + "\n" + ContentFor(sections, name) + lines[0] + Newline(rest) + Render(rest, sections)
        else lines[0] + "\n" + ContentFor(sections, name) + rest[k] + Newline(rest[k + 1..]) + Render(rest[k + 1..], sections)
  }

  function Inject(content: string, sections: map<string, string>): string {
    if sections == map[] then content else Render(Split(content, '\n'), sections)
  }

  /** The same, written onto acc. */
  function RenderOnto(lines: seq<string>, acc: string, sections: map<string, string>): string {
    if lines == [] then acc
    else
      var rest := lines[1..];
      if !IsStart(lines[0]) then RenderOnto(rest, acc + lines[0] + Newline(rest), sections)
      else
        var name := SectionName(lines[0]);
        var k := FindEnd(rest, name);
        var onto := acc + lines[0] + "\n" + ContentFor(sections, name);
        if k == |rest| then RenderOnto(rest, onto + lines[0] + Newline(rest), sections)
        else RenderOnto(rest[k + 1..], onto + rest[k] + Newline(rest[k + 1..]), sections)
  }

  /** Writing a section onto acc, and what is left to write after it. */
  lemma SectionOnto(lines: seq<string>, acc: string, sections: map<string, string>) returns (after: seq<string>, onto: string)
    requires lines != [] && IsStart(lines[0])
    ensures |after| < |lines| && RenderOnto(lines, acc, sections) == RenderOnto(after, onto, sections)
    ensures acc + Render(lines, sections) == onto + Render(after, sections)
  {
    var rest, name := lines[1..], SectionName(lines[0]);
    var k, content := FindEnd(rest, name), ContentFor(sections, name);
    var end;
    end, after := if k == |rest| then lines[0] else rest[k], if k == |rest| then rest else rest[k + 1..];
    var start := acc + lines[0] + "\n" + content;
    onto := start + end + Newline(after);
    var r := Render(after, sections);
    Associate3(acc, lines[0], "\n", content);
    Associate3(start, end, Newline(after), r);
    WholeSection(lines[0] + "\n" + content, end, Newline(after), r);
    Associate(acc, lines[0] + "\n" + content, end + Newline(after) + r);
  }

  lemma WholeSection<T>(a: seq<T>, b: seq<T>, c: seq<T>, d: seq<T>)
    ensures a + b + c + d == a + (b + c + d)
  {
  }

  lemma {:induction false} OntoIsAfter(lines: seq<string>, acc: string, sections: map<string, string>)
    ensures RenderOnto(lines, acc, sections) == acc + Render(lines, sections)
    decreases |lines|
  {
    if lines != [] {
      var rest := lines[1..];
      if !IsStart(lines[0]) {
        OntoIsAfter(rest, acc + lines[0] + Newline(rest), sections);
        Associate3(acc, lines[0], Newline(rest), Render(rest, sections));
      } else {
        var after, onto := SectionOnto(lines, acc, sections);
        OntoIsAfter(after, onto, sections);
      }
    }
  }

  method InjectCustomSections(content: string, sections: map<string, string>) returns (out: string)
    ensures out == Inject(content, sections)
  {
    if |sections| == 0 {
      assert sections == map[];
      return content;
    }
    out := WriteLines(Split(content, '\n'), sections);
    OntoNothing(Split(content, '\n'), sections);
  }

  method WriteLines(lines: seq<string>, sections: map<string, string>) returns (out: string)
    ensures out == RenderOnto(lines, "", sections)
  {
    out := "";
    var i := 0;
    NothingWritten(lines, sections);
    while i < |lines|
      invariant i <= |lines| && OntoFrom(lines, i, out, sections) == RenderOnto(lines, "", sections)
      decreases |lines| - i
    {
      if !IsStart(lines[i]) {
        out := WriteText(lines, i, sections, out);
      } else {
        out, i := InjectSection(lines, i, sections, out);
      }
      i := i + 1;
    }
    AllWritten(lines, out, sections);
  }

  /** What comes out if the lines from i on are written onto acc. */
  function OntoFrom(lines: seq<string>, i: nat, acc: string, sections: map<string, string>): string
    requires i <= |lines|
  {
    RenderOnto(lines[i..], acc, sections)
  }

  lemma NothingWritten(lines: seq<string>, sections: map<string, string>)
    ensures OntoFrom(lines, 0, "", sections) == RenderOnto(lines, "", sections)
  {
    assert lines[0..] == lines;
  }

  lemma AllWritten(lines: seq<string>, acc: string, sections: map<string, string>)
    ensures OntoFrom(lines, |lines|, acc, sections) == acc
  {
  }

  /** Writes line i, which starts no section, onto acc. */
  method WriteText(lines: seq<string>, i: nat, sections: map<string, string>, acc: string) returns (out: string)
    requires i < |lines| && !IsStart(lines[i])
    ensures OntoFrom(lines, i + 1, out, sections) == OntoFrom(lines, i, acc, sections)
  {
    OntoTextStep(lines, i, acc, sections);
    out := acc + lines[i] + Newline(lines[i + 1..]);
  }

  lemma OntoNothing(lines: seq<string>, sections: map<string, string>)
    ensures RenderOnto(lines, "", sections) == Render(lines, sections)
  {
    OntoIsAfter(lines, "", sections);
  }

  lemma OntoClosed(start: string, body: seq<string>, end: string, after: seq<string>, acc: string, sections: map<string, string>)
    requires IsStart(start) && IsEnd(end, SectionName(start)) && forall l | l in body :: !IsEnd(l, SectionName(start))
    ensures RenderOnto([start] + (body + [end] + after), acc, sections) ==
      RenderOnto(after, acc + start + "\n" + ContentFor(sections, SectionName(start)) + end + Newline(after), sections)
  {
    FindEndAt(body, end, after, SectionName(start));
    assert ([start] + (body + [end] + after))[1..] == body + [end] + after;
  }

  lemma OntoOpen(start: string, rest: seq<string>, acc: string, sections: map<string, string>)
    requires IsStart(start) && forall l | l in rest :: !IsEnd(l, SectionName(start))
    ensures RenderOnto([start] + rest, acc, sections) ==
      RenderOnto(rest, acc + start + "\n" + ContentFor(sections, SectionName(start)) + start + Newline(rest), sections)
  {
    assert ([start] + rest)[1..] == rest;
  }

  lemma OntoTextStep(lines: seq<string>, i: nat, acc: string, sections: map<string, string>)
    requires i < |lines| && !IsStart(lines[i])
    ensures RenderOnto(lines[i..], acc, sections) == RenderOnto(lines[i + 1..], acc + lines[i] + Newline(lines[i + 1..]), sections)
  {
    HeadAndTail(lines, i);
    OntoText(lines[i], lines[i + 1..], acc, sections);
  }

  lemma OntoText(text: string, rest: seq<string>, acc: string, sections: map<string, string>)
    requires !IsStart(text)
    ensures RenderOnto([text] + rest, acc, sections) == RenderOnto(rest, acc + text + Newline(rest), sections)
  {
    assert ([text] + rest)[1..] == rest;
  }

  /** The line in which the section that starts in line i ends; i if it is not closed. */
  method SkipToEnd(lines: seq<string>, i: nat, name: string) returns (end: nat)
    requires i < |lines|
    ensures EndsAt(lines, i, end, name) || (end == i && NeverEnds(lines, i, name))
  {
    end := i;
    var j := i + 1;
    while j < |lines| && !IsEnd(lines[j], name)
      invariant i < j <= |lines| && forall m | i < m < j :: !IsEnd(lines[m], name)
    {
      j := j + 1;
    }
    if j < |lines| {
      end := j;
    }
  }

  /** Writes the section that starts in line i onto acc, and returns the line it ends in. */
  method InjectSection(lines: seq<string>, i: nat, sections: map<string, string>, acc: string)
    returns (out: string, end: nat)
    requires i < |lines| && IsStart(lines[i])
    ensures i <= end < |lines| && OntoFrom(lines, end + 1, out, sections) == OntoFrom(lines, i, acc, sections)
  {
    var name := SectionName(lines[i]);
    out := acc + lines[i] + "\n";
    if name in sections && sections[name] != "" {
      out := out + sections[name];
    }
    assert out == acc + lines[i] + "\n" + ContentFor(sections, name);
    end := SkipToEnd(lines, i, name);
    out := out + lines[end] + Newline(lines[end + 1..]);
    HeadAndTail(lines, i);
    if end > i {
      FourParts(lines, i, end);
      OntoClosed(lines[i], lines[i + 1..end], lines[end], lines[end + 1..], acc, sections);
    } else {
      OntoOpen(lines[i], lines[i + 1..], acc, sections);
    }
  }

  lemma Associate<T>(a: seq<T>, b: seq<T>, c: seq<T>)
    ensures a + b + c == a + (b + c)
  {
  }

  lemma Associate3<T>(a: seq<T>, b: seq<T>, c: seq<T>, d: seq<T>)
    ensures a + (b + c + d) == a + b + c + d
  {
  }
}
