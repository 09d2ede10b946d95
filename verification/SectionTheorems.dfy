/** What extraction and injection do to a page, read as a list of blocks. */
module SectionTheorems {
  import opened Sections
  import opened Strings
  import opened Wrappers

  datatype Block = Text(line: string) | Section(start: string, body: seq<string>, end: string)

  predicate IsBlock(b: Block) {
    match b
    case Text(line) => !IsStart(line)
    case Section(start, body, end) =>
      && IsStart(start) && IsEnd(end, SectionName(start))
      && forall l | l in body :: !IsEnd(l, SectionName(start))
  }

  predicate AreBlocks(blocks: seq<Block>) {
    forall b | b in blocks :: IsBlock(b)
  }

  function LinesOf(b: Block): seq<string> {
    match b
    case Text(line) => [line]
    case Section(start, body, end) => [start] + body + [end]
  }

  function Flatten(blocks: seq<Block>): seq<string> {
    if blocks == [] then [] else LinesOf(blocks[0]) + Flatten(blocks[1..])
  }

  /** The block that starts with the first line takes k more lines. */
  function FirstBlock(lines: seq<string>, k: nat): Block
    requires k < |lines|
  {
    if k == 0 then Text(lines[0]) else Section(lines[0], lines[1..k], lines[k])
  }

  /** How many more lines the first block takes; as many as there are lines if it is not closed. */
  function MoreLines(lines: seq<string>): (k: nat)
    requires lines != []
    ensures k <= |lines| && (k < |lines| ==> IsBlock(FirstBlock(lines, k)) && (k > 0 <==> IsStart(lines[0])))
  {
    if IsStart(lines[0]) then 1 + FindEnd(lines[1..], SectionName(lines[0])) else 0
  }

  /** The blocks of a page; None if a section is not closed. */
  function Parse(lines: seq<string>): Option<seq<Block>> {
    if lines == [] then Some([])
    else
      var k := MoreLines(lines);
      if k == |lines| then None
      else
        var rest := Parse(lines[k + 1..]);
        if rest.None? then None else Some([FirstBlock(lines, k)] + rest.value)
  }

  lemma {:induction false} ParsedAreBlocks(lines: seq<string>)
    requires Parse(lines).Some?
    ensures AreBlocks(Parse(lines).value)
  {
    if lines != [] { ParsedAreBlocks(lines[MoreLines(lines) + 1..]); }
  }

  lemma SectionSlices<T>(start: T, body: seq<T>, end: T, rest: seq<T>)
    ensures var lines, k := [start] + body + [end] + rest, |body| + 1;
      lines[1..] == body + [end] + rest && lines[1..k] == body && lines[k] == end && lines[k + 1..] == rest
  {
  }

  lemma FirstOfFlat(b: Block, rest: seq<string>)
    requires IsBlock(b)
    ensures var lines, k := LinesOf(b) + rest, |LinesOf(b)| - 1;
      MoreLines(lines) == k && FirstBlock(lines, k) == b && lines[k + 1..] == rest
  {
    if b.Section? {
      SectionSlices(b.start, b.body, b.end, rest);
      FindEndAt(b.body, b.end, rest, SectionName(b.start));
    }
  }

  /** Parsing undoes flattening. */
  lemma {:induction false} ParseAfterFlatten(blocks: seq<Block>)
    requires AreBlocks(blocks)
    ensures Parse(Flatten(blocks)) == Some(blocks)
  {
    if blocks != [] {
      ParseAfterFlatten(blocks[1..]);
      assert blocks[0] in blocks;
      FirstOfFlat(blocks[0], Flatten(blocks[1..]));
      assert [blocks[0]] + blocks[1..] == blocks;
    }
  }

  /** Flattening undoes parsing. */
  lemma {:induction false} FlattenAfterParse(lines: seq<string>)
    requires Parse(lines).Some?
    ensures Flatten(Parse(lines).value) == lines
  {
    if lines != [] {
      var k := MoreLines(lines);
      FlattenAfterParse(lines[k + 1..]);
      FlatFirst(FirstBlock(lines, k), Parse(lines[k + 1..]).value);
      BlockAndRest(lines, k);
    }
  }

  lemma FlatFirst(b: Block, rest: seq<Block>)
    ensures Flatten([b] + rest) == LinesOf(b) + Flatten(rest)
  {
    assert ([b] + rest)[1..] == rest;
  }

  lemma BlockAndRest(lines: seq<string>, k: nat)
    requires k < |lines|
    ensures LinesOf(FirstBlock(lines, k)) + lines[k + 1..] == lines
  {
  }

  // --- extraction by blocks ---

  /** The bodies of the sections by name, added to acc. */
  function Bodies(blocks: seq<Block>, acc: map<string, string>): map<string, string> {
    if blocks == [] then acc
    else Bodies(blocks[1..], if blocks[0].Section? && IsStart(blocks[0].start)
                             then acc[SectionName(blocks[0].start) := Unlines(blocks[0].body)] else acc)
  }

  lemma {:induction false} ExtractionOfBlocks(blocks: seq<Block>, acc: map<string, string>)
    requires AreBlocks(blocks)
    ensures SectionsOf(Flatten(blocks), acc) == Some(Bodies(blocks, acc))
  {
    if blocks != [] {
      var b, rest := blocks[0], Flatten(blocks[1..]);
      assert b in blocks;
      ExtractionOfBlock(b, rest, acc);
      ExtractionOfBlocks(blocks[1..], if b.Text? then acc else acc[SectionName(b.start) := Unlines(b.body)]);
    }
  }

  lemma ExtractionOfBlock(b: Block, rest: seq<string>, acc: map<string, string>)
    requires IsBlock(b)
    ensures SectionsOf(LinesOf(b) + rest, acc) == SectionsOf(rest, if b.Text? then acc else acc[SectionName(b.start) := Unlines(b.body)])
  {
    match b
    case Text(line) => SectionsOfText(line, rest, acc);
    case Section(start, body, end) =>
      LinesInParts(start, body, end, rest);
      SectionsOfClosed(start, body, end, rest, acc);
  }

  lemma LinesInParts<T>(start: T, body: seq<T>, end: T, rest: seq<T>)
    ensures [start] + body + [end] + rest == [start] + (body + [end] + rest)
  {
  }

  lemma {:induction false} ExtractionFails(lines: seq<string>, acc: map<string, string>)
    requires Parse(lines).None?
    ensures SectionsOf(lines, acc).None?
  {
    var k := MoreLines(lines);
    if 0 < k < |lines| {
      assert lines[1..][k..] == lines[k + 1..];
      ExtractionFails(lines[k + 1..], acc[SectionName(lines[0]) := Unlines(lines[1..][..k - 1])]);
    } else if k == 0 {
      ExtractionFails(lines[1..], acc);
    }
  }

  // --- injection by blocks ---

  /** The lines of a section content, each of which was closed by a newline. */
  function ContentLines(content: string): seq<string> {
    var parts := Split(content, '\n');
    parts[..|parts| - 1]
  }

  /** Contents that are whole lines without the end marker of their section. */
  predicate Fits(sections: map<string, string>) {
    forall name | name in sections ::
      && Unlines(ContentLines(sections[name])) == sections[name]
      && forall l | l in ContentLines(sections[name]) :: !IsEnd(l, name)
  }

  function Filled(b: Block, sections: map<string, string>): Block {
    if b.Section? && IsStart(b.start) then b.(body := ContentLines(ContentFor(sections, SectionName(b.start)))) else b
  }

  function Fill(blocks: seq<Block>, sections: map<string, string>): seq<Block> {
    if blocks == [] then [] else [Filled(blocks[0], sections)] + Fill(blocks[1..], sections)
  }

  lemma {:induction false} FilledAreBlocks(blocks: seq<Block>, sections: map<string, string>)
    requires AreBlocks(blocks) && Fits(sections)
    ensures AreBlocks(Fill(blocks, sections))
  {
    if blocks != [] {
      assert blocks[0] in blocks;
      FilledIsBlock(blocks[0], sections);
      FilledAreBlocks(blocks[1..], sections);
    }
  }

  lemma FilledIsBlock(b: Block, sections: map<string, string>)
    requires IsBlock(b) && Fits(sections)
    ensures IsBlock(Filled(b, sections))
  {
    if b.Section? && SectionName(b.start) !in sections { assert Split("", '\n') == [""]; }
  }

  lemma {:induction false} FillTwice(blocks: seq<Block>, s: map<string, string>, s': map<string, string>)
    ensures Fill(Fill(blocks, s), s') == Fill(blocks, s')
  {
    if blocks != [] {
      FillTwice(blocks[1..], s, s');
      assert Fill(blocks, s)[1..] == Fill(blocks[1..], s);
    }
  }

  /** Joining lines: whole lines, then the rest. */
  lemma {:induction false} JoinWhole(whole: seq<string>, rest: seq<string>)
    requires rest != []
    ensures Join(whole + rest, '\n') == Unlines(whole) + Join(rest, '\n')
  {
    if whole == [] {
      assert whole + rest == rest;
    } else {
      var last := |whole| - 1;
      var l := whole[last];
      assert whole + rest == whole[..last] + ([l] + rest);
      JoinWhole(whole[..last], [l] + rest);
      assert ([l] + rest)[1..] == rest;
      Associate3(Unlines(whole[..last]), l, "\n", Join(rest, '\n'));
    }
  }

  lemma JoinSection(start: string, body: seq<string>, rest: seq<string>)
    requires rest != []
    ensures Join([start] + body + rest, '\n') == start + "\n" + Unlines(body) + Join(rest, '\n')
  {
    JoinWhole(body, rest);
    assert [start] + body + rest == [start] + (body + rest);
    assert ([start] + (body + rest))[1..] == body + rest;
    Associate(start + "\n", Unlines(body), Join(rest, '\n'));
  }

  lemma {:induction false} InjectionByBlocks(lines: seq<string>, sections: map<string, string>)
    requires lines != [] && Fits(sections) && Parse(lines).Some?
    ensures Flatten(Fill(Parse(lines).value, sections)) != []
    ensures Render(lines, sections) == Join(Flatten(Fill(Parse(lines).value, sections)), '\n')
  {
    var k := MoreLines(lines);
    var b, after := FirstBlock(lines, k), lines[k + 1..];
    var rest := Fill(Parse(after).value, sections);
    FillFirst(b, Parse(after).value, sections);
    FlatFirst(Filled(b, sections), rest);
    if after != [] { InjectionByBlocks(after, sections); }
    LastLine(lines[k], Flatten(rest), Render(after, sections));
    if k > 0 { RenderSection(lines, k, sections, Flatten(rest)); }
  }

  lemma FillFirst(b: Block, rest: seq<Block>, sections: map<string, string>)
    ensures Fill([b] + rest, sections) == [Filled(b, sections)] + Fill(rest, sections)
  {
    assert ([b] + rest)[1..] == rest;
  }

  /** The last line of a block before what follows it. */
  lemma LastLine(line: string, after: seq<string>, rendered: string)
    requires if after == [] then rendered == "" else rendered == Join(after, '\n')
    ensures Join([line] + after, '\n') == line + Newline(after) + rendered
  {
    assert ([line] + after)[1..] == after;
  }

  lemma RenderSection(lines: seq<string>, k: nat, sections: map<string, string>, after: seq<string>)
    requires 0 < k < |lines| && k == MoreLines(lines) && Fits(sections) && (after == [] <==> lines[k + 1..] == [])
    requires Join([lines[k]] + after, '\n') == lines[k] + Newline(after) + Render(lines[k + 1..], sections)
    ensures Render(lines, sections) == Join(LinesOf(Filled(FirstBlock(lines, k), sections)) + after, '\n')
  {
    var content := ContentFor(sections, SectionName(lines[0]));
    var body := ContentLines(content);
    ContentIsLines(sections, SectionName(lines[0]));
    JoinSection(lines[0], body, [lines[k]] + after);
    Associate([lines[0]] + body, [lines[k]], after);
    RenderClosed(lines, k, sections);
    assert Newline(after) == Newline(lines[k + 1..]);
  }

  lemma ContentIsLines(sections: map<string, string>, name: string)
    requires Fits(sections)
    ensures Unlines(ContentLines(ContentFor(sections, name))) == ContentFor(sections, name)
  {
    if name !in sections { assert Split("", '\n') == [""]; }
  }

  lemma RenderClosed(lines: seq<string>, k: nat, sections: map<string, string>)
    requires 0 < k < |lines| && k == MoreLines(lines)
    ensures Render(lines, sections) ==
      lines[0] + "\n" + ContentFor(sections, SectionName(lines[0])) +
      (lines[k] + Newline(lines[k + 1..]) + Render(lines[k + 1..], sections))
  {
    HeadAndTail(lines, 0);
    FourParts(lines, 0, k);
    NoEndBefore(lines, k);
    assert lines[0..] == lines;
    RenderOfClosed(lines[0], lines[1..k], lines[k], lines[k + 1..], sections);
  }

  lemma NoEndBefore(lines: seq<string>, k: nat)
    requires 0 < k < |lines| && k == MoreLines(lines)
    ensures IsStart(lines[0]) && IsEnd(lines[k], SectionName(lines[0]))
    ensures forall l | l in lines[1..k] :: !IsEnd(l, SectionName(lines[0]))
  {
    forall l | l in lines[1..k] ensures !IsEnd(l, SectionName(lines[0])) {
      var m :| 0 <= m < k - 1 && lines[1..k][m] == l;
      assert lines[1..][m] == l;
    }
  }

  lemma RenderOfClosed(start: string, body: seq<string>, end: string, after: seq<string>, sections: map<string, string>)
    requires IsStart(start) && IsEnd(end, SectionName(start)) && forall l | l in body :: !IsEnd(l, SectionName(start))
    ensures Render([start] + (body + [end] + after), sections) ==
      start + "\n" + ContentFor(sections, SectionName(start)) + (end + Newline(after) + Render(after, sections))
  {
    FindEndAt(body, end, after, SectionName(start));
    assert ([start] + (body + [end] + after))[1..] == body + [end] + after;
    WholeSection(start + "\n" + ContentFor(sections, SectionName(start)), end, Newline(after), Render(after, sections));
  }

  // --- pages ---

  function Blocks(content: string): Option<seq<Block>> {
    Parse(Split(content, '\n'))
  }

  /** Every section that is opened is closed. */
  predicate WellFormed(content: string) {
    Blocks(content).Some?
  }

  /** A page without the bodies of its sections. */
  function Outside(content: string): seq<Block>
    requires WellFormed(content)
  {
    Fill(Blocks(content).value, map[])
  }

  ghost predicate NewlineFree(lines: seq<string>) {
    forall l | l in lines :: Free(l, '\n')
  }

  lemma {:induction false} FilledIsNewlineFree(blocks: seq<Block>, sections: map<string, string>)
    requires NewlineFree(Flatten(blocks))
    ensures NewlineFree(Flatten(Fill(blocks, sections)))
  {
    if blocks != [] {
      var b := blocks[0];
      assert forall l | l in Flatten(blocks[1..]) :: l in Flatten(blocks);
      assert forall l | l in LinesOf(b) :: l in Flatten(blocks);
      FilledIsNewlineFree(blocks[1..], sections);
      assert Fill(blocks, sections)[1..] == Fill(blocks[1..], sections);
      if b.Section? && IsStart(b.start) {
        assert b.start in LinesOf(b) && b.end in LinesOf(b);
        SplitIsFree(ContentFor(sections, SectionName(b.start)), '\n');
      }
    }
  }

  /** The blocks of the new page are those of the template with the bodies filled in. */
  lemma InjectedBlocks(t: string, s: map<string, string>)
    requires WellFormed(t) && Fits(s) && s != map[]
    ensures Blocks(Inject(t, s)) == Some(Fill(Blocks(t).value, s))
  {
    var lines := Split(t, '\n');
    InjectionByBlocks(lines, s);
    var blocks := Fill(Parse(lines).value, s);
    ParsedAreBlocks(lines);
    FilledAreBlocks(Parse(lines).value, s);
    FlattenAfterParse(lines);
    SplitIsFree(t, '\n');
    FilledIsNewlineFree(Parse(lines).value, s);
    SplitAfterJoin(Flatten(blocks), '\n');
    ParseAfterFlatten(blocks);
  }

  lemma {:induction false} FilledBodies(blocks: seq<Block>, s: map<string, string>, acc: map<string, string>, acc': map<string, string>)
    requires AreBlocks(blocks) && Fits(s)
    requires acc.Keys == acc'.Keys && forall n | n in acc' :: acc'[n] == ContentFor(s, n)
    ensures Bodies(blocks, acc).Keys == Bodies(Fill(blocks, s), acc').Keys
    ensures forall n | n in Bodies(Fill(blocks, s), acc') :: Bodies(Fill(blocks, s), acc')[n] == ContentFor(s, n)
  {
    if blocks != [] {
      var b := blocks[0];
      assert b in blocks && Fill(blocks, s)[1..] == Fill(blocks[1..], s);
      if b.Section? {
        var name := SectionName(b.start);
        FilledBodies(blocks[1..], s, acc[name := Unlines(b.body)], acc'[name := ContentFor(s, name)]);
        assert Unlines(ContentLines(ContentFor(s, name))) == ContentFor(s, name) by {
          if name !in s { assert Split("", '\n') == [""]; }
        }
      } else {
        FilledBodies(blocks[1..], s, acc, acc');
      }
    }
  }

  lemma ExtractIsBodies(t: string)
    ensures Extract(t) == if WellFormed(t) then Bodies(Blocks(t).value, map[]) else map[]
  {
    var lines := Split(t, '\n');
    if WellFormed(t) {
      ParsedAreBlocks(lines);
      FlattenAfterParse(lines);
      ExtractionOfBlocks(Parse(lines).value, map[]);
    } else {
      ExtractionFails(lines, map[]);
    }
  }

  /** Extracting from the new page gives, for exactly the sections of the template, their content in s;
      everything outside the sections is the template's. */
  lemma ExtractAfterInject(t: string, s: map<string, string>)
    requires WellFormed(t) && Fits(s) && s != map[]
    ensures WellFormed(Inject(t, s)) && Outside(Inject(t, s)) == Outside(t)
    ensures Extract(Inject(t, s)) == map n | n in Extract(t) :: ContentFor(s, n)
  {
    InjectedBlocks(t, s);
    ParsedAreBlocks(Split(t, '\n'));
    ExtractIsBodies(t);
    ExtractIsBodies(Inject(t, s));
    FillTwice(Blocks(t).value, s, map[]);
    FilledBodies(Blocks(t).value, s, map[], map[]);
  }

  /** What a section of the template holds survives if and only if nothing at all is stored, or the same
      is stored for it; without stored content of its own, if and only if nothing is stored or it is empty. */
  lemma BodySurvivesIff(t: string, s: map<string, string>, n: string)
    requires WellFormed(t) && Fits(s) && n in Extract(t)
    ensures n in Extract(Inject(t, s))
    ensures Extract(Inject(t, s))[n] == Extract(t)[n] <==> s == map[] || ContentFor(s, n) == Extract(t)[n]
    ensures n !in s ==> (Extract(Inject(t, s))[n] == Extract(t)[n] <==> s == map[] || Extract(t)[n] == "")
  {
    if s != map[] { ExtractAfterInject(t, s); }
  }

  /** Injecting the same contents again changes nothing. */
  lemma InjectTwice(t: string, s: map<string, string>)
    requires WellFormed(t) && Fits(s)
    ensures Inject(Inject(t, s), s) == Inject(t, s)
  {
    if s != map[] {
      InjectedBlocks(t, s);
      FillTwice(Blocks(t).value, s, s);
      RenderedPage(t, s);
      RenderedPage(Inject(t, s), s);
    }
  }

  lemma RenderedPage(t: string, s: map<string, string>)
    requires WellFormed(t) && Fits(s) && s != map[]
    ensures Flatten(Fill(Blocks(t).value, s)) != []
    ensures Inject(t, s) == Join(Flatten(Fill(Blocks(t).value, s)), '\n')
  {
    var lines := Split(t, '\n');
    InjectionByBlocks(lines, s);
  }

  /** What extraction returns fits, so that the above holds of it. */
  lemma ExtractFits(t: string)
    ensures Fits(Extract(t))
  {
    ExtractIsBodies(t);
    if WellFormed(t) {
      FlattenAfterParse(Split(t, '\n'));
      ParsedAreBlocks(Split(t, '\n'));
      SplitIsFree(t, '\n');
      BodiesFit(Blocks(t).value, map[]);
    }
  }

  lemma {:induction false} BodiesFit(blocks: seq<Block>, acc: map<string, string>)
    requires AreBlocks(blocks) && NewlineFree(Flatten(blocks)) && Fits(acc)
    ensures Fits(Bodies(blocks, acc))
  {
    if blocks != [] {
      var b := blocks[0];
      assert b in blocks;
      assert forall l | l in Flatten(blocks[1..]) :: l in Flatten(blocks);
      if b.Section? {
        assert forall l | l in b.body :: l in LinesOf(b) && l in Flatten(blocks);
        LinesComeBack(b.body);
        BodiesFit(blocks[1..], acc[SectionName(b.start) := Unlines(b.body)]);
      } else {
        BodiesFit(blocks[1..], acc);
      }
    }
  }

  lemma LinesComeBack(body: seq<string>)
    requires NewlineFree(body)
    ensures ContentLines(Unlines(body)) == body
  {
    JoinWhole(body, [""]);
    assert Unlines(body) + "" == Unlines(body);
    assert Free("", '\n');
    SplitAfterJoin(body + [""], '\n');
    assert (body + [""])[..|body|] == body;
  }

  /** Regenerating a page from what was extracted from it gives the page again. */
  lemma RegenerateIsStable(t: string, s: map<string, string>)
    requires WellFormed(t) && Fits(s) && s != map[]
    ensures Inject(t, Extract(Inject(t, s))) == Inject(t, s)
  {
    var s' := Extract(Inject(t, s));
    ExtractAfterInject(t, s);
    ExtractFits(Inject(t, s));
    if Extract(t) != map[] {
      var n :| n in Extract(t);
      assert n in s';
      RenderedPage(t, s);
      RenderedPage(t, s');
      ExtractIsBodies(t);
      ParsedAreBlocks(Split(t, '\n'));
      SameFill(Blocks(t).value, map[], s, s');
    } else {
      ExtractIsBodies(t);
      ParsedAreBlocks(Split(t, '\n'));
      NothingToFill(Blocks(t).value, map[], s);
      RenderedPage(t, s);
      FlattenAfterParse(Split(t, '\n'));
      JoinAfterSplit(t, '\n');
    }
  }

  lemma {:induction false} NothingToFill(blocks: seq<Block>, acc: map<string, string>, s: map<string, string>)
    requires AreBlocks(blocks)
    ensures acc.Keys <= Bodies(blocks, acc).Keys
    ensures Bodies(blocks, acc) == map[] ==> Fill(blocks, s) == blocks
  {
    if blocks != [] {
      var b := blocks[0];
      assert b in blocks && [b] + blocks[1..] == blocks;
      if b.Section? {
        NothingToFill(blocks[1..], acc[SectionName(b.start) := Unlines(b.body)], s);
        assert SectionName(b.start) in Bodies(blocks, acc);
      } else {
        NothingToFill(blocks[1..], acc, s);
      }
    }
  }

  lemma {:induction false} SameFill(blocks: seq<Block>, acc: map<string, string>, s: map<string, string>, s': map<string, string>)
    requires AreBlocks(blocks)
    requires forall n | n in Bodies(blocks, acc) :: ContentFor(s, n) == ContentFor(s', n)
    ensures acc.Keys <= Bodies(blocks, acc).Keys
    ensures Fill(blocks, s) == Fill(blocks, s')
  {
    if blocks != [] {
      var b := blocks[0];
      assert b in blocks;
      if b.Section? {
        SameFill(blocks[1..], acc[SectionName(b.start) := Unlines(b.body)], s, s');
        assert SectionName(b.start) in Bodies(blocks, acc);
      } else {
        SameFill(blocks[1..], acc, s, s');
      }
    }
  }
}
