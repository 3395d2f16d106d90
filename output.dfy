/** The files the converter writes: their names and their text, as
    functions of the finished sections. */
module Output {
  import opened Text
  import opened Slug
  import opened Segment

  /** A written script: its file name inside the output directory and its text. */
  datatype OutputFile = OutputFile(name: string, text: string)

  const HeaderLine := "# Converted from notebook"
  const Header := HeaderLine + "\n"
  const CombinedName := "colab_converted.py"

  // ----- Decimal numerals -----

  function Digit(d: nat): (c: char)
    requires d < 10
    ensures IsDigit(c) && c as int - '0' as int == d
  {
    ('0' as int + d) as char
  }

  /** The value of a string of decimal digits. */
  function DigitsValue(s: string): int
    requires forall i :: 0 <= i < |s| ==> IsDigit(s[i])
  {
    if s == [] then 0 else DigitsValue(s[..|s| - 1]) * 10 + (s[|s| - 1] as int - '0' as int)
  }

  /** `str(n)`: the decimal numeral of `n`, without leading zeros. */
  function Decimal(n: nat): (s: string)
    ensures 1 <= |s| && (n < 10 <==> |s| == 1) && (n < 100 ==> |s| <= 2)
    ensures forall i :: 0 <= i < |s| ==> IsDigit(s[i])
    ensures DigitsValue(s) == n
    ensures |s| > 1 ==> s[0] != '0'
  {
    if n < 10 then [Digit(n)]
    else
      var init := Decimal(n / 10);
      var s := init + [Digit(n % 10)];
      assert s[..|s| - 1] == init;
      s
  }

  /** `f"{n:02d}"`: the numeral of `n`, padded with zeros to two digits. */
  function Pad2(n: nat): (s: string)
    ensures forall i :: 0 <= i < |s| ==> IsDigit(s[i])
    ensures DigitsValue(s) == n
    ensures 2 <= |s| && (n < 100 ==> |s| == 2)
    ensures |s| > 2 ==> s[0] != '0'
  {
    if n < 10 then
      var s := ['0', Digit(n)];
      assert s[..1] == ['0'] && ['0'][..0] == [];
      s
    else Decimal(n)
  }

  // ----- File text -----

  /** Writing each line followed by a newline. */
  function Body(lines: seq<string>): string {
    if lines == [] then [] else Body(lines[..|lines| - 1]) + lines[|lines| - 1] + "\n"
  }

  lemma {:induction false} BodyConcat(a: seq<string>, b: seq<string>)
    ensures Body(a + b) == Body(a) + Body(b)
    decreases |b|
  {
    if b == [] {
      assert a + b == a;
    } else {
      var b' := b[..|b| - 1];
      assert (a + b)[..|a + b| - 1] == a + b';
      BodyConcat(a, b');
    }
  }

  /** Splitting a text into its newline-terminated lines; an unterminated
      tail counts as a last line. */
  function Lines(text: string): seq<string>
    decreases |text|
  {
    if text == [] then []
    else
      var k := LeadingCount(text, IsNotNewline);
      if k == |text| then [text] else [text[..k]] + Lines(text[k + 1..])
  }

  /** Reading the written text back line by line gives the lines again,
      as long as no line holds a newline of its own. */
  lemma {:induction false} LinesOfBody(lines: seq<string>)
    requires NoNewlines(lines)
    ensures Lines(Body(lines)) == lines
  {
    if lines != [] {
      var l, rest := lines[0], lines[1..];
      assert [l] + rest == lines;
      BodyConcat([l], rest);
      assert Body([l]) == l + "\n" by {
        assert [l][..0] == [];
      }
      var text := Body(lines);
      assert text == l + "\n" + Body(rest);
      LeadingCountOfLine(l, Body(rest));
      assert text[..|l|] == l;
      assert text[|l| + 1..] == Body(rest);
      LinesOfBody(rest);
    }
  }

  /** Two written blocks read back as their lines, one after the other. */
  lemma LinesOfBodies(h: seq<string>, l: seq<string>)
    requires NoNewlines(h) && NoNewlines(l)
    ensures Lines(Body(h) + Body(l)) == h + l
  {
    BodyConcat(h, l);
    assert NoNewlines(h + l);
    LinesOfBody(h + l);
  }

  /** In `l + "\n" + tail`, the first newline follows `l`. */
  lemma LeadingCountOfLine(l: string, tail: string)
    requires '\n' !in l
    ensures LeadingCount(l + "\n" + tail, IsNotNewline) == |l|
  {
    var text := l + "\n" + tail;
    assert text[|l|] == '\n';
    assert forall j :: 0 <= j < |l| ==> text[j] == l[j];
  }

  /** The banner written before a section of the combined file: none for an
      empty title or the implicit "main" section. */
  function Banner(title: string): string {
    if title != [] && title != MainTitle then "# Section: " + title + "\n\n" else []
  }

  /** The sections written one after another into the combined file. */
  function CombinedBody(sections: seq<Section>): string {
    if sections == [] then []
    else
      var last := sections[|sections| - 1];
      CombinedBody(sections[..|sections| - 1]) + Banner(last.title) + Body(last.lines)
  }

  /** The lines `colab_converted.py` starts with. */
  const CombinedHead := Header + CombinedRunLine

  const RunPrefix := "# To run: python scripts/"
  const CombinedRunCommand := RunPrefix + CombinedName
  const CombinedRunLine := CombinedRunCommand + "\n\n"

  /** The text of `colab_converted.py`. */
  function CombinedText(sections: seq<Section>): string {
    CombinedHead + CombinedBody(sections)
  }

  lemma CombinedTextSnoc(sections: seq<Section>, j: nat)
    requires j < |sections|
    ensures CombinedText(sections[..j + 1])
      == CombinedText(sections[..j]) + Banner(sections[j].title) + Body(sections[j].lines)
  {
    var s := sections[..j + 1];
    var b, x, y := CombinedBody(sections[..j]), Banner(sections[j].title), Body(sections[j].lines);
    assert s[..|s| - 1] == sections[..j];
    assert CombinedBody(s) == b + x + y;
    AppendAssoc(CombinedHead, b + x, y);
    AppendAssoc(CombinedHead, b, x);
  }

  /** Without banners, the combined body is every section's lines in order. */
  lemma {:induction false} CombinedBodyNoBanner(sections: seq<Section>)
    requires forall i :: 0 <= i < |sections| ==> Banner(sections[i].title) == []
    ensures CombinedBody(sections) == Body(Flatten(sections))
  {
    if sections != [] {
      var init, last := sections[..|sections| - 1], sections[|sections| - 1];
      assert CombinedBody(sections) == CombinedBody(init) + Banner(last.title) + Body(last.lines);
      assert Flatten(sections) == Flatten(init) + last.lines;
      assert forall i :: 0 <= i < |init| ==> init[i] == sections[i];
      CombinedBodyNoBanner(init);
      BodyConcat(Flatten(init), last.lines);
    }
  }

  /** The lines of the combined file: each section's banner lines (none for
      an empty title or "main"), then its lines. */
  function CombinedLines(sections: seq<Section>): seq<string> {
    if sections == [] then []
    else
      var last := sections[|sections| - 1];
      CombinedLines(sections[..|sections| - 1]) + BannerLines(last.title) + last.lines
  }

  function BannerLines(title: string): seq<string> {
    if title != [] && title != MainTitle then ["# Section: " + title, ""] else []
  }

  /** The lines `colab_converted.py` starts with, without their newlines. */
  const CombinedHeadLines := [HeaderLine, CombinedRunCommand, ""]

  /** No string of `lines` holds a newline. */
  predicate NoNewlines(lines: seq<string>) {
    forall i :: 0 <= i < |lines| ==> '\n' !in lines[i]
  }

  /** No section title or line holds a newline. */
  predicate SectionsNoNewlines(sections: seq<Section>) {
    forall i :: 0 <= i < |sections| ==> '\n' !in sections[i].title && NoNewlines(sections[i].lines)
  }

  lemma BodyPair(a: string, b: string)
    ensures Body([a, b]) == a + "\n" + b + "\n"
  {
    assert [a, b][..1] == [a];
    assert [a][..0] == [];
    assert Body([a]) == a + "\n";
  }

  lemma BodyTriple(a: string, b: string, c: string)
    ensures Body([a, b, c]) == a + "\n" + b + "\n" + c + "\n"
  {
    assert [a, b, c][..2] == [a, b];
    BodyPair(a, b);
  }

  lemma BodyQuad(a: string, b: string, c: string, d: string)
    ensures Body([a, b, c, d]) == a + "\n" + b + "\n" + c + "\n" + d + "\n"
  {
    assert [a, b, c, d][..3] == [a, b, c];
    BodyTriple(a, b, c);
  }

  lemma BannerBody(title: string)
    ensures Banner(title) == Body(BannerLines(title))
  {
    if title != [] && title != MainTitle {
      BodyPair("# Section: " + title, "");
    }
  }

  /** The combined body is the written form of `CombinedLines`. */
  lemma {:induction false} CombinedBodyLines(sections: seq<Section>)
    ensures CombinedBody(sections) == Body(CombinedLines(sections))
  {
    if sections != [] {
      var init, last := sections[..|sections| - 1], sections[|sections| - 1];
      CombinedBodyLines(init);
      BannerBody(last.title);
      BodyConcat(CombinedLines(init), BannerLines(last.title));
      BodyConcat(CombinedLines(init) + BannerLines(last.title), last.lines);
    }
  }

  lemma {:induction false} CombinedLinesNoNewlines(sections: seq<Section>)
    requires SectionsNoNewlines(sections)
    ensures NoNewlines(CombinedLines(sections))
  {
    if sections != [] {
      var init, last := sections[..|sections| - 1], sections[|sections| - 1];
      assert forall i :: 0 <= i < |init| ==> init[i] == sections[i];
      CombinedLinesNoNewlines(init);
      var b := BannerLines(last.title);
      assert '\n' !in last.title && NoNewlines(last.lines);
      var l := CombinedLines(sections);
      assert l == CombinedLines(init) + b + last.lines;
    }
  }

  lemma CombinedHeadBody()
    ensures CombinedHead == Body(CombinedHeadLines)
  {
    var h := CombinedHeadLines;
    BodyTriple(h[0], h[1], h[2]);
    AppendAssoc(HeaderLine + "\n", CombinedRunCommand, "\n\n");
  }

  /** Read back line by line, `colab_converted.py` is its three head lines,
      then each section's banner lines (none for an empty title or "main")
      and its lines, in order. */
  lemma CombinedTextLines(sections: seq<Section>)
    requires SectionsNoNewlines(sections)
    ensures Lines(CombinedText(sections)) == CombinedHeadLines + CombinedLines(sections)
  {
    CombinedBodyLines(sections);
    CombinedHeadBody();
    CombinedLinesNoNewlines(sections);
    HeadNoNewlines();
    LinesOfBodies(CombinedHeadLines, CombinedLines(sections));
  }

  /** At most one section, titled "main", is written as the combined head
      followed by its lines. */
  lemma MainOnlyFile(all: seq<string>)
    ensures OutputFiles(if all == [] then [] else [Section(MainTitle, all)])
      == [OutputFile(CombinedName, CombinedHead + Body(all))]
  {
    var sections := if all == [] then [] else [Section(MainTitle, all)];
    assert CombinedBody(sections) == Body(all) by {
      if all != [] {
        assert sections[..0] == [];
        assert Banner(MainTitle) == [];
      }
    }
  }

  // ----- Step files -----

  /** `slugify(title) or f"{i:02d}"`, given `slug == slugify(title)`. */
  function SlugOrIndex(i: nat, slug: string): (r: string)
    ensures r != []
  {
    if slug != [] then slug else Pad2(i)
  }

  /** `f"step_{i:02d}_{slug}.py"`. */
  function FileName(i: nat, slug: string): string {
    "step_" + Pad2(i) + "_" + slug + ".py"
  }

  /** The text of a step file. */
  function StepText(name: string, title: string, lines: seq<string>): string {
    Header + "# Section: " + title + "\n" + RunPrefix + name + "\n\n" + Body(lines)
  }

  /** The four lines a step file starts with: the header, the section
      title, the command that runs it and a blank line. */
  function StepHeadLines(name: string, title: string): seq<string> {
    [HeaderLine, "# Section: " + title, RunPrefix + name, ""]
  }

  lemma StepHeadBody(name: string, title: string, lines: seq<string>)
    ensures StepText(name, title, lines) == Body(StepHeadLines(name, title)) + Body(lines)
  {
    var h := StepHeadLines(name, title);
    BodyQuad(h[0], h[1], h[2], h[3]);
  }

  /** The fixed pieces of the head lines hold no newline. */
  lemma HeadNoNewlines()
    ensures '\n' !in HeaderLine && '\n' !in RunPrefix && '\n' !in CombinedName
  {
    assert '\n' !in HeaderLine;
    assert '\n' !in RunPrefix;
  }

  lemma StepHeadNoNewlines(name: string, title: string)
    requires '\n' !in name && '\n' !in title
    ensures NoNewlines(StepHeadLines(name, title))
  {
    HeadNoNewlines();
  }

  /** Read back line by line, a step file is its four head lines, then the
      section's lines. */
  lemma StepTextLines(name: string, title: string, lines: seq<string>)
    requires '\n' !in name && '\n' !in title && NoNewlines(lines)
    ensures Lines(StepText(name, title, lines)) == StepHeadLines(name, title) + lines
  {
    StepHeadBody(name, title, lines);
    StepHeadNoNewlines(name, title);
    LinesOfBodies(StepHeadLines(name, title), lines);
  }

  /** The `i`-th step file, for a section whose title slugifies to `slug`. */
  function StepFile(i: nat, slug: string, s: Section): OutputFile {
    var name := FileName(i, SlugOrIndex(i, slug));
    OutputFile(name, StepText(name, s.title, s.lines))
  }

  /** The slugs of the section titles. */
  function TitleSlugs(sections: seq<Section>): (slugs: seq<string>)
    ensures |slugs| == |sections|
  {
    seq(|sections|, k requires 0 <= k < |sections| => Slugify(sections[k].title))
  }

  /** One step file per section, numbered from 1. */
  function StepFiles(sections: seq<Section>, slugs: seq<string>): seq<OutputFile>
    requires |slugs| == |sections|
  {
    seq(|sections|, k requires 0 <= k < |sections| => StepFile(k + 1, slugs[k], sections[k]))
  }

  lemma StepFilesSnoc(sections: seq<Section>, slugs: seq<string>, j: nat)
    requires |slugs| == |sections| && j < |sections|
    ensures StepFiles(sections[..j + 1], slugs[..j + 1])
      == StepFiles(sections[..j], slugs[..j]) + [StepFile(j + 1, slugs[j], sections[j])]
  {
  }

  /** What the converter writes for the finished sections. */
  function OutputFiles(sections: seq<Section>): seq<OutputFile> {
    if |sections| <= 1 then [OutputFile(CombinedName, CombinedText(sections))]
    else StepFiles(sections, TitleSlugs(sections))
  }

  // ----- What the names promise -----

  /** A step file name is `step_`, the padded index, `_`, the slug and `.py`. */
  lemma FileNameShape(i: nat, slug: string)
    ensures var name := FileName(i, slug);
      var p := Pad2(i);
      && StartsWith(name, "step_")
      && name[5..5 + |p|] == p
      && name[5 + |p|] == '_'
      && name[|name| - 3..] == ".py"
  {
    var name := FileName(i, slug);
    var p := Pad2(i);
    assert name == "step_" + p + "_" + slug + ".py";
    assert name[..5] == "step_";
    assert name[5..5 + |p|] == p;
  }

  /** The index a step file name carries: the digits after `step_`, or -1
      for a name of another shape. */
  function NameIndex(name: string): int {
    if StartsWith(name, "step_") then
      var rest := name[5..];
      DigitsValue(rest[..LeadingCount(rest, IsDigit)])
    else -1
  }

  /** The index can be read back from a step file name. */
  lemma NameIndexOfFileName(i: nat, slug: string)
    ensures NameIndex(FileName(i, slug)) == i
  {
    var name := FileName(i, slug);
    var p := Pad2(i);
    FileNameShape(i, slug);
    var rest := name[5..];
    assert rest[..|p|] == p;
    assert rest[|p|] == '_';
    assert forall k :: 0 <= k < |p| ==> IsDigit(rest[k]);
    assert LeadingCount(rest, IsDigit) == |p|;
  }

  /** Different indices give different step file names, whatever the slugs. */
  lemma FileNamesDistinct(i: nat, j: nat, s1: string, s2: string)
    requires i != j
    ensures FileName(i, s1) != FileName(j, s2)
  {
    NameIndexOfFileName(i, s1);
    NameIndexOfFileName(j, s2);
  }

  /** The step files have pairwise different names: each carries its own index. */
  lemma StepFileNamesDistinct(sections: seq<Section>, slugs: seq<string>)
    requires |slugs| == |sections|
    ensures var files := StepFiles(sections, slugs);
      forall a, b :: 0 <= a < b < |files| ==> files[a].name != files[b].name
  {
    var files := StepFiles(sections, slugs);
    forall k | 0 <= k < |files| ensures NameIndex(files[k].name) == k + 1 {
      NameIndexOfFileName(k + 1, SlugOrIndex(k + 1, slugs[k]));
    }
  }

  /** At most one section gives the single combined file; more give one step
      file per section, named after its index and the slug of its title, all
      names different. */
  lemma OutputFilesShape(sections: seq<Section>)
    ensures var files := OutputFiles(sections);
      && (|sections| <= 1 ==> files == [OutputFile(CombinedName, CombinedText(sections))])
      && (|sections| > 1 ==>
            |files| == |sections| &&
            forall k :: 0 <= k < |files| ==> files[k] == StepFile(k + 1, Slugify(sections[k].title), sections[k]))
      && (forall a, b :: 0 <= a < b < |files| ==> files[a].name != files[b].name)
  {
    if |sections| > 1 {
      StepFileNamesDistinct(sections, TitleSlugs(sections));
    }
  }
}
