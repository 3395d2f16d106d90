/** The converter's `convert`: the loop over the cells with its
    `flush_section` helper, then the writing of the combined file or of the
    step files, each proved to produce what the specification functions of
    the other modules describe. */
module Convert {
  import opened Text
  import opened Slug
  import opened Cells
  import opened Segment
  import opened Output

  /** `flush_section`: move a non-empty line buffer into the sections. */
  method FlushSection(sections: seq<Section>, title: string, lines: seq<string>)
    returns (sections': seq<Section>, lines': seq<string>)
    ensures State(sections', title, lines') == Flush(State(sections, title, lines))
    ensures lines' == []
  {
    sections', lines' := sections, lines;
    if lines' != [] {
      sections' := sections' + [Section(title, lines')];
      lines' := [];
    }
  }

  /** `for ln in lines: f.write(ln + "\n")`, with the file's text so far in `text`. */
  method WriteLines(text: string, lines: seq<string>) returns (text': string)
    ensures text' == text + Body(lines)
  {
    text' := text;
    for k := 0 to |lines|
      invariant text' == text + Body(lines[..k])
    {
      assert lines[..k + 1][..k] == lines[..k];
      text' := text' + lines[k] + "\n";
    }
    assert lines[..|lines|] == lines;
  }

  /** Appending one cell extends the effects by that cell's effect. */
  lemma EffectsSnoc(cells: seq<Cell>, i: nat)
    requires i < |cells|
    ensures Effects(cells[..i + 1]) == Effects(cells[..i]) + [EffectOf(cells[i])]
  {
  }

  /** One iteration of the loop over the cells. */
  method AddCell(sections: seq<Section>, title: string, lines: seq<string>, raw: RawCell)
    returns (sections': seq<Section>, title': string, lines': seq<string>)
    ensures State(sections', title', lines') == Step(State(sections, title, lines), EffectOf(CellOf(raw)))
  {
    sections', title', lines' := sections, title, lines;
    var ctype := raw.cellType;
    var src := if raw.source.Some? then raw.source.value else [];
    var srcLines := SourceLines(src);
    ghost var c := CellOf(raw);
    assert c.source == src;
    if ctype == Some("markdown") {
      var first := FirstNonBlank(srcLines);
      if StartsWith(first, "# ") || StartsWith(first, "## ") || StartsWith(first, "### ") {
        assert EffectOf(c) == Effect(Some(HeadingTitle(first)), Commented(NonBlankLines(srcLines)) + [""]);
        sections', lines' := FlushSection(sections', title', lines');
        title' := HeadingTitle(first);
        ghost var buffer := lines';
        lines' := lines' + Commented(NonBlankLines(srcLines));
        lines' := lines' + [""];
        AppendAssoc(buffer, Commented(NonBlankLines(srcLines)), [""]);
      } else {
        assert EffectOf(c) == Effect(None, Commented(srcLines) + [""]);
        ghost var buffer := lines';
        lines' := lines' + Commented(srcLines);
        lines' := lines' + [""];
        AppendAssoc(buffer, Commented(srcLines), [""]);
      }
    } else if ctype == Some("code") {
      assert EffectOf(c) == Effect(None, if srcLines != [] then srcLines + [""] else []);
      if srcLines != [] {
        ghost var buffer := lines';
        lines' := lines' + srcLines;
        lines' := lines' + [""];
        AppendAssoc(buffer, srcLines, [""]);
      }
    } else {
      assert EffectOf(c) == Effect(None, []);
    }
  }

  /** The combined file `colab_converted.py`. */
  method WriteCombined(sections: seq<Section>) returns (file: OutputFile)
    ensures file == OutputFile(CombinedName, CombinedText(sections))
  {
    var text := Header;
    text := text + CombinedRunLine;
    assert CombinedBody(sections[..0]) == [];
    for j := 0 to |sections|
      invariant text == CombinedText(sections[..j])
    {
      var section := sections[j];
      ghost var before := text;
      if section.title != [] && section.title != MainTitle {
        text := text + "# Section: " + section.title + "\n\n";
        AppendAssoc(before, "# Section: ", section.title);
        AppendAssoc(before, "# Section: " + section.title, "\n\n");
      }
      assert text == before + Banner(section.title);
      text := WriteLines(text, section.lines);
      CombinedTextSnoc(sections, j);
    }
    assert sections[..|sections|] == sections;
    file := OutputFile(CombinedName, text);
  }

  /** One step file per section, numbered from 1. */
  method WriteSteps(sections: seq<Section>) returns (created: seq<OutputFile>)
    ensures created == StepFiles(sections, TitleSlugs(sections))
  {
    ghost var slugs := TitleSlugs(sections);
    created := [];
    for j := 0 to |sections|
      invariant created == StepFiles(sections[..j], slugs[..j])
    {
      var section := sections[j];
      var i := j + 1;
      var slug := Slugify(section.title);
      assert slug == slugs[j];
      if slug == [] {
        slug := Pad2(i);
      }
      var name := "step_" + Pad2(i) + "_" + slug + ".py";
      var text := Header;
      text := text + "# Section: " + section.title + "\n";
      text := text + "# To run: python scripts/" + name + "\n\n";
      text := WriteLines(text, section.lines);
      assert OutputFile(name, text) == StepFile(i, slugs[j], section);
      StepFilesSnoc(sections, slugs, j);
      created := created + [OutputFile(name, text)];
    }
    assert sections[..|sections|] == sections && slugs[..|slugs|] == slugs;
  }

  /** `convert(nb, out_base)`: the files it writes, in the order it writes them. */
  method Convert(nb: RawNotebook) returns (created: seq<OutputFile>)
    ensures created == OutputFiles(Sections(CellsOf(nb)))
  {
    var raws := if nb.cells.Some? then nb.cells.value else [];
    ghost var cells := CellsOf(nb);
    var sections: seq<Section> := [];
    var lines: seq<string> := [];
    var title := MainTitle;

    for i := 0 to |raws|
      invariant State(sections, title, lines) == Fold(Effects(cells[..i]))
    {
      assert cells[i] == CellOf(raws[i]);
      sections, title, lines := AddCell(sections, title, lines, raws[i]);
      EffectsSnoc(cells, i);
      assert cells[..i + 1][..i] == cells[..i];
    }
    assert cells[..|raws|] == cells;
    sections, lines := FlushSection(sections, title, lines);

    if |sections| <= 1 {
      var file := WriteCombined(sections);
      created := [file];
    } else {
      created := WriteSteps(sections);
    }
  }

  // ----- What `convert` promises, end to end -----

  /** A notebook without heading cells becomes the one file
      `colab_converted.py`: its head, then every contributed line. */
  lemma NoHeadingsOneFile(nb: RawNotebook)
    requires var cells := CellsOf(nb); forall i :: 0 <= i < |cells| ==> !IsHeadingCell(cells[i])
    ensures OutputFiles(Sections(CellsOf(nb)))
      == [OutputFile(CombinedName, CombinedHead + Body(AllLines(Effects(CellsOf(nb)))))]
  {
    var cells := CellsOf(nb);
    NoHeadingOneSection(cells);
    MainOnlyFile(AllLines(Effects(cells)));
  }

  /** A notebook without a `cells` key gives the head of
      `colab_converted.py` and nothing more. */
  lemma MissingCellsHeadOnly(nb: RawNotebook)
    requires nb.cells.None?
    ensures OutputFiles(Sections(CellsOf(nb))) == [OutputFile(CombinedName, CombinedHead)]
  {
    assert Effects(CellsOf(nb)) == [];
    assert Sections(CellsOf(nb)) == [];
    assert CombinedBody([]) == [];
    assert CombinedText([]) == CombinedHead;
    assert OutputFiles([]) == [OutputFile(CombinedName, CombinedHead)];
  }

  /** With two or more heading cells, every section gets its own step file:
      one per heading cell, plus one for the lines before the first heading,
      in order and under pairwise different names. */
  lemma HeadingsSplitFiles(nb: RawNotebook)
    requires |HeadingTitles(Effects(CellsOf(nb)))| >= 2
    ensures var cells := CellsOf(nb);
      var es := Effects(cells);
      var sections := Sections(cells);
      var files := OutputFiles(sections);
      && |files| == |HeadingTitles(es)| + (if Preamble(es) != [] then 1 else 0)
      && (forall k :: 0 <= k < |files| ==> files[k] == StepFile(k + 1, Slugify(sections[k].title), sections[k]))
      && (forall a, b :: 0 <= a < b < |files| ==> files[a].name != files[b].name)
  {
    var cells := CellsOf(nb);
    SectionCount(cells);
    OutputFilesShape(Sections(cells));
  }
}
