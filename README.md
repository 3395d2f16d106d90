# Notebook converter model

A Dafny model of the notebook-to-script converter in
`tools/convert_notebook.py`. The converter reads a Jupyter/Colab
notebook and writes one of two outputs:

- one combined script, `colab_converted.py`;
- one script per section, `step_<ii>_<slug>.py`, when the notebook's
  markdown headings split it into more than one section.

The model covers the parts of the converter that have logic in them:

- `slugify` (`slug.dfy`). It is a pure function proved to give a slug:
  - the only characters are `a-z`, `0-9` and `-`;
  - there is no hyphen at either end and no `--`;
  - the slug keeps exactly the letters and digits of the lower-cased input;
  - it is the maximal runs of `[a-z0-9]` in the lower-cased input (its
    words) joined by single hyphens;
  - it is idempotent.
- The cell boundary (`cells.dfy`).
  - Missing `cells` and `source` keys default to empty lists.
  - Trailing newlines are removed from each line.
  - The heading test and the section title.
  - What each cell appends to the current line buffer.
- The segmentation loop (`segment.dfy`). It is written as a fold of a
  per-cell `Step` over a state holding three things:
  - the finished sections;
  - the current title;
  - the current buffer.

  `Flush` is the `flush_section` helper. The fold is proved to keep a loop
  invariant, and the promises about sections follow from it:
  - no section is empty;
  - the sections' lines, joined, are exactly the lines the cells contributed;
  - the titles are `main` (when lines precede the first heading) followed by
    the heading titles;
  - the section count is the number of heading cells, plus one for a
    non-empty preamble;
  - the `main` section holds the preamble, and the section a heading cell
    opens holds the lines of the cells from it up to the next heading cell.
- The file names and file texts (`output.dfy`). These are pure functions
  of the sections:
  - zero padding;
  - the two headers;
  - the `# Section:` banner, omitted for an empty title and for `main`;
  - one newline after every line.

  When no title or line holds a newline, both file texts are proved to
  read back, line by line, as their head lines followed by the sections'
  lines. `rstrip("\n")` keeps inner newlines, so a source entry `"a\nb"`
  stays one line that reads back as two.

  Step file names are proved pairwise distinct: the index can be read back
  from every name.
- `convert` itself (`convert.dfy`). It is an imperative method with the
  source's two loops and its `flush_section` helper. It is proved to write
  exactly the files the specification functions describe. End-to-end
  lemmas cover three notebooks:
  - one without headings;
  - one without a `cells` key;
  - one with two or more headings.

Characters are modelled as ASCII (`text.dfy`). Whitespace is what Python's
`str.isspace()` accepts on ASCII: space, `\t \n \v \f \r` and
`0x1C`-`0x1F`.

The heading test is made on the first non-blank line with only its trailing
newlines removed (`tools/convert_notebook.py:59-64`), not on the stripped
line. So an indented `"  # x"` opens no section (`Cells.IndentedNoHeading`).

## Model

| member | source | states |
|---|---|---|
| Text.LowerChar | tools/convert_notebook.py:24 | `lower()` on one ASCII character: an upper-case letter becomes the lower-case letter at the same place in the alphabet, every other character is unchanged; the result is in `[a-z0-9]` exactly when the input is an ASCII letter or digit, and whitespace stays whitespace |
| Text.Lower | tools/convert_notebook.py:24 | `lower()` keeps the length, and a character of the result is in `[a-z0-9]` exactly when the input character at that place is an ASCII letter or digit |
| Text.Strip | tools/convert_notebook.py:24 | the stripped text neither starts nor ends with a character of the stripped class |
| Text.StripBounds | tools/convert_notebook.py:24 | `strip` keeps one contiguous slice, and everything it drops belongs to the class |
| Text.StripEmptyIff | tools/convert_notebook.py:63 | a text strips to nothing exactly when every character is in the class (the `ln.strip()` test) |
| Text.ReplaceRunsShape | tools/convert_notebook.py:25 | after `re.sub("[class]+", r, s)` with `r` in the class, no two class characters are adjacent, every class character is `r`, and the result is empty only for empty input |
| Text.ReplaceRunsFilter | tools/convert_notebook.py:25 | replacing runs of characters outside `q` by a character outside `q` keeps every `q`-character, in order |
| Text.ReplaceRunsRun | tools/convert_notebook.py:25-26 | a non-empty text made only of class characters becomes the single replacement character |
| Text.ReplaceRunsOther | tools/convert_notebook.py:25-26 | a single character outside the class is kept |
| Text.ReplaceRunsConcat | tools/convert_notebook.py:25-26 | the substitution works run by run: on two texts not joined inside a class run, it is the substitution of each, concatenated |
| Text.ReplaceRunsNoop | tools/convert_notebook.py:26 | a text whose class characters are isolated copies of `r` is unchanged by the substitution (`-+` to `-` on single hyphens) |
| Text.FilterStrip | tools/convert_notebook.py:27 | stripping characters outside `q` keeps every `q`-character in order |
| Slug.Slugify | tools/convert_notebook.py:23-27 | the result is a slug (only `a-z0-9-`, no hyphen at either end, no `--`), and its letters and digits are exactly those of the lower-cased input, in order |
| Slug.SlugifyWords | tools/convert_notebook.py:23-27 | the slug is the words of the lower-cased input (its maximal `[a-z0-9]` runs, in order) joined by single hyphens, as in `"Step 1: Load Data"` to `"step-1-load-data"` |
| Slug.SlugifyIdempotent | tools/convert_notebook.py:23-27 | `slugify(slugify(s)) == slugify(s)` |
| Slug.SlugifyFixesSlugs | tools/convert_notebook.py:23-27 | every slug is its own `slugify` |
| Slug.SlugifyEmptyIff | tools/convert_notebook.py:24-27 | the slug is empty exactly when the input has no ASCII letter or digit |
| Cells.CellOf | tools/convert_notebook.py:56-57 | the kind is markdown or code exactly when `cell_type` says so; a missing `source` becomes the empty list |
| Cells.CellsOf | tools/convert_notebook.py:41 | a missing `cells` key gives no cells; otherwise each cell is defaulted in order |
| Cells.SourceLines | tools/convert_notebook.py:59 | `rstrip("\n")` on each entry: one line per source entry, each a prefix of its entry, the rest of the entry only newlines, and no line ending in a newline |
| Cells.BlankIff | tools/convert_notebook.py:63 | `IsBlank` (the `not ln.strip()` test): a line is blank exactly when all its characters are whitespace |
| Cells.FirstNonBlankIndex | tools/convert_notebook.py:63 | the position found has only blank lines before it and a non-blank line at it, or is the end when all lines are blank |
| Cells.FirstNonBlankAt | tools/convert_notebook.py:63 | `FirstNonBlank` is the line at any position that has only blank lines before it, and `""` when every line is blank |
| Cells.HeadingIff | tools/convert_notebook.py:64 | `IsHeading`: a line opens a section exactly when it begins with one to three `#` followed by a space |
| Cells.FourHashesNoHeading | tools/convert_notebook.py:64 | a line starting `####` opens no section |
| Cells.IndentedNoHeading | tools/convert_notebook.py:63-64 | a line starting with whitespace opens no section, since the test is made on the unstripped line |
| Cells.HeadingTitle | tools/convert_notebook.py:67 | the section title has no whitespace at either end |
| Cells.HeadingTitleIsRest | tools/convert_notebook.py:67 | the title is the heading line after its leading `#` run, with surrounding whitespace stripped |
| Cells.NonBlankLines | tools/convert_notebook.py:69 | only non-blank lines are kept; the result is empty exactly when every line is blank; it begins with the first non-blank line |
| Cells.NonBlankLinesSingle | tools/convert_notebook.py:69 | the `if ln.strip()` filter keeps one line exactly when it is not blank |
| Cells.NonBlankLinesConcat | tools/convert_notebook.py:69 | the filter works line by line: filtering two runs of lines is filtering each and concatenating, so every non-blank line is kept, in order |
| Cells.MarkdownContribution | tools/convert_notebook.py:61-75 | a markdown cell appends its lines, each behind `# ` (`Commented`), and then `""`. A heading cell appends exactly its non-blank lines, in order, starting with its heading line. Any other markdown cell appends every line, in order |
| Cells.Contribution | tools/convert_notebook.py:61-80 | a cell appends nothing exactly when it is neither markdown nor code, or is an empty code cell. Otherwise the last appended line is `""`. A non-empty code cell appends its lines verbatim before the `""`; a markdown cell appends what `MarkdownContribution` states |
| Cells.EffectOf | tools/convert_notebook.py:61-71 | a heading cell always appends at least one line, so the section it opens is never empty |
| Segment.HeadingIndices | tools/convert_notebook.py:64 | the positions of the heading cells: in increasing order, each holding a heading cell, and every heading cell among them |
| Segment.FoldInvariant | tools/convert_notebook.py:55-80 | after any prefix of the cells, the loop state satisfies four things. No finished section is empty. The finished sections plus the buffer hold exactly the contributed lines. The finished titles plus the current title (when the buffer is non-empty) are `main` (when a preamble exists) followed by the heading titles. Before the first heading, the state is still `main` with every line in the buffer |
| Segment.StepInvariant | tools/convert_notebook.py:61-80 | one iteration of the loop (`Step`) preserves that invariant |
| Segment.FlushAppends | tools/convert_notebook.py:49-53 | `flush_section` (`Flush`) keeps the earlier sections and the title unchanged, appends exactly `(title, buffer)` as one more section when the buffer is non-empty and nothing otherwise, and always leaves the buffer empty |
| Segment.FlushFacts | tools/convert_notebook.py:49-53 | in terms of the whole state: `Flush` adds the current title to the titles only when the buffer is non-empty, adds the buffer to the joined lines, keeps every section non-empty, and empties the buffer |
| Segment.FlushFinal | tools/convert_notebook.py:82 | after the final flush, the sections satisfy the invariant's promises with nothing left in the buffer |
| Segment.SectionsNonEmpty | tools/convert_notebook.py:49-53 | every emitted section has at least one line |
| Segment.SectionsKeepAllLines | tools/convert_notebook.py:55-82 | the sections' lines, concatenated in order, are exactly the lines the cells contributed |
| Segment.SectionTitles | tools/convert_notebook.py:47-67 | the titles are `main` (only when lines precede the first heading), then each heading cell's title, in order |
| Segment.SectionCount | tools/convert_notebook.py:64-82 | the number of sections is the number of heading cells, plus one when lines precede the first heading |
| Segment.MainSection | tools/convert_notebook.py:47-82 | when lines precede the first heading, the first section is `main` holding exactly those lines |
| Segment.SectionLines | tools/convert_notebook.py:47-82 | which lines each section holds: `main` holds the preamble, and the section the `j`-th heading cell opens is titled by it and holds the lines of the cells from it up to the next heading cell, or the end |
| Segment.SectionContents | tools/convert_notebook.py:55-82 | the same, for the sections `Sections` computes from the notebook's cells |
| Segment.NoHeadingOneSection | tools/convert_notebook.py:47-82 | without heading cells there is no section (no lines) or one `main` section holding every line |
| Output.Decimal | tools/convert_notebook.py:98 | the decimal numeral of `n` is digits only, has no leading zero, and reads back as `n` |
| Output.Pad2 | tools/convert_notebook.py:98 | `f"{n:02d}"` is at least two digits (exactly two below 100), has no leading zero when longer than two, and reads back as `n` |
| Output.LinesOfBody | tools/convert_notebook.py:93-94 | reading the written text back line by line gives the section's lines, when no line holds a newline |
| Output.LinesOfBodies | tools/convert_notebook.py:88-94 | when no line holds a newline, two written blocks of lines read back as the first block's lines followed by the second's |
| Output.CombinedBodyLines | tools/convert_notebook.py:90-94 | the combined body is the written form of each section's banner lines (none for an empty title or `main`) followed by its lines |
| Output.CombinedTextLines | tools/convert_notebook.py:86-94 | when no title or line holds a newline, `CombinedText` read back line by line is the header, the run command and a blank line, then each section's banner lines and lines, in order |
| Output.MainOnlyFile | tools/convert_notebook.py:85-95 | no section, or one `main` section, is written as the combined head followed by that section's lines |
| Output.CombinedBodyNoBanner | tools/convert_notebook.py:90-94 | when no section needs a `# Section:` banner, the combined body is every section's lines in order |
| Output.SlugOrIndex | tools/convert_notebook.py:98 | the name part `slugify(title) or f"{i:02d}"` is never empty |
| Output.NameIndexOfFileName | tools/convert_notebook.py:99 | the index can be read back from a step file name (`FileName`), whatever the slug |
| Output.FileNamesDistinct | tools/convert_notebook.py:97-99 | different indices give different file names, whatever the slugs |
| Output.StepFileNamesDistinct | tools/convert_notebook.py:97-107 | the step files have pairwise different names |
| Output.StepTextLines | tools/convert_notebook.py:101-106 | when neither the name, the title nor any line holds a newline, `StepText` read back line by line is the header, `# Section: ` and the title, the run command naming the file, a blank line, then the section's lines |
| Output.OutputFilesShape | tools/convert_notebook.py:85-107 | `OutputFiles`: at most one section gives exactly the combined file `colab_converted.py`. More sections give one step file per section, in order, numbered from 1 and named from the title's slug, with pairwise different names |
| Convert.FlushSection | tools/convert_notebook.py:49-53 | the method does what `Flush` describes and empties the buffer |
| Convert.WriteLines | tools/convert_notebook.py:93-94 | writing each line plus `"\n"` extends the text by `Body(lines)` |
| Convert.AddCell | tools/convert_notebook.py:55-80 | one iteration of the imperative loop body gives the state `Step` describes for that cell |
| Convert.WriteCombined | tools/convert_notebook.py:86-95 | the text written is the combined file's text |
| Convert.WriteSteps | tools/convert_notebook.py:96-107 | the files written are the step files, in order |
| Convert.Convert | tools/convert_notebook.py:39-109 | `convert` writes exactly the files `OutputFiles(Sections(cells))` describes |
| Convert.NoHeadingsOneFile | tools/convert_notebook.py:85-95 | a notebook without heading cells gives only `colab_converted.py`: the two header lines, then every contributed line |
| Convert.MissingCellsHeadOnly | tools/convert_notebook.py:41 | a notebook without `cells` gives `colab_converted.py` holding only its header |
| Convert.HeadingsSplitFiles | tools/convert_notebook.py:96-107 | two or more heading cells give one step file per heading cell, plus one for a preamble, in order and with pairwise different names |

## Left out

- `main`, `load_notebook` and `ensure_dirs` (tools/convert_notebook.py:30-36, 112-130): argument handling, printed messages, exit codes, JSON parsing and directory creation. The model starts from a notebook already parsed into `RawNotebook`.
- The `open`/`write` calls: files are returned as `OutputFile(name, text)` values. A name is the file name inside `scripts`; joining it onto `out_base` as a `Path` is not modelled.
- `run_step.py` is not part of this model: it only parses arguments and runs a file with `runpy`.
- Unicode: `lower()`, `strip()` and `\s` are modelled on ASCII only. Any non-ASCII character counts as neither whitespace nor a letter, and `lower()` leaves it unchanged. Python differs for characters such as `É` or the Kelvin sign.
- JSON shapes the code does not expect are not modelled. These include a `source` given as one string (Python would iterate its characters), non-string lines, and a non-list `cells`.
- Convert.Convert: the loop body, the combined-file writer and the step-file writer are separate methods (`AddCell`, `WriteCombined`, `WriteSteps`) rather than one method body, so each proof stays small.
