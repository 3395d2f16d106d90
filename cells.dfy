/** Notebook cells as the converter sees them: the defaulting of missing
    JSON keys, the per-line normalisation, heading detection and what each
    cell adds to the current section's line buffer. */
module Cells {
  import opened Text

  datatype Option<T> = None | Some(value: T)

  /** A cell as found in the notebook's JSON: either key may be missing. */
  datatype RawCell = RawCell(cellType: Option<string>, source: Option<seq<string>>)

  /** The notebook's JSON object: the `cells` key may be missing. */
  datatype RawNotebook = RawNotebook(cells: Option<seq<RawCell>>)

  datatype CellKind = Markdown | Code | OtherKind

  /** A cell after defaulting: its kind and its source lines. */
  datatype Cell = Cell(kind: CellKind, source: seq<string>)

  /** `cell.get("cell_type")` and `cell.get("source") or []`. */
  function CellOf(raw: RawCell): (c: Cell)
    ensures c.kind == Markdown <==> raw.cellType == Some("markdown")
    ensures c.kind == Code <==> raw.cellType == Some("code")
    ensures c.source == if raw.source.Some? then raw.source.value else []
  {
    var kind :=
      if raw.cellType == Some("markdown") then Markdown
      else if raw.cellType == Some("code") then Code
      else OtherKind;
    match raw.source
    case Some(lines) => Cell(kind, lines)
    case None => Cell(kind, [])
  }

  /** `nb.get("cells", [])`, each cell defaulted. */
  function CellsOf(nb: RawNotebook): (cells: seq<Cell>)
    ensures nb.cells.None? ==> cells == []
    ensures nb.cells.Some? ==>
      |cells| == |nb.cells.value| &&
      forall i :: 0 <= i < |cells| ==> cells[i] == CellOf(nb.cells.value[i])
  {
    match nb.cells
    case None => []
    case Some(raw) => seq(|raw|, i requires 0 <= i < |raw| => CellOf(raw[i]))
  }

  /** The cell's lines, each with its trailing newlines removed (`rstrip("\n")`). */
  function SourceLines(source: seq<string>): (lines: seq<string>)
    ensures |lines| == |source|
    ensures forall i :: 0 <= i < |lines| ==> |lines[i]| <= |source[i]| && lines[i] == source[i][..|lines[i]|]
    ensures forall i, j :: 0 <= i < |lines| && |lines[i]| <= j < |source[i]| ==> source[i][j] == '\n'
    ensures forall i :: 0 <= i < |lines| ==> lines[i] != [] ==> lines[i][|lines[i]| - 1] != '\n'
  {
    var lines := seq(|source|, i requires 0 <= i < |source| => TrimEnd(source[i], IsNewline));
    assert forall i :: 0 <= i < |source| ==> lines[i] == TrimEnd(source[i], IsNewline);
    forall i | 0 <= i < |source| {
      TrimEndBounds(source[i], IsNewline);
    }
    lines
  }

  /** `not line.strip()`. */
  predicate IsBlank(line: string) {
    Strip(line, IsSpace) == []
  }

  /** A line is blank exactly when it holds only whitespace. */
  lemma BlankIff(line: string)
    ensures IsBlank(line) <==> forall i :: 0 <= i < |line| ==> IsSpace(line[i])
  {
    StripEmptyIff(line, IsSpace);
  }

  /** The position of the first non-blank line, or `|lines|` if there is none. */
  function FirstNonBlankIndex(lines: seq<string>): (k: nat)
    ensures k <= |lines|
    ensures forall j :: 0 <= j < k ==> IsBlank(lines[j])
    ensures k < |lines| ==> !IsBlank(lines[k])
  {
    if lines == [] || !IsBlank(lines[0]) then 0
    else
      var rest := lines[1..];
      var k := FirstNonBlankIndex(rest);
      assert forall j :: 0 <= j < |rest| ==> rest[j] == lines[j + 1];
      1 + k
  }

  /** `next((ln for ln in lines if ln.strip()), "")`. */
  function FirstNonBlank(lines: seq<string>): string {
    var k := FirstNonBlankIndex(lines);
    if k < |lines| then lines[k] else ""
  }

  /** The first non-blank line is the line at any position with only blank
      lines before it, and `""` when every line is blank. */
  lemma FirstNonBlankAt(lines: seq<string>, k: nat)
    requires k <= |lines|
    requires forall j :: 0 <= j < k ==> IsBlank(lines[j])
    requires k < |lines| ==> !IsBlank(lines[k])
    ensures FirstNonBlank(lines) == if k < |lines| then lines[k] else ""
  {
    var m := FirstNonBlankIndex(lines);
    assert m <= k;
    assert k <= m;
  }

  /** The heading test, made on the unstripped line. */
  predicate IsHeading(line: string) {
    StartsWith(line, "# ") || StartsWith(line, "## ") || StartsWith(line, "### ")
  }

  /** The number of `#` characters the line begins with. */
  function HashCount(line: string): nat {
    LeadingCount(line, IsHash)
  }

  /** A line opens a section exactly when it begins with one to three `#`
      followed by a space. */
  lemma HeadingIff(line: string)
    ensures IsHeading(line) <==>
      var n := HashCount(line); 1 <= n <= 3 && n < |line| && line[n] == ' '
  {
    var n := HashCount(line);
    if 1 <= n <= 3 && n < |line| && line[n] == ' ' {
      var want := if n == 1 then "# " else if n == 2 then "## " else "### ";
      assert line[..n + 1] == want;
    }
    if StartsWith(line, "# ") {
      assert line[..2] == "# ";
      assert line[0] == '#' && line[1] == ' ';
    } else if StartsWith(line, "## ") {
      assert line[..3] == "## ";
      assert line[0] == '#' && line[1] == '#' && line[2] == ' ';
    } else if StartsWith(line, "### ") {
      assert line[..4] == "### ";
      assert line[0] == '#' && line[1] == '#' && line[2] == '#' && line[3] == ' ';
    }
  }

  /** `"#### x"` and deeper headings do not open a section. */
  lemma FourHashesNoHeading(line: string)
    requires StartsWith(line, "####")
    ensures !IsHeading(line)
  {
    assert line[..4] == "####";
    assert line[0] == '#' && line[1] == '#' && line[2] == '#' && line[3] == '#';
    HeadingIff(line);
  }

  /** An indented heading such as `"  # x"` does not open a section. */
  lemma IndentedNoHeading(line: string)
    requires line != [] && IsSpace(line[0])
    ensures !IsHeading(line)
  {
    HeadingIff(line);
  }

  /** `re.sub(r"^#+\s*", "", line).strip()`. */
  function HeadingTitle(line: string): (title: string)
    ensures title == [] || (!IsSpace(title[0]) && !IsSpace(title[|title| - 1]))
  {
    var rest := TrimStart(TrimStart(line, IsHash), IsSpace);
    Strip(rest, IsSpace)
  }

  /** The title is what follows the leading `#` characters, stripped of
      surrounding whitespace. */
  lemma HeadingTitleIsRest(line: string)
    ensures HeadingTitle(line) == Strip(line[HashCount(line)..], IsSpace)
  {
    var t := TrimStart(TrimStart(line, IsHash), IsSpace);
    TrimStartNoop(t, IsSpace);
  }

  /** `[ln for ln in lines if ln.strip()]`. */
  function NonBlankLines(lines: seq<string>): (r: seq<string>)
    ensures |r| <= |lines|
    ensures forall i :: 0 <= i < |r| ==> !IsBlank(r[i])
    ensures r == [] <==> FirstNonBlankIndex(lines) == |lines|
    ensures r != [] ==> r[0] == lines[FirstNonBlankIndex(lines)]
  {
    if lines == [] then []
    else if IsBlank(lines[0]) then NonBlankLines(lines[1..])
    else [lines[0]] + NonBlankLines(lines[1..])
  }

  /** Filtering a concatenation filters each part. */
  lemma {:induction false} NonBlankLinesConcat(a: seq<string>, b: seq<string>)
    ensures NonBlankLines(a + b) == NonBlankLines(a) + NonBlankLines(b)
  {
    if a == [] {
      assert a + b == b;
    } else {
      assert (a + b)[0] == a[0];
      assert (a + b)[1..] == a[1..] + b;
      NonBlankLinesConcat(a[1..], b);
    }
  }

  /** One line is kept exactly when it is not blank. */
  lemma NonBlankLinesSingle(line: string)
    ensures NonBlankLines([line]) == if IsBlank(line) then [] else [line]
  {
    assert [line][1..] == [];
  }

  /** Each line as a comment: `[f"# {ln}" for ln in lines]`. */
  function Commented(lines: seq<string>): seq<string> {
    seq(|lines|, i requires 0 <= i < |lines| => "# " + lines[i])
  }

  /** A markdown cell whose first non-blank line is a heading. */
  predicate IsHeadingCell(c: Cell) {
    c.kind == Markdown && IsHeading(FirstNonBlank(SourceLines(c.source)))
  }

  /** The section title a heading cell sets. */
  function CellTitle(c: Cell): string {
    HeadingTitle(FirstNonBlank(SourceLines(c.source)))
  }

  /** Every commented line begins with `# `. */
  lemma CommentedStartsWith(lines: seq<string>)
    ensures forall i :: 0 <= i < |lines| ==> StartsWith(Commented(lines)[i], "# ")
  {
    forall i | 0 <= i < |lines| ensures StartsWith(Commented(lines)[i], "# ") {
      assert ("# " + lines[i])[..2] == "# ";
    }
  }

  /** Dropping the `# ` of a commented line gives the line back. */
  lemma CommentedRest(lines: seq<string>)
    ensures forall i :: 0 <= i < |lines| ==>
      |Commented(lines)[i]| == |lines[i]| + 2 && Commented(lines)[i][2..] == lines[i]
  {
    forall i | 0 <= i < |lines| ensures |Commented(lines)[i]| == |lines[i]| + 2 && Commented(lines)[i][2..] == lines[i] {
      assert ("# " + lines[i])[2..] == lines[i];
    }
  }

  /** What a markdown cell with source lines `lines` appends. */
  function MarkdownContribution(lines: seq<string>): (r: seq<string>)
    ensures r != [] && r[|r| - 1] == ""
    ensures forall i :: 0 <= i < |r| - 1 ==> StartsWith(r[i], "# ")
    ensures !IsHeading(FirstNonBlank(lines)) ==> |r| == |lines| + 1
    ensures IsHeading(FirstNonBlank(lines)) ==> r[0] == "# " + FirstNonBlank(lines)
    ensures forall i :: 0 <= i < |r| - 1 ==> 2 <= |r[i]|
    ensures IsHeading(FirstNonBlank(lines)) ==> forall i :: 0 <= i < |r| - 1 ==> !IsBlank(r[i][2..])
    ensures !IsHeading(FirstNonBlank(lines)) ==> forall i :: 0 <= i < |lines| ==> r[i][2..] == lines[i]
    ensures IsHeading(FirstNonBlank(lines)) ==> |r| == |NonBlankLines(lines)| + 1
    ensures IsHeading(FirstNonBlank(lines)) ==>
      forall i :: 0 <= i < |r| - 1 ==> r[i][2..] == NonBlankLines(lines)[i]
  {
    if IsHeading(FirstNonBlank(lines)) then
      var kept := NonBlankLines(lines);
      CommentedStartsWith(kept);
      CommentedRest(kept);
      Commented(kept) + [""]
    else
      CommentedStartsWith(lines);
      CommentedRest(lines);
      Commented(lines) + [""]
  }

  /** The lines one cell appends to the current section's buffer. */
  function Contribution(c: Cell): (r: seq<string>)
    ensures r == [] <==> c.kind == OtherKind || (c.kind == Code && c.source == [])
    ensures r != [] ==> r[|r| - 1] == ""
    ensures c.kind == Markdown ==> forall i :: 0 <= i < |r| - 1 ==> StartsWith(r[i], "# ")
    ensures c.kind == Markdown && !IsHeadingCell(c) ==> |r| == |c.source| + 1
    ensures IsHeadingCell(c) ==> r[0] == "# " + FirstNonBlank(SourceLines(c.source))
    ensures c.kind == Code && c.source != [] ==> r[..|r| - 1] == SourceLines(c.source)
    ensures c.kind == Markdown ==> r == MarkdownContribution(SourceLines(c.source))
  {
    var lines := SourceLines(c.source);
    match c.kind
    case Markdown => MarkdownContribution(lines)
    case Code => if lines != [] then lines + [""] else []
    case OtherKind => []
  }

  /** What one cell does to the walk: the title it opens, if it is a
      heading cell, and the lines it appends. */
  datatype Effect = Effect(heading: Option<string>, lines: seq<string>)

  function EffectOf(c: Cell): (e: Effect)
    ensures e.heading.Some? ==> e.lines != []
  {
    Effect(if IsHeadingCell(c) then Some(CellTitle(c)) else None, Contribution(c))
  }

  function Effects(cells: seq<Cell>): (es: seq<Effect>)
    ensures |es| == |cells|
    ensures forall i :: 0 <= i < |cells| ==> es[i] == EffectOf(cells[i])
  {
    seq(|cells|, i requires 0 <= i < |cells| => EffectOf(cells[i]))
  }
}
