/** Section segmentation: the converter's walk over the cells, written as a
    fold of a per-cell step over an explicit state (the sections flushed so
    far, the current title and the current line buffer), and what that walk
    promises about the sections it produces. */
module Segment {
  import opened Text
  import opened Cells

  /** A finished section: its title and its lines. */
  datatype Section = Section(title: string, lines: seq<string>)

  /** The walk's state: `sections`, `current_title`, `current_lines`. */
  datatype State = State(sections: seq<Section>, title: string, buffer: seq<string>)

  /** The title of everything before the first heading. */
  const MainTitle := "main"

  const Initial := State([], MainTitle, [])

  /** `flush_section`: a non-empty buffer becomes a section under the current
      title and the buffer starts over; an empty buffer is left alone. */
  function Flush(st: State): State {
    if st.buffer != [] then State(st.sections + [Section(st.title, st.buffer)], st.title, [])
    else st
  }

  /** One iteration of the loop over the cells, given what the cell does. */
  function Step(st: State, e: Effect): State {
    if e.heading.Some? then
      var flushed := Flush(st);
      State(flushed.sections, e.heading.value, flushed.buffer + e.lines)
    else
      State(st.sections, st.title, st.buffer + e.lines)
  }

  /** The state after the loop has seen cells with effects `es`. */
  function Fold(es: seq<Effect>): State {
    if es == [] then Initial else Step(Fold(es[..|es| - 1]), es[|es| - 1])
  }

  /** The sections of a notebook: the loop, then the final flush. */
  function Sections(cells: seq<Cell>): seq<Section> {
    Flush(Fold(Effects(cells))).sections
  }

  /** What every cell's effect satisfies: a heading always brings lines. */
  predicate WellFormed(es: seq<Effect>) {
    forall i :: 0 <= i < |es| ==> es[i].heading.Some? ==> es[i].lines != []
  }

  // ----- Reference quantities the sections are described by -----

  /** Every line the cells contribute, in order. */
  function AllLines(es: seq<Effect>): seq<string> {
    if es == [] then [] else AllLines(es[..|es| - 1]) + es[|es| - 1].lines
  }

  /** The titles of the heading cells, in order. */
  function HeadingTitles(es: seq<Effect>): seq<string> {
    if es == [] then []
    else
      var last := es[|es| - 1];
      HeadingTitles(es[..|es| - 1]) + if last.heading.Some? then [last.heading.value] else []
  }

  /** The position of the first heading cell, or `|es|` if there is none. */
  function FirstHeadingIndex(es: seq<Effect>): (k: nat)
    ensures k <= |es|
    ensures forall j :: 0 <= j < k ==> es[j].heading.None?
    ensures k < |es| ==> es[k].heading.Some?
  {
    if es == [] || es[0].heading.Some? then 0 else 1 + FirstHeadingIndex(es[1..])
  }

  /** The lines contributed before the first heading. */
  function Preamble(es: seq<Effect>): seq<string> {
    AllLines(es[..FirstHeadingIndex(es)])
  }

  function Titles(sections: seq<Section>): seq<string> {
    seq(|sections|, i requires 0 <= i < |sections| => sections[i].title)
  }

  /** The lines of all sections, one section after another. */
  function Flatten(sections: seq<Section>): seq<string> {
    if sections == [] then [] else Flatten(sections[..|sections| - 1]) + sections[|sections| - 1].lines
  }

  predicate NoEmptySection(sections: seq<Section>) {
    forall i :: 0 <= i < |sections| ==> sections[i].lines != []
  }

  /** The positions of the heading cells, in increasing order. */
  function HeadingIndices(es: seq<Effect>): (hs: seq<nat>)
    ensures forall j :: 0 <= j < |hs| ==> hs[j] < |es| && es[hs[j]].heading.Some?
    ensures forall j, k :: 0 <= j < k < |hs| ==> hs[j] < hs[k]
    ensures forall i :: 0 <= i < |es| && es[i].heading.Some? ==> i in hs
  {
    if es == [] then []
    else
      var init := es[..|es| - 1];
      var hs := HeadingIndices(init);
      assert forall i :: 0 <= i < |init| ==> init[i] == es[i];
      hs + if es[|es| - 1].heading.Some? then [|es| - 1] else []
  }

  /** Where the section opened by the `j`-th heading ends: at the next
      heading, or at the end of the notebook. */
  function SectionEnd(es: seq<Effect>, j: nat): nat {
    var hs := HeadingIndices(es);
    if j + 1 < |hs| then hs[j + 1] else |es|
  }

  // ----- Facts about the reference quantities -----

  /** How the first heading's position moves when one cell is appended. */
  lemma {:induction false} FirstHeadingIndexStep(init: seq<Effect>, e: Effect)
    ensures FirstHeadingIndex(init + [e]) ==
      if FirstHeadingIndex(init) < |init| then FirstHeadingIndex(init)
      else if e.heading.Some? then |init|
      else |init| + 1
  {
    var es := init + [e];
    var k := FirstHeadingIndex(init);
    var want := if k < |init| then k else if e.heading.Some? then |init| else |init| + 1;
    forall j | 0 <= j < want ensures es[j].heading.None? {
      assert es[j] == if j < |init| then init[j] else e;
    }
    if want < |es| {
      assert es[want] == if want < |init| then init[want] else e;
    }
  }

  lemma {:induction false} HeadingTitlesEmptyIff(es: seq<Effect>)
    ensures HeadingTitles(es) == [] <==> FirstHeadingIndex(es) == |es|
  {
    if es != [] {
      var init := es[..|es| - 1];
      HeadingTitlesEmptyIff(init);
      FirstHeadingIndexStep(init, es[|es| - 1]);
      assert init + [es[|es| - 1]] == es;
    }
  }

  /** Extending the cells by one leaves the preamble alone once a heading has
      been seen, and extends it otherwise unless the new cell is a heading. */
  lemma {:induction false} PreambleStep(init: seq<Effect>, e: Effect)
    ensures Preamble(init + [e]) ==
      if FirstHeadingIndex(init) < |init| || e.heading.Some? then Preamble(init)
      else Preamble(init) + e.lines
  {
    var es := init + [e];
    var k := FirstHeadingIndex(init);
    FirstHeadingIndexStep(init, e);
    assert es[..|init|] == init;
    assert init[..|init|] == init;
    if k < |init| {
      assert es[..k] == init[..k];
    } else if e.heading.None? {
      assert es[..|es|] == es;
      assert AllLines(es) == AllLines(init) + e.lines;
    }
  }

  lemma HeadingIndicesStep(init: seq<Effect>, e: Effect)
    ensures HeadingIndices(init + [e]) == HeadingIndices(init) + if e.heading.Some? then [|init|] else []
  {
    assert (init + [e])[..|init|] == init;
  }

  /** The `j`-th heading title is the title of the cell at the `j`-th
      heading position. */
  lemma {:induction false} HeadingIndicesTitles(es: seq<Effect>)
    ensures |HeadingIndices(es)| == |HeadingTitles(es)|
    ensures forall j :: 0 <= j < |HeadingIndices(es)| ==>
      HeadingTitles(es)[j] == es[HeadingIndices(es)[j]].heading.value
  {
    if es != [] {
      var init, e := es[..|es| - 1], es[|es| - 1];
      assert init + [e] == es;
      HeadingIndicesTitles(init);
      HeadingIndicesStep(init, e);
      var hs := HeadingIndices(init);
      assert forall j :: 0 <= j < |hs| ==> es[hs[j]] == init[hs[j]];
    }
  }

  /** The first heading position is the first entry of `HeadingIndices`. */
  lemma FirstHeadingAt(es: seq<Effect>)
    ensures var hs := HeadingIndices(es);
      && (hs == [] <==> FirstHeadingIndex(es) == |es|)
      && (hs != [] ==> hs[0] == FirstHeadingIndex(es))
  {
    var hs := HeadingIndices(es);
    var k := FirstHeadingIndex(es);
    if k < |es| {
      assert k in hs;
    }
    if hs != [] {
      assert es[hs[0]].heading.Some?;
    }
  }

  /** The lines of two runs of cells, one after the other. */
  lemma {:induction false} AllLinesConcat(x: seq<Effect>, y: seq<Effect>)
    ensures AllLines(x + y) == AllLines(x) + AllLines(y)
    decreases |y|
  {
    if y == [] {
      assert x + y == x;
    } else {
      var init, e := y[..|y| - 1], y[|y| - 1];
      assert (x + y)[..|x + y| - 1] == x + init;
      AllLinesConcat(x, init);
      AppendAssoc(AllLines(x), AllLines(init), e.lines);
    }
  }

  // ----- What the walk keeps true -----

  /** The loop invariant of the walk, stated about the fold. */
  predicate Invariant(es: seq<Effect>, st: State) {
    && NoEmptySection(st.sections)
    && Flatten(st.sections) + st.buffer == AllLines(es)
    && Titles(st.sections) + (if st.buffer != [] then [st.title] else [])
       == (if Preamble(es) != [] then [MainTitle] else []) + HeadingTitles(es)
    && (FirstHeadingIndex(es) == |es| ==>
          st.sections == [] && st.title == MainTitle && st.buffer == AllLines(es))
    && (FirstHeadingIndex(es) < |es| ==> st.buffer != [])
  }

  lemma {:induction false} FoldInvariant(es: seq<Effect>)
    requires WellFormed(es)
    ensures Invariant(es, Fold(es))
  {
    if es == [] {
      assert Preamble(es) == [];
    } else {
      var init, last := es[..|es| - 1], es[|es| - 1];
      assert WellFormed(init);
      FoldInvariant(init);
      StepInvariant(init, last);
      assert init + [last] == es;
    }
  }

  lemma {:induction false} StepInvariant(init: seq<Effect>, e: Effect)
    requires Invariant(init, Fold(init))
    requires e.heading.Some? ==> e.lines != []
    ensures Invariant(init + [e], Step(Fold(init), e))
  {
    var es := init + [e];
    assert es[..|es| - 1] == init;
    PreambleStep(init, e);
    HeadingTitlesEmptyIff(init);
    FirstHeadingIndexStep(init, e);
    if e.heading.Some? {
      HeadingStepInvariant(init, e);
    } else {
      PlainStepInvariant(init, e);
    }
  }

  lemma {:induction false} PlainStepInvariant(init: seq<Effect>, e: Effect)
    requires Invariant(init, Fold(init))
    requires e.heading.None?
    requires HeadingTitles(init) == [] <==> FirstHeadingIndex(init) == |init|
    requires FirstHeadingIndex(init + [e]) == if FirstHeadingIndex(init) < |init| then FirstHeadingIndex(init) else |init| + 1
    requires Preamble(init + [e]) == if FirstHeadingIndex(init) < |init| then Preamble(init) else Preamble(init) + e.lines
    ensures Invariant(init + [e], Step(Fold(init), e))
  {
    var es := init + [e];
    assert es[..|es| - 1] == init;
    var st := Fold(init);
    var st' := Step(st, e);
    assert st' == State(st.sections, st.title, st.buffer + e.lines);
    assert HeadingTitles(es) == HeadingTitles(init);
    assert AllLines(es) == AllLines(init) + e.lines;
    AppendAssoc(Flatten(st.sections), st.buffer, e.lines);
    assert init[..|init|] == init;
    assert FirstHeadingIndex(init) == |init| ==> Preamble(es) == AllLines(es);
  }

  lemma {:induction false} HeadingStepInvariant(init: seq<Effect>, e: Effect)
    requires Invariant(init, Fold(init))
    requires e.heading.Some? && e.lines != []
    requires Preamble(init + [e]) == Preamble(init)
    requires FirstHeadingIndex(init + [e]) < |init + [e]|
    ensures Invariant(init + [e], Step(Fold(init), e))
  {
    var es := init + [e];
    assert es[..|es| - 1] == init;
    var st := Fold(init);
    var flushed := Flush(st);
    var st' := Step(st, e);
    FlushFacts(st);
    assert st' == State(flushed.sections, e.heading.value, e.lines);
    assert HeadingTitles(es) == HeadingTitles(init) + [e.heading.value];
    assert AllLines(es) == AllLines(init) + e.lines;
    assert Flatten(st'.sections) + st'.buffer == Flatten(flushed.sections) + e.lines;
    var pre := if Preamble(init) != [] then [MainTitle] else [];
    AppendAssoc(pre, HeadingTitles(init), [e.heading.value]);
  }

  /** What `Flush` does: a non-empty buffer becomes one more section under
      the current title, after the earlier sections, which stay as they
      were; the title is kept and the buffer emptied. */
  lemma FlushAppends(st: State)
    ensures |Flush(st).sections| == |st.sections| + (if st.buffer != [] then 1 else 0)
    ensures Flush(st).sections[..|st.sections|] == st.sections
    ensures st.buffer != [] ==> Flush(st).sections[|st.sections|] == Section(st.title, st.buffer)
    ensures Flush(st).title == st.title
    ensures Flush(st).buffer == []
  {
  }

  /** What `Flush` does to the titles and lines of the sections. */
  lemma {:induction false} FlushFacts(st: State)
    ensures Titles(Flush(st).sections) == Titles(st.sections) + if st.buffer != [] then [st.title] else []
    ensures Flatten(Flush(st).sections) == Flatten(st.sections) + st.buffer
    ensures NoEmptySection(st.sections) ==> NoEmptySection(Flush(st).sections)
    ensures Flush(st).buffer == []
  {
    var secs := Flush(st).sections;
    if st.buffer != [] {
      assert secs[..|secs| - 1] == st.sections;
    }
  }

  /** The final flush completes the invariant: the buffer joins the sections. */
  lemma {:induction false} FlushFinal(es: seq<Effect>)
    requires WellFormed(es)
    ensures var secs := Flush(Fold(es)).sections;
      && NoEmptySection(secs)
      && Flatten(secs) == AllLines(es)
      && Titles(secs) == (if Preamble(es) != [] then [MainTitle] else []) + HeadingTitles(es)
      && (FirstHeadingIndex(es) == |es| ==>
            secs == if AllLines(es) == [] then [] else [Section(MainTitle, AllLines(es))])
  {
    FoldInvariant(es);
    FlushFacts(Fold(es));
  }

  /** 1 when lines precede the first heading (there is a `main` section),
      0 otherwise. */
  function Offset(es: seq<Effect>): nat {
    if Preamble(es) != [] then 1 else 0
  }

  /** Where the section the `j`-th heading opens starts: the sections before
      it hold exactly the lines of the cells before that heading. */
  predicate BoundaryAt(es: seq<Effect>, sections: seq<Section>, j: nat)
    requires j < |HeadingIndices(es)|
  {
    Offset(es) + j <= |sections| && Flatten(sections[..Offset(es) + j]) == AllLines(es[..HeadingIndices(es)[j]])
  }

  predicate Boundaries(es: seq<Effect>, sections: seq<Section>) {
    forall j :: 0 <= j < |HeadingIndices(es)| ==> BoundaryAt(es, sections, j)
  }

  lemma {:induction false} FoldBoundaries(es: seq<Effect>)
    requires WellFormed(es)
    ensures Boundaries(es, Fold(es).sections)
  {
    if es != [] {
      var init, e := es[..|es| - 1], es[|es| - 1];
      assert init + [e] == es;
      assert WellFormed(init);
      FoldBoundaries(init);
      var st := Fold(init);
      assert Fold(es) == Step(st, e);
      if e.heading.Some? {
        FoldInvariant(init);
        FlushedBeforeHeading(init, st);
        HeadingBoundaries(init, e, st);
      } else {
        PlainBoundaries(init, e, st);
      }
    }
  }

  /** A cell that is no heading moves no section boundary. */
  lemma PlainBoundaries(init: seq<Effect>, e: Effect, st: State)
    requires Boundaries(init, st.sections)
    requires e.heading.None?
    ensures Boundaries(init + [e], Step(st, e).sections)
  {
    var es := init + [e];
    var hs := HeadingIndices(init);
    assert Step(st, e).sections == st.sections;
    HeadingIndicesStep(init, e);
    assert HeadingIndices(es) == hs;
    if hs != [] {
      FirstHeadingAt(init);
      PreambleStep(init, e);
      assert Offset(es) == Offset(init);
      forall j | 0 <= j < |hs| ensures BoundaryAt(es, st.sections, j) {
        assert BoundaryAt(init, st.sections, j);
        assert es[..hs[j]] == init[..hs[j]];
      }
    }
  }

  /** A heading cell closes the open section at its own position. */
  lemma HeadingBoundaries(init: seq<Effect>, e: Effect, st: State)
    requires Boundaries(init, st.sections)
    requires Flatten(Flush(st).sections) == AllLines(init)
    requires |Flush(st).sections| == Offset(init) + |HeadingIndices(init)|
    requires e.heading.Some?
    ensures Boundaries(init + [e], Step(st, e).sections)
  {
    var es := init + [e];
    var n := |HeadingIndices(init)|;
    assert Step(st, e).sections == Flush(st).sections;
    HeadingIndicesStep(init, e);
    PreambleStep(init, e);
    forall j | 0 <= j < n + 1 ensures BoundaryAt(es, Flush(st).sections, j) {
      if j < n {
        EarlierBoundary(init, e, st, j);
      } else {
        NewBoundary(init, e, st);
      }
    }
  }

  lemma EarlierBoundary(init: seq<Effect>, e: Effect, st: State, j: nat)
    requires j < |HeadingIndices(init)| && BoundaryAt(init, st.sections, j)
    requires HeadingIndices(init + [e]) == HeadingIndices(init) + [|init|]
    requires Offset(init + [e]) == Offset(init)
    ensures BoundaryAt(init + [e], Flush(st).sections, j)
  {
    var es := init + [e];
    var k := Offset(init) + j;
    var h := HeadingIndices(init)[j];
    assert Flush(st).sections[..k] == st.sections[..k];
    assert es[..h] == init[..h];
  }

  lemma NewBoundary(init: seq<Effect>, e: Effect, st: State)
    requires Flatten(Flush(st).sections) == AllLines(init)
    requires |Flush(st).sections| == Offset(init) + |HeadingIndices(init)|
    requires HeadingIndices(init + [e]) == HeadingIndices(init) + [|init|]
    requires Offset(init + [e]) == Offset(init)
    ensures BoundaryAt(init + [e], Flush(st).sections, |HeadingIndices(init)|)
  {
    var secs := Flush(st).sections;
    var es := init + [e];
    var n := |HeadingIndices(init)|;
    assert HeadingIndices(es)[n] == |init|;
    assert Offset(es) + n == |secs|;
    assert secs[..|secs|] == secs;
    assert es[..|init|] == init;
  }

  /** What the invariant says about the state a heading cell flushes. */
  lemma FlushedBeforeHeading(init: seq<Effect>, st: State)
    requires Invariant(init, st)
    ensures Flatten(Flush(st).sections) == AllLines(init)
    ensures |Flush(st).sections| == Offset(init) + |HeadingIndices(init)|
  {
    var secs := Flush(st).sections;
    FlushFacts(st);
    HeadingIndicesTitles(init);
    assert |Titles(secs)| == |secs| && |Titles(st.sections)| == |st.sections|;
  }

  /** The final flush moves no boundary. */
  lemma FlushBoundaries(es: seq<Effect>, st: State)
    requires Boundaries(es, st.sections)
    ensures Boundaries(es, Flush(st).sections)
  {
    var secs := Flush(st).sections;
    forall j | 0 <= j < |HeadingIndices(es)| ensures BoundaryAt(es, secs, j) {
      assert BoundaryAt(es, st.sections, j);
      assert secs[..Offset(es) + j] == st.sections[..Offset(es) + j];
    }
  }

  /** The lines of the section the `j`-th heading opens lie between that
      heading and the next one. */
  lemma SectionAt(es: seq<Effect>, secs: seq<Section>, j: nat)
    requires Boundaries(es, secs)
    requires |secs| == Offset(es) + |HeadingIndices(es)|
    requires Flatten(secs) == AllLines(es)
    requires j < |HeadingIndices(es)|
    ensures secs[Offset(es) + j].lines == AllLines(es[HeadingIndices(es)[j]..SectionEnd(es, j)])
  {
    var hs := HeadingIndices(es);
    var k := Offset(es) + j;
    var a, b := hs[j], SectionEnd(es, j);
    var before, upto := secs[..k], secs[..k + 1];
    assert Flatten(upto) == AllLines(es[..b]) by {
      if j + 1 < |hs| {
        assert BoundaryAt(es, secs, j + 1);
      } else {
        assert upto == secs;
        assert es[..b] == es;
      }
    }
    assert Flatten(before) == AllLines(es[..a]) by {
      assert BoundaryAt(es, secs, j);
    }
    FlattenSnoc(secs, k);
    assert AllLines(es[..b]) == AllLines(es[..a]) + AllLines(es[a..b]) by {
      assert es[..a] + es[a..b] == es[..b];
      AllLinesConcat(es[..a], es[a..b]);
    }
    var x, y := secs[k].lines, AllLines(es[a..b]);
    assert Flatten(before) + x == Flatten(before) + y;
    assert (Flatten(before) + x)[|Flatten(before)|..] == x;
  }

  lemma FlattenSnoc(secs: seq<Section>, k: nat)
    requires k < |secs|
    ensures Flatten(secs[..k + 1]) == Flatten(secs[..k]) + secs[k].lines
  {
    assert secs[..k + 1][..k] == secs[..k];
  }

  /** The main section holds the preamble. */
  lemma MainSection(es: seq<Effect>)
    requires WellFormed(es)
    requires Preamble(es) != []
    ensures |Flush(Fold(es)).sections| > 0
    ensures Flush(Fold(es)).sections[0] == Section(MainTitle, Preamble(es))
  {
    var secs := Flush(Fold(es)).sections;
    var hs := HeadingIndices(es);
    FlushFinal(es);
    FirstHeadingAt(es);
    assert Titles(secs)[0] == MainTitle;
    if hs == [] {
      assert es[..|es|] == es;
    } else {
      FoldBoundaries(es);
      FlushBoundaries(es, Fold(es));
      assert BoundaryAt(es, secs, 0);
      FlattenSnoc(secs, 0);
    }
  }

  /** Which lines each section holds: the main section holds the preamble,
      and the section the `j`-th heading opens holds the lines of the cells
      from that heading up to the next heading (or the end). */
  lemma SectionLines(es: seq<Effect>)
    requires WellFormed(es)
    ensures var secs := Flush(Fold(es)).sections;
      var hs := HeadingIndices(es);
      && |secs| == Offset(es) + |hs|
      && (Preamble(es) != [] ==> secs[0] == Section(MainTitle, Preamble(es)))
      && forall j :: 0 <= j < |hs| ==>
           secs[Offset(es) + j] == Section(es[hs[j]].heading.value, AllLines(es[hs[j]..SectionEnd(es, j)]))
  {
    var secs := Flush(Fold(es)).sections;
    var hs := HeadingIndices(es);
    FlushFinal(es);
    HeadingIndicesTitles(es);
    assert |secs| == Offset(es) + |hs| by {
      assert |Titles(secs)| == |secs|;
    }
    if Preamble(es) != [] {
      MainSection(es);
    }
    FoldBoundaries(es);
    FlushBoundaries(es, Fold(es));
    forall j | 0 <= j < |hs|
      ensures secs[Offset(es) + j] == Section(es[hs[j]].heading.value, AllLines(es[hs[j]..SectionEnd(es, j)]))
    {
      SectionTitled(es, secs, j);
    }
  }

  /** One heading's section, title and lines, from the boundaries and the
      titles of the finished sections. */
  lemma SectionTitled(es: seq<Effect>, secs: seq<Section>, j: nat)
    requires Boundaries(es, secs)
    requires |secs| == Offset(es) + |HeadingIndices(es)|
    requires Flatten(secs) == AllLines(es)
    requires Titles(secs) == (if Preamble(es) != [] then [MainTitle] else []) + HeadingTitles(es)
    requires j < |HeadingIndices(es)|
    ensures var hs := HeadingIndices(es);
      secs[Offset(es) + j] == Section(es[hs[j]].heading.value, AllLines(es[hs[j]..SectionEnd(es, j)]))
  {
    var k := Offset(es) + j;
    var pre := if Preamble(es) != [] then [MainTitle] else [];
    assert secs[k].title == HeadingTitles(es)[j] by {
      assert |pre| == Offset(es);
      assert secs[k].title == Titles(secs)[k];
      assert (pre + HeadingTitles(es))[k] == HeadingTitles(es)[j];
    }
    HeadingIndicesTitles(es);
    SectionAt(es, secs, j);
  }

  lemma {:induction false} NoHeadingIndex(es: seq<Effect>)
    requires forall i :: 0 <= i < |es| ==> es[i].heading.None?
    ensures FirstHeadingIndex(es) == |es|
  {
    if es != [] {
      NoHeadingIndex(es[1..]);
    }
  }

  lemma {:induction false} EffectsWellFormed(cells: seq<Cell>)
    ensures WellFormed(Effects(cells))
  {
  }

  // ----- The promises -----

  /** Every emitted section has at least one line. */
  lemma {:induction false} SectionsNonEmpty(cells: seq<Cell>)
    ensures NoEmptySection(Sections(cells))
  {
    EffectsWellFormed(cells);
    FlushFinal(Effects(cells));
  }

  /** The sections' lines, concatenated in order, are exactly the lines the
      cells contributed: nothing is lost, duplicated or reordered. */
  lemma {:induction false} SectionsKeepAllLines(cells: seq<Cell>)
    ensures Flatten(Sections(cells)) == AllLines(Effects(cells))
  {
    EffectsWellFormed(cells);
    FlushFinal(Effects(cells));
  }

  /** The titles are "main" (only when something precedes the first heading)
      followed by the heading titles in order. */
  lemma {:induction false} SectionTitles(cells: seq<Cell>)
    ensures var es := Effects(cells);
      Titles(Sections(cells)) == (if Preamble(es) != [] then [MainTitle] else []) + HeadingTitles(es)
  {
    EffectsWellFormed(cells);
    FlushFinal(Effects(cells));
  }

  /** One section per heading cell, plus one for lines before the first heading. */
  lemma {:induction false} SectionCount(cells: seq<Cell>)
    ensures var es := Effects(cells);
      |Sections(cells)| == |HeadingTitles(es)| + if Preamble(es) != [] then 1 else 0
  {
    SectionTitles(cells);
    assert |Titles(Sections(cells))| == |Sections(cells)|;
  }

  /** Without a heading cell there is at most one section, titled "main",
      holding every contributed line. */
  lemma {:induction false} NoHeadingOneSection(cells: seq<Cell>)
    requires forall i :: 0 <= i < |cells| ==> !IsHeadingCell(cells[i])
    ensures var all := AllLines(Effects(cells));
      Sections(cells) == if all == [] then [] else [Section(MainTitle, all)]
  {
    var es := Effects(cells);
    EffectsWellFormed(cells);
    NoHeadingIndex(es);
    FlushFinal(es);
  }

  /** Which cells' lines each section holds: a `main` section (when lines
      precede the first heading) holds exactly those lines, and the section
      of the `j`-th heading cell is titled by it and holds the lines of the
      cells from it up to the next heading cell, or to the end. */
  lemma {:induction false} SectionContents(cells: seq<Cell>)
    ensures var es := Effects(cells);
      var secs := Sections(cells);
      var hs := HeadingIndices(es);
      && |secs| == Offset(es) + |hs|
      && (Preamble(es) != [] ==> secs[0] == Section(MainTitle, Preamble(es)))
      && forall j :: 0 <= j < |hs| ==>
           secs[Offset(es) + j] == Section(es[hs[j]].heading.value, AllLines(es[hs[j]..SectionEnd(es, j)]))
  {
    EffectsWellFormed(cells);
    SectionLines(Effects(cells));
  }
}
