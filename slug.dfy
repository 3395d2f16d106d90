/** The converter's `slugify`: strip, lower-case, turn every run of
    characters outside [a-z0-9] into one hyphen, collapse hyphen runs and
    trim hyphens from both ends. */
module Slug {
  import opened Text

  /** A slug: only [a-z0-9-], no hyphen at either end, no two hyphens in a row. */
  predicate IsSlug(t: string) {
    && (forall i :: 0 <= i < |t| ==> IsLowerAlnum(t[i]) || t[i] == '-')
    && (t != [] ==> t[0] != '-' && t[|t| - 1] != '-')
    && NoAdjacent(t, IsHyphen)
  }

  /** `slugify(s)`, one stage per statement of Python's `slugify`. */
  function Slugify(s: string): (slug: string)
    ensures IsSlug(slug)
    ensures Filter(slug, IsLowerAlnum) == Filter(Lower(s), IsLowerAlnum)
  {
    var lowered := Lower(Strip(s, IsSpace));
    var dashed := ReplaceRuns(lowered, IsNotLowerAlnum, '-');
    var collapsed := ReplaceRuns(dashed, IsHyphen, '-');
    SlugStagesFacts(s, lowered, dashed, collapsed);
    Strip(collapsed, IsHyphen)
  }

  /** The facts about each stage of `Slugify` that its contract rests on. */
  lemma SlugStagesFacts(s: string, lowered: string, dashed: string, collapsed: string)
    requires lowered == Lower(Strip(s, IsSpace))
    requires dashed == ReplaceRuns(lowered, IsNotLowerAlnum, '-')
    requires collapsed == ReplaceRuns(dashed, IsHyphen, '-')
    ensures IsSlug(Strip(collapsed, IsHyphen))
    ensures Filter(Strip(collapsed, IsHyphen), IsLowerAlnum) == Filter(Lower(s), IsLowerAlnum)
  {
    // The first substitution leaves only [a-z0-9] and single hyphens, so
    // collapsing hyphen runs changes nothing.
    DashedShape(lowered);
    ReplaceRunsNoop(dashed, IsHyphen, '-');
    TrimmedIsSlug(collapsed);
    // The letters and digits survive every stage.
    LowerStripFilter(s);
    ReplaceRunsFilter(lowered, IsNotLowerAlnum, '-', IsLowerAlnum);
    FilterStrip(collapsed, IsHyphen, IsLowerAlnum);
  }

  /** After the first substitution only [a-z0-9] and isolated hyphens remain. */
  lemma DashedShape(lowered: string)
    ensures var dashed := ReplaceRuns(lowered, IsNotLowerAlnum, '-');
      && (forall i :: 0 <= i < |dashed| ==> IsLowerAlnum(dashed[i]) || dashed[i] == '-')
      && NoAdjacent(dashed, IsHyphen)
  {
    var dashed := ReplaceRuns(lowered, IsNotLowerAlnum, '-');
    ReplaceRunsShape(lowered, IsNotLowerAlnum, '-');
    forall i | 0 <= i < |dashed| - 1 ensures !(IsHyphen(dashed[i]) && IsHyphen(dashed[i + 1])) {
      assert !(IsNotLowerAlnum(dashed[i]) && IsNotLowerAlnum(dashed[i + 1]));
    }
  }

  /** Trimming the hyphens off such a text leaves a slug. */
  lemma TrimmedIsSlug(t: string)
    requires forall i :: 0 <= i < |t| ==> IsLowerAlnum(t[i]) || t[i] == '-'
    requires NoAdjacent(t, IsHyphen)
    ensures IsSlug(Strip(t, IsHyphen))
  {
    var a, b := StripBounds(t, IsHyphen);
    var slug := Strip(t, IsHyphen);
    forall i | 0 <= i < |slug| ensures IsLowerAlnum(slug[i]) || slug[i] == '-' {
      assert slug[i] == t[a + i];
    }
    forall i | 0 <= i < |slug| - 1 ensures !(IsHyphen(slug[i]) && IsHyphen(slug[i + 1])) {
      assert slug[i] == t[a + i] && slug[i + 1] == t[a + i + 1];
    }
  }

  /** Stripping whitespace before lower-casing loses no letter or digit. */
  lemma LowerStripFilter(s: string)
    ensures Filter(Lower(Strip(s, IsSpace)), IsLowerAlnum) == Filter(Lower(s), IsLowerAlnum)
  {
    var a, b := StripBounds(s, IsSpace);
    var low := Lower(s);
    assert Lower(s[a..b]) == low[a..b];
    FilterSlice(low, a, b, IsLowerAlnum);
  }

  /** A slug is its own slug. */
  lemma SlugifyFixesSlugs(t: string)
    requires IsSlug(t)
    ensures Slugify(t) == t
  {
    StripNoop(t, IsSpace);
    SlugIsLower(t);
    SlugRunsAreSingle(t);
    ReplaceRunsNoop(t, IsNotLowerAlnum, '-');
    ReplaceRunsNoop(t, IsHyphen, '-');
    StripNoop(t, IsHyphen);
  }

  lemma SlugIsLower(t: string)
    requires IsSlug(t)
    ensures Lower(t) == t
  {
    forall i | 0 <= i < |t| ensures Lower(t)[i] == t[i] {
      assert !IsUpper(t[i]);
    }
  }

  /** In a slug every character outside [a-z0-9] is a lone hyphen. */
  lemma SlugRunsAreSingle(t: string)
    requires IsSlug(t)
    ensures NoAdjacent(t, IsNotLowerAlnum)
    ensures forall i :: 0 <= i < |t| ==> IsNotLowerAlnum(t[i]) ==> t[i] == '-'
  {
    forall i | 0 <= i < |t| - 1 ensures !(IsNotLowerAlnum(t[i]) && IsNotLowerAlnum(t[i + 1])) {
      assert !(IsHyphen(t[i]) && IsHyphen(t[i + 1]));
    }
  }

  /** `slugify(slugify(s)) == slugify(s)`. */
  lemma SlugifyIdempotent(s: string)
    ensures Slugify(Slugify(s)) == Slugify(s)
  {
    SlugifyFixesSlugs(Slugify(s));
  }

  /** The slug is empty exactly when `s` has no ASCII letter or digit. */
  lemma SlugifyEmptyIff(s: string)
    ensures Slugify(s) == [] <==> forall i :: 0 <= i < |s| ==> !IsAsciiAlnum(s[i])
  {
    SlugEmptyIff(Slugify(s));
    LowerHasNoAlnumIff(s);
  }

  /** A slug is empty exactly when it holds no letter or digit. */
  lemma SlugEmptyIff(t: string)
    requires IsSlug(t)
    ensures t == [] <==> Filter(t, IsLowerAlnum) == []
  {
    FilterEmptyIff(t, IsLowerAlnum);
    assert t != [] ==> IsLowerAlnum(t[0]);
  }

  /** Lower-casing leaves no letter or digit exactly when there was none. */
  lemma LowerHasNoAlnumIff(s: string)
    ensures Filter(Lower(s), IsLowerAlnum) == [] <==> forall i :: 0 <= i < |s| ==> !IsAsciiAlnum(s[i])
  {
    var low := Lower(s);
    FilterEmptyIff(low, IsLowerAlnum);
    assert forall i :: 0 <= i < |s| ==> (IsLowerAlnum(low[i]) <==> IsAsciiAlnum(s[i]));
  }

  /** The maximal runs of [a-z0-9] in `t`, in order: the words a slug is
      made of. Each run of other characters only separates words. */
  function Words(t: string): (ws: seq<string>)
    decreases |t|
  {
    if t == [] then []
    else if !IsLowerAlnum(t[0]) then Words(TrimStart(t, IsNotLowerAlnum))
    else
      var n := LeadingCount(t, IsLowerAlnum);
      [t[..n]] + Words(t[n..])
  }

  /** The words joined with single hyphens. */
  function JoinHyphen(ws: seq<string>): string {
    if ws == [] then []
    else if |ws| == 1 then ws[0]
    else ws[0] + "-" + JoinHyphen(ws[1..])
  }

  /** The slug of `s` is the words of the lower-cased `s` joined by single
      hyphens: every run of characters outside [a-z0-9] between two words
      becomes exactly one hyphen, and runs at either end disappear. */
  lemma SlugifyWords(s: string)
    ensures Slugify(s) == JoinHyphen(Words(Lower(s)))
  {
    var lowered := Lower(Strip(s, IsSpace));
    var dashed := ReplaceRuns(lowered, IsNotLowerAlnum, '-');
    DashedShape(lowered);
    ReplaceRunsNoop(dashed, IsHyphen, '-');
    HyphenateWords(lowered);
    WordsOfStrip(s);
  }

  /** The first two stages of `Slugify` after lower-casing, with the hyphen
      collapse left out because it changes nothing. */
  function Hyphenate(t: string): string {
    Strip(ReplaceRuns(t, IsNotLowerAlnum, '-'), IsHyphen)
  }

  /** Replacing separator runs by hyphens and trimming hyphens joins the words. */
  lemma {:induction false} HyphenateWords(t: string)
    ensures Hyphenate(t) == JoinHyphen(Words(t))
    decreases |t|
  {
    if t == [] {
    } else if !IsLowerAlnum(t[0]) {
      HyphenateWords(TrimStart(t, IsNotLowerAlnum));
      HyphenateSeparator(t);
    } else {
      var n := LeadingCount(t, IsLowerAlnum);
      var rest := TrimStart(t[n..], IsNotLowerAlnum);
      HyphenateWords(rest);
      HyphenateWord(t);
    }
  }

  /** A leading separator run adds only a hyphen that is trimmed away. */
  lemma HyphenateSeparator(t: string)
    requires t != [] && !IsLowerAlnum(t[0])
    requires var t' := TrimStart(t, IsNotLowerAlnum); Hyphenate(t') == JoinHyphen(Words(t'))
    ensures Hyphenate(t) == JoinHyphen(Words(t))
  {
    var t' := TrimStart(t, IsNotLowerAlnum);
    var x := ReplaceRuns(t', IsNotLowerAlnum, '-');
    assert ReplaceRuns(t, IsNotLowerAlnum, '-') == "-" + x;
    ReplaceRunsShape(t', IsNotLowerAlnum, '-');
    StripLeadingHyphen(x);
  }

  /** A leading word is kept, followed by one hyphen when another word follows. */
  lemma HyphenateWord(t: string)
    requires t != [] && IsLowerAlnum(t[0])
    requires var rest := TrimStart(t[LeadingCount(t, IsLowerAlnum)..], IsNotLowerAlnum);
      Hyphenate(rest) == JoinHyphen(Words(rest))
    ensures Hyphenate(t) == JoinHyphen(Words(t))
  {
    var n := LeadingCount(t, IsLowerAlnum);
    var w := t[..n];
    var rest := t[n..];
    LeadingWord(t);
    if rest == [] {
      assert Hyphenate(t) == w by {
        StripNoop(w, IsHyphen);
      }
      assert Words(t) == [w];
    } else {
      HyphenateBetween(w, rest);
    }
  }

  /** A leading word passes through the substitution unchanged and is the
      first word. */
  lemma LeadingWord(t: string)
    requires t != [] && IsLowerAlnum(t[0])
    ensures var n := LeadingCount(t, IsLowerAlnum);
      && ReplaceRuns(t, IsNotLowerAlnum, '-') == t[..n] + ReplaceRuns(t[n..], IsNotLowerAlnum, '-')
      && Words(t) == [t[..n]] + Words(t[n..])
  {
    var n := LeadingCount(t, IsLowerAlnum);
    var w := t[..n];
    var rest := t[n..];
    assert t == w + rest;
    ReplaceRunsConcat(w, rest, IsNotLowerAlnum, '-');
    ReplaceRunsNoop(w, IsNotLowerAlnum, '-');
  }

  /** `w` followed by a separator run and whatever comes after it. */
  lemma HyphenateBetween(w: string, rest: string)
    requires w != [] && forall i :: 0 <= i < |w| ==> IsLowerAlnum(w[i])
    requires rest != [] && !IsLowerAlnum(rest[0])
    requires var rest' := TrimStart(rest, IsNotLowerAlnum); Hyphenate(rest') == JoinHyphen(Words(rest'))
    ensures Strip(w + ReplaceRuns(rest, IsNotLowerAlnum, '-'), IsHyphen) == JoinHyphen([w] + Words(rest))
  {
    var rest' := TrimStart(rest, IsNotLowerAlnum);
    var x := ReplaceRuns(rest', IsNotLowerAlnum, '-');
    assert ReplaceRuns(rest, IsNotLowerAlnum, '-') == "-" + x;
    assert Words(rest) == Words(rest');
    AppendAssoc(w, "-", x);
    if rest' == [] {
      assert x == [];
      StripTrailingHyphen(w);
      assert [w] + Words(rest) == [w];
    } else {
      ReplaceRunsShape(rest', IsNotLowerAlnum, '-');
      StripJoin(w, x);
      var ws := Words(rest');
      assert ws != [];
      assert ([w] + ws)[1..] == ws;
    }
  }

  lemma StripLeadingHyphen(x: string)
    requires x == [] || x[0] != '-'
    ensures Strip("-" + x, IsHyphen) == Strip(x, IsHyphen)
  {
    LeadingCountUnique("-" + x, IsHyphen, 1);
    LeadingCountUnique(x, IsHyphen, 0);
    assert ("-" + x)[1..] == x;
  }

  lemma StripTrailingHyphen(w: string)
    requires w != [] && IsLowerAlnum(w[0]) && IsLowerAlnum(w[|w| - 1])
    ensures Strip(w + "-", IsHyphen) == w
  {
    var u := w + "-";
    LeadingCountUnique(u, IsHyphen, 0);
    TrailingCountUnique(u, IsHyphen, 1);
    assert u[..|u| - 1] == w;
  }

  /** Trimming hyphens off `w-x` trims only `x`'s end when `w` and `x` start
      with a non-hyphen. */
  lemma StripJoin(w: string, x: string)
    requires w != [] && w[0] != '-'
    requires x != [] && x[0] != '-'
    ensures Strip(w + "-" + x, IsHyphen) == w + "-" + Strip(x, IsHyphen)
  {
    var u := w + "-" + x;
    LeadingCountUnique(u, IsHyphen, 0);
    LeadingCountUnique(x, IsHyphen, 0);
    var m := TrailingCount(x, IsHyphen);
    forall i | |u| - m <= i < |u| ensures IsHyphen(u[i]) {
      assert u[i] == x[i - |w| - 1];
    }
    assert u[|u| - m - 1] == x[|x| - m - 1];
    TrailingCountUnique(u, IsHyphen, m);
    assert u[..|u| - m] == w + "-" + x[..|x| - m];
  }

  /** Whitespace stripped before lower-casing never held a word. */
  lemma WordsOfStrip(s: string)
    ensures Words(Lower(Strip(s, IsSpace))) == Words(Lower(s))
  {
    var a, b := StripBounds(s, IsSpace);
    LowerSlice(s, a, b);
    WordsOfSlice(Lower(s), a, b);
  }

  /** Lower-casing commutes with slicing, and lower-cased whitespace is
      still no letter or digit. */
  lemma LowerSlice(s: string, a: nat, b: nat)
    requires a <= b <= |s|
    ensures Lower(s[a..b]) == Lower(s)[a..b]
    ensures forall i :: 0 <= i < |s| && IsSpace(s[i]) ==> !IsLowerAlnum(Lower(s)[i])
  {
  }

  /** Cutting separators off both ends does not change the words. */
  lemma WordsOfSlice(t: string, a: nat, b: nat)
    requires a <= b <= |t|
    requires forall i :: 0 <= i < a ==> !IsLowerAlnum(t[i])
    requires forall i :: b <= i < |t| ==> !IsLowerAlnum(t[i])
    ensures Words(t[a..b]) == Words(t)
  {
    WordsDropPrefix(t, a);
    WordsDropTailAt(t, a, b);
  }

  lemma WordsDropTailAt(t: string, a: nat, b: nat)
    requires a <= b <= |t|
    requires forall i :: b <= i < |t| ==> !IsLowerAlnum(t[i])
    ensures Words(t[a..b]) == Words(t[a..])
  {
    var u := t[a..];
    assert u[..b - a] == t[a..b];
    assert forall i :: b - a <= i < |u| ==> u[i] == t[a + i];
    WordsDropTail(u, b - a);
  }

  lemma WordsDropPrefix(t: string, a: nat)
    requires a <= |t|
    requires forall i :: 0 <= i < a ==> !IsLowerAlnum(t[i])
    ensures Words(t[a..]) == Words(t)
  {
    assert t == t[..a] + t[a..];
    WordsSkipPrefix(t[..a], t[a..]);
  }

  lemma WordsDropTail(t: string, b: nat)
    requires b <= |t|
    requires forall i :: b <= i < |t| ==> !IsLowerAlnum(t[i])
    ensures Words(t[..b]) == Words(t)
  {
    assert t == t[..b] + t[b..];
    WordsDropSuffix(t[..b], t[b..]);
  }

  /** A text with no letter or digit has no words. */
  lemma WordsNone(u: string)
    requires forall i :: 0 <= i < |u| ==> !IsLowerAlnum(u[i])
    ensures Words(u) == []
  {
    if u != [] {
      LeadingCountUnique(u, IsNotLowerAlnum, |u|);
    }
  }

  lemma WordsTrimStart(v: string)
    ensures Words(TrimStart(v, IsNotLowerAlnum)) == Words(v)
  {
    if v != [] && IsLowerAlnum(v[0]) {
      LeadingCountUnique(v, IsNotLowerAlnum, 0);
    }
  }

  /** Leading separators do not change the words. */
  lemma WordsSkipPrefix(u: string, v: string)
    requires forall i :: 0 <= i < |u| ==> !IsLowerAlnum(u[i])
    ensures Words(u + v) == Words(v)
  {
    if u == [] {
      assert u + v == v;
    } else {
      var k := LeadingCount(v, IsNotLowerAlnum);
      LeadingCountUnique(u + v, IsNotLowerAlnum, |u| + k);
      assert (u + v)[|u| + k..] == v[k..];
      WordsTrimStart(v);
    }
  }

  /** Trailing separators do not change the words. */
  lemma {:induction false} WordsDropSuffix(v: string, u: string)
    requires forall i :: 0 <= i < |u| ==> !IsLowerAlnum(u[i])
    ensures Words(v + u) == Words(v)
    decreases |v|
  {
    if v == [] {
      assert v + u == u;
      WordsNone(u);
    } else if !IsLowerAlnum(v[0]) {
      var k := LeadingCount(v, IsNotLowerAlnum);
      if k == |v| {
        WordsNone(v);
        WordsNone(v + u);
      } else {
        LeadingCountUnique(v + u, IsNotLowerAlnum, k);
        assert (v + u)[k..] == v[k..] + u;
        WordsDropSuffix(v[k..], u);
      }
    } else {
      var n := LeadingCount(v, IsLowerAlnum);
      LeadingCountUnique(v + u, IsLowerAlnum, n);
      assert (v + u)[..n] == v[..n];
      assert (v + u)[n..] == v[n..] + u;
      WordsDropSuffix(v[n..], u);
    }
  }
}
