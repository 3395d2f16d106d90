/** ASCII text primitives used by the notebook converter: the character
    classes it tests, Python's strip/rstrip/lower on ASCII, and the
    "replace every run of a character class by one character" rewrite that
    its two `re.sub` calls perform. */
module Text {

  /** Python's `str.isspace()` on ASCII: space, \t \n \v \f \r and the
      separators 0x1C-0x1F. Also what the regex class `\s` matches. */
  predicate IsSpace(c: char) {
    c == ' ' || (9 <= c as int <= 13) || (28 <= c as int <= 31)
  }

  predicate IsNewline(c: char) { c == '\n' }
  predicate IsNotNewline(c: char) { c != '\n' }
  predicate IsHyphen(c: char) { c == '-' }
  predicate IsHash(c: char) { c == '#' }
  predicate IsUpper(c: char) { 'A' <= c <= 'Z' }
  predicate IsDigit(c: char) { '0' <= c <= '9' }

  /** The regex class `[a-z0-9]`. */
  predicate IsLowerAlnum(c: char) { 'a' <= c <= 'z' || IsDigit(c) }

  /** The regex class `[^a-z0-9]`. */
  predicate IsNotLowerAlnum(c: char) { !IsLowerAlnum(c) }

  /** An ASCII letter (either case) or digit. */
  predicate IsAsciiAlnum(c: char) { IsUpper(c) || IsLowerAlnum(c) }

  /** `str.lower()` on one ASCII character. */
  function LowerChar(c: char): (d: char)
    ensures IsLowerAlnum(d) <==> IsAsciiAlnum(c)
    ensures IsSpace(d) <==> IsSpace(c)
    ensures !IsUpper(c) ==> d == c
    ensures IsUpper(c) ==> d as int - 'a' as int == c as int - 'A' as int
  {
    if IsUpper(c) then (c as int + 32) as char else c
  }

  /** `str.lower()` on ASCII text. */
  function Lower(s: string): (r: string)
    ensures |r| == |s|
    ensures forall i :: 0 <= i < |s| ==> (IsLowerAlnum(r[i]) <==> IsAsciiAlnum(s[i]))
  {
    seq(|s|, i requires 0 <= i < |s| => LowerChar(s[i]))
  }

  predicate StartsWith(s: string, prefix: string) {
    |prefix| <= |s| && s[..|prefix|] == prefix
  }

  /** No two neighbouring characters both belong to the class `p`. */
  predicate NoAdjacent(s: string, p: char -> bool) {
    forall i :: 0 <= i < |s| - 1 ==> !(p(s[i]) && p(s[i + 1]))
  }

  /** The length of the longest prefix of `s` made of `p`-characters. */
  function LeadingCount(s: string, p: char -> bool): (n: nat)
    ensures n <= |s|
    ensures forall i :: 0 <= i < n ==> p(s[i])
    ensures n < |s| ==> !p(s[n])
  {
    if s != [] && p(s[0]) then 1 + LeadingCount(s[1..], p) else 0
  }

  /** The length of the longest suffix of `s` made of `p`-characters. */
  function TrailingCount(s: string, p: char -> bool): (n: nat)
    ensures n <= |s|
    ensures forall i :: |s| - n <= i < |s| ==> p(s[i])
    ensures n < |s| ==> !p(s[|s| - n - 1])
  {
    if s != [] && p(s[|s| - 1]) then 1 + TrailingCount(s[..|s| - 1], p) else 0
  }

  /** The longest `p`-prefix is the only count with the properties
      `LeadingCount` promises. */
  lemma LeadingCountUnique(s: string, p: char -> bool, n: nat)
    requires n <= |s|
    requires forall i :: 0 <= i < n ==> p(s[i])
    requires n < |s| ==> !p(s[n])
    ensures LeadingCount(s, p) == n
  {
  }

  /** The longest `p`-suffix is the only count with the properties
      `TrailingCount` promises. */
  lemma TrailingCountUnique(s: string, p: char -> bool, n: nat)
    requires n <= |s|
    requires forall i :: |s| - n <= i < |s| ==> p(s[i])
    requires n < |s| ==> !p(s[|s| - n - 1])
    ensures TrailingCount(s, p) == n
  {
  }

  /** Concatenation regroups freely; stated once so that callers need not
      compare long literals element by element. */
  lemma AppendAssoc<T>(a: seq<T>, b: seq<T>, c: seq<T>)
    ensures a + (b + c) == a + b + c
  {
  }

  /** `s` without its longest prefix of `p`-characters (`lstrip`). */
  function TrimStart(s: string, p: char -> bool): string {
    s[LeadingCount(s, p)..]
  }

  /** `s` without its longest suffix of `p`-characters (`rstrip`). */
  function TrimEnd(s: string, p: char -> bool): string {
    s[..|s| - TrailingCount(s, p)]
  }

  /** `rstrip` keeps a prefix of the text, drops only `p`-characters, and
      leaves no `p`-character at the end. */
  lemma TrimEndBounds(s: string, p: char -> bool)
    ensures var r := TrimEnd(s, p);
      && |r| <= |s| && r == s[..|r|]
      && (forall i :: |r| <= i < |s| ==> p(s[i]))
      && (r == [] || !p(r[|r| - 1]))
  {
  }

  /** `strip` with the character class `p`. */
  function Strip(s: string, p: char -> bool): (r: string)
    ensures r == [] || (!p(r[0]) && !p(r[|r| - 1]))
  {
    TrimEnd(TrimStart(s, p), p)
  }

  /** What `Strip` keeps is one slice of the input, and everything it
      removes belongs to the class. */
  lemma StripBounds(s: string, p: char -> bool) returns (a: nat, b: nat)
    ensures a <= b <= |s| && Strip(s, p) == s[a..b]
    ensures forall i :: 0 <= i < a ==> p(s[i])
    ensures forall i :: b <= i < |s| ==> p(s[i])
  {
    a := LeadingCount(s, p);
    var t := s[a..];
    b := |s| - TrailingCount(t, p);
    assert t[..|t| - TrailingCount(t, p)] == s[a..b];
    forall i | b <= i < |s| ensures p(s[i]) {
      assert s[i] == t[i - a];
    }
  }

  /** Trimming a text that already has no leading `p`-character changes nothing. */
  lemma TrimStartNoop(s: string, p: char -> bool)
    requires s == [] || !p(s[0])
    ensures TrimStart(s, p) == s
  {
  }

  /** Stripping a text that has no `p`-character at either end changes nothing. */
  lemma StripNoop(s: string, p: char -> bool)
    requires s == [] || (!p(s[0]) && !p(s[|s| - 1]))
    ensures Strip(s, p) == s
  {
    TrimStartNoop(s, p);
  }

  /** A text strips to nothing exactly when all its characters are in the class. */
  lemma StripEmptyIff(s: string, p: char -> bool)
    ensures Strip(s, p) == [] <==> forall i :: 0 <= i < |s| ==> p(s[i])
  {
    var a, b := StripBounds(s, p);
  }

  /** The characters of `s` that belong to `p`, in order. */
  function Filter(s: string, p: char -> bool): string {
    if s == [] then [] else (if p(s[0]) then [s[0]] else []) + Filter(s[1..], p)
  }

  lemma {:induction false} FilterConcat(a: string, b: string, p: char -> bool)
    ensures Filter(a + b, p) == Filter(a, p) + Filter(b, p)
  {
    if a != [] {
      var head := if p(a[0]) then [a[0]] else [];
      assert (a + b)[0] == a[0];
      assert (a + b)[1..] == a[1..] + b;
      assert Filter(a + b, p) == head + Filter(a[1..] + b, p);
      FilterConcat(a[1..], b, p);
      assert Filter(a, p) == head + Filter(a[1..], p);
    } else {
      assert a + b == b;
    }
  }

  lemma {:induction false} FilterEmptyIff(s: string, p: char -> bool)
    ensures Filter(s, p) == [] <==> forall i :: 0 <= i < |s| ==> !p(s[i])
  {
    if s != [] {
      FilterEmptyIff(s[1..], p);
      if forall i :: 0 <= i < |s| ==> !p(s[i]) {
        assert forall i :: 0 <= i < |s| - 1 ==> !p(s[1..][i]);
      }
    }
  }

  /** Dropping a prefix with no `q`-character keeps every `q`-character. */
  lemma {:induction false} FilterDropPrefix(s: string, k: nat, q: char -> bool)
    requires k <= |s|
    requires forall i :: 0 <= i < k ==> !q(s[i])
    ensures Filter(s[k..], q) == Filter(s, q)
  {
    if k > 0 {
      assert s[1..][k - 1..] == s[k..];
      FilterDropPrefix(s[1..], k - 1, q);
    }
  }

  /** Dropping a suffix with no `q`-character keeps every `q`-character. */
  lemma FilterDropSuffix(s: string, k: nat, q: char -> bool)
    requires k <= |s|
    requires forall i :: k <= i < |s| ==> !q(s[i])
    ensures Filter(s[..k], q) == Filter(s, q)
  {
    var post := s[k..];
    assert s[..k] + post == s;
    FilterConcat(s[..k], post, q);
    FilterEmptyIff(post, q);
  }

  /** Removing characters outside `q` from both ends keeps every `q`-character. */
  lemma FilterSlice(s: string, a: nat, b: nat, q: char -> bool)
    requires a <= b <= |s|
    requires forall i :: 0 <= i < a ==> !q(s[i])
    requires forall i :: b <= i < |s| ==> !q(s[i])
    ensures Filter(s[a..b], q) == Filter(s, q)
  {
    var tail := s[a..];
    FilterDropPrefix(s, a, q);
    forall i | b - a <= i < |tail| ensures !q(tail[i]) {
      assert tail[i] == s[a + i];
    }
    FilterDropSuffix(tail, b - a, q);
    assert tail[..b - a] == s[a..b];
  }

  /** Stripping characters outside `q` keeps every `q`-character, in order. */
  lemma FilterStrip(s: string, p: char -> bool, q: char -> bool)
    requires forall c :: q(c) ==> !p(c)
    ensures Filter(Strip(s, p), q) == Filter(s, q)
  {
    var a, b := StripBounds(s, p);
    FilterSlice(s, a, b, q);
  }

  /** `re.sub("[<p>]+", r, s)`: each maximal run of `p`-characters, scanned
      left to right, becomes the single character `r`. */
  function ReplaceRuns(s: string, p: char -> bool, r: char): string
    decreases |s|
  {
    if s == [] then []
    else if p(s[0]) then [r] + ReplaceRuns(TrimStart(s, p), p, r)
    else [s[0]] + ReplaceRuns(s[1..], p, r)
  }

  /** When the replacement belongs to the class, the result holds no two
      neighbouring class characters, and every class character in it is the
      replacement. */
  lemma {:induction false} ReplaceRunsShape(s: string, p: char -> bool, r: char)
    requires p(r)
    ensures var t := ReplaceRuns(s, p, r);
      && |t| <= |s|
      && (t == [] <==> s == [])
      && (t != [] ==> t[0] == if p(s[0]) then r else s[0])
      && (forall i :: 0 <= i < |t| ==> t[i] == r || !p(t[i]))
      && NoAdjacent(t, p)
  {
    if s != [] {
      var rest := if p(s[0]) then TrimStart(s, p) else s[1..];
      assert |rest| < |s|;
      ReplaceRunsShape(rest, p, r);
      var t' := ReplaceRuns(rest, p, r);
      assert p(s[0]) ==> (t' == [] || !p(t'[0]));
      var t := ReplaceRuns(s, p, r);
      assert t == [if p(s[0]) then r else s[0]] + t';
      forall i | 0 <= i < |t| - 1 ensures !(p(t[i]) && p(t[i + 1])) {
        if i > 0 {
          assert t[i] == t'[i - 1] && t[i + 1] == t'[i];
        }
      }
    }
  }

  /** Replacing runs of characters outside `q` by a character outside `q`
      keeps every `q`-character, in order. */
  lemma {:induction false} ReplaceRunsFilter(s: string, p: char -> bool, r: char, q: char -> bool)
    requires forall c :: q(c) ==> !p(c)
    requires !q(r)
    ensures Filter(ReplaceRuns(s, p, r), q) == Filter(s, q)
  {
    if s != [] {
      if p(s[0]) {
        var k := LeadingCount(s, p);
        var rest := s[k..];
        assert ReplaceRuns(s, p, r) == [r] + ReplaceRuns(rest, p, r);
        ReplaceRunsFilter(rest, p, r, q);
        FilterConcat([r], ReplaceRuns(rest, p, r), q);
        assert Filter([r], q) == [];
        FilterDropPrefix(s, k, q);
      } else {
        var rest := s[1..];
        assert ReplaceRuns(s, p, r) == [s[0]] + ReplaceRuns(rest, p, r);
        ReplaceRunsFilter(rest, p, r, q);
        FilterConcat([s[0]], ReplaceRuns(rest, p, r), q);
        assert Filter([s[0]], q) == if q(s[0]) then [s[0]] else [];
      }
    }
  }

  /** A text whose class characters are all single copies of the replacement
      is left as it is. */
  lemma {:induction false} ReplaceRunsNoop(s: string, p: char -> bool, r: char)
    requires NoAdjacent(s, p)
    requires forall i :: 0 <= i < |s| ==> p(s[i]) ==> s[i] == r
    ensures ReplaceRuns(s, p, r) == s
  {
    if s != [] {
      if p(s[0]) {
        assert |s| > 1 ==> !p(s[1]);
        assert s[1..] == [] || !p(s[1..][0]);
        TrimStartNoop(s[1..], p);
        assert TrimStart(s, p) == s[1..];
      }
      ReplaceRunsNoop(s[1..], p, r);
    }
  }

  /** A non-empty run made only of class characters becomes the single
      replacement character. */
  lemma ReplaceRunsRun(s: string, p: char -> bool, r: char)
    requires s != []
    requires forall i :: 0 <= i < |s| ==> p(s[i])
    ensures ReplaceRuns(s, p, r) == [r]
  {
    LeadingCountUnique(s, p, |s|);
  }

  /** A character outside the class is copied as it is. */
  lemma ReplaceRunsOther(c: char, p: char -> bool, r: char)
    requires !p(c)
    ensures ReplaceRuns([c], p, r) == [c]
  {
    assert [c][1..] == [];
  }

  /** Splitting the text where a class run cannot straddle the cut splits
      the result there too. */
  lemma {:induction false} ReplaceRunsConcat(x: string, y: string, p: char -> bool, r: char)
    requires x == [] || y == [] || !p(x[|x| - 1]) || !p(y[0])
    ensures ReplaceRuns(x + y, p, r) == ReplaceRuns(x, p, r) + ReplaceRuns(y, p, r)
    decreases |x|
  {
    var s := x + y;
    if x == [] {
      assert s == y;
    } else if !p(x[0]) {
      assert s[0] == x[0] && s[1..] == x[1..] + y;
      ReplaceRunsConcat(x[1..], y, p, r);
      AppendAssoc([x[0]], ReplaceRuns(x[1..], p, r), ReplaceRuns(y, p, r));
    } else {
      var k := LeadingCount(x, p);
      if k < |x| {
        ReplaceRunsConcat(x[k..], y, p, r);
        ReplaceRunsConcatRun(x, y, p, r);
      } else {
        ReplaceRunsConcatAllRun(x, y, p, r);
      }
    }
  }

  /** The inductive step of `ReplaceRunsConcat` when `x` opens with a class
      run that ends inside `x`. */
  lemma ReplaceRunsConcatRun(x: string, y: string, p: char -> bool, r: char)
    requires x != [] && p(x[0]) && LeadingCount(x, p) < |x|
    requires var k := LeadingCount(x, p);
      ReplaceRuns(x[k..] + y, p, r) == ReplaceRuns(x[k..], p, r) + ReplaceRuns(y, p, r)
    ensures ReplaceRuns(x + y, p, r) == ReplaceRuns(x, p, r) + ReplaceRuns(y, p, r)
  {
    var s := x + y;
    var k := LeadingCount(x, p);
    assert s[0] == x[0];
    LeadingCountUnique(s, p, k);
    assert s[k..] == x[k..] + y;
    assert ReplaceRuns(s, p, r) == [r] + ReplaceRuns(x[k..] + y, p, r);
    assert ReplaceRuns(x, p, r) == [r] + ReplaceRuns(x[k..], p, r);
    AppendAssoc([r], ReplaceRuns(x[k..], p, r), ReplaceRuns(y, p, r));
  }

  /** `ReplaceRunsConcat` when all of `x` is one class run. */
  lemma ReplaceRunsConcatAllRun(x: string, y: string, p: char -> bool, r: char)
    requires x != [] && LeadingCount(x, p) == |x|
    requires y == [] || !p(y[0])
    ensures ReplaceRuns(x + y, p, r) == ReplaceRuns(x, p, r) + ReplaceRuns(y, p, r)
  {
    var s := x + y;
    assert s[0] == x[0];
    LeadingCountUnique(s, p, |x|);
    assert s[|x|..] == y;
    assert ReplaceRuns(s, p, r) == [r] + ReplaceRuns(y, p, r);
    ReplaceRunsRun(x, p, r);
  }
}
