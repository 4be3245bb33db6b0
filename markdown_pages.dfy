/**
 * utils/markdown_pages.py: a markdown text split into pages at "---" lines.
 * The file read is left to the caller; the model starts from the text.
 */
module MarkdownPages {
  import opened Strings

  const SPLIT_TOKEN: string := "---"

  /**
   * `raw_line.strip() == SPLIT_TOKEN`, stated on the indices `Strip` cuts at: three dashes with
   * only whitespace around them (see `SplitterIsStrip`).
   */
  predicate IsSplitter(line: string) {
    var a := FirstNonSpace(line, 0);
    var e := EndNonSpace(line, a, |line|);
    e == a + 3 && line[a] == '-' && line[a + 1] == '-' && line[a + 2] == '-'
  }

  /** The index test is the comparison of the stripped line with the token. */
  lemma SplitterIsStrip(line: string)
    ensures IsSplitter(line) <==> Strip(line) == SPLIT_TOKEN
  {
    var a := FirstNonSpace(line, 0);
    var e := EndNonSpace(line, a, |line|);
    if Strip(line) == SPLIT_TOKEN {
      assert line[a..e] == SPLIT_TOKEN;
      assert line[a + 1] == line[a..e][1];
      assert line[a + 2] == line[a..e][2];
    }
    if IsSplitter(line) {
      assert line[a..e] == SPLIT_TOKEN;
    }
  }

  /** `line.strip() == ""`, which holds exactly when every character is whitespace (see `Strip`). */
  predicate IsBlankLine(line: string) {
    IsBlank(line)
  }

  /** The state of the grouping loop: the pages flushed so far and the page being filled. */
  datatype Grouping = Grouping(flushed: seq<seq<string>>, current: seq<string>)

  /** One turn of the grouping loop. */
  function GroupStep(g: Grouping, line: string): Grouping {
    if IsSplitter(line) then Grouping(g.flushed + [g.current], []) else Grouping(g.flushed, g.current + [line])
  }

  /** The grouping loop run over `lines` from state `g`. */
  function GroupFrom(g: Grouping, lines: seq<string>): Grouping
    decreases |lines|
  {
    if lines == [] then g else GroupStep(GroupFrom(g, lines[..|lines| - 1]), lines[|lines| - 1])
  }

  /** The raw pages: every flushed page and then the last one. */
  function RawPages(lines: seq<string>): (pages: seq<seq<string>>)
    ensures |pages| >= 1
  {
    var g := GroupFrom(Grouping([], []), lines);
    g.flushed + [g.current]
  }

  /** The index of the first non-blank line at or after `i`, `|page|` when there is none. */
  function FirstNonBlank(page: seq<string>, i: nat): (n: nat)
    requires i <= |page|
    ensures i <= n <= |page|
    ensures forall k :: i <= k < n ==> IsBlankLine(page[k])
    ensures n == |page| || !IsBlankLine(page[n])
    decreases |page| - i
  {
    if i < |page| && IsBlankLine(page[i]) then FirstNonBlank(page, i + 1) else i
  }

  /** One past the last non-blank line in `page[lo..j]`, `lo` when there is none. */
  function EndNonBlank(page: seq<string>, lo: nat, j: nat): (n: nat)
    requires lo <= j <= |page|
    ensures lo <= n <= j
    ensures forall k :: n <= k < j ==> IsBlankLine(page[k])
    ensures n == lo || !IsBlankLine(page[n - 1])
    decreases j
  {
    if j > lo && IsBlankLine(page[j - 1]) then EndNonBlank(page, lo, j - 1) else j
  }

  /**
   * A page without its leading and trailing blank lines: empty when every line is blank,
   * otherwise starting and ending with a non-blank line.
   */
  function Trim(page: seq<string>): (r: seq<string>)
    ensures r == [] <==> forall k :: 0 <= k < |page| ==> IsBlankLine(page[k])
    ensures r == [] || (!IsBlankLine(r[0]) && !IsBlankLine(r[|r| - 1]))
  {
    var a := FirstNonBlank(page, 0);
    page[a..EndNonBlank(page, a, |page|)]
  }

  /** The lines of the text after newline normalisation. */
  function TextLines(text: string): seq<string> {
    Split(NormalizeNewlines(text), '\n')
  }

  /** What `load_markdown_pages` returns for a file holding `text`. */
  function SplitPages(text: string): (pages: seq<seq<string>>)
    ensures |pages| >= 1
    ensures forall i :: 0 <= i < |pages| ==>
      pages[i] == [] || (!IsBlankLine(pages[i][0]) && !IsBlankLine(pages[i][|pages[i]| - 1]))
  {
    var raw := RawPages(TextLines(text));
    seq(|raw|, i requires 0 <= i < |raw| => Trim(raw[i]))
  }

  /** `load_markdown_pages`, with the text given instead of the path. */
  method LoadMarkdownPages(text: string) returns (pages: seq<seq<string>>)
    ensures pages == SplitPages(text)
  {
    var rawPages := GroupLines(Split(NormalizeNewlines(text), '\n'));
    pages := [];
    for k := 0 to |rawPages|
      invariant |pages| == k
      invariant forall i :: 0 <= i < k ==> pages[i] == Trim(rawPages[i])
    {
      var page := TrimPage(rawPages[k]);
      pages := pages + [page];
    }
  }

  /** The first loop of `load_markdown_pages`: lines gathered into raw pages. */
  method GroupLines(lines: seq<string>) returns (rawPages: seq<seq<string>>)
    ensures rawPages == RawPages(lines)
  {
    rawPages := [];
    var current: seq<string> := [];
    for k := 0 to |lines|
      invariant GroupFrom(Grouping([], []), lines[..k]) == Grouping(rawPages, current)
    {
      assert lines[..k + 1][..k] == lines[..k];
      if IsSplitter(lines[k]) {
        rawPages := rawPages + [current];
        current := [];
        continue;
      }
      current := current + [lines[k]];
    }
    assert lines[..|lines|] == lines;
    rawPages := rawPages + [current];
  }

  /** The two popping loops of `load_markdown_pages` on one page. */
  method TrimPage(raw: seq<string>) returns (page: seq<string>)
    ensures page == Trim(raw)
  {
    page := DropLeadingBlank(raw);
    ghost var first := FirstNonBlank(raw, 0);
    page := DropTrailingBlank(page);
    EndNonBlankShift(raw, first, |raw|);
  }

  /** The first popping loop: blank lines are taken off the front. */
  method DropLeadingBlank(raw: seq<string>) returns (page: seq<string>)
    ensures page == raw[FirstNonBlank(raw, 0)..]
  {
    page := raw;
    ghost var first := 0;
    while page != [] && IsBlankLine(page[0])
      invariant first <= FirstNonBlank(raw, 0) && page == raw[first..]
    {
      assert page[0] == raw[first];
      page := page[1..];
      first := first + 1;
    }
    assert first == FirstNonBlank(raw, 0);
  }

  /** The second popping loop: blank lines are taken off the back. */
  method DropTrailingBlank(raw: seq<string>) returns (page: seq<string>)
    ensures page == raw[..EndNonBlank(raw, 0, |raw|)]
  {
    page := raw;
    ghost var end := |raw|;
    while page != [] && IsBlankLine(page[|page| - 1])
      invariant EndNonBlank(raw, 0, |raw|) <= end <= |raw|
      invariant page == raw[..end]
    {
      assert page[|page| - 1] == raw[end - 1];
      page := page[..|page| - 1];
      end := end - 1;
    }
    assert end == EndNonBlank(raw, 0, |raw|);
  }

  /** Looking for the last non-blank line in a suffix is looking in the whole page from where it starts. */
  lemma {:induction false} EndNonBlankShift(page: seq<string>, a: nat, j: nat)
    requires a <= j <= |page|
    ensures EndNonBlank(page[a..], 0, j - a) + a == EndNonBlank(page, a, j)
    decreases j
  {
    if j > a {
      assert page[a..][j - a - 1] == page[j - 1];
      EndNonBlankShift(page, a, j - 1);
    }
  }

  /** The number of splitter lines. */
  function CountSplitters(lines: seq<string>): nat
    decreases |lines|
  {
    if lines == [] then 0
    else CountSplitters(lines[..|lines| - 1]) + (if IsSplitter(lines[|lines| - 1]) then 1 else 0)
  }

  /** The lines that are not splitters, in order. */
  function NonSplitters(lines: seq<string>): seq<string>
    decreases |lines|
  {
    if lines == [] then []
    else NonSplitters(lines[..|lines| - 1]) + (if IsSplitter(lines[|lines| - 1]) then [] else [lines[|lines| - 1]])
  }

  /**
   * Grouping flushes one page per splitter, never keeps a splitter, and keeps every other
   * line in its order.
   */
  lemma {:induction false} GroupingCounts(lines: seq<string>)
    ensures |GroupFrom(Grouping([], []), lines).flushed| == CountSplitters(lines)
    ensures Concat(GroupFrom(Grouping([], []), lines).flushed) + GroupFrom(Grouping([], []), lines).current == NonSplitters(lines)
    decreases |lines|
  {
    if lines != [] {
      var init := lines[..|lines| - 1];
      GroupingCounts(init);
      var g := GroupFrom(Grouping([], []), init);
      if IsSplitter(lines[|lines| - 1]) {
        ConcatAppend(g.flushed, [g.current]);
        assert Concat([g.current]) == Concat([]) + g.current;
      }
    }
  }

  /** There is one page more than there are splitter lines. */
  lemma PageCount(lines: seq<string>)
    ensures |RawPages(lines)| == CountSplitters(lines) + 1
  {
    GroupingCounts(lines);
  }

  /** The pages hold exactly the non-splitter lines, in their original order. */
  lemma PagesKeepOrder(lines: seq<string>)
    ensures Concat(RawPages(lines)) == NonSplitters(lines)
  {
    GroupingCounts(lines);
    var g := GroupFrom(Grouping([], []), lines);
    ConcatAppend(g.flushed, [g.current]);
    assert Concat([g.current]) == Concat([]) + g.current;
  }

  /** Running the loop over two pieces is running it over the first and then the second. */
  lemma {:induction false} GroupFromAppend(g: Grouping, a: seq<string>, b: seq<string>)
    ensures GroupFrom(g, a + b) == GroupFrom(GroupFrom(g, a), b)
    decreases |b|
  {
    if b == [] {
      assert a + b == a;
    } else {
      GroupFromAppend(g, a, b[..|b| - 1]);
      assert (a + b)[..|a + b| - 1] == a + b[..|b| - 1];
    }
  }

  /** Starting after a flush, the loop just adds its own pages after the flushed ones. */
  lemma {:induction false} GroupFromFlushed(flushed: seq<seq<string>>, b: seq<string>)
    ensures GroupFrom(Grouping(flushed, []), b).flushed == flushed + GroupFrom(Grouping([], []), b).flushed
    ensures GroupFrom(Grouping(flushed, []), b).current == GroupFrom(Grouping([], []), b).current
    decreases |b|
  {
    if b != [] {
      GroupFromFlushed(flushed, b[..|b| - 1]);
    }
  }

  /** Lines without a splitter make one page holding all of them. */
  lemma {:induction false} NoSplitterOnePage(a: seq<string>)
    requires forall k :: 0 <= k < |a| ==> !IsSplitter(a[k])
    ensures GroupFrom(Grouping([], []), a) == Grouping([], a)
    decreases |a|
  {
    if a != [] {
      NoSplitterOnePage(a[..|a| - 1]);
      assert a[..|a| - 1] + [a[|a| - 1]] == a;
    }
  }

  /**
   * Every page is a contiguous run of lines between two splitters: a splitter line ends the
   * pages of the lines before it, and the lines after it make pages of their own.
   */
  lemma SplitAtSplitter(a: seq<string>, s: string, b: seq<string>)
    requires IsSplitter(s)
    ensures RawPages(a + [s] + b) == RawPages(a) + RawPages(b)
  {
    var empty := Grouping([], []);
    GroupFromAppend(empty, a + [s], b);
    assert (a + [s])[..|a + [s]| - 1] == a;
    var ga := GroupFrom(empty, a);
    GroupFromFlushed(ga.flushed + [ga.current], b);
  }

  /** The lines of a page that holds no splitter stay together as one page. */
  lemma OnePage(a: seq<string>)
    requires forall k :: 0 <= k < |a| ==> !IsSplitter(a[k])
    ensures RawPages(a) == [a]
  {
    NoSplitterOnePage(a);
  }

  /** Two splitters in a row make an empty page between them rather than being merged. */
  lemma ConsecutiveSplitters(a: seq<string>, s1: string, s2: string, b: seq<string>)
    requires IsSplitter(s1) && IsSplitter(s2)
    ensures RawPages(a + [s1, s2] + b) == RawPages(a) + [[]] + RawPages(b)
  {
    assert a + [s1, s2] + b == a + [s1] + ([s2] + b);
    SplitAtSplitter(a, s1, [s2] + b);
    assert [s2] + b == [] + [s2] + b;
    SplitAtSplitter([], s2, b);
    OnePage([]);
  }

  /**
   * Trimming removes blank lines at both ends only: the result is a contiguous slice of the
   * page and everything cut off is blank.
   */
  lemma TrimIsSlice(page: seq<string>)
    ensures var r := Trim(page); var a := FirstNonBlank(page, 0);
      && a + |r| <= |page|
      && r == page[a..a + |r|]
      && (forall k :: 0 <= k < a ==> IsBlankLine(page[k]))
      && (forall k :: a + |r| <= k < |page| ==> IsBlankLine(page[k]))
  {
  }

  /** No returned line holds a carriage return or a newline. */
  lemma NoLineBreaks(text: string)
    ensures forall p, k :: 0 <= p < |SplitPages(text)| && 0 <= k < |SplitPages(text)[p]| ==>
      '\r' !in SplitPages(text)[p][k] && '\n' !in SplitPages(text)[p][k]
  {
    var lines := TextLines(text);
    SplitChars(NormalizeNewlines(text), '\n');
    RawPagesFromLines(lines);
    var raw := RawPages(lines);
    forall p, k | 0 <= p < |SplitPages(text)| && 0 <= k < |SplitPages(text)[p]|
      ensures '\r' !in SplitPages(text)[p][k] && '\n' !in SplitPages(text)[p][k]
    {
      TrimIsSlice(raw[p]);
      var a := FirstNonBlank(raw[p], 0);
      assert SplitPages(text)[p][k] == raw[p][a + k];
    }
  }

  /** Every line held in `g` is one of `lines`. */
  predicate LinesFrom(g: Grouping, lines: seq<string>) {
    && (forall p, k :: 0 <= p < |g.flushed| && 0 <= k < |g.flushed[p]| ==> g.flushed[p][k] in lines)
    && (forall k :: 0 <= k < |g.current| ==> g.current[k] in lines)
  }

  /** Every line the grouping loop keeps is one of its input lines. */
  lemma {:induction false} GroupingFromLines(lines: seq<string>)
    ensures LinesFrom(GroupFrom(Grouping([], []), lines), lines)
    decreases |lines|
  {
    if lines != [] {
      var init := lines[..|lines| - 1];
      GroupingFromLines(init);
      var g := GroupFrom(Grouping([], []), init);
      var h := GroupFrom(Grouping([], []), lines);
      assert forall x :: x in init ==> x in lines;
      assert lines[|lines| - 1] in lines;
      assert h == GroupStep(g, lines[|lines| - 1]);
      assert LinesFrom(g, init);
      forall p, k | 0 <= p < |h.flushed| && 0 <= k < |h.flushed[p]|
        ensures h.flushed[p][k] in lines
      {
        if p < |g.flushed| {
          assert h.flushed[p][k] == g.flushed[p][k] && g.flushed[p][k] in init;
        } else {
          assert h.flushed[p][k] == g.current[k] && g.current[k] in init;
        }
      }
      forall k | 0 <= k < |h.current|
        ensures h.current[k] in lines
      {
        if k < |g.current| {
          assert h.current[k] == g.current[k] && g.current[k] in init;
        }
      }
    }
  }

  /** Every line of a raw page is one of the input lines. */
  lemma RawPagesFromLines(lines: seq<string>)
    ensures forall p, k :: 0 <= p < |RawPages(lines)| && 0 <= k < |RawPages(lines)[p]| ==> RawPages(lines)[p][k] in lines
  {
    GroupingFromLines(lines);
  }

  /** The page count of a text: its splitter lines plus one. */
  lemma SplitPagesCount(text: string)
    ensures |SplitPages(text)| == CountSplitters(TextLines(text)) + 1
  {
    PageCount(TextLines(text));
  }
}
