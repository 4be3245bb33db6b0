/**
 * utils/pages.py: the page record and the helpers that build pages.
 * Rich renderables other than markup text are opaque blocks; a Rich `Group` is kept as a
 * block holding its members, because `composite_page` looks into it.
 */
module Pages {
  import opened Wrappers
  import opened Strings
  import MarkdownPages

  datatype PageKind = Lines | Markdown | Composite

  /** A renderable: a markup string, a renderable the model does not look into, or a `Group`. */
  datatype Block = Markup(text: string) | Opaque(id: nat) | Group(members: seq<Block>)

  /** A page's content: markdown source, or a list of lines or renderables. */
  datatype Content = Text(text: string) | Items(items: seq<Block>)

  /** `PageData`; `title` defaults to `None` and `padding` to 2. */
  datatype PageData = PageData(kind: PageKind, content: Content, title: Option<string> := None, padding: int := 2)

  /** The lines of a list of markup strings, `None` when one of the items is not a string. */
  function LinesOf(items: seq<Block>): (r: Option<seq<string>>)
    ensures r.Some? <==> forall i :: 0 <= i < |items| ==> items[i].Markup?
    ensures r.Some? ==> |r.value| == |items| && forall i :: 0 <= i < |items| ==> items[i] == Markup(r.value[i])
    decreases |items|
  {
    if items == [] then Some([])
    else match LinesOf(items[..|items| - 1])
      case None => None
      case Some(init) =>
        if items[|items| - 1].Markup? then Some(init + [items[|items| - 1].text]) else None
  }

  /** `lines_page`: one markup item per line. */
  function LinesPage(lines: seq<string>, padding: int := 2, title: Option<string> := None): (p: PageData)
    ensures p.kind == Lines && p.title == title && p.padding == padding
    ensures p.content.Items? && LinesOf(p.content.items) == Some(lines)
  {
    var items := seq(|lines|, i requires 0 <= i < |lines| => Markup(lines[i]));
    assert LinesOf(items).value == lines;
    PageData(Lines, Items(items), title, padding)
  }

  /** `markdown_page`: the source with its trailing newlines removed. */
  function MarkdownPage(markdown: string, padding: int := 2, title: Option<string> := None): (p: PageData)
    ensures p.kind == Markdown && p.title == title && p.padding == padding && p.content.Text?
  {
    PageData(Markdown, Text(RStripChar(markdown, '\n')), title, padding)
  }

  /** A markdown page keeps the source up to its trailing newlines, which are all that is dropped. */
  lemma MarkdownPageText(markdown: string, padding: int, title: Option<string>)
    ensures var text := MarkdownPage(markdown, padding, title).content.text;
      && |text| <= |markdown|
      && markdown == text + Repeat('\n', |markdown| - |text|)
      && (text == [] || text[|text| - 1] != '\n')
  {
    var text := RStripChar(markdown, '\n');
    assert markdown == text + Repeat('\n', |markdown| - |text|);
  }

  /** Rebuilding a markdown page from its own content changes nothing. */
  lemma MarkdownPageIdempotent(markdown: string, padding: int, title: Option<string>)
    ensures var p := MarkdownPage(markdown, padding, title);
      MarkdownPage(p.content.text, padding, title) == p
  {
  }

  /** `markdown_file`, with the file's text given instead of its path: one markdown page per split page, in order. */
  method MarkdownFile(text: string, padding: int := 2, title: Option<string> := None) returns (pages: seq<PageData>)
    ensures |pages| == |MarkdownPages.SplitPages(text)|
    ensures forall k :: 0 <= k < |pages| ==>
      pages[k] == MarkdownPage(Join(MarkdownPages.SplitPages(text)[k], '\n'), padding, title)
  {
    var split := MarkdownPages.LoadMarkdownPages(text);
    pages := JoinedPages(split, padding, title);
  }

  /** The loop of `markdown_file`: each page's lines joined by newlines into a markdown page. */
  method JoinedPages(split: seq<seq<string>>, padding: int, title: Option<string>) returns (pages: seq<PageData>)
    ensures |pages| == |split|
    ensures forall k :: 0 <= k < |split| ==> pages[k] == MarkdownPage(Join(split[k], '\n'), padding, title)
  {
    pages := [];
    for i := 0 to |split|
      invariant |pages| == i
      invariant forall k :: 0 <= k < i ==> pages[k] == MarkdownPage(Join(split[k], '\n'), padding, title)
    {
      var page := MarkdownPage(Join(split[i], '\n'), padding, title);
      pages := pages + [page];
    }
  }

  /**
   * A page of a markdown file holds its lines joined by newlines, with nothing stripped (its last
   * line is never blank), and splitting its text at newlines gives its lines back.
   */
  lemma MarkdownFilePage(text: string, i: nat, padding: int, title: Option<string>)
    requires i < |MarkdownPages.SplitPages(text)|
    ensures var lines := MarkdownPages.SplitPages(text)[i];
      && MarkdownPage(Join(lines, '\n'), padding, title).content == Text(Join(lines, '\n'))
      && (lines != [] ==> Split(Join(lines, '\n'), '\n') == lines)
  {
    var pages := MarkdownPages.SplitPages(text);
    var lines := pages[i];
    MarkdownPages.NoLineBreaks(text);
    forall k | 0 <= k < |lines|
      ensures '\n' !in lines[k]
    {
      assert lines[k] == pages[i][k];
    }
    if lines != [] {
      assert !IsBlank(lines[|lines| - 1]);
      JoinedLinesKept(lines);
      SplitJoin(lines, '\n');
    }
  }

  /** Lines without newlines whose last one is not empty join into text with no trailing newline. */
  lemma JoinedLinesKept(lines: seq<string>)
    requires lines != [] && lines[|lines| - 1] != []
    requires forall k :: 0 <= k < |lines| ==> '\n' !in lines[k]
    ensures RStripChar(Join(lines, '\n'), '\n') == Join(lines, '\n')
  {
    var last := lines[|lines| - 1];
    JoinEndsWithLast(lines, '\n');
    var joined := Join(lines, '\n');
    assert joined[|joined| - 1] == last[|last| - 1];
    assert last[|last| - 1] in last;
  }

  /** The blocks after one level of `Group` is opened. */
  function Flatten(blocks: seq<Block>): seq<Block>
    decreases |blocks|
  {
    if blocks == [] then []
    else
      var b := blocks[|blocks| - 1];
      Flatten(blocks[..|blocks| - 1]) + (if b.Group? then b.members else [b])
  }

  /** `composite_page`: the blocks with each top-level `Group` replaced by its members. */
  method CompositePage(blocks: seq<Block>, padding: int := 2, title: Option<string> := None) returns (p: PageData)
    ensures p == PageData(Composite, Items(Flatten(blocks)), title, padding)
  {
    var flat: seq<Block> := [];
    for i := 0 to |blocks|
      invariant flat == Flatten(blocks[..i])
    {
      assert blocks[..i + 1][..i] == blocks[..i];
      if blocks[i].Group? {
        flat := flat + blocks[i].members;
      } else {
        flat := flat + [blocks[i]];
      }
    }
    assert blocks[..|blocks|] == blocks;
    p := PageData(Composite, Items(flat), title, padding);
  }

  /** Flattening works block by block. */
  lemma {:induction false} FlattenAppend(a: seq<Block>, b: seq<Block>)
    ensures Flatten(a + b) == Flatten(a) + Flatten(b)
    decreases |b|
  {
    if b == [] {
      assert a + b == a;
    } else {
      var init := b[..|b| - 1];
      var last := b[|b| - 1];
      var spliced := if last.Group? then last.members else [last];
      FlattenAppend(a, init);
      assert Flatten(a + b) == Flatten(a + init) + spliced by {
        assert (a + b)[..|a + b| - 1] == a + init;
        assert (a + b)[|a + b| - 1] == last;
      }
      assert Flatten(b) == Flatten(init) + spliced;
      AppendAssoc(Flatten(a), Flatten(init), spliced);
    }
  }

  /** Blocks without a `Group` are kept as they are. */
  lemma {:induction false} FlattenWithoutGroups(blocks: seq<Block>)
    requires forall i :: 0 <= i < |blocks| ==> !blocks[i].Group?
    ensures Flatten(blocks) == blocks
    decreases |blocks|
  {
    if blocks != [] {
      FlattenWithoutGroups(blocks[..|blocks| - 1]);
    }
  }

  /** Only one level is opened: a group's members are kept even when they are groups themselves. */
  lemma FlattenOneLevel(a: seq<Block>, members: seq<Block>, b: seq<Block>)
    ensures Flatten(a + [Group(members)] + b) == Flatten(a) + members + Flatten(b)
  {
    FlattenAppend(a + [Group(members)], b);
    FlattenAppend(a, [Group(members)]);
    assert Flatten([Group(members)]) == Flatten([]) + members;
  }
}
