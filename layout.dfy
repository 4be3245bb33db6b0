/**
 * The layout arithmetic of main.py: the vertical padding or truncation to the terminal height,
 * the horizontal centring or truncation of each row in `render_page`, and the widths of the
 * markdown and composite panels. A row's cell width is its character count and markup in a row
 * is treated as plain text.
 */
module Layout {
  import opened Strings

  /** The rows left for content in a terminal `height` rows high: one for input, two for borders. */
  function TargetRows(height: int): (r: nat)
    ensures r + 3 >= height
    ensures r > 0 ==> r + 3 == height
  {
    if height - 1 - 2 > 0 then height - 1 - 2 else 0
  }

  /** `render_page`'s inner width: the borders take 2 cells and the padding 4, at least 10. */
  function InnerWidth(width: int): (w: nat)
    ensures w >= 10 && w + 6 >= width
    ensures w > 10 ==> w + 6 == width
  {
    if width - 6 > 10 then width - 6 else 10
  }

  /** The markdown and composite panels' inner width: borders and side padding off, at least 20. */
  function DocInnerWidth(width: int, padding: int): nat {
    if width - (2 + padding * 2) > 20 then width - (2 + padding * 2) else 20
  }

  /** Blank rows above and below the content. */
  datatype Padding = Padding(top: nat, bottom: nat)

  /** The vertical split: the missing rows go half on top, the odd one at the bottom; none when the content fills the target. */
  function VerticalPadding(count: nat, target: nat): (p: Padding)
    ensures count < target ==> p.top + count + p.bottom == target && (p.bottom == p.top || p.bottom == p.top + 1)
    ensures count >= target ==> p == Padding(0, 0)
  {
    if count < target then
      var remaining := target - count;
      var top := remaining / 2;
      Padding(top, remaining - top)
    else Padding(0, 0)
  }

  /** `n` empty rows. */
  function Blanks(n: nat): (r: seq<string>)
    ensures |r| == n && forall i :: 0 <= i < n ==> r[i] == []
  {
    seq(n, _ => [])
  }

  /**
   * The rows padded with blank rows above and below to `target` rows, never truncated: the
   * rows themselves appear unchanged after `VerticalPadding(|rows|, target).top` blank rows.
   */
  function PadRows(rows: seq<string>, target: nat): (r: seq<string>)
    ensures var p := VerticalPadding(|rows|, target);
      && |r| == p.top + |rows| + p.bottom
      && r[p.top..p.top + |rows|] == rows
      && (forall i :: 0 <= i < p.top ==> r[i] == [])
      && (forall i :: p.top + |rows| <= i < |r| ==> r[i] == [])
  {
    var p := VerticalPadding(|rows|, target);
    var r := Blanks(p.top) + rows + Blanks(p.bottom);
    assert r[p.top..p.top + |rows|] == rows;
    r
  }

  /** `render_page`'s vertical step: exactly `target` rows, padded or cut to the first `target`. */
  function FitRows(rows: seq<string>, target: nat): (r: seq<string>)
    ensures |r| == target
    ensures |rows| > target ==> r == rows[..target]
    ensures |rows| <= target ==> r == PadRows(rows, target)
  {
    if |rows| > target then rows[..target] else PadRows(rows, target)
  }

  /**
   * One row of `render_page`, exactly `width` cells: cut to `width` when wider, otherwise
   * centred with `(width - n) / 2` spaces on the left and the rest on the right.
   */
  function CenterRow(row: string, width: nat): (r: string)
    ensures |r| == width
    ensures |row| > width ==> r == row[..width]
    ensures |row| <= width ==> var left := (width - |row|) / 2;
      && r[left..left + |row|] == row
      && (forall i :: 0 <= i < left ==> r[i] == ' ')
      && (forall i :: left + |row| <= i < width ==> r[i] == ' ')
      && (width - |row| - left == left || width - |row| - left == left + 1)
  {
    if |row| > width then row[..width]
    else
      var left := (width - |row|) / 2;
      var r := Repeat(' ', left) + row + Repeat(' ', width - |row| - left);
      assert r[left..left + |row|] == row;
      r
  }

  /** Every row centred to `width`. */
  function CenterRows(rows: seq<string>, width: nat): (r: seq<string>)
    ensures |r| == |rows| && forall i :: 0 <= i < |rows| ==> r[i] == CenterRow(rows[i], width)
  {
    seq(|rows|, i requires 0 <= i < |rows| => CenterRow(rows[i], width))
  }

  /** What `render_page` puts in its panel for a terminal `width` by `height`. */
  function PageBody(lines: seq<string>, width: int, height: int): string {
    Join(CenterRows(FitRows(lines, TargetRows(height)), InnerWidth(width)), '\n')
  }

  /** `render_page`'s row loop: each row centred and appended, with a newline between rows. */
  method RenderPage(lines: seq<string>, width: int, height: int) returns (body: string)
    ensures body == PageBody(lines, width, height)
  {
    var content := FitRows(lines, TargetRows(height));
    var innerWidth := InnerWidth(width);
    body := [];
    for idx := 0 to |content|
      invariant body == Join(CenterRows(content[..idx], innerWidth), '\n') + (if 0 < idx < |content| then "\n" else [])
    {
      var row := CenterRow(content[idx], innerWidth);
      ghost var done := CenterRows(content[..idx], innerWidth);
      assert CenterRows(content[..idx + 1], innerWidth) == done + [row];
      if idx > 0 {
        JoinSnoc(done, row, '\n');
      }
      body := body + row;
      if idx != |content| - 1 {
        body := body + "\n";
      }
    }
    assert content[..|content|] == content;
  }

  /** A centred row holds a newline only where its source row did. */
  lemma CenterRowNoNewline(row: string, width: nat)
    requires '\n' !in row
    ensures '\n' !in CenterRow(row, width)
  {
    var r := CenterRow(row, width);
    if |row| <= width {
      var left := (width - |row|) / 2;
      forall i | 0 <= i < width
        ensures r[i] != '\n'
      {
        if left <= i < left + |row| {
          assert r[i] == r[left..left + |row|][i - left];
        }
      }
    }
  }

  /**
   * The panel of `render_page` is exactly `TargetRows(height)` rows of `InnerWidth(width)` cells
   * each: when there is room for a row, splitting the body at newlines gives them back, provided
   * no line holds a newline itself.
   */
  lemma PageBodyRows(lines: seq<string>, width: int, height: int)
    requires TargetRows(height) > 0
    requires forall i :: 0 <= i < |lines| ==> '\n' !in lines[i]
    ensures var rows := Split(PageBody(lines, width, height), '\n');
      && rows == CenterRows(FitRows(lines, TargetRows(height)), InnerWidth(width))
      && |rows| == TargetRows(height)
      && (forall i :: 0 <= i < |rows| ==> |rows[i]| == InnerWidth(width))
  {
    var fitted := FitRows(lines, TargetRows(height));
    var rows := CenterRows(fitted, InnerWidth(width));
    forall i | 0 <= i < |fitted|
      ensures '\n' !in fitted[i]
    {
      if |lines| > TargetRows(height) {
        assert fitted[i] == lines[i];
      } else {
        var top := VerticalPadding(|lines|, TargetRows(height)).top;
        if top <= i < top + |lines| {
          assert fitted[i] == fitted[top..top + |lines|][i - top];
        }
      }
    }
    forall i | 0 <= i < |rows|
      ensures '\n' !in rows[i]
    {
      CenterRowNoNewline(fitted[i], InnerWidth(width));
    }
    SplitJoin(rows, '\n');
  }

  /** The markdown and composite panels pad like `render_page` but keep every rendered row, however many. */
  function DocumentRows(rendered: seq<string>, height: int): (r: seq<string>)
    ensures |rendered| >= TargetRows(height) ==> r == rendered
    ensures |rendered| < TargetRows(height) ==> |r| == TargetRows(height)
  {
    PadRows(rendered, TargetRows(height))
  }

  /** A document panel always keeps its rendered rows, in order, as one contiguous block. */
  lemma DocumentRowsKeepContent(rendered: seq<string>, height: int)
    ensures var top := VerticalPadding(|rendered|, TargetRows(height)).top;
      && top + |rendered| <= |DocumentRows(rendered, height)|
      && DocumentRows(rendered, height)[top..top + |rendered|] == rendered
  {
  }

  /** The markdown and composite panels are never narrower than 20 cells and give up exactly `2 + 2 * padding` cells otherwise. */
  lemma DocInnerWidthBounds(width: int, padding: int)
    ensures DocInnerWidth(width, padding) >= 20
    ensures DocInnerWidth(width, padding) > 20 ==> DocInnerWidth(width, padding) + 2 + 2 * padding == width
    ensures InnerWidth(width) >= 10
    ensures InnerWidth(width) > 10 ==> InnerWidth(width) + 6 == width
  {
  }
}
