/**
 * `interactive_page_loop` of main.py: the page shown is moved by the key tokens the raw reader
 * yields, and every move re-renders the page. What a render draws is given by the dispatch of
 * `render_current` on the page's kind; clearing the screen and the Rich calls are not modelled.
 */
module Navigation {
  import opened Wrappers
  import opened Pages
  import Strings
  import KeyReader

  const LEFT: string := "\U{1B}[D"
  const RIGHT: string := "\U{1B}[C"

  /** Why the loop returned. */
  datatype Exit =
    | NoPages      // the page list was empty: a message is printed and no input is read
    | Quit         // `q` or `Q`
    | PastLast     // right arrow or Enter on the last page
    | Interrupted  // Ctrl-C, whose `KeyboardInterrupt` the loop swallows
    | InputEnded   // no more input

  /** What one key does: nothing, show another page, or end the loop. */
  datatype Action = Stay | MoveTo(index: nat) | Stop(exit: Exit)

  predicate IsQuit(key: string) {
    key == "q" || key == "Q"
  }

  predicate IsForward(key: string) {
    key == RIGHT || key == "\n" || key == "\r"
  }

  /** The key handling of the loop's body, on page `current` of `total`. */
  function Step(key: string, current: nat, total: nat): (a: Action)
    requires current < total
    ensures a.MoveTo? ==> a.index < total && (a.index == current + 1 || a.index + 1 == current)
    ensures a.Stop? ==> a.exit == Quit || a.exit == PastLast
  {
    if IsQuit(key) then Stop(Quit)
    else if key == LEFT then (if current > 0 then MoveTo(current - 1) else Stay)
    else if IsForward(key) then (if current < total - 1 then MoveTo(current + 1) else Stop(PastLast))
    else Stay
  }

  /** The pages rendered after the first one, in order, the page shown at the end, and why the loop ended. */
  datatype Session = Session(renders: seq<nat>, final: nat, exit: Exit)

  /** The loop over the tokens, starting on page `current`; running out of tokens is `InputEnded`. */
  function RunFrom(tokens: seq<string>, current: nat, total: nat): (s: Session)
    requires current < total
    ensures s.final < total && |s.renders| <= |tokens|
    ensures s.exit == InputEnded || s.exit == Quit || s.exit == PastLast
    decreases |tokens|
  {
    if tokens == [] then Session([], current, InputEnded)
    else match Step(tokens[0], current, total)
      case Stay => RunFrom(tokens[1..], current, total)
      case MoveTo(next) =>
        var rest := RunFrom(tokens[1..], next, total);
        Session([next] + rest.renders, rest.final, rest.exit)
      case Stop(exit) => Session([], current, exit)
  }

  /** The loop's state: the page shown, out of `total`, and every page rendered so far. */
  class Navigator {
    const total: nat
    var current: nat
    var renders: seq<nat>

    /** The page shown is a page, and it is the one rendered last. */
    predicate Valid()
      reads this
    {
      current < total && renders != [] && renders[|renders| - 1] == current
    }

    /** `current = 0` followed by the first `render_current()`. */
    constructor(total: nat)
      requires total > 0
      ensures Valid() && this.total == total && current == 0 && renders == [0]
    {
      this.total := total;
      current := 0;
      renders := [0];
    }

    /** One iteration of the loop's body; `stop` is the reason to break out, if any. */
    method HandleKey(key: string) returns (stop: Exit, stops: bool)
      requires Valid()
      modifies this
      ensures Valid()
      ensures var a := Step(key, old(current), total);
        && stops == a.Stop? && (stops ==> stop == a.exit)
        && current == (if a.MoveTo? then a.index else old(current))
        && renders == old(renders) + (if a.MoveTo? then [a.index] else [])
    {
      stop, stops := InputEnded, false;
      if key == "q" || key == "Q" {
        stop, stops := Quit, true;
        return;
      }
      if key == LEFT {
        if current > 0 {
          current := current - 1;
          renders := renders + [current];
        }
        return;
      }
      if key == RIGHT || key == "\n" || key == "\r" {
        if current < total - 1 {
          current := current + 1;
          renders := renders + [current];
        } else {
          stop, stops := PastLast, true;
        }
        return;
      }
    }

    /** The `for key in ...` loop over the tokens. */
    method Run(tokens: seq<string>) returns (exit: Exit)
      requires Valid()
      modifies this
      ensures Valid()
      ensures var s := RunFrom(tokens, old(current), total);
        renders == old(renders) + s.renders && current == s.final && exit == s.exit
    {
      ghost var start := renders;
      ghost var done: seq<nat> := [];
      ghost var whole := RunFrom(tokens, current, total);
      var i := 0;
      while i < |tokens|
        invariant 0 <= i <= |tokens| && Valid()
        invariant renders == start + done
        invariant var s := RunFrom(tokens[i..], current, total);
          whole == Session(done + s.renders, s.final, s.exit)
      {
        ghost var a := Step(tokens[i], current, total);
        ghost var rest := RunFrom(tokens[i + 1..], if a.MoveTo? then a.index else current, total);
        RunFromStep(tokens, i, current, total);
        var stop, stops := HandleKey(tokens[i]);
        if stops {
          return stop;
        }
        ghost var moved := if a.MoveTo? then [a.index] else [];
        Strings.AppendAssoc(start, done, moved);
        Strings.AppendAssoc(done, moved, rest.renders);
        done := done + moved;
        i := i + 1;
      }
      exit := InputEnded;
    }
  }

  /** The loop's first key decides between staying, moving on with the rest, and stopping. */
  lemma RunFromStep(tokens: seq<string>, i: nat, current: nat, total: nat)
    requires i < |tokens| && current < total
    ensures var a := Step(tokens[i], current, total);
      var s := RunFrom(tokens[i..], current, total);
      && (a.Stay? ==> s == RunFrom(tokens[i + 1..], current, total))
      && (a.MoveTo? ==> var r := RunFrom(tokens[i + 1..], a.index, total); s == Session([a.index] + r.renders, r.final, r.exit))
      && (a.Stop? ==> s == Session([], current, a.exit))
  {
    assert tokens[i..][0] == tokens[i];
    assert tokens[i..][1..] == tokens[i + 1..];
  }

  /** What `render_current` hands to a renderer. */
  datatype Screen =
    | MarkdownScreen(source: string, sidePadding: int)
    | LinesScreen(lines: seq<Block>)
    | CompositeScreen(blocks: seq<Block>, padding: int)

  /**
   * `render_current`'s dispatch: a markdown page whose content is not a string shows an empty
   * source, a lines page whose content is not a list shows no lines (its padding is not passed
   * on), and any other kind is rendered as a composite page.
   */
  function ScreenOf(page: PageData): Screen {
    match page.kind
    case Markdown => MarkdownScreen(if page.content.Text? then page.content.text else [], page.padding)
    case Lines => LinesScreen(if page.content.Items? then page.content.items else [])
    case Composite => CompositeScreen(if page.content.Items? then page.content.items else [], page.padding)
  }

  /**
   * `interactive_page_loop` over the pages and the raw input: the pages rendered, in order
   * (the first render of page 0 included), what each render draws, and why the loop ended.
   */
  method InteractivePageLoop(pages: seq<PageData>, input: seq<KeyReader.Event>)
    returns (renders: seq<nat>, screens: seq<Screen>, exit: Exit)
    ensures pages == [] ==> renders == [] && exit == NoPages
    ensures pages != [] ==>
      var o := KeyReader.Tokenize(input, false);
      var s := RunFrom(o.tokens, 0, |pages|);
      && renders == [0] + s.renders
      && exit == (if s.exit == InputEnded && o.end == KeyReader.Interrupted then Interrupted else s.exit)
    ensures |screens| == |renders|
    ensures forall k :: 0 <= k < |renders| ==> renders[k] < |pages| && screens[k] == ScreenOf(pages[renders[k]])
  {
    if |pages| == 0 {
      return [], [], NoPages;
    }
    var nav := new Navigator(|pages|);
    var tokens, end := KeyReader.ReadKeys(input, false);
    exit := nav.Run(tokens);
    if exit == InputEnded && end == KeyReader.Interrupted {
      exit := Interrupted;
    }
    renders := nav.renders;
    RendersInRange(tokens, 0, |pages|);
    screens := seq(|renders|, k requires 0 <= k < |renders| => ScreenOf(pages[renders[k]]));
  }

  /**
   * Every page rendered is a page, each render moves one page from the one before, the loop
   * ends on a page, and there are never more renders than keys.
   */
  lemma {:induction false} RendersInRange(tokens: seq<string>, current: nat, total: nat)
    requires current < total
    ensures var s := RunFrom(tokens, current, total);
      && s.final < total
      && |s.renders| <= |tokens|
      && (forall k :: 0 <= k < |s.renders| ==> s.renders[k] < total)
      && (s.renders != [] ==> s.renders[0] == current + 1 || s.renders[0] + 1 == current)
      && (forall k :: 0 < k < |s.renders| ==> s.renders[k] == s.renders[k - 1] + 1 || s.renders[k] + 1 == s.renders[k - 1])
      && (s.renders != [] ==> s.final == s.renders[|s.renders| - 1])
      && (s.renders == [] ==> s.final == current)
    decreases |tokens|
  {
    if tokens != [] {
      match Step(tokens[0], current, total)
      case Stay =>
        RendersInRange(tokens[1..], current, total);
      case MoveTo(next) =>
        RendersInRange(tokens[1..], next, total);
      case Stop(_) =>
    }
  }

  /** Keys other than `q`, `Q`, the arrows, `"\n"` and `"\r"` change nothing and render nothing. */
  lemma {:induction false} IgnoredKeys(tokens: seq<string>, current: nat, total: nat)
    requires current < total
    requires forall k :: 0 <= k < |tokens| ==> !IsQuit(tokens[k]) && tokens[k] != LEFT && !IsForward(tokens[k])
    ensures RunFrom(tokens, current, total) == Session([], current, InputEnded)
    decreases |tokens|
  {
    if tokens != [] {
      IgnoredKeys(tokens[1..], current, total);
    }
  }

  /** Left on the first page and right or Enter on the last are the boundary cases: nothing, and the end. */
  lemma Boundaries(key: string, total: nat)
    requires total > 0
    ensures Step(LEFT, 0, total) == Stay
    ensures IsForward(key) ==> Step(key, total - 1, total) == Stop(PastLast)
    ensures IsQuit(key) ==> Step(key, total - 1, total) == Stop(Quit) && Step(key, 0, total) == Stop(Quit)
  {
  }

  /** Nothing after a quitting key is read: the session is decided by the keys up to it. */
  lemma {:induction false} QuitEndsSession(tokens: seq<string>, k: nat, current: nat, total: nat)
    requires current < total && k < |tokens| && IsQuit(tokens[k])
    ensures RunFrom(tokens, current, total) == RunFrom(tokens[..k + 1], current, total)
    ensures RunFrom(tokens, current, total).exit != InputEnded
    decreases k
  {
    assert tokens[..k + 1][0] == tokens[0];
    if k > 0 {
      assert tokens[..k + 1][1..] == tokens[1..][..k];
      match Step(tokens[0], current, total)
      case Stay =>
        QuitEndsSession(tokens[1..], k - 1, current, total);
      case MoveTo(next) =>
        QuitEndsSession(tokens[1..], k - 1, next, total);
      case Stop(_) =>
    }
  }

  /** A lines page is shown by its lines alone: the padding it was built with makes no difference. */
  lemma LinesPaddingIgnored(lines: seq<string>, p1: int, p2: int, title: Option<string>)
    ensures ScreenOf(LinesPage(lines, p1, title)) == ScreenOf(LinesPage(lines, p2, title))
    ensures var s := ScreenOf(LinesPage(lines, p1, title)); s.LinesScreen? && LinesOf(s.lines) == Some(lines)
  {
  }

  /** A page built by `markdown_page` shows its source without the trailing newlines, at its padding. */
  lemma MarkdownScreenOfPage(markdown: string, padding: int, title: Option<string>)
    ensures ScreenOf(MarkdownPage(markdown, padding, title)) == MarkdownScreen(Strings.RStripChar(markdown, '\n'), padding)
  {
  }

  /** Three pages, three right arrows: pages 1 and 2 are shown and the third arrow ends the loop on the last page. */
  lemma ThreeRights()
    ensures RunFrom([RIGHT, RIGHT, RIGHT], 0, 3) == Session([1, 2], 2, PastLast)
  {
    assert Step(RIGHT, 0, 3) == MoveTo(1) && Step(RIGHT, 1, 3) == MoveTo(2) && Step(RIGHT, 2, 3) == Stop(PastLast);
    assert [RIGHT, RIGHT, RIGHT][1..] == [RIGHT, RIGHT];
    assert [RIGHT, RIGHT][1..] == [RIGHT];
    assert RunFrom([RIGHT], 2, 3) == Session([], 2, PastLast);
    assert RunFrom([RIGHT, RIGHT], 1, 3) == Session([2], 2, PastLast);
  }
}
