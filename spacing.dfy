/**
 * `_insert_space_after_punctuation` of main.py: a space is inserted after punctuation that is
 * directly followed by a non-space character. The exemptions are image openers `![`, link
 * openers `](`, a `.` between alphanumerics and the `:` of an `http`, `https` or `ftp` scheme.
 * Fenced code blocks and inline code spans are left alone.
 */
module Spacing {
  import opened Wrappers
  import opened Strings

  /** The punctuation that may get a space after it: `,.:;!?)]}` and the full-width comma and full stop. */
  predicate IsPunct(c: char) {
    || c == ',' || c == '.' || c == ':' || c == ';' || c == '!' || c == '?'
    || c == ')' || c == ']' || c == '}' || c == '\U{FF0C}' || c == '\U{3002}'
  }

  /** A character of a URL scheme: alphanumeric, `+`, `-` or `.`. */
  predicate IsSchemeChar(c: char) {
    IsAlnum(c) || c == '+' || c == '-' || c == '.'
  }

  /** The start of the run of scheme characters that ends just before index `i`. */
  function SchemeStart(seg: string, i: nat): (j: nat)
    requires i <= |seg|
    ensures j <= i
    ensures forall k :: j <= k < i ==> IsSchemeChar(seg[k])
    ensures j == 0 || !IsSchemeChar(seg[j - 1])
    decreases i
  {
    if i > 0 && IsSchemeChar(seg[i - 1]) then SchemeStart(seg, i - 1) else i
  }

  /** `scheme in ("http", "https", "ftp")`, spelled out character by character. */
  predicate IsSpacedScheme(scheme: string) {
    || (|scheme| == 4 && scheme[0] == 'h' && scheme[1] == 't' && scheme[2] == 't' && scheme[3] == 'p')
    || (|scheme| == 5 && scheme[0] == 'h' && scheme[1] == 't' && scheme[2] == 't' && scheme[3] == 'p' && scheme[4] == 's')
    || (|scheme| == 3 && scheme[0] == 'f' && scheme[1] == 't' && scheme[2] == 'p')
  }

  /** The character-by-character test is the source's membership test. */
  lemma SpacedSchemes(scheme: string)
    ensures IsSpacedScheme(scheme) <==> scheme == "http" || scheme == "https" || scheme == "ftp"
  {
  }

  /**
   * Whether `process_segment` puts a space after `seg[i]`: it is punctuation, a non-space
   * character follows, and none of the exemptions applies.
   */
  predicate NeedsSpace(seg: string, i: nat)
    requires i < |seg|
    ensures NeedsSpace(seg, i) ==> IsPunct(seg[i]) && i + 1 < |seg| && !IsSpace(seg[i + 1])
  {
    var ch := seg[i];
    if ch == '!' && i + 1 < |seg| && seg[i + 1] == '[' then false
    else if !IsPunct(ch) || i + 1 == |seg| then false
    else
      var next := seg[i + 1];
      if ch == ']' && next == '(' then false
      else if IsSpace(next) then false
      else if ch == '.' && i > 0 && IsAlnum(seg[i - 1]) && IsAlnum(next) then false
      else if ch == ':' && IsSpacedScheme(seg[SchemeStart(seg, i)..i]) && next == '/' then false
      else true
  }

  /** `seg[i]` followed by the space it needs, if any. */
  function Emit(seg: string, i: nat): (r: string)
    requires i < |seg|
  {
    if NeedsSpace(seg, i) then [seg[i], ' '] else [seg[i]]
  }

  /** The output of `process_segment` for the first `n` characters of `seg`. */
  function SpaceOut(seg: string, n: nat): (r: string)
    requires n <= |seg|
    ensures n <= |r| <= 2 * n
  {
    if n == 0 then [] else SpaceOut(seg, n - 1) + Emit(seg, n - 1)
  }

  /** `process_segment` */
  function ProcessSegment(seg: string): (r: string)
    ensures |seg| <= |r| <= 2 * |seg|
  {
    SpaceOut(seg, |seg|)
  }

  /** `process_segment`'s scanning loop, with its look-back over the scheme before a `:`. */
  method ProcessSegmentLoop(seg: string) returns (r: string)
    ensures r == ProcessSegment(seg)
  {
    if seg == [] {
      return seg;
    }
    var result: string := [];
    var i := 0;
    var n := |seg|;
    while i < n
      invariant 0 <= i <= n
      invariant result == SpaceOut(seg, i)
    {
      var ch := seg[i];
      var spaced := SpaceAfter(seg, i);
      if spaced {
        result := result + [ch, ' '];
      } else {
        result := result + [ch];
      }
      i := i + 1;
    }
    r := result;
  }

  /**
   * The branches of `process_segment`'s loop body for the character at `i`: whether it is
   * appended with a space after it. The look-back over the scheme before a `:` is a loop.
   */
  method SpaceAfter(seg: string, i: nat) returns (spaced: bool)
    requires i < |seg|
    ensures spaced == NeedsSpace(seg, i)
  {
    var n := |seg|;
    var ch := seg[i];
    if ch == '!' && i + 1 < n && seg[i + 1] == '[' {
      return false;
    }
    if !IsPunct(ch) {
      return false;
    }
    var next: string := if i + 1 < n then [seg[i + 1]] else [];
    if ch == ']' && next == "(" {
      return false;
    }
    if next == [] || IsSpace(next[0]) {
      return false;
    }
    var prev: string := if i - 1 >= 0 then [seg[i - 1]] else [];
    if ch == '.' {
      if prev != [] && IsAlnum(prev[0]) && IsAlnum(next[0]) {
        return false;
      }
    }
    if ch == ':' {
      var j := i - 1;
      while j >= 0 && IsSchemeChar(seg[j])
        invariant -1 <= j < i
        invariant forall k :: j < k < i ==> IsSchemeChar(seg[k])
      {
        j := j - 1;
      }
      SchemeStartUnique(seg, i, j + 1);
      var scheme := seg[j + 1..i];
      if IsSpacedScheme(scheme) && next == "/" {
        return false;
      }
    }
    return true;
  }

  /** A maximal run of scheme characters ending before `i` starts at `SchemeStart(seg, i)`. */
  lemma {:induction false} SchemeStartUnique(seg: string, i: nat, j: nat)
    requires j <= i <= |seg|
    requires forall k :: j <= k < i ==> IsSchemeChar(seg[k])
    requires j == 0 || !IsSchemeChar(seg[j - 1])
    ensures SchemeStart(seg, i) == j
    decreases i
  {
    if i > j {
      SchemeStartUnique(seg, i - 1, j);
    }
  }

  /** Where `seg[i]` lands in the output: the length of the output for the characters before it. */
  function Pos(seg: string, i: nat): nat
    requires i <= |seg|
  {
    |SpaceOut(seg, i)|
  }

  /** The output for a prefix is a prefix of the output for a longer prefix. */
  lemma {:induction false} SpaceOutPrefix(seg: string, n: nat, m: nat)
    requires n <= m <= |seg|
    ensures Pos(seg, n) <= Pos(seg, m)
    ensures SpaceOut(seg, m)[..Pos(seg, n)] == SpaceOut(seg, n)
    decreases m
  {
    if n < m {
      SpaceOutPrefix(seg, n, m - 1);
      var prev := SpaceOut(seg, m - 1);
      assert SpaceOut(seg, m) == prev + Emit(seg, m - 1);
      assert SpaceOut(seg, m)[..Pos(seg, n)] == prev[..Pos(seg, n)];
    }
  }

  /**
   * Only single spaces are inserted: every character of the segment appears in order at
   * `Pos(seg, i)`, followed by one inserted space exactly when `NeedsSpace(seg, i)` and by
   * the next character of the segment otherwise; nothing else is in the output.
   */
  lemma InsertsOnlySpaces(seg: string, i: nat)
    requires i < |seg|
    ensures Pos(seg, 0) == 0 && Pos(seg, |seg|) == |ProcessSegment(seg)|
    ensures Pos(seg, i + 1) == Pos(seg, i) + (if NeedsSpace(seg, i) then 2 else 1)
    ensures Pos(seg, i + 1) <= |ProcessSegment(seg)|
    ensures ProcessSegment(seg)[Pos(seg, i)] == seg[i]
    ensures NeedsSpace(seg, i) ==> ProcessSegment(seg)[Pos(seg, i) + 1] == ' '
  {
    SpaceOutPrefix(seg, i + 1, |seg|);
    var out := ProcessSegment(seg);
    assert out[..Pos(seg, i + 1)] == SpaceOut(seg, i) + Emit(seg, i);
    assert out[Pos(seg, i)] == out[..Pos(seg, i + 1)][Pos(seg, i)];
    if NeedsSpace(seg, i) {
      assert out[Pos(seg, i) + 1] == out[..Pos(seg, i + 1)][Pos(seg, i) + 1];
    }
  }

  /** Removing the inserted spaces gives the segment back: the output has one more character per needed space. */
  lemma {:induction false} SpacedLength(seg: string, n: nat)
    requires n <= |seg|
    ensures |SpaceOut(seg, n)| == n + |set i | 0 <= i < n && NeedsSpace(seg, i)|
    decreases n
  {
    if n > 0 {
      SpacedLength(seg, n - 1);
      SpacedCountStep(seg, n);
    }
  }

  /** Counting the characters that need a space one more character along. */
  lemma SpacedCountStep(seg: string, n: nat)
    requires 0 < n <= |seg|
    ensures |set i | 0 <= i < n && NeedsSpace(seg, i)|
      == |set i | 0 <= i < n - 1 && NeedsSpace(seg, i)| + |Emit(seg, n - 1)| - 1
  {
    var before := set i | 0 <= i < n - 1 && NeedsSpace(seg, i);
    var after := set i | 0 <= i < n && NeedsSpace(seg, i);
    if NeedsSpace(seg, n - 1) {
      assert after == before + {n - 1};
    } else {
      assert after == before;
    }
  }

  /** A segment where no character needs a space is left as it is. */
  lemma {:induction false} NoNeedUnchanged(seg: string, n: nat)
    requires n <= |seg|
    requires forall k :: 0 <= k < |seg| ==> !NeedsSpace(seg, k)
    ensures SpaceOut(seg, n) == seg[..n]
    decreases n
  {
    if n > 0 {
      NoNeedUnchanged(seg, n - 1);
      assert seg[..n] == seg[..n - 1] + [seg[n - 1]];
    }
  }

  /** Processing a processed segment again changes nothing. */
  lemma ProcessSegmentIdempotent(seg: string)
    ensures ProcessSegment(ProcessSegment(seg)) == ProcessSegment(seg)
  {
    var out := ProcessSegment(seg);
    forall p | 0 <= p < |out|
      ensures !NeedsSpace(out, p)
    {
      NothingLeftToSpace(seg, p);
    }
    NoNeedUnchanged(out, |out|);
  }

  /** No character of a processed segment needs a space any more. */
  lemma NothingLeftToSpace(seg: string, p: nat)
    requires p < |ProcessSegment(seg)|
    ensures !NeedsSpace(ProcessSegment(seg), p)
  {
    var out := ProcessSegment(seg);
    var i := Origin(seg, p, |seg|);
    if p != Pos(seg, i) {
      InsertsOnlySpaces(seg, i);
      assert out[p] == ' ';
    } else {
      OriginalStillSpaced(seg, i);
    }
  }

  /**
   * The index of the character an output position comes from: position `p` below `Pos(seg, n)`
   * is `Pos(seg, i)` or the space inserted right after it, for some `i < n`.
   */
  function Origin(seg: string, p: nat, n: nat): (i: nat)
    requires n <= |seg| && p < Pos(seg, n)
    ensures i < n
    ensures p == Pos(seg, i) || (NeedsSpace(seg, i) && p == Pos(seg, i) + 1)
    decreases n
  {
    if p < Pos(seg, n - 1) then Origin(seg, p, n - 1) else n - 1
  }

  /** Where no space was inserted after `seg[i]`, its neighbour in the output is the next character. */
  lemma NextInOutput(seg: string, i: nat)
    requires i + 1 < |seg| && !NeedsSpace(seg, i)
    ensures Pos(seg, i) + 1 == Pos(seg, i + 1) < |ProcessSegment(seg)|
    ensures ProcessSegment(seg)[Pos(seg, i) + 1] == seg[i + 1]
  {
    InsertsOnlySpaces(seg, i);
    InsertsOnlySpaces(seg, i + 1);
  }

  /** Only punctuation is ever followed by an inserted space. */
  lemma OnlyPunctSpaced(seg: string, i: nat)
    requires i < |seg| && !IsPunct(seg[i])
    ensures !NeedsSpace(seg, i)
  {
  }

  /** No space is inserted inside a run of letters: each letter moves the output on by one. */
  lemma {:induction false} LettersPos(seg: string, j: nat, k: nat)
    requires j <= k <= |seg|
    requires forall m :: j <= m < k ==> IsLetter(seg[m])
    ensures Pos(seg, k) == Pos(seg, j) + (k - j)
    decreases k - j
  {
    if j < k {
      LettersPos(seg, j, k - 1);
      OnlyPunctSpaced(seg, k - 1);
      InsertsOnlySpaces(seg, k - 1);
    }
  }

  /** A run of letters is copied without any space inserted inside it. */
  lemma LettersKept(seg: string, j: nat, k: nat)
    requires j <= k <= |seg|
    requires forall m :: j <= m < k ==> IsLetter(seg[m])
    ensures Pos(seg, k) == Pos(seg, j) + (k - j)
    ensures Pos(seg, k) <= |ProcessSegment(seg)|
    ensures forall m :: j <= m < k ==> ProcessSegment(seg)[Pos(seg, j) + (m - j)] == seg[m]
  {
    LettersPos(seg, j, k);
    SpaceOutPrefix(seg, k, |seg|);
    forall m | j <= m < k
      ensures Pos(seg, j) + (m - j) < |ProcessSegment(seg)|
      ensures ProcessSegment(seg)[Pos(seg, j) + (m - j)] == seg[m]
    {
      LettersPos(seg, j, m);
      InsertsOnlySpaces(seg, m);
    }
  }

  /** The schemes that keep their `:` unspaced are made of letters. */
  lemma SpacedSchemeLetters(scheme: string)
    requires IsSpacedScheme(scheme)
    ensures forall m :: 0 <= m < |scheme| ==> IsLetter(scheme[m])
  {
  }

  /** A run of letters appears as the same run in the output. */
  lemma LetterRunImage(seg: string, j: nat, k: nat)
    requires j <= k <= |seg|
    requires forall m :: j <= m < k ==> IsLetter(seg[m])
    ensures Pos(seg, j) <= Pos(seg, k) <= |ProcessSegment(seg)|
    ensures ProcessSegment(seg)[Pos(seg, j)..Pos(seg, k)] == seg[j..k]
  {
    LettersKept(seg, j, k);
    var out := ProcessSegment(seg);
    var image := out[Pos(seg, j)..Pos(seg, k)];
    forall m | 0 <= m < |image|
      ensures image[m] == seg[j..k][m]
    {
      assert out[Pos(seg, j) + ((j + m) - j)] == seg[j + m];
    }
  }

  /** A character that cannot belong to a scheme is followed in the output by another one or by itself. */
  lemma BoundaryKept(seg: string, j: nat)
    requires 0 < j <= |seg| && !IsSchemeChar(seg[j - 1])
    ensures 0 < Pos(seg, j) <= |ProcessSegment(seg)|
    ensures !IsSchemeChar(ProcessSegment(seg)[Pos(seg, j) - 1])
  {
    InsertsOnlySpaces(seg, j - 1);
  }

  /** The characters of an `http`, `https` or `ftp` scheme before index `i` are letters. */
  lemma SchemeLetters(seg: string, j: nat, i: nat)
    requires j <= i <= |seg| && IsSpacedScheme(seg[j..i])
    ensures forall m :: j <= m < i ==> IsLetter(seg[m])
  {
    var scheme := seg[j..i];
    SpacedSchemeLetters(scheme);
    forall m | j <= m < i
      ensures IsLetter(seg[m])
    {
      assert seg[m] == scheme[m - j];
    }
  }

  /** A copy of a scheme after a non-scheme character, or at the start, is where the look-back from its end stops. */
  lemma SchemeRunCopied(out: string, pj: nat, pi: nat, scheme: string)
    requires pj <= pi <= |out| && out[pj..pi] == scheme && IsSpacedScheme(scheme)
    requires pj == 0 || !IsSchemeChar(out[pj - 1])
    ensures SchemeStart(out, pi) == pj
  {
    SpacedSchemeLetters(scheme);
    forall m | pj <= m < pi
      ensures IsSchemeChar(out[m])
    {
      assert out[m] == scheme[m - pj];
    }
    SchemeStartUnique(out, pi, pj);
  }

  /** An `http`, `https` or `ftp` scheme before `seg[i]` is found again, unchanged, before its image in the output. */
  lemma SchemeKept(seg: string, i: nat)
    requires i < |seg|
    requires IsSpacedScheme(seg[SchemeStart(seg, i)..i])
    ensures Pos(seg, i) < |ProcessSegment(seg)|
    ensures var j := SchemeStart(seg, i);
      && Pos(seg, j) <= Pos(seg, i)
      && SchemeStart(ProcessSegment(seg), Pos(seg, i)) == Pos(seg, j)
      && ProcessSegment(seg)[Pos(seg, j)..Pos(seg, i)] == seg[j..i]
  {
    var j := SchemeStart(seg, i);
    InsertsOnlySpaces(seg, i);
    SchemeLetters(seg, j, i);
    LetterRunImage(seg, j, i);
    if j > 0 {
      BoundaryKept(seg, j);
    }
    SchemeRunCopied(ProcessSegment(seg), Pos(seg, j), Pos(seg, i), seg[j..i]);
  }

  /** A character of the segment does not need a space in the output any more. */
  lemma OriginalStillSpaced(seg: string, i: nat)
    requires i < |seg|
    ensures Pos(seg, i) < |ProcessSegment(seg)|
    ensures !NeedsSpace(ProcessSegment(seg), Pos(seg, i))
  {
    var out := ProcessSegment(seg);
    var p := Pos(seg, i);
    InsertsOnlySpaces(seg, i);
    SpaceOutPrefix(seg, i + 1, |seg|);
    if !NeedsSpace(seg, i) && i + 1 < |seg| {
      NextInOutput(seg, i);
      var ch := seg[i];
      if ch == '.' && i > 0 && IsAlnum(seg[i - 1]) {
        InsertsOnlySpaces(seg, i - 1);
        assert out[p - 1] == seg[i - 1];
      }
      if ch == ':' && IsSpacedScheme(seg[SchemeStart(seg, i)..i]) {
        SchemeKept(seg, i);
      }
    }
  }

  /** A piece of a line outside fenced blocks: an inline code span, or text that gets spaced. */
  datatype Piece = Code(text: string) | Prose(text: string)

  /** The end of the run of backticks starting at `i`. */
  function TickRunEnd(line: string, i: nat): (e: nat)
    requires i <= |line|
    ensures i <= e <= |line|
    ensures forall k :: i <= k < e ==> line[k] == '`'
    ensures e == |line| || line[e] != '`'
    decreases |line| - i
  {
    if i < |line| && line[i] == '`' then TickRunEnd(line, i + 1) else i
  }

  /** A run of backticks from `i` to a non-backtick or the end of the line ends at `TickRunEnd(line, i)`. */
  lemma {:induction false} TickRunEndUnique(line: string, i: nat, e: nat)
    requires i <= e <= |line|
    requires forall k :: i <= k < e ==> line[k] == '`'
    requires e == |line| || line[e] != '`'
    ensures TickRunEnd(line, i) == e
    decreases e - i
  {
    if i < e {
      TickRunEndUnique(line, i + 1, e);
    }
  }

  /** `n` backticks start at index `k` of `line`. */
  predicate TicksAt(line: string, k: nat, n: nat) {
    k + n <= |line| && forall m :: k <= m < k + n ==> line[m] == '`'
  }

  /** `line.find("`" * n, start)`: the first index at or after `start` where `n` backticks start, `None` for -1. */
  function FindTicks(line: string, n: nat, start: nat): (r: Option<nat>)
    requires start <= |line|
    ensures r.Some? ==> start <= r.value && TicksAt(line, r.value, n)
    decreases |line| - start
  {
    if start + n > |line| then None
    else if TicksAt(line, start, n) then Some(start)
    else FindTicks(line, n, start + 1)
  }

  /** `FindTicks` finds the first occurrence, and `None` means there is none. */
  lemma {:induction false} FindTicksFirst(line: string, n: nat, start: nat)
    requires start <= |line|
    ensures var r := FindTicks(line, n, start);
      && (r.Some? ==> forall k :: start <= k < r.value ==> !TicksAt(line, k, n))
      && (r.None? ==> forall k :: start <= k ==> !TicksAt(line, k, n))
    decreases |line| - start
  {
    if start + n <= |line| && !TicksAt(line, start, n) {
      FindTicksFirst(line, n, start + 1);
    }
  }

  /** A piece of a line and the index just after it. */
  datatype Cut = Cut(piece: Piece, next: nat)

  /**
   * The piece starting at index `i`: a backtick run opens a code span, anything else starts
   * text.
   */
  function PieceAt(line: string, i: nat): (c: Cut)
    requires i < |line|
    ensures i < c.next <= |line| && c.piece.text == line[i..c.next]
  {
    if line[i] == '`' then CodeCut(line, i) else TextCut(line, i)
  }

  /**
   * The piece at a backtick run: up to the end of the next occurrence of as many backticks,
   * and without one the rest of the line as text.
   */
  function CodeCut(line: string, i: nat): (c: Cut)
    requires i < |line| && line[i] == '`'
    ensures i < c.next <= |line| && c.piece.text == line[i..c.next]
  {
    var end := TickRunEnd(line, i);
    var ticks := end - i;
    match FindTicks(line, ticks, end)
    case None => Cut(Prose(line[i..]), |line|)
    case Some(close) => Cut(Code(line[i..close + ticks]), close + ticks)
  }

  /** The piece at any other character: text up to the next backtick or the end of the line. */
  function TextCut(line: string, i: nat): (c: Cut)
    requires i < |line| && line[i] != '`'
    ensures i < c.next <= |line| && c.piece.text == line[i..c.next]
  {
    match FindTicks(line, 1, i)
    case None => Cut(Prose(line[i..]), |line|)
    case Some(next) =>
      assert line[next] == '`';
      Cut(Prose(line[i..next]), next)
  }

  /** The line from index `i` cut into pieces. */
  function PiecesFrom(line: string, i: nat): seq<Piece>
    requires i <= |line|
    decreases |line| - i
  {
    if i == |line| then []
    else
      var c := PieceAt(line, i);
      [c.piece] + PiecesFrom(line, c.next)
  }

  /** A piece as it is output: code unchanged, text spaced. */
  function RenderPiece(p: Piece): string {
    match p
    case Code(text) => text
    case Prose(text) => ProcessSegment(text)
  }

  function RenderPieces(pieces: seq<Piece>): string
    decreases |pieces|
  {
    if pieces == [] then [] else RenderPiece(pieces[0]) + RenderPieces(pieces[1..])
  }

  function PieceTexts(pieces: seq<Piece>): string
    decreases |pieces|
  {
    if pieces == [] then [] else pieces[0].text + PieceTexts(pieces[1..])
  }

  /** One line outside a fenced block, as `_insert_space_after_punctuation` rebuilds it. */
  function ProcessLine(line: string): string {
    RenderPieces(PiecesFrom(line, 0))
  }

  /** The pieces put together are the line again. */
  lemma {:induction false} PiecesCover(line: string, i: nat)
    requires i <= |line|
    ensures PieceTexts(PiecesFrom(line, i)) == line[i..]
    decreases |line| - i
  {
    if i < |line| {
      var c := PieceAt(line, i);
      PiecesCover(line, c.next);
      assert line[i..] == line[i..c.next] + line[c.next..];
    }
  }


  /**
   * A code span: a run of `k` backticks, then at least one character, then the first later
   * occurrence of `k` backticks, which ends the span.
   */
  predicate IsCodeSpan(t: string) {
    IsSpanOf(t, TickRunEnd(t, 0))
  }

  /** `t` is a code span delimited by runs of `k` backticks. */
  predicate IsSpanOf(t: string, k: nat) {
    && k >= 1 && 2 * k < |t|
    && TicksAt(t, |t| - k, k)
    && forall m :: k <= m < |t| - k ==> !TicksAt(t, m, k)
  }

  /** No backtick from `i` up to `j`. */
  lemma NoTickBefore(line: string, i: nat, j: nat)
    requires i <= j <= |line|
    requires forall k :: i <= k < j ==> !TicksAt(line, k, 1)
    ensures '`' !in line[i..j]
  {
    forall m | 0 <= m < j - i
      ensures line[i..j][m] != '`'
    {
      assert !TicksAt(line, i + m, 1);
    }
  }

  /**
   * A code piece is a whole code span. A text piece holds no backtick, unless it runs to the
   * end of the line and starts with a backtick run that nothing closes.
   */
  lemma PieceShape(line: string, i: nat)
    requires i < |line|
    ensures var c := PieceAt(line, i);
      && (c.piece.Code? ==> IsCodeSpan(c.piece.text))
      && (c.piece.Prose? ==> '`' !in c.piece.text || (c.next == |line| && c.piece.text[0] == '`'))
  {
    if line[i] == '`' {
      TickPieceShape(line, i);
    } else {
      TextPieceShape(line, i);
    }
  }

  /** The piece at a backtick run is a code span, or the rest of the line when nothing closes the run. */
  lemma TickPieceShape(line: string, i: nat)
    requires i < |line| && line[i] == '`'
    ensures var c := CodeCut(line, i);
      && (c.piece.Code? ==> IsCodeSpan(c.piece.text))
      && (c.piece.Prose? ==> c.next == |line| && c.piece.text[0] == '`')
  {
    if CodeCut(line, i).piece.Code? {
      CodeCutIsSpan(line, i);
    }
  }

  /** A code piece cut at a backtick run is a code span. */
  lemma CodeCutIsSpan(line: string, i: nat)
    requires i < |line| && line[i] == '`' && CodeCut(line, i).piece.Code?
    ensures IsCodeSpan(CodeCut(line, i).piece.text)
  {
    var end := TickRunEnd(line, i);
    var close := FindTicks(line, end - i, end).value;
    FindTicksFirst(line, end - i, end);
    assert close != end;
    CodeSpanPiece(line, i, end, end - i, close);
  }

  /** The piece at any other character is text without a backtick. */
  lemma TextPieceShape(line: string, i: nat)
    requires i < |line| && line[i] != '`'
    ensures TextCut(line, i).piece.Prose? && '`' !in TextCut(line, i).piece.text
  {
    FindTicksFirst(line, 1, i);
    match FindTicks(line, 1, i)
    case None =>
      NoTickBefore(line, i, |line|);
    case Some(next) =>
      NoTickBefore(line, i, next);
  }

  /**
   * Code pieces are whole code spans. A text piece holds no backtick, unless it is the last
   * piece and starts with a backtick run that nothing closes.
   */
  lemma {:induction false} PiecesShape(line: string, i: nat)
    requires i <= |line|
    ensures var ps := PiecesFrom(line, i);
      forall k :: 0 <= k < |ps| ==>
        && (ps[k].Code? ==> IsCodeSpan(ps[k].text))
        && (ps[k].Prose? ==> '`' !in ps[k].text || (k == |ps| - 1 && ps[k].text[0] == '`'))
    decreases |line| - i
  {
    if i < |line| {
      var c := PieceAt(line, i);
      PieceShape(line, i);
      PiecesShape(line, c.next);
      var ps := PiecesFrom(line, i);
      forall k | 0 <= k < |ps|
        ensures ps[k].Code? ==> IsCodeSpan(ps[k].text)
        ensures ps[k].Prose? ==> '`' !in ps[k].text || (k == |ps| - 1 && ps[k].text[0] == '`')
      {
        if k > 0 {
          assert ps[k] == PiecesFrom(line, c.next)[k - 1];
        }
      }
    }
  }

  /** A backtick run inside a slice is a backtick run of the whole line, and back. */
  lemma TicksAtSlice(line: string, a: nat, b: nat, m: nat, k: nat)
    requires a <= b <= |line| && m + k <= b - a
    ensures TicksAt(line[a..b], m, k) <==> TicksAt(line, a + m, k)
  {
    var t := line[a..b];
    if TicksAt(t, m, k) {
      forall q | a + m <= q < a + m + k
        ensures line[q] == '`'
      {
        assert t[q - a] == line[q];
      }
    }
    if TicksAt(line, a + m, k) {
      forall q | m <= q < m + k
        ensures t[q] == '`'
      {
        assert t[q] == line[a + q];
      }
    }
  }

  /**
   * From `i`, `ticks` backticks up to `end`, at least one character, and the first later run of
   * as many backticks at `close`: the slice from `i` to the end of that run is a span of `ticks`.
   */
  lemma SpanOfSlice(line: string, i: nat, end: nat, ticks: nat, close: nat)
    requires end == i + ticks && i < end < close && close + ticks <= |line|
    requires TicksAt(line, close, ticks)
    requires forall k :: end <= k < close ==> !TicksAt(line, k, ticks)
    ensures IsSpanOf(line[i..close + ticks], ticks)
  {
    var t := line[i..close + ticks];
    TicksAtSlice(line, i, close + ticks, |t| - ticks, ticks);
    forall m | ticks <= m < |t| - ticks
      ensures !TicksAt(t, m, ticks)
    {
      TicksAtSlice(line, i, close + ticks, m, ticks);
    }
  }

  /** A slice starting at a backtick run starts with the same run. */
  lemma TickRunOfSlice(line: string, i: nat, end: nat, b: nat)
    requires i < end < b <= |line| && TickRunEnd(line, i) == end
    ensures TickRunEnd(line[i..b], 0) == end - i
  {
    var t := line[i..b];
    forall q | 0 <= q < end - i
      ensures t[q] == '`'
    {
      assert t[q] == line[i + q];
    }
    assert t[end - i] == line[end];
    TickRunEndUnique(t, 0, end - i);
  }

  /**
   * The code piece cut at a backtick run of `ticks` ending at `end`, closed by the run at
   * `close`, is a code span.
   */
  lemma CodeSpanPiece(line: string, i: nat, end: nat, ticks: nat, close: nat)
    requires end == i + ticks && i < end < close && close + ticks <= |line| && TickRunEnd(line, i) == end
    requires TicksAt(line, close, ticks)
    requires forall k :: end <= k < close ==> !TicksAt(line, k, ticks)
    ensures IsCodeSpan(line[i..close + ticks])
  {
    SpanOfSlice(line, i, end, ticks, close);
    TickRunOfSlice(line, i, end, close + ticks);
  }

  /** The line loop of `_insert_space_after_punctuation` on one line outside a fenced block. */
  method ProcessLineLoop(line: string) returns (r: string)
    ensures r == ProcessLine(line)
  {
    var i := 0;
    r := [];
    while i < |line|
      invariant 0 <= i <= |line|
      invariant r + RenderPieces(PiecesFrom(line, i)) == ProcessLine(line)
      decreases |line| - i
    {
      var out, next := NextPiece(line, i);
      ghost var rest := RenderPieces(PiecesFrom(line, next));
      assert (r + out) + rest == r + (out + rest);
      r := r + out;
      i := next;
    }
  }

  /** One pass of the line loop: the output for the piece at `i` and the index after it. */
  method NextPiece(line: string, i: nat) returns (out: string, next: nat)
    requires i < |line|
    ensures i < next <= |line|
    ensures RenderPieces(PiecesFrom(line, i)) == out + RenderPieces(PiecesFrom(line, next))
  {
    RenderStep(line, i);
    if line[i] == '`' {
      out, next := CodeStep(line, i);
    } else {
      out, next := TextStep(line, i);
    }
  }

  /**
   * One pass of the line loop at a backtick: count the run, then take everything up to the next
   * run of as many backticks as a code span, or, without one, space the rest of the line.
   */
  method CodeStep(line: string, i: nat) returns (out: string, next: nat)
    requires i < |line| && line[i] == '`'
    ensures next == CodeCut(line, i).next
    ensures out == RenderPiece(CodeCut(line, i).piece)
  {
    var start := i;
    var tickCount := 1;
    var j := i + 1;
    while j < |line| && line[j] == '`'
      invariant start < j <= |line| && tickCount == j - start
      invariant forall k :: start <= k < j ==> line[k] == '`'
    {
      tickCount := tickCount + 1;
      j := j + 1;
    }
    TickRunEndUnique(line, start, j);
    var closeIdx := FindTicks(line, tickCount, j);
    if closeIdx.None? {
      out := ProcessSegmentLoop(line[start..]);
      next := |line|;
    } else {
      out := line[start..closeIdx.value + tickCount];
      next := closeIdx.value + tickCount;
    }
  }

  /** One pass of the line loop at any other character: space the text up to the next backtick. */
  method TextStep(line: string, i: nat) returns (out: string, next: nat)
    requires i < |line| && line[i] != '`'
    ensures next == TextCut(line, i).next
    ensures out == RenderPiece(TextCut(line, i).piece)
  {
    var nextBt := FindTicks(line, 1, i);
    var chunk := if nextBt.None? then line[i..] else line[i..nextBt.value];
    out := ProcessSegmentLoop(chunk);
    next := if nextBt.None? then |line| else nextBt.value;
  }

  /** The output from `i` on is the output of the piece at `i` and then of the rest. */
  lemma RenderStep(line: string, i: nat)
    requires i < |line|
    ensures RenderPieces(PiecesFrom(line, i))
      == RenderPiece(PieceAt(line, i).piece) + RenderPieces(PiecesFrom(line, PieceAt(line, i).next))
  {
    var c := PieceAt(line, i);
    assert PiecesFrom(line, i) == [c.piece] + PiecesFrom(line, c.next);
  }

  /** Whether the loop is inside a fenced block, and the three-character marker that opened it. */
  datatype Fence = Fence(open: bool, marker: string)

  /** A line whose `lstrip()` starts with a fence marker. */
  predicate IsFenceLine(line: string) {
    StartsWith(LStrip(line), "```") || StartsWith(LStrip(line), "~~~")
  }

  /** A fence line opens a block when none is open and closes the open one only when it starts with the same marker. */
  function FenceStep(f: Fence, line: string): (g: Fence)
    ensures g.open != f.open ==> IsFenceLine(line)
    ensures g.open && !f.open ==> g.marker == "```" || g.marker == "~~~"
  {
    if !IsFenceLine(line) then f
    else if !f.open then Fence(true, LStrip(line)[..3])
    else if StartsWith(LStrip(line), f.marker) then Fence(false, "")
    else f
  }

  /** The fence state after the given lines. */
  function FenceAfter(lines: seq<string>): Fence
    decreases |lines|
  {
    if lines == [] then Fence(false, "")
    else FenceStep(FenceAfter(lines[..|lines| - 1]), lines[|lines| - 1])
  }

  /** Fence lines and the lines inside a block are copied; other lines are rebuilt. */
  function LineOut(f: Fence, line: string): string {
    if IsFenceLine(line) || f.open then line else ProcessLine(line)
  }

  function OutLines(lines: seq<string>): seq<string>
    decreases |lines|
  {
    if lines == [] then []
    else
      var init := lines[..|lines| - 1];
      OutLines(init) + [LineOut(FenceAfter(init), lines[|lines| - 1])]
  }

  /** `_insert_space_after_punctuation` */
  function InsertSpaces(text: string): string {
    Join(OutLines(Split(NormalizeNewlines(text), '\n')), '\n')
  }

  /** `_insert_space_after_punctuation`'s loop over the lines with its fence state. */
  method InsertSpacesLoop(text: string) returns (r: string)
    ensures r == InsertSpaces(text)
  {
    var lines := Split(NormalizeNewlines(text), '\n');
    var outLines: seq<string> := [];
    var inFence := false;
    var fenceTicks := "";
    for k := 0 to |lines|
      invariant Fence(inFence, fenceTicks) == FenceAfter(lines[..k])
      invariant outLines == OutLines(lines[..k])
    {
      var line := lines[k];
      var stripped := LStrip(line);
      assert lines[..k + 1][..k] == lines[..k];
      if StartsWith(stripped, "```") || StartsWith(stripped, "~~~") {
        if !inFence {
          inFence := true;
          fenceTicks := stripped[..3];
        } else {
          if StartsWith(stripped, fenceTicks) {
            inFence := false;
            fenceTicks := "";
          }
        }
        outLines := outLines + [line];
        continue;
      }
      if inFence {
        outLines := outLines + [line];
        continue;
      }
      var rebuilt := ProcessLineLoop(line);
      outLines := outLines + [rebuilt];
    }
    assert lines[..|lines|] == lines;
    r := Join(outLines, '\n');
  }

  /**
   * One output line per input line: fence lines and lines inside a fenced block are copied
   * unchanged, every other line is rebuilt piece by piece.
   */
  lemma {:induction false} OutLinesAt(lines: seq<string>, k: nat)
    requires k < |lines|
    ensures |OutLines(lines)| == |lines|
    ensures OutLines(lines)[k] == LineOut(FenceAfter(lines[..k]), lines[k])
    decreases |lines|
  {
    var init := lines[..|lines| - 1];
    if k < |lines| - 1 {
      OutLinesAt(init, k);
      assert init[..k] == lines[..k];
    } else if |init| > 0 {
      OutLinesAt(init, 0);
    }
  }

  /** An open block remembers a backtick or a tilde marker; a closed one has none. */
  lemma {:induction false} FenceMarker(lines: seq<string>)
    ensures FenceAfter(lines).open ==> FenceAfter(lines).marker in {"```", "~~~"}
    ensures !FenceAfter(lines).open ==> FenceAfter(lines).marker == ""
    decreases |lines|
  {
    if lines != [] {
      FenceMarker(lines[..|lines| - 1]);
    }
  }

  /**
   * `re.match(r"^```", line.strip())`: the stripped line starts with three backticks, which is the
   * same as the line without its leading whitespace starting with them (see `BacktickFenceStrip`).
   * The pre-scan knows only backtick fences.
   */
  predicate IsBacktickFence(line: string) {
    StartsWith(LStrip(line), "```")
  }

  /** Stripping the right end too does not change whether a line starts with a fence marker. */
  lemma BacktickFenceStrip(line: string)
    ensures IsBacktickFence(line) <==> StartsWith(Strip(line), "```")
  {
    StripPrefix(line, "```");
  }

  /** Whether the pre-scan is inside a block after the given lines: every backtick fence line toggles it. */
  function Toggled(lines: seq<string>): bool
    decreases |lines|
  {
    if lines == [] then false
    else Toggled(lines[..|lines| - 1]) != IsBacktickFence(lines[|lines| - 1])
  }

  /** The lines the pre-scan marks: fence lines and the lines after an odd number of them. */
  function FenceMarks(lines: seq<string>): set<nat> {
    set k | 0 <= k < |lines| && (IsBacktickFence(lines[k]) || Toggled(lines[..k]))
  }

  /** The number of backtick fence lines. */
  function CountBacktickFences(lines: seq<string>): nat
    decreases |lines|
  {
    if lines == [] then 0
    else CountBacktickFences(lines[..|lines| - 1]) + (if IsBacktickFence(lines[|lines| - 1]) then 1 else 0)
  }

  /** The pre-scan is inside a block exactly after an odd number of backtick fence lines. */
  lemma {:induction false} ToggledParity(lines: seq<string>)
    ensures Toggled(lines) <==> CountBacktickFences(lines) % 2 == 1
    decreases |lines|
  {
    if lines != [] {
      ToggledParity(lines[..|lines| - 1]);
    }
  }

  /** The fence pre-scan of `_render_markdown_page` over the lines of the spaced source. */
  method ScanFenceLines(lines: seq<string>) returns (fenceLines: set<nat>)
    ensures fenceLines == FenceMarks(lines)
  {
    fenceLines := {};
    var inFence := false;
    for i := 0 to |lines|
      invariant inFence == Toggled(lines[..i])
      invariant fenceLines == set k | 0 <= k < i && (IsBacktickFence(lines[k]) || Toggled(lines[..k]))
    {
      assert lines[..i + 1][..i] == lines[..i];
      if IsBacktickFence(lines[i]) {
        inFence := !inFence;
        fenceLines := fenceLines + {i};
      } else if inFence {
        fenceLines := fenceLines + {i};
      }
    }
  }
}
