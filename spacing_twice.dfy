/**
 * A second pass of `_insert_space_after_punctuation` changes nothing. The spaced text has the
 * same lines, the same fence lines and, line by line, the same code spans as the original; every
 * text piece of it is already spaced.
 */
module SpacingTwice {
  import opened Wrappers
  import opened Strings
  import opened Spacing

  /** Every character of a processed segment is a character of the segment or an inserted space. */
  lemma SegmentChars(seg: string, c: char)
    requires c != ' ' && c !in seg
    ensures c !in ProcessSegment(seg)
  {
    var out := ProcessSegment(seg);
    forall p | 0 <= p < |out|
      ensures out[p] != c
    {
      var i := Origin(seg, p, |seg|);
      InsertsOnlySpaces(seg, i);
    }
  }

  /** The rendering of the pieces from `i` holds no character the line lacks, except spaces. */
  lemma {:induction false} PiecesChars(line: string, i: nat, c: char)
    requires i <= |line| && c != ' ' && c !in line
    ensures c !in RenderPieces(PiecesFrom(line, i))
    decreases |line| - i
  {
    if i < |line| {
      var cut := PieceAt(line, i);
      var text := cut.piece.text;
      RenderStep(line, i);
      PiecesChars(line, cut.next, c);
      forall k | 0 <= k < |text|
        ensures text[k] != c
      {
        assert text[k] == line[i + k];
      }
      if cut.piece.Prose? {
        SegmentChars(text, c);
      }
    }
  }

  /** Spacing a line adds no character other than a space. */
  lemma LineChars(line: string, c: char)
    requires c != ' ' && c !in line
    ensures c !in ProcessLine(line)
  {
    PiecesChars(line, 0, c);
  }

  /** No punctuation in `s[i..j]`. */
  predicate NoPunct(s: string, i: nat, j: nat)
    requires i <= j <= |s|
  {
    forall k :: i <= k < j ==> !IsPunct(s[k])
  }

  /** The index of the first punctuation character at or after `i`, `|s|` when there is none. */
  function FirstPunct(s: string, i: nat): (q: nat)
    requires i <= |s|
    ensures i <= q <= |s| && NoPunct(s, i, q)
    ensures q == |s| || IsPunct(s[q])
    decreases |s| - i
  {
    if i < |s| && !IsPunct(s[i]) then FirstPunct(s, i + 1) else i
  }

  /** Without punctuation among the first `n` characters, their output is those characters. */
  lemma {:induction false} SpaceOutNoPunct(seg: string, n: nat)
    requires n <= |seg| && NoPunct(seg, 0, n)
    ensures SpaceOut(seg, n) == seg[..n]
    decreases n
  {
    if n > 0 {
      SpaceOutNoPunct(seg, n - 1);
      OnlyPunctSpaced(seg, n - 1);
      assert seg[..n] == seg[..n - 1] + [seg[n - 1]];
    }
  }

  /** Up to and including its first punctuation character, a segment is copied unchanged. */
  lemma SegmentPrefix(seg: string, n: nat)
    requires n < |seg| && NoPunct(seg, 0, n)
    ensures n + 1 <= |ProcessSegment(seg)|
    ensures ProcessSegment(seg)[..n + 1] == seg[..n + 1]
  {
    var out := ProcessSegment(seg);
    SpaceOutNoPunct(seg, n);
    InsertsOnlySpaces(seg, n);
    SpaceOutPrefix(seg, n, |seg|);
    PrefixSnoc(out, n);
    PrefixSnoc(seg, n);
  }

  lemma PrefixSnoc<T>(s: seq<T>, n: nat)
    requires n < |s|
    ensures s[..n + 1] == s[..n] + [s[n]]
  {
  }

  /** Two concatenations whose first parts agree on a prefix agree on it. */
  lemma AppendWithin<T>(z: seq<T>, x: seq<T>, y: seq<T>, w: seq<T>, u: seq<T>, v: seq<T>, k: nat)
    requires z == x + y && w == u + v
    requires k <= |x| && k <= |u| && x[..k] == u[..k]
    ensures k <= |z| && k <= |w| && z[..k] == w[..k]
  {
    assert z[..k] == x[..k];
    assert w[..k] == u[..k];
  }

  /** Two concatenations with the same first part whose second parts agree on a prefix agree on a longer one. */
  lemma AppendAcross<T>(z: seq<T>, x: seq<T>, y: seq<T>, w: seq<T>, v: seq<T>, k: nat)
    requires z == x + y && w == x + v
    requires |x| <= k && k - |x| <= |y| && k - |x| <= |v| && y[..k - |x|] == v[..k - |x|]
    ensures k <= |z| && k <= |w| && z[..k] == w[..k]
  {
    assert z[..k] == x + y[..k - |x|];
    assert w[..k] == x + v[..k - |x|];
  }

  /** The part of a concatenation without punctuation splits into parts without punctuation. */
  lemma NoPunctAppend(x: string, y: string, m: nat)
    requires m <= |x + y| && NoPunct(x + y, 0, m)
    ensures |x| <= m ==> NoPunct(x, 0, |x|) && NoPunct(y, 0, m - |x|)
    ensures m < |x| ==> NoPunct(x, 0, m)
  {
    forall k | 0 <= k < |x| && k < m
      ensures !IsPunct(x[k])
    {
      assert (x + y)[k] == x[k];
    }
    if |x| <= m {
      forall k | 0 <= k < m - |x|
        ensures !IsPunct(y[k])
      {
        assert (x + y)[|x| + k] == y[k];
      }
    }
  }

  /** A piece without punctuation is output as it is. */
  lemma RenderNoPunct(p: Piece)
    requires NoPunct(p.text, 0, |p.text|)
    ensures RenderPiece(p) == p.text
  {
    if p.Prose? {
      SpaceOutNoPunct(p.text, |p.text|);
      assert p.text[..|p.text|] == p.text;
    }
  }

  /** Up to and including its first punctuation character, a piece is output unchanged. */
  lemma RenderPieceHead(p: Piece, m: nat)
    requires m < |p.text| && NoPunct(p.text, 0, m)
    ensures m + 1 <= |RenderPiece(p)| && RenderPiece(p)[..m + 1] == p.text[..m + 1]
  {
    if p.Prose? {
      SegmentPrefix(p.text, m);
    }
  }

  /** Up to and including their first punctuation character, pieces are output as their texts. */
  lemma {:induction false} RenderPiecesPrefix(ps: seq<Piece>, m: nat)
    requires m < |PieceTexts(ps)| && NoPunct(PieceTexts(ps), 0, m)
    ensures m + 1 <= |RenderPieces(ps)| && RenderPieces(ps)[..m + 1] == PieceTexts(ps)[..m + 1]
    decreases |ps|
  {
    var p := ps[0];
    var out := RenderPieces(ps[1..]);
    var rest := PieceTexts(ps[1..]);
    assert PieceTexts(ps) == p.text + rest;
    assert RenderPieces(ps) == RenderPiece(p) + out;
    NoPunctAppend(p.text, rest, m);
    if m < |p.text| {
      RenderPieceHead(p, m);
      AppendWithin(RenderPieces(ps), RenderPiece(p), out, PieceTexts(ps), p.text, rest, m + 1);
    } else {
      RenderNoPunct(p);
      RenderPiecesPrefix(ps[1..], m - |p.text|);
      AppendAcross(RenderPieces(ps), p.text, out, PieceTexts(ps), rest, m + 1);
    }
  }

  /** Pieces without punctuation are output as their texts. */
  lemma {:induction false} RenderPiecesNoPunct(ps: seq<Piece>)
    requires NoPunct(PieceTexts(ps), 0, |PieceTexts(ps)|)
    ensures RenderPieces(ps) == PieceTexts(ps)
    decreases |ps|
  {
    if ps != [] {
      var rest := PieceTexts(ps[1..]);
      assert PieceTexts(ps) == ps[0].text + rest;
      NoPunctAppend(ps[0].text, rest, |PieceTexts(ps)|);
      RenderNoPunct(ps[0]);
      RenderPiecesNoPunct(ps[1..]);
    }
  }

  /** Spacing a line never turns it into a fence line. */
  lemma FenceLineKept(line: string)
    requires !IsFenceLine(line)
    ensures !IsFenceLine(ProcessLine(line))
  {
    var q := FirstPunct(line, 0);
    if q == |line| {
      PiecesCover(line, 0);
      assert line[0..] == line;
      RenderPiecesNoPunct(PiecesFrom(line, 0));
    } else {
      PiecesCover(line, 0);
      assert line[0..] == line;
      RenderPiecesPrefix(PiecesFrom(line, 0), q);
      FencePrefix(line, ProcessLine(line), q);
    }
  }

  /** Three copies of `c` start at index `a` of `s`. */
  predicate Triple(s: string, a: nat, c: char) {
    a + 3 <= |s| && s[a] == c && s[a + 1] == c && s[a + 2] == c
  }

  /** A fence line has a fence marker right after its leading whitespace. */
  lemma FenceLineAt(s: string)
    ensures var a := FirstNonSpace(s, 0);
      IsFenceLine(s) <==> Triple(s, a, '`') || Triple(s, a, '~')
  {
    var a := FirstNonSpace(s, 0);
    var l := LStrip(s);
    assert l == s[a..];
    if |l| >= 3 {
      assert l[..3] == [s[a], s[a + 1], s[a + 2]];
    }
  }

  /**
   * A string that agrees with a line up to the line's first punctuation character is a fence
   * line only if the line is: the leading whitespace and the first three characters after it are
   * the same, or a punctuation character sits among them in both.
   */
  lemma FencePrefix(line: string, out: string, q: nat)
    requires q < |line| && IsPunct(line[q]) && NoPunct(line, 0, q)
    requires q + 1 <= |out| && out[..q + 1] == line[..q + 1]
    requires !IsFenceLine(line)
    ensures !IsFenceLine(out)
  {
    SamePrefix(line, out, q);
    assert !IsSpace(line[q]);
    FenceLineAt(line);
    FenceLineAt(out);
  }

  /**
   * Two strings that agree up to and including a non-whitespace character at `q` have the same
   * leading whitespace, and agree up to `q`.
   */
  lemma SamePrefix(line: string, out: string, q: nat)
    requires q < |line| && q + 1 <= |out| && out[..q + 1] == line[..q + 1]
    ensures forall k :: 0 <= k <= q ==> out[k] == line[k]
    ensures !IsSpace(line[q]) ==> FirstNonSpace(out, 0) == FirstNonSpace(line, 0)
  {
    forall k | 0 <= k <= q
      ensures out[k] == line[k]
    {
      assert out[k] == out[..q + 1][k];
    }
  }

  /** `TickRunEnd` read on a suffix of the line. */
  lemma TickRunEndShift(line: string, i: nat, j: nat)
    requires i <= j <= |line|
    ensures TickRunEnd(line, j) == i + TickRunEnd(line[i..], j - i)
  {
    var e := TickRunEnd(line, j);
    var t := line[i..];
    forall k | j - i <= k < e - i
      ensures t[k] == '`'
    {
      assert t[k] == line[k + i];
    }
    if e < |line| {
      assert t[e - i] == line[e];
    }
    TickRunEndUnique(t, j - i, e - i);
  }

  /** `FindTicks` read on a suffix of the line. */
  lemma {:induction false} FindTicksShift(line: string, n: nat, i: nat, j: nat)
    requires i <= j <= |line|
    ensures var a := FindTicks(line, n, j); var b := FindTicks(line[i..], n, j - i);
      a.Some? == b.Some? && (a.Some? ==> a.value == b.value + i)
    decreases |line| - j
  {
    if j + n <= |line| {
      TicksAtSlice(line, i, |line|, j - i, n);
      if !TicksAt(line, j, n) {
        FindTicksShift(line, n, i, j + 1);
      }
    }
  }

  /** The piece at `j` is the piece at `j - i` of the suffix from `i`. */
  lemma PieceAtShift(line: string, i: nat, j: nat)
    requires i <= j < |line|
    ensures PieceAt(line, j).piece == PieceAt(line[i..], j - i).piece
    ensures PieceAt(line, j).next == PieceAt(line[i..], j - i).next + i
  {
    assert line[i..][j - i] == line[j];
    if line[j] == '`' {
      CodeCutShift(line, i, j);
    } else {
      TextCutShift(line, i, j);
    }
    var c := PieceAt(line, j);
    var d := PieceAt(line[i..], j - i);
    SliceShift(line, i, j, c.next);
    assert c.piece.text == d.piece.text;
  }

  /** The piece at a backtick run, read on a suffix of the line, is of the same kind and ends at the same place. */
  lemma CodeCutShift(line: string, i: nat, j: nat)
    requires i <= j < |line| && line[j] == '`'
    ensures line[i..][j - i] == '`'
    ensures CodeCut(line, j).piece.Code? == CodeCut(line[i..], j - i).piece.Code?
    ensures CodeCut(line, j).next == CodeCut(line[i..], j - i).next + i
  {
    var t := line[i..];
    assert t[j - i] == line[j];
    var e := TickRunEnd(line, j);
    var f := TickRunEnd(t, j - i);
    SearchShift(line, i, j, e, f);
    CodeCutCases(line, j, e, e - j, FindTicks(line, e - j, e));
    CodeCutCases(t, j - i, f, f - (j - i), FindTicks(t, f - (j - i), f));
  }

  /** The backtick run at `j` and the search for its closing run, read on a suffix of the line. */
  lemma SearchShift(line: string, i: nat, j: nat, e: nat, f: nat)
    requires i <= j <= |line| && e == TickRunEnd(line, j) && f == TickRunEnd(line[i..], j - i)
    ensures e - i == f
    ensures FindTicks(line, e - j, e).Some? == FindTicks(line[i..], f - (j - i), f).Some?
    ensures FindTicks(line, e - j, e).Some? ==> FindTicks(line, e - j, e).value == FindTicks(line[i..], f - (j - i), f).value + i
  {
    TickRunEndShift(line, i, j);
    FindTicksShift(line, e - j, i, e);
  }

  /** A slice read on a suffix of the sequence. */
  lemma SliceShift<T>(s: seq<T>, i: nat, a: nat, b: nat)
    requires i <= a <= b <= |s|
    ensures s[a..b] == s[i..][a - i..b - i]
  {
  }

  /** The two outcomes of `CodeCut`: a code span up to the closing run, or the rest of the line as text. */
  lemma CodeCutCases(line: string, j: nat, e: nat, n: nat, found: Option<nat>)
    requires j < |line| && line[j] == '`'
    requires e == TickRunEnd(line, j) && n == e - j && found == FindTicks(line, n, e)
    ensures CodeCut(line, j).piece.Code? <==> found.Some?
    ensures CodeCut(line, j).next == if found.Some? then found.value + n else |line|
  {
  }

  /** The piece at any other character, read on a suffix of the line, is text ending at the same place. */
  lemma TextCutShift(line: string, i: nat, j: nat)
    requires i <= j < |line| && line[j] != '`'
    ensures line[i..][j - i] != '`'
    ensures TextCut(line, j).piece.Prose? && TextCut(line[i..], j - i).piece.Prose?
    ensures TextCut(line, j).next == TextCut(line[i..], j - i).next + i
  {
    assert line[i..][j - i] == line[j];
    FindTicksShift(line, 1, i, j);
  }

  /** The pieces from `j` are the pieces from `j - i` of the suffix from `i`. */
  lemma {:induction false} PiecesShift(line: string, i: nat, j: nat)
    requires i <= j <= |line|
    ensures PiecesFrom(line, j) == PiecesFrom(line[i..], j - i)
    decreases |line| - j
  {
    if j < |line| {
      PieceAtShift(line, i, j);
      PiecesShift(line, i, PieceAt(line, j).next);
    }
  }

  /** A piece as it comes out of the spacing: code as it was, text spaced. */
  function Spaced(p: Piece): Piece {
    match p
    case Code(_) => p
    case Prose(text) => Prose(ProcessSegment(text))
  }

  function SpacedPieces(ps: seq<Piece>): seq<Piece>
    decreases |ps|
  {
    if ps == [] then [] else [Spaced(ps[0])] + SpacedPieces(ps[1..])
  }

  /** Spaced pieces render as the pieces do, since spacing twice is spacing once. */
  lemma {:induction false} RenderSpaced(ps: seq<Piece>)
    ensures RenderPieces(SpacedPieces(ps)) == RenderPieces(ps)
    decreases |ps|
  {
    if ps != [] {
      RenderSpaced(ps[1..]);
      if ps[0].Prose? {
        ProcessSegmentIdempotent(ps[0].text);
      }
      assert SpacedPieces(ps)[1..] == SpacedPieces(ps[1..]);
    }
  }

  /** `n` backticks at `m` inside the prefix `t` are there in `t + rest` too, and back. */
  lemma TicksAtPrefix(t: string, rest: string, m: nat, n: nat)
    requires m + n <= |t|
    ensures TicksAt(t + rest, m, n) <==> TicksAt(t, m, n)
  {
    forall k | m <= k < m + n
      ensures (t + rest)[k] == t[k]
    {
    }
  }

  /** The first run of `n` backticks at or after `start` is the one `FindTicks` returns. */
  lemma {:induction false} FindTicksUnique(line: string, n: nat, start: nat, c: nat)
    requires start <= c && TicksAt(line, c, n)
    requires forall m :: start <= m < c ==> !TicksAt(line, m, n)
    ensures FindTicks(line, n, start) == Some(c)
    decreases c - start
  {
    if start < c {
      FindTicksUnique(line, n, start + 1, c);
    }
  }

  /** A code span opening a line is cut as the same span, whatever follows it. */
  lemma CodeSpanHead(t: string, rest: string)
    requires IsCodeSpan(t)
    ensures PieceAt(t + rest, 0) == Cut(Code(t), |t|)
  {
    var s := t + rest;
    var k := TickRunEnd(t, 0);
    forall m | 0 <= m <= k
      ensures s[m] == t[m]
    {
    }
    TickRunEndUnique(s, 0, k);
    TicksAtPrefix(t, rest, |t| - k, k);
    forall m | k <= m < |t| - k
      ensures !TicksAt(s, m, k)
    {
      TicksAtPrefix(t, rest, m, k);
    }
    FindTicksUnique(s, k, k, |t| - k);
    assert s[0..|t|] == t;
  }

  /** Text without backticks, followed by nothing or by a backtick, is cut as the same text once spaced. */
  lemma TextHead(t: string, rest: string)
    requires t != [] && '`' !in t
    requires rest == [] || rest[0] == '`'
    ensures var o := ProcessSegment(t);
      PieceAt(o + rest, 0) == Cut(Prose(o), |o|)
  {
    var o := ProcessSegment(t);
    var s := o + rest;
    SegmentChars(t, '`');
    InsertsOnlySpaces(t, 0);
    assert s[0] == t[0];
    forall m | 0 <= m < |o|
      ensures !TicksAt(s, m, 1)
    {
      assert s[m] == o[m];
    }
    if rest != [] {
      FindTicksUnique(s, 1, 0, |o|);
      assert s[0..|o|] == o;
    } else {
      assert s == o;
    }
  }

  /** The pre-punctuation prefix of a segment keeps its positions. */
  lemma PosNoPunct(seg: string, m: nat)
    requires m <= |seg| && NoPunct(seg, 0, m)
    ensures Pos(seg, m) == m
  {
    SpaceOutNoPunct(seg, m);
  }

  /** A run of `n` backticks in the output at the image of `seg[i]` is a run in the segment. */
  lemma {:induction false} ImageTicks(seg: string, i: nat, n: nat)
    requires i <= |seg|
    ensures TicksAt(ProcessSegment(seg), Pos(seg, i), n) ==> TicksAt(seg, i, n)
    decreases n
  {
    var o := ProcessSegment(seg);
    if n > 0 && TicksAt(o, Pos(seg, i), n) {
      assert i < |seg|;
      InsertsOnlySpaces(seg, i);
      OnlyPunctSpaced(seg, i);
      ImageTicks(seg, i + 1, n - 1);
    }
  }

  /** A backtick run that nothing closes opens the spaced rest of the line in the same way. */
  lemma UnclosedHead(t: string)
    requires t != [] && t[0] == '`'
    requires FindTicks(t, TickRunEnd(t, 0), TickRunEnd(t, 0)).None?
    ensures var o := ProcessSegment(t);
      PieceAt(o, 0) == Cut(Prose(o), |o|)
  {
    var o := ProcessSegment(t);
    var k := TickRunEnd(t, 0);
    assert NoPunct(t, 0, k);
    forall m | 0 <= m <= k
      ensures Pos(t, m) == m
    {
      PosNoPunct(t, m);
    }
    forall m | 0 <= m < k
      ensures m < |o| && o[m] == '`'
    {
      InsertsOnlySpaces(t, m);
    }
    if k < |t| {
      InsertsOnlySpaces(t, k);
    } else {
      assert |o| == Pos(t, |t|);
    }
    TickRunEndUnique(o, 0, k);
    FindTicksFirst(t, k, k);
    forall p | k <= p
      ensures !TicksAt(o, p, k)
    {
      if p < |o| {
        var i := Origin(t, p, |t|);
        InsertsOnlySpaces(t, i);
        if p == Pos(t, i) {
          assert i >= k;
          ImageTicks(t, i, k);
        }
      }
    }
    assert FindTicks(o, k, k).None?;
  }

  /** A spaced line that is not empty starts with the line's first character. */
  lemma RenderStarts(line: string)
    requires line != []
    ensures |ProcessLine(line)| > 0 && ProcessLine(line)[0] == line[0]
  {
    var cut := PieceAt(line, 0);
    RenderStep(line, 0);
    assert cut.piece.text[0] == line[0];
    if cut.piece.Prose? {
      InsertsOnlySpaces(cut.piece.text, 0);
    }
  }

  /**
   * The first piece of a spaced line is the first piece of the line, spaced, and it ends where
   * the rendering of that piece ends.
   */
  lemma FirstPieceSpaced(line: string)
    requires line != []
    ensures var cut := PieceAt(line, 0);
      && |RenderPiece(cut.piece)| <= |ProcessLine(line)|
      && ProcessLine(line)[|RenderPiece(cut.piece)|..] == ProcessLine(line[cut.next..])
      && PieceAt(ProcessLine(line), 0) == Cut(Spaced(cut.piece), |RenderPiece(cut.piece)|)
  {
    var cut := PieceAt(line, 0);
    var t := cut.piece.text;
    var r := RenderPiece(cut.piece);
    var rest := ProcessLine(line[cut.next..]);
    RenderStep(line, 0);
    PiecesShift(line, cut.next, cut.next);
    assert ProcessLine(line) == r + rest;
    PieceShape(line, 0);
    if line[0] == '`' {
      if cut.piece.Code? {
        CodeSpanHead(t, rest);
      } else {
        assert t == line && rest == [];
        UnclosedHead(t);
        assert ProcessLine(line) == ProcessSegment(t);
      }
    } else {
      TextPieceShape(line, 0);
      assert cut == TextCut(line, 0);
      if cut.next < |line| {
        assert TicksAt(line, cut.next, 1);
        RenderStarts(line[cut.next..]);
      }
      TextHead(t, rest);
    }
  }

  /** A spaced line is cut into the pieces of the line, spaced. */
  lemma {:induction false} PiecesOfSpacedLine(line: string)
    ensures PiecesFrom(ProcessLine(line), 0) == SpacedPieces(PiecesFrom(line, 0))
    decreases |line|
  {
    if line != [] {
      var cut := PieceAt(line, 0);
      var out := ProcessLine(line);
      var n := |RenderPiece(cut.piece)|;
      var rest := line[cut.next..];
      FirstPieceSpaced(line);
      PiecesShift(line, cut.next, cut.next);
      PiecesShift(out, n, n);
      PiecesOfSpacedLine(rest);
      assert PiecesFrom(out, 0) == [Spaced(cut.piece)] + PiecesFrom(out, n);
      assert PiecesFrom(line, 0) == [cut.piece] + PiecesFrom(rest, 0);
    }
  }

  /** Spacing a line twice is spacing it once. */
  lemma ProcessLineIdempotent(line: string)
    ensures ProcessLine(ProcessLine(line)) == ProcessLine(line)
  {
    PiecesOfSpacedLine(line);
    RenderSpaced(PiecesFrom(line, 0));
  }

  /** The output line is left as it is by a second pass in the same fence state, and it moves the fence state the same way. */
  lemma LineOutTwice(f: Fence, line: string)
    ensures LineOut(f, LineOut(f, line)) == LineOut(f, line)
    ensures FenceStep(f, LineOut(f, line)) == FenceStep(f, line)
  {
    if !IsFenceLine(line) && !f.open {
      FenceLineKept(line);
      ProcessLineIdempotent(line);
    }
  }

  /** The output lines have the fence states of the input lines, and a second pass leaves them alone. */
  lemma {:induction false} OutLinesTwice(lines: seq<string>)
    ensures |OutLines(lines)| == |lines|
    ensures FenceAfter(OutLines(lines)) == FenceAfter(lines)
    ensures OutLines(OutLines(lines)) == OutLines(lines)
    decreases |lines|
  {
    if lines != [] {
      var init := lines[..|lines| - 1];
      var x := lines[|lines| - 1];
      var f := FenceAfter(init);
      OutLinesTwice(init);
      LineOutTwice(f, x);
      var out := OutLines(lines);
      assert out == OutLines(init) + [LineOut(f, x)];
      assert out[..|out| - 1] == OutLines(init);
    }
  }

  /** Running the spacing twice gives the same text as running it once. */
  lemma InsertSpacesIdempotent(text: string)
    ensures InsertSpaces(InsertSpaces(text)) == InsertSpaces(text)
  {
    var normal := NormalizeNewlines(text);
    var lines := Split(normal, '\n');
    var out := OutLines(lines);
    var spaced := Join(out, '\n');
    SplitChars(normal, '\n');
    OutLinesTwice(lines);
    forall k | 0 <= k < |out|
      ensures '\r' !in out[k] && '\n' !in out[k]
    {
      OutLinesAt(lines, k);
      if !IsFenceLine(lines[k]) && !FenceAfter(lines[..k]).open {
        LineChars(lines[k], '\r');
        LineChars(lines[k], '\n');
      }
    }
    JoinChars(out, '\n', '\r');
    NormalizeNewlinesIdempotent(spaced);
    SplitJoin(out, '\n');
  }
}
