/**
 * The raw key reader of main.py (`_read_keys_no_echo`).
 *
 * The terminal is abstracted into the sequence of observations the reader makes:
 * a byte delivered by one `os.read(fd, 1)`, or a `Gap`, meaning that no byte became
 * ready within the 1 ms escape window. Each byte is decoded on its own as UTF-8 with
 * errors ignored, so a byte of 0x80 or above decodes to the empty string (an empty read).
 * The end of the sequence is the end of the input as far as the model is concerned.
 */
module KeyReader {
  import opened Strings

  newtype byte = x: int | 0 <= x < 256

  /** One observation of the input descriptor. */
  datatype Event = Byte(b: byte) | Gap

  /** Why the reader stopped: Enter in stop-on-enter mode, Ctrl-C, or no more input. */
  datatype End = Enter | Interrupted | Exhausted

  /** Every token yielded, in order, and why the stream ended. */
  datatype Outcome = Outcome(tokens: seq<string>, end: End)

  const ESC: char := '\U{1B}'
  const CTRL_C: char := '\U{03}'

  /** `os.read(fd, 1).decode(errors="ignore")` for one byte. */
  function Decode(b: byte): (s: string)
    ensures |s| <= 1
    ensures s != [] <==> b < 128
    ensures s != [] ==> s[0] as int == b as int
  {
    if b < 128 then [(b as int) as char] else []
  }

  /** The characters that close an escape sequence: `nxt.isalpha() or nxt == "~"`. */
  predicate IsTerminator(c: char) {
    IsLetter(c) || c == '~'
  }

  /** The characters an escape collection appends after ESC, and how many observations it consumes. */
  datatype Tail = Tail(chars: string, used: nat)

  function Prepend(token: string, o: Outcome): Outcome {
    Outcome([token] + o.tokens, o.end)
  }

  /**
   * The inner collection loop after an ESC byte, started at index `j`: the characters it
   * appends and the number of observations it consumes. It stops after a terminator, at a
   * gap, at an empty read, or when the input runs out (which the real reader sees as a timeout).
   */
  function EscapeTail(input: seq<Event>, j: nat): (r: Tail)
    requires j <= |input|
    ensures j + r.used <= |input|
    ensures j < |input| ==> 1 <= r.used
    ensures |r.chars| <= r.used
    decreases |input| - j
  {
    if j == |input| then Tail([], 0)
    else match input[j]
      case Gap => Tail([], 1)
      case Byte(b) =>
        var s := Decode(b);
        if s == [] then Tail([], 1)
        else if IsTerminator(s[0]) then Tail(s, 1)
        else
          var r := EscapeTail(input, j + 1);
          Tail(s + r.chars, r.used + 1)
  }

  /** The tokens the generator yields for the input from index `i` on, and how it ends. */
  function TokenizeFrom(input: seq<Event>, i: nat, stopOnEnter: bool): (o: Outcome)
    requires i <= |input|
    ensures |o.tokens| <= |input| - i
    ensures o.end == Enter ==> stopOnEnter
    decreases |input| - i
  {
    if i == |input| then Outcome([], Exhausted)
    else match input[i]
      case Gap => TokenizeFrom(input, i + 1, stopOnEnter)
      case Byte(b) =>
        var s := Decode(b);
        if s == [] then TokenizeFrom(input, i + 1, stopOnEnter)
        else if s[0] == CTRL_C then Outcome([], Interrupted)
        else if s[0] == '\r' || s[0] == '\n' then
          if stopOnEnter then Outcome([], Enter) else Prepend("\n", TokenizeFrom(input, i + 1, stopOnEnter))
        else if s[0] == ESC then
          var tail := EscapeTail(input, i + 1);
          Prepend([ESC] + tail.chars, TokenizeFrom(input, i + 1 + tail.used, stopOnEnter))
        else Prepend(s, TokenizeFrom(input, i + 1, stopOnEnter))
  }

  /** The tokens the generator yields for a whole input, and how it ends. */
  function Tokenize(input: seq<Event>, stopOnEnter: bool): (o: Outcome)
    ensures |o.tokens| <= |input|
    ensures o.end == Enter ==> stopOnEnter
  {
    TokenizeFrom(input, 0, stopOnEnter)
  }

  /** The inner collection loop: the escape sequence whose ESC was read just before `start`. */
  method CollectEscape(input: seq<Event>, start: nat) returns (sequence: string, next: nat)
    requires start <= |input|
    ensures sequence == [ESC] + EscapeTail(input, start).chars
    ensures next == start + EscapeTail(input, start).used
  {
    sequence := [ESC];
    next := start;
    while next < |input|
      invariant start <= next <= |input|
      invariant [ESC] + EscapeTail(input, start).chars == sequence + EscapeTail(input, next).chars
      invariant EscapeTail(input, start).used == (next - start) + EscapeTail(input, next).used
    {
      if input[next].Gap? {
        next := next + 1;
        return;
      }
      var nxt := Decode(input[next].b);
      if nxt == [] {
        next := next + 1;
        return;
      }
      sequence := sequence + nxt;
      next := next + 1;
      if IsTerminator(nxt[0]) {
        return;
      }
    }
  }

  /** Moving a token from the front of the rest to the end of what is already yielded. */
  lemma PrependTokens(tokens: seq<string>, token: string, o: Outcome)
    ensures tokens + Prepend(token, o).tokens == (tokens + [token]) + o.tokens
    ensures Prepend(token, o).end == o.end
  {
  }

  /**
   * The reader loop. Tokens are collected into a list instead of being yielded one at a time;
   * a consumer that stops early simply ignores the rest.
   */
  method ReadKeys(input: seq<Event>, stopOnEnter: bool) returns (tokens: seq<string>, end: End)
    ensures Outcome(tokens, end) == Tokenize(input, stopOnEnter)
  {
    tokens := [];
    var i := 0;
    while i < |input|
      invariant 0 <= i <= |input|
      invariant Tokenize(input, stopOnEnter).tokens == tokens + TokenizeFrom(input, i, stopOnEnter).tokens
      invariant Tokenize(input, stopOnEnter).end == TokenizeFrom(input, i, stopOnEnter).end
    {
      var ch: string := if input[i].Gap? then [] else Decode(input[i].b);
      if ch == [] {
        i := i + 1;
        continue;
      }
      if ch[0] == CTRL_C {
        end := Interrupted;
        return;
      }
      if ch[0] == '\r' || ch[0] == '\n' {
        if stopOnEnter {
          end := Enter;
          return;
        }
        PrependTokens(tokens, "\n", TokenizeFrom(input, i + 1, stopOnEnter));
        tokens := tokens + ["\n"];
        i := i + 1;
        continue;
      }
      if ch[0] == ESC {
        var sequence, next := CollectEscape(input, i + 1);
        PrependTokens(tokens, sequence, TokenizeFrom(input, next, stopOnEnter));
        tokens := tokens + [sequence];
        i := next;
        continue;
      }
      PrependTokens(tokens, ch, TokenizeFrom(input, i + 1, stopOnEnter));
      tokens := tokens + [ch];
      i := i + 1;
    }
    end := Exhausted;
  }

  /** The input holds the characters of `s` as single bytes from index `j` on. */
  predicate BytesAt(input: seq<Event>, j: nat, s: string) {
    && j + |s| <= |input|
    && forall k :: j <= k < j + |s| ==> input[k].Byte? && input[k].b as int == s[k - j] as int
  }

  /** A gap, an empty read, or a terminator byte: what ends an escape collection. */
  predicate EndsEscape(e: Event) {
    e.Gap? || e.b >= 128 || IsTerminator(e.b as int as char)
  }

  /** The first of the bytes, and the rest of them one index further on. */
  lemma BytesAtRest(input: seq<Event>, j: nat, s: string)
    requires BytesAt(input, j, s) && s != []
    ensures input[j].Byte? && input[j].b as int == s[0] as int
    ensures BytesAt(input, j + 1, s[1..])
  {
  }

  /**
   * The escape collector takes every non-terminating ASCII character, and stops right after
   * the first terminator, or at the first gap or empty read, which it consumes.
   */
  lemma {:induction false} EscapeTailStops(input: seq<Event>, j: nat, body: string)
    requires BytesAt(input, j, body)
    requires forall k :: 0 <= k < |body| ==> body[k] as int < 128 && !IsTerminator(body[k])
    requires j + |body| < |input| && EndsEscape(input[j + |body|])
    ensures EscapeTail(input, j)
         == Tail(body + (if input[j + |body|].Gap? then [] else Decode(input[j + |body|].b)), |body| + 1)
    decreases |body|
  {
    if body != [] {
      BytesAtRest(input, j, body);
      assert Decode(input[j].b) == [body[0]];
      var rest := body[1..];
      assert forall k :: 0 <= k < |rest| ==> rest[k] == body[k + 1];
      EscapeTailStops(input, j + 1, rest);
      assert [body[0]] + rest == body;
    }
  }

  /**
   * An ESC byte followed by non-terminating bytes and then a terminator, a gap or an
   * empty read yields a single token: ESC, the bytes, and the terminator if there was one;
   * reading goes on after the observation that ended the sequence.
   */
  lemma EscapeToken(input: seq<Event>, i: nat, body: string, stopOnEnter: bool)
    requires i < |input| && input[i] == Byte(27)
    requires BytesAt(input, i + 1, body)
    requires forall k :: 0 <= k < |body| ==> body[k] as int < 128 && !IsTerminator(body[k])
    requires i + 1 + |body| < |input| && EndsEscape(input[i + 1 + |body|])
    ensures TokenizeFrom(input, i, stopOnEnter)
         == Prepend([ESC] + body + (if input[i + 1 + |body|].Gap? then [] else Decode(input[i + 1 + |body|].b)),
                    TokenizeFrom(input, i + |body| + 2, stopOnEnter))
  {
    assert Decode(27) == [ESC];
    EscapeTailStops(input, i + 1, body);
    var tail := EscapeTail(input, i + 1);
    assert TokenizeFrom(input, i, stopOnEnter) == Prepend([ESC] + tail.chars, TokenizeFrom(input, i + 1 + tail.used, stopOnEnter));
    assert [ESC] + tail.chars == [ESC] + body + (if input[i + 1 + |body|].Gap? then [] else Decode(input[i + 1 + |body|].b));
  }

  /** The left-arrow escape sequence arriving in one burst is the one token "\x1b[D". */
  lemma LeftArrowIsOneToken(stopOnEnter: bool)
    ensures Tokenize([Byte(27), Byte(91), Byte(68)], stopOnEnter) == Outcome(["\U{1B}[D"], Exhausted)
  {
    var input := [Byte(27), Byte(91), Byte(68)];
    assert IsTerminator('D') && Decode(68) == "D";
    assert BytesAt(input, 1, "[") by {
      assert input[1] == Byte(91);
    }
    EscapeToken(input, 0, "[", stopOnEnter);
    assert TokenizeFrom(input, 3, stopOnEnter) == Outcome([], Exhausted);
    assert [ESC] + "[" + "D" == "\U{1B}[D";
    assert TokenizeFrom(input, 0, stopOnEnter) == Prepend("\U{1B}[D", Outcome([], Exhausted));
  }

  /**
   * The cases of a single byte read outside an escape sequence: gaps and empty reads yield
   * nothing, Ctrl-C aborts with no token, CR and LF end the stream or become "\n", and any
   * other ASCII byte is yielded unchanged as a token of its own.
   */
  lemma LeadingByte(input: seq<Event>, i: nat, stopOnEnter: bool)
    requires i < |input|
    ensures var e := input[i];
      && (e.Gap? || e.b >= 128 ==> TokenizeFrom(input, i, stopOnEnter) == TokenizeFrom(input, i + 1, stopOnEnter))
      && (e == Byte(3) ==> TokenizeFrom(input, i, stopOnEnter) == Outcome([], Interrupted))
      && ((e == Byte(13) || e == Byte(10)) && stopOnEnter ==> TokenizeFrom(input, i, stopOnEnter) == Outcome([], Enter))
      && ((e == Byte(13) || e == Byte(10)) && !stopOnEnter ==>
            TokenizeFrom(input, i, stopOnEnter) == Prepend("\n", TokenizeFrom(input, i + 1, stopOnEnter)))
      && (e.Byte? && e.b < 128 && e.b !in {3, 10, 13, 27} ==>
            TokenizeFrom(input, i, stopOnEnter) == Prepend([e.b as int as char], TokenizeFrom(input, i + 1, stopOnEnter)))
  {
  }

  /** The characters an escape collection appends are ASCII, and none but the last is a terminator. */
  lemma {:induction false} EscapeTailShape(input: seq<Event>, j: nat)
    requires j <= |input|
    ensures var r := EscapeTail(input, j);
      && |r.chars| <= r.used
      && (forall k :: 0 <= k < |r.chars| ==> r.chars[k] as int < 128)
      && (forall k :: 0 <= k < |r.chars| - 1 ==> !IsTerminator(r.chars[k]))
    decreases |input| - j
  {
    if j < |input| && input[j].Byte? {
      var s := Decode(input[j].b);
      if s != [] && !IsTerminator(s[0]) {
        EscapeTailShape(input, j + 1);
        var r := EscapeTail(input, j + 1);
        assert EscapeTail(input, j).chars == s + r.chars;
      }
    }
  }

  /** The shape of every token the reader yields. */
  predicate WellFormedToken(t: string, stopOnEnter: bool) {
    && |t| >= 1
    && (forall k :: 0 <= k < |t| ==> t[k] as int < 128)
    && t[0] != CTRL_C && t[0] != '\r'
    && (stopOnEnter ==> t[0] != '\n')
    && (t[0] == '\n' ==> t == "\n")
    && (|t| > 1 ==> t[0] == ESC)
    && (t[0] == ESC ==> forall k :: 1 <= k < |t| - 1 ==> !IsTerminator(t[k]))
  }

  /** The token an ESC byte starts is an escape sequence of the right shape. */
  lemma EscapeTokenWellFormed(input: seq<Event>, j: nat, stopOnEnter: bool)
    requires j <= |input|
    ensures WellFormedToken([ESC] + EscapeTail(input, j).chars, stopOnEnter)
  {
    var tail := EscapeTail(input, j);
    EscapeTailShape(input, j);
    var t := [ESC] + tail.chars;
    assert forall k :: 1 <= k < |t| ==> t[k] == tail.chars[k - 1];
  }

  /**
   * Every token is a single ASCII character other than Ctrl-C and CR (and other than LF in
   * stop-on-enter mode), or an escape sequence: ESC followed by bytes none of which, except
   * possibly the last, is a terminator. Enter ends the stream only in stop-on-enter mode.
   */
  lemma {:induction false} TokensWellFormed(input: seq<Event>, i: nat, stopOnEnter: bool)
    requires i <= |input|
    ensures forall k :: 0 <= k < |TokenizeFrom(input, i, stopOnEnter).tokens| ==>
      WellFormedToken(TokenizeFrom(input, i, stopOnEnter).tokens[k], stopOnEnter)
    ensures TokenizeFrom(input, i, stopOnEnter).end == Enter ==> stopOnEnter
    decreases |input| - i
  {
    if i < |input| {
      match input[i]
      case Gap => TokensWellFormed(input, i + 1, stopOnEnter);
      case Byte(b) =>
        var s := Decode(b);
        if s == [] {
          TokensWellFormed(input, i + 1, stopOnEnter);
        } else if s[0] == CTRL_C {
        } else if s[0] == '\r' || s[0] == '\n' {
          if !stopOnEnter {
            TokensWellFormed(input, i + 1, stopOnEnter);
          }
        } else if s[0] == ESC {
          EscapeTokenWellFormed(input, i + 1, stopOnEnter);
          TokensWellFormed(input, i + 1 + EscapeTail(input, i + 1).used, stopOnEnter);
        } else {
          TokensWellFormed(input, i + 1, stopOnEnter);
        }
    }
  }
}
