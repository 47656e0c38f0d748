/** The libelement tokeniser: what it makes of an input, as a function; that nothing of the
    input is lost; that tokens printed and read again are the same tokens. */
module Tokeniser {

  /** Bytes a character takes in UTF-8 (section 3 of RFC 3629). */
  function Width(c: char): (r: nat)
    ensures 1 <= r <= 4
  {
    if c < '\U{80}' then 1 else if c < '\U{800}' then 2 else if c < '\U{10000}' then 3 else 4
  }

  // ------------------------------------------------------------------
  // Character classes
  // ------------------------------------------------------------------

  predicate IsAlpha(c: char) { 'A' <= c <= 'Z' || 'a' <= c <= 'z' }
  predicate IsDigit(c: char) { '0' <= c <= '9' }
  predicate IsSpace(c: char) { c == ' ' || '\U{09}' <= c <= '\U{0D}' }
  predicate IsEol(c: char) { c == '\n' }
  predicate IsSign(c: char) { c == '-' || c == '+' }
  predicate IsIdAlpha(c: char) { IsAlpha(c) || c == '_' || '\U{F0}' <= c <= '\U{FFFF}' }
  predicate IsIdAlnum(c: char) { IsAlpha(c) || IsDigit(c) || '\U{F0}' <= c <= '\U{FFFF}' }
  predicate IsIdRest(c: char) { IsIdAlnum(c) || c == '_' }
  predicate NotEol(c: char) { !IsEol(c) }

  datatype TokenType =
    | NONE | NUMBER | IDENTIFIER | UNDERSCORE | DOT | BRACKETL | BRACKETR | COLON | COMMA | BRACEL | BRACER | EQUALS | EOF

  /** OUTSIDE_BUFFER is no result of the library's: it stands for a copy that leaves the buffer
      of a message, after which nothing is known. */
  datatype Outcome = OK | ERROR_PARSE | ERROR_BAD_INDEX_INTO_NUMBER | ERROR_BAD_NUMBER_EXPONENT | ERROR_EXCEPTION | OUTSIDE_BUFFER

  /** The one-character tokens. */
  function Punctuation(c: char): (r: TokenType)
    ensures r != NONE ==> !IsIdAlpha(c) && !IsSpace(c) && c != '#' && Width(c) == 1
  {
    match c
    case '.' => DOT
    case '(' => BRACKETL
    case ')' => BRACKETR
    case ',' => COMMA
    case ':' => COLON
    case '{' => BRACEL
    case '}' => BRACER
    case '=' => EQUALS
    case _ => NONE
  }

  // ------------------------------------------------------------------
  // One step of the scanner
  // ------------------------------------------------------------------

  datatype Kind = Token(t: TokenType) | Space | Newline | Comment

  datatype Step = Took(kind: Kind, to: nat) | Fails(outcome: Outcome)

  /** Where the longest run of such characters from i ends. */
  function SpanEnd(s: string, i: nat, p: char -> bool): (r: nat)
    requires i <= |s|
    ensures i <= r <= |s| && (forall k :: i <= k < r ==> p(s[k])) && (r < |s| ==> !p(s[r]))
    decreases |s| - i
  {
    if i < |s| && p(s[i]) then SpanEnd(s, i + 1, p) else i
  }

  lemma {:induction false} SpanEndIs(s: string, i: nat, p: char -> bool, r: nat)
    requires i <= r <= |s| && (forall k :: i <= k < r ==> p(s[k])) && (r < |s| ==> !p(s[r]))
    ensures SpanEnd(s, i, p) == r
    decreases r - i
  {
    if i < r {
      SpanEndIs(s, i + 1, p, r);
    }
  }

  /** Looking past the end throws, and a thrown exception ends the run. */
  function ExponentStep(s: string, f: nat): Step
    requires f <= |s|
  {
    if f == |s| || (s[f] != 'e' && s[f] != 'E') then Took(Token(NUMBER), f)
    else if f + 1 == |s| then Fails(ERROR_EXCEPTION)
    else
      var g := if IsSign(s[f + 1]) then f + 2 else f + 1;
      if g == |s| then Fails(ERROR_EXCEPTION)
      else if !IsDigit(s[g]) then Fails(ERROR_BAD_NUMBER_EXPONENT)
      else Took(Token(NUMBER), SpanEnd(s, g, IsDigit))
  }

  function FractionStep(s: string, d: nat): Step
    requires d <= |s|
  {
    if d == |s| then Took(Token(NUMBER), d)
    else if s[d] != '.' then ExponentStep(s, d)
    else if d + 1 == |s| then Fails(ERROR_EXCEPTION)
    else if IsDigit(s[d + 1]) then ExponentStep(s, SpanEnd(s, d + 1, IsDigit))
    else if IsAlpha(s[d + 1]) then Took(Token(NUMBER), d)
    else Fails(ERROR_BAD_INDEX_INTO_NUMBER)
  }

  function NumberStep(s: string, i: nat): Step
    requires i < |s|
  {
    var j := if IsSign(s[i]) then i + 1 else i;
    if j == |s| then Fails(ERROR_EXCEPTION)
    else if !IsDigit(s[j]) then Fails(ERROR_PARSE)
    else FractionStep(s, SpanEnd(s, j, IsDigit))
  }

  function Next(s: string, i: nat): Step
    requires i < |s|
  {
    var c := s[i];
    if Punctuation(c) != NONE then Took(Token(Punctuation(c)), i + 1)
    else if c == '#' then Took(Comment, SpanEnd(s, i, NotEol))
    else if c == '_' then
      if i + 1 == |s| then Fails(ERROR_EXCEPTION)
      else if IsIdAlpha(s[i + 1]) then Took(Token(IDENTIFIER), SpanEnd(s, i + 1, IsIdRest))
      else Took(Token(UNDERSCORE), i + 1)
    else if IsIdAlpha(c) then Took(Token(IDENTIFIER), SpanEnd(s, i, IsIdRest))
    else if IsDigit(c) || IsSign(c) then NumberStep(s, i)
    else if IsEol(c) then Took(Newline, i + 1)
    else if IsSpace(c) then Took(Space, i + 1)
    else Fails(ERROR_PARSE)
  }

  /** A character that starts no token and cannot be skipped. */
  predicate IsInvalid(c: char) {
    && Punctuation(c) == NONE && c != '#' && c != '_' && !IsIdAlpha(c) && !IsDigit(c) && !IsSign(c) && !IsEol(c) && !IsSpace(c)
  }

  lemma InvalidFails(s: string, i: nat)
    requires i < |s| && IsInvalid(s[i])
    ensures Next(s, i) == Fails(ERROR_PARSE)
  {
  }

  lemma ExponentAdvances(s: string, f: nat)
    requires f <= |s| && ExponentStep(s, f).Took?
    ensures var step := ExponentStep(s, f);
      step.kind == Token(NUMBER) && f <= step.to <= |s| && forall k :: f <= k < step.to ==> !IsEol(s[k])
  {
  }

  lemma NumberAdvances(s: string, i: nat)
    requires i < |s| && NumberStep(s, i).Took?
    ensures var step := NumberStep(s, i);
      step.kind == Token(NUMBER) && i < step.to <= |s| && forall k :: i <= k < step.to ==> !IsEol(s[k])
  {
    hide ExponentStep;
    var j := if IsSign(s[i]) then i + 1 else i;
    var d := SpanEnd(s, j, IsDigit);
    if d < |s| && s[d] == '.' && IsDigit(s[d + 1]) {
      ExponentAdvances(s, SpanEnd(s, d + 1, IsDigit));
    } else if d < |s| && s[d] != '.' {
      ExponentAdvances(s, d);
    }
  }

  /** Every step gets somewhere, and only a newline step passes a line end. */
  lemma NextAdvances(s: string, i: nat)
    requires i < |s| && Next(s, i).Took?
    ensures i < Next(s, i).to <= |s|
    ensures Next(s, i).kind != Newline ==> forall k :: i <= k < Next(s, i).to ==> !IsEol(s[k])
    ensures Next(s, i).kind == Newline ==> Next(s, i).to == i + 1 && IsEol(s[i])
    ensures Next(s, i).kind == Space ==> Next(s, i).to == i + 1 && IsSpace(s[i])
    ensures Next(s, i).kind == Comment ==> s[i] == '#' && (Next(s, i).to < |s| ==> IsEol(s[Next(s, i).to]))
    ensures Next(s, i).kind.Token? ==> !IsSpace(s[i]) && s[i] != '#' && Next(s, i).kind.t !in {NONE, EOF}
  {
    hide NumberStep;
    if IsDigit(s[i]) || IsSign(s[i]) {
      NumberAdvances(s, i);
    }
  }

  // ------------------------------------------------------------------
  // A whole input
  // ------------------------------------------------------------------

  /** A token by the characters it covers. */
  datatype Placed = Placed(t: TokenType, from: nat, to: nat)

  /** `tail` is where a comment that ends the input starts, or the input's end; `stop` is how
      far the scanner got. */
  datatype Lexed = Lexed(outcome: Outcome, placed: seq<Placed>, tail: nat, stop: nat)

  function Lex(s: string, i: nat): (r: Lexed)
    requires i <= |s|
    ensures i <= r.stop <= |s| && (r.outcome == OK <==> r.stop == |s|) && r.tail <= |s|
    ensures forall k :: 0 <= k < |r.placed| ==> r.placed[k].from <= r.placed[k].to <= |s|
    decreases |s| - i
  {
    if i == |s| then Lexed(OK, [], i, i)
    else
      var step := Next(s, i);
      if step.Fails? then Lexed(step.outcome, [], |s|, i)
      else
        NextAdvances(s, i);
        var rest := Lex(s, step.to);
        match step.kind
        case Token(t) => rest.(placed := [Placed(t, i, step.to)] + rest.placed)
        case Comment => if step.to == |s| then rest.(tail := i) else rest
        case _ => rest
  }

  function Text(s: string, p: Placed): string
    requires p.from <= p.to <= |s|
  {
    s[p.from..p.to]
  }

  // ------------------------------------------------------------------
  // Nothing is lost
  // ------------------------------------------------------------------

  /** Nothing but white space and whole comments, a comment reaching to its line's end. */
  predicate Ignorable(s: string)
    decreases |s|
  {
    s == [] || (IsSpace(s[0]) && Ignorable(s[1..]))
    || (s[0] == '#' && Ignorable(s[SpanEnd(s, 0, NotEol)..]))
  }

  predicate InOrder(s: string, placed: seq<Placed>, i: nat) {
    && (forall k :: 0 <= k < |placed| ==> i <= placed[k].from < placed[k].to <= |s|)
    && (forall k :: 0 < k < |placed| ==> placed[k - 1].to <= placed[k].from)
  }

  /** Where the text before token k starts: at the end of the token before it. */
  function GapStart(placed: seq<Placed>, i: nat, k: nat): nat
    requires k <= |placed|
  {
    if k == 0 then i else placed[k - 1].to
  }

  function GapEnd(s: string, placed: seq<Placed>, k: nat): nat
    requires k <= |placed|
  {
    if k == |placed| then |s| else placed[k].from
  }

  /** From i on, the input is tokens in order with only ignorable text before, between and after. */
  ghost predicate Lossless(s: string, placed: seq<Placed>, i: nat)
    requires i <= |s|
  {
    && InOrder(s, placed, i)
    && forall k :: 0 <= k <= |placed| ==>
         GapStart(placed, i, k) <= GapEnd(s, placed, k) && Ignorable(s[GapStart(placed, i, k)..GapEnd(s, placed, k)])
  }

  lemma SkippedIsIgnorable(s: string, i: nat, to: nat, gap: nat)
    requires i < to <= gap <= |s| && Next(s, i).Took? && Next(s, i).to == to && !Next(s, i).kind.Token?
    requires Ignorable(s[to..gap])
    ensures Ignorable(s[i..gap])
  {
    NextAdvances(s, i);
    var g := s[i..gap];
    if Next(s, i).kind == Comment {
      assert to == SpanEnd(s, i, NotEol);
      SpanEndIs(g, 0, NotEol, to - i);
      assert g[to - i..] == s[to..gap];
    } else {
      assert g[1..] == s[to..gap];
    }
  }

  lemma {:induction false} NothingIsLost(s: string, i: nat)
    requires i <= |s| && Lex(s, i).outcome == OK
    ensures Lossless(s, Lex(s, i).placed, i)
    decreases |s| - i
  {
    var placed := Lex(s, i).placed;
    if i == |s| {
    } else {
      var step := Next(s, i);
      NextAdvances(s, i);
      NothingIsLost(s, step.to);
      var rest := Lex(s, step.to).placed;
      if step.kind.Token? {
        PrependToken(s, rest, i, Placed(step.kind.t, i, step.to));
      } else {
        SkippedIsIgnorable(s, i, step.to, GapEnd(s, rest, 0));
        WidenFirstGap(s, rest, i, step.to);
      }
    }
  }

  lemma PrependToken(s: string, rest: seq<Placed>, i: nat, p: Placed)
    requires p.from == i < p.to <= |s| && Lossless(s, rest, p.to)
    ensures Lossless(s, [p] + rest, i)
  {
    var placed := [p] + rest;
    forall k | 0 <= k <= |placed|
      ensures GapStart(placed, i, k) <= GapEnd(s, placed, k) && Ignorable(s[GapStart(placed, i, k)..GapEnd(s, placed, k)])
    {
      if k > 0 {
        assert GapStart(placed, i, k) == GapStart(rest, p.to, k - 1);
        assert GapEnd(s, placed, k) == GapEnd(s, rest, k - 1);
      }
    }
  }

  lemma WidenFirstGap(s: string, rest: seq<Placed>, i: nat, to: nat)
    requires i <= to <= |s| && Lossless(s, rest, to) && Ignorable(s[i..GapEnd(s, rest, 0)])
    ensures Lossless(s, rest, i)
  {
    forall k | 0 <= k <= |rest|
      ensures GapStart(rest, i, k) <= GapEnd(s, rest, k) && Ignorable(s[GapStart(rest, i, k)..GapEnd(s, rest, k)])
    {
      assert k > 0 ==> GapStart(rest, i, k) == GapStart(rest, to, k);
    }
  }

  // ------------------------------------------------------------------
  // Bytes and lines, by recounting
  // ------------------------------------------------------------------

  function Bytes(s: string): nat {
    if s == [] then 0 else Bytes(s[..|s| - 1]) + Width(s[|s| - 1])
  }

  function Newlines(s: string): nat {
    if s == [] then 0 else Newlines(s[..|s| - 1]) + if IsEol(s[|s| - 1]) then 1 else 0
  }

  /** The offset just after the last newline, or `base` on the first line. */
  function LineStart(base: int, s: string): int {
    if s == [] then base
    else if IsEol(s[|s| - 1]) then Bytes(s)
    else LineStart(base, s[..|s| - 1])
  }

  /** The offset just after each newline. */
  function LineTable(s: string): seq<int> {
    if s == [] then [] else LineTable(s[..|s| - 1]) + if IsEol(s[|s| - 1]) then [Bytes(s)] else []
  }

  lemma OneMore(s: string, i: nat)
    requires i < |s|
    ensures s[..i + 1][..i] == s[..i] && s[..i + 1][i] == s[i]
    ensures Bytes(s[..i + 1]) == Bytes(s[..i]) + Width(s[i])
    ensures Newlines(s[..i + 1]) == Newlines(s[..i]) + if IsEol(s[i]) then 1 else 0
    ensures forall base :: LineStart(base, s[..i + 1]) == if IsEol(s[i]) then Bytes(s[..i + 1]) else LineStart(base, s[..i])
    ensures LineTable(s[..i + 1]) == LineTable(s[..i]) + if IsEol(s[i]) then [Bytes(s[..i + 1])] else []
  {
    var t := s[..i + 1];
    assert |t| == i + 1 && t[..|t| - 1] == s[..i];
    forall base: int ensures LineStart(base, t) == if IsEol(s[i]) then Bytes(t) else LineStart(base, s[..i]) {
    }
  }

  /** Bytes from one place to another. */
  function Distance(s: string, from: nat, to: nat): nat
    requires from <= to <= |s|
  {
    Bytes(s[from..to])
  }

  lemma {:induction false} BytesAddUp(s: string, from: nat, to: nat)
    requires from <= to <= |s|
    ensures Bytes(s[..to]) == Bytes(s[..from]) + Distance(s, from, to)
    ensures from < to ==> Distance(s, from, to) > 0
    decreases (to - from)
  {
    if from < to {
      BytesAddUp(s, from, to - 1);
      OneMore(s, to - 1);
      assert s[from..to][..to - 1 - from] == s[from..to - 1];
    }
  }

  /** Within a line only the byte count moves. */
  lemma {:induction false} SameLine(s: string, from: nat, to: nat)
    requires from <= to <= |s| && forall k :: from <= k < to ==> !IsEol(s[k])
    ensures Newlines(s[..to]) == Newlines(s[..from]) && LineTable(s[..to]) == LineTable(s[..from])
    ensures forall base :: LineStart(base, s[..to]) == LineStart(base, s[..from])
    decreases (to - from)
  {
    if from < to {
      SameLine(s, from, to - 1);
      OneMore(s, to - 1);
    }
  }

  // ------------------------------------------------------------------
  // Tokens
  // ------------------------------------------------------------------

  datatype ElementToken = ElementToken(
    t: TokenType, tokPos: int, tokLen: int, postPos: int, postLen: int, line: int, lineStart: int, character: int)

  const BLANK: ElementToken := ElementToken(NONE, -1, 0, -1, 0, -1, -1, -1)

  /** A placed token with its position recounted from the start of the input.  `base` is where
      the context believed the first line to start. */
  function AsToken(s: string, base: int, p: Placed): ElementToken
    requires p.from <= p.to <= |s|
  {
    var before := s[..p.from];
    ElementToken(p.t, Bytes(before), Distance(s, p.from, p.to), -1, 0,
                 1 + Newlines(before), LineStart(base, before), 1 + Bytes(before) - LineStart(0, before))
  }

  /** Only the end token can carry a comment: every other comment's line ends before a token. */
  function EofToken(s: string, base: int, tail: nat): ElementToken
    requires tail <= |s|
  {
    ElementToken(EOF, Bytes(s), 0, if tail < |s| then Bytes(s[..tail]) else -1, Distance(s, tail, |s|),
                 1 + Newlines(s), LineStart(base, s), 1 + Bytes(s) - LineStart(0, s))
  }

  predicate AllPlaced(s: string, placed: seq<Placed>) {
    forall k :: 0 <= k < |placed| ==> placed[k].from <= placed[k].to <= |s|
  }

  function AsTokens(s: string, base: int, placed: seq<Placed>): (r: seq<ElementToken>)
    requires AllPlaced(s, placed)
    ensures |r| == |placed| && forall k :: 0 <= k < |r| ==> r[k] == AsToken(s, base, placed[k])
  {
    seq(|placed|, k requires 0 <= k < |placed| => AsToken(s, base, placed[k]))
  }

  /** The tokens of an input. */
  function Tokens(s: string, base: int): seq<ElementToken> {
    var lexed := Lex(s, 0);
    AsTokens(s, base, lexed.placed) + if lexed.outcome == OK then [EofToken(s, base, lexed.tail)] else []
  }

  // ------------------------------------------------------------------
  // The message about an invalid character
  // ------------------------------------------------------------------

  const MESSAGE_BUFFER: nat := 1024

  /** Bytes from where the context believes the line to start; so many are copied. */
  function LineSoFar(s: string, base: int, i: nat): int
    requires i <= |s|
  {
    Bytes(s[..i]) - LineStart(base, s[..i])
  }

  predicate InBuffer(n: int) {
    0 <= n <= MESSAGE_BUFFER
  }

  /** The scanner stopped at an invalid character, and the line up to it is not to be had. */
  predicate Overruns(s: string, base: int) {
    var stop := Lex(s, 0).stop;
    stop < |s| && IsInvalid(s[stop]) && !InBuffer(LineSoFar(s, base, stop))
  }

  function Reported(s: string, base: int): Outcome {
    if Overruns(s, base) then OUTSIDE_BUFFER else Lex(s, 0).outcome
  }

  lemma {:induction false} LexOutcomes(s: string, i: nat)
    requires i <= |s|
    ensures Lex(s, i).outcome != OUTSIDE_BUFFER
    ensures Lex(s, i).stop < |s| && IsInvalid(s[Lex(s, i).stop]) ==> Lex(s, i).outcome == ERROR_PARSE
    decreases |s| - i
  {
    hide Next, IsInvalid;
    if i < |s| {
      StepOutcomes(s, i);
      if IsInvalid(s[i]) {
        InvalidFails(s, i);
      } else if Next(s, i).Took? {
        NextAdvances(s, i);
        LexOutcomes(s, Next(s, i).to);
      }
    }
  }

  lemma StepOutcomes(s: string, i: nat)
    requires i < |s|
    ensures Next(s, i).Fails? ==> Next(s, i).outcome !in {OK, OUTSIDE_BUFFER}
  {
  }

  /** Stopped at an invalid character, a run reports it exactly when the line up to there, as the
      context believes it to start, fits the message's buffer; stopped elsewhere or nowhere, it
      reports what it found. */
  lemma InvalidReportedIff(s: string, base: int)
    ensures var (lexed, r) := (Lex(s, 0), Reported(s, base));
      if lexed.stop < |s| && IsInvalid(s[lexed.stop])
      then r in {ERROR_PARSE, OUTSIDE_BUFFER} && (r == ERROR_PARSE <==> InBuffer(LineSoFar(s, base, lexed.stop)))
      else r == lexed.outcome
  {
    hide Lex, IsInvalid, LineSoFar;
    LexOutcomes(s, 0);
  }

  /** The start of a line is only ever past where the scanner is on the first line, and then only
      by what an earlier run has left behind. */
  lemma {:induction false} LineSoFarIsStaleIff(s: string, base: int, i: nat)
    requires i <= |s|
    ensures LineSoFar(s, base, i) < 0 <==> Newlines(s[..i]) == 0 && base > Bytes(s[..i])
    ensures base == 0 ==> LineSoFar(s, base, i) >= 0
    decreases i
  {
    if i > 0 {
      hide Bytes, Newlines, LineStart;
      OneMore(s, i - 1);
      LineSoFarIsStaleIff(s, base, i - 1);
      NewlinesOnFirstLine(s, base, i - 1);
    } else {
      assert s[..0] == "";
    }
  }

  /** On the first line the start is the context's own; on a later one it lies behind. */
  lemma {:induction false} NewlinesOnFirstLine(s: string, base: int, i: nat)
    requires i <= |s|
    ensures Newlines(s[..i]) == 0 ==> LineStart(base, s[..i]) == base
    ensures Newlines(s[..i]) > 0 ==> 0 < LineStart(base, s[..i]) <= Bytes(s[..i])
    decreases i
  {
    if i > 0 {
      hide Bytes, Newlines, LineStart;
      OneMore(s, i - 1);
      NewlinesOnFirstLine(s, base, i - 1);
    } else {
      assert s[..0] == "";
    }
  }

  // ------------------------------------------------------------------
  // Positions, kept and recounted
  // ------------------------------------------------------------------

  datatype Cursor = Cursor(pos: int, line: int, lineStart: int, character: int, lines: seq<int>)

  /** How the context moves its counters over a step of n bytes. */
  function Move(c: Cursor, kind: Kind, n: nat): Cursor {
    if kind == Newline then Cursor(c.pos + n, c.line + 1, c.pos + n, 1, c.lines + [c.pos + n])
    else c.(pos := c.pos + n, character := c.character + n)
  }

  /** What they should be at i, counted afresh from the input. */
  function Recount(s: string, i: nat, base: int, lines: seq<int>): Cursor
    requires i <= |s|
  {
    var before := s[..i];
    Cursor(Bytes(before), 1 + Newlines(before), LineStart(base, before), 1 + Bytes(before) - LineStart(0, before), lines + LineTable(before))
  }

  /** The counters never drift from the recount. */
  lemma MoveIsRecount(s: string, i: nat, base: int, lines: seq<int>)
    requires i < |s| && Next(s, i).Took?
    ensures var step := Next(s, i);
      && i < step.to <= |s|
      && Move(Recount(s, i, base, lines), step.kind, Distance(s, i, step.to)) == Recount(s, step.to, base, lines)
  {
    hide Next, Distance, LineTable, LineStart, Newlines, Bytes;
    NextAdvances(s, i);
    var step := Next(s, i);
    BytesAddUp(s, i, step.to);
    if step.kind == Newline {
      OneMore(s, i);
    } else {
      SameLine(s, i, step.to);
    }
  }

  /** How far a run has got: `done` are the tokens so far, c where a comment on record starts. */
  ghost predicate Follows(s: string, it: nat, done: seq<Placed>, c: nat)
    requires it <= |s|
  {
    var (whole, rest) := (Lex(s, 0), Lex(s, it));
    && whole.outcome == rest.outcome && whole.stop == rest.stop && whole.placed == done + rest.placed
    && whole.tail == if c < it == |s| then c else rest.tail
  }

  lemma FollowsStep(s: string, it: nat, done: seq<Placed>, c: nat)
    requires it < |s| && Follows(s, it, done, c) && Next(s, it).Took?
    ensures var step := Next(s, it);
      && it < step.to <= |s|
      && Follows(s, step.to, if step.kind.Token? then done + [Placed(step.kind.t, it, step.to)] else done,
                 if step.kind == Comment then it else step.to)
  {
    hide Next;
    NextAdvances(s, it);
  }

  lemma AtTheStart(s: string, base: int, lines: seq<int>)
    ensures Recount(s, 0, base, lines) == Cursor(0, 1, base, 1, lines) && Follows(s, 0, [], 0)
  {
  }

  lemma StoppedHere(s: string, base: int, it: nat, done: seq<Placed>, c: nat)
    requires it < |s| && AllPlaced(s, done) && Follows(s, it, done, c)
    ensures Next(s, it).Fails? ==>
              Lex(s, 0).outcome == Next(s, it).outcome != OK && Lex(s, 0).stop == it && Tokens(s, base) == AsTokens(s, base, done)
  {
    NextFails(s, it);
    hide Next, AsToken;
    if Next(s, it).Fails? {
      assert Lex(s, 0).placed == done;
    }
  }

  lemma NextFails(s: string, i: nat)
    requires i < |s|
    ensures Next(s, i).Fails? ==> Next(s, i).outcome != OK
  {
  }

  /** What a run reports where it stops. */
  lemma ReportedHere(s: string, base: int, it: nat)
    requires it < |s|
    ensures IsInvalid(s[it]) ==> Next(s, it) == Fails(ERROR_PARSE)
    ensures Lex(s, 0).stop == it ==>
              Reported(s, base) == if IsInvalid(s[it]) && !InBuffer(LineSoFar(s, base, it)) then OUTSIDE_BUFFER else Lex(s, 0).outcome
  {
    hide Lex, IsInvalid, LineSoFar;
    if IsInvalid(s[it]) {
      InvalidFails(s, it);
    }
  }

  lemma ReportedAtEnd(s: string, base: int)
    ensures Lex(s, 0).stop == |s| ==> Reported(s, base) == Lex(s, 0).outcome
  {
    hide Lex;
  }

  lemma RecountedFields(s: string, i: nat, base: int, lines: seq<int>)
    requires i <= |s|
    ensures Recount(s, i, base, lines).pos == Bytes(s[..i]) && Recount(s, i, base, lines).lines == lines + LineTable(s[..i])
    ensures Recount(s, i, base, lines).lineStart == LineStart(base, s[..i])
    ensures Recount(s, i, base, lines).pos - Recount(s, i, base, lines).lineStart == LineSoFar(s, base, i)
  {
  }

  lemma TokenIsRecounted(s: string, base: int, lines: seq<int>, t: TokenType, from: nat, to: nat, done: seq<Placed>)
    requires from <= to <= |s| && AllPlaced(s, done)
    ensures var c := Recount(s, from, base, lines);
      && AllPlaced(s, done + [Placed(t, from, to)])
      && AsTokens(s, base, done + [Placed(t, from, to)])
           == AsTokens(s, base, done) + [ElementToken(t, c.pos, Distance(s, from, to), -1, 0, c.line, c.lineStart, c.character)]
  {
    hide Bytes, Newlines, LineStart, LineTable, Distance;
  }

  lemma EndIsRecounted(s: string, base: int, lines: seq<int>, done: seq<Placed>, c: nat)
    requires c <= |s| && AllPlaced(s, done) && Follows(s, |s|, done, c)
    ensures var r := Recount(s, |s|, base, lines);
      && Lex(s, 0).outcome == OK && Lex(s, 0).stop == |s|
      && r.pos == Bytes(s[..|s|]) && r.lines == lines + LineTable(s[..|s|])
      && Tokens(s, base) == AsTokens(s, base, done)
           + [ElementToken(EOF, r.pos, 0, if c < |s| then Bytes(s[..c]) else -1, if c < |s| then Distance(s, c, |s|) else 0,
                           r.line, r.lineStart, r.character)]
  {
    assert Lex(s, |s|) == Lexed(OK, [], |s|, |s|);
    assert Lex(s, 0).placed == done && Lex(s, 0).tail == if c < |s| then c else |s|;
    hide Lex, Bytes, Distance, Recount, EofToken, AsToken, LineTable;
    EofIsRecounted(s, base, lines, c);
  }

  lemma EofIsRecounted(s: string, base: int, lines: seq<int>, c: nat)
    requires c <= |s|
    ensures var r := Recount(s, |s|, base, lines);
      && r.pos == Bytes(s[..|s|]) && r.lines == lines + LineTable(s[..|s|])
      && EofToken(s, base, c) == ElementToken(EOF, r.pos, 0, if c < |s| then Bytes(s[..c]) else -1, if c < |s| then Distance(s, c, |s|) else 0,
                                              r.line, r.lineStart, r.character)
  {
    assert s[..|s|] == s;
    assert s[|s|..] == "";
  }

  // ------------------------------------------------------------------
  // The context
  // ------------------------------------------------------------------

  class TokeniserCtx {
    var input: string
    var pos: int
    var line: int
    var lineStart: int
    var character: int
    var cur: ElementToken
    var tokens: seq<ElementToken>
    var lines: seq<int>

    constructor ()
      ensures Fresh()
    {
      input, pos, line, lineStart, character := "", 0, 1, 0, 1;
      cur := ElementToken(NONE, -1, -1, -1, -1, -1, -1, -1);
      tokens, lines := [], [0];
    }

    predicate Fresh()
      reads this
    {
      tokens == [] && lines == [0] && lineStart == 0 && cur.t == NONE
    }

    function Where(): Cursor
      reads this
    {
      Cursor(pos, line, lineStart, character, lines)
    }

    /** The effect of one step that was taken, on every field. */
    twostate predicate Moved(kind: Kind, n: nat)
      reads this
    {
      && input == old(input) && Where() == Move(old(Where()), kind, n)
      && tokens == old(tokens) + (if kind.Token? then [ElementToken(kind.t, old(pos), n, -1, 0, old(line), old(lineStart), old(character))] else [])
      && cur == if kind == Comment then BLANK.(postPos := old(pos), postLen := n) else BLANK
    }

    method ResetToken()
      modifies `tokens, `cur
      ensures tokens == old(tokens) + if old(cur.t) == NONE then [] else [old(cur)]
      ensures cur == BLANK
    {
      if cur.t != NONE {
        tokens := tokens + [cur];
      }
      cur := BLANK;
    }

    /** The source's own assertion is the first requirement. */
    method AddToken(t: TokenType, n: nat)
      requires cur.t == NONE && t != NONE
      modifies `tokens, `cur, `pos, `character
      ensures tokens == old(tokens) + [ElementToken(t, old(pos), n, old(cur.postPos), old(cur.postLen), line, lineStart, old(character))]
      ensures cur == BLANK && pos == old(pos) + n && character == old(character) + n
      ensures old(cur) == BLANK ==> Moved(Token(t), n)
    {
      cur := cur.(t := t, tokPos := pos, tokLen := n, line := line, lineStart := lineStart, character := character);
      pos := pos + n;
      character := character + n;
      ResetToken();
    }

    /** The start of a token whose length is not known yet. */
    method BeginToken(t: TokenType)
      requires cur.t == NONE
      modifies `cur
      ensures cur == old(cur).(t := t, tokPos := pos, line := line, lineStart := lineStart, character := character)
    {
      cur := cur.(t := t, tokPos := pos, line := line, lineStart := lineStart, character := character);
    }

    method EndToken(begin: nat, it: nat)
      requires begin <= it <= |input| && cur.t != NONE
      modifies `tokens, `cur, `pos, `character
      ensures var n := Distance(input, begin, it);
        && tokens == old(tokens) + [old(cur).(tokLen := old(cur.tokLen) + n)]
        && pos == old(pos) + n && character == old(character) + n
      ensures cur == BLANK
    {
      var len := Distance(input, begin, it);
      pos := pos + len;
      character := character + len;
      cur := cur.(tokLen := cur.tokLen + len);
      ResetToken();
    }

    /** The scanning loops: while there is a character of the class, step over it. */
    method SkipWhile(it: nat, p: char -> bool) returns (end: nat)
      requires it <= |input|
      ensures end == SpanEnd(input, it, p)
    {
      end := it;
      while end != |input| && p(input[end])
        invariant it <= end <= |input| && forall k :: it <= k < end ==> p(input[k])
      {
        end := end + 1;
      }
      SpanEndIs(input, it, p, end);
    }

    method TokeniseNumber(begin: nat) returns (r: Outcome, it: nat)
      requires begin < |input| && cur == BLANK && (IsDigit(input[begin]) || IsSign(input[begin]))
      modifies `tokens, `cur, `pos, `character
      ensures NumberStep(input, begin) == if r == OK then Took(Token(NUMBER), it) else Fails(r)
      ensures r == OK ==> begin <= it <= |input| && Moved(Token(NUMBER), Distance(input, begin, it))
      ensures r != OK ==> cur.t == NUMBER && tokens == old(tokens) && pos == old(pos) && character == old(character)
    {
      BeginToken(NUMBER);
      hide NumberStep;
      r, it := ScanNumber(begin);
      if r == OK {
        EndToken(begin, it);
      }
    }

    /** The scanning half of tokenise_number. */
    method ScanNumber(begin: nat) returns (r: Outcome, it: nat)
      requires begin < |input| && (IsDigit(input[begin]) || IsSign(input[begin]))
      ensures NumberStep(input, begin) == if r == OK then Took(Token(NUMBER), it) else Fails(r)
      ensures r == OK ==> begin <= it <= |input|
    {
      hide ExponentStep;
      it := begin;
      if IsSign(input[it]) {
        it := it + 1;
        if it == |input| {
          return ERROR_EXCEPTION, it;
        }
      }
      if !IsDigit(input[it]) {
        return ERROR_PARSE, it;
      }
      it := SkipWhile(it, IsDigit);
      if it == |input| {
        return OK, it;
      }
      if input[it] == '.' {
        var itNext := it + 1;
        if itNext == |input| {
          return ERROR_EXCEPTION, it;
        }
        if IsDigit(input[itNext]) {
          it := SkipWhile(itNext, IsDigit);
        } else if IsAlpha(input[itNext]) {
          // indexing into a literal: the number ends before the dot
          return OK, it;
        } else {
          return ERROR_BAD_INDEX_INTO_NUMBER, it;
        }
      }
      r, it := TokeniseExponent(it);
    }

    method TokeniseExponent(from: nat) returns (r: Outcome, it: nat)
      requires from <= |input|
      ensures ExponentStep(input, from) == if r == OK then Took(Token(NUMBER), it) else Fails(r)
      ensures r == OK ==> from <= it <= |input|
    {
      it := from;
      if it != |input| && (input[it] == 'e' || input[it] == 'E') {
        it := it + 1;
        if it == |input| {
          return ERROR_EXCEPTION, it;
        }
        if IsSign(input[it]) {
          it := it + 1;
          if it == |input| {
            return ERROR_EXCEPTION, it;
          }
        }
        if !IsDigit(input[it]) {
          return ERROR_BAD_NUMBER_EXPONENT, it;
        }
        it := SkipWhile(it, IsDigit);
      }
      r := OK;
    }

    method TokeniseIdentifier(begin: nat) returns (it: nat)
      requires begin < |input| && cur == BLANK
      requires IsIdAlpha(input[begin])
      modifies `tokens, `cur, `pos, `character
      ensures it == SpanEnd(input, if input[begin] == '_' then begin + 1 else begin, IsIdRest) && begin <= it
      ensures Moved(Token(IDENTIFIER), Distance(input, begin, it))
    {
      BeginToken(IDENTIFIER);
      it := begin;
      var c := input[it];
      if c == '_' {
        it := it + 1;
      }
      assert IsIdAlpha(c);
      it := SkipWhile(it, IsIdRest);
      EndToken(begin, it);
    }

    method TokeniseComment(begin: nat) returns (it: nat)
      requires begin < |input|
      modifies `cur, `pos, `character
      ensures it == SpanEnd(input, begin, NotEol)
      ensures var n := Distance(input, begin, it);
        && pos == old(pos) + n && character == old(character) + n
        && cur == old(cur).(postPos := if old(cur.postPos) < 0 then old(pos) else old(cur.postPos), postLen := old(cur.postLen) + n)
      ensures old(cur) == BLANK ==> Moved(Comment, Distance(input, begin, it))
    {
      if cur.postPos < 0 {
        cur := cur.(postPos := pos);
      }
      it := SkipWhile(begin, NotEol);
      var len := Distance(input, begin, it);
      cur := cur.(postLen := cur.postLen + len);
      pos := pos + len;
      character := character + len;
    }

    method EndLine()
      requires cur.t == NONE
      modifies `line, `character, `pos, `lineStart, `lines, `tokens, `cur
      ensures Moved(Newline, 1)
    {
      line := line + 1;
      character := 1;
      pos := pos + 1;
      lineStart := pos;
      lines := lines + [lineStart];
      ResetToken();
    }

    method EatSpace()
      requires cur == BLANK
      modifies `character, `pos
      ensures Moved(Space, 1)
    {
      pos := pos + 1;
      character := character + 1;
    }

    /** One turn of the main loop.  The message about an invalid character quotes its line so far. */
    method TakeOne(it: nat) returns (step: Step)
      requires it < |input| && cur.t == NONE && (!IsEol(input[it]) ==> cur == BLANK)
      modifies `tokens, `cur, `pos, `character, `line, `lineStart, `lines
      ensures step == if IsInvalid(input[it]) && !InBuffer(old(pos) - old(lineStart)) then Fails(OUTSIDE_BUFFER) else Next(input, it)
      ensures step.Took? ==> it <= step.to <= |input| && Moved(step.kind, Distance(input, it, step.to))
      ensures step.Fails? ==>
                && tokens == old(tokens) && pos == old(pos) && line == old(line) && lineStart == old(lineStart) && lines == old(lines)
                && cur.t == if IsDigit(input[it]) || IsSign(input[it]) then NUMBER else NONE
    {
      hide NumberStep, SpanEnd, Distance, Moved;
      var c := input[it];
      OneByte(input, it);
      if Punctuation(c) != NONE {
        AddToken(Punctuation(c), 1);
        return Took(Token(Punctuation(c)), it + 1);
      } else if c == '#' {
        var end := TokeniseComment(it);
        return Took(Comment, end);
      } else if c == '_' {
        if it + 1 == |input| {
          return Fails(ERROR_EXCEPTION);
        }
        if IsIdAlpha(input[it + 1]) {
          var end := TokeniseIdentifier(it);
          return Took(Token(IDENTIFIER), end);
        }
        AddToken(UNDERSCORE, 1);
        return Took(Token(UNDERSCORE), it + 1);
      } else if IsIdAlpha(c) {
        var end := TokeniseIdentifier(it);
        return Took(Token(IDENTIFIER), end);
      } else if IsDigit(c) || IsSign(c) {
        var r, end := TokeniseNumber(it);
        return if r == OK then Took(Token(NUMBER), end) else Fails(r);
      } else if IsEol(c) {
        EndLine();
        return Took(Newline, it + 1);
      } else if IsSpace(c) {
        EatSpace();
        return Took(Space, it + 1);
      } else {
        var length := pos - lineStart;
        if length < 0 || length > MESSAGE_BUFFER {
          return Fails(OUTSIDE_BUFFER);
        }
        return Fails(ERROR_PARSE);
      }
    }

    /** A comment from c up to `it` is on record; none when c == it. */
    ghost predicate Pending(c: nat, it: nat)
      reads this
    {
      && c <= it <= |input| && (c < it < |input| ==> IsEol(input[it]))
      && cur == if c < it then BLANK.(postPos := Bytes(input[..c]), postLen := Distance(input, c, it)) else BLANK
    }

    /** The run has reached `it`: counters as recounted, tokens as placed. */
    ghost predicate Reached(it: nat, base: int, was: seq<int>, before: seq<ElementToken>, done: seq<Placed>, c: nat)
      reads this
    {
      && Pending(c, it)
      && Where() == Recount(input, it, base, was)
      && AllPlaced(input, done) && tokens == before + AsTokens(input, base, done)
      && Follows(input, it, done, c)
    }

    /** A turn of the loop, and what it means for the run. */
    method Turn(it: nat, ghost base: int, ghost was: seq<int>, ghost before: seq<ElementToken>, ghost done: seq<Placed>, ghost c: nat)
      returns (step: Step, ghost done': seq<Placed>, ghost c': nat)
      requires it < |input| && Reached(it, base, was, before, done, c)
      modifies `tokens, `cur, `pos, `character, `line, `lineStart, `lines
      ensures step == if IsInvalid(input[it]) && !InBuffer(LineSoFar(input, base, it)) then Fails(OUTSIDE_BUFFER) else Next(input, it)
      ensures step.Took? ==> it < step.to <= |input| && Reached(step.to, base, was, before, done', c')
      ensures step.Fails? ==>
                && tokens == old(tokens) && pos == old(pos) && lineStart == old(lineStart) && lines == old(lines)
                && cur.t == (if IsDigit(input[it]) || IsSign(input[it]) then NUMBER else NONE)
                && done' == done
    {
      hide Next, Bytes, Newlines, LineTable, LineStart, LineSoFar, InBuffer, IsInvalid, Distance, Move, Recount, AsTokens, Follows;
      done', c' := done, c;
      RecountedFields(input, it, base, was);
      step := TakeOne(it);
      if step.Took? {
        NextAdvances(input, it);
        MoveIsRecount(input, it, base, was);
        FollowsStep(input, it, done, c);
        if step.kind.Token? {
          TokenIsRecounted(input, base, was, step.kind.t, it, step.to, done);
          done' := done + [Placed(step.kind.t, it, step.to)];
        }
        c' := if step.kind == Comment then it else step.to;
      }
    }

    /** element_tokeniser_ctx::run, from whatever state the context is in.  Where the copy for a
        message goes wrong, the rest is the context as the copy finds it. */
    method Run(cinput: string) returns (r: Outcome)
      modifies this
      ensures var lexed := Lex(cinput, 0); var base := old(lineStart);
        && r == Reported(cinput, base) && input == cinput
        && tokens == old(tokens) + (if old(cur.t) == NONE then [] else [old(cur)]) + Tokens(cinput, base)
        && pos == Bytes(cinput[..lexed.stop]) && lineStart == LineStart(base, cinput[..lexed.stop])
        && lines == old(lines) + LineTable(cinput[..lexed.stop])
        && (r == OK ==> cur == BLANK)
        && (r != OK ==> cur.t == if IsDigit(cinput[lexed.stop]) || IsSign(cinput[lexed.stop]) then NUMBER else NONE)
    {
      hide Next, Bytes, Newlines, LineTable, LineStart, Distance, Move, Recount, AsToken, AsTokens, EofToken, Lex, Tokens, Follows, IsDigit, IsSign,
        IsInvalid, LineSoFar, Reported;
      input := cinput;
      pos := 0;
      line := 1;
      character := 1;
      ResetToken();
      var it := 0;
      ghost var base, before, was := lineStart, tokens, lines;
      ghost var done: seq<Placed>, c: nat := [], 0;
      AtTheStart(input, base, was);
      while it != |input|
        invariant it <= |input| && input == cinput && Reached(it, base, was, before, done, c)
        decreases |input| - it
      {
        RecountedFields(input, it, base, was);
        StoppedHere(input, base, it, done, c);
        ReportedHere(input, base, it);
        var step;
        step, done, c := Turn(it, base, was, before, done, c);
        if step.Fails? {
          return step.outcome;
        }
        it := step.to;
      }
      RecountedFields(input, |input|, base, was);
      EndIsRecounted(input, base, was, done, c);
      ReportedAtEnd(input, base);
      AddToken(EOF, 0);
      r := OK;
    }

    /** element_tokeniser_ctx::clear: a token left half read by a failed run survives it, and
        so does the line table. */
    method Clear()
      modifies this
      ensures tokens == if old(cur.t) == NONE then [] else [old(cur)]
      ensures lines == old(lines) && lineStart == 0 && cur == BLANK && input == ""
      ensures Fresh() <==> old(cur.t) == NONE && old(lines) == [0]
    {
      tokens := [];
      input := "";
      line := 1;
      lineStart := 0;
      character := 1;
      pos := 0;
      ResetToken();
    }
  }

  lemma OneByte(s: string, i: nat)
    requires i < |s|
    ensures Distance(s, i, i + 1) == Width(s[i])
  {
    var t := s[i..i + 1];
    assert |t| == 1 && t[..0] == "" && t[0] == s[i];
    assert Bytes(t) == Bytes(t[..0]) + Width(t[0]);
  }

  // ------------------------------------------------------------------
  // Tokens cover the input
  // ------------------------------------------------------------------

  /** The character that starts at a byte offset. */
  function IndexAt(s: string, b: int): (r: nat)
    ensures r <= |s|
  {
    if s == [] || Bytes(s[..|s| - 1]) < b then |s| else IndexAt(s[..|s| - 1], b)
  }

  lemma {:induction false} IndexAtIs(s: string, i: nat)
    requires i <= |s|
    ensures IndexAt(s, Bytes(s[..i])) == i
    decreases |s|
  {
    if i < |s| {
      BytesAddUp(s, i, |s| - 1);
      assert s[..|s| - 1][..i] == s[..i];
      IndexAtIs(s[..|s| - 1], i);
    } else if s != [] {
      assert s[..i] == s;
      OneMore(s, i - 1);
    }
  }

  /** The characters between two byte offsets: `text` is input.substr(tokPos, tokLen). */
  function Between(s: string, from: int, to: int): string {
    if IndexAt(s, from) <= IndexAt(s, to) then s[IndexAt(s, from)..IndexAt(s, to)] else ""
  }

  function TextOf(s: string, t: ElementToken): string {
    Between(s, t.tokPos, t.tokPos + t.tokLen)
  }

  lemma BetweenIs(s: string, from: nat, to: nat)
    requires from <= to <= |s|
    ensures Between(s, Bytes(s[..from]), Bytes(s[..to])) == s[from..to]
  {
    IndexAtIs(s, from);
    IndexAtIs(s, to);
  }

  lemma TextIsPlaced(s: string, base: int, p: Placed)
    requires p.from <= p.to <= |s|
    ensures TextOf(s, AsToken(s, base, p)) == Text(s, p)
  {
    BytesAddUp(s, p.from, p.to);
    BetweenIs(s, p.from, p.to);
  }

  /** Where token k ends, or 0 for what comes before the first. */
  function EndBefore(ts: seq<ElementToken>, k: nat): int
    requires k <= |ts|
  {
    if k == 0 then 0 else ts[k - 1].tokPos + ts[k - 1].tokLen
  }

  /** Losslessness, in bytes: token ranges lie in the input, do not overlap and are in order;
      what is between them is white space and comments; an empty end token closes the input. */
  lemma TokensCoverInput(s: string, base: int)
    requires Lex(s, 0).outcome == OK
    ensures var ts := Tokens(s, base);
      && |ts| > 0 && ts[|ts| - 1].t == EOF && ts[|ts| - 1].tokPos == Bytes(s) && ts[|ts| - 1].tokLen == 0
      && (forall k :: 0 <= k < |ts| - 1 ==> ts[k].t !in {NONE, EOF} && ts[k].tokLen > 0 && TextOf(s, ts[k]) == Text(s, Lex(s, 0).placed[k]))
      && (forall k :: 0 <= k < |ts| ==> EndBefore(ts, k) <= ts[k].tokPos && Ignorable(Between(s, EndBefore(ts, k), ts[k].tokPos)))
  {
    hide Lex, AsToken, Ignorable, Bytes, Between, TextOf, Text, Distance, LineStart, Newlines;
    NothingIsLost(s, 0);
    PlacedAreTokens(s, 0);
    var placed, ts := Lex(s, 0).placed, Tokens(s, base);
    assert Bytes("") == 0 by { NoBytes(); }
    assert s[..|s|] == s && s[..0] == "";
    forall k | 0 <= k < |placed|
      ensures ts[k].t == placed[k].t && ts[k].tokPos == Bytes(s[..placed[k].from]) && ts[k].tokLen > 0
      ensures ts[k].tokPos + ts[k].tokLen == Bytes(s[..placed[k].to]) && TextOf(s, ts[k]) == Text(s, placed[k])
    {
      PlacedInBytes(s, base, placed[k]);
    }
    forall k | 0 <= k < |ts|
      ensures EndBefore(ts, k) <= ts[k].tokPos && Ignorable(Between(s, EndBefore(ts, k), ts[k].tokPos))
    {
      var from, to := GapStart(placed, 0, k), GapEnd(s, placed, k);
      assert from <= to && Ignorable(s[from..to]);
      BytesAddUp(s, from, to);
      BetweenIs(s, from, to);
    }
  }

  lemma NoBytes()
    ensures Bytes("") == 0
  {
  }

  lemma PlacedInBytes(s: string, base: int, p: Placed)
    requires p.from < p.to <= |s|
    ensures var t := AsToken(s, base, p);
      && t.t == p.t && t.tokPos == Bytes(s[..p.from]) && t.tokLen > 0
      && t.tokPos + t.tokLen == Bytes(s[..p.to]) && TextOf(s, t) == Text(s, p)
  {
    BytesAddUp(s, p.from, p.to);
    TextIsPlaced(s, base, p);
  }

  lemma {:induction false} PlacedAreTokens(s: string, i: nat)
    requires i <= |s|
    ensures forall k :: 0 <= k < |Lex(s, i).placed| ==> Lex(s, i).placed[k].t !in {NONE, EOF}
    decreases |s| - i
  {
    hide Next;
    if i < |s| && Next(s, i).Took? {
      NextAdvances(s, i);
      PlacedAreTokens(s, Next(s, i).to);
    }
  }

  // ------------------------------------------------------------------
  // The line index
  // ------------------------------------------------------------------

  /** The table lists exactly the offset after each newline, in order. */
  lemma {:induction false} LineTableListsNewlines(s: string, i: nat)
    requires i <= |s|
    ensures |LineTable(s)| == Newlines(s)
    ensures Newlines(s[..i]) <= Newlines(s)
    ensures i < |s| && IsEol(s[i]) ==> Newlines(s[..i]) < Newlines(s) && LineTable(s)[Newlines(s[..i])] == Bytes(s[..i + 1])
    decreases |s|
  {
    if s != [] {
      var n := |s| - 1;
      LineTableListsNewlines(s[..n], if i < n then i else n);
      if i < n {
        assert s[..n][..i] == s[..i] && s[..n][..i + 1] == s[..i + 1];
      } else {
        assert s[..|s|] == s && s[..n][..n] == s[..n];
      }
    }
  }

  /** Line n's start in the table is where the last newline before a place on it ended. */
  lemma {:induction false} TableHasLineStart(s: string, i: nat)
    requires i <= |s|
    ensures Newlines(s[..i]) <= |LineTable(s)|
    ensures ([0] + LineTable(s))[Newlines(s[..i])] == LineStart(0, s[..i]) <= Bytes(s[..i])
    decreases i
  {
    LineTableListsNewlines(s, i);
    if i > 0 {
      OneMore(s, i - 1);
      LineTableListsNewlines(s, i - 1);
      TableHasLineStart(s, i - 1);
    }
  }

  /** A run from a fresh context: every token's line, line start and character agree with
      the line table, and its character counts bytes from its line's start. */
  lemma LineIndexAgrees(s: string, k: nat)
    requires Lex(s, 0).outcome == OK && k < |Tokens(s, 0)|
    ensures var (t, lines) := (Tokens(s, 0)[k], [0] + LineTable(s));
      && 1 <= t.line <= |lines| && lines[t.line - 1] == t.lineStart <= t.tokPos
      && t.character == t.tokPos - t.lineStart + 1
      && (t.line < |lines| ==> t.tokPos < lines[t.line])
  {
    hide Lex, Tokens, Newlines, LineTable, LineStart, Bytes;
    var i := TokenFields(s, k);
    TableHasLineStart(s, i);
    NextLineIsLater(s, i);
  }

  lemma TokenFields(s: string, k: nat) returns (i: nat)
    requires Lex(s, 0).outcome == OK && k < |Tokens(s, 0)|
    ensures i <= |s|
    ensures var t := Tokens(s, 0)[k];
      && t.tokPos == Bytes(s[..i]) && t.line == 1 + Newlines(s[..i]) && t.lineStart == LineStart(0, s[..i])
      && t.character == 1 + t.tokPos - t.lineStart
  {
    hide Bytes, Newlines, LineStart, Distance;
    assert s[..|s|] == s;
    i := if k < |Lex(s, 0).placed| then Lex(s, 0).placed[k].from else |s|;
  }

  lemma {:induction false} NextLineIsLater(s: string, i: nat)
    requires i <= |s|
    ensures |LineTable(s)| == Newlines(s)
    ensures Newlines(s[..i]) < |LineTable(s)| ==> Bytes(s[..i]) < LineTable(s)[Newlines(s[..i])]
    decreases |s|
  {
    LineTableListsNewlines(s, i);
    if i < |s| {
      var n := |s| - 1;
      assert s[..n][..i] == s[..i];
      NextLineIsLater(s[..n], i);
      LineTableListsNewlines(s[..n], i);
      BytesAddUp(s, i, |s|);
      assert s[..|s|] == s;
    } else {
      assert s[..i] == s;
    }
  }

  // ------------------------------------------------------------------
  // Printing tokens and reading them again
  // ------------------------------------------------------------------

  /** Each token's text followed by one space. */
  function Printed(s: string, placed: seq<Placed>): string
    requires AllPlaced(s, placed)
  {
    if placed == [] then "" else Text(s, placed[0]) + " " + Printed(s, placed[1..])
  }

  /** The same types and texts, wherever they lie. */
  predicate SameTokens(s: string, ps: seq<Placed>, q: string, qs: seq<Placed>) {
    && AllPlaced(s, ps) && AllPlaced(q, qs) && |ps| == |qs|
    && forall k :: 0 <= k < |ps| ==> ps[k].t == qs[k].t && Text(s, ps[k]) == Text(q, qs[k])
  }

  // ---- scanning does not look behind ----

  function ShiftStep(step: Step, d: nat): Step {
    if step.Took? then Took(step.kind, step.to + d) else step
  }

  function ShiftPlaced(placed: seq<Placed>, d: nat): (r: seq<Placed>)
    ensures |r| == |placed| && forall k :: 0 <= k < |r| ==> r[k] == Placed(placed[k].t, placed[k].from + d, placed[k].to + d)
  {
    seq(|placed|, k requires 0 <= k < |placed| => Placed(placed[k].t, placed[k].from + d, placed[k].to + d))
  }

  lemma SpanEndShifts(pre: string, s: string, i: nat, p: char -> bool)
    requires i <= |s|
    ensures SpanEnd(pre + s, |pre| + i, p) == |pre| + SpanEnd(s, i, p)
  {
    SpanEndIs(pre + s, |pre| + i, p, |pre| + SpanEnd(s, i, p));
  }

  lemma ExponentShifts(pre: string, s: string, f: nat)
    requires f <= |s|
    ensures ExponentStep(pre + s, |pre| + f) == ShiftStep(ExponentStep(s, f), |pre|)
  {
    hide SpanEnd, IsDigit, IsSign;
    if f + 1 < |s| {
      var g := if IsSign(s[f + 1]) then f + 2 else f + 1;
      SpanEndShifts(pre, s, g, IsDigit);
    }
  }

  lemma NumberShifts(pre: string, s: string, i: nat)
    requires i < |s|
    ensures NumberStep(pre + s, |pre| + i) == ShiftStep(NumberStep(s, i), |pre|)
  {
    hide IsDigit, IsSign, IsAlpha, ExponentStep, FractionStep;
    var j := if IsSign(s[i]) then i + 1 else i;
    SpanEndShifts(pre, s, j, IsDigit);
    if j < |s| && IsDigit(s[j]) {
      FractionShifts(pre, s, SpanEnd(s, j, IsDigit));
    }
  }

  lemma FractionShifts(pre: string, s: string, d: nat)
    requires d <= |s|
    ensures FractionStep(pre + s, |pre| + d) == ShiftStep(FractionStep(s, d), |pre|)
  {
    hide IsDigit, IsSign, IsAlpha, ExponentStep;
    ExponentShifts(pre, s, d);
    if d + 1 < |s| {
      SpanEndShifts(pre, s, d + 1, IsDigit);
      ExponentShifts(pre, s, SpanEnd(s, d + 1, IsDigit));
    }
  }

  lemma NextShifts(pre: string, s: string, i: nat)
    requires i < |s|
    ensures Next(pre + s, |pre| + i) == ShiftStep(Next(s, i), |pre|)
  {
    hide IsDigit, IsSign, IsSpace, IsIdAlpha, IsEol, Punctuation, NumberStep, SpanEnd;
    SpanEndShifts(pre, s, i, NotEol);
    SpanEndShifts(pre, s, i, IsIdRest);
    SpanEndShifts(pre, s, i + 1, IsIdRest);
    NumberShifts(pre, s, i);
  }

  lemma {:induction false} LexShifts(pre: string, s: string, i: nat)
    requires i <= |s|
    ensures Lex(pre + s, |pre| + i).outcome == Lex(s, i).outcome
    ensures Lex(pre + s, |pre| + i).placed == ShiftPlaced(Lex(s, i).placed, |pre|)
    decreases |s| - i
  {
    hide Next, ShiftPlaced;
    if i < |s| {
      NextShifts(pre, s, i);
      if Next(s, i).Took? {
        NextAdvances(s, i);
        LexShifts(pre, s, Next(s, i).to);
        if Next(s, i).kind.Token? {
          ShiftFirst(Placed(Next(s, i).kind.t, i, Next(s, i).to), Lex(s, Next(s, i).to).placed, |pre|);
        }
      }
    }
  }

  lemma ShiftFirst(p: Placed, rest: seq<Placed>, d: nat)
    ensures ShiftPlaced([p] + rest, d) == [Placed(p.t, p.from + d, p.to + d)] + ShiftPlaced(rest, d)
  {
  }

  // ---- a token's text, followed by a space, is the same token again ----

  /** u is the text of a token of s from i to `to`, and then something that starts with a space. */
  predicate Excerpt(s: string, i: nat, to: nat, u: string) {
    && i <= to <= |s| && to - i < |u| && u[to - i] == ' '
    && forall k :: i <= k < to ==> u[k - i] == s[k]
  }

  lemma SpanEndSame(s: string, i: nat, to: nat, u: string, j: nat, p: char -> bool)
    requires Excerpt(s, i, to, u) && i <= j && j <= |s| && SpanEnd(s, j, p) <= to && !p(' ')
    ensures SpanEnd(u, j - i, p) == SpanEnd(s, j, p) - i
  {
    var e := SpanEnd(s, j, p);
    assert forall k :: j - i <= k < e - i ==> u[k] == s[k + i];
    SpanEndIs(u, j - i, p, e - i);
  }

  lemma ExponentSame(s: string, i: nat, to: nat, u: string, f: nat)
    requires Excerpt(s, i, to, u) && i <= f <= |s| && ExponentStep(s, f).Took? && ExponentStep(s, f).to == to
    ensures ExponentStep(u, f - i) == Took(Token(NUMBER), to - i)
  {
    ExponentAdvances(s, f);
    if f < to {
      var g := if IsSign(s[f + 1]) then f + 2 else f + 1;
      assert u[f - i] == s[f] && SpanEnd(s, g, IsDigit) == to && g < to;
      assert u[f + 1 - i] == s[f + 1] && u[g - i] == s[g];
      SpanEndSame(s, i, to, u, g, IsDigit);
    }
  }

  lemma FractionSame(s: string, i: nat, to: nat, u: string, d: nat)
    requires Excerpt(s, i, to, u) && i <= d <= |s| && FractionStep(s, d).Took? && FractionStep(s, d).to == to
    ensures d <= to && FractionStep(u, d - i) == Took(Token(NUMBER), to - i)
  {
    hide ExponentStep;
    if d < |s| && s[d] == '.' && IsDigit(s[d + 1]) {
      var f := SpanEnd(s, d + 1, IsDigit);
      ExponentAdvances(s, f);
      assert f > d + 1;
      assert u[d - i] == '.' && u[d + 1 - i] == s[d + 1];
      SpanEndSame(s, i, to, u, d + 1, IsDigit);
      ExponentSame(s, i, to, u, f);
    } else if d < |s| && s[d] != '.' {
      ExponentAdvances(s, d);
      ExponentSame(s, i, to, u, d);
      if d < to {
        assert u[d - i] == s[d];
      }
    } else {
      assert to == d;
      NoExponent(u, d - i);
    }
  }

  lemma NoExponent(u: string, f: nat)
    requires f < |u| && u[f] == ' '
    ensures ExponentStep(u, f) == Took(Token(NUMBER), f)
  {
  }

  lemma NumberSame(s: string, i: nat, to: nat, u: string)
    requires Excerpt(s, i, to, u) && i < |s| && NumberStep(s, i).Took? && NumberStep(s, i).to == to
    ensures NumberStep(u, 0) == Took(Token(NUMBER), to - i)
  {
    hide FractionStep;
    var j := if IsSign(s[i]) then i + 1 else i;
    var d := SpanEnd(s, j, IsDigit);
    FractionSame(s, i, to, u, d);
    SpanEndSame(s, i, to, u, j, IsDigit);
    assert d > j;
    assert u[0] == s[i] && u[j - i] == s[j];
  }

  lemma TokenSame(s: string, i: nat, u: string)
    requires i < |s| && Next(s, i).Took? && Next(s, i).kind.Token? && Excerpt(s, i, Next(s, i).to, u)
    ensures Next(u, 0) == Took(Next(s, i).kind, Next(s, i).to - i)
  {
    hide NumberStep;
    NextAdvances(s, i);
    var to := Next(s, i).to;
    assert u[0] == s[i];
    var c := s[i];
    if Punctuation(c) != NONE {
    } else if c == '_' {
      if IsIdAlpha(s[i + 1]) {
        assert SpanEnd(s, i + 1, IsIdRest) == to && to > i + 1;
        assert u[1] == s[i + 1];
        SpanEndSame(s, i, to, u, i + 1, IsIdRest);
      }
    } else if IsIdAlpha(c) {
      SpanEndSame(s, i, to, u, i, IsIdRest);
    } else {
      NumberAdvances(s, i);
      NumberSame(s, i, to, u);
    }
  }

  lemma SpaceStep(u: string, i: nat)
    requires i < |u| && u[i] == ' '
    ensures Next(u, i) == Took(Space, i + 1)
  {
  }

  /** Reading what was printed from i on gives the same tokens. */
  lemma {:induction false} RelexFrom(s: string, i: nat)
    requires i <= |s| && Lex(s, i).outcome == OK
    ensures var q := Printed(s, Lex(s, i).placed);
      Lex(q, 0).outcome == OK && SameTokens(s, Lex(s, i).placed, q, Lex(q, 0).placed)
    decreases |s| - i
  {
    hide Next;
    if i < |s| {
      var step := Next(s, i);
      NextAdvances(s, i);
      RelexFrom(s, step.to);
      if step.kind.Token? {
        RelexToken(s, i);
      }
    }
  }

  lemma TokenThenSpace(u: string, t: TokenType, n: nat)
    requires n < |u| && Next(u, 0) == Took(Token(t), n) && u[n] == ' '
    ensures Lex(u, 0).outcome == Lex(u, n + 1).outcome
    ensures Lex(u, 0).placed == [Placed(t, 0, n)] + Lex(u, n + 1).placed
  {
    SpaceStep(u, n);
    hide Next;
    NextAdvances(u, 0);
  }

  lemma TokenFirst(s: string, i: nat)
    requires i < |s| && Next(s, i).Took? && Next(s, i).kind.Token?
    ensures var step := Next(s, i);
      && i < step.to <= |s|
      && Lex(s, i).placed == [Placed(step.kind.t, i, step.to)] + Lex(s, step.to).placed
      && Lex(s, i).placed[1..] == Lex(s, step.to).placed
      && Printed(s, Lex(s, i).placed) == s[i..step.to] + " " + Printed(s, Lex(s, step.to).placed)
  {
    hide Next;
    NextAdvances(s, i);
  }

  lemma RelexToken(s: string, i: nat)
    requires i < |s| && Next(s, i).Took? && Next(s, i).kind.Token? && i < Next(s, i).to <= |s|
    requires var rest := Lex(s, Next(s, i).to).placed; var q := Printed(s, rest);
      Lex(q, 0).outcome == OK && SameTokens(s, rest, q, Lex(q, 0).placed)
    ensures var q := Printed(s, Lex(s, i).placed);
      Lex(q, 0).outcome == OK && SameTokens(s, Lex(s, i).placed, q, Lex(q, 0).placed)
  {
    hide Next, Lex, SameTokens, Printed;
    TokenFirst(s, i);
    var step := Next(s, i);
    var rest := Lex(s, step.to).placed;
    var text, q := s[i..step.to], Printed(s, rest);
    var pre, u := text + " ", text + " " + q;
    assert u == pre + q;
    TokenSame(s, i, u);
    TokenThenSpace(u, step.kind.t, |text|);
    LexShifts(pre, q, 0);
    var again := ShiftPlaced(Lex(q, 0).placed, |pre|);
    ShiftedTexts(s, rest, pre, q, Lex(q, 0).placed);
    SameFirst(s, rest, u, again, step.kind.t, i, step.to);
  }

  lemma SameFirst(s: string, ps: seq<Placed>, u: string, qs: seq<Placed>, t: TokenType, from: nat, to: nat)
    requires SameTokens(s, ps, u, qs) && from <= to <= |s| && to - from <= |u| && u[..to - from] == s[from..to]
    ensures SameTokens(s, [Placed(t, from, to)] + ps, u, [Placed(t, 0, to - from)] + qs)
  {
  }

  lemma ShiftedTexts(s: string, rest: seq<Placed>, pre: string, q: string, qs: seq<Placed>)
    requires SameTokens(s, rest, q, qs)
    ensures SameTokens(s, rest, pre + q, ShiftPlaced(qs, |pre|))
  {
    var u, shifted := pre + q, ShiftPlaced(qs, |pre|);
    forall k | 0 <= k < |qs| ensures Text(u, shifted[k]) == Text(q, qs[k]) {
    }
  }

  /** The round trip: whatever tokenises, printed with single spaces tokenises to the same
      types and texts; and printing once more changes nothing. */
  lemma RelexRoundTrip(s: string)
    requires Lex(s, 0).outcome == OK
    ensures var q := Printed(s, Lex(s, 0).placed);
      && Lex(q, 0).outcome == OK && SameTokens(s, Lex(s, 0).placed, q, Lex(q, 0).placed)
      && Printed(q, Lex(q, 0).placed) == q
  {
    RelexFrom(s, 0);
    var q := Printed(s, Lex(s, 0).placed);
    PrintedAlike(s, Lex(s, 0).placed, q, Lex(q, 0).placed);
  }

  lemma {:induction false} PrintedAlike(s: string, ps: seq<Placed>, q: string, qs: seq<Placed>)
    requires SameTokens(s, ps, q, qs)
    ensures Printed(s, ps) == Printed(q, qs)
    decreases |ps|
  {
    if ps != [] {
      assert Text(s, ps[0]) == Text(q, qs[0]);
      PrintedAlike(s, ps[1..], q, qs[1..]);
    }
  }

  /** The tokens of a context, type by type and text by text, are the placed ones and an empty
      end token. */
  lemma TokensAndTexts(s: string, base: int)
    requires Lex(s, 0).outcome == OK
    ensures var (ts, placed) := (Tokens(s, base), Lex(s, 0).placed);
      && |ts| == |placed| + 1 && ts[|placed|].t == EOF && TextOf(s, ts[|placed|]) == ""
      && forall k :: 0 <= k < |placed| ==> ts[k].t == placed[k].t && TextOf(s, ts[k]) == Text(s, placed[k])
  {
    hide Lex, AsToken, Bytes, LineStart, Newlines, Distance, Between;
    TokensCoverInput(s, base);
    PlacedAreTypes(s, base);
    BetweenIs(s, |s|, |s|);
    assert s[..|s|] == s;
  }

  lemma PlacedAreTypes(s: string, base: int)
    ensures forall k :: 0 <= k < |Lex(s, 0).placed| ==> Tokens(s, base)[k].t == Lex(s, 0).placed[k].t
  {
    hide Lex;
  }

  /** Each token's text with a space after it, the end token left out. */
  method PrintTokens(s: string, ts: seq<ElementToken>) returns (printed: string)
    requires Lex(s, 0).outcome == OK && ts == Tokens(s, 0)
    ensures printed == Printed(s, Lex(s, 0).placed)
  {
    hide Lex, Tokens, TextOf, Text;
    ghost var placed := Lex(s, 0).placed;
    TokensAndTexts(s, 0);
    printed := "";
    for k := 0 to |ts| - 1
      invariant printed + Printed(s, placed[k..]) == Printed(s, placed)
    {
      assert placed[k..][0] == placed[k] && placed[k..][1..] == placed[k + 1..];
      printed := printed + (TextOf(s, ts[k]) + " ");
    }
  }

  /** The round trip as the library does it: a context reads the input, each token's text is
      printed with a space after it, and a second context reads that. */
  method PrintAndReadAgain(s: string) returns (r: Outcome, first: TokeniserCtx, printed: string, second: TokeniserCtx)
    ensures r == Reported(s, 0)
    ensures r == OK ==>
              && |second.tokens| == |first.tokens| && second.cur == BLANK
              && forall k :: 0 <= k < |first.tokens| ==>
                   && second.tokens[k].t == first.tokens[k].t
                   && TextOf(printed, second.tokens[k]) == TextOf(s, first.tokens[k])
  {
    hide Lex, Tokens, TextOf, Text, Printed, Bytes, LineTable, LineStart, LineSoFar, IsInvalid, IsDigit, IsSign;
    first := new TokeniserCtx();
    second := new TokeniserCtx();
    printed := "";
    r := first.Run(s);
    if r != OK {
      return;
    }
    assert first.tokens == Tokens(s, 0);
    printed := PrintTokens(s, first.tokens);
    TokensAndTexts(s, 0);
    RelexRoundTrip(s);
    TokensAndTexts(printed, 0);
    var again := second.Run(printed);
    assert second.tokens == Tokens(printed, 0);
  }

  // ------------------------------------------------------------------
  // Against the documented grammar
  // ------------------------------------------------------------------

  predicate AllDigits(t: string) {
    |t| > 0 && forall k :: 0 <= k < |t| ==> IsDigit(t[k])
  }

  predicate IsExponent(t: string) {
    |t| > 1 && (t[0] == 'e' || t[0] == 'E') && (AllDigits(t[1..]) || (IsSign(t[1]) && AllDigits(t[2..])))
  }

  /** literal ::= [-+]? [0-9]+ ('.' [0-9]*)? ([eE] [-+]? [0-9]+)? */
  predicate LiteralParts(sign: string, whole: string, fraction: string, exponent: string) {
    && (sign == "" || (|sign| == 1 && IsSign(sign[0])))
    && AllDigits(whole)
    && (fraction == "" || (fraction[0] == '.' && forall k :: 1 <= k < |fraction| ==> IsDigit(fraction[k])))
    && (exponent == "" || IsExponent(exponent))
  }

  ghost predicate IsLiteral(t: string) {
    exists sign, whole, fraction, exponent :: LiteralParts(sign, whole, fraction, exponent) && t == sign + whole + fraction + exponent
  }

  lemma ExponentIsPart(s: string, f: nat)
    requires f <= |s| && ExponentStep(s, f).Took?
    ensures f <= ExponentStep(s, f).to <= |s|
    ensures f < ExponentStep(s, f).to ==> IsExponent(s[f..ExponentStep(s, f).to])
  {
    ExponentAdvances(s, f);
    var to := ExponentStep(s, f).to;
    if f < to {
      var t := s[f..to];
      var g := if IsSign(s[f + 1]) then f + 2 else f + 1;
      assert t[g - f..] == s[g..to];
      assert IsDigit(s[g]) && g < to;
    }
  }

  lemma NumberParts(s: string, i: nat) returns (j: nat, d: nat, f: nat)
    requires i < |s| && NumberStep(s, i).Took?
    ensures var to := NumberStep(s, i).to;
      && i <= j < d <= f <= to <= |s|
      && (j == i || (j == i + 1 && IsSign(s[i])))
      && (forall k :: j <= k < d ==> IsDigit(s[k]))
      && (d < f ==> s[d] == '.' && forall k :: d < k < f ==> IsDigit(s[k]))
      && (f < to ==> IsExponent(s[f..to]))
  {
    hide ExponentStep, IsExponent;
    NumberAdvances(s, i);
    j := if IsSign(s[i]) then i + 1 else i;
    d := SpanEnd(s, j, IsDigit);
    f := if d < |s| && s[d] == '.' && IsDigit(s[d + 1]) then SpanEnd(s, d + 1, IsDigit) else d;
    if d < |s| && (s[d] != '.' || IsDigit(s[d + 1])) {
      ExponentIsPart(s, f);
    }
  }

  /** Every number token is a literal of the grammar. */
  lemma NumbersAreLiterals(s: string, i: nat)
    requires i < |s| && NumberStep(s, i).Took?
    ensures i < NumberStep(s, i).to <= |s| && IsLiteral(s[i..NumberStep(s, i).to])
  {
    hide NumberStep, IsExponent, IsLiteral;
    var j, d, f := NumberParts(s, i);
    PartsMakeLiteral(s, i, j, d, f, NumberStep(s, i).to);
  }

  lemma PartsMakeLiteral(s: string, i: nat, j: nat, d: nat, f: nat, to: nat)
    requires i <= j < d <= f <= to <= |s| && (j == i || (j == i + 1 && IsSign(s[i])))
    requires forall k :: j <= k < d ==> IsDigit(s[k])
    requires d < f ==> s[d] == '.' && forall k :: d < k < f ==> IsDigit(s[k])
    requires f < to ==> IsExponent(s[f..to])
    ensures IsLiteral(s[i..to])
  {
    hide IsExponent, IsDigit, IsSign;
    var sign, whole, fraction, exponent := s[i..j], s[j..d], s[d..f], s[f..to];
    assert forall k :: 0 <= k < d - j ==> whole[k] == s[j + k];
    assert forall k :: 0 <= k < f - d ==> fraction[k] == s[d + k];
    assert LiteralParts(sign, whole, fraction, exponent);
    hide LiteralParts;
    JoinSlices(s, i, j, d);
    JoinSlices(s, i, d, f);
    JoinSlices(s, i, f, to);
  }

  lemma JoinSlices(s: string, from: nat, mid: nat, to: nat)
    requires from <= mid <= to <= |s|
    ensures s[from..mid] + s[mid..to] == s[from..to]
  {
  }

  /** And every literal followed by white space, or by nothing, is one number token, except that
      the dot must not stand alone. */
  lemma LiteralIsNumberIff(sign: string, whole: string, fraction: string, exponent: string, tail: string)
    requires LiteralParts(sign, whole, fraction, exponent) && (tail == "" || IsSpace(tail[0]))
    ensures var t := sign + whole + fraction + exponent;
      Next(t + tail, 0) == Took(Token(NUMBER), |t|) <==> fraction != "."
  {
    hide Next, IsExponent;
    var s := sign + whole + fraction + exponent + tail;
    var j, d, f, to := |sign|, |sign| + |whole|, |sign| + |whole| + |fraction|, |s| - |tail|;
    assert forall k :: 0 <= k < |whole| ==> s[j + k] == whole[k];
    assert forall k :: j <= k < d ==> s[k] == whole[k - j];
    assert forall k :: d <= k < f ==> s[k] == fraction[k - d];
    assert s[f..to] == exponent;
    LiteralScannedIff(s, j, d, f, to);
  }

  /** The same by where the parts lie. */
  lemma LiteralScannedIff(s: string, j: nat, d: nat, f: nat, to: nat)
    requires j <= 1 && j < d <= f <= to <= |s| && (j == 1 ==> IsSign(s[0]))
    requires forall k :: j <= k < d ==> IsDigit(s[k])
    requires d < f ==> s[d] == '.' && forall k :: d < k < f ==> IsDigit(s[k])
    requires f < to ==> IsExponent(s[f..to])
    requires to < |s| ==> IsSpace(s[to])
    ensures Next(s, 0) == Took(Token(NUMBER), to) <==> f != d + 1
  {
    hide Next, NumberStep, ExponentStep, AllDigits;
    NumberAtStart(s, j);
    AfterNumber(s, f, to);
    assert d < |s| ==> !IsDigit(s[d]);
    SpanEndIs(s, j, IsDigit, d);
    if f == d {
      ExponentToEnd(s, f, to);
    } else if f == d + 1 {
      LoneDotStops(s, d);
    } else {
      SpanEndIs(s, d + 1, IsDigit, f);
      ExponentToEnd(s, f, to);
    }
  }

  /** What comes after a number's digits is not a digit, and not a dot. */
  lemma AfterNumber(s: string, f: nat, to: nat)
    requires f <= to <= |s| && (f < to ==> IsExponent(s[f..to])) && (to < |s| ==> IsSpace(s[to]))
    ensures f < |s| ==> !IsDigit(s[f]) && s[f] != '.'
  {
    if f < to {
      assert s[f..to][0] == s[f];
    }
  }

  lemma NumberAtStart(s: string, j: nat)
    requires j <= 1 && j < |s| && IsDigit(s[j]) && (j == 1 ==> IsSign(s[0]))
    ensures Next(s, 0) == NumberStep(s, 0) == FractionStep(s, SpanEnd(s, j, IsDigit))
  {
    hide FractionStep;
  }

  lemma DigitsTo(s: string, g: nat, to: nat, digits: string)
    requires g <= to <= |s| && s[g..to] == digits && AllDigits(digits) && (to < |s| ==> IsSpace(s[to]))
    ensures g < to && IsDigit(s[g]) && SpanEnd(s, g, IsDigit) == to
  {
    assert forall k :: g <= k < to ==> s[k] == digits[k - g];
    SpanEndIs(s, g, IsDigit, to);
  }

  lemma ExponentToEnd(s: string, f: nat, to: nat)
    requires f <= to <= |s| && (f == to || IsExponent(s[f..to])) && (to < |s| ==> IsSpace(s[to]))
    ensures ExponentStep(s, f) == Took(Token(NUMBER), to)
  {
    if f < to {
      var t := s[f..to];
      assert s[f] == t[0] && s[f + 1] == t[1];
      var g := if IsSign(s[f + 1]) then f + 2 else f + 1;
      DigitsTo(s, g, to, t[g - f..]);
    }
  }

  /** After a dot that stands alone the number ends before it, or the scan fails. */
  lemma LoneDotStops(s: string, d: nat)
    requires d < |s| && s[d] == '.' && (d + 1 < |s| ==> !IsDigit(s[d + 1]))
    ensures FractionStep(s, d).Took? ==> FractionStep(s, d).to == d
  {
  }

  /** A literal of the grammar that fails, at the end of the input and before a blank. */
  lemma LoneDotIsRefused()
    ensures LiteralParts("", "1", ".", "") && Lex("1.", 0).outcome == ERROR_EXCEPTION
    ensures Lex("1. ", 0).outcome == ERROR_BAD_INDEX_INTO_NUMBER
  {
    NumberAtStart("1.", 0);
    NumberAtStart("1. ", 0);
    SpanEndIs("1.", 0, IsDigit, 1);
    SpanEndIs("1. ", 0, IsDigit, 1);
  }

  predicate IsLetter(c: char) { IsAlpha(c) || '\U{F0}' <= c <= '\U{FFFF}' }

  /** identifier ::= '_'? [a-zA-Z\u00F0-\uFFFF] [_a-zA-Z0-9\u00F0-\uFFFF]* */
  predicate IsIdentifier(t: string) {
    var first := if |t| > 0 && t[0] == '_' then 1 else 0;
    first < |t| && IsLetter(t[first]) && forall k :: first < k < |t| ==> IsIdRest(t[k])
  }

  /** Identifier tokens are the grammar's identifiers, except that a second underscore also
      passes for a letter. */
  lemma IdentifiersUnlessDoubleUnderscore(s: string, i: nat)
    requires i < |s| && Next(s, i).Took? && Next(s, i).kind == Token(IDENTIFIER)
    ensures i < Next(s, i).to <= |s|
    ensures var t := s[i..Next(s, i).to];
      IsIdentifier(t) <==> !(|t| >= 2 && t[0] == '_' && t[1] == '_')
  {
    NextAdvances(s, i);
    if IsDigit(s[i]) || IsSign(s[i]) {
      NumberAdvances(s, i);
    }
    hide NumberStep;
    var to := Next(s, i).to;
    var t := s[i..to];
    assert forall k :: i < k < to ==> IsIdRest(s[k]);
    if s[i] == '_' {
      assert to > i + 1 by {
        assert SpanEnd(s, i + 1, IsIdRest) == to;
      }
      assert t[1] == s[i + 1];
    }
  }

  /** Two underscores: one identifier to the tokeniser, none to the grammar. */
  lemma DoubleUnderscoreIsNoIdentifier()
    ensures Lex("__", 0).outcome == OK && Lex("__", 0).placed == [Placed(IDENTIFIER, 0, 2)] && !IsIdentifier("__")
  {
    SpanEndIs("__", 1, IsIdRest, 2);
    assert Next("__", 0) == Took(Token(IDENTIFIER), 2);
  }

  /** And a grammar identifier that no identifier character follows is one token. */
  lemma IdentifierIsToken(t: string, tail: string)
    requires IsIdentifier(t) && (tail == "" || !IsIdRest(tail[0]))
    ensures Next(t + tail, 0) == Took(Token(IDENTIFIER), |t|)
  {
    var s := t + tail;
    var first := if t[0] == '_' then 1 else 0;
    assert s[0] == t[0] && s[first] == t[first];
    assert forall k :: first <= k < |t| ==> s[k] == t[k];
    SpanEndIs(s, first, IsIdRest, |t|);
  }

  // ------------------------------------------------------------------
  // What each character becomes
  // ------------------------------------------------------------------

  /** The classes by characters and by codes; 65 and 97 are the codes of A and a. */
  lemma CharacterClasses(c: char)
    ensures IsDigit(c) <==> c in "0123456789"
    ensures IsSign(c) <==> c in "+-"
    ensures IsEol(c) <==> c == '\n'
    ensures IsSpace(c) <==> c in " \t\n\r" || c as int in {11, 12}
    ensures IsAlpha(c) <==> 65 <= c as int <= 90 || 97 <= c as int <= 122
    ensures IsIdAlpha(c) <==> c == '_' || IsAlpha(c) || 240 <= c as int < 65536
    ensures IsIdRest(c) <==> IsIdAlpha(c) || IsDigit(c)
  {
  }

  /** The fewest bytes with room for the character: 7, 11, 16 or 21 bits. */
  lemma WidthIsLeast(c: char)
    ensures c as int < [0x80, 0x800, 0x10000, 0x200000][Width(c) - 1]
    ensures Width(c) > 1 ==> c as int >= [0x80, 0x800, 0x10000, 0x200000][Width(c) - 2]
  {
  }

  /** All of s from i up to `to` has the property, and the character there has not. */
  predicate Stretch(s: string, i: nat, to: nat, p: char -> bool) {
    i <= to <= |s| && (forall k :: i <= k < to ==> p(s[k])) && (to < |s| ==> !p(s[to]))
  }

  predicate StartsIdentifier(s: string, i: nat) {
    i < |s| && (IsIdAlpha(s[i]) && (s[i] == '_' ==> i + 1 < |s| && IsIdAlpha(s[i + 1])))
  }

  /** One step from every character: what it takes, or how it fails. */
  lemma NextByCharacter(s: string, i: nat)
    requires i < |s|
    ensures s[i] == '.' ==> Next(s, i) == Took(Token(DOT), i + 1)
    ensures s[i] == '(' ==> Next(s, i) == Took(Token(BRACKETL), i + 1)
    ensures s[i] == ')' ==> Next(s, i) == Took(Token(BRACKETR), i + 1)
    ensures s[i] == ',' ==> Next(s, i) == Took(Token(COMMA), i + 1)
    ensures s[i] == ':' ==> Next(s, i) == Took(Token(COLON), i + 1)
    ensures s[i] == '{' ==> Next(s, i) == Took(Token(BRACEL), i + 1)
    ensures s[i] == '}' ==> Next(s, i) == Took(Token(BRACER), i + 1)
    ensures s[i] == '=' ==> Next(s, i) == Took(Token(EQUALS), i + 1)
    ensures s[i] == '\n' ==> Next(s, i) == Took(Newline, i + 1)
    ensures IsSpace(s[i]) && s[i] != '\n' ==> Next(s, i) == Took(Space, i + 1)
    ensures s[i] == '#' ==> Next(s, i).Took? && Next(s, i).kind == Comment && Stretch(s, i, Next(s, i).to, NotEol)
    ensures StartsIdentifier(s, i) ==>
              Next(s, i).Took? && Next(s, i).kind == Token(IDENTIFIER) && Stretch(s, i, Next(s, i).to, IsIdRest)
    ensures s[i] == '_' && i + 1 < |s| && !IsIdAlpha(s[i + 1]) ==> Next(s, i) == Took(Token(UNDERSCORE), i + 1)
    ensures s[i] == '_' && i + 1 == |s| ==> Next(s, i) == Fails(ERROR_EXCEPTION)
    ensures IsDigit(s[i]) || IsSign(s[i]) ==> Next(s, i) == NumberStep(s, i)
    ensures s[i] !in "#.(),:{}=_" && !IsSpace(s[i]) && !IsIdAlpha(s[i]) && !IsDigit(s[i]) && !IsSign(s[i]) ==>
              Next(s, i) == Fails(ERROR_PARSE)
  {
    hide NumberStep;
  }

  /** The types a text can have, for an end token the empty one. */
  predicate Spells(t: TokenType, text: string) {
    match t
    case DOT => text == "."
    case BRACKETL => text == "("
    case BRACKETR => text == ")"
    case COMMA => text == ","
    case COLON => text == ":"
    case BRACEL => text == "{"
    case BRACER => text == "}"
    case EQUALS => text == "="
    case UNDERSCORE => text == "_"
    case NUMBER => |text| > 0 && text[0] in "+-0123456789"
    case IDENTIFIER => |text| > 0 && (IsLetter(text[0]) || (text[0] == '_' && |text| > 1))
    case EOF => text == ""
    case NONE => false
  }

  lemma SpellsOne(t: TokenType, u: TokenType, text: string)
    requires Spells(t, text) && Spells(u, text)
    ensures t == u
  {
  }

  lemma TokenSpells(s: string, i: nat)
    requires i < |s| && Next(s, i).Took? && Next(s, i).kind.Token?
    ensures i < Next(s, i).to <= |s| && Spells(Next(s, i).kind.t, s[i..Next(s, i).to])
  {
    hide NumberStep;
    NextAdvances(s, i);
    if IsDigit(s[i]) || IsSign(s[i]) {
      NumberAdvances(s, i);
      CharacterClasses(s[i]);
    } else if s[i] == '_' && IsIdAlpha(s[i + 1]) {
      assert IsIdRest(s[i + 1]);
      assert Next(s, i).to > i + 1;
    }
  }

  lemma {:induction false} PlacedSpell(s: string, i: nat)
    requires i <= |s|
    ensures forall k :: 0 <= k < |Lex(s, i).placed| ==> Spells(Lex(s, i).placed[k].t, Text(s, Lex(s, i).placed[k]))
    decreases |s| - i
  {
    hide Next, Spells;
    if i < |s| && Next(s, i).Took? {
      NextAdvances(s, i);
      PlacedSpell(s, Next(s, i).to);
      if Next(s, i).kind.Token? {
        TokenSpells(s, i);
      }
    }
  }

  /** On success the type of every token and its text determine each other. */
  lemma TypesAreTexts(s: string, base: int, k: nat, t: TokenType)
    requires Lex(s, 0).outcome == OK && k < |Tokens(s, base)|
    ensures Tokens(s, base)[k].t == t <==> Spells(t, TextOf(s, Tokens(s, base)[k]))
  {
    hide Lex, Tokens, TextOf, Text;
    TokensAndTexts(s, base);
    PlacedSpell(s, 0);
    var token := Tokens(s, base)[k];
    assert Spells(token.t, TextOf(s, token));
    if Spells(t, TextOf(s, token)) {
      SpellsOne(t, token.t, TextOf(s, token));
    }
  }

  // ------------------------------------------------------------------
  // A context is not always as good as new
  // ------------------------------------------------------------------

  function Blanks(n: nat): (r: string)
    ensures |r| == n && forall k :: 0 <= k < n ==> r[k] == ' '
  {
    seq(n, _ => ' ')
  }

  lemma {:induction false} BlankBytes(s: string, base: int)
    requires forall k :: 0 <= k < |s| ==> s[k] == ' '
    ensures Bytes(s) == |s| && LineStart(base, s) == base
  {
    if s != "" {
      BlankBytes(s[..|s| - 1], base);
    }
  }

  lemma {:induction false} BlanksThenInvalid(s: string, n: nat, i: nat)
    requires i <= n < |s| && (forall k :: 0 <= k < n ==> s[k] == ' ') && s[n] == '@'
    ensures Lex(s, i).outcome == ERROR_PARSE && Lex(s, i).stop == n
    decreases n - i
  {
    hide Next;
    if i < n {
      SpaceStep(s, i);
      BlanksThenInvalid(s, n, i + 1);
    } else {
      InvalidFails(s, n);
    }
  }

  /** An invalid character after n blanks: on a context as good as new it is reported if n is at
      most 1024, and with 1025 the message's buffer is overrun. */
  lemma LongLineOverruns(n: nat)
    ensures Reported(Blanks(n) + "@", 0) == if n <= 1024 then ERROR_PARSE else OUTSIDE_BUFFER
  {
    var s := Blanks(n) + "@";
    BlanksThenInvalid(s, n, 0);
    assert s[..n] == Blanks(n);
    BlankBytes(Blanks(n), 0);
    hide Lex;
  }

  lemma TwoLines()
    ensures Lex("a\nb", 0).outcome == OK && Lex("a\nb", 0).stop == 3
    ensures forall base :: LineStart(base, "a\nb") == 2
  {
    var s := "a\nb";
    SpanEndIs(s, 0, IsIdRest, 1);
    SpanEndIs(s, 2, IsIdRest, 3);
    assert Next(s, 0) == Took(Token(IDENTIFIER), 1) && Next(s, 1) == Took(Newline, 2) && Next(s, 2) == Took(Token(IDENTIFIER), 3);
    hide Next;
    assert s[..2] == "a\n" && s[..2][..1] == "a" && "a"[..0] == "";
    assert Bytes("a") == 1 && Bytes(s[..2]) == 2;
    forall base: int ensures LineStart(base, s) == 2 {
    }
  }

  /** Two lines, and then, without `clear`, an invalid character: the line is believed to start
      two bytes behind it. */
  method StaleLineStart() returns (first: Outcome, second: Outcome)
    ensures first == OK && second == OUTSIDE_BUFFER
  {
    hide Next, Bytes, LineTable, LineStart, Lex, Tokens, Reported;
    TwoLines();
    InvalidFirst(2);
    ReportedAtEnd("a\nb", 0);
    var ctx := new TokeniserCtx();
    first := ctx.Run("a\nb");
    assert "a\nb"[..3] == "a\nb";
    second := ctx.Run("@");
  }

  lemma InvalidFirst(base: int)
    ensures Reported("@", base) == if InBuffer(-base) then ERROR_PARSE else OUTSIDE_BUFFER
  {
    hide Next, Lex;
    BlanksThenInvalid("@", 0, 0);
    assert "@"[..0] == "";
    BlankBytes("", base);
  }

  /** After a number broken off, `clear` keeps the half-read token, and the next run reports it
      before its own. */
  method BrokenNumberOutlivesClear() returns (ctx: TokeniserCtx)
    ensures fresh(ctx) && |ctx.tokens| == 2 && ctx.tokens[0].t == NUMBER && ctx.tokens[1].t == EOF
  {
    hide Next, Bytes, LineTable, LineStart, Lex, EofToken;
    SignAlone();
    ctx := new TokeniserCtx();
    var r := ctx.Run("-");
    ctx.Clear();
    r := ctx.Run("");
  }

  lemma SignAlone()
    ensures Lex("-", 0) == Lexed(ERROR_EXCEPTION, [], 1, 0)
    ensures Lex("", 0) == Lexed(OK, [], 0, 0) && |Tokens("", 0)| == 1 && Tokens("", 0)[0].t == EOF
  {
    hide Bytes, LineStart, Newlines;
  }
}
