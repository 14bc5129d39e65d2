/**
  The one-character-lookahead scanner `Lexer::nextToken` / `Lexer::run`,
  as pure functions over the input text that thread the cursor
  (position and current line).
 */
module Lexer {

  import opened Wrappers
  import opened Text
  import opened Tokens
  import opened LexemeTable

  /** The keyword set of `isKeyword`. */
  const Keywords: seq<string> := ["PROGRAM", "INTEGER", "REAL", "END", "CALL"]

  predicate IsKeyword(s: string) {
    s in Keywords
  }

  /** The number of newline characters in `s`. */
  function CountNewlines(s: string): nat
  {
    if s == [] then 0 else (if s[0] == '\n' then 1 else 0) + CountNewlines(s[1..])
  }

  lemma {:induction false} CountNewlinesAppend(a: string, b: string)
    ensures CountNewlines(a + b) == CountNewlines(a) + CountNewlines(b)
  {
    if a != [] {
      assert (a + b)[0] == a[0] && (a + b)[1..] == a[1..] + b;
      CountNewlinesAppend(a[1..], b);
    } else {
      assert a + b == b;
    }
  }

  lemma CountNewlinesSplit(s: string, i: nat, j: nat, k: nat)
    requires i <= j <= k <= |s|
    ensures CountNewlines(s[i..k]) == CountNewlines(s[i..j]) + CountNewlines(s[j..k])
  {
    assert s[i..k] == s[i..j] + s[j..k];
    CountNewlinesAppend(s[i..j], s[j..k]);
  }

  /** The reading position in the input and the line counter `currentLine`. */
  datatype Cursor = Cursor(pos: nat, line: int)

  /** `getChar`: consumes one character and counts a newline. */
  function GetChar(s: string, c: Cursor): (r: Cursor)
    requires c.pos < |s|
    ensures r.pos == c.pos + 1
    ensures r.line == c.line + CountNewlines(s[c.pos..r.pos])
  {
    assert s[c.pos..c.pos + 1] == [s[c.pos]];
    Cursor(c.pos + 1, if s[c.pos] == '\n' then c.line + 1 else c.line)
  }

  /** The line counter goes up by one exactly when the consumed character is a newline. */
  lemma GetCharCountsNewline(s: string, c: Cursor)
    requires c.pos < |s|
    ensures GetChar(s, c).line == c.line + 1 <==> s[c.pos] == '\n'
    ensures GetChar(s, c).line == c.line <==> s[c.pos] != '\n'
  {
  }

  /** Consumes characters `c.pos..e`, one `getChar` at a time. */
  function Advance(s: string, c: Cursor, e: nat): (r: Cursor)
    requires c.pos <= e <= |s|
    ensures r.pos == e && r.line == c.line + CountNewlines(s[c.pos..e])
    decreases e - c.pos
  {
    if c.pos == e then c
    else
      var r := Advance(s, GetChar(s, c), e);
      CountNewlinesSplit(s, c.pos, c.pos + 1, e);
      r
  }

  /** `skipWhitespace`. */
  function SkipWhitespace(s: string, c: Cursor): (r: Cursor)
    requires c.pos <= |s|
    ensures c.pos <= r.pos <= |s|
    ensures r.pos == |s| || !IsSpace(s[r.pos])
    ensures forall i :: c.pos <= i < r.pos ==> IsSpace(s[i])
    ensures r.line == c.line + CountNewlines(s[c.pos..r.pos])
    decreases |s| - c.pos
  {
    if c.pos < |s| && IsSpace(s[c.pos]) then
      var r := SkipWhitespace(s, GetChar(s, c));
      CountNewlinesSplit(s, c.pos, c.pos + 1, r.pos);
      r
    else c
  }

  /** The end of the maximal run of characters satisfying `p` from `i` on. */
  function SpanEnd(s: string, i: nat, p: char -> bool): (e: nat)
    requires i <= |s|
    ensures i <= e <= |s|
    ensures forall k :: i <= k < e ==> p(s[k])
    ensures e == |s| || !p(s[e])
    decreases |s| - i
  {
    if i < |s| && p(s[i]) then SpanEnd(s, i + 1, p) else i
  }

  /** How a lexeme is spelled from its source text: keywords upper-cased, all else verbatim. */
  function Spelling(raw: string, kind: TokenKind): (r: string)
    ensures |r| == |raw|
    ensures kind != Keyword ==> r == raw
  {
    if kind == Keyword then UpperStr(raw) else raw
  }

  /** What a scanner branch produced: kind, lexeme, and where scanning stopped. */
  datatype Lexeme = Lexeme(kind: TokenKind, text: string, end: nat)

  /** The letter branch: the maximal run of letters, a KEYWORD when its
      upper-case form is a keyword, otherwise an IDENTIFIER with the original text. */
  function ScanWord(s: string, start: nat): (r: Lexeme)
    requires start < |s| && IsAlpha(s[start])
    ensures start < r.end <= |s|
    ensures forall k :: start <= k < r.end ==> IsAlpha(s[k])
    ensures r.end == |s| || !IsAlpha(s[r.end])
    ensures r.kind == Keyword <==> IsKeyword(UpperStr(s[start..r.end]))
    ensures r.kind == Keyword ==> r.text == UpperStr(s[start..r.end])
    ensures r.kind != Keyword ==> r.kind == Identifier && r.text == s[start..r.end]
  {
    var e := SpanEnd(s, start, IsAlpha);
    var word := s[start..e];
    var upper := UpperStr(word);
    if IsKeyword(upper) then Lexeme(Keyword, upper, e) else Lexeme(Identifier, word, e)
  }

  /** The digit branch, with its leading-zero and trailing-dot error rules.
      Whatever the branch, the integer part is the maximal run of digits; a '.'
      after it is always taken, with the digits that follow it. */
  function ScanNumber(s: string, start: nat): (r: Lexeme)
    requires start < |s| && IsDigit(s[start])
    ensures var intEnd := SpanEnd(s, start, IsDigit);
            var dotted := intEnd < |s| && s[intEnd] == '.';
            var leadingZero := s[start] == '0' && start + 1 < |s| && IsDigit(s[start + 1]);
            var bareDot := dotted && !(intEnd + 1 < |s| && IsDigit(s[intEnd + 1]));
            && r.end == (if dotted then SpanEnd(s, intEnd + 1, IsDigit) else intEnd)
            && r.text == s[start..r.end]
            && (forall k :: start <= k < r.end ==> IsDigit(s[k]) || s[k] == '.')
            && (r.kind == Error <==> leadingZero || bareDot)
            && (r.kind == Real <==> dotted && !leadingZero && !bareDot)
            && (r.kind == Integer <==> !dotted && !leadingZero)
  {
    var intEnd :=
      if s[start] == '0' then
        (if start + 1 < |s| && IsDigit(s[start + 1]) then SpanEnd(s, start + 1, IsDigit) else start + 1)
      else SpanEnd(s, start, IsDigit);
    var hasError := s[start] == '0' && start + 1 < |s| && IsDigit(s[start + 1]);
    assert intEnd == SpanEnd(s, start, IsDigit) by {
      if s[start] == '0' {
        assert SpanEnd(s, start, IsDigit) == SpanEnd(s, start + 1, IsDigit);
      }
    }
    if intEnd < |s| && s[intEnd] == '.' then
      var fracStart := intEnd + 1;
      if !(fracStart < |s| && IsDigit(s[fracStart])) then
        var e := SpanEnd(s, fracStart, IsDigit);
        Lexeme(Error, s[start..e], e)
      else
        var e := SpanEnd(s, fracStart, IsDigit);
        Lexeme(if hasError then Error else Real, s[start..e], e)
    else
      Lexeme(if hasError then Error else Integer, s[start..intEnd], intEnd)
  }

  /** The single-character branch: six operator characters, anything else an ERROR. */
  function ScanSymbol(s: string, start: nat): (r: Lexeme)
    requires start < |s|
    ensures r.end == start + 1 && r.text == [s[start]]
    ensures r.kind == Error <==> s[start] !in {'=', '+', '-', ',', '(', ')'}
  {
    var ch := s[start];
    var kind :=
      if ch == '=' then Assign
      else if ch == '+' then Plus
      else if ch == '-' then Minus
      else if ch == ',' then Comma
      else if ch == '(' then LParen
      else if ch == ')' then RParen
      else Error;
    Lexeme(kind, [ch], start + 1)
  }

  /** The branch `nextToken` takes on a non-space character at `start`. */
  function ScanAt(s: string, start: nat): (r: Lexeme)
    requires start < |s| && !IsSpace(s[start])
    ensures start < r.end <= |s|
    ensures forall i :: start <= i < r.end ==> !IsSpace(s[i])
    ensures r.kind != Unknown
    ensures r.text == Spelling(s[start..r.end], r.kind)
  {
    var ch := s[start];
    if IsAlpha(ch) then ScanWord(s, start)
    else if IsDigit(ch) then ScanNumber(s, start)
    else ScanSymbol(s, start)
  }

  /** One call of `nextToken`: the token, where its text starts, and the cursor after it. */
  datatype Step = Step(token: Token, start: nat, next: Cursor)

  /** `nextToken`. */
  function NextToken(s: string, c: Cursor): (st: Step)
    requires c.pos <= |s|
    ensures c.pos <= st.start <= st.next.pos <= |s|
    ensures forall i :: c.pos <= i < st.start ==> IsSpace(s[i])
    ensures st.next.line == c.line + CountNewlines(s[c.pos..st.next.pos])
    ensures st.token.line == c.line + CountNewlines(s[c.pos..st.start])
    ensures st.start == |s| ==> st.token == Token("", Unknown, st.next.line) && st.next.pos == |s|
    ensures st.start < |s| ==>
              && st.start < st.next.pos
              && st.token.kind != Unknown
              && (forall i :: st.start <= i < st.next.pos ==> !IsSpace(s[i]))
              && st.token.lexeme == Spelling(s[st.start..st.next.pos], st.token.kind)
  {
    var c1 := SkipWhitespace(s, c);
    if c1.pos == |s| then Step(Token("", Unknown, c1.line), c1.pos, c1)
    else
      var lx := ScanAt(s, c1.pos);
      var c2 := Advance(s, c1, lx.end);
      CountNewlinesSplit(s, c.pos, c1.pos, lx.end);
      Step(Token(lx.text, lx.kind, c1.line), c1.pos, c2)
  }

  /** The loop of `run`, from cursor `c` on: every token, including ERROR ones, in order. */
  function Steps(s: string, c: Cursor): (r: seq<Step>)
    requires c.pos <= |s|
    ensures forall k :: 0 <= k < |r| ==> c.pos <= r[k].start < r[k].next.pos <= |s|
    ensures forall k :: 0 <= k < |r| ==> r[k].token.kind != Unknown && r[k].token.lexeme != []
    ensures forall k, l :: 0 <= k < l < |r| ==> r[k].next.pos <= r[l].start
    decreases |s| - c.pos
  {
    if c.pos == |s| then []
    else
      var st := NextToken(s, c);
      if st.token.lexeme == [] && st.token.kind == Unknown then []
      else
        var rest := Steps(s, st.next);
        ConsSteps(s, c.pos, st, rest);
        [st] + rest
  }

  /** Putting a token in front of the run after it keeps the run's properties. */
  lemma ConsSteps(s: string, from: nat, st: Step, rest: seq<Step>)
    requires from <= st.start < st.next.pos <= |s|
    requires st.token.kind != Unknown && st.token.lexeme != []
    requires forall k :: 0 <= k < |rest| ==> st.next.pos <= rest[k].start < rest[k].next.pos <= |s|
    requires forall k :: 0 <= k < |rest| ==> rest[k].token.kind != Unknown && rest[k].token.lexeme != []
    requires forall k, l :: 0 <= k < l < |rest| ==> rest[k].next.pos <= rest[l].start
    ensures var r := [st] + rest;
      && (forall k :: 0 <= k < |r| ==> from <= r[k].start < r[k].next.pos <= |s|)
      && (forall k :: 0 <= k < |r| ==> r[k].token.kind != Unknown && r[k].token.lexeme != [])
      && (forall k, l :: 0 <= k < l < |r| ==> r[k].next.pos <= r[l].start)
  {
    var r := [st] + rest;
    assert forall k :: 0 < k < |r| ==> r[k] == rest[k - 1];
  }

  function TokensOf(steps: seq<Step>): (r: seq<Token>)
    ensures |r| == |steps| && forall k :: 0 <= k < |r| ==> r[k] == steps[k].token
  {
    seq(|steps|, k requires 0 <= k < |steps| => steps[k].token)
  }

  /** The tokens `run` collects, scanning from the start of the text on line 1. */
  function Run(s: string): seq<Token>
  {
    TokensOf(Steps(s, Cursor(0, 1)))
  }

  // ---------------------------------------------------------------- properties

  /** The text with every whitespace character removed. */
  function RemoveSpaces(s: string): string
  {
    if s == [] then [] else (if IsSpace(s[0]) then [] else [s[0]]) + RemoveSpaces(s[1..])
  }

  lemma {:induction false} RemoveSpacesAppend(a: string, b: string)
    ensures RemoveSpaces(a + b) == RemoveSpaces(a) + RemoveSpaces(b)
  {
    if a != [] {
      assert (a + b)[0] == a[0] && (a + b)[1..] == a[1..] + b;
      RemoveSpacesAppend(a[1..], b);
    } else {
      assert a + b == b;
    }
  }

  lemma {:induction false} RemoveSpacesOfSpaces(a: string)
    requires forall i :: 0 <= i < |a| ==> IsSpace(a[i])
    ensures RemoveSpaces(a) == []
  {
    if a != [] {
      RemoveSpacesOfSpaces(a[1..]);
    }
  }

  lemma {:induction false} RemoveSpacesOfNonSpaces(a: string)
    requires forall i :: 0 <= i < |a| ==> !IsSpace(a[i])
    ensures RemoveSpaces(a) == a
  {
    if a != [] {
      RemoveSpacesOfNonSpaces(a[1..]);
    }
  }

  /** The source text each step consumed for its token. */
  function Raws(s: string, steps: seq<Step>): (r: seq<string>)
    requires forall k :: 0 <= k < |steps| ==> steps[k].start <= steps[k].next.pos <= |s|
    ensures |r| == |steps|
  {
    seq(|steps|, k requires 0 <= k < |steps| => s[steps[k].start..steps[k].next.pos])
  }

  /** Removing whitespace from `s[i..k]`, where `s[i..j]` is all whitespace and `s[j..k]` has none. */
  lemma RemoveSpacesPrefix(s: string, i: nat, j: nat, k: nat)
    requires i <= j <= k <= |s|
    requires forall n :: i <= n < j ==> IsSpace(s[n])
    requires forall n :: j <= n < k ==> !IsSpace(s[n])
    ensures RemoveSpaces(s[i..]) == s[j..k] + RemoveSpaces(s[k..])
  {
    assert s[i..] == s[i..j] + (s[j..k] + s[k..]);
    RemoveSpacesAppend(s[i..j], s[j..k] + s[k..]);
    RemoveSpacesAppend(s[j..k], s[k..]);
    RemoveSpacesOfSpaces(s[i..j]);
    RemoveSpacesOfNonSpaces(s[j..k]);
  }

  lemma RawsCons(s: string, st: Step, rest: seq<Step>)
    requires st.start <= st.next.pos <= |s|
    requires forall k :: 0 <= k < |rest| ==> rest[k].start <= rest[k].next.pos <= |s|
    ensures Flatten(Raws(s, [st] + rest)) == s[st.start..st.next.pos] + Flatten(Raws(s, rest))
  {
    var raws := Raws(s, [st] + rest);
    assert raws[0] == s[st.start..st.next.pos];
    assert raws[1..] == Raws(s, rest);
  }

  /** Scanning loses nothing but whitespace: the source texts of the tokens, in
      order, make up the input with its whitespace removed. */
  lemma {:induction false} StepsCoverInput(s: string, c: Cursor)
    requires c.pos <= |s|
    ensures Flatten(Raws(s, Steps(s, c))) == RemoveSpaces(s[c.pos..])
    decreases |s| - c.pos
  {
    if c.pos == |s| {
      assert Steps(s, c) == [];
      assert s[c.pos..] == [];
    } else {
      var st := NextToken(s, c);
      if st.token.lexeme == [] && st.token.kind == Unknown {
        assert Steps(s, c) == [];
        RemoveSpacesOfSpaces(s[c.pos..]);
      } else {
        var rest := Steps(s, st.next);
        assert Steps(s, c) == [st] + rest;
        StepsCoverInput(s, st.next);
        RawsCons(s, st, rest);
        RemoveSpacesPrefix(s, c.pos, st.start, st.next.pos);
      }
    }
  }

  /** Each token's lexeme is its source text, upper-cased exactly when it is a keyword. */
  lemma StepsSpelling(s: string, c: Cursor)
    requires c.pos <= |s|
    ensures var steps := Steps(s, c);
            forall k :: 0 <= k < |steps| ==>
              steps[k].token.lexeme == Spelling(Raws(s, steps)[k], steps[k].token.kind)
  {
    var steps := Steps(s, c);
    forall k | 0 <= k < |steps|
      ensures steps[k].token.lexeme == Spelling(Raws(s, steps)[k], steps[k].token.kind)
    {
      StepSpelling(s, c, k);
    }
  }

  lemma {:induction false} StepSpelling(s: string, c: Cursor, k: nat)
    requires c.pos <= |s| && k < |Steps(s, c)|
    ensures var st := Steps(s, c)[k];
            st.token.lexeme == Spelling(s[st.start..st.next.pos], st.token.kind)
    decreases |s| - c.pos
  {
    var st := NextToken(s, c);
    if k > 0 {
      StepSpelling(s, st.next, k - 1);
    }
  }

  /** A step's token line and its cursor line are one plus the newlines before them. */
  predicate LinesKnown(s: string, st: Step) {
    st.start <= |s| && st.next.pos <= |s| &&
    st.token.line == 1 + CountNewlines(s[..st.start]) &&
    st.next.line == 1 + CountNewlines(s[..st.next.pos])
  }

  /** Every token carries the line it starts on: one plus the newlines before it. */
  lemma {:induction false} StepsLines(s: string, c: Cursor)
    requires c.pos <= |s|
    requires c.line == 1 + CountNewlines(s[..c.pos])
    ensures forall k :: 0 <= k < |Steps(s, c)| ==> LinesKnown(s, Steps(s, c)[k])
    decreases |s| - c.pos
  {
    var r := Steps(s, c);
    if r != [] {
      var st := NextToken(s, c);
      StepsUnfold(s, c);
      LineOfPrefix(s, c, st.next.pos, st.next.line);
      LineOfPrefix(s, c, st.start, st.token.line);
      assert LinesKnown(s, st);
      StepsLines(s, st.next);
      var rest := Steps(s, st.next);
      assert r == [st] + rest;
      forall k | 0 <= k < |r|
        ensures LinesKnown(s, r[k])
      {
        if k > 0 {
          assert r[k] == rest[k - 1];
        }
      }
    }
  }

  /** A line counted from a cursor that knows its own line is one plus the newlines before the point. */
  lemma LineOfPrefix(s: string, c: Cursor, x: nat, line: int)
    requires c.pos <= x <= |s|
    requires c.line == 1 + CountNewlines(s[..c.pos])
    requires line == c.line + CountNewlines(s[c.pos..x])
    ensures line == 1 + CountNewlines(s[..x])
  {
    CountNewlinesSplit(s, 0, c.pos, x);
    assert s[..c.pos] == s[0..c.pos] && s[..x] == s[0..x];
  }

  /** A non-empty run from `c` is the next token followed by the run after it. */
  lemma StepsUnfold(s: string, c: Cursor)
    requires c.pos <= |s| && Steps(s, c) != []
    ensures c.pos < |s| && Steps(s, c) == [NextToken(s, c)] + Steps(s, NextToken(s, c).next)
  {
  }

  lemma CountNewlinesMonotone(s: string, i: nat, j: nat)
    requires i <= j <= |s|
    ensures CountNewlines(s[..i]) <= CountNewlines(s[..j])
  {
    CountNewlinesSplit(s, 0, i, j);
    assert s[..i] == s[0..i] && s[..j] == s[0..j];
  }

  /** `run` keeps every token with a non-empty lexeme and a known kind, the
      lexemes spell the input without whitespace (keywords upper-cased), and
      the line numbers never decrease along the token list. */
  lemma RunProperties(s: string)
    ensures var toks := Run(s);
            var steps := Steps(s, Cursor(0, 1));
            && (forall k :: 0 <= k < |toks| ==> toks[k].lexeme != [] && toks[k].kind != Unknown)
            && Flatten(Raws(s, steps)) == RemoveSpaces(s)
            && (forall k :: 0 <= k < |toks| ==> toks[k].lexeme == Spelling(Raws(s, steps)[k], toks[k].kind))
            && (forall k :: 0 <= k < |toks| ==> toks[k].line == 1 + CountNewlines(s[..steps[k].start]))
            && (forall k, l :: 0 <= k < l < |toks| ==> toks[k].line <= toks[l].line)
  {
    var c := Cursor(0, 1);
    var steps := Steps(s, c);
    var toks := Run(s);
    StepsCoverInput(s, c);
    assert s[0..] == s;
    StepsSpelling(s, c);
    assert s[..0] == [];
    StepsLines(s, c);
    forall k | 0 <= k < |toks|
      ensures toks[k].line == 1 + CountNewlines(s[..steps[k].start])
    {
      assert LinesKnown(s, steps[k]);
    }
    forall k, l | 0 <= k < l < |toks|
      ensures toks[k].line <= toks[l].line
    {
      assert LinesKnown(s, steps[k]) && LinesKnown(s, steps[l]);
      CountNewlinesMonotone(s, steps[k].start, steps[l].start);
    }
  }

  /** The lines `run` writes for ERROR tokens, in token order. */
  function ErrorLines(toks: seq<Token>): (lines: seq<string>)
    ensures |lines| <= |toks|
  {
    if toks == [] then []
    else ErrorLines(toks[..|toks| - 1])
         + (if toks[|toks| - 1].kind == Error then ["LEXICAL ERROR: " + toks[|toks| - 1].lexeme] else [])
  }

  /** There is one "LEXICAL ERROR" line per ERROR token. */
  lemma {:induction false} ErrorLinesCount(toks: seq<Token>)
    ensures |ErrorLines(toks)| == |set k | 0 <= k < |toks| && toks[k].kind == Error|
  {
    if toks != [] {
      var n := |toks| - 1;
      ErrorLinesCount(toks[..n]);
      var before := set k | 0 <= k < n && toks[..n][k].kind == Error;
      var all := set k | 0 <= k < |toks| && toks[k].kind == Error;
      assert before == set k | 0 <= k < n && toks[k].kind == Error;
      if toks[n].kind == Error {
        assert all == before + {n};
      } else {
        assert all == before;
      }
    }
  }

  // ---------------------------------------------------------------- the lexeme table

  /** The key `run` hashes each token under: the string hash of its lexeme. */
  function LexemeHash(lexeme: string): Int32
  {
    StringHash(lexeme)
  }

  /** The `table.insert` calls of `run`, one per token, in token order. */
  function InsertAll(t: Table<Token>, toks: seq<Token>): (r: Table<Token>)
    requires |t.slots| > 0
    ensures |r.slots| == |t.slots|
  {
    if toks == [] then t
    else
      var last := toks[|toks| - 1];
      Insert(InsertAll(t, toks[..|toks| - 1]), Key, LexemeHash(last.lexeme), last).table
  }

  /** The first token of `toks` whose lexeme is `lexeme`, if any. */
  function FirstWith(toks: seq<Token>, lexeme: string): (r: Option<Token>)
    ensures r.Some? ==> r.value in toks && r.value.lexeme == lexeme
    ensures r.None? ==> forall k :: 0 <= k < |toks| ==> toks[k].lexeme != lexeme
  {
    if toks == [] then None
    else if toks[0].lexeme == lexeme then Some(toks[0])
    else FirstWith(toks[1..], lexeme)
  }

  lemma {:induction false} FirstWithSnoc(toks: seq<Token>, x: Token, lexeme: string)
    ensures FirstWith(toks + [x], lexeme)
         == if FirstWith(toks, lexeme).Some? then FirstWith(toks, lexeme)
            else if x.lexeme == lexeme then Some(x) else None
  {
    if toks != [] {
      assert (toks + [x])[0] == toks[0] && (toks + [x])[1..] == toks[1..] + [x];
      FirstWithSnoc(toks[1..], x, lexeme);
    } else {
      assert toks + [x] == [x];
    }
  }

  predicate Full(t: Table<Token>) {
    forall i :: 0 <= i < |t.slots| ==> t.slots[i].occupied
  }

  /** The invariant `run` keeps while filling its table with the tokens `toks`. */
  predicate KeepsFirst(t: Table<Token>, toks: seq<Token>)
  {
    && Valid(t, Key, LexemeHash)
    && (forall i :: 0 <= i < |t.slots| && t.slots[i].occupied ==>
          FirstWith(toks, t.slots[i].value.lexeme) == Some(t.slots[i].value))
    && (forall k :: 0 <= k < |toks| ==> Contains(t, Key, toks[k].lexeme) || Full(t))
  }

  lemma KeepsFirstPresent(t: Table<Token>, pre: seq<Token>, x: Token)
    requires KeepsFirst(t, pre) && Contains(t, Key, x.lexeme)
    ensures KeepsFirst(Insert(t, Key, LexemeHash(x.lexeme), x).table, pre + [x])
  {
    var p :| 0 <= p < |t.slots| && Holds(t.slots[p], Key, x.lexeme);
    InsertExisting(t, Key, LexemeHash, x, p);
    forall lx: string { FirstWithSnoc(pre, x, lx); }
    forall k | 0 <= k < |pre| + 1 ensures Contains(t, Key, (pre + [x])[k].lexeme) || Full(t) {
      if k < |pre| { assert (pre + [x])[k] == pre[k]; }
    }
  }

  lemma KeepsFirstFull(t: Table<Token>, pre: seq<Token>, x: Token)
    requires KeepsFirst(t, pre) && !Contains(t, Key, x.lexeme) && Full(t)
    ensures KeepsFirst(Insert(t, Key, LexemeHash(x.lexeme), x).table, pre + [x])
  {
    InsertFull(t, Key, LexemeHash, x);
    forall lx: string { FirstWithSnoc(pre, x, lx); }
  }

  lemma KeepsFirstFresh(t: Table<Token>, pre: seq<Token>, x: Token)
    requires KeepsFirst(t, pre) && !Contains(t, Key, x.lexeme) && !Full(t)
    ensures KeepsFirst(Insert(t, Key, LexemeHash(x.lexeme), x).table, pre + [x])
  {
    var r := Insert(t, Key, LexemeHash(x.lexeme), x);
    InsertPreservesValid(t, Key, LexemeHash, x);
    InsertFull(t, Key, LexemeHash, x);
    var q := r.index;
    assert FirstWith(pre, x.lexeme).None?;
    forall lx: string { FirstWithSnoc(pre, x, lx); }
    var toks := pre + [x];
    forall k | 0 <= k < |toks| ensures Contains(r.table, Key, toks[k].lexeme)
    {
      if k < |pre| {
        assert toks[k] == pre[k];
        var p :| 0 <= p < |t.slots| && Holds(t.slots[p], Key, toks[k].lexeme);
        assert Holds(r.table.slots[p], Key, toks[k].lexeme);
      } else {
        assert Holds(r.table.slots[q], Key, toks[k].lexeme);
      }
    }
  }

  /** Filling an empty table token by token keeps the table invariant; every
      live slot holds the FIRST token with its lexeme (so the first occurrence
      fixes the listed kind); and every token's lexeme is in the table unless
      the table has filled up. */
  lemma {:induction false} InsertAllKeepsFirst(t0: Table<Token>, toks: seq<Token>)
    requires Valid(t0, Key, LexemeHash)
    requires forall i :: 0 <= i < |t0.slots| ==> !t0.slots[i].occupied
    ensures KeepsFirst(InsertAll(t0, toks), toks)
  {
    if toks != [] {
      var pre := toks[..|toks| - 1];
      var x := toks[|toks| - 1];
      assert toks == pre + [x];
      InsertAllKeepsFirst(t0, pre);
      var t' := InsertAll(t0, pre);
      if Contains(t', Key, x.lexeme) {
        KeepsFirstPresent(t', pre, x);
      } else if Full(t') {
        KeepsFirstFull(t', pre, x);
      } else {
        KeepsFirstFresh(t', pre, x);
      }
    }
  }

  /** What `run` leaves behind: the token list, the "LEXICAL ERROR" lines and the lexeme table. */
  datatype LexOutput = LexOutput(tokens: seq<Token>, errors: seq<string>, table: Table<Token>)

  /** `run`: tokens, error lines, and every token inserted into a fresh 211-slot table. */
  function LexRun(s: string): (out: LexOutput)
    ensures out.tokens == Run(s)
    ensures |out.table.slots| == DefaultCapacity
  {
    var toks := Run(s);
    LexOutput(toks, ErrorLines(toks), InsertAll(NewTable(DefaultCapacity, DefaultToken()), toks))
  }

  /** The lines `run` writes to its output: the error lines, then the table listing. */
  function LexListing(out: LexOutput): seq<string>
  {
    out.errors + Listing(out.table, (t: Token) => KindName(t.kind), Key)
  }

  /** The lexeme table of `run` lists each lexeme once, with the kind of its first occurrence. */
  lemma LexTableFirstOccurrence(s: string)
    ensures KeepsFirst(LexRun(s).table, LexRun(s).tokens)
  {
    NewTableValid(DefaultCapacity, DefaultToken(), Key, LexemeHash);
    InsertAllKeepsFirst(NewTable(DefaultCapacity, DefaultToken()), Run(s));
  }

  // ---------------------------------------------------------------- examples

  /** Input that the first scan consumes entirely, with no leading space, is one token on line 1. */
  lemma SingleTokenRun(s: string, lx: Lexeme)
    requires |s| > 0 && !IsSpace(s[0]) && ScanAt(s, 0) == lx && lx.end == |s|
    ensures Run(s) == [Token(lx.text, lx.kind, 1)]
  {
    var c0 := Cursor(0, 1);
    assert SkipWhitespace(s, c0) == c0;
    var st := NextToken(s, c0);
    assert st.token == Token(lx.text, lx.kind, 1) && st.next.pos == |s|;
    assert Steps(s, st.next) == [];
    assert Steps(s, c0) == [st];
  }

  /** "007": a leading zero followed by digits is one ERROR token. */
  lemma LeadingZeroExample()
    ensures Run("007") == [Token("007", Error, 1)]
  {
    var s := "007";
    assert SpanEnd(s, 3, IsDigit) == 3;
    assert SpanEnd(s, 1, IsDigit) == 3;
    assert SpanEnd(s, 0, IsDigit) == 3;
    assert ScanNumber(s, 0) == Lexeme(Error, "007", 3);
    SingleTokenRun(s, ScanAt(s, 0));
  }

  /** "3.": a dot without a following digit is one ERROR token that includes the dot. */
  lemma BareDotExample()
    ensures Run("3.") == [Token("3.", Error, 1)]
  {
    var s := "3.";
    assert SpanEnd(s, 2, IsDigit) == 2;
    assert SpanEnd(s, 0, IsDigit) == 1;
    assert ScanNumber(s, 0) == Lexeme(Error, "3.", 2);
    SingleTokenRun(s, ScanAt(s, 0));
  }

  /** "3.5": digits, a dot and digits are one REAL token. */
  lemma RealExample()
    ensures Run("3.5") == [Token("3.5", Real, 1)]
  {
    var s := "3.5";
    assert SpanEnd(s, 3, IsDigit) == 3;
    assert SpanEnd(s, 2, IsDigit) == 3;
    assert SpanEnd(s, 0, IsDigit) == 1;
    assert ScanNumber(s, 0) == Lexeme(Real, "3.5", 3);
    SingleTokenRun(s, ScanAt(s, 0));
  }

  /** "0" on its own is an INTEGER: the leading-zero rule needs a digit after the zero. */
  lemma LoneZeroExample()
    ensures Run("0") == [Token("0", Integer, 1)]
  {
    var s := "0";
    assert SpanEnd(s, 1, IsDigit) == 1;
    assert SpanEnd(s, 0, IsDigit) == 1;
    assert ScanNumber(s, 0) == Lexeme(Integer, "0", 1);
    SingleTokenRun(s, ScanAt(s, 0));
  }
}
