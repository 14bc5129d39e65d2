/**
  The stage composition of `main.cpp`: lex the source, drop the ERROR and
  UNKNOWN tokens, parse what remains, and hand the parser's root to the
  semantic analyzer whether or not syntax errors were reported. File names,
  streams and console messages are not modelled.
 */
module Pipeline {
  import opened Wrappers
  import opened Tokens
  import opened Ast
  import opened Lexer
  import opened Parser
  import opened ParserFacts
  import opened Semantic
  import opened SemanticFacts

  /** A token the parser may see: neither ERROR nor UNKNOWN. */
  predicate IsValidToken(t: Token) {
    t.kind != Error && t.kind != Unknown
  }

  /** The token filter of `main`: the lexer's tokens without ERROR and UNKNOWN ones, in order. */
  function Filter(toks: seq<Token>): (r: seq<Token>)
    ensures |r| <= |toks|
    ensures forall i :: 0 <= i < |r| ==> IsValidToken(r[i])
    ensures forall t :: t in r <==> t in toks && IsValidToken(t)
    decreases |toks|
  {
    if toks == [] then []
    else (if IsValidToken(toks[0]) then [toks[0]] else []) + Filter(toks[1..])
  }

  /** Filtering distributes over concatenation, so the kept tokens stay in their original order. */
  lemma {:induction false} FilterAppend(a: seq<Token>, b: seq<Token>)
    ensures Filter(a + b) == Filter(a) + Filter(b)
    decreases |a|
  {
    if a == [] {
      assert a + b == b;
    } else {
      assert (a + b)[0] == a[0];
      assert (a + b)[1..] == a[1..] + b;
      FilterAppend(a[1..], b);
    }
  }

  /** A list with no ERROR or UNKNOWN token passes unchanged. */
  lemma {:induction false} FilterKeepsValid(toks: seq<Token>)
    requires forall i :: 0 <= i < |toks| ==> IsValidToken(toks[i])
    ensures Filter(toks) == toks
    decreases |toks|
  {
    if toks != [] {
      FilterKeepsValid(toks[1..]);
    }
  }

  /** Filtering twice is filtering once. */
  lemma FilterIdempotent(toks: seq<Token>)
    ensures Filter(Filter(toks)) == Filter(toks)
  {
    FilterKeepsValid(Filter(toks));
  }

  /** Exactly the ERROR and UNKNOWN tokens are dropped: the lengths differ by their number. */
  lemma {:induction false} FilterDropsInvalid(toks: seq<Token>)
    ensures |toks| - |Filter(toks)| == |InvalidTokens(toks)|
    ensures forall i :: 0 <= i < |InvalidTokens(toks)| ==> !IsValidToken(InvalidTokens(toks)[i])
    decreases |toks|
  {
    if toks != [] {
      FilterDropsInvalid(toks[1..]);
    }
  }

  /** The ERROR and UNKNOWN tokens of `toks`, in order. */
  function InvalidTokens(toks: seq<Token>): seq<Token>
    decreases |toks|
  {
    if toks == [] then []
    else (if IsValidToken(toks[0]) then [] else [toks[0]]) + InvalidTokens(toks[1..])
  }

  /** What one run of the front end produces at each stage. */
  datatype Compiled = Compiled(lexed: LexOutput, valid: seq<Token>, parsed: Parsed, analysis: Analysis)

  /**
    `main`: the parser sees only the filtered tokens, and the analyzer always
    receives a tree, so it never reports an empty AST.
   */
  function Compile(src: string): (r: Compiled)
    ensures r.lexed.tokens == Run(src)
    ensures forall i :: 0 <= i < |r.valid| ==> IsValidToken(r.valid[i])
    ensures r.valid == Filter(r.lexed.tokens)
    ensures r.parsed.node.name == "Program" && r.parsed.st.idx <= |r.valid|
    ensures r.analysis.output == r.analysis.postfix
  {
    var lexed := LexRun(src);
    var valid := Filter(lexed.tokens);
    var parsed := Parse(valid);
    Compiled(lexed, valid, parsed, Analyze(Some(parsed.node)))
  }

  /** The analyzer's output of a compiled program never holds the empty-tree message. */
  lemma CompileNeverReportsEmptyTree(src: string)
    ensures "ERROR: AST is empty" !in Compile(src).analysis.output
  {
    AnalyzeNeverReportsEmptyTree(Parse(Filter(LexRun(src).tokens)).node);
  }

  /** Given a tree, every output line is a postfix line, and none of those is the empty-tree message. */
  lemma AnalyzeNeverReportsEmptyTree(root: Node)
    ensures "ERROR: AST is empty" !in Analyze(Some(root)).output
  {
    PostfixSections(root);
    var p := Analyze(Some(root)).postfix;
    var i, j :| SplitsInSections(p, i, j);
    SectionsExcludeMessage(p, i, j);
  }

  lemma SectionsExcludeMessage(p: seq<string>, i: int, j: int)
    requires SplitsInSections(p, i, j)
    ensures "ERROR: AST is empty" !in p
  {
    var m := "ERROR: AST is empty";
    assert m[|m| - 1] == 'y';
    forall k | 0 <= k < |p|
      ensures p[k] != m
    {
      if k < i {
        assert IsDeclarationLine(p[k]);
      } else if k < j {
        assert IsStatementLine(p[k]);
      } else {
        assert IsEndLine(p[k]);
      }
    }
  }

  /**
    When the filtered tokens parse without a syntax error, the tree's leaves
    spell them back: the PROGRAM keyword first, then one leaf per remaining
    token with its kind, line and (for names and constants) its text.
   */
  lemma CompileLeavesSpellTokens(src: string)
    ensures var r := Compile(src);
      r.parsed.st.errors == [] ==>
        |Yield(r.parsed.node)| == |r.valid| && |r.valid| >= 2 &&
        r.valid[0].lexeme == "PROGRAM" &&
        Corresponds(Yield(r.parsed.node)[1..], r.valid[1..])
  {
    ProgramYield(Filter(LexRun(src).tokens));
  }
}
