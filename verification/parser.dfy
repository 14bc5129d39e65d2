/**
  The recursive-descent parser of `Synt.cpp`. The token vector is a
  parameter; the mutable cursor and error list are the state `PState`
  threaded through every production. Each production returns the node it
  built (the source never returns a null node) and the new state.
  Printing of the tree trace is left out: only the tree and the error
  messages are modelled.
 */
module Parser {
  import opened Text
  import opened Tokens
  import opened Ast

  /** Cursor into the token vector and the syntax errors collected so far. */
  datatype PState = PState(idx: nat, errors: seq<string>)

  /** A production's node and the state after it. */
  datatype Parsed = Parsed(node: Node, st: PState)

  /** The children a loop collected and the state after it. */
  datatype Kids = Kids(nodes: seq<Node>, st: PState)

  /** The cursor never moves back or past the end, and errors are only appended. */
  predicate Advances(toks: seq<Token>, st: PState, st': PState) {
    st.idx <= st'.idx <= |toks| && st.errors <= st'.errors
  }

  // ---------------------------------------------------------------------
  // Cursor primitives

  /** `currentToken`: past the end it is an empty UNKNOWN token on line 1. */
  function CurrentToken(toks: seq<Token>, i: nat): (t: Token)
    ensures i < |toks| ==> t == toks[i]
    ensures i >= |toks| ==> t.kind == Unknown && t.lexeme == "" && t.line == 1
  {
    if i < |toks| then toks[i] else MakeToken("", Unknown)
  }

  /** `nextToken`: moves one token forward, never past the end. */
  function NextIndex(toks: seq<Token>, i: nat): (j: nat)
    requires i <= |toks|
    ensures j <= |toks|
    ensures i < |toks| ==> j == i + 1
    ensures i == |toks| ==> j == i
  {
    if i < |toks| then i + 1 else i
  }

  /** `match`: consumes one token exactly when one of kind `kind` is current. */
  function Match(toks: seq<Token>, i: nat, kind: TokenKind): (r: (bool, nat))
    requires i <= |toks|
    ensures r.0 <==> i < |toks| && toks[i].kind == kind
    ensures r.0 ==> r.1 == i + 1
    ensures !r.0 ==> r.1 == i
  {
    if i >= |toks| then (false, i)
    else if CurrentToken(toks, i).kind == kind then (true, NextIndex(toks, i))
    else (false, i)
  }

  /** `matchKeyword`: consumes one token exactly when it is the keyword `keyword`. */
  function MatchKeyword(toks: seq<Token>, i: nat, keyword: string): (r: (bool, nat))
    requires i <= |toks|
    ensures r.0 <==> i < |toks| && toks[i].kind == Keyword && toks[i].lexeme == keyword
    ensures r.0 ==> r.1 == i + 1
    ensures !r.0 ==> r.1 == i
  {
    if i >= |toks| then (false, i)
    else if CurrentToken(toks, i).kind == Keyword && CurrentToken(toks, i).lexeme == keyword then
      (true, NextIndex(toks, i))
    else (false, i)
  }

  // ---------------------------------------------------------------------
  // Error recovery

  /**
    A recovery point: a declaration, call or END keyword, or an identifier
    immediately followed by '=' (the start of an assignment).
   */
  predicate IsStatementStart(toks: seq<Token>, i: nat) {
    i < |toks| &&
    ((toks[i].kind == Keyword && toks[i].lexeme in {"INTEGER", "REAL", "CALL", "END"}) ||
     (toks[i].kind == Identifier && i + 1 < |toks| && toks[i + 1].kind == Assign))
  }

  /** `i` is the first statement start at or after `from`, or the end when there is none. */
  predicate FirstStatementStart(toks: seq<Token>, from: nat, i: nat) {
    from <= i <= |toks| && (i == |toks| || IsStatementStart(toks, i)) &&
    forall k :: from <= k < i ==> !IsStatementStart(toks, k)
  }

  /** `syncToNextOperator`: skips to the next statement start. */
  function SyncToNextOperator(toks: seq<Token>, i: nat): (r: nat)
    requires i <= |toks|
    ensures FirstStatementStart(toks, i, r)
    decreases |toks| - i
  {
    if i < |toks| then
      var token := CurrentToken(toks, i);
      if token.kind == Identifier then
        if i + 1 < |toks| && toks[i + 1].kind == Assign then i
        else SyncToNextOperator(toks, NextIndex(toks, i))
      else if token.kind == Keyword &&
              (token.lexeme == "CALL" || token.lexeme == "INTEGER" ||
               token.lexeme == "REAL" || token.lexeme == "END") then i
      else SyncToNextOperator(toks, NextIndex(toks, i))
    else i
  }

  /** `syncToEndOfExpression`: skips to the next token that cannot continue an expression statement. */
  function SyncToEndOfExpression(toks: seq<Token>, i: nat): (r: nat)
    requires i <= |toks|
    ensures FirstStatementStart(toks, i, r)
    decreases |toks| - i
  {
    if i < |toks| then
      var token := CurrentToken(toks, i);
      if token.kind == Keyword &&
         (token.lexeme == "INTEGER" || token.lexeme == "REAL" ||
          token.lexeme == "CALL" || token.lexeme == "END") then i
      else if token.kind == Identifier && i + 1 < |toks| && toks[i + 1].kind == Assign then i
      else SyncToEndOfExpression(toks, NextIndex(toks, i))
    else i
  }

  /** The tokens `syncToNextArgument` stops at: a separator, a closing parenthesis or an operand start. */
  predicate IsArgumentStop(toks: seq<Token>, i: nat) {
    i < |toks| && toks[i].kind in {Comma, RParen, Identifier, Integer, Real, LParen}
  }

  /** `i` is the first argument stop at or after `from`, or the end when there is none. */
  predicate FirstArgumentStop(toks: seq<Token>, from: nat, i: nat) {
    from <= i <= |toks| && (i == |toks| || IsArgumentStop(toks, i)) &&
    forall k :: from <= k < i ==> !IsArgumentStop(toks, k)
  }

  /** `syncToNextArgument`: skips to the next argument boundary or operand. */
  function SyncToNextArgument(toks: seq<Token>, i: nat): (r: nat)
    requires i <= |toks|
    ensures FirstArgumentStop(toks, i, r)
    decreases |toks| - i
  {
    if i < |toks| then
      var token := CurrentToken(toks, i);
      if token.kind == Comma || token.kind == RParen then i
      else if token.kind == Identifier || token.kind == Integer ||
              token.kind == Real || token.kind == LParen then i
      else SyncToNextArgument(toks, NextIndex(toks, i))
    else i
  }

  /** `syncAfterError`: skips the offending token, then seeks the next statement start. */
  function SyncAfterError(toks: seq<Token>, i: nat): (r: nat)
    requires i <= |toks|
    ensures i < |toks| ==> FirstStatementStart(toks, i + 1, r)
    ensures i == |toks| ==> r == i
  {
    SyncToEndOfExpression(toks, NextIndex(toks, i))
  }

  /** The text of a syntax error reported at cursor `i`. */
  function ErrorMessage(toks: seq<Token>, i: nat, msg: string): (m: string)
    ensures i < |toks| ==>
      m == "SYNTAX ERROR at line " + IntToString(toks[i].line) + " (token: '" + toks[i].lexeme + "'): " + msg
    ensures i >= |toks| && |toks| > 0 ==>
      m == "SYNTAX ERROR at line " + IntToString(toks[|toks| - 1].line) + ": " + msg + " (unexpected end of file)"
    ensures |toks| == 0 ==> m == "SYNTAX ERROR: " + msg + " (file is empty)"
  {
    if i < |toks| then
      var token := CurrentToken(toks, i);
      "SYNTAX ERROR at line " + IntToString(token.line) + " (token: '" + token.lexeme + "'): " + msg
    else if |toks| > 0 then
      var last := toks[|toks| - 1];
      "SYNTAX ERROR at line " + IntToString(last.line) + ": " + msg + " (unexpected end of file)"
    else
      "SYNTAX ERROR: " + msg + " (file is empty)"
  }

  /**
    `error`: records one message and recovers. The cursor moves past the
    offending token (when there is one) to the next statement start.
   */
  function Error(toks: seq<Token>, st: PState, msg: string): (r: PState)
    requires st.idx <= |toks|
    ensures Advances(toks, st, r)
    ensures r.errors == st.errors + [ErrorMessage(toks, st.idx, msg)]
    ensures st.idx < |toks| ==> r.idx > st.idx
    ensures r.idx == |toks| || IsStatementStart(toks, r.idx)
  {
    PState(SyncAfterError(toks, st.idx), st.errors + [ErrorMessage(toks, st.idx, msg)])
  }

  /** `error` followed by `syncToNextOperator`, the recovery of statements. */
  function OpError(toks: seq<Token>, st: PState, msg: string): (r: PState)
    requires st.idx <= |toks|
    ensures Advances(toks, st, r)
    ensures r.errors == st.errors + [ErrorMessage(toks, st.idx, msg)]
    ensures st.idx < |toks| ==> r.idx > st.idx
    ensures r.idx == |toks| || IsStatementStart(toks, r.idx)
  {
    var st1 := Error(toks, st, msg);
    st1.(idx := SyncToNextOperator(toks, st1.idx))
  }

  /** `error` followed by `syncToEndOfExpression`, the recovery inside expressions. */
  function ExprError(toks: seq<Token>, st: PState, msg: string): (r: PState)
    requires st.idx <= |toks|
    ensures Advances(toks, st, r)
    ensures r.errors == st.errors + [ErrorMessage(toks, st.idx, msg)]
    ensures st.idx < |toks| ==> r.idx > st.idx
    ensures r.idx == |toks| || IsStatementStart(toks, r.idx)
  {
    var st1 := Error(toks, st, msg);
    st1.(idx := SyncToEndOfExpression(toks, st1.idx))
  }

  // ---------------------------------------------------------------------
  // Productions

  /** A leaf for the token just consumed. */
  function TokenLeaf(name: string, t: Token): Node {
    Leaf(name, t.lexeme, t.line)
  }

  /** Program -> Begin Descriptions Operators End, then nothing may follow. */
  function ParseProgram(toks: seq<Token>, st: PState): (r: Parsed)
    requires st.idx <= |toks|
    ensures Advances(toks, st, r.st)
    ensures r.node.name == "Program" && |r.node.children| == 4
    ensures r.node.children[0].name == "Begin" && r.node.children[1].name == "Descriptions"
    ensures r.node.children[2].name == "Operators" && r.node.children[3].name == "End"
  {
    var b := ParseBegin(toks, st);
    var d := ParseDescriptions(toks, b.st);
    var o := ParseOperators(toks, d.st);
    var e := ParseEnd(toks, o.st);
    var node := Inner("Program", [b.node, d.node, o.node, e.node]);
    if e.st.idx < |toks| then
      Parsed(node, Error(toks, e.st, "Unexpected token(s) '" + CurrentToken(toks, e.st.idx).lexeme + "' after END"))
    else
      Parsed(node, e.st)
  }

  /**
    Begin -> PROGRAM Id, with the two recovery loops of the source; the one
    after a missing program name runs as written (see
    `SkipToDeclarationsAsWritten`); `ParserFacts.BeginOutcomes` states the
    three outcomes.
   */
  function ParseBegin(toks: seq<Token>, st: PState): (r: Parsed)
    requires st.idx <= |toks|
    ensures Advances(toks, st, r.st)
    ensures r.node.name == "Begin"
  {
    var (ok, i) := MatchKeyword(toks, st.idx, "PROGRAM");
    if ok then
      var keyword := Leaf("KEYWORD", "PROGRAM", CurrentToken(toks, i).line);
      var (okId, j) := Match(toks, i, Identifier);
      if okId then
        Parsed(Inner("Begin", [keyword, TokenLeaf("IDENTIFIER", toks[j - 1])]), st.(idx := j))
      else
        var st1 := Error(toks, st.(idx := i), "Expected identifier after PROGRAM");
        Parsed(Inner("Begin", [keyword]), st1.(idx := SkipToDeclarationsAsWritten(toks, st1.idx)))
    else
      var st1 := Error(toks, st, "Expected 'PROGRAM'");
      var (name, j) := SeekProgramName(toks, st1.idx);
      Parsed(Inner("Begin", name), st1.(idx := j))
  }

  /**
    The stop test of the recovery loop after a missing program name, as
    written: a KEYWORD token that is INTEGER, REAL or CALL, or whose kind is
    IDENTIFIER. The last disjunct sits inside the KEYWORD test and can never
    hold, so the loop runs past every identifier.
   */
  predicate BeginStopAsWritten(t: Token) {
    t.kind == Keyword &&
    (t.lexeme == "INTEGER" || t.lexeme == "REAL" || t.lexeme == "CALL" || t.kind == Identifier)
  }

  /** The recovery loop after a missing program name, as written. */
  function SkipToDeclarationsAsWritten(toks: seq<Token>, i: nat): (r: nat)
    requires i <= |toks|
    ensures i <= r <= |toks|
    ensures r < |toks| ==> toks[r].kind == Keyword && toks[r].lexeme in {"INTEGER", "REAL", "CALL"}
    ensures forall k :: i <= k < r ==> !(toks[k].kind == Keyword && toks[k].lexeme in {"INTEGER", "REAL", "CALL"})
    decreases |toks| - i
  {
    if i < |toks| then
      if BeginStopAsWritten(CurrentToken(toks, i)) then i
      else SkipToDeclarationsAsWritten(toks, NextIndex(toks, i))
    else i
  }

  /**
    The stop test the loop evidently intends: the start of the declarations
    (INTEGER, REAL) or of the statements (CALL, or an identifier).
   */
  predicate BeginStop(t: Token) {
    (t.kind == Keyword && (t.lexeme == "INTEGER" || t.lexeme == "REAL" || t.lexeme == "CALL")) ||
    t.kind == Identifier
  }

  /** The recovery loop after a missing program name, stopping at declarations and statements. */
  function SkipToDeclarations(toks: seq<Token>, i: nat): (r: nat)
    requires i <= |toks|
    ensures i <= r <= |toks|
    ensures r < |toks| ==> toks[r].kind == Identifier || (toks[r].kind == Keyword && toks[r].lexeme in {"INTEGER", "REAL", "CALL"})
    ensures forall k :: i <= k < r ==>
      toks[k].kind != Identifier && !(toks[k].kind == Keyword && toks[k].lexeme in {"INTEGER", "REAL", "CALL"})
    decreases |toks| - i
  {
    if i < |toks| then
      if BeginStop(CurrentToken(toks, i)) then i
      else SkipToDeclarations(toks, NextIndex(toks, i))
    else i
  }

  /** The recovery loop after a missing PROGRAM: takes the next identifier as the program name. */
  function SeekProgramName(toks: seq<Token>, i: nat): (r: (seq<Node>, nat))
    requires i <= |toks|
    ensures i <= r.1 <= |toks|
    ensures forall k :: i <= k < r.1 - 1 ==> toks[k].kind != Identifier
    ensures |r.0| <= 1
    ensures r.0 == [] ==> r.1 == |toks| && forall k :: i <= k < |toks| ==> toks[k].kind != Identifier
    ensures r.0 != [] ==> i < r.1 && toks[r.1 - 1].kind == Identifier && r.0 == [TokenLeaf("IDENTIFIER", toks[r.1 - 1])]
    decreases |toks| - i
  {
    if i < |toks| then
      if CurrentToken(toks, i).kind == Identifier then
        ([TokenLeaf("IDENTIFIER", toks[i])], NextIndex(toks, i))
      else SeekProgramName(toks, NextIndex(toks, i))
    else ([], i)
  }

  /** The current token opens a declaration: the keyword INTEGER or REAL. */
  predicate AtDeclaration(toks: seq<Token>, i: nat) {
    i < |toks| && toks[i].kind == Keyword && (toks[i].lexeme == "INTEGER" || toks[i].lexeme == "REAL")
  }

  /** Descriptions -> Descr*, while the current token is INTEGER or REAL. */
  function ParseDescriptions(toks: seq<Token>, st: PState): (r: Parsed)
    requires st.idx <= |toks|
    ensures Advances(toks, st, r.st)
    ensures r.node.name == "Descriptions"
    ensures !AtDeclaration(toks, r.st.idx)
    ensures forall c :: c in r.node.children ==> c.name == "Descr"
  {
    var k := DescriptionsLoop(toks, st, []);
    Parsed(Inner("Descriptions", k.nodes), k.st)
  }

  function DescriptionsLoop(toks: seq<Token>, st: PState, acc: seq<Node>): (r: Kids)
    requires st.idx <= |toks|
    requires forall c :: c in acc ==> c.name == "Descr"
    ensures Advances(toks, st, r.st)
    ensures !AtDeclaration(toks, r.st.idx)
    ensures acc <= r.nodes
    ensures forall c :: c in r.nodes ==> c.name == "Descr"
    decreases |toks| - st.idx
  {
    if st.idx < |toks| && CurrentToken(toks, st.idx).kind == Keyword &&
       (CurrentToken(toks, st.idx).lexeme == "INTEGER" || CurrentToken(toks, st.idx).lexeme == "REAL") then
      var d := ParseDescr(toks, st);
      DescriptionsLoop(toks, d.st, acc + [d.node])
    else Kids(acc, st)
  }

  /** Descr -> Type VarList. */
  function ParseDescr(toks: seq<Token>, st: PState): (r: Parsed)
    requires st.idx <= |toks|
    ensures Advances(toks, st, r.st)
    ensures st.idx < |toks| ==> r.st.idx > st.idx
    ensures r.node.name == "Descr" && |r.node.children| == 2
    ensures r.node.children[0].name == "Type" && r.node.children[1].name == "VarList"
  {
    var t := ParseType(toks, st);
    var v := ParseVarList(toks, t.st);
    Parsed(Inner("Descr", [t.node, v.node]), v.st)
  }

  /** Type -> INTEGER | REAL. */
  function ParseType(toks: seq<Token>, st: PState): (r: Parsed)
    requires st.idx <= |toks|
    ensures Advances(toks, st, r.st)
    ensures st.idx < |toks| ==> r.st.idx > st.idx
    ensures r.node.name == "Type"
    ensures AtDeclaration(toks, st.idx) ==>
      r.st == st.(idx := st.idx + 1) &&
      r.node.children == [Leaf("KEYWORD", toks[st.idx].lexeme, toks[st.idx].line)]
    ensures !AtDeclaration(toks, st.idx) ==>
      r.node.children == [] && r.st == Error(toks, st, "Expected 'INTEGER' or 'REAL'")
  {
    var (okInt, i) := MatchKeyword(toks, st.idx, "INTEGER");
    if okInt then
      Parsed(Inner("Type", [Leaf("KEYWORD", "INTEGER", toks[i - 1].line)]), st.(idx := i))
    else
      var (okReal, j) := MatchKeyword(toks, st.idx, "REAL");
      if okReal then
        Parsed(Inner("Type", [Leaf("KEYWORD", "REAL", toks[j - 1].line)]), st.(idx := j))
      else
        Parsed(Inner("Type", []), Error(toks, st, "Expected 'INTEGER' or 'REAL'"))
  }

  /** VarList -> Id (, Id)*; a comma without an identifier ends the list with an error. */
  function ParseVarList(toks: seq<Token>, st: PState): (r: Parsed)
    requires st.idx <= |toks|
    ensures Advances(toks, st, r.st)
    ensures r.node.name == "VarList"
    ensures forall c :: c in r.node.children ==> c.name in {"IDENTIFIER", "COMMA"}
  {
    var (ok, i) := Match(toks, st.idx, Identifier);
    if ok then
      var k := VarListTail(toks, st.(idx := i), [TokenLeaf("IDENTIFIER", toks[i - 1])]);
      Parsed(Inner("VarList", k.nodes), k.st)
    else
      Parsed(Inner("VarList", []), Error(toks, st, "Expected identifier in variable list"))
  }

  function VarListTail(toks: seq<Token>, st: PState, acc: seq<Node>): (r: Kids)
    requires st.idx <= |toks|
    requires forall c :: c in acc ==> c.name in {"IDENTIFIER", "COMMA"}
    ensures Advances(toks, st, r.st)
    ensures acc <= r.nodes
    ensures forall c :: c in r.nodes ==> c.name in {"IDENTIFIER", "COMMA"}
    decreases |toks| - st.idx
  {
    var (ok, i) := Match(toks, st.idx, Comma);
    if ok then
      var withComma := acc + [Leaf("COMMA", ",", toks[i - 1].line)];
      var (okId, j) := Match(toks, i, Identifier);
      if okId then VarListTail(toks, st.(idx := j), withComma + [TokenLeaf("IDENTIFIER", toks[j - 1])])
      else Kids(withComma, Error(toks, st.(idx := i), "Expected identifier after comma"))
    else Kids(acc, st)
  }

  /** The current token can start a statement of the Operators loop: an identifier or CALL. */
  predicate AtOperator(toks: seq<Token>, i: nat) {
    i < |toks| &&
    !(toks[i].kind == Keyword && toks[i].lexeme == "END") &&
    (toks[i].kind == Identifier || (toks[i].kind == Keyword && toks[i].lexeme == "CALL"))
  }

  /** Operators -> Op*, while the current token is an identifier or CALL. */
  function ParseOperators(toks: seq<Token>, st: PState): (r: Parsed)
    requires st.idx <= |toks|
    ensures Advances(toks, st, r.st)
    ensures r.node.name == "Operators"
    ensures !AtOperator(toks, r.st.idx)
    ensures forall c :: c in r.node.children ==> c.name == "Op"
  {
    var k := OperatorsLoop(toks, st, []);
    Parsed(Inner("Operators", k.nodes), k.st)
  }

  function OperatorsLoop(toks: seq<Token>, st: PState, acc: seq<Node>): (r: Kids)
    requires st.idx <= |toks|
    requires forall c :: c in acc ==> c.name == "Op"
    ensures Advances(toks, st, r.st)
    ensures !AtOperator(toks, r.st.idx)
    ensures acc <= r.nodes
    ensures forall c :: c in r.nodes ==> c.name == "Op"
    decreases |toks| - st.idx
  {
    if AtOperator(toks, st.idx) then
      var op := ParseOp(toks, st);
      OperatorsLoop(toks, op.st, acc + [op.node])
    else Kids(acc, st)
  }

  /** Op -> Id = Expr | CALL Id ( Arguments ). Consumes at least one token when it starts at one. */
  function ParseOp(toks: seq<Token>, st: PState): (r: Parsed)
    requires st.idx <= |toks|
    ensures Advances(toks, st, r.st)
    ensures r.node.name == "Op"
    ensures AtOperator(toks, st.idx) ==> r.st.idx > st.idx
  {
    var cur := CurrentToken(toks, st.idx);
    if cur.kind == Identifier then ParseAssignment(toks, st)
    else if cur.kind == Keyword && cur.lexeme == "CALL" then ParseCall(toks, st)
    else Parsed(Inner("Op", []), st)
  }

  /** The assignment branch of `parseOp`: Id = Expr, with no second '=' after the expression. */
  function ParseAssignment(toks: seq<Token>, st: PState): (r: Parsed)
    requires st.idx < |toks| && toks[st.idx].kind == Identifier
    ensures Advances(toks, st, r.st) && r.st.idx > st.idx
    ensures r.node.name == "Op" && 1 <= |r.node.children| <= 3
    ensures r.node.children[0] == TokenLeaf("IDENTIFIER", toks[st.idx])
  {
    var cur := CurrentToken(toks, st.idx);
    var idNode := TokenLeaf("IDENTIFIER", cur);
    var i := NextIndex(toks, st.idx);
    var (ok, j) := Match(toks, i, Assign);
    if ok then
      var assign := Leaf("ASSIGN", "=", toks[j - 1].line);
      var e := ParseExpr(toks, st.(idx := j));
      var node := Inner("Op", [idNode, assign, e.node]);
      if e.st.idx < |toks| && CurrentToken(toks, e.st.idx).kind == Assign then
        Parsed(node, OpError(toks, e.st, "Unexpected '=' after expression"))
      else
        Parsed(node, e.st)
    else
      Parsed(Inner("Op", [idNode]), OpError(toks, st.(idx := i), "Expected '=' in assignment"))
  }

  /** The call branch of `parseOp`: CALL Id ( Arguments ). */
  function ParseCall(toks: seq<Token>, st: PState): (r: Parsed)
    requires st.idx < |toks| && toks[st.idx].kind == Keyword && toks[st.idx].lexeme == "CALL"
    ensures Advances(toks, st, r.st) && r.st.idx > st.idx
    ensures r.node.name == "Op" && 1 <= |r.node.children| <= 5
    ensures r.node.children[0] == Leaf("KEYWORD", "CALL", toks[st.idx].line)
  {
    var cur := CurrentToken(toks, st.idx);
    var callNode := Leaf("KEYWORD", "CALL", cur.line);
    var i := NextIndex(toks, st.idx);
    var (okId, j) := Match(toks, i, Identifier);
    if okId then
      var procNode := TokenLeaf("IDENTIFIER", toks[j - 1]);
      var (okL, l) := Match(toks, j, LParen);
      if okL then
        var lparen := Leaf("LPAREN", "(", toks[l - 1].line);
        var args := ParseCallArguments(toks, st.(idx := l));
        var (okR, m) := Match(toks, args.st.idx, RParen);
        if okR then
          Parsed(Inner("Op", [callNode, procNode, lparen, args.node, Leaf("RPAREN", ")", toks[m - 1].line)]),
                 args.st.(idx := m))
        else
          Parsed(Inner("Op", [callNode, procNode, lparen, args.node]),
                 OpError(toks, args.st, "Expected ')' after arguments"))
      else
        Parsed(Inner("Op", [callNode, procNode]), OpError(toks, st.(idx := j), "Expected '(' after CALL identifier"))
    else
      Parsed(Inner("Op", [callNode]), OpError(toks, st.(idx := i), "Expected identifier after CALL"))
  }

  /** Arguments -> empty | Expr (, Expr)*; the list is empty when ')' or the end is current. */
  function ParseCallArguments(toks: seq<Token>, st: PState): (r: Parsed)
    requires st.idx <= |toks|
    ensures Advances(toks, st, r.st)
    ensures r.node.name == "Arguments"
    ensures forall i :: 0 <= i < |r.node.children| ==>
      (if i % 2 == 0 then WellShapedExpr(r.node.children[i]) else r.node.children[i].name == "COMMA")
    ensures |r.node.children| % 2 == 1 || r.node.children == []
  {
    if st.idx < |toks| && CurrentToken(toks, st.idx).kind != RParen then
      var first := ParseExpr(toks, st);
      var k := ArgumentsTail(toks, first.st, [first.node]);
      Parsed(Inner("Arguments", k.nodes), k.st)
    else
      Parsed(Inner("Arguments", []), st)
  }

  function ArgumentsTail(toks: seq<Token>, st: PState, acc: seq<Node>): (r: Kids)
    requires st.idx <= |toks|
    requires |acc| % 2 == 1
    requires forall i :: 0 <= i < |acc| ==>
      (if i % 2 == 0 then WellShapedExpr(acc[i]) else acc[i].name == "COMMA")
    ensures Advances(toks, st, r.st)
    ensures acc <= r.nodes && |r.nodes| % 2 == 1
    ensures forall i :: 0 <= i < |r.nodes| ==>
      (if i % 2 == 0 then WellShapedExpr(r.nodes[i]) else r.nodes[i].name == "COMMA")
    decreases |toks| - st.idx
  {
    var (ok, i) := Match(toks, st.idx, Comma);
    if ok then
      var comma := Leaf("COMMA", ",", toks[i - 1].line);
      var e := ParseExpr(toks, st.(idx := i));
      ArgumentsTail(toks, e.st, acc + [comma, e.node])
    else Kids(acc, st)
  }

  // ---------------------------------------------------------------------
  // Expressions

  /** An operand leaf: an identifier or a constant. */
  predicate IsOperandLeaf(n: Node) {
    n.name in {"IDENTIFIER", "INTEGER", "REAL"} && n.children == []
  }

  /** An additive operator leaf. */
  predicate IsAddOpLeaf(n: Node) {
    ((n.name == "PLUS" && n.value == "+") || (n.name == "MINUS" && n.value == "-")) && n.children == []
  }

  /** Children of an Expr node: SimpleExpr, then (operator, SimpleExpr) pairs. */
  predicate ExprChildren(kids: seq<Node>)
    decreases kids, 1
  {
    |kids| % 2 == 1 && forall i :: 0 <= i < |kids| ==> ExprChildAt(kids, i)
  }

  /** Even positions hold operands, odd positions operators. */
  predicate ExprChildAt(kids: seq<Node>, i: int)
    requires 0 <= i < |kids|
    decreases kids, 0
  {
    if i % 2 == 0 then WellShapedSimple(kids[i]) else IsAddOpLeaf(kids[i])
  }

  /** An Expr node as the parser builds it. */
  predicate WellShapedExpr(n: Node)
    decreases n, 2
  {
    n.name == "Expr" && ExprChildren(n.children)
  }

  /**
    A SimpleExpr node as the parser builds it: empty after an error, one
    operand leaf, or '(' Expr with the ')' present unless it was missing.
   */
  predicate WellShapedSimple(n: Node)
    decreases n, 3
  {
    n.name == "SimpleExpr" &&
    (n.children == [] ||
     (|n.children| == 1 && IsOperandLeaf(n.children[0])) ||
     (2 <= |n.children| <= 3 && n.children[0].name == "LPAREN" && WellShapedExpr(n.children[1]) &&
      (|n.children| == 3 ==> n.children[2].name == "RPAREN")))
  }

  /** An operator and an operand extend a well-shaped Expr child list. */
  lemma ExprChildrenExtend(kids: seq<Node>, op: Node, operand: Node)
    requires ExprChildren(kids) && IsAddOpLeaf(op) && WellShapedSimple(operand)
    ensures ExprChildren(kids + [op, operand])
  {
    var all := kids + [op, operand];
    forall i | 0 <= i < |all|
      ensures ExprChildAt(all, i)
    {
      if i < |kids| {
        assert all[i] == kids[i] && ExprChildAt(kids, i);
      } else if i == |kids| {
        assert all[i] == op && i % 2 == 1;
      } else {
        assert all[i] == operand && i % 2 == 0;
      }
    }
  }

  /** Expr -> SimpleExpr ((+|-) SimpleExpr)*. */
  function ParseExpr(toks: seq<Token>, st: PState): (r: Parsed)
    requires st.idx <= |toks|
    ensures Advances(toks, st, r.st)
    ensures WellShapedExpr(r.node)
    decreases |toks| - st.idx, 3
  {
    var left := ParseSimpleExpr(toks, st);
    var k := ExprTail(toks, left.st, [left.node]);
    Parsed(Inner("Expr", k.nodes), k.st)
  }

  /** The operator loop of `parseExpr`: runs while '+' or '-' is current. */
  function ExprTail(toks: seq<Token>, st: PState, acc: seq<Node>): (r: Kids)
    requires st.idx <= |toks|
    requires ExprChildren(acc)
    ensures Advances(toks, st, r.st)
    ensures acc <= r.nodes
    ensures ExprChildren(r.nodes)
    ensures r.st.idx < |toks| ==> toks[r.st.idx].kind != Plus && toks[r.st.idx].kind != Minus
    decreases |toks| - st.idx, 2
  {
    if st.idx < |toks| && (CurrentToken(toks, st.idx).kind == Plus || CurrentToken(toks, st.idx).kind == Minus) then
      var op := OperatorLeaf(CurrentToken(toks, st.idx));
      var right := ParseSimpleExpr(toks, st.(idx := NextIndex(toks, st.idx)));
      ExprChildrenExtend(acc, op, right.node);
      ExprTail(toks, right.st, acc + [op, right.node])
    else Kids(acc, st)
  }

  /** The leaf of a '+' or '-' token: PLUS "+" or MINUS "-", on the token's line. */
  function OperatorLeaf(t: Token): (n: Node)
    requires t.kind == Plus || t.kind == Minus
    ensures IsAddOpLeaf(n) && n.line == t.line
    ensures n.name == KindName(t.kind)
  {
    if t.kind == Plus then Leaf("PLUS", "+", t.line) else Leaf("MINUS", "-", t.line)
  }

  /** SimpleExpr -> Id | Const | ( Expr ), with the three error messages of the source. */
  function ParseSimpleExpr(toks: seq<Token>, st: PState): (r: Parsed)
    requires st.idx <= |toks|
    ensures Advances(toks, st, r.st)
    ensures st.idx < |toks| ==> r.st.idx > st.idx
    ensures WellShapedSimple(r.node)
    ensures st.idx == |toks| ==>
      r.node.children == [] &&
      r.st.errors == st.errors + [ErrorMessage(toks, st.idx, "Unexpected end of input in expression")]
    ensures st.idx < |toks| && toks[st.idx].kind in {Plus, Minus, RParen, Comma} ==>
      r.node.children == [] &&
      r.st.errors == st.errors + [ErrorMessage(toks, st.idx, "Missing operand in expression")]
    ensures st.idx < |toks| && toks[st.idx].kind !in {Identifier, Integer, Real, LParen, Plus, Minus, RParen, Comma} ==>
      r.node.children == [] &&
      r.st.errors == st.errors + [ErrorMessage(toks, st.idx, "Expected identifier, constant, or '('")]
    ensures st.idx < |toks| && toks[st.idx].kind in {Identifier, Integer, Real} ==>
      r.st == st.(idx := st.idx + 1) && r.node.children == [TokenLeaf(KindName(toks[st.idx].kind), toks[st.idx])]
    decreases |toks| - st.idx, 1
  {
    if st.idx >= |toks| then
      Parsed(Inner("SimpleExpr", []), Error(toks, st, "Unexpected end of input in expression"))
    else
      var (okId, i) := Match(toks, st.idx, Identifier);
      if okId then Parsed(Inner("SimpleExpr", [TokenLeaf("IDENTIFIER", toks[i - 1])]), st.(idx := i))
      else
        var (okInt, j) := Match(toks, st.idx, Integer);
        if okInt then Parsed(Inner("SimpleExpr", [TokenLeaf("INTEGER", toks[j - 1])]), st.(idx := j))
        else
          var (okReal, k) := Match(toks, st.idx, Real);
          if okReal then Parsed(Inner("SimpleExpr", [TokenLeaf("REAL", toks[k - 1])]), st.(idx := k))
          else if CurrentToken(toks, st.idx).kind == LParen then ParseParenExpr(toks, st)
          else
            var token := CurrentToken(toks, st.idx);
            var msg :=
              if token.kind == Plus || token.kind == Minus || token.kind == RParen || token.kind == Comma
              then "Missing operand in expression"
              else "Expected identifier, constant, or '('";
            Parsed(Inner("SimpleExpr", []), ExprError(toks, st, msg))
  }

  /**
    The parenthesised branch of `parseSimpleExpr`: '(' Expr ')'. Without the
    ')' the node keeps '(' and the expression, and an error is added.
   */
  function ParseParenExpr(toks: seq<Token>, st: PState): (r: Parsed)
    requires st.idx < |toks| && toks[st.idx].kind == LParen
    ensures Advances(toks, st, r.st) && r.st.idx > st.idx
    ensures WellShapedSimple(r.node)
    ensures var e := ParseExpr(toks, st.(idx := st.idx + 1));
      e.st.idx < |toks| && toks[e.st.idx].kind == RParen ==>
        r == Parsed(Inner("SimpleExpr", [Leaf("LPAREN", "(", toks[st.idx].line), e.node, Leaf("RPAREN", ")", toks[e.st.idx].line)]),
                    e.st.(idx := e.st.idx + 1))
    ensures var e := ParseExpr(toks, st.(idx := st.idx + 1));
      !(e.st.idx < |toks| && toks[e.st.idx].kind == RParen) ==> |r.st.errors| > |st.errors|
    decreases |toks| - st.idx, 0
  {
    var lparen := Leaf("LPAREN", "(", toks[st.idx].line);
    var e := ParseExpr(toks, st.(idx := st.idx + 1));
    if e.st.idx < |toks| && toks[e.st.idx].kind == RParen then
      var rparen := Leaf("RPAREN", ")", toks[e.st.idx].line);
      ParenWellShaped([lparen, e.node, rparen]);
      Parsed(Inner("SimpleExpr", [lparen, e.node, rparen]), e.st.(idx := e.st.idx + 1))
    else
      ParenWellShaped([lparen, e.node]);
      Parsed(Inner("SimpleExpr", [lparen, e.node]), ExprError(toks, e.st, "Expected ')' after expression"))
  }

  /** '(' Expr, with or without the ')', is a well-shaped SimpleExpr. */
  lemma ParenWellShaped(kids: seq<Node>)
    requires 2 <= |kids| <= 3 && kids[0].name == "LPAREN" && WellShapedExpr(kids[1])
    requires |kids| == 3 ==> kids[2].name == "RPAREN"
    ensures WellShapedSimple(Inner("SimpleExpr", kids))
  {
  }

  /** End -> END Id. */
  function ParseEnd(toks: seq<Token>, st: PState): (r: Parsed)
    requires st.idx <= |toks|
    ensures Advances(toks, st, r.st)
    ensures r.node.name == "End"
    ensures |r.node.children| <= 2
    ensures r.node.children == [] <==> !(st.idx < |toks| && toks[st.idx].kind == Keyword && toks[st.idx].lexeme == "END")
    ensures |r.node.children| == 2 ==>
      (r.st == st.(idx := st.idx + 2) &&
       r.node.children[1] == TokenLeaf("IDENTIFIER", toks[st.idx + 1]) && toks[st.idx + 1].kind == Identifier)
  {
    var (ok, i) := MatchKeyword(toks, st.idx, "END");
    if ok then
      var endNode := Leaf("KEYWORD", "END", toks[i - 1].line);
      var (okId, j) := Match(toks, i, Identifier);
      if okId then Parsed(Inner("End", [endNode, TokenLeaf("IDENTIFIER", toks[j - 1])]), st.(idx := j))
      else Parsed(Inner("End", [endNode]), Error(toks, st.(idx := i), "Expected identifier after END"))
    else
      Parsed(Inner("End", []), Error(toks, st, "Expected 'END'"))
  }

  /** The syntax analysis of a token vector: the tree and the error list. */
  function Parse(toks: seq<Token>): (r: Parsed)
    ensures r.st.idx <= |toks|
  {
    ParseProgram(toks, PState(0, []))
  }
}
