/**
  Properties of the parser: the leaves of a tree parsed without errors
  spell out exactly the tokens it consumed, and the recovery paths report
  one message and resume at a statement start.
 */
module ParserFacts {
  import opened Text
  import opened Tokens
  import opened Ast
  import opened Parser

  /** Leaves carry token-kind names; grammar nodes carry production names. */
  predicate IsTokenLeaf(n: Node) {
    n.children == [] &&
    n.name in {"KEYWORD", "IDENTIFIER", "INTEGER", "REAL", "ASSIGN", "PLUS", "MINUS", "COMMA", "LPAREN", "RPAREN"}
  }

  /** The token leaves of a tree, left to right. */
  function Yield(n: Node): seq<Node>
    decreases n, 1
  {
    if IsTokenLeaf(n) then [n] else YieldAll(n.children)
  }

  function YieldAll(kids: seq<Node>): seq<Node>
    decreases kids, 0
  {
    if kids == [] then [] else Yield(kids[0]) + YieldAll(kids[1..])
  }

  lemma {:induction false} YieldAllAppend(a: seq<Node>, b: seq<Node>)
    ensures YieldAll(a + b) == YieldAll(a) + YieldAll(b)
    decreases |a|
  {
    if a == [] {
      assert a + b == b;
    } else {
      assert (a + b)[0] == a[0];
      assert (a + b)[1..] == a[1..] + b;
      YieldAllAppend(a[1..], b);
    }
  }

  lemma YieldAllSingle(x: Node)
    ensures YieldAll([x]) == Yield(x)
  {
    assert [x][1..] == [];
  }

  /** A leaf stands for a token: same kind, same line, and the token's text for words and constants. */
  predicate Spells(leaf: Node, t: Token) {
    leaf.children == [] && leaf.name == KindName(t.kind) && leaf.line == t.line &&
    (t.kind in {Keyword, Identifier, Integer, Real} ==> leaf.value == t.lexeme)
  }

  predicate Corresponds(leaves: seq<Node>, ts: seq<Token>) {
    |leaves| == |ts| && forall i :: 0 <= i < |ts| ==> Spells(leaves[i], ts[i])
  }

  lemma CorrespondsAppend(a: seq<Node>, ta: seq<Token>, b: seq<Node>, tb: seq<Token>)
    requires Corresponds(a, ta) && Corresponds(b, tb)
    ensures Corresponds(a + b, ta + tb)
  {
    forall i | 0 <= i < |ta + tb|
      ensures Spells((a + b)[i], (ta + tb)[i])
    {
      if i < |ta| {
        assert (a + b)[i] == a[i] && (ta + tb)[i] == ta[i];
      } else {
        assert (a + b)[i] == b[i - |a|] && (ta + tb)[i] == tb[i - |ta|];
      }
    }
  }

  /** Consecutive stretches of the token vector: yields of consecutive children concatenate. */
  lemma CorrespondsJoin(toks: seq<Token>, i: nat, j: nat, k: nat, a: seq<Node>, b: seq<Node>)
    requires i <= j <= k <= |toks|
    requires Corresponds(a, toks[i..j]) && Corresponds(b, toks[j..k])
    ensures Corresponds(a + b, toks[i..k])
  {
    assert toks[i..j] + toks[j..k] == toks[i..k];
    CorrespondsAppend(a, toks[i..j], b, toks[j..k]);
  }

  /** A leaf built from the one token consumed. */
  lemma LeafSpellsToken(toks: seq<Token>, i: nat, leaf: Node)
    requires i < |toks| && Spells(leaf, toks[i]) && IsTokenLeaf(leaf)
    ensures Corresponds(YieldAll([leaf]), toks[i..i + 1])
  {
    YieldAllSingle(leaf);
  }

  /** Errors only grow, so equal ends mean every step in between added none. */
  lemma NoErrorsBetween(a: seq<string>, b: seq<string>, c: seq<string>)
    requires a <= b <= c && a == c
    ensures a == b
  {
  }

  /** Leaves built from consecutive tokens spell exactly those tokens. */
  lemma {:induction false} LeavesCorrespond(toks: seq<Token>, i: nat, leaves: seq<Node>)
    requires i + |leaves| <= |toks|
    requires forall k :: 0 <= k < |leaves| ==> IsTokenLeaf(leaves[k]) && Spells(leaves[k], toks[i + k])
    ensures Corresponds(YieldAll(leaves), toks[i..i + |leaves|])
    decreases |leaves|
  {
    if leaves != [] {
      var rest := leaves[1..];
      forall k | 0 <= k < |rest|
        ensures IsTokenLeaf(rest[k]) && Spells(rest[k], toks[i + 1 + k])
      {
        assert rest[k] == leaves[k + 1];
      }
      LeavesCorrespond(toks, i + 1, rest);
      assert YieldAll(leaves) == Yield(leaves[0]) + YieldAll(rest);
      LeafCorresponds(toks, i, leaves[0]);
      CorrespondsJoin(toks, i, i + 1, i + |leaves|, Yield(leaves[0]), YieldAll(rest));
    }
  }

  /** Appending an operator leaf and an operand extends the correspondence by their tokens. */
  lemma TailStepCorresponds(toks: seq<Token>, from: nat, i: nat, j: nat, acc: seq<Node>, operand: Node)
    requires from <= i < j <= |toks| && (toks[i].kind == Plus || toks[i].kind == Minus)
    requires Corresponds(YieldAll(acc), toks[from..i])
    requires Corresponds(Yield(operand), toks[i + 1..j])
    ensures Corresponds(YieldAll(acc + [OperatorLeaf(toks[i]), operand]), toks[from..j])
  {
    var op := OperatorLeaf(toks[i]);
    LeafCorresponds(toks, i, op);
    CorrespondsSnoc(toks, from, i, i + 1, acc, op);
    CorrespondsSnoc(toks, from, i + 1, j, acc + [op], operand);
    assert acc + [op] + [operand] == acc + [op, operand];
  }

  /** '(' Expr ')' spells its three stretches of tokens. */
  lemma ParenCorresponds(toks: seq<Token>, i: nat, j: nat, lparen: Node, e: Node, rparen: Node)
    requires i < j < |toks|
    requires IsTokenLeaf(lparen) && Spells(lparen, toks[i])
    requires Corresponds(Yield(e), toks[i + 1..j])
    requires IsTokenLeaf(rparen) && Spells(rparen, toks[j])
    ensures Corresponds(YieldAll([lparen, e, rparen]), toks[i..j + 1])
  {
    LeavesCorrespond(toks, i, [lparen]);
    CorrespondsSnoc(toks, i, i + 1, j, [lparen], e);
    LeafCorresponds(toks, j, rparen);
    CorrespondsSnoc(toks, i, j, j + 1, [lparen] + [e], rparen);
    assert [lparen] + [e] + [rparen] == [lparen, e, rparen];
  }

  /** Without a syntax error, an expression's leaves spell exactly the tokens it consumed. */
  lemma {:induction false} ExprYield(toks: seq<Token>, st: PState)
    requires st.idx <= |toks|
    ensures ParseExpr(toks, st).st.errors == st.errors ==>
      Corresponds(Yield(ParseExpr(toks, st).node), toks[st.idx..ParseExpr(toks, st).st.idx])
    decreases |toks| - st.idx, 3
  {
    var left := ParseSimpleExpr(toks, st);
    var k := ExprTail(toks, left.st, [left.node]);
    var r := ParseExpr(toks, st);
    if r.st.errors == st.errors {
      NoErrorsBetween(st.errors, left.st.errors, r.st.errors);
      SimpleYield(toks, st);
      YieldAllSingle(left.node);
      ExprTailYield(toks, left.st, [left.node], st.idx);
      assert Yield(r.node) == YieldAll(k.nodes);
    }
  }

  lemma {:induction false} ExprTailYield(toks: seq<Token>, st: PState, acc: seq<Node>, from: nat)
    requires from <= st.idx <= |toks|
    requires ExprChildren(acc)
    requires Corresponds(YieldAll(acc), toks[from..st.idx])
    ensures ExprTail(toks, st, acc).st.errors == st.errors ==>
      Corresponds(YieldAll(ExprTail(toks, st, acc).nodes), toks[from..ExprTail(toks, st, acc).st.idx])
    decreases |toks| - st.idx, 2
  {
    var r := ExprTail(toks, st, acc);
    if r.st.errors == st.errors &&
       st.idx < |toks| && (toks[st.idx].kind == Plus || toks[st.idx].kind == Minus) {
      var op := OperatorLeaf(toks[st.idx]);
      var st1 := st.(idx := st.idx + 1);
      var right := ParseSimpleExpr(toks, st1);
      ExprTailUnfold(toks, st, acc);
      NoErrorsBetween(st.errors, right.st.errors, r.st.errors);
      SimpleYield(toks, st1);
      TailStepCorresponds(toks, from, st.idx, right.st.idx, acc, right.node);
      ExprTailYield(toks, right.st, acc + [op, right.node], from);
    }
  }

  /** One round of the operator loop: the operator leaf and the next operand join the children. */
  lemma ExprTailUnfold(toks: seq<Token>, st: PState, acc: seq<Node>)
    requires st.idx < |toks| && (toks[st.idx].kind == Plus || toks[st.idx].kind == Minus)
    requires ExprChildren(acc)
    ensures var right := ParseSimpleExpr(toks, st.(idx := st.idx + 1));
      ExprChildren(acc + [OperatorLeaf(toks[st.idx]), right.node]) &&
      ExprTail(toks, st, acc) == ExprTail(toks, right.st, acc + [OperatorLeaf(toks[st.idx]), right.node])
  {
    var right := ParseSimpleExpr(toks, st.(idx := st.idx + 1));
    ExprChildrenExtend(acc, OperatorLeaf(toks[st.idx]), right.node);
  }

  lemma {:induction false} SimpleYield(toks: seq<Token>, st: PState)
    requires st.idx <= |toks|
    ensures ParseSimpleExpr(toks, st).st.errors == st.errors ==>
      Corresponds(Yield(ParseSimpleExpr(toks, st).node), toks[st.idx..ParseSimpleExpr(toks, st).st.idx])
    decreases |toks| - st.idx, 1
  {
    var r := ParseSimpleExpr(toks, st);
    if r.st.errors == st.errors {
      var t := toks[st.idx];
      if t.kind in {Identifier, Integer, Real} {
        LeafSpellsToken(toks, st.idx, r.node.children[0]);
      } else {
        ParenYield(toks, st);
      }
    }
  }

  lemma {:induction false} ParenYield(toks: seq<Token>, st: PState)
    requires st.idx < |toks| && toks[st.idx].kind == LParen
    ensures ParseSimpleExpr(toks, st).st.errors == st.errors ==>
      Corresponds(Yield(ParseSimpleExpr(toks, st).node), toks[st.idx..ParseSimpleExpr(toks, st).st.idx])
    decreases |toks| - st.idx, 0
  {
    var r := ParseSimpleExpr(toks, st);
    var st1 := st.(idx := st.idx + 1);
    var e := ParseExpr(toks, st1);
    assert r == ParseParenExpr(toks, st);
    if r.st.errors == st.errors && e.st.idx < |toks| && toks[e.st.idx].kind == RParen {
      var lparen := Leaf("LPAREN", "(", toks[st.idx].line);
      var rparen := Leaf("RPAREN", ")", toks[e.st.idx].line);
      NoErrorsBetween(st.errors, e.st.errors, r.st.errors);
      ExprYield(toks, st1);
      ParenCorresponds(toks, st.idx, e.st.idx, lparen, e.node, rparen);
      InnerYield("SimpleExpr", [lparen, e.node, rparen]);
    }
  }


  // ---------------------------------------------------------------------
  // Whole programs

  lemma CorrespondsSnoc(toks: seq<Token>, from: nat, mid: nat, to: nat, acc: seq<Node>, x: Node)
    requires from <= mid <= to <= |toks|
    requires Corresponds(YieldAll(acc), toks[from..mid]) && Corresponds(Yield(x), toks[mid..to])
    ensures Corresponds(YieldAll(acc + [x]), toks[from..to])
  {
    YieldAllAppend(acc, [x]);
    YieldAllSingle(x);
    CorrespondsJoin(toks, from, mid, to, YieldAll(acc), Yield(x));
  }

  lemma LeafCorresponds(toks: seq<Token>, i: nat, leaf: Node)
    requires i < |toks| && IsTokenLeaf(leaf) && Spells(leaf, toks[i])
    ensures Corresponds(Yield(leaf), toks[i..i + 1])
  {
  }

  lemma EmptyCorresponds(toks: seq<Token>, i: nat)
    requires i <= |toks|
    ensures Corresponds(YieldAll([]), toks[i..i])
  {
  }

  /** A grammar node contributes exactly its children's leaves. */
  lemma InnerYield(name: string, kids: seq<Node>)
    requires name in {"Program", "Begin", "Descriptions", "Descr", "Type", "VarList", "Operators", "Op",
                      "Arguments", "Expr", "SimpleExpr", "End"}
    ensures Yield(Inner(name, kids)) == YieldAll(kids)
  {
  }

  /** A grammar node whose only child is the leaf of one token. */
  lemma SingleLeafNode(toks: seq<Token>, i: nat, name: string, leaf: Node)
    requires i < |toks| && IsTokenLeaf(leaf) && Spells(leaf, toks[i])
    requires name in {"Type", "SimpleExpr"}
    ensures Corresponds(Yield(Inner(name, [leaf])), toks[i..i + 1])
  {
    InnerYield(name, [leaf]);
    YieldAllSingle(leaf);
  }

  lemma {:induction false} TypeYield(toks: seq<Token>, st: PState)
    requires st.idx <= |toks|
    ensures ParseType(toks, st).st.errors == st.errors ==>
      Corresponds(Yield(ParseType(toks, st).node), toks[st.idx..ParseType(toks, st).st.idx])
  {
    var r := ParseType(toks, st);
    if r.st.errors == st.errors {
      assert AtDeclaration(toks, st.idx);
      SingleLeafNode(toks, st.idx, "Type", r.node.children[0]);
    }
  }

  lemma {:induction false} VarListYield(toks: seq<Token>, st: PState)
    requires st.idx <= |toks|
    ensures ParseVarList(toks, st).st.errors == st.errors ==>
      Corresponds(Yield(ParseVarList(toks, st).node), toks[st.idx..ParseVarList(toks, st).st.idx])
  {
    var r := ParseVarList(toks, st);
    if r.st.errors == st.errors {
      assert st.idx < |toks| && toks[st.idx].kind == Identifier;
      var id := TokenLeaf("IDENTIFIER", toks[st.idx]);
      var k := VarListTail(toks, st.(idx := st.idx + 1), [id]);
      assert r == Parsed(Inner("VarList", k.nodes), k.st);
      LeafCorresponds(toks, st.idx, id);
      EmptyCorresponds(toks, st.idx);
      CorrespondsSnoc(toks, st.idx, st.idx, st.idx + 1, [], id);
      assert [] + [id] == [id];
      VarListTailYield(toks, st.(idx := st.idx + 1), [id], st.idx);
      InnerYield("VarList", k.nodes);
    }
  }

  lemma {:induction false} VarListTailYield(toks: seq<Token>, st: PState, acc: seq<Node>, from: nat)
    requires from <= st.idx <= |toks|
    requires forall c :: c in acc ==> c.name in {"IDENTIFIER", "COMMA"}
    requires Corresponds(YieldAll(acc), toks[from..st.idx])
    ensures VarListTail(toks, st, acc).st.errors == st.errors ==>
      Corresponds(YieldAll(VarListTail(toks, st, acc).nodes), toks[from..VarListTail(toks, st, acc).st.idx])
    decreases |toks| - st.idx
  {
    var r := VarListTail(toks, st, acc);
    if r.st.errors == st.errors && st.idx < |toks| && toks[st.idx].kind == Comma {
      VarListTailUnfold(toks, st, acc);
      var acc' := acc + [Leaf("COMMA", ",", toks[st.idx].line)] + [TokenLeaf("IDENTIFIER", toks[st.idx + 1])];
      CommaIdCorresponds(toks, from, st.idx, acc);
      VarListTailYield(toks, st.(idx := st.idx + 2), acc', from);
    }
  }

  /** A comma must be followed by an identifier, or an error is added; with it the loop goes on after both. */
  lemma VarListTailUnfold(toks: seq<Token>, st: PState, acc: seq<Node>)
    requires st.idx < |toks| && toks[st.idx].kind == Comma
    requires forall c :: c in acc ==> c.name in {"IDENTIFIER", "COMMA"}
    ensures !(st.idx + 1 < |toks| && toks[st.idx + 1].kind == Identifier) ==>
      |VarListTail(toks, st, acc).st.errors| > |st.errors|
    ensures st.idx + 1 < |toks| && toks[st.idx + 1].kind == Identifier ==>
      VarListTail(toks, st, acc) ==
        VarListTail(toks, st.(idx := st.idx + 2),
                    acc + [Leaf("COMMA", ",", toks[st.idx].line)] + [TokenLeaf("IDENTIFIER", toks[st.idx + 1])])
  {
  }

  /** A comma and an identifier extend the correspondence by their two tokens. */
  lemma CommaIdCorresponds(toks: seq<Token>, from: nat, i: nat, acc: seq<Node>)
    requires from <= i && i + 1 < |toks| && toks[i].kind == Comma && toks[i + 1].kind == Identifier
    requires Corresponds(YieldAll(acc), toks[from..i])
    ensures Corresponds(YieldAll(acc + [Leaf("COMMA", ",", toks[i].line)] + [TokenLeaf("IDENTIFIER", toks[i + 1])]),
                        toks[from..i + 2])
  {
    var comma := Leaf("COMMA", ",", toks[i].line);
    var id := TokenLeaf("IDENTIFIER", toks[i + 1]);
    LeafCorresponds(toks, i, comma);
    LeafCorresponds(toks, i + 1, id);
    CorrespondsSnoc(toks, from, i, i + 1, acc, comma);
    CorrespondsSnoc(toks, from, i + 1, i + 2, acc + [comma], id);
  }

  lemma {:induction false} DescrYield(toks: seq<Token>, st: PState)
    requires st.idx <= |toks|
    ensures ParseDescr(toks, st).st.errors == st.errors ==>
      Corresponds(Yield(ParseDescr(toks, st).node), toks[st.idx..ParseDescr(toks, st).st.idx])
  {
    var r := ParseDescr(toks, st);
    if r.st.errors == st.errors {
      var t := ParseType(toks, st);
      var v := ParseVarList(toks, t.st);
      NoErrorsBetween(st.errors, t.st.errors, r.st.errors);
      TypeYield(toks, st);
      VarListYield(toks, t.st);
      EmptyCorresponds(toks, st.idx);
      CorrespondsSnoc(toks, st.idx, st.idx, t.st.idx, [], t.node);
      CorrespondsSnoc(toks, st.idx, t.st.idx, v.st.idx, [] + [t.node], v.node);
      assert [] + [t.node] + [v.node] == [t.node, v.node];
      InnerYield("Descr", [t.node, v.node]);
    }
  }

  lemma {:induction false} DescriptionsLoopYield(toks: seq<Token>, st: PState, acc: seq<Node>, from: nat)
    requires from <= st.idx <= |toks|
    requires forall c :: c in acc ==> c.name == "Descr"
    requires Corresponds(YieldAll(acc), toks[from..st.idx])
    ensures DescriptionsLoop(toks, st, acc).st.errors == st.errors ==>
      Corresponds(YieldAll(DescriptionsLoop(toks, st, acc).nodes), toks[from..DescriptionsLoop(toks, st, acc).st.idx])
    decreases |toks| - st.idx
  {
    var r := DescriptionsLoop(toks, st, acc);
    if r.st.errors == st.errors && AtDeclaration(toks, st.idx) {
      var d := ParseDescr(toks, st);
      assert r == DescriptionsLoop(toks, d.st, acc + [d.node]);
      NoErrorsBetween(st.errors, d.st.errors, r.st.errors);
      DescrYield(toks, st);
      CorrespondsSnoc(toks, from, st.idx, d.st.idx, acc, d.node);
      DescriptionsLoopYield(toks, d.st, acc + [d.node], from);
    }
  }

  lemma {:induction false} DescriptionsYield(toks: seq<Token>, st: PState)
    requires st.idx <= |toks|
    ensures ParseDescriptions(toks, st).st.errors == st.errors ==>
      Corresponds(Yield(ParseDescriptions(toks, st).node), toks[st.idx..ParseDescriptions(toks, st).st.idx])
  {
    EmptyCorresponds(toks, st.idx);
    DescriptionsLoopYield(toks, st, [], st.idx);
    InnerYield("Descriptions", DescriptionsLoop(toks, st, []).nodes);
  }

  lemma {:induction false} ArgumentsTailYield(toks: seq<Token>, st: PState, acc: seq<Node>, from: nat)
    requires from <= st.idx <= |toks|
    requires |acc| % 2 == 1
    requires forall i :: 0 <= i < |acc| ==>
      (if i % 2 == 0 then WellShapedExpr(acc[i]) else acc[i].name == "COMMA")
    requires Corresponds(YieldAll(acc), toks[from..st.idx])
    ensures ArgumentsTail(toks, st, acc).st.errors == st.errors ==>
      Corresponds(YieldAll(ArgumentsTail(toks, st, acc).nodes), toks[from..ArgumentsTail(toks, st, acc).st.idx])
    decreases |toks| - st.idx
  {
    var r := ArgumentsTail(toks, st, acc);
    if r.st.errors == st.errors && st.idx < |toks| && toks[st.idx].kind == Comma {
      var comma := Leaf("COMMA", ",", toks[st.idx].line);
      var e := ParseExpr(toks, st.(idx := st.idx + 1));
      var acc' := acc + [comma, e.node];
      ArgumentsTailUnfold(toks, st, acc);
      NoErrorsBetween(st.errors, e.st.errors, r.st.errors);
      ExprYield(toks, st.(idx := st.idx + 1));
      CommaExprCorresponds(toks, from, st.idx, e.st.idx, acc, e.node);
      ArgumentsTailYield(toks, e.st, acc', from);
    }
  }

  /** One round of the argument loop: the comma and the next expression join the list. */
  lemma ArgumentsTailUnfold(toks: seq<Token>, st: PState, acc: seq<Node>)
    requires st.idx < |toks| && toks[st.idx].kind == Comma
    requires |acc| % 2 == 1
    requires forall i :: 0 <= i < |acc| ==>
      (if i % 2 == 0 then WellShapedExpr(acc[i]) else acc[i].name == "COMMA")
    ensures var e := ParseExpr(toks, st.(idx := st.idx + 1));
      var acc' := acc + [Leaf("COMMA", ",", toks[st.idx].line), e.node];
      |acc'| % 2 == 1 &&
      (forall i :: 0 <= i < |acc'| ==> (if i % 2 == 0 then WellShapedExpr(acc'[i]) else acc'[i].name == "COMMA")) &&
      ArgumentsTail(toks, st, acc) == ArgumentsTail(toks, e.st, acc')
  {
    var e := ParseExpr(toks, st.(idx := st.idx + 1));
    ArgumentsExtend(acc, Leaf("COMMA", ",", toks[st.idx].line), e.node);
  }

  /** A comma and a well-shaped expression extend an argument list. */
  lemma ArgumentsExtend(acc: seq<Node>, comma: Node, e: Node)
    requires |acc| % 2 == 1
    requires forall i :: 0 <= i < |acc| ==>
      (if i % 2 == 0 then WellShapedExpr(acc[i]) else acc[i].name == "COMMA")
    requires comma.name == "COMMA" && WellShapedExpr(e)
    ensures var acc' := acc + [comma, e];
      |acc'| % 2 == 1 &&
      forall i :: 0 <= i < |acc'| ==> (if i % 2 == 0 then WellShapedExpr(acc'[i]) else acc'[i].name == "COMMA")
  {
    var acc' := acc + [comma, e];
    forall i | 0 <= i < |acc'|
      ensures if i % 2 == 0 then WellShapedExpr(acc'[i]) else acc'[i].name == "COMMA"
    {
      if i < |acc| {
        assert acc'[i] == acc[i];
      }
    }
  }

  /** A comma and an argument expression extend the correspondence by their tokens. */
  lemma CommaExprCorresponds(toks: seq<Token>, from: nat, i: nat, j: nat, acc: seq<Node>, e: Node)
    requires from <= i < j <= |toks| && toks[i].kind == Comma
    requires Corresponds(YieldAll(acc), toks[from..i])
    requires Corresponds(Yield(e), toks[i + 1..j])
    ensures Corresponds(YieldAll(acc + [Leaf("COMMA", ",", toks[i].line), e]), toks[from..j])
  {
    var comma := Leaf("COMMA", ",", toks[i].line);
    LeafCorresponds(toks, i, comma);
    CorrespondsSnoc(toks, from, i, i + 1, acc, comma);
    CorrespondsSnoc(toks, from, i + 1, j, acc + [comma], e);
    assert acc + [comma] + [e] == acc + [comma, e];
  }

  lemma {:induction false} ArgumentsYield(toks: seq<Token>, st: PState)
    requires st.idx <= |toks|
    ensures ParseCallArguments(toks, st).st.errors == st.errors ==>
      Corresponds(Yield(ParseCallArguments(toks, st).node), toks[st.idx..ParseCallArguments(toks, st).st.idx])
  {
    if st.idx < |toks| && toks[st.idx].kind != RParen {
      SomeArgumentsYield(toks, st);
    } else {
      EmptyCorresponds(toks, st.idx);
      InnerYield("Arguments", []);
    }
  }

  lemma {:induction false} SomeArgumentsYield(toks: seq<Token>, st: PState)
    requires st.idx < |toks| && toks[st.idx].kind != RParen
    ensures ParseCallArguments(toks, st).st.errors == st.errors ==>
      Corresponds(Yield(ParseCallArguments(toks, st).node), toks[st.idx..ParseCallArguments(toks, st).st.idx])
  {
    var r := ParseCallArguments(toks, st);
    var first := ParseExpr(toks, st);
    var k := ArgumentsTail(toks, first.st, [first.node]);
    assert r == Parsed(Inner("Arguments", k.nodes), k.st);
    if r.st.errors == st.errors {
      NoErrorsBetween(st.errors, first.st.errors, r.st.errors);
      ExprYield(toks, st);
      EmptyCorresponds(toks, st.idx);
      CorrespondsSnoc(toks, st.idx, st.idx, first.st.idx, [], first.node);
      assert [] + [first.node] == [first.node];
      ArgumentsTailYield(toks, first.st, [first.node], st.idx);
      InnerYield("Arguments", k.nodes);
    }
  }

  lemma {:induction false} AssignYield(toks: seq<Token>, st: PState)
    requires st.idx < |toks| && toks[st.idx].kind == Identifier
    ensures ParseAssignment(toks, st).st.errors == st.errors ==>
      Corresponds(Yield(ParseAssignment(toks, st).node), toks[st.idx..ParseAssignment(toks, st).st.idx])
  {
    var r := ParseAssignment(toks, st);
    if r.st.errors == st.errors {
      var id := TokenLeaf("IDENTIFIER", toks[st.idx]);
      assert st.idx + 1 < |toks| && toks[st.idx + 1].kind == Assign;
      var assign := Leaf("ASSIGN", "=", toks[st.idx + 1].line);
      var e := ParseExpr(toks, st.(idx := st.idx + 2));
      assert r == Parsed(Inner("Op", [id, assign, e.node]), e.st);
      ExprYield(toks, st.(idx := st.idx + 2));
      LeafCorresponds(toks, st.idx, id);
      LeafCorresponds(toks, st.idx + 1, assign);
      EmptyCorresponds(toks, st.idx);
      CorrespondsSnoc(toks, st.idx, st.idx, st.idx + 1, [], id);
      CorrespondsSnoc(toks, st.idx, st.idx + 1, st.idx + 2, [] + [id], assign);
      CorrespondsSnoc(toks, st.idx, st.idx + 2, e.st.idx, [] + [id] + [assign], e.node);
      assert [] + [id] + [assign] + [e.node] == [id, assign, e.node];
      InnerYield("Op", [id, assign, e.node]);
    }
  }

  /** CALL Id ( Arguments ) spells its five stretches of tokens. */
  lemma CallCorresponds(toks: seq<Token>, i: nat, j: nat, args: Node)
    requires i + 3 <= j < |toks|
    requires toks[i].kind == Keyword && toks[i].lexeme == "CALL"
    requires toks[i + 1].kind == Identifier && toks[i + 2].kind == LParen && toks[j].kind == RParen
    requires Corresponds(Yield(args), toks[i + 3..j])
    ensures Corresponds(Yield(Inner("Op", [Leaf("KEYWORD", "CALL", toks[i].line), TokenLeaf("IDENTIFIER", toks[i + 1]),
                                            Leaf("LPAREN", "(", toks[i + 2].line), args,
                                            Leaf("RPAREN", ")", toks[j].line)])),
                        toks[i..j + 1])
  {
    var call := Leaf("KEYWORD", "CALL", toks[i].line);
    var proc := TokenLeaf("IDENTIFIER", toks[i + 1]);
    var lparen := Leaf("LPAREN", "(", toks[i + 2].line);
    var rparen := Leaf("RPAREN", ")", toks[j].line);
    CallHeadCorresponds(toks, i, call, proc, lparen);
    CorrespondsSnoc(toks, i, i + 3, j, [call, proc, lparen], args);
    LeafCorresponds(toks, j, rparen);
    CorrespondsSnoc(toks, i, j, j + 1, [call, proc, lparen] + [args], rparen);
    assert [call, proc, lparen] + [args] + [rparen] == [call, proc, lparen, args, rparen];
    InnerYield("Op", [call, proc, lparen, args, rparen]);
  }

  lemma CallHeadCorresponds(toks: seq<Token>, i: nat, call: Node, proc: Node, lparen: Node)
    requires i + 3 <= |toks|
    requires IsTokenLeaf(call) && Spells(call, toks[i])
    requires IsTokenLeaf(proc) && Spells(proc, toks[i + 1])
    requires IsTokenLeaf(lparen) && Spells(lparen, toks[i + 2])
    ensures Corresponds(YieldAll([call, proc, lparen]), toks[i..i + 3])
  {
    LeavesCorrespond(toks, i, [call, proc, lparen]);
  }

  /** A call parsed without errors is CALL, the name, '(', the arguments and ')'. */
  lemma CallWithoutErrors(toks: seq<Token>, st: PState)
    requires st.idx < |toks| && toks[st.idx].kind == Keyword && toks[st.idx].lexeme == "CALL"
    requires ParseCall(toks, st).st.errors == st.errors
    ensures st.idx + 2 < |toks| && toks[st.idx + 1].kind == Identifier && toks[st.idx + 2].kind == LParen
    ensures var args := ParseCallArguments(toks, st.(idx := st.idx + 3));
      args.st.idx < |toks| && toks[args.st.idx].kind == RParen &&
      args.st.errors == st.errors &&
      ParseCall(toks, st) ==
        Parsed(Inner("Op", [Leaf("KEYWORD", "CALL", toks[st.idx].line), TokenLeaf("IDENTIFIER", toks[st.idx + 1]),
                            Leaf("LPAREN", "(", toks[st.idx + 2].line), args.node,
                            Leaf("RPAREN", ")", toks[args.st.idx].line)]),
               args.st.(idx := args.st.idx + 1))
  {
    CallErrorBranches(toks, st);
    CallComplete(toks, st);
  }

  /** With the name, '(' and ')' all present, the call node has its five children. */
  lemma CallComplete(toks: seq<Token>, st: PState)
    requires st.idx < |toks| && toks[st.idx].kind == Keyword && toks[st.idx].lexeme == "CALL"
    requires st.idx + 2 < |toks| && toks[st.idx + 1].kind == Identifier && toks[st.idx + 2].kind == LParen
    requires var args := ParseCallArguments(toks, st.(idx := st.idx + 3));
      args.st.idx < |toks| && toks[args.st.idx].kind == RParen
    ensures var args := ParseCallArguments(toks, st.(idx := st.idx + 3));
      ParseCall(toks, st) ==
        Parsed(Inner("Op", [Leaf("KEYWORD", "CALL", toks[st.idx].line), TokenLeaf("IDENTIFIER", toks[st.idx + 1]),
                            Leaf("LPAREN", "(", toks[st.idx + 2].line), args.node,
                            Leaf("RPAREN", ")", toks[args.st.idx].line)]),
               args.st.(idx := args.st.idx + 1))
  {
  }

  /** Each missing piece of a call (name, '(' or ')') adds an error. */
  lemma CallErrorBranches(toks: seq<Token>, st: PState)
    requires st.idx < |toks| && toks[st.idx].kind == Keyword && toks[st.idx].lexeme == "CALL"
    ensures !(st.idx + 2 < |toks| && toks[st.idx + 1].kind == Identifier && toks[st.idx + 2].kind == LParen) ==>
      |ParseCall(toks, st).st.errors| > |st.errors|
    ensures st.idx + 2 < |toks| && toks[st.idx + 1].kind == Identifier && toks[st.idx + 2].kind == LParen ==>
      var args := ParseCallArguments(toks, st.(idx := st.idx + 3));
      !(args.st.idx < |toks| && toks[args.st.idx].kind == RParen) ==> |ParseCall(toks, st).st.errors| > |st.errors|
  {
    CallHeadMissing(toks, st);
    if st.idx + 2 < |toks| && toks[st.idx + 1].kind == Identifier && toks[st.idx + 2].kind == LParen {
      CallCloseMissing(toks, st);
    }
  }

  /** A call without its name or '(' adds an error. */
  lemma CallHeadMissing(toks: seq<Token>, st: PState)
    requires st.idx < |toks| && toks[st.idx].kind == Keyword && toks[st.idx].lexeme == "CALL"
    ensures !(st.idx + 2 < |toks| && toks[st.idx + 1].kind == Identifier && toks[st.idx + 2].kind == LParen) ==>
      |ParseCall(toks, st).st.errors| > |st.errors|
  {
  }

  /** A call whose arguments are not followed by ')' adds an error. */
  lemma CallCloseMissing(toks: seq<Token>, st: PState)
    requires st.idx < |toks| && toks[st.idx].kind == Keyword && toks[st.idx].lexeme == "CALL"
    requires st.idx + 2 < |toks| && toks[st.idx + 1].kind == Identifier && toks[st.idx + 2].kind == LParen
    ensures var args := ParseCallArguments(toks, st.(idx := st.idx + 3));
      !(args.st.idx < |toks| && toks[args.st.idx].kind == RParen) ==> |ParseCall(toks, st).st.errors| > |st.errors|
  {
  }

  lemma {:induction false} CallYield(toks: seq<Token>, st: PState)
    requires st.idx < |toks| && toks[st.idx].kind == Keyword && toks[st.idx].lexeme == "CALL"
    ensures ParseCall(toks, st).st.errors == st.errors ==>
      Corresponds(Yield(ParseCall(toks, st).node), toks[st.idx..ParseCall(toks, st).st.idx])
  {
    if ParseCall(toks, st).st.errors == st.errors {
      CallWithoutErrors(toks, st);
      var args := ParseCallArguments(toks, st.(idx := st.idx + 3));
      ArgumentsYield(toks, st.(idx := st.idx + 3));
      CallNodeCorresponds(toks, st.idx, ParseCall(toks, st), args);
    }
  }

  /** A call node built around arguments that spell their tokens spells the whole call. */
  lemma CallNodeCorresponds(toks: seq<Token>, i: nat, r: Parsed, args: Parsed)
    requires i + 3 <= args.st.idx < |toks|
    requires toks[i].kind == Keyword && toks[i].lexeme == "CALL"
    requires toks[i + 1].kind == Identifier && toks[i + 2].kind == LParen && toks[args.st.idx].kind == RParen
    requires Corresponds(Yield(args.node), toks[i + 3..args.st.idx])
    requires r == Parsed(Inner("Op", [Leaf("KEYWORD", "CALL", toks[i].line), TokenLeaf("IDENTIFIER", toks[i + 1]),
                                      Leaf("LPAREN", "(", toks[i + 2].line), args.node,
                                      Leaf("RPAREN", ")", toks[args.st.idx].line)]),
                         args.st.(idx := args.st.idx + 1))
    ensures Corresponds(Yield(r.node), toks[i..r.st.idx])
  {
    CallCorresponds(toks, i, args.st.idx, args.node);
  }

  lemma {:induction false} OperatorsLoopYield(toks: seq<Token>, st: PState, acc: seq<Node>, from: nat)
    requires from <= st.idx <= |toks|
    requires forall c :: c in acc ==> c.name == "Op"
    requires Corresponds(YieldAll(acc), toks[from..st.idx])
    ensures OperatorsLoop(toks, st, acc).st.errors == st.errors ==>
      Corresponds(YieldAll(OperatorsLoop(toks, st, acc).nodes), toks[from..OperatorsLoop(toks, st, acc).st.idx])
    decreases |toks| - st.idx
  {
    var r := OperatorsLoop(toks, st, acc);
    if r.st.errors == st.errors && AtOperator(toks, st.idx) {
      var op := ParseOp(toks, st);
      assert r == OperatorsLoop(toks, op.st, acc + [op.node]);
      NoErrorsBetween(st.errors, op.st.errors, r.st.errors);
      if toks[st.idx].kind == Identifier {
        AssignYield(toks, st);
        assert op == ParseAssignment(toks, st);
      } else {
        CallYield(toks, st);
        assert op == ParseCall(toks, st);
      }
      CorrespondsSnoc(toks, from, st.idx, op.st.idx, acc, op.node);
      OperatorsLoopYield(toks, op.st, acc + [op.node], from);
    }
  }

  lemma {:induction false} OperatorsYield(toks: seq<Token>, st: PState)
    requires st.idx <= |toks|
    ensures ParseOperators(toks, st).st.errors == st.errors ==>
      Corresponds(Yield(ParseOperators(toks, st).node), toks[st.idx..ParseOperators(toks, st).st.idx])
  {
    EmptyCorresponds(toks, st.idx);
    OperatorsLoopYield(toks, st, [], st.idx);
    InnerYield("Operators", OperatorsLoop(toks, st, []).nodes);
  }

  lemma {:induction false} EndYield(toks: seq<Token>, st: PState)
    requires st.idx <= |toks|
    ensures ParseEnd(toks, st).st.errors == st.errors ==>
      Corresponds(Yield(ParseEnd(toks, st).node), toks[st.idx..ParseEnd(toks, st).st.idx])
  {
    var r := ParseEnd(toks, st);
    if r.st.errors == st.errors {
      var i := st.idx;
      var kw := Leaf("KEYWORD", "END", toks[i].line);
      var id := TokenLeaf("IDENTIFIER", toks[i + 1]);
      assert r.node.children == [kw, id];
      LeafCorresponds(toks, i, kw);
      LeafCorresponds(toks, i + 1, id);
      EmptyCorresponds(toks, i);
      CorrespondsSnoc(toks, i, i, i + 1, [], kw);
      CorrespondsSnoc(toks, i, i + 1, i + 2, [] + [kw], id);
      assert [] + [kw] + [id] == [kw, id];
      InnerYield("End", [kw, id]);
    }
  }

  /** The leaves of Begin Descriptions Operators End, after the PROGRAM keyword leaf. */
  lemma ProgramCorresponds(toks: seq<Token>, id: Node, d: nat, o: nat, dn: Node, on: Node, en: Node)
    requires 2 <= d <= o <= |toks|
    requires IsTokenLeaf(id) && Spells(id, toks[1])
    requires Corresponds(Yield(dn), toks[2..d])
    requires Corresponds(Yield(on), toks[d..o])
    requires Corresponds(Yield(en), toks[o..|toks|])
    ensures Corresponds(YieldAll([id, dn, on, en]), toks[1..])
  {
    EmptyCorresponds(toks, 1);
    CorrespondsSnoc(toks, 1, 1, 2, [], id);
    CorrespondsSnoc(toks, 1, 2, d, [] + [id], dn);
    CorrespondsSnoc(toks, 1, d, o, [] + [id] + [dn], on);
    CorrespondsSnoc(toks, 1, o, |toks|, [] + [id] + [dn] + [on], en);
    assert [] + [id] + [dn] + [on] + [en] == [id, dn, on, en];
    assert toks[1..|toks|] == toks[1..];
  }

  /** The program tree's leaves: the PROGRAM keyword leaf, then the leaves after it. */
  lemma ProgramLeaves(kw: Node, id: Node, dn: Node, on: Node, en: Node)
    requires IsTokenLeaf(kw) && IsTokenLeaf(id)
    ensures Yield(Inner("Program", [Inner("Begin", [kw, id]), dn, on, en])) == [kw] + YieldAll([id, dn, on, en])
  {
    var b := Inner("Begin", [kw, id]);
    InnerYield("Begin", [kw, id]);
    YieldAllAppend([kw], [id]);
    YieldAllSingle(kw);
    YieldAllSingle(id);
    assert [kw] + [id] == [kw, id];
    InnerYield("Program", [b, dn, on, en]);
    YieldAllAppend([b], [dn, on, en]);
    YieldAllSingle(b);
    assert [b] + [dn, on, en] == [b, dn, on, en];
    YieldAllAppend([id], [dn, on, en]);
    assert [id] + [dn, on, en] == [id, dn, on, en];
  }

  /**
    The parse of a whole program without syntax errors consumes every token,
    and its leaves spell the token vector: one leaf per token, in order, with
    the token's kind, line and text. The one exception is the line of the
    PROGRAM keyword leaf, which is taken from the token after it.
   */
  /** A Begin parsed from the start without errors is PROGRAM and the name. */
  lemma BeginWithoutErrors(toks: seq<Token>)
    requires ParseBegin(toks, PState(0, [])).st.errors == []
    ensures |toks| >= 2 && toks[0].kind == Keyword && toks[0].lexeme == "PROGRAM" && toks[1].kind == Identifier
    ensures ParseBegin(toks, PState(0, [])) ==
      Parsed(Inner("Begin", [Leaf("KEYWORD", "PROGRAM", toks[1].line), TokenLeaf("IDENTIFIER", toks[1])]), PState(2, []))
  {
  }

  lemma {:induction false} ProgramYield(toks: seq<Token>)
    ensures Parse(toks).st.errors == [] ==>
      Parse(toks).st.idx == |toks| && |toks| >= 2 &&
      toks[0].kind == Keyword && toks[0].lexeme == "PROGRAM" &&
      |Yield(Parse(toks).node)| == |toks| &&
      Yield(Parse(toks).node)[0] == Leaf("KEYWORD", "PROGRAM", toks[1].line) &&
      Corresponds(Yield(Parse(toks).node)[1..], toks[1..])
  {
    var st := PState(0, []);
    var r := Parse(toks);
    if r.st.errors == [] {
      var b := ParseBegin(toks, st);
      var d := ParseDescriptions(toks, b.st);
      var o := ParseOperators(toks, d.st);
      var e := ParseEnd(toks, o.st);
      assert r.node == Inner("Program", [b.node, d.node, o.node, e.node]);
      NoErrorsBetween(st.errors, b.st.errors, r.st.errors);
      NoErrorsBetween(st.errors, d.st.errors, r.st.errors);
      NoErrorsBetween(st.errors, o.st.errors, r.st.errors);
      NoErrorsBetween(st.errors, e.st.errors, r.st.errors);
      assert e.st.idx == |toks|;
      BeginWithoutErrors(toks);
      var kw := Leaf("KEYWORD", "PROGRAM", toks[1].line);
      var id := TokenLeaf("IDENTIFIER", toks[1]);
      DescriptionsYield(toks, b.st);
      OperatorsYield(toks, d.st);
      EndYield(toks, o.st);
      ProgramCorresponds(toks, id, d.st.idx, o.st.idx, d.node, o.node, e.node);
      ProgramLeaves(kw, id, d.node, o.node, e.node);
    }
  }

  // ---------------------------------------------------------------------
  // Error reporting and recovery

  /**
    An identifier not followed by '=' gives one "Expected '=' in assignment"
    error at the token after it; the statement keeps only the identifier, and
    parsing resumes at the first statement start after the offending token.
   */
  lemma MissingAssignReported(toks: seq<Token>, st: PState)
    requires st.idx < |toks| && toks[st.idx].kind == Identifier
    requires !(st.idx + 1 < |toks| && toks[st.idx + 1].kind == Assign)
    ensures ParseAssignment(toks, st).node.children == [TokenLeaf("IDENTIFIER", toks[st.idx])]
    ensures ParseAssignment(toks, st).st.errors ==
      st.errors + [ErrorMessage(toks, st.idx + 1, "Expected '=' in assignment")]
    ensures FirstStatementStart(toks, NextIndex(toks, st.idx + 1), ParseAssignment(toks, st).st.idx)
  {
    var st1 := Parser.Error(toks, st.(idx := st.idx + 1), "Expected '=' in assignment");
    assert SyncToNextOperator(toks, st1.idx) == st1.idx;
  }

  /**
    After the END statement, any remaining token gives exactly one more error,
    naming the first remaining token.
   */
  lemma TrailingTokensReported(toks: seq<Token>, st: PState)
    requires st.idx <= |toks|
    ensures var b := ParseBegin(toks, st);
      var d := ParseDescriptions(toks, b.st);
      var o := ParseOperators(toks, d.st);
      var e := ParseEnd(toks, o.st);
      (e.st.idx < |toks| ==>
         ParseProgram(toks, st).st.errors ==
           e.st.errors + [ErrorMessage(toks, e.st.idx, "Unexpected token(s) '" + toks[e.st.idx].lexeme + "' after END")]) &&
      (e.st.idx == |toks| ==> ParseProgram(toks, st).st == e.st)
  {
  }

  /** An error-free parse reads the whole token vector. */
  lemma ErrorFreeParseConsumesAll(toks: seq<Token>)
    ensures Parse(toks).st.errors == [] ==> Parse(toks).st.idx == |toks|
  {
    var st := PState(0, []);
    var b := ParseBegin(toks, st);
    var d := ParseDescriptions(toks, b.st);
    var o := ParseOperators(toks, d.st);
    var e := ParseEnd(toks, o.st);
    TrailingTokensReported(toks, st);
  }

  /** The tokens of "PROGRAM t INTEGER a a 1 END t", one statement per line from line 1. */
  function MissingAssignTokens(): seq<Token> {
    [Token("PROGRAM", Keyword, 1), Token("t", Identifier, 1),
     Token("INTEGER", Keyword, 2), Token("a", Identifier, 2),
     Token("a", Identifier, 3), Token("1", Integer, 3),
     Token("END", Keyword, 4), Token("t", Identifier, 4)]
  }

  lemma MissingAssignDeclarations()
    ensures ParseBegin(MissingAssignTokens(), PState(0, [])).st == PState(2, [])
    ensures ParseDescriptions(MissingAssignTokens(), PState(2, [])).st == PState(4, [])
  {
    MissingAssignDescr();
  }

  lemma MissingAssignDescr()
    ensures ParseDescriptions(MissingAssignTokens(), PState(2, [])).st == PState(4, [])
  {
    var toks := MissingAssignTokens();
    MissingAssignOneDescr();
    var d := ParseDescr(toks, PState(2, []));
    MissingAssignLoopStops([d.node]);
    assert DescriptionsLoop(toks, PState(2, []), []) == DescriptionsLoop(toks, d.st, [d.node]);
  }

  lemma MissingAssignLoopStops(acc: seq<Node>)
    requires forall c :: c in acc ==> c.name == "Descr"
    ensures DescriptionsLoop(MissingAssignTokens(), PState(4, []), acc).st == PState(4, [])
  {
  }

  lemma MissingAssignOneDescr()
    ensures ParseDescr(MissingAssignTokens(), PState(2, [])).st == PState(4, [])
  {
    var toks := MissingAssignTokens();
    assert ParseType(toks, PState(2, [])).st == PState(3, []);
    assert VarListTail(toks, PState(4, []), [TokenLeaf("IDENTIFIER", toks[3])]).st == PState(4, []);
    assert ParseVarList(toks, PState(3, [])).st == PState(4, []);
  }

  lemma MissingAssignStatements()
    ensures ParseOperators(MissingAssignTokens(), PState(4, [])).st ==
      PState(6, [ErrorMessage(MissingAssignTokens(), 5, "Expected '=' in assignment")])
  {
    var toks := MissingAssignTokens();
    var msg := ErrorMessage(toks, 5, "Expected '=' in assignment");
    MissingAssignReported(toks, PState(4, []));
    assert IsStatementStart(toks, 6);
    var op := ParseOp(toks, PState(4, []));
    assert op.st == PState(6, [msg]);
    assert OperatorsLoop(toks, PState(6, [msg]), [op.node]).st == PState(6, [msg]);
  }

  /**
    A statement with its '=' missing: exactly one syntax error, at the
    constant, and the parser recovers to read the END statement in full.
   */
  lemma MissingAssignExample()
    ensures Parse(MissingAssignTokens()).st.errors ==
      [ErrorMessage(MissingAssignTokens(), 5, "Expected '=' in assignment")]
    ensures Parse(MissingAssignTokens()).node.children[3].children ==
      [Leaf("KEYWORD", "END", 4), Leaf("IDENTIFIER", "t", 4)]
  {
    var toks := MissingAssignTokens();
    var msg := ErrorMessage(toks, 5, "Expected '=' in assignment");
    MissingAssignDeclarations();
    MissingAssignStatements();
    MissingAssignEnd(msg);
  }

  lemma MissingAssignEnd(msg: string)
    ensures ParseEnd(MissingAssignTokens(), PState(6, [msg])).st == PState(8, [msg])
    ensures ParseEnd(MissingAssignTokens(), PState(6, [msg])).node.children ==
      [Leaf("KEYWORD", "END", 4), Leaf("IDENTIFIER", "t", 4)]
  {
  }

  /**
    The three outcomes of Begin: `PROGRAM name` is consumed without error;
    after PROGRAM without a name one error is added and the parse resumes
    only at an INTEGER, REAL or CALL keyword or the end; without PROGRAM one
    error is added and at most one name leaf is kept.
   */
  lemma BeginOutcomes(toks: seq<Token>, st: PState)
    requires st.idx <= |toks|
    ensures var r := ParseBegin(toks, st);
      st.idx + 1 < |toks| && toks[st.idx].kind == Keyword && toks[st.idx].lexeme == "PROGRAM" &&
      toks[st.idx + 1].kind == Identifier ==>
        r.st == st.(idx := st.idx + 2) && |r.node.children| == 2 &&
        r.node.children[1] == TokenLeaf("IDENTIFIER", toks[st.idx + 1])
    ensures var r := ParseBegin(toks, st);
      st.idx < |toks| && toks[st.idx].kind == Keyword && toks[st.idx].lexeme == "PROGRAM" &&
      !(st.idx + 1 < |toks| && toks[st.idx + 1].kind == Identifier) ==>
        |r.st.errors| == |st.errors| + 1 && |r.node.children| == 1 &&
        (r.st.idx < |toks| ==> toks[r.st.idx].kind == Keyword && toks[r.st.idx].lexeme in {"INTEGER", "REAL", "CALL"})
    ensures var r := ParseBegin(toks, st);
      !(st.idx < |toks| && toks[st.idx].kind == Keyword && toks[st.idx].lexeme == "PROGRAM") ==>
        |r.st.errors| == |st.errors| + 1 && |r.node.children| <= 1
  {
  }

  /** The tokens of "PROGRAM = x = 1 END x": the program name is missing. */
  function MissingNameTokens(): seq<Token> {
    [Token("PROGRAM", Keyword, 1), Token("=", Assign, 1),
     Token("x", Identifier, 2), Token("=", Assign, 2), Token("1", Integer, 2),
     Token("END", Keyword, 3), Token("x", Identifier, 3)]
  }

  /**
    After a missing program name the syntax error recovery stops at the
    assignment "x = 1", but the loop as written then skips it, the END
    statement and the rest of the input; the intended loop stays at "x".
   */
  lemma MissingNameRecovery()
    ensures SyncAfterError(MissingNameTokens(), 1) == 2
    ensures SkipToDeclarationsAsWritten(MissingNameTokens(), 2) == |MissingNameTokens()|
    ensures SkipToDeclarations(MissingNameTokens(), 2) == 2
  {
    var toks := MissingNameTokens();
    assert SyncToEndOfExpression(toks, 2) == 2;
    assert SkipToDeclarationsAsWritten(toks, 7) == 7;
    assert SkipToDeclarationsAsWritten(toks, 6) == 7;
    assert SkipToDeclarationsAsWritten(toks, 5) == 7;
    assert SkipToDeclarationsAsWritten(toks, 4) == 7;
    assert SkipToDeclarationsAsWritten(toks, 3) == 7;
  }

  /**
    On "PROGRAM = x = 1 END x" the parser runs the recovery loop as written:
    Begin reports the missing name and skips to the end of the input, so
    neither the assignment nor the END statement is parsed.
   */
  lemma MissingNameParse()
    ensures ParseBegin(MissingNameTokens(), PState(0, [])).st.idx == |MissingNameTokens()|
    ensures Parse(MissingNameTokens()).node.children[2].children == []
    ensures Parse(MissingNameTokens()).node.children[3].children == []
  {
    MissingNameRecovery();
  }
}
