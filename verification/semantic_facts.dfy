/**
  Properties of the semantic analyzer: the stack-based postfix conversion
  agrees with a direct recursive reading of complete expressions, its
  "not declared" errors follow the identifiers in pre-order, the expression
  type is decided by the operands the expression mentions, and the emitted
  postfix code comes in three sections.
 */
module SemanticFacts {
  import opened Wrappers
  import opened Text
  import opened Tokens
  import opened Ast
  import opened Semantic

  // ---------------------------------------------------------------------
  // Complete expressions and their reference postfix

  /**
    The analyzer tells nodes apart by name only, so these two predicates
    look at names and not at values (unlike the parser's leaf predicates,
    which describe the leaves the parser builds).
   */
  predicate IsOperandNode(n: Node) {
    (n.name == "IDENTIFIER" || n.name == "INTEGER" || n.name == "REAL") && n.children == []
  }

  predicate IsOperatorNode(n: Node) {
    (n.name == "PLUS" || n.name == "MINUS") && n.children == []
  }

  predicate IsLeafNamed(n: Node, name: string) {
    n.name == name && n.children == []
  }

  /** The postfix symbol of a PLUS or MINUS leaf. */
  function OpSymbol(n: Node): string {
    if n.name == "PLUS" then "+" else "-"
  }

  /**
    An Expr node as the parser builds it when every parenthesis is closed:
    SimpleExpr (op SimpleExpr)*, where a SimpleExpr is one operand leaf or
    '(' Expr ')'.
   */
  predicate CompleteExpr(e: Node)
    decreases e, 0
  {
    e.name == "Expr" && CompleteChain(e.children)
  }

  predicate CompleteChain(kids: seq<Node>)
    decreases kids, 0
  {
    if |kids| == 1 then CompleteSimple(kids[0])
    else |kids| >= 3 && CompleteSimple(kids[0]) && IsOperatorNode(kids[1]) && CompleteChain(kids[2..])
  }

  predicate CompleteSimple(s: Node)
    decreases s, 0
  {
    s.name == "SimpleExpr" &&
    ((|s.children| == 1 && IsOperandNode(s.children[0])) ||
     (|s.children| == 3 && IsLeafNamed(s.children[0], "LPAREN") && CompleteExpr(s.children[1]) &&
      IsLeafNamed(s.children[2], "RPAREN")))
  }

  /**
    The postfix of a complete expression read directly from the grammar
    rule Expr -> SimpleExpr + Expr: the first operand, then the rest of the
    chain, then the first operator.
   */
  function RefPostfix(e: Node): seq<string>
    requires CompleteExpr(e)
    decreases e, 0
  {
    RefChain(e.children)
  }

  function RefChain(kids: seq<Node>): seq<string>
    requires CompleteChain(kids)
    decreases kids, 0
  {
    if |kids| == 1 then RefOperand(kids[0])
    else RefOperand(kids[0]) + RefChain(kids[2..]) + [OpSymbol(kids[1])]
  }

  function RefOperand(s: Node): seq<string>
    requires CompleteSimple(s)
    decreases s, 0
  {
    if |s.children| == 1 then [s.children[0].value] else RefPostfix(s.children[1])
  }

  /** The operands' postfix of a chain, left to right. */
  function ChainBody(kids: seq<Node>): seq<string>
    requires CompleteChain(kids)
    decreases |kids|
  {
    if |kids| == 1 then RefOperand(kids[0]) else RefOperand(kids[0]) + ChainBody(kids[2..])
  }

  /** The operator symbols of a chain, left to right. */
  function ChainOps(kids: seq<Node>): (ops: seq<string>)
    requires CompleteChain(kids)
    ensures forall i :: 0 <= i < |ops| ==> ops[i] == "+" || ops[i] == "-"
    decreases |kids|
  {
    if |kids| == 1 then [] else [OpSymbol(kids[1])] + ChainOps(kids[2..])
  }

  /** The reference postfix is the operands followed by the operators in reverse. */
  lemma {:induction false} ChainSplit(kids: seq<Node>)
    requires CompleteChain(kids)
    ensures RefChain(kids) == ChainBody(kids) + Reverse(ChainOps(kids))
    decreases |kids|
  {
    if |kids| > 1 {
      ChainSplit(kids[2..]);
      var ops := ChainOps(kids);
      assert ops[1..] == ChainOps(kids[2..]);
      assert Reverse(ops) == Reverse(ops[1..]) + [ops[0]];
    }
  }

  /** ')' with no '(' among the top `above` operators pops them all, top first, and then the '('. */
  lemma {:induction false} PopToParenSpec(out: seq<string>, below: seq<string>, above: seq<string>)
    requires forall i :: 0 <= i < |above| ==> above[i] != "("
    ensures PopToParen(out, below + ["("] + above) == (out + Reverse(above), below)
    decreases |above|
  {
    var ops := below + ["("] + above;
    if above == [] {
      assert ops[|ops| - 1] == "(" && ops[..|ops| - 1] == below;
      assert PopToParen(out, ops) == (out, below);
      assert Reverse(above) == [] && out + [] == out;
    } else {
      var top := above[|above| - 1];
      var rest := above[..|above| - 1];
      assert ops[|ops| - 1] == top && top != "(";
      assert ops[..|ops| - 1] == below + ["("] + rest;
      assert PopToParen(out, ops) == PopToParen(out + [top], below + ["("] + rest);
      PopToParenSpec(out + [top], below, rest);
      ReverseSnoc(rest, top);
      assert rest + [top] == above;
      assert out + Reverse(above) == (out + [top]) + Reverse(rest);
    }
  }

  lemma {:induction false} ReverseSnoc<T>(s: seq<T>, x: T)
    ensures Reverse(s + [x]) == [x] + Reverse(s)
    decreases |s|
  {
    if s == [] {
    } else {
      assert (s + [x])[1..] == s[1..] + [x];
      ReverseSnoc(s[1..], x);
    }
  }

  /** Converting a complete expression appends its operands' postfix and pushes its operators. */
  lemma {:induction false} ConvertExprSpec(e: Node, vars: Vars, c: Conv)
    requires CompleteExpr(e)
    ensures Convert(e, vars, c).out == c.out + ChainBody(e.children)
    ensures Convert(e, vars, c).ops == c.ops + ChainOps(e.children)
    decreases e, 2
  {
    assert ConvertAt(e, vars, c) == c;
    ConvertChainSpec(e.children, vars, c);
  }

  lemma {:induction false} ConvertChainSpec(kids: seq<Node>, vars: Vars, c: Conv)
    requires CompleteChain(kids)
    ensures ConvertAll(kids, vars, c).out == c.out + ChainBody(kids)
    ensures ConvertAll(kids, vars, c).ops == c.ops + ChainOps(kids)
    decreases kids, 1
  {
    ConvertSimpleSpec(kids[0], vars, c);
    var c1 := Convert(kids[0], vars, c);
    if |kids| == 1 {
      ConvertAllStep(kids, vars, c);
    } else {
      var c2 := Convert(kids[1], vars, c1);
      ConvertOpLeaf(kids[1], vars, c1);
      ConvertChainSpec(kids[2..], vars, c2);
      ConvertAllPair(kids, vars, c);
      ChainCombine(kids, c.out, c.ops, ConvertAll(kids[2..], vars, c2).out, ConvertAll(kids[2..], vars, c2).ops);
    }
  }

  /** Converting a forest converts its first tree, then the rest. */
  lemma ConvertAllStep(kids: seq<Node>, vars: Vars, c: Conv)
    requires kids != []
    ensures ConvertAll(kids, vars, c) == ConvertAll(kids[1..], vars, Convert(kids[0], vars, c))
  {
  }

  /** Converting a forest of at least two trees converts the first two, then the rest. */
  lemma ConvertAllPair(kids: seq<Node>, vars: Vars, c: Conv)
    requires |kids| >= 2
    ensures ConvertAll(kids, vars, c) ==
      ConvertAll(kids[2..], vars, Convert(kids[1], vars, Convert(kids[0], vars, c)))
  {
    assert kids[1..][1..] == kids[2..];
  }

  /** The bookkeeping step of `ConvertChainSpec`: operand, operator, then the rest of the chain. */
  lemma ChainCombine(kids: seq<Node>, out0: seq<string>, ops0: seq<string>, out: seq<string>, ops: seq<string>)
    requires CompleteChain(kids) && |kids| > 1
    requires out == out0 + RefOperand(kids[0]) + ChainBody(kids[2..])
    requires ops == ops0 + [OpSymbol(kids[1])] + ChainOps(kids[2..])
    ensures out == out0 + ChainBody(kids) && ops == ops0 + ChainOps(kids)
  {
    Associate(out0, RefOperand(kids[0]), ChainBody(kids[2..]));
    Associate(ops0, [OpSymbol(kids[1])], ChainOps(kids[2..]));
  }

  /** A PLUS or MINUS leaf pushes its symbol. */
  lemma ConvertOpLeaf(n: Node, vars: Vars, c: Conv)
    requires IsOperatorNode(n)
    ensures Convert(n, vars, c) == c.(ops := c.ops + [OpSymbol(n)])
  {
    assert Convert(n, vars, c) == ConvertAt(n, vars, c);
  }

  /** A '(' leaf pushes "(". */
  lemma ConvertLParen(lp: Node, vars: Vars, c: Conv)
    requires IsLeafNamed(lp, "LPAREN")
    ensures Convert(lp, vars, c) == c.(ops := c.ops + ["("])
  {
    assert Convert(lp, vars, c) == ConvertAt(lp, vars, c);
  }

  /** A ')' leaf pops operators down to the nearest '('. */
  lemma ConvertRParen(rp: Node, vars: Vars, c: Conv)
    requires IsLeafNamed(rp, "RPAREN")
    ensures Convert(rp, vars, c) == c.(out := PopToParen(c.out, c.ops).0, ops := PopToParen(c.out, c.ops).1)
  {
    assert Convert(rp, vars, c) == ConvertAt(rp, vars, c);
  }

  /** Converting three siblings converts them one after the other. */
  lemma ConvertAllThree(kids: seq<Node>, vars: Vars, c: Conv)
    requires |kids| == 3
    ensures ConvertAll(kids, vars, c) == Convert(kids[2], vars, Convert(kids[1], vars, Convert(kids[0], vars, c)))
  {
    var c1 := Convert(kids[0], vars, c);
    var c2 := Convert(kids[1], vars, c1);
    assert kids[1..][1..] == [kids[2]];
    assert [kids[2]][1..] == [];
    assert ConvertAll([kids[2]], vars, c2) == Convert(kids[2], vars, c2);
    assert ConvertAll(kids[1..], vars, c1) == ConvertAll([kids[2]], vars, c2);
  }

  /** Converting a complete operand appends its postfix and leaves the stack as it was. */
  lemma {:induction false} ConvertSimpleSpec(s: Node, vars: Vars, c: Conv)
    requires CompleteSimple(s)
    ensures Convert(s, vars, c).out == c.out + RefOperand(s)
    ensures Convert(s, vars, c).ops == c.ops
    decreases s, 1
  {
    assert ConvertAt(s, vars, c) == c;
    var kids := s.children;
    if |kids| == 1 {
      ConvertOperandLeaf(kids[0], vars, c);
      assert kids[1..] == [];
    } else {
      ConvertParenSpec(s, vars, c);
    }
  }

  /** An operand leaf appends its text. */
  lemma ConvertOperandLeaf(n: Node, vars: Vars, c: Conv)
    requires IsOperandNode(n)
    ensures Convert(n, vars, c).out == c.out + [n.value]
    ensures Convert(n, vars, c).ops == c.ops
  {
    assert Convert(n, vars, c) == ConvertAt(n, vars, c);
  }

  /** '(' Expr ')': the operators pushed inside the parentheses are popped again at ')'. */
  lemma {:induction false} ConvertParenSpec(s: Node, vars: Vars, c: Conv)
    requires CompleteSimple(s) && |s.children| == 3
    ensures Convert(s, vars, c).out == c.out + RefOperand(s)
    ensures Convert(s, vars, c).ops == c.ops
    decreases s, 0
  {
    var kids := s.children;
    var c1 := Convert(kids[0], vars, c);
    ConvertLParen(kids[0], vars, c);
    ConvertExprSpec(kids[1], vars, c1);
    var c2 := Convert(kids[1], vars, c1);
    ConvertRParen(kids[2], vars, c2);
    ParenPops(s, c, c2, Convert(kids[2], vars, c2));
    ConvertAllThree(kids, vars, c);
    ConvertGrammarNode(s, vars, c);
  }

  /** The ')' pops exactly the operators pushed since the '(', so the stack is as before. */
  lemma ParenPops(s: Node, c: Conv, c2: Conv, c3: Conv)
    requires CompleteSimple(s) && |s.children| == 3 && CompleteExpr(s.children[1])
    requires c2.out == c.out + ChainBody(s.children[1].children)
    requires c2.ops == c.ops + ["("] + ChainOps(s.children[1].children)
    requires c3 == c2.(out := PopToParen(c2.out, c2.ops).0, ops := PopToParen(c2.out, c2.ops).1)
    ensures c3.out == c.out + RefOperand(s) && c3.ops == c.ops
  {
    var inner := s.children[1].children;
    PopToParenSpec(c2.out, c.ops, ChainOps(inner));
    ChainSplit(inner);
    assert RefOperand(s) == RefChain(inner);
  }

  /** A grammar node other than a leaf converts as its children do. */
  lemma ConvertGrammarNode(s: Node, vars: Vars, c: Conv)
    requires s.name == "SimpleExpr"
    ensures Convert(s, vars, c) == ConvertAll(s.children, vars, c)
  {
    assert ConvertAt(s, vars, c) == c;
  }

  // ---------------------------------------------------------------------
  // Pre-order and undeclared identifiers

  /** The nodes of a tree in pre-order: the node, then its children's subtrees left to right. */
  function Preorder(n: Node): seq<Node>
    decreases n, 1
  {
    [n] + PreorderAll(n.children)
  }

  function PreorderAll(kids: seq<Node>): seq<Node>
    decreases kids, 0
  {
    if kids == [] then [] else Preorder(kids[0]) + PreorderAll(kids[1..])
  }

  /** One "not declared" message per IDENTIFIER node absent from the table, in order. */
  function Undeclared(nodes: seq<Node>, vars: Vars): seq<string>
    decreases |nodes|
  {
    if nodes == [] then [] else UndeclaredAt(nodes[0], vars) + Undeclared(nodes[1..], vars)
  }

  /** The message for one node: only an IDENTIFIER absent from the table has one. */
  function UndeclaredAt(n: Node, vars: Vars): seq<string> {
    if n.name == "IDENTIFIER" && n.value !in vars then [NotDeclaredMessage(n.value, n.line)] else []
  }

  lemma {:induction false} UndeclaredAppend(a: seq<Node>, b: seq<Node>, vars: Vars)
    ensures Undeclared(a + b, vars) == Undeclared(a, vars) + Undeclared(b, vars)
    decreases |a|
  {
    if a == [] {
      assert a + b == b;
    } else {
      assert (a + b)[0] == a[0];
      assert (a + b)[1..] == a[1..] + b;
      UndeclaredAppend(a[1..], b, vars);
    }
  }

  /** The conversion reports exactly the undeclared identifiers of the subtree, in pre-order. */
  lemma {:induction false} ConvertErrors(n: Node, vars: Vars, c: Conv)
    ensures Convert(n, vars, c).errors == c.errors + Undeclared(Preorder(n), vars)
    decreases n, 1
  {
    var c1 := ConvertAt(n, vars, c);
    ConvertAtErrors(n, vars, c);
    ConvertAllErrors(n.children, vars, c1);
    NodeErrorsSplit(n, vars, c, c1, Convert(n, vars, c));
  }

  /** The bookkeeping step of `ConvertErrors`: the node's own message, then its children's. */
  lemma NodeErrorsSplit(n: Node, vars: Vars, c: Conv, c1: Conv, r: Conv)
    requires c1 == ConvertAt(n, vars, c) && r == Convert(n, vars, c)
    requires c1.errors == c.errors + Undeclared([n], vars)
    requires ConvertAll(n.children, vars, c1).errors == c1.errors + Undeclared(PreorderAll(n.children), vars)
    ensures r.errors == c.errors + Undeclared(Preorder(n), vars)
  {
    UndeclaredAppend([n], PreorderAll(n.children), vars);
    Associate(c.errors, Undeclared([n], vars), Undeclared(PreorderAll(n.children), vars));
  }

  lemma Associate(x: seq<string>, a: seq<string>, b: seq<string>)
    ensures x + a + b == x + (a + b)
  {
  }

  /** At one node, only an undeclared IDENTIFIER adds an error. */
  lemma ConvertAtErrors(n: Node, vars: Vars, c: Conv)
    ensures ConvertAt(n, vars, c).errors == c.errors + Undeclared([n], vars)
  {
    assert [n][1..] == [];
    assert Undeclared([n], vars) == UndeclaredAt(n, vars) + [];
  }

  lemma {:induction false} ConvertAllErrors(kids: seq<Node>, vars: Vars, c: Conv)
    ensures ConvertAll(kids, vars, c).errors == c.errors + Undeclared(PreorderAll(kids), vars)
    decreases kids, 0
  {
    if kids != [] {
      var c1 := Convert(kids[0], vars, c);
      ConvertErrors(kids[0], vars, c);
      ConvertAllErrors(kids[1..], vars, c1);
      ForestErrorsSplit(kids, vars, c, c1, ConvertAll(kids, vars, c));
    }
  }

  /** The bookkeeping step of `ConvertAllErrors`: the first tree's messages, then the rest's. */
  lemma ForestErrorsSplit(kids: seq<Node>, vars: Vars, c: Conv, c1: Conv, r: Conv)
    requires kids != [] && c1 == Convert(kids[0], vars, c) && r == ConvertAll(kids, vars, c)
    requires c1.errors == c.errors + Undeclared(Preorder(kids[0]), vars)
    requires ConvertAll(kids[1..], vars, c1).errors == c1.errors + Undeclared(PreorderAll(kids[1..]), vars)
    ensures r.errors == c.errors + Undeclared(PreorderAll(kids), vars)
  {
    UndeclaredAppend(Preorder(kids[0]), PreorderAll(kids[1..]), vars);
    Associate(c.errors, Undeclared(Preorder(kids[0]), vars), Undeclared(PreorderAll(kids[1..]), vars));
  }

  /**
    `expressionToPostfix` on a complete expression is the reference postfix
    joined with spaces, and its errors are the undeclared identifiers in
    pre-order.
   */
  lemma PostfixMatchesReference(e: Node, vars: Vars)
    requires CompleteExpr(e)
    ensures ExpressionToPostfix(e, vars).0 == JoinSpaces(RefPostfix(e))
    ensures ExpressionToPostfix(e, vars).1 == Undeclared(Preorder(e), vars)
  {
    var c := Convert(e, vars, Conv([], [], []));
    ConvertExprSpec(e, vars, Conv([], [], []));
    ChainSplit(e.children);
    assert c.out + Reverse(c.ops) == RefPostfix(e);
    ConvertErrors(e, vars, Conv([], [], []));
  }

  /** The Expr tree of "a - b + c". */
  function MinusPlusExpr(): Node {
    Inner("Expr", [Inner("SimpleExpr", [Leaf("IDENTIFIER", "a", 1)]), Leaf("MINUS", "-", 1),
                   Inner("SimpleExpr", [Leaf("IDENTIFIER", "b", 1)]), Leaf("PLUS", "+", 1),
                   Inner("SimpleExpr", [Leaf("IDENTIFIER", "c", 1)])])
  }

  /**
    "a - b + c" becomes "a b c + -": the chain is read as a - (b + c).
   */
  lemma MinusPlusExample(vars: Vars)
    ensures ExpressionToPostfix(MinusPlusExpr(), vars).0 == "a b c + -"
  {
    MinusPlusReference();
    PostfixMatchesReference(MinusPlusExpr(), vars);
  }

  lemma MinusPlusReference()
    ensures CompleteExpr(MinusPlusExpr())
    ensures JoinSpaces(RefPostfix(MinusPlusExpr())) == "a b c + -"
  {
    var e := MinusPlusExpr();
    var kids := e.children;
    assert CompleteChain(kids[4..]);
    assert kids[2..][2..] == kids[4..];
    assert CompleteChain(kids[2..]);
    assert CompleteExpr(e);
    assert RefChain(kids[4..]) == ["c"];
    assert RefChain(kids[2..]) == ["b", "c", "+"];
    assert RefPostfix(e) == ["a", "b", "c", "+", "-"];
    assert JoinSpaces(["a", "b", "c", "+", "-"]) == "a b c + -" by {
      assert ["a", "b", "c", "+", "-"][..4] == ["a", "b", "c", "+"];
      assert ["a", "b", "c", "+"][..3] == ["a", "b", "c"];
      assert ["a", "b", "c"][..2] == ["a", "b"];
      assert ["a", "b"][..1] == ["a"];
    }
  }

  // ---------------------------------------------------------------------
  // Expression types

  /** Some node of `nodes` is a REAL operand (a REAL constant or a REAL variable). */
  predicate MentionsReal(nodes: seq<Node>, vars: Vars) {
    exists m :: m in nodes && IsRealOperand(m, vars)
  }

  /** Some node of `nodes` is an INTEGER operand (an INTEGER constant or an INTEGER variable). */
  predicate MentionsInteger(nodes: seq<Node>, vars: Vars) {
    exists m :: m in nodes && IsIntegerOperand(m, vars)
  }

  lemma MentionsAppend(a: seq<Node>, b: seq<Node>, vars: Vars)
    ensures MentionsReal(a + b, vars) <==> MentionsReal(a, vars) || MentionsReal(b, vars)
    ensures MentionsInteger(a + b, vars) <==> MentionsInteger(a, vars) || MentionsInteger(b, vars)
  {
    if MentionsReal(a + b, vars) {
      var m :| m in a + b && IsRealOperand(m, vars);
    }
    if MentionsInteger(a + b, vars) {
      var m :| m in a + b && IsIntegerOperand(m, vars);
    }
  }

  /** The two flags record exactly whether the subtree mentions a REAL and an INTEGER operand. */
  lemma {:induction false} TypeFlagsSpec(n: Node, vars: Vars, f: Flags)
    ensures TypeFlags(n, vars, f) ==
      Flags(f.hasReal || MentionsReal(Preorder(n), vars), f.hasInteger || MentionsInteger(Preorder(n), vars))
    decreases n, 1
  {
    var f1 := FlagsAt(n, vars, f);
    assert f1 == Flags(f.hasReal || IsRealOperand(n, vars), f.hasInteger || IsIntegerOperand(n, vars));
    TypeFlagsAllSpec(n.children, vars, f1);
    MentionsAppend([n], PreorderAll(n.children), vars);
    assert MentionsReal([n], vars) == IsRealOperand(n, vars) by {
      if IsRealOperand(n, vars) { assert n in [n]; }
    }
    assert MentionsInteger([n], vars) == IsIntegerOperand(n, vars) by {
      if IsIntegerOperand(n, vars) { assert n in [n]; }
    }
  }

  lemma {:induction false} TypeFlagsAllSpec(kids: seq<Node>, vars: Vars, f: Flags)
    ensures TypeFlagsAll(kids, vars, f) ==
      Flags(f.hasReal || MentionsReal(PreorderAll(kids), vars), f.hasInteger || MentionsInteger(PreorderAll(kids), vars))
    decreases kids, 0
  {
    if kids != [] {
      TypeFlagsSpec(kids[0], vars, f);
      TypeFlagsAllSpec(kids[1..], vars, TypeFlags(kids[0], vars, f));
      MentionsAppend(Preorder(kids[0]), PreorderAll(kids[1..]), vars);
    }
  }

  /**
    An expression is UNKNOWN when it mixes REAL and INTEGER operands, REAL
    when it has a REAL operand and no INTEGER one, and INTEGER otherwise
    (including an expression with no typed operand at all).
   */
  lemma ExpressionTypeSpec(e: Node, vars: Vars)
    ensures ExpressionType(e, vars) == Unknown <==>
              MentionsReal(Preorder(e), vars) && MentionsInteger(Preorder(e), vars)
    ensures ExpressionType(e, vars) == Real <==>
              MentionsReal(Preorder(e), vars) && !MentionsInteger(Preorder(e), vars)
    ensures ExpressionType(e, vars) == Integer <==> !MentionsReal(Preorder(e), vars)
  {
    TypeFlagsSpec(e, vars, Flags(false, false));
  }

  /**
    Assigning an expression with a REAL operand to an INTEGER variable, or an
    expression without one to a REAL variable, is reported as a mismatch:
    there is no implicit conversion either way.
   */
  lemma AssignmentMismatch(id: Node, e: Node, s: SemState)
    requires id.value in s.vars
    requires (s.vars[id.value].kind == Integer && MentionsReal(Preorder(e), s.vars)) ||
             (s.vars[id.value].kind == Real && !MentionsReal(Preorder(e), s.vars))
    ensures MismatchMessage(s.vars[id.value].kind, ExpressionType(e, s.vars), id.line) in ProcessAssignment(id, e, s).errors
    ensures ProcessAssignment(id, e, s).vars[id.value].initialized
  {
    ExpressionTypeSpec(e, s.vars);
    var r := ProcessAssignment(id, e, s);
    var tail := [MismatchMessage(s.vars[id.value].kind, ExpressionType(e, s.vars), id.line)];
    assert r.errors == s.errors + ExpressionToPostfix(e, s.vars).1 + tail;
    assert r.errors[|r.errors| - 1] == tail[0];
  }

  /** An assignment whose operands all have the target's type adds no error beyond undeclared operands. */
  lemma AssignmentWellTyped(id: Node, e: Node, s: SemState)
    requires id.value in s.vars
    requires (s.vars[id.value].kind == Integer && !MentionsReal(Preorder(e), s.vars)) ||
             (s.vars[id.value].kind == Real && MentionsReal(Preorder(e), s.vars) && !MentionsInteger(Preorder(e), s.vars))
    ensures ProcessAssignment(id, e, s).errors == s.errors + Undeclared(Preorder(e), s.vars)
  {
    ExpressionTypeSpec(e, s.vars);
    assert s.vars[id.value].kind == ExpressionType(e, s.vars);
    ExpressionErrors(e, s.vars);
    assert s.errors + Undeclared(Preorder(e), s.vars) + [] == s.errors + Undeclared(Preorder(e), s.vars);
  }

  /** `expressionToPostfix` reports exactly the undeclared identifiers of the expression, in pre-order. */
  lemma ExpressionErrors(e: Node, vars: Vars)
    ensures ExpressionToPostfix(e, vars).1 == Undeclared(Preorder(e), vars)
  {
    ConvertErrors(e, vars, Conv([], [], []));
    assert [] + Undeclared(Preorder(e), vars) == Undeclared(Preorder(e), vars);
  }

  /** A Descr of a Type and a VarList declares the list with the type the Type node leaves. */
  lemma DescrTypeThenList(kids: seq<Node>, current: TokenKind, s: SemState)
    requires |kids| == 2 && kids[0].name == "Type" && kids[1].name == "VarList"
    ensures var k := TypeOfChildren(kids[0].children, current);
      DescrChildren(kids, current, s) == (k, ProcessVarList(kids[1], k, s))
  {
    var k := TypeOfChildren(kids[0].children, current);
    assert kids[1..] == [kids[1]] && [kids[1]][1..] == [];
    assert DescrChildren(kids[1..], k, s) == DescrChildren([], k, ProcessVarList(kids[1], k, s));
  }

  /**
    `INTEGER a, b` (or REAL): the names of the list that are new enter the
    table with the kind the last type word names, and that kind stays
    current for the declarations that follow.
   */
  lemma DescrDeclaresWithType(kids: seq<Node>, current: TokenKind, s: SemState, i: int)
    requires |kids| == 2 && kids[0].name == "Type" && kids[1].name == "VarList"
    requires IsLastTypeWord(kids[0].children, i)
    ensures var r := DescrChildren(kids, current, s);
      r.0 == KindOfWord(kids[0].children[i]) &&
      r.1.vars.Keys == s.vars.Keys + IdentifierValues(kids[1].children) &&
      forall x :: x in r.1.vars && x !in s.vars ==> r.1.vars[x] == MakeVarInfo(x, KindOfWord(kids[0].children[i]))
  {
    DescrTypeThenList(kids, current, s);
  }

  /**
    A Descr whose Type names no type (what the parser leaves after
    "Expected 'INTEGER' or 'REAL'") declares its list with the type carried
    over from the declarations before it.
   */
  lemma TypeCarriesOver(kids: seq<Node>, current: TokenKind, s: SemState)
    requires |kids| == 2 && kids[0].name == "Type" && kids[1].name == "VarList"
    requires forall j :: 0 <= j < |kids[0].children| ==> !IsTypeWord(kids[0].children[j])
    ensures var r := DescrChildren(kids, current, s);
      r.0 == current &&
      forall x :: x in r.1.vars && x !in s.vars ==> r.1.vars[x] == MakeVarInfo(x, current)
  {
    DescrTypeThenList(kids, current, s);
  }

  /**
    In a Descriptions node, a typed declaration followed by one whose Type
    names no type: the second list's new names get the first one's kind.
   */
  lemma DescriptionsCarryType(d1: Node, d2: Node, current: TokenKind, s: SemState, i: int)
    requires d1.name == "Descr" && d2.name == "Descr"
    requires |d1.children| == 2 && d1.children[0].name == "Type" && d1.children[1].name == "VarList"
    requires |d2.children| == 2 && d2.children[0].name == "Type" && d2.children[1].name == "VarList"
    requires IsLastTypeWord(d1.children[0].children, i)
    requires forall j :: 0 <= j < |d2.children[0].children| ==> !IsTypeWord(d2.children[0].children[j])
    ensures var s1 := DescrChildren(d1.children, current, s).1;
      var r := DescriptionsLoop([d1, d2], current, s);
      forall x :: x in r.vars && x !in s1.vars ==> r.vars[x] == MakeVarInfo(x, KindOfWord(d1.children[0].children[i]))
  {
    var (k, s1) := DescrChildren(d1.children, current, s);
    DescrDeclaresWithType(d1.children, current, s, i);
    TypeCarriesOver(d2.children, k, s1);
    var (k2, s2) := DescrChildren(d2.children, k, s1);
    assert [d1, d2][1..] == [d2] && [d2][1..] == [];
    assert DescriptionsLoop([d2], k, s1) == DescriptionsLoop([], k2, s2);
  }

  /**
    `analyzeExpression`: the errors are the undeclared identifiers in
    pre-order, the type is UNKNOWN when REAL and INTEGER operands are mixed,
    REAL when only REAL ones occur and INTEGER when none is REAL, and for a
    fully parenthesised expression the text is the reference postfix.
   */
  lemma AnalyzeExpressionSpec(e: Node, vars: Vars)
    ensures AnalyzeExpression(e, vars).1 == Undeclared(Preorder(e), vars)
    ensures AnalyzeExpression(e, vars).2 == Unknown <==>
              MentionsReal(Preorder(e), vars) && MentionsInteger(Preorder(e), vars)
    ensures AnalyzeExpression(e, vars).2 == Real <==>
              MentionsReal(Preorder(e), vars) && !MentionsInteger(Preorder(e), vars)
    ensures AnalyzeExpression(e, vars).2 == Integer <==> !MentionsReal(Preorder(e), vars)
    ensures CompleteExpr(e) ==> AnalyzeExpression(e, vars).0 == JoinSpaces(RefPostfix(e))
  {
    ExpressionErrors(e, vars);
    ExpressionTypeSpec(e, vars);
    if CompleteExpr(e) {
      PostfixMatchesReference(e, vars);
    }
  }

  /**
    A statement with a target and an expression and no CALL is the
    assignment of its last expression to its last identifier, so a type
    mismatch there is reported by the statements walk.
   */
  lemma OpAssignmentMismatch(op: Node, s: SemState, i: int, j: int)
    requires !HasCallKeyword(op.children)
    requires IsLastIdentifier(op.children, i) && IsLastNamed(op.children, j, "Expr")
    requires op.children[i].value in s.vars
    requires var k := s.vars[op.children[i].value].kind;
             (k == Integer && MentionsReal(Preorder(op.children[j]), s.vars)) ||
             (k == Real && !MentionsReal(Preorder(op.children[j]), s.vars))
    ensures MismatchMessage(s.vars[op.children[i].value].kind, ExpressionType(op.children[j], s.vars),
                            op.children[i].line) in ProcessOp(op, s).errors
    ensures ProcessOp(op, s).vars[op.children[i].value].initialized
  {
    AssignmentMismatch(op.children[i], op.children[j], s);
  }

  // ---------------------------------------------------------------------
  // The emitted code

  /** `p` splits at `i` and `j` into declaration, statement and END lines. */
  predicate SplitsInSections(p: seq<string>, i: int, j: int) {
    0 <= i <= j <= |p| &&
    (forall k :: 0 <= k < i ==> IsDeclarationLine(p[k])) &&
    (forall k :: i <= k < j ==> IsStatementLine(p[k])) &&
    (forall k :: j <= k < |p| ==> IsEndLine(p[k]))
  }

  /**
    The postfix code is the declarations ("name PROGRAM" and DECL lines),
    then the statements ("=" and CALL lines), then the END lines.
   */
  lemma PostfixSections(root: Node)
    ensures exists i, j :: SplitsInSections(Analyze(Some(root)).postfix, i, j)
  {
    var d := DeclWalk(root, SemState(map[], [], [], ""));
    var o := OpsWalk(root, d);
    WalkSections(d, o, EndWalk(root, o));
    assert SplitsInSections(Analyze(Some(root)).postfix, |d.postfix|, |o.postfix|);
  }

  lemma WalkSections(d: SemState, o: SemState, e: SemState)
    requires Extends(d, o) && Extends(o, e)
    requires forall k :: 0 <= k < |d.postfix| ==> IsDeclarationLine(d.postfix[k])
    requires forall k :: |d.postfix| <= k < |o.postfix| ==> IsStatementLine(o.postfix[k])
    requires forall k :: |o.postfix| <= k < |e.postfix| ==> IsEndLine(e.postfix[k])
    ensures SplitsInSections(e.postfix, |d.postfix|, |o.postfix|)
  {
    var p := e.postfix;
    forall k | 0 <= k < |d.postfix| ensures IsDeclarationLine(p[k]) {
      assert p[k] == o.postfix[k] == d.postfix[k];
    }
    forall k | |d.postfix| <= k < |o.postfix| ensures IsStatementLine(p[k]) {
      assert p[k] == o.postfix[k];
    }
  }

  /** The argument errors are the undeclared identifiers of the arguments, in order. */
  lemma {:induction false} ArgumentsErrors(args: seq<Node>, vars: Vars)
    ensures ArgumentsPostfix(args, vars).1 == Undeclared(PreorderAll(args), vars)
    decreases |args|
  {
    if args != [] {
      ConvertErrors(args[0], vars, Conv([], [], []));
      ArgumentsErrors(args[1..], vars);
      UndeclaredAppend(Preorder(args[0]), PreorderAll(args[1..]), vars);
    }
  }

  /**
    A call reports only the undeclared identifiers of its arguments: the
    callee is not looked up and argument types are not compared.
   */
  lemma CallErrors(n: Node, s: SemState)
    ensures ProcessCall(n, s).errors == s.errors + Undeclared(PreorderAll(CallArguments(n.children)), s.vars)
  {
    ArgumentsErrors(CallArguments(n.children), s.vars);
  }

  /** The Op tree of "CALL f(a, b + c)". */
  function CallExample(): Node {
    Inner("Op", [Leaf("KEYWORD", "CALL", 1), Leaf("IDENTIFIER", "f", 1), Leaf("LPAREN", "(", 1),
                 Inner("Arguments", [ExampleA(), Leaf("COMMA", ",", 1), ExampleBC()]),
                 Leaf("RPAREN", ")", 1)])
  }

  function ExampleA(): Node {
    Inner("Expr", [Inner("SimpleExpr", [Leaf("IDENTIFIER", "a", 1)])])
  }

  function ExampleBC(): Node {
    Inner("Expr", [Inner("SimpleExpr", [Leaf("IDENTIFIER", "b", 1)]), Leaf("PLUS", "+", 1),
                   Inner("SimpleExpr", [Leaf("IDENTIFIER", "c", 1)])])
  }

  lemma CallExampleParts()
    ensures CallName(CallExample().children, "") == "f"
    ensures CallArguments(CallExample().children) == [ExampleA(), ExampleBC()]
  {
    var kids := CallExample().children;
    CallExampleName();
    CallExampleExprs();
    CallArgumentsSkip(kids);
    CallArgumentsSkip(kids[1..]);
    CallArgumentsSkip(kids[1..][1..]);
    CallArgumentsLastTwo(kids[1..][1..][1..]);
  }

  lemma CallExampleName()
    ensures CallName(CallExample().children, "") == "f"
  {
    var kids := CallExample().children;
    assert kids[1..][1..][1..] == [kids[3], kids[4]];
    assert [kids[3], kids[4]][1..] == [kids[4]];
    assert [kids[4]][1..] == [];
  }

  /** A child that is not an argument list contributes no arguments. */
  lemma CallArgumentsSkip(kids: seq<Node>)
    requires kids != [] && kids[0].name != "Arguments"
    ensures CallArguments(kids) == CallArguments(kids[1..])
  {
  }

  /** An argument list followed by one more child that is not one. */
  lemma CallArgumentsLastTwo(kids: seq<Node>)
    requires |kids| == 2 && kids[0].name == "Arguments" && kids[1].name != "Arguments"
    ensures CallArguments(kids) == ExprsOf(kids[0].children)
  {
    assert kids[1..][1..] == [];
    assert CallArguments(kids[1..]) == [];
  }

  lemma CallExampleExprs()
    ensures ExprsOf(CallExample().children[3].children) == [ExampleA(), ExampleBC()]
  {
    var k := CallExample().children[3].children;
    assert k[1..][1..] == [ExampleBC()];
    assert [ExampleBC()][1..] == [];
  }

  lemma ExampleAPostfix(vars: Vars)
    ensures ExpressionToPostfix(ExampleA(), vars).0 == "a"
  {
    assert CompleteExpr(ExampleA());
    PostfixMatchesReference(ExampleA(), vars);
  }

  lemma ExampleBCPostfix(vars: Vars)
    ensures ExpressionToPostfix(ExampleBC(), vars).0 == "b c +"
  {
    var bc := ExampleBC();
    assert bc.children[2..] == [bc.children[2]];
    assert CompleteExpr(bc);
    PostfixMatchesReference(bc, vars);
    assert RefPostfix(bc) == ["b", "c", "+"];
    assert ["b", "c", "+"][..2] == ["b", "c"];
    assert ["b", "c"][..1] == ["b"];
  }

  lemma CallExampleArguments(vars: Vars)
    ensures ArgumentsPostfix([ExampleA(), ExampleBC()], vars).0 == "a b c + "
  {
    ExampleAPostfix(vars);
    ExampleBCPostfix(vars);
    TwoArgumentsText(ExampleA(), ExampleBC(), vars);
  }

  /** Two arguments with texts "a" and "b c +" give "a b c + ". */
  lemma TwoArgumentsText(a: Node, bc: Node, vars: Vars)
    requires ExpressionToPostfix(a, vars).0 == "a" && ExpressionToPostfix(bc, vars).0 == "b c +"
    ensures ArgumentsPostfix([a, bc], vars).0 == "a b c + "
  {
    assert [a, bc][1..] == [bc] && [bc][1..] == [];
    ArgumentsPostfixText([bc], vars);
    ArgumentsPostfixText([a, bc], vars);
  }

  /** The text of a non-empty argument list: the first argument's postfix, a space, then the rest. */
  lemma ArgumentsPostfixText(args: seq<Node>, vars: Vars)
    requires args != []
    ensures ArgumentsPostfix(args, vars).0 ==
      ExpressionToPostfix(args[0], vars).0 + " " + ArgumentsPostfix(args[1..], vars).0
  {
  }

  lemma CallExampleCall(s: SemState)
    ensures ProcessCall(CallExample(), s).postfix == s.postfix + ["f a b c + 3 CALL"]
  {
    CallExampleParts();
    CallExampleArguments(s.vars);
    CallLineExample();
  }

  lemma CallLineExample()
    ensures CallLine("f", "a b c + ", 2) == "f a b c + 3 CALL"
  {
    assert NatToString(3) == "3";
    var line := "f " + "a b c + " + "3" + " CALL";
    assert |line| == 16;
    assert forall i :: 0 <= i < 16 ==> line[i] == "f a b c + 3 CALL"[i];
  }

  /** "CALL f(a, b + c)" emits "f a b c + 3 CALL": each argument's postfix, then the argument count plus one. */
  lemma CallExampleLine(s: SemState)
    ensures ProcessOp(CallExample(), s).postfix == s.postfix + ["f a b c + 3 CALL"]
  {
    var op := CallExample();
    assert op.children != [] && IsCallKeyword(op.children[0]);
    assert ProcessOp(op, s) == ProcessCall(op, s);
    CallExampleCall(s);
  }
}
