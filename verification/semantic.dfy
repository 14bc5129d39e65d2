/**
  The semantic analyzer of `Semantic.h`/`Semantic.cpp`: three pre-order
  walks over the parse tree (declarations, statements, END) that keep a
  name -> VarInfo table, collect semantic errors and emit postfix lines.
  The analyzer's mutable members become the state `SemState` threaded
  through pure functions; the variable table is a map with
  insert-if-absent.
 */
module Semantic {
  import opened Wrappers
  import opened Text
  import opened Tokens
  import opened Ast

  /** A declared variable: its name, its declared type and whether it was assigned. */
  datatype VarInfo = VarInfo(name: string, kind: TokenKind, initialized: bool)

  /** The default constructor `VarInfo()`. */
  function DefaultVarInfo(): (v: VarInfo)
    ensures v.name == "" && v.kind == Unknown && !v.initialized
  {
    VarInfo("", Unknown, false)
  }

  /** `VarInfo(n, t)`: `initialized` defaults to false. */
  function MakeVarInfo(name: string, kind: TokenKind): (v: VarInfo)
    ensures v.name == name && v.kind == kind && !v.initialized
  {
    VarInfo(name, kind, false)
  }

  /** `VarInfo::typeToString`. */
  function VarTypeName(v: VarInfo): (s: string)
    ensures s == "INTEGER" <==> v.kind == Integer
    ensures s == "REAL" <==> v.kind == Real
    ensures s == "UNKNOWN" <==> v.kind != Integer && v.kind != Real
  {
    match v.kind
    case Integer => "INTEGER"
    case Real => "REAL"
    case _ => "UNKNOWN"
  }

  type Vars = map<string, VarInfo>

  /** The analyzer's members: the variable table, errors, postfix lines and the program name. */
  datatype SemState = SemState(vars: Vars, errors: seq<string>, postfix: seq<string>, programName: string)

  /** A state only grows: errors and postfix lines are appended, never removed. */
  predicate Extends(s: SemState, s': SemState) {
    s.errors <= s'.errors && s.postfix <= s'.postfix
  }

  // ---------------------------------------------------------------------
  // Checks

  function ErrorAt(line: int, text: string): string {
    "SEMANTIC ERROR at line " + IntToString(line) + ": " + text
  }

  function NotDeclaredMessage(name: string, line: int): string {
    ErrorAt(line, "Variable '" + name + "' is not declared")
  }

  function AlreadyDeclaredMessage(name: string, line: int): string {
    ErrorAt(line, "Variable '" + name + "' is already declared")
  }

  /** The type word of a mismatch message: empty for a type that is neither INTEGER nor REAL. */
  function TypeWord(k: TokenKind): (w: string)
    ensures w == "" <==> k != Integer && k != Real
  {
    if k == Integer then "INTEGER" else if k == Real then "REAL" else ""
  }

  function MismatchMessage(left: TokenKind, right: TokenKind, line: int): string {
    ErrorAt(line, "Type mismatch. Cannot assign " + TypeWord(right) + " to " + TypeWord(left) + " variable")
  }

  function NameMismatchMessage(expected: string, got: string, line: int): string {
    ErrorAt(line, "Program name mismatch. Expected '" + expected + "', got '" + got + "'")
  }

  /** `checkVariableDeclared`: the errors it appends. */
  function CheckDeclared(vars: Vars, name: string, line: int): (errs: seq<string>)
    ensures name in vars <==> errs == []
    ensures name !in vars ==> errs == [NotDeclaredMessage(name, line)]
  {
    if name in vars then [] else [NotDeclaredMessage(name, line)]
  }

  /** `checkVariableNotRedeclared`: the errors it appends. */
  function CheckNotRedeclared(vars: Vars, name: string, line: int): (errs: seq<string>)
    ensures name !in vars <==> errs == []
    ensures name in vars ==> errs == [AlreadyDeclaredMessage(name, line)]
  {
    if name in vars then [AlreadyDeclaredMessage(name, line)] else []
  }

  /** `checkTypeCompatibility`: the errors it appends. */
  function CheckTypes(left: TokenKind, right: TokenKind, line: int): (errs: seq<string>)
    ensures left == right <==> errs == []
    ensures left != right ==> errs == [MismatchMessage(left, right, line)]
  {
    if left != right then [MismatchMessage(left, right, line)] else []
  }

  /** `checkProgramNameMatch`: the errors it appends. */
  function CheckProgramName(programName: string, endName: string, line: int): (errs: seq<string>)
    ensures programName == endName <==> errs == []
    ensures programName != endName ==> errs == [NameMismatchMessage(programName, endName, line)]
  {
    if programName != endName then [NameMismatchMessage(programName, endName, line)] else []
  }

  // ---------------------------------------------------------------------
  // Postfix conversion

  /** The output vector, the operator stack (top at the end) and the errors of `convertToPostfix`. */
  datatype Conv = Conv(out: seq<string>, ops: seq<string>, errors: seq<string>)

  /** The ')' case: pops operators to the output down to the nearest '(', which is discarded. */
  function PopToParen(out: seq<string>, ops: seq<string>): (r: (seq<string>, seq<string>))
    decreases |ops|
  {
    if ops != [] && ops[|ops| - 1] != "(" then PopToParen(out + [ops[|ops| - 1]], ops[..|ops| - 1])
    else if ops != [] then (out, ops[..|ops| - 1])
    else (out, ops)
  }

  /** What `convertToPostfix` does at one node before visiting its children. */
  function ConvertAt(n: Node, vars: Vars, c: Conv): Conv {
    if n.name == "IDENTIFIER" then
      c.(errors := c.errors + CheckDeclared(vars, n.value, n.line), out := c.out + [n.value])
    else if n.name == "INTEGER" || n.name == "REAL" then c.(out := c.out + [n.value])
    else if n.name == "PLUS" then c.(ops := c.ops + ["+"])
    else if n.name == "MINUS" then c.(ops := c.ops + ["-"])
    else if n.name == "LPAREN" then c.(ops := c.ops + ["("])
    else if n.name == "RPAREN" then
      var (out, ops) := PopToParen(c.out, c.ops);
      c.(out := out, ops := ops)
    else c
  }

  /** `convertToPostfix`: pre-order over the whole subtree. */
  function Convert(n: Node, vars: Vars, c: Conv): Conv
    decreases n, 1
  {
    ConvertAll(n.children, vars, ConvertAt(n, vars, c))
  }

  function ConvertAll(kids: seq<Node>, vars: Vars, c: Conv): Conv
    decreases kids, 0
  {
    if kids == [] then c else ConvertAll(kids[1..], vars, Convert(kids[0], vars, c))
  }

  function Reverse<T>(s: seq<T>): (r: seq<T>)
    ensures |r| == |s|
    ensures forall i :: 0 <= i < |s| ==> r[i] == s[|s| - 1 - i]
  {
    if s == [] then [] else Reverse(s[1..]) + [s[0]]
  }

  /**
    `expressionToPostfix`: converts, flushes the remaining operators from the
    top of the stack down, and joins the items with single spaces. Also
    returns the "not declared" errors the conversion reported.
   */
  function ExpressionToPostfix(e: Node, vars: Vars): (r: (string, seq<string>))
  {
    var c := Convert(e, vars, Conv([], [], []));
    (JoinSpaces(c.out + Reverse(c.ops)), c.errors)
  }

  // ---------------------------------------------------------------------
  // Expression types

  datatype Flags = Flags(hasReal: bool, hasInteger: bool)

  /** A node that makes an expression REAL: a REAL constant or an identifier declared REAL. */
  predicate IsRealOperand(n: Node, vars: Vars) {
    n.name == "REAL" || (n.name == "IDENTIFIER" && n.value in vars && vars[n.value].kind == Real)
  }

  /** A node that makes an expression INTEGER: an INTEGER constant or an identifier declared INTEGER. */
  predicate IsIntegerOperand(n: Node, vars: Vars) {
    n.name == "INTEGER" || (n.name == "IDENTIFIER" && n.value in vars && vars[n.value].kind == Integer)
  }

  /** What `checkExpressionTypes` records at one node. */
  function FlagsAt(n: Node, vars: Vars, f: Flags): Flags {
    if n.name == "REAL" then f.(hasReal := true)
    else if n.name == "INTEGER" then f.(hasInteger := true)
    else if n.name == "IDENTIFIER" && n.value in vars then
      (if vars[n.value].kind == Real then f.(hasReal := true)
       else if vars[n.value].kind == Integer then f.(hasInteger := true)
       else f)
    else f
  }

  /** `checkExpressionTypes`: pre-order over the whole subtree, accumulating the two flags. */
  function TypeFlags(n: Node, vars: Vars, f: Flags): Flags
    decreases n, 1
  {
    TypeFlagsAll(n.children, vars, FlagsAt(n, vars, f))
  }

  function TypeFlagsAll(kids: seq<Node>, vars: Vars, f: Flags): Flags
    decreases kids, 0
  {
    if kids == [] then f else TypeFlagsAll(kids[1..], vars, TypeFlags(kids[0], vars, f))
  }

  /** The type `analyzeExpression` gives: UNKNOWN when mixed, REAL when any real, else INTEGER. */
  function ExpressionType(e: Node, vars: Vars): (k: TokenKind)
    ensures k in {Unknown, Real, Integer}
  {
    var f := TypeFlags(e, vars, Flags(false, false));
    if f.hasReal && f.hasInteger then Unknown
    else if f.hasReal then Real
    else Integer
  }

  /**
    `analyzeExpression`: the postfix text, the errors of the conversion, and
    the type (what the three mean is proved in `SemanticFacts`).
   */
  function AnalyzeExpression(e: Node, vars: Vars): (r: (string, seq<string>, TokenKind))
    ensures r.2 in {Unknown, Real, Integer}
  {
    var (postfix, errs) := ExpressionToPostfix(e, vars);
    (postfix, errs, ExpressionType(e, vars))
  }

  // ---------------------------------------------------------------------
  // Declarations walk

  /** The declarations walk: `processBegin` at Begin, the declarations at Descriptions, then every child. */
  function DeclWalk(n: Node, s: SemState): (r: SemState)
    ensures Extends(s, r)
    ensures forall i :: |s.postfix| <= i < |r.postfix| ==> IsDeclarationLine(r.postfix[i])
    decreases n, 1
  {
    var s1 := if n.name == "Begin" then ProcessBegin(n.children, s)
              else if n.name == "Descriptions" then DescriptionsLoop(n.children, Unknown, s)
              else s;
    DeclWalkAll(n.children, s1)
  }

  function DeclWalkAll(kids: seq<Node>, s: SemState): (r: SemState)
    ensures Extends(s, r)
    ensures forall i :: |s.postfix| <= i < |r.postfix| ==> IsDeclarationLine(r.postfix[i])
    decreases kids, 0
  {
    if kids == [] then s else DeclWalkAll(kids[1..], DeclWalk(kids[0], s))
  }

  /** An index of a node called `name` among `kids` with no such node after it. */
  predicate IsLastNamed(kids: seq<Node>, i: int, name: string) {
    0 <= i < |kids| && kids[i].name == name &&
    forall j :: i < j < |kids| ==> kids[j].name != name
  }

  /** An index of an IDENTIFIER among `kids` with no IDENTIFIER after it. */
  predicate IsLastIdentifier(kids: seq<Node>, i: int) {
    IsLastNamed(kids, i, "IDENTIFIER")
  }

  /**
    `processBegin`: every IDENTIFIER child emits "name PROGRAM" and becomes
    the program name, so the last one is the name that stays.
   */
  function ProcessBegin(kids: seq<Node>, s: SemState): (r: SemState)
    ensures r.vars == s.vars && r.errors == s.errors
    ensures s.postfix <= r.postfix && |r.postfix| == |s.postfix| + IdentifierCount(kids)
    ensures forall i :: |s.postfix| <= i < |r.postfix| ==> IsProgramLine(r.postfix[i])
    ensures IdentifierCount(kids) == 0 ==> r.programName == s.programName
    ensures forall i :: IsLastIdentifier(kids, i) ==> r.programName == kids[i].value
    decreases |kids|
  {
    if kids == [] then s
    else
      var s1 := if kids[0].name == "IDENTIFIER" then
                  s.(programName := kids[0].value, postfix := s.postfix + [kids[0].value + " PROGRAM"])
                else s;
      LastIdentifierShift(kids);
      ProcessBegin(kids[1..], s1)
  }

  /** The last IDENTIFIER of `kids` is the first one when no other follows it, else it lies in `kids[1..]`. */
  lemma LastIdentifierShift(kids: seq<Node>)
    requires kids != []
    ensures forall i :: IsLastIdentifier(kids, i) && i > 0 ==> IsLastIdentifier(kids[1..], i - 1)
    ensures IsLastIdentifier(kids, 0) ==> IdentifierCount(kids[1..]) == 0
  {
    if IsLastIdentifier(kids, 0) {
      NoIdentifierCount(kids[1..]);
    }
  }

  /** A list without IDENTIFIER nodes counts none. */
  lemma {:induction false} NoIdentifierCount(kids: seq<Node>)
    requires forall j :: 0 <= j < |kids| ==> kids[j].name != "IDENTIFIER"
    ensures IdentifierCount(kids) == 0
    decreases |kids|
  {
    if kids != [] {
      NoIdentifierCount(kids[1..]);
    }
  }

  predicate EndsWith(line: string, suffix: string) {
    |suffix| <= |line| && line[|line| - |suffix|..] == suffix
  }

  predicate IsProgramLine(line: string) { EndsWith(line, " PROGRAM") }

  predicate IsDeclLine(line: string) { EndsWith(line, " DECL") }

  /** A line of the declarations walk. */
  predicate IsDeclarationLine(line: string) { IsProgramLine(line) || IsDeclLine(line) }

  /**
    The loop over the children of a Descriptions node. The current type
    starts UNKNOWN for each Descriptions node and carries over from one
    Descr to the next.
   */
  function DescriptionsLoop(kids: seq<Node>, current: TokenKind, s: SemState): (r: SemState)
    ensures r.programName == s.programName && Extends(s, r)
    ensures forall i :: |s.postfix| <= i < |r.postfix| ==> IsDeclLine(r.postfix[i])
    ensures s.vars.Keys <= r.vars.Keys && forall x :: x in s.vars ==> r.vars[x] == s.vars[x]
    decreases |kids|
  {
    if kids == [] then s
    else if kids[0].name == "Descr" then
      var (current', s') := DescrChildren(kids[0].children, current, s);
      DescriptionsLoop(kids[1..], current', s')
    else DescriptionsLoop(kids[1..], current, s)
  }

  /** The children of one Descr: a Type sets the current type, a VarList declares names with it. */
  function DescrChildren(kids: seq<Node>, current: TokenKind, s: SemState): (r: (TokenKind, SemState))
    ensures r.1.programName == s.programName && Extends(s, r.1)
    ensures forall i :: |s.postfix| <= i < |r.1.postfix| ==> IsDeclLine(r.1.postfix[i])
    ensures s.vars.Keys <= r.1.vars.Keys && forall x :: x in s.vars ==> r.1.vars[x] == s.vars[x]
    decreases |kids|
  {
    if kids == [] then (current, s)
    else if kids[0].name == "Type" then DescrChildren(kids[1..], TypeOfChildren(kids[0].children, current), s)
    else if kids[0].name == "VarList" then DescrChildren(kids[1..], current, ProcessVarList(kids[0], current, s))
    else DescrChildren(kids[1..], current, s)
  }

  /** A child of a Type node that names a type. */
  predicate IsTypeWord(n: Node) { n.value == "INTEGER" || n.value == "REAL" }

  /** The kind a type word names. */
  function KindOfWord(n: Node): TokenKind {
    if n.value == "INTEGER" then Integer else Real
  }

  /** An index of a type word among `kids` with no type word after it. */
  predicate IsLastTypeWord(kids: seq<Node>, i: int) {
    0 <= i < |kids| && IsTypeWord(kids[i]) && forall j :: i < j < |kids| ==> !IsTypeWord(kids[j])
  }

  /**
    The Type node's children: each one valued INTEGER or REAL sets the type,
    so the last such child decides, and without one the type is unchanged.
   */
  function TypeOfChildren(kids: seq<Node>, current: TokenKind): (k: TokenKind)
    ensures (forall i :: 0 <= i < |kids| ==> !IsTypeWord(kids[i])) ==> k == current
    ensures forall i :: IsLastTypeWord(kids, i) ==> k == KindOfWord(kids[i])
    decreases |kids|
  {
    if kids == [] then current
    else
      var k := if kids[0].value == "INTEGER" then Integer else if kids[0].value == "REAL" then Real else current;
      LastTypeWordShift(kids);
      TypeOfChildren(kids[1..], k)
  }

  /** The last type word of `kids` is the first child when no other follows it, else it lies in `kids[1..]`. */
  lemma LastTypeWordShift(kids: seq<Node>)
    requires kids != []
    ensures forall i :: IsLastTypeWord(kids, i) && i > 0 ==> IsLastTypeWord(kids[1..], i - 1)
    ensures IsLastTypeWord(kids, 0) ==> forall i :: 0 <= i < |kids[1..]| ==> !IsTypeWord(kids[1..][i])
  {
  }

  /** The type word of a DECL line: INTEGER for INTEGER, REAL for anything else. */
  function DeclTypeWord(k: TokenKind): (w: string)
    ensures w == "INTEGER" <==> k == Integer
    ensures w == "REAL" <==> k != Integer
  {
    if k == Integer then "INTEGER" else "REAL"
  }

  /** " n1 n2 ... nk". */
  function SpacedNames(names: seq<string>): string {
    if names == [] then "" else " " + names[0] + SpacedNames(names[1..])
  }

  /** Appending a name to the list appends it, after a space, to the text. */
  lemma {:induction false} SpacedNamesSnoc(names: seq<string>, x: string)
    ensures SpacedNames(names + [x]) == SpacedNames(names) + " " + x
    decreases |names|
  {
    if names != [] {
      assert (names + [x])[1..] == names[1..] + [x];
      SpacedNamesSnoc(names[1..], x);
    }
  }

  /** A head word followed by the spaced names is the words joined with single spaces. */
  lemma {:induction false} JoinSpacesHead(head: string, names: seq<string>)
    ensures JoinSpaces([head] + names) == head + SpacedNames(names)
    decreases |names|
  {
    if names != [] {
      var last := |names| - 1;
      assert ([head] + names)[..|names|] == [head] + names[..last];
      JoinSpacesHead(head, names[..last]);
      assert names[..last] + [names[last]] == names;
      SpacedNamesSnoc(names[..last], names[last]);
    }
  }

  /** The fields of a DECL line, joined with single spaces. */
  lemma DeclFields(word: string, names: seq<string>, count: string)
    ensures JoinSpaces([word] + names + [count, "DECL"]) == word + SpacedNames(names) + " " + count + " DECL"
  {
    assert [word] + names + [count, "DECL"] == [word] + (names + [count, "DECL"]);
    JoinSpacesHead(word, names + [count, "DECL"]);
    assert names + [count] + ["DECL"] == names + [count, "DECL"];
    SpacedNamesSnoc(names + [count], "DECL");
    SpacedNamesSnoc(names, count);
  }

  /**
    "<TYPE> n1 ... nk <k+1> DECL": the type word, the new names, the count
    of names plus one and DECL, separated by single spaces.
   */
  function DeclLine(k: TokenKind, names: seq<string>): (line: string)
    ensures line == JoinSpaces([DeclTypeWord(k)] + names + [NatToString(|names| + 1), "DECL"])
    ensures IsDeclLine(line)
  {
    var line := DeclTypeWord(k) + SpacedNames(names) + " " + NatToString(|names| + 1) + " DECL";
    assert line[|line| - 5..] == " DECL";
    DeclFields(DeclTypeWord(k), names, NatToString(|names| + 1));
    line
  }

  /** The values of the IDENTIFIER nodes among `kids`. */
  function IdentifierValues(kids: seq<Node>): set<string>
    decreases |kids|
  {
    if kids == [] then {}
    else (if kids[0].name == "IDENTIFIER" then {kids[0].value} else {}) + IdentifierValues(kids[1..])
  }

  /** The number of IDENTIFIER nodes among `kids`. */
  function IdentifierCount(kids: seq<Node>): nat
    decreases |kids|
  {
    if kids == [] then 0
    else (if kids[0].name == "IDENTIFIER" then 1 else 0) + IdentifierCount(kids[1..])
  }

  predicate Distinct(names: seq<string>) {
    forall i, j :: 0 <= i < j < |names| ==> names[i] != names[j]
  }

  /**
    The identifiers of a VarList, in order: a name already in the table is an
    error and changes nothing, a new name is added with the given type. The
    table only gains the listed names, earlier entries keep their type, and
    every identifier gives either one error or one new name.
   */
  function VarListLoop(kids: seq<Node>, k: TokenKind, vars: Vars, errs: seq<string>, names: seq<string>)
    : (r: (Vars, seq<string>, seq<string>))
    requires Distinct(names) && forall x :: x in names ==> x in vars
    ensures errs <= r.1 && names <= r.2
    ensures r.0.Keys == vars.Keys + IdentifierValues(kids)
    ensures forall x :: x in vars ==> r.0[x] == vars[x]
    ensures forall x :: x in r.0 && x !in vars ==> r.0[x] == MakeVarInfo(x, k)
    ensures forall x :: x in r.2[|names|..] <==> x in IdentifierValues(kids) && x !in vars
    ensures Distinct(r.2)
    ensures (|r.1| - |errs|) + (|r.2| - |names|) == IdentifierCount(kids)
    decreases |kids|
  {
    if kids == [] then (vars, errs, names)
    else if kids[0].name == "IDENTIFIER" then
      var name := kids[0].value;
      var errs' := errs + CheckNotRedeclared(vars, name, kids[0].line);
      if name !in vars then
        var r := VarListLoop(kids[1..], k, vars[name := MakeVarInfo(name, k)], errs', names + [name]);
        SuffixAfterName(r.2, names, name);
        r
      else VarListLoop(kids[1..], k, vars, errs', names)
    else VarListLoop(kids[1..], k, vars, errs, names)
  }

  /** What follows `names` in a list extending `names + [name]` is `name` and then the rest. */
  lemma SuffixAfterName(all: seq<string>, names: seq<string>, name: string)
    requires names + [name] <= all
    ensures all[|names|..] == [name] + all[|names| + 1..]
    ensures forall x :: x in all[|names|..] <==> x == name || x in all[|names| + 1..]
  {
  }

  /**
    `processVarList`: declares the new names with type `k` and emits one DECL
    line exactly when at least one listed name was new; a repeated name is
    reported and keeps its first declaration.
   */
  function ProcessVarList(n: Node, k: TokenKind, s: SemState): (r: SemState)
    ensures r.programName == s.programName && Extends(s, r)
    ensures forall i :: |s.postfix| <= i < |r.postfix| ==> IsDeclLine(r.postfix[i])
    ensures r.vars.Keys == s.vars.Keys + IdentifierValues(n.children)
    ensures forall x :: x in s.vars ==> r.vars[x] == s.vars[x]
    ensures forall x :: x in r.vars && x !in s.vars ==> r.vars[x] == MakeVarInfo(x, k)
    ensures |r.postfix| == |s.postfix| + 1 <==> IdentifierValues(n.children) - s.vars.Keys != {}
    ensures |r.postfix| == |s.postfix| + 1 ==>
      r.postfix[|s.postfix|] == DeclLine(k, VarListLoop(n.children, k, s.vars, [], []).2)
    ensures |r.postfix| == |s.postfix| || |r.postfix| == |s.postfix| + 1
    ensures |r.errors| - |s.errors| <= IdentifierCount(n.children)
  {
    var (vars, errs, names) := VarListLoop(n.children, k, s.vars, [], []);
    NewNamesNonEmpty(names, IdentifierValues(n.children), s.vars);
    s.(vars := vars, errors := s.errors + errs,
       postfix := if names == [] then s.postfix else s.postfix + [DeclLine(k, names)])
  }

  /** The new names list is empty exactly when no listed name was new. */
  lemma NewNamesNonEmpty(names: seq<string>, listed: set<string>, vars: Vars)
    requires forall x :: x in names[0..] <==> x in listed && x !in vars
    ensures names != [] <==> listed - vars.Keys != {}
  {
    if names != [] {
      assert names[0] in names[0..];
      assert names[0] in listed - vars.Keys;
    } else {
      assert names[0..] == [];
      assert forall x :: x in listed ==> x in vars;
    }
  }

  // ---------------------------------------------------------------------
  // Statements walk

  predicate IsStatementLine(line: string) { EndsWith(line, " =") || EndsWith(line, " CALL") }

  /** The statements walk: at Operators each Op child is processed in order, then every child is visited. */
  function OpsWalk(n: Node, s: SemState): (r: SemState)
    ensures r.programName == s.programName && Extends(s, r)
    ensures forall i :: |s.postfix| <= i < |r.postfix| ==> IsStatementLine(r.postfix[i])
    decreases n, 1
  {
    var s1 := if n.name == "Operators" then OpsLoop(n.children, s) else s;
    OpsWalkAll(n.children, s1)
  }

  function OpsWalkAll(kids: seq<Node>, s: SemState): (r: SemState)
    ensures r.programName == s.programName && Extends(s, r)
    ensures forall i :: |s.postfix| <= i < |r.postfix| ==> IsStatementLine(r.postfix[i])
    decreases kids, 0
  {
    if kids == [] then s else OpsWalkAll(kids[1..], OpsWalk(kids[0], s))
  }

  function OpsLoop(kids: seq<Node>, s: SemState): (r: SemState)
    ensures r.programName == s.programName && Extends(s, r)
    ensures forall i :: |s.postfix| <= i < |r.postfix| ==> IsStatementLine(r.postfix[i])
    decreases |kids|
  {
    if kids == [] then s
    else OpsLoop(kids[1..], if kids[0].name == "Op" then ProcessOp(kids[0], s) else s)
  }

  /** The flags and nodes `processOpNode` collects from an Op's children. */
  datatype OpScan = OpScan(isAssignment: bool, isCall: bool, id: Option<Node>, expr: Option<Node>)

  predicate IsCallKeyword(n: Node) { n.name == "KEYWORD" && n.value == "CALL" }

  predicate HasCallKeyword(kids: seq<Node>) { exists i :: 0 <= i < |kids| && IsCallKeyword(kids[i]) }

  predicate HasChildNamed(kids: seq<Node>, name: string) { exists i :: 0 <= i < |kids| && kids[i].name == name }

  function ScanOp(kids: seq<Node>, sc: OpScan): (r: OpScan)
    requires sc.isAssignment ==> sc.id.Some?
    ensures r.isAssignment ==> r.id.Some?
    ensures r.isCall <==> sc.isCall || HasCallKeyword(kids)
    ensures r.expr.Some? <==> sc.expr.Some? || HasChildNamed(kids, "Expr")
    ensures r.isAssignment ==> sc.isAssignment || HasChildNamed(kids, "IDENTIFIER")
    ensures sc.isCall ==> r.isAssignment == sc.isAssignment
    ensures !sc.isCall && !HasCallKeyword(kids) ==>
              (r.isAssignment <==> sc.isAssignment || HasChildNamed(kids, "IDENTIFIER"))
    ensures !HasChildNamed(kids, "IDENTIFIER") ==> r.id == sc.id
    ensures !HasChildNamed(kids, "Expr") ==> r.expr == sc.expr
    ensures !sc.isCall && !HasCallKeyword(kids) ==>
              forall i :: IsLastNamed(kids, i, "IDENTIFIER") ==> r.id == Some(kids[i])
    ensures forall i :: IsLastNamed(kids, i, "Expr") ==> r.expr == Some(kids[i])
    decreases |kids|
  {
    if kids == [] then sc
    else
      var c := kids[0];
      var sc' := if c.name == "IDENTIFIER" && !sc.isCall then sc.(isAssignment := true, id := Some(c))
                 else if IsCallKeyword(c) then sc.(isCall := true)
                 else if c.name == "Expr" then sc.(expr := Some(c))
                 else sc;
      ChildrenShift(kids);
      LastNamedShift(kids, "IDENTIFIER");
      LastNamedShift(kids, "Expr");
      ScanOp(kids[1..], sc')
  }

  /** The last `name` node of `kids` is the first one when no other follows it, else it lies in `kids[1..]`. */
  lemma LastNamedShift(kids: seq<Node>, name: string)
    requires kids != []
    ensures forall i :: IsLastNamed(kids, i, name) && i > 0 ==> IsLastNamed(kids[1..], i - 1, name)
    ensures IsLastNamed(kids, 0, name) ==> !HasChildNamed(kids[1..], name)
  {
  }

  /** An existence over `kids` is one at its head or one over its tail. */
  lemma ChildrenShift(kids: seq<Node>)
    requires kids != []
    ensures HasCallKeyword(kids) <==> IsCallKeyword(kids[0]) || HasCallKeyword(kids[1..])
    ensures forall name :: HasChildNamed(kids, name) <==> kids[0].name == name || HasChildNamed(kids[1..], name)
  {
    if HasCallKeyword(kids) && !IsCallKeyword(kids[0]) {
      var i :| 0 <= i < |kids| && IsCallKeyword(kids[i]);
      assert IsCallKeyword(kids[1..][i - 1]);
    }
    if HasCallKeyword(kids[1..]) {
      var i :| 0 <= i < |kids[1..]| && IsCallKeyword(kids[1..][i]);
      assert IsCallKeyword(kids[i + 1]);
    }
    forall name | HasChildNamed(kids, name)
      ensures kids[0].name == name || HasChildNamed(kids[1..], name)
    {
      var i :| 0 <= i < |kids| && kids[i].name == name;
      if i > 0 { assert kids[1..][i - 1].name == name; }
    }
    forall name | HasChildNamed(kids[1..], name)
      ensures HasChildNamed(kids, name)
    {
      var i :| 0 <= i < |kids[1..]| && kids[1..][i].name == name;
      assert kids[i + 1].name == name;
    }
  }

  /**
    `processOpNode`: an assignment when an IDENTIFIER (before any CALL) and an
    Expr are present, else a call when a CALL keyword is present, else nothing.
   */
  function ProcessOp(op: Node, s: SemState): (r: SemState)
    ensures r.programName == s.programName && Extends(s, r)
    ensures forall i :: |s.postfix| <= i < |r.postfix| ==> IsStatementLine(r.postfix[i])
    ensures !HasCallKeyword(op.children) && !(HasChildNamed(op.children, "IDENTIFIER") && HasChildNamed(op.children, "Expr"))
            ==> r == s
    ensures op.children != [] && IsCallKeyword(op.children[0]) ==> r == ProcessCall(op, s)
    ensures !HasCallKeyword(op.children) ==>
      forall i, j :: IsLastIdentifier(op.children, i) && IsLastNamed(op.children, j, "Expr") ==>
        r == ProcessAssignment(op.children[i], op.children[j], s)
    ensures |r.postfix| <= |s.postfix| + 1
  {
    var sc := ScanOp(op.children, OpScan(false, false, None, None));
    if sc.isAssignment && sc.expr.Some? then ProcessAssignment(sc.id.value, sc.expr.value, s)
    else if sc.isCall then ProcessCall(op, s)
    else s
  }

  /** "name postfix =". */
  function AssignmentLine(name: string, postfix: string): (line: string)
    ensures IsStatementLine(line)
  {
    var line := name + " " + postfix + " =";
    assert line[|line| - 2..] == " =";
    line
  }

  /**
    `processAssignment`: the target must be declared; the expression is
    converted (reporting undeclared identifiers) and typed; a declared target
    is checked against the expression type, marked initialized, and gets its
    postfix line.
   */
  function ProcessAssignment(id: Node, e: Node, s: SemState): (r: SemState)
    ensures r.programName == s.programName && Extends(s, r)
    ensures forall i :: |s.postfix| <= i < |r.postfix| ==> IsStatementLine(r.postfix[i])
    ensures id.value !in s.vars ==>
      r.vars == s.vars && r.postfix == s.postfix &&
      r.errors == s.errors + [NotDeclaredMessage(id.value, id.line)] + ExpressionToPostfix(e, s.vars).1
    ensures id.value in s.vars ==>
      r.vars == s.vars[id.value := s.vars[id.value].(initialized := true)] &&
      r.postfix == s.postfix + [AssignmentLine(id.value, ExpressionToPostfix(e, s.vars).0)] &&
      r.errors == s.errors + ExpressionToPostfix(e, s.vars).1 +
                  (if s.vars[id.value].kind == ExpressionType(e, s.vars) then []
                   else [MismatchMessage(s.vars[id.value].kind, ExpressionType(e, s.vars), id.line)])
  {
    var (text, errs, exprType) := AnalyzeExpression(e, s.vars);
    if id.value in s.vars then
      var v := s.vars[id.value];
      s.(errors := s.errors + errs + CheckTypes(v.kind, exprType, id.line),
         vars := s.vars[id.value := v.(initialized := true)],
         postfix := s.postfix + [AssignmentLine(id.value, text)])
    else
      s.(errors := s.errors + CheckDeclared(s.vars, id.value, id.line) + errs)
  }

  /** The callee: the first IDENTIFIER child (taken while none has been found). */
  function CallName(kids: seq<Node>, name: string): (r: string)
    ensures name != "" ==> r == name
    ensures name == "" && r != "" ==>
      exists i :: 0 <= i < |kids| && kids[i].name == "IDENTIFIER" && kids[i].value == r &&
        forall j :: 0 <= j < i && kids[j].name == "IDENTIFIER" ==> kids[j].value == ""
    ensures name == "" && r == "" ==> forall i :: 0 <= i < |kids| && kids[i].name == "IDENTIFIER" ==> kids[i].value == ""
    decreases |kids|
  {
    if kids == [] then name
    else CallName(kids[1..], if kids[0].name == "IDENTIFIER" && name == "" then kids[0].value else name)
  }

  /** The Expr children of the Arguments children, in order. */
  function CallArguments(kids: seq<Node>): (args: seq<Node>)
    ensures forall a :: a in args ==> a.name == "Expr"
    ensures forall a :: a in args <==>
      exists i :: 0 <= i < |kids| && kids[i].name == "Arguments" && a in kids[i].children && a.name == "Expr"
    decreases |kids|
  {
    if kids == [] then []
    else
      (if kids[0].name == "Arguments" then ExprsOf(kids[0].children) else []) + CallArguments(kids[1..])
  }

  function ExprsOf(kids: seq<Node>): (es: seq<Node>)
    ensures forall a :: a in es <==> a in kids && a.name == "Expr"
    decreases |kids|
  {
    if kids == [] then []
    else (if kids[0].name == "Expr" then [kids[0]] else []) + ExprsOf(kids[1..])
  }

  /** "a1 a2 ... an " (each argument's postfix followed by a space) and the conversion errors. */
  function ArgumentsPostfix(args: seq<Node>, vars: Vars): (r: (string, seq<string>))
    decreases |args|
  {
    if args == [] then ("", [])
    else
      var (text, errs, _) := AnalyzeExpression(args[0], vars);
      var (rest, restErrs) := ArgumentsPostfix(args[1..], vars);
      (text + " " + rest, errs + restErrs)
  }

  /** "callee a1 ... an <n+1> CALL". */
  function CallLine(callee: string, argsText: string, count: nat): (line: string)
    ensures IsStatementLine(line)
  {
    var line := callee + " " + argsText + NatToString(count + 1) + " CALL";
    assert line[|line| - 5..] == " CALL";
    line
  }

  /** `processCall`: the callee is not looked up and argument types are not checked. */
  function ProcessCall(n: Node, s: SemState): (r: SemState)
    ensures r.programName == s.programName && Extends(s, r)
    ensures r.vars == s.vars
    ensures forall i :: |s.postfix| <= i < |r.postfix| ==> IsStatementLine(r.postfix[i])
    ensures |r.postfix| == |s.postfix| + 1
  {
    var callee := CallName(n.children, "");
    var args := CallArguments(n.children);
    var (text, errs) := ArgumentsPostfix(args, s.vars);
    s.(errors := s.errors + errs, postfix := s.postfix + [CallLine(callee, text, |args|)])
  }

  // ---------------------------------------------------------------------
  // END walk

  predicate IsEndLine(line: string) { EndsWith(line, " END") }

  /** The END walk: `processEnd` at every End node, then every child. */
  function EndWalk(n: Node, s: SemState): (r: SemState)
    ensures r.vars == s.vars && r.programName == s.programName && Extends(s, r)
    ensures forall i :: |s.postfix| <= i < |r.postfix| ==> IsEndLine(r.postfix[i])
    decreases n, 1
  {
    var s1 := if n.name == "End" then ProcessEnd(n.children, s) else s;
    EndWalkAll(n.children, s1)
  }

  function EndWalkAll(kids: seq<Node>, s: SemState): (r: SemState)
    ensures r.vars == s.vars && r.programName == s.programName && Extends(s, r)
    ensures forall i :: |s.postfix| <= i < |r.postfix| ==> IsEndLine(r.postfix[i])
    decreases kids, 0
  {
    if kids == [] then s else EndWalkAll(kids[1..], EndWalk(kids[0], s))
  }

  /** The last IDENTIFIER child's value and line; ("", -1) when there is none. */
  function LastIdentifier(kids: seq<Node>, name: string, line: int): (r: (string, int))
    ensures IdentifierCount(kids) == 0 ==> r == (name, line)
    ensures forall i :: IsLastIdentifier(kids, i) ==> r == (kids[i].value, kids[i].line)
    decreases |kids|
  {
    if kids == [] then (name, line)
    else
      LastIdentifierShift(kids);
      if kids[0].name == "IDENTIFIER" then LastIdentifier(kids[1..], kids[0].value, kids[0].line)
      else LastIdentifier(kids[1..], name, line)
  }

  /** "name END". */
  function EndLine(name: string): (line: string)
    ensures IsEndLine(line)
  {
    var line := name + " END";
    assert line[|line| - 4..] == " END";
    line
  }

  /** `processEnd`: with an END name, checks it against the program name and emits "name END". */
  function ProcessEnd(kids: seq<Node>, s: SemState): (r: SemState)
    ensures r.vars == s.vars && r.programName == s.programName && Extends(s, r)
    ensures forall i :: |s.postfix| <= i < |r.postfix| ==> IsEndLine(r.postfix[i])
    ensures IdentifierCount(kids) == 0 ==> r == s
    ensures forall i :: IsLastIdentifier(kids, i) && kids[i].value == "" ==> r == s
    ensures forall i :: IsLastIdentifier(kids, i) && kids[i].value != "" ==>
      r.postfix == s.postfix + [EndLine(kids[i].value)] &&
      (r.errors == s.errors <==> s.programName == kids[i].value) &&
      (s.programName != kids[i].value ==>
         r.errors == s.errors + [NameMismatchMessage(s.programName, kids[i].value, kids[i].line)])
  {
    var (name, line) := LastIdentifier(kids, "", -1);
    if name != "" then
      s.(errors := s.errors + CheckProgramName(s.programName, name, line), postfix := s.postfix + [EndLine(name)])
    else s
  }

  // ---------------------------------------------------------------------
  // The analysis

  /** The result of `analyze`: the lines it writes, the semantic errors, the postfix code and the table. */
  datatype Analysis = Analysis(output: seq<string>, errors: seq<string>, postfix: seq<string>, vars: Vars)

  /**
    `analyze`: without a tree it only writes "ERROR: AST is empty"; otherwise
    it runs the declarations, statements and END walks in that order and
    writes each postfix line as it is produced.
   */
  function Analyze(root: Option<Node>): (r: Analysis)
    ensures root.None? ==> r == Analysis(["ERROR: AST is empty"], [], [], map[])
    ensures root.Some? ==> r.output == r.postfix
  {
    match root
    case None => Analysis(["ERROR: AST is empty"], [], [], map[])
    case Some(n) =>
      var s := EndWalk(n, OpsWalk(n, DeclWalk(n, SemState(map[], [], [], ""))));
      Analysis(s.postfix, s.errors, s.postfix, s.vars)
  }
}
