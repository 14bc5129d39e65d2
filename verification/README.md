# YaMP front end in Dafny

A functional model of the YaMP front end for a tiny Pascal-like language.

A program has this shape:

```
PROGRAM name
INTEGER a, b
REAL c
a = b + 1
CALL f(a, c)
END name
```

The front end handles it in four stages, and the model follows each of them:

- **Lexer.** Splits the source into tokens: keywords, identifiers, integer and real constants, `= + - , ( )`, and ERROR tokens for anything else. It counts lines and records the first token of each spelling in an open-addressing lexeme hash table.
- **Driver (`main`).** Drops the ERROR and UNKNOWN tokens.
- **Parser.** A recursive-descent parser that builds the syntax tree (`Program`, `Begin`, `Descriptions`, `Descr`, `Type`, `VarList`, `Operators`, `Op`, `Arguments`, `Expr`, `SimpleExpr`, `End` and token leaves). It collects `SYNTAX ERROR` messages and recovers from errors.
- **Semantic analyzer.** Walks the tree. It:
  - keeps a variable table;
  - reports undeclared variables, redeclarations, type mismatches and a program-name mismatch;
  - emits postfix code: `name PROGRAM`, `INTEGER a b 3 DECL`, `a b 1 + =`, `f a c 3 CALL`, `name END`.

## Modules

Each module is a set of pure functions over immutable values:

| module | file | models |
|---|---|---|
| `Wrappers` | wrappers.dfy | `Option` |
| `Text` | text.dfy | character classes, upper-casing, decimal rendering of line numbers, space-joining |
| `Tokens` | tokens.dfy | the token record and the kind names |
| `LexemeTable` | hashtable.dfy | the generic open-addressing table: hashing, linear probing, insert, lookup, listing |
| `Lexer` | lexer.dfy | the cursor with its line counter, `nextToken` and `run` |
| `Ast` | ast.dfy | the tree node |
| `Parser` | parser.dfy | every `parse…` routine, the four error-recovery scans and the message format |
| `ParserFacts` | parser_facts.dfy | an error-free parse spells back its input; the error paths |
| `Semantic` | semantic.dfy | the analyzer's walks, checks and postfix conversion |
| `SemanticFacts` | semantic_facts.dfy | the postfix conversion against a reference reading; the type rules; the layout of the postfix code |
| `Pipeline` | pipeline.dfy | `main`'s token filter and the stage composition |

The parser's state is an immutable `PState(idx, errors)`: the index of the current token and the error messages so far. Each `parse…` function returns the node it built together with the new state. The semantic analyzer similarly threads an immutable `SemState`:

- the variable table, a map from name to `VarInfo`;
- the error list;
- the postfix lines;
- the program name.

## Model

| member | source | states |
|---|---|---|
| Tokens.DefaultToken | YandMP/YandMP/Token.h:27 | a default token has an empty lexeme, kind UNKNOWN and line 1 |
| Tokens.MakeToken | YandMP/YandMP/Token.h:29-31 | the two-argument constructor keeps lexeme and kind and starts at line 1 |
| Tokens.KindNameInjective | YandMP/YandMP/Token.h:45-59 | distinct token kinds have distinct printed names |
| LexemeTable.NewTableValid | YandMP/YandMP/HashTable.h:36-38 | a fresh table has every slot empty, size 0, and satisfies the probing invariant |
| LexemeTable.HashInt | YandMP/YandMP/HashTable.h:26-28 | an integer key is folded to a non-negative value below 2^31 and then reduced to a slot index in range |
| LexemeTable.HashIndependentOfWidth | YandMP/YandMP/HashTable.h:29-33 | the masked rolling hash `h*131 + c` is the same whatever the word width (any multiple of 2^31), so it equals the polynomial hash mod 2^31 |
| LexemeTable.Scan | YandMP/YandMP/HashTable.h:48-55 | the probe visits slots cyclically from the home slot. It stops at the first slot holding the lexeme, or just past the first never-used slot, or after a full cycle. Every slot passed does not hold the lexeme |
| LexemeTable.Insert | YandMP/YandMP/HashTable.h:43-71 | an insert either returns the slot that already holds the lexeme, or fills one previously free slot and counts it, or reports -1 on a full table and changes nothing |
| LexemeTable.InsertLoop | YandMP/YandMP/HashTable.h:43-71 | the imperative probing loop computes exactly the functional insert |
| LexemeTable.InsertExisting | YandMP/YandMP/HashTable.h:48-55 | inserting a lexeme already present returns its slot and leaves the table unchanged |
| LexemeTable.InsertFull | YandMP/YandMP/HashTable.h:58-60 | -1 is returned exactly when every slot is occupied and the lexeme is absent |
| LexemeTable.InsertFresh | YandMP/YandMP/HashTable.h:63-70 | an absent lexeme goes into the first free slot after its home slot, with all slots before it occupied, and the size grows by one |
| LexemeTable.InsertIntoEmpty | YandMP/YandMP/HashTable.h:48-70 | in an empty table the first insert lands one slot after the home slot, because the probe steps before it tests |
| LexemeTable.InsertPreservesValid | YandMP/YandMP/HashTable.h:43-71 | inserting keeps the invariant that each lexeme is stored once and is reachable by its probe, with the size counting the occupied slots |
| LexemeTable.InsertIdempotent | YandMP/YandMP/HashTable.h:43-71 | inserting the same lexeme twice is inserting it once |
| LexemeTable.InsertThenAtIndex | YandMP/YandMP/HashTable.h:74-78 | the index an insert returns reads back, through `atIndex`, an entry with the inserted lexeme |
| LexemeTable.AtIndex | YandMP/YandMP/HashTable.h:74-78 | a lookup yields an entry exactly when the index is in range and the slot is live, and then it is that slot's entry |
| LexemeTable.ScanFindsPresent | YandMP/YandMP/HashTable.h:48-55 | in a valid table the probe for a stored lexeme finds it in the slot that holds it |
| LexemeTable.LiveSlots | YandMP/YandMP/HashTable.h:84-91 | the listed slots are exactly the live ones, in increasing order |
| LexemeTable.Listing | YandMP/YandMP/HashTable.h:84-91 | the listing has one line per live slot, in slot order, each with the kind, lexeme and slot index |
| Text.NatToStringRoundTrip | YandMP/YandMP/Synt.cpp:80-81 | the decimal line number in a message reads back as the number |
| Lexer.GetCharCountsNewline | YandMP/YandMP/Lexer.cpp:14-20 | reading one character advances the line exactly when the character is a newline |
| Lexer.SkipWhitespace | YandMP/YandMP/Lexer.cpp:26-28 | skipping stops at the first non-space character or the end, passes only spaces, and counts the newlines passed |
| Lexer.ScanWord | YandMP/YandMP/Lexer.cpp:43-55 | a word is the maximal run of letters. It is a keyword, spelled in upper case, exactly when its upper-case form is one of the keywords; otherwise it is an identifier spelled as written |
| Lexer.ScanNumber | YandMP/YandMP/Lexer.cpp:57-95 | a number is the maximal digit run plus an optional fraction. It is an ERROR exactly on a leading zero followed by a digit or on a dot without digits after it, REAL when it has a fraction, and INTEGER otherwise |
| Lexer.ScanSymbol | YandMP/YandMP/Lexer.cpp:97-110 | any other character is a one-character token, an ERROR exactly when it is not one of `= + - , ( )` |
| Lexer.NextToken | YandMP/YandMP/Lexer.cpp:36-111 | after skipping spaces, the end of input gives an empty UNKNOWN token; otherwise a non-empty token of known kind spelled from the non-space characters it consumed. Its line counts the newlines before it |
| Lexer.Steps | YandMP/YandMP/Lexer.cpp:126-136 | the run's tokens are non-empty, of known kind, and occupy disjoint, increasing spans of the input |
| Lexer.StepsCoverInput | YandMP/YandMP/Lexer.cpp:126-136 | concatenating the spans of all tokens gives back the input with its whitespace removed, so nothing is lost or duplicated |
| Lexer.RunProperties | YandMP/YandMP/Lexer.cpp:113-136 | each token of a run is spelled from its span, its line is one plus the newlines before it, and lines never decrease |
| Lexer.ErrorLinesCount | YandMP/YandMP/Lexer.cpp:132-134 | one diagnostic line is written per ERROR token |
| Lexer.InsertAllKeepsFirst | YandMP/YandMP/Lexer.cpp:135 | after inserting every token into an empty table, each slot holds the first token with that spelling, and every spelling that found room is stored |
| Lexer.LexRun | YandMP/YandMP/Lexer.cpp:113-138 | a lexer run yields the token list and a table of the default capacity |
| Lexer.LexTableFirstOccurrence | YandMP/YandMP/Lexer.cpp:135 | the run's table keeps the first occurrence of each lexeme |
| Lexer.LeadingZeroExample | YandMP/YandMP/Lexer.cpp:62-70 | `007` is a single ERROR token |
| Lexer.BareDotExample | YandMP/YandMP/Lexer.cpp:77-90 | `3.` is a single ERROR token |
| Lexer.RealExample | YandMP/YandMP/Lexer.cpp:77-90 | `3.5` is a REAL token |
| Lexer.LoneZeroExample | YandMP/YandMP/Lexer.cpp:62-70 | `0` on its own is an INTEGER, not a leading-zero error |
| Ast.MakeNode | Synt.h:13-15 | a new node has the given name, no value, line -1 and no children |
| Ast.AddChild | Synt.h:17-19 | adding a child appends it after the existing children and changes nothing else |
| Ast.InnerByAddChild | Synt.h:13-19 | the inner nodes built by the model are exactly a new node followed by `addChild` of each child in turn |
| Parser.CurrentToken | YandMP/YandMP/Synt.cpp:40-45 | past the end the current token is an empty UNKNOWN token on line 1 |
| Parser.NextIndex | YandMP/YandMP/Synt.cpp:48-52 | advancing moves one token forward and stops at the end |
| Parser.Match | YandMP/YandMP/Synt.cpp:55-62 | a match succeeds exactly on a token of the expected kind, and only then consumes it |
| Parser.MatchKeyword | YandMP/YandMP/Synt.cpp:65-72 | a keyword match succeeds exactly on a KEYWORD with that spelling, and only then consumes it |
| Parser.ErrorMessage | YandMP/YandMP/Synt.cpp:75-97 | the three message forms: at a token (line and lexeme), at end of file (the last token's line), and on an empty file |
| Parser.Error | YandMP/YandMP/Synt.cpp:75-97 | an error appends its message and then makes progress: recovery moves past the current token to the next statement start or the end |
| Parser.SyncAfterError | YandMP/YandMP/Synt.cpp:100-126 | recovery skips the offending token and stops at the first INTEGER, REAL, CALL or END keyword, or identifier immediately followed by `=`, after it |
| Parser.SyncToNextOperator | YandMP/YandMP/Synt.cpp:129-149 | statement recovery stops at the first statement start at or after the current token |
| Parser.SyncToEndOfExpression | YandMP/YandMP/Synt.cpp:152-173 | expression recovery stops at the first statement start at or after the current token |
| Parser.SyncToNextArgument | YandMP/YandMP/Synt.cpp:175-192 | argument recovery stops at the first `,`, `)`, identifier, INTEGER or REAL constant, or `(` at or after the current token |
| Parser.ParseProgram | YandMP/YandMP/Synt.cpp:210-252 | the root is a `Program` node with `Begin`, `Descriptions`, `Operators` and `End` children, in that order, and the parse never moves backward or drops an error |
| Parser.ParseBegin | YandMP/YandMP/Synt.cpp:255-302 | the first child is a `Begin` node, with the input consumed monotonically (its outcomes are stated in `ParserFacts.BeginOutcomes`) |
| Parser.SkipToDeclarationsAsWritten | YandMP/YandMP/Synt.cpp:273-281 | the recovery loop as written stops only at INTEGER, REAL or CALL and runs past every identifier |
| Parser.SkipToDeclarations | YandMP/YandMP/Synt.cpp:273-281 | the corrected loop stops at the first identifier or INTEGER, REAL or CALL keyword |
| Parser.SeekProgramName | YandMP/YandMP/Synt.cpp:284-298 | the name search consumes tokens up to and including the first identifier and makes it the only name leaf; with no identifier it consumes everything |
| Parser.ParseDescriptions | YandMP/YandMP/Synt.cpp:305-322 | declarations are read while the current token is INTEGER or REAL; every child is a `Descr` |
| Parser.ParseDescr | YandMP/YandMP/Synt.cpp:325-342 | a declaration is a `Type` then a `VarList`, and it consumes at least one token |
| Parser.ParseType | YandMP/YandMP/Synt.cpp:345-366 | on INTEGER or REAL the type is that keyword leaf and one token is consumed; otherwise the error "Expected 'INTEGER' or 'REAL'" is reported |
| Parser.ParseVarList | YandMP/YandMP/Synt.cpp:369-401 | the variable list holds only identifier and comma leaves |
| Parser.ParseOperators | YandMP/YandMP/Synt.cpp:404-422 | statements are read while the current token is an identifier or CALL; every child is an `Op` |
| Parser.ParseOp | YandMP/YandMP/Synt.cpp:425-509 | a statement at an identifier or CALL always consumes input, so the statement loop terminates |
| Parser.ParseAssignment | YandMP/YandMP/Synt.cpp:430-463 | an assignment node starts with the target's identifier leaf and has at most three children |
| Parser.ParseCall | YandMP/YandMP/Synt.cpp:464-505 | a call node starts with the CALL keyword leaf and has at most five children |
| Parser.ParseCallArguments | YandMP/YandMP/Synt.cpp:511-541 | arguments are empty or alternate expression, comma, expression, …, with every expression well-shaped |
| Parser.ParseExpr | YandMP/YandMP/Synt.cpp:544-586 | an expression node is a simple expression followed by zero or more (PLUS or MINUS, simple expression) pairs |
| Parser.ParseSimpleExpr | YandMP/YandMP/Synt.cpp:589-646 | an operand consumes exactly one token. A sign, `)` or `,` is "Missing operand", any other token is "Expected identifier, constant, or '('", and the end of input has its own message |
| Parser.ParseParenExpr | YandMP/YandMP/Synt.cpp:612-630 | `(` Expr `)` gives the `(` leaf, the expression and the `)` leaf and resumes after `)`; without the `)` at least one error is added and the node is still a well-shaped SimpleExpr |
| Parser.ParseEnd | YandMP/YandMP/Synt.cpp:648-673 | the END node is empty exactly when the current token is not END. With two children it is END followed by the identifier, and exactly two tokens are consumed |
| Parser.Parse | YandMP/YandMP/Synt.cpp:195-196 | parsing starts at the first token and never runs past the end |
| ParserFacts.ProgramYield | YandMP/YandMP/Synt.cpp:210-252 | a parse without errors consumes every token, starts with PROGRAM, and its tree's leaves spell the input token by token (kind, line, and text of names and constants), with one leaf per token |
| ParserFacts.ExprYield | YandMP/YandMP/Synt.cpp:544-586 | an error-free expression's leaves spell exactly the tokens it consumed |
| ParserFacts.CallYield | YandMP/YandMP/Synt.cpp:464-505 | an error-free call's leaves spell exactly the tokens it consumed |
| ParserFacts.DescriptionsYield | YandMP/YandMP/Synt.cpp:305-342 | error-free declarations' leaves spell exactly the tokens they consumed |
| ParserFacts.ErrorFreeParseConsumesAll | YandMP/YandMP/Synt.cpp:242-248 | without errors nothing is left after END |
| ParserFacts.TrailingTokensReported | YandMP/YandMP/Synt.cpp:242-248 | tokens left after END add exactly one "Unexpected token(s) … after END" error; otherwise the program state is the END parse's |
| ParserFacts.MissingAssignReported | YandMP/YandMP/Synt.cpp:430-462 | an identifier not followed by `=` gives "Expected '=' in assignment" at the next token, keeps only the target leaf and resynchronises at the next statement |
| ParserFacts.MissingAssignExample | YandMP/YandMP/Synt.cpp:430-462 | in a program where `a 1` lacks its `=`, exactly that one error is reported and END with its name is still parsed |
| ParserFacts.BeginOutcomes | YandMP/YandMP/Synt.cpp:255-302 | `PROGRAM name` gives the keyword and name leaves and consumes two tokens with no error. After PROGRAM without a name, one error is added and the parse resumes only at an INTEGER, REAL or CALL keyword or the end (the loop as written). Without PROGRAM, one error is added and at most one name leaf is kept |
| ParserFacts.MissingNameParse | YandMP/YandMP/Synt.cpp:255-281 | on `PROGRAM = x = 1 END x` the parser skips to the end of the input, so no statement and no END line is parsed |
| ParserFacts.MissingNameRecovery | YandMP/YandMP/Synt.cpp:273-281 | after `PROGRAM =`, the loop as written skips the statement `x = 1` and the END line, while the corrected loop stops at `x` |
| Semantic.DefaultVarInfo | YandMP/YandMP/Semantic.h:17 | a default entry has no name, UNKNOWN type and is uninitialised |
| Semantic.MakeVarInfo | YandMP/YandMP/Semantic.h:18-20 | a declared variable starts uninitialised with its name and type |
| Semantic.VarTypeName | YandMP/YandMP/Semantic.h:24-30 | the type name is INTEGER or REAL exactly for those kinds and UNKNOWN for every other kind |
| Semantic.CheckDeclared | YandMP/YandMP/Semantic.cpp:133-140 | a "not declared" error is produced exactly when the name is absent from the table |
| Semantic.CheckNotRedeclared | YandMP/YandMP/Semantic.cpp:142-149 | an "already declared" error is produced exactly when the name is present |
| Semantic.CheckTypes | YandMP/YandMP/Semantic.cpp:151-167 | a mismatch error is produced exactly when the two types differ |
| Semantic.TypeWord | YandMP/YandMP/Semantic.cpp:151-167 | the type word of a mismatch message is empty exactly for a type that is neither INTEGER nor REAL |
| Semantic.CheckProgramName | YandMP/YandMP/Semantic.cpp:169-177 | a name-mismatch error is produced exactly when the END name differs from the program name |
| Semantic.Reverse | YandMP/YandMP/Semantic.cpp:386-389 | the final flush emits the pending operators top of stack first |
| Semantic.ExpressionType | YandMP/YandMP/Semantic.cpp:296-322 | an expression's type is always one of UNKNOWN, REAL or INTEGER |
| Semantic.DeclWalk | YandMP/YandMP/Semantic.cpp:41-76 | the declarations walk never removes errors or postfix lines, and every line it adds is a program line or a DECL line |
| Semantic.ProcessBegin | YandMP/YandMP/Semantic.cpp:179-188 | each identifier under `Begin` emits one `name PROGRAM` line, and the program name becomes the last such identifier. The table and errors are untouched |
| Semantic.DescriptionsLoop | YandMP/YandMP/Semantic.cpp:47-71 | the declarations keep every existing table entry unchanged and emit only DECL lines (how the type carries on is stated in `SemanticFacts.DescriptionsCarryType`) |
| Semantic.TypeOfChildren | YandMP/YandMP/Semantic.cpp:55-63 | the last child valued INTEGER or REAL decides the type, and without such a child the current type stays |
| Semantic.DeclLine | YandMP/YandMP/Semantic.cpp:213-223 | a declaration line is the type word (INTEGER exactly for INTEGER, REAL otherwise), the new names, their count plus one and DECL, joined with single spaces |
| Semantic.VarListLoop | YandMP/YandMP/Semantic.cpp:194-211 | the table gains exactly the listed names not yet in it, each with the declared type and uninitialised. Existing entries are kept. The new names are listed without repetition, and each listed identifier yields either a redeclaration error or a new name |
| Semantic.ProcessVarList | YandMP/YandMP/Semantic.cpp:190-225 | after a variable list the table holds the old entries plus the new names with the declared type. A DECL line is emitted exactly when some name is new, and it lists exactly the new names, without repetition |
| Semantic.ScanOp | YandMP/YandMP/Semantic.cpp:107-123 | a statement is a call exactly when some child is the CALL keyword, and an assignment (outside calls) exactly when it has an identifier child |
| Semantic.ProcessOp | YandMP/YandMP/Semantic.cpp:105-131 | a statement without a CALL keyword is the assignment of its last `Expr` to its last identifier, and changes nothing when it lacks either. A statement that begins with CALL is a call. At most one line is emitted |
| Semantic.OpsWalk | YandMP/YandMP/Semantic.cpp:78-92 | the statements walk only adds errors and assignment or CALL lines and keeps the program name |
| Semantic.AssignmentLine | YandMP/YandMP/Semantic.cpp:243 | an assignment line ends in " =" |
| Semantic.ProcessAssignment | YandMP/YandMP/Semantic.cpp:227-247 | an undeclared target gives a "not declared" error and emits nothing. A declared target is marked initialised, `name postfix =` is emitted, and a mismatch is reported exactly when the expression's type differs from the variable's. The expression's undeclared names are reported in both cases |
| Semantic.CallName | YandMP/YandMP/Semantic.cpp:254-257 | the called name is the first identifier child with a non-empty value, or empty if there is none |
| Semantic.CallArguments | YandMP/YandMP/Semantic.cpp:258-264 | the arguments taken are exactly the `Expr` children of the `Arguments` children |
| Semantic.CallLine | YandMP/YandMP/Semantic.cpp:267-274 | a call line ends in " CALL" |
| Semantic.ProcessCall | YandMP/YandMP/Semantic.cpp:249-277 | a call emits exactly one CALL line and never touches the variable table |
| Semantic.LastIdentifier | YandMP/YandMP/Semantic.cpp:401-406 | the END name is the last identifier under `End`, or unchanged if there is none |
| Semantic.EndLine | YandMP/YandMP/Semantic.cpp:410 | an END line ends in " END" |
| Semantic.ProcessEnd | YandMP/YandMP/Semantic.cpp:397-414 | with a non-empty END name, `name END` is emitted, and a mismatch error is added exactly when the name differs from the program name. Otherwise nothing changes |
| Semantic.Analyze | YandMP/YandMP/Semantic.cpp:19-39 | a missing tree gives only "ERROR: AST is empty". For a tree, the output is the postfix code |
| SemanticFacts.PostfixMatchesReference | YandMP/YandMP/Semantic.cpp:344-395 | for an expression whose parentheses all close, the shunting conversion equals the reference reading, in which each operator applies to the whole rest of the chain (`a - b + c` is `a b c + -`). The errors are the undeclared identifiers in source order |
| SemanticFacts.MinusPlusExample | YandMP/YandMP/Semantic.cpp:344-395 | `a - b + c` converts to `a b c + -` whatever the variable table |
| SemanticFacts.PopToParenSpec | YandMP/YandMP/Semantic.cpp:366-372 | a closing parenthesis moves the operators above the nearest `(` to the output, top first, and drops the `(` |
| SemanticFacts.ConvertErrors | YandMP/YandMP/Semantic.cpp:344-377 | conversion reports one "not declared" error per undeclared identifier of the subtree, in pre-order |
| SemanticFacts.ExpressionErrors | YandMP/YandMP/Semantic.cpp:344-395 | the errors of `expressionToPostfix` are exactly the "not declared" messages of the expression's undeclared identifiers, in pre-order |
| SemanticFacts.TypeFlagsSpec | YandMP/YandMP/Semantic.cpp:296-322 | the type scan's flags record whether the subtree mentions a REAL operand and whether it mentions an INTEGER operand |
| SemanticFacts.ExpressionTypeSpec | YandMP/YandMP/Semantic.cpp:279-295 | the type is UNKNOWN iff both REAL and INTEGER operands occur, REAL iff only REAL ones occur, and INTEGER iff no REAL operand occurs |
| SemanticFacts.DescrTypeThenList | YandMP/YandMP/Semantic.cpp:52-67 | a declaration of a Type then a VarList declares the list with the type the Type node leaves current |
| SemanticFacts.DescrDeclaresWithType | YandMP/YandMP/Semantic.cpp:52-67 | after `INTEGER a, b` (or REAL) the table gains exactly the listed names not yet in it, each with the kind the last type word names, and that kind stays current |
| SemanticFacts.TypeCarriesOver | YandMP/YandMP/Semantic.cpp:47-67 | a declaration whose Type names no type declares its new names with the type carried over |
| SemanticFacts.DescriptionsCarryType | YandMP/YandMP/Semantic.cpp:47-71 | a typed declaration followed by one whose Type names no type: the second list's new names get the first one's kind |
| SemanticFacts.AnalyzeExpressionSpec | YandMP/YandMP/Semantic.cpp:279-295 | `analyzeExpression` reports exactly the undeclared identifiers in pre-order. Its type is UNKNOWN iff REAL and INTEGER operands mix, REAL iff only REAL ones occur, and INTEGER iff no REAL one occurs. For a fully closed expression its text is the reference postfix |
| SemanticFacts.AssignmentMismatch | YandMP/YandMP/Semantic.cpp:227-247 | assigning an expression with a real operand to an INTEGER variable, or one without a real operand to a REAL variable, reports a mismatch and still marks the variable initialised |
| SemanticFacts.AssignmentWellTyped | YandMP/YandMP/Semantic.cpp:227-247 | a well-typed assignment reports only the expression's undeclared names |
| SemanticFacts.OpAssignmentMismatch | YandMP/YandMP/Semantic.cpp:105-131 | in the statements walk, a statement whose last expression has the wrong type for its last identifier reports the mismatch and marks the variable initialised |
| SemanticFacts.PostfixSections | YandMP/YandMP/Semantic.cpp:25-27 | the postfix code is all declaration lines, then all statement lines, then all END lines |
| SemanticFacts.CallErrors | YandMP/YandMP/Semantic.cpp:267-273 | a call reports exactly the undeclared names of its arguments, in order |
| SemanticFacts.CallExampleLine | YandMP/YandMP/Semantic.cpp:249-277 | `CALL f(a, b + c)` emits `f a b c + 3 CALL`, where the count is one more than the number of arguments |
| Pipeline.Filter | main.cpp:22-27 | the kept tokens are exactly the input's tokens that are neither ERROR nor UNKNOWN |
| Pipeline.FilterAppend | main.cpp:22-27 | filtering distributes over concatenation, so the kept tokens stay in input order |
| Pipeline.FilterKeepsValid | main.cpp:22-27 | a list with no ERROR or UNKNOWN token passes unchanged |
| Pipeline.FilterIdempotent | main.cpp:22-27 | filtering twice is filtering once |
| Pipeline.FilterDropsInvalid | main.cpp:22-27 | the number of dropped tokens is the number of ERROR and UNKNOWN tokens |
| Pipeline.Compile | main.cpp:15-40 | the parser sees the filtered lexer output, the tree is rooted at `Program`, and the analyzer's output is its postfix code |
| Pipeline.CompileNeverReportsEmptyTree | main.cpp:35-40 | since the parser always returns a tree, the pipeline never reports an empty AST |
| Pipeline.CompileLeavesSpellTokens | main.cpp:22-35 | when the filtered tokens parse without error, the tree's leaves spell them back one for one |

## Left out

- File names, streams and console messages (main.cpp:9-12, 42-44): the model takes the source text and returns values.
- The parser's indented trace of node names and the "Parsing completed" summary lines: they are output only.
- The analyzer's closing report (Semantic.cpp:29-38): the "ERRORS:" heading, each error, and then "Semantic analysis completed with N error(s)" or "Semantic analysis completed successfully!". It is output only. The errors it lists are modelled.
- The lexer's console copy of its diagnostics: only the diagnostic lines themselves are modelled (`Lexer.ErrorLines`).
- Locale-dependent character classes and non-ASCII input: letters are ASCII `a-z`/`A-Z`, and characters hash as their code mod 256.
- LexemeTable.HashIndependentOfWidth: the C++ `unsigned long` width is not fixed. The model proves the masked hash is the same for every width that is a multiple of 2^31, so it fixes no width.
- Null node references and the matching fallbacks of the parser and analyzer: every parse routine here returns a node, and `Analyze` takes an `Option<Node>` for the null root.
- Calls to members that the declared headers do not provide: `HashTable::insert` takes an integer key but is called with a string, and the analyzer's `findIndex`/`getValue` and the token's `setIndex` do not exist. The model keys the table by the string hash, keeps the variable table as a map with insert-if-absent, and leaves the token index unset.
- Semantic.ProcessVarList: the variable table's capacity of 211 is not modelled; the map is unbounded. Redeclaration errors are stated as a count bound, together with the exact new-name set from `Semantic.VarListLoop`. The DECL line is stated for the names in the order `Semantic.VarListLoop` collects them; the contract gives that list's contents, not its order.
- Token and VarInfo accessors, setters and `getKey` (Token.h:34-42, Semantic.h:22): the getters and setters are the records' fields and record update. A token's key is `Tokens.Key`, its lexeme, which the lexeme table is keyed by; a variable's key is its `name`, the key of the variable map. No lemma restates these definitions.
- The older top-level `Lexer.cpp`, `Lexer.h` and `Semantic.h` are superseded copies. They are not part of this model, apart from the hash composition `Lexer.cpp:154-155` that fixes the home slot.
- Dead helpers: `RealCheck`, `printNumberedLine`, `ungetChar` and unused fields.
- `getTree` (Synt.h:71) is the identity on the parsed root; `Pipeline.Compile` passes the root directly.
- Semantic.ProcessCall: the text of the CALL line is stated through `Semantic.CallLine` and the worked `SemanticFacts.CallExampleLine`, not for every call.
- SemanticFacts.PostfixMatchesReference: the reference reading covers expressions whose parentheses all close. Trees repaired after a syntax error (a missing `)`) are converted by the same function without a separate reference.
- Parser.ParseAssignment, Parser.ParseCall, Parser.ParseVarList, Parser.ParseOp: the successful shape is stated through the yield lemmas (`ParserFacts.ProgramYield` and its parts), not in these contracts, which give only the node's outline.
- Parser.Parse: its contract gives only the index bound. What an error-free parse builds is stated in `ParserFacts.ProgramYield`.
- The PROGRAM keyword leaf takes its line from the token after it, as in YandMP/YandMP/Synt.cpp:260-261; this is kept.

## Findings

| source | as written | input that shows it | evidently intended | confidence | as-written member | corrected member |
|---|---|---|---|---|---|---|
| YandMP/YandMP/Synt.cpp:273-281 | After "Expected identifier after PROGRAM", recovery skips while the token is not `KEYWORD && (INTEGER \|\| REAL \|\| CALL \|\| type == IDENTIFIER)`; the identifier test can never hold together with KEYWORD, so the loop runs past every assignment | `PROGRAM = x = 1 END x`: recovery reaches `x`, then the loop skips `x = 1`, `END` and `x` to the end of input | stop at an identifier as well as at INTEGER, REAL or CALL, so the statement `x = 1` and the END line are still parsed | not executed | Parser.SkipToDeclarationsAsWritten (with ParserFacts.MissingNameRecovery and ParserFacts.MissingNameParse) | Parser.SkipToDeclarations |

The parser itself (`Parser.ParseBegin`, and so `Parser.Parse` and `Pipeline.Compile`) runs the loop as written, like the source; the corrected loop stands beside it with its intended property proved.
