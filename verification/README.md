# BASIC interpreter core in Dafny

A model of the core of a line-numbered BASIC interpreter written in C++, and of the
small calculator evaluator that comes with it. Four pieces are modelled.

- **Expression parser** (`parser.dfy`, `parser_laws.dfy`). This is the precedence-climbing
  parser (`parseExp`, `readE`, `readT`, `precedence`). It reads an immutable token sequence
  through a cursor. Reading past the end yields `Eof`, the empty token of the scanner.
  Pushing a token back means returning the cursor that stands before it. The text of an
  operator token is classified once by `SymbolOf` into a `Symbol`. The seven texts the
  parser compares against get their own constructors, and every other text stays
  `OtherSymbol`. The string comparisons of `parser.cpp` are then constructor tests.
- **Program store** (`program.dfy`). It keeps the source text and the parsed statement of
  each line number. It also keeps the ordered set of line numbers, held as a strictly
  increasing sequence, and the current-line cursor. Every mutator is a pure function that
  returns a new store. Each one keeps the invariant `Valid`: the index lists exactly the
  lines that have source text, in ascending order.
- **Line dispatch and the RUN loop** (`basic.dfy`). This covers `isValidNumber`, the
  keyword table, the numbered-line branch, CLEAR, RUN, and the rest of `processLine`.
  Statement constructors and `execute` bodies are empty stubs in `statement.cpp`, so they come
  in as parameters (`construct`, `exec`). The key proved fact: every indexed line keeps a
  parsed statement, so the null-statement branch of RUN cannot be reached.
- **Calculator** (`calculator.dfy`). This is the visitor that evaluates `+ - * /` and
  parentheses. C++ truncating division is written out as `TruncDiv`, with the remainder
  law that defines it.

`results.dfy` holds the error and result types. `digits.dfy` holds the digit-string
predicates and the value of a digit string, which is what `std::stoi` computes on one.
`statement.dfy` holds the opaque statement values.

Three behaviours of the code are modelled as the code has them:
- `removeSourceLine` deletes the source text and the index entry but keeps the parsed
  statement (`RemoveSourceLine` ensures `r.parsed == p.parsed`).
- When a line has no statement, RUN prints SYNTAX ERROR and then dereferences null. It
  does not fail cleanly. This is modelled as the `MissingStatement` end, and it is proved
  unreachable for stores built by dispatch.
- `listAllLines` prints. Here it returns the sequence of texts.

## Model

| member | source | states |
|---|---|---|
| Parser.SymbolOf | Basic/parser.cpp:101-106 | the symbol of a token text spells that text back; exactly the texts other than `= + - * / ( )` become `OtherSymbol` |
| Parser.SymbolOfText | Basic/parser.cpp:101-106 | classifying the text of a symbol gives the symbol back, so distinct symbols have distinct texts |
| Parser.PrecedenceOf | Basic/parser.cpp:101-106 | `=` has precedence 1, `+`/`-` have 2, `*`/`/` have 3, and every other token has 0, end of input included |
| Parser.PrecedenceTable | Basic/parser.cpp:101-106 | the same table stated on token texts: precedence 1 exactly for `"="`, 2 for `"+"` and `"-"`, 3 for `"*"` and `"/"`, 0 for every other text |
| Parser.ReadT | Basic/parser.cpp:68-92 | a WORD becomes an identifier and a NUMBER a constant, each using exactly one token; a successful term uses at least one token; an operator token starts a term only when it is `-` or `(`; every failure is SYNTAX ERROR |
| Parser.ReadE | Basic/parser.cpp:39-59 | on success the cursor has moved forward and stops before a token whose precedence is at most `prec`, which is left unread; failures are SYNTAX ERROR |
| Parser.ReadOps | Basic/parser.cpp:43-53 | the loop stops at once, returning what it has, before an operator that does not bind tighter than `prec`; an `=` above level 0 with assignment disallowed is SYNTAX ERROR |
| Parser.ParseExp | Basic/parser.cpp:15-26 | succeeds exactly when the top-level readE succeeds with no tokens left, and returns its tree; otherwise SYNTAX ERROR |
| ParserLaws.ParseRejectsTrailing | Basic/parser.cpp:15-21 | a complete expression parses; the same tokens followed by a word, number or other non-operator token are rejected with SYNTAX ERROR |
| ParserLaws.TighterBindsFirst | Basic/parser.cpp:43-52 | `a o1 b o2 c` with `o2` binding tighter parses as `a o1 (b o2 c)` (2+3*4) |
| ParserLaws.LooserGroupsLeft | Basic/parser.cpp:43-53 | `a o1 b o2 c` with `o2` not binding tighter parses as `(a o1 b) o2 c` (a-b-c) |
| ParserLaws.ChainAssociatesLeft | Basic/parser.cpp:39-59 | any chain of same-precedence operators parses as the left-nested tree |
| ParserLaws.ReadTNegation | Basic/parser.cpp:74-81 | after `-`, a `+` or `-` is SYNTAX ERROR; otherwise the term succeeds exactly when readE with the default arguments succeeds after the `-`, and it is `0 - e` for that readE's tree `e`, ending where that readE ends |
| ParserLaws.ReadTBracket | Basic/parser.cpp:82-87 | after `(`, the term succeeds exactly when readE with the default arguments succeeds and is followed by `)`; the term is that readE's tree and uses up the `)` |
| ParserLaws.DoubleSignRejected | Basic/parser.cpp:74-78 | a `-` directly followed by `+` or `-` is not a term |
| ParserLaws.NegationScope | Basic/parser.cpp:74-81 | with default level 0, a leading `-` negates the rest of the expression: `-a o b` is `0 - (a o b)` |
| ParserLaws.ParseUnparse | Basic/parser.cpp:68-92 | parsing the fully bracketed tokens of any `+ - * /` tree gives that tree back |
| ProgramStore.Empty | Basic/program.cpp:14 | a new store has no source text, no statements and no index entries, holds the given cursor, and is valid |
| ProgramStore.Insert | Basic/program.cpp:29 | set insertion keeps the index strictly increasing, adds exactly the new number, and changes nothing when the number is already there |
| ProgramStore.Erase | Basic/program.cpp:35 | set erasure keeps the index strictly increasing, removes exactly the number, and changes nothing when it is absent |
| ProgramStore.UpperBound | Basic/program.cpp:75 | the position of the first index entry greater than `k`: every entry before it is at most `k`, every entry from it on is greater |
| ProgramStore.Clear | Basic/program.cpp:18-22 | no source text, no statements, an empty index; the invariant holds |
| ProgramStore.AddSourceLine | Basic/program.cpp:24-30 | line `n` reads the new text and is indexed once; every other line's text and index entry, all statements and the cursor are unchanged; the invariant is kept |
| ProgramStore.AddReplaces | Basic/program.cpp:24-30 | adding a line twice is the same as adding it once with the second text |
| ProgramStore.RemoveSourceLine | Basic/program.cpp:32-37 | line `n` has no text and no index entry, others are unchanged, parsed statements are untouched, and the store is unchanged when `n` was absent |
| ProgramStore.RemoveIdempotent | Basic/program.cpp:32-37 | removing a line twice is the same as removing it once |
| ProgramStore.GetSourceLine | Basic/program.cpp:39-45 | the stored text, or `""` for an absent line |
| ProgramStore.SetParsedStatement | Basic/program.cpp:47-56 | fails with LINE NUMBER ERROR exactly when the line has no text; otherwise binds the statement, replacing any earlier one, and changes nothing else |
| ProgramStore.GetParsedStatement | Basic/program.cpp:58-64 | the bound statement, or None (null) for an unbound line |
| ProgramStore.GetFirstLineNumber | Basic/program.cpp:66-72 | -1 on an empty store, otherwise the smallest stored line number |
| ProgramStore.GetNextLineNumber | Basic/program.cpp:74-81 | the smallest stored line number greater than `k`, or -1 when there is none |
| ProgramStore.NextOfIndexed | Basic/program.cpp:74-81 | from the k-th indexed line the next line is the (k+1)-th, or -1 after the last |
| ProgramStore.SetCurrentLine | Basic/program.cpp:89-95 | `getCurrentLine` returns what `setCurrentLine` set; nothing else changes |
| ProgramStore.NextLine | Basic/program.cpp:97-102 | -1 when the store is empty or the cursor is -1, otherwise the next line after the cursor |
| ProgramStore.ListAllLines | Basic/program.cpp:83-87 | the texts of the lines, one per index entry, in ascending line order |
| ProgramStore.IndexCount | Basic/program.cpp:83-87 | the index has exactly one entry per stored line, so the listing has one text per line |
| Digits.Value | Basic/Basic.cpp:99 | `stoi` on a digit string: the value is 0 exactly when every digit is `0`; ValueOfToDigits and ToDigitsOfValue below make it the inverse of the decimal spelling |
| Digits.ValueIgnoresLeadingZero | Basic/Basic.cpp:99 | a leading `0` does not change the number `stoi` reads, so `007` and `7` name the same line |
| Digits.LeadingZerosExample | Basic/Basic.cpp:99 | `007` reads as line 7, the same line as `7` |
| Digits.ValueOfToDigits | Basic/Basic.cpp:99 | `stoi` on the decimal spelling of any natural gives that natural back |
| Digits.ToDigitsOfValue | Basic/Basic.cpp:99 | a digit string without a leading zero is the spelling of its value |
| Interpreter.IsValidNumber | Basic/Basic.cpp:169-179 | true exactly when the string is non-empty and all decimal digits |
| Interpreter.KeywordKind | Basic/Basic.cpp:105-118 | each of REM, LET, PRINT, INPUT, GOTO, IF and END selects its own variant, and no other word selects one |
| Interpreter.EnterNumberedLine | Basic/Basic.cpp:100-134 | an empty remainder removes the line; an unknown keyword or a failed construction reports and leaves the store unchanged; a constructed statement is stored with the whole line text and nothing else changes; the invariant and "every indexed line has a statement" are kept |
| Interpreter.Run | Basic/Basic.cpp:69-87 | the run meets `RunOutcome`: the first line executed is the first stored line, and each later one is nextLine() of the cursor the previous statement left; each statement runs with the cursor on its own line and the bindings the previous one left; the run ends at -1, at the first statement that raises (cursor on its line, its error), at a line with no statement, or when the fuel is spent |
| Interpreter.RunOutcomeUnique | Basic/Basic.cpp:69-87 | `RunOutcome` fixes the final store, bindings, lines executed and end from the store, bindings, statement semantics and fuel |
| Interpreter.RunStaysInProgram | Basic/Basic.cpp:69-87 | a run executes stored lines only and changes nothing in the store but the cursor; a line without a statement is a stored line, and it cannot occur when every stored line has a statement |
| Interpreter.PassiveRunInOrder | Basic/Basic.cpp:69-87 | with statements that never raise and never move the cursor, and enough fuel, every stored line runs exactly once in ascending order and the run halts |
| Interpreter.ProcessLine | Basic/Basic.cpp:56-167 | QUIT and CLEAR empty both the bindings and the store, and CLEAR reports nothing; HELP and LIST change nothing; RUN ends as `RunOutcome` describes and reports the raising statement's error or SYNTAX ERROR for a missing statement; a malformed line number is SYNTAX ERROR with nothing changed; numbered lines go through the entry above; a first word LET, PRINT or INPUT is built and executed at once, reporting its error and changing nothing when either step fails; any other first token is SYNTAX ERROR; the store invariant and "every indexed line has a statement" are kept |
| Calculator.TruncDiv | Bonus/Calculator/EvalVisitor.h:20 | C++ division: the remainder `a - q*b` is smaller than `b` in size and has the sign of `a` |
| Calculator.TruncDivUnique | Bonus/Calculator/EvalVisitor.h:20 | that remainder law determines the quotient uniquely |
| Calculator.TruncDivNonNegative | Bonus/Calculator/EvalVisitor.h:20 | on a non-negative dividend and a positive divisor the C++ quotient is the floor quotient |
| Calculator.TruncDivExamples | Bonus/Calculator/EvalVisitor.h:20 | 7/2 = 3, -7/2 = -3, 7/-2 = -3, -7/-2 = 3 |
| Calculator.Eval | Bonus/Calculator/EvalVisitor.h:13-41 | every value the visitor returns is one the evaluation rules `Denotes` give (its ensures); EvalComplete adds that it returns every such value, and EvalDefined that it fails exactly on division by zero |
| Calculator.EvalCalc | Bonus/Calculator/EvalVisitor.h:8-11 | the value of a `calc` is the value the evaluation rules give its one expression, which is the only value they give it; it is undefined exactly when that expression divides by zero |
| Calculator.EvalAgrees | Bonus/Calculator/EvalVisitor.h:13-41 | the visitor's value, when there is one, is the only value the evaluation rules give |
| Calculator.EvalSound | Bonus/Calculator/EvalVisitor.h:13-41 | every value the visitor returns is the one the evaluation rules give: literal value, bracket value, and sum, difference, product or truncated quotient of the operand values |
| Calculator.EvalComplete | Bonus/Calculator/EvalVisitor.h:13-41 | wherever the evaluation rules give a value, the visitor returns exactly that value |
| Calculator.EvalDefined | Bonus/Calculator/EvalVisitor.h:13-22 | evaluation is undefined exactly when some division has a divisor that evaluates to 0 |

## Left out

- The tokenizer (`TokenScanner`) is not part of this model. Token sequences, and for a
  line the two tokens the dispatcher reads, are inputs.
- Operator checks in the parser look only at `Op` tokens, because the scanner never
  yields a word or number that spells an operator.
- `stringToInteger` on a NUMBER token in `readT` is not modelled. NUMBER tokens carry an
  already-converted integer, so a NUMBER token that does not convert is not modelled.
- The default arguments of `readE` are declared in `parser.hpp`, which is not part of
  this model. They are the `Defaults` parameter. A negative default precedence is not
  modelled, since precedences are naturals.
- `exp.hpp` and `EvalState` are not part of this model. BASIC expression evaluation is
  therefore not modelled, and the bindings are a plain map.
- `statement.cpp` has constructors and `execute` bodies that are empty stubs. Statements
  are opaque values. Construction and execution are the parameters `construct` and `exec`.
- Interpreter.Run: the loop in `Basic.cpp` is unbounded. The model takes a `fuel` bound on the
  number of statements executed and ends with `OutOfFuel` when the bound is reached.
- Interpreter.Run: the null-statement case is undefined behaviour in `Basic.cpp`, because
  it prints SYNTAX ERROR and then dereferences null. It is modelled as the
  `MissingStatement` end instead of a crash.
- Interpreter.ProcessLine: the printing (HELP text, LIST output, error messages), the
  process exit on QUIT, and the `getline` loop of `main` are not modelled. QUIT returns
  `Quit`.
- `std::stoi` throws `std::out_of_range` on a line number too large for `int`. That is
  not an `ErrorException`, so neither catch in Basic.cpp handles it and the process
  terminates. Line numbers are unbounded naturals here, so this case is not modelled.
- Overflow of the calculator's signed `int` arithmetic, including `INT_MIN / -1`, is
  undefined behaviour in C++. Integers are unbounded here, so overflow is not modelled.
- Calculator.Eval: `visitInt` reads a literal with `std::stoi`, which throws
  `std::out_of_range` for a literal above `INT_MAX`. The visitor does not catch it.
  `Eval` gives such a literal its full value instead, because integers are unbounded here.
- Calculator.Eval: division by zero is undefined behaviour in `EvalVisitor.h`. It yields
  None, and `TruncDiv` requires a non-zero divisor.
- The initial value of the cursor is declared in `program.hpp`, which is not part of
  this model. `Empty` takes it as a parameter. RUN always sets the cursor before reading it.
- Memory management (`new`, `delete`, pointer ownership) is not modelled.
- The ANTLR-generated parser and the `std::any` casts are not modelled. The calculator
  works on its parse tree as a datatype.
- The scoring programs (`score.cpp`, `score.py`) run processes and compare output, so
  they are outside the interpreter.
