# Resolution-refutation solver, modelled in Dafny

This project models the core of LogicalSatisfiabilitySolver. That core is a propositional solver in C. It decides whether a formula in conjunctive normal form is unsatisfiable, by resolution refutation.

- **Literals.** A literal is a proposition name with a negation flag. It is written `A` or `!A`.
- **Clauses.** A clause is a duplicate-free list of literals. It is rendered `(A ∨ !B)`, and the empty clause is rendered `[]`.
- **Formulas.** A formula is a list of clauses in which no two clauses hold the same set of literals.
- **The solver.** It tries each pair of clauses once, adds each non-tautological resolvent that is new, and repeats in rounds. It stops with "unsatisfiable" as soon as the empty clause appears. It stops with "not unsatisfiable" once a round adds nothing.
- **File format.** One clause per line, literals separated by whitespace. Blank lines and lines starting with `#` are skipped.
- **Windows front end.** From it, the model takes:
  - the clause validator;
  - the formula-name check;
  - the file the front end writes;
  - the preview that formats a saved file.

The modules follow the structure of the program:

| module | file |
|---|---|
| `Literals` | literals.dfy |
| `Text` (strtok tokenising, joining) | text.dfy |
| `Clauses` (class `Clause`) | clauses.dfy |
| `Semantics` (truth assignments) | semantics.dfy |
| `Formulas` (class `Formula`) | formulas.dfy |
| `Resolution` | resolution.dfy |
| `Saturation` (`isUnsatisfiable`) | saturation.dfy |
| `CnfFile` | cnf_file.dfy |
| `GuiText` | gui_text.dfy |
| `SolverCases` (the test driver's formulas) | solver_cases.dfy |
| `ByteRendering` (renderers at the level of UTF-8 bytes) | render_bytes.dfy |

**Classes.** Clauses and formulas are updated in place in the source, so they are classes here. `Clause.literals` and `Formula.clauses` are sequence fields that the methods reassign.

**Functions paired with methods.** The loops of the source that build a result step by step are methods. This includes the two first passes that size the rendering buffers (`ClauseFirstPass`, `FormulaFirstPass`). Each method is proved against a specification function, for example:

| method | specification function |
|---|---|
| `ParseClause` | `ParsedClause` |
| `ApplyResolution` | `ResolveStep` |
| `ParseFormulaLines` | `ParseLines` |
| `FormatPreview` | `Preview` |
| `ClauseFirstPass` | `ClauseTextLength`, the closed form of the count |

The properties are proved about those functions. The C library routines the loops call (`strtok`, `strlen`, `strcpy`) are functions, for example `Text.Tokens`.

**`isEmptyClause`** (logic_solver.c:214-216) is the size test inside `Formula.ContainsEmptyClause`. `Semantics.EmptyClauseIsContradiction` states what an empty clause means.

**Where the code and its description differ, the model follows the code:**
- `applyResolution` reports `true` when the resolvent is already in the formula. `addClauseToFormula` returns `true` for a duplicate (logic_solver.c:419). See `Resolution.DuplicateResolventReportsTrue`.
- Writing a formula and reading it back does not give back every formula the reader can produce. The writer puts nothing before a clause's first literal, and the reader skips blank lines and lines starting with `#`. So two kinds of clause are lost:
  - an empty clause, which is written as a blank line;
  - a clause whose first literal is a positive name starting with `#`. Such a clause is read from a line such as ` #A B`, and is written as `#A B`.

  See `CnfFile.ReadWriteReadLoses` and the Findings. For clauses whose line does not start with `#`, writing and reading back gives the formula without its empty clauses (`CnfFile.WriteParseRoundTrip`).

## Model

| member | source | states |
|---|---|---|
| Literals.LiteralsEqual | logic_solver.c:59-65 | true exactly when the two literals have the same name and the same polarity |
| Literals.Complementary | logic_solver.c:68-74 | true exactly when the second literal is the negation of the first; complementary literals are never equal |
| Literals.ComplementarySymmetric | logic_solver.c:68-74 | being complementary does not depend on the order of the two literals |
| Literals.NegateInvolution | logic_solver.c:51-56 | negating twice gives the literal back, and a literal is complementary to its negation |
| Literals.ParseLiteral | logic_solver.c:77-97 | no literal for the empty token or a lone "!"; otherwise a non-empty name, negated exactly when the token starts with '!', and the literal renders back to the token |
| Literals.LiteralToString | logic_solver.c:100-119 | "!" then the name for a negated literal, the name alone otherwise; the length is the name's plus one when negated |
| Literals.ParseRenderRoundTrip | logic_solver.c:77-119 | parsing a rendered literal gives it back if and only if its name is non-empty and a positive literal's name does not start with '!' |
| Text.Tokens | logic_solver.c:261-274 | the strtok loop yields only non-empty tokens free of the delimiters |
| Text.TokensOfJoin | logic_solver.c:261-274 | tokenising tokens joined by a non-empty separator made of delimiters gives the tokens back |
| Clauses.Insert | logic_solver.c:167-196 | insertion keeps a duplicate-free clause duplicate-free, keeps the old literals as a prefix, and adds at most one literal |
| Clauses.InsertElems | logic_solver.c:167-196 | after insertion the clause holds exactly its old literals and the new one |
| Clauses.Clause.constructor | logic_solver.c:130-149 | a new clause has no literals |
| Clauses.Clause.AddLiteral | logic_solver.c:167-196 | appends the literal unless an equal one is present, keeps the clause duplicate-free, and reports success in both cases |
| Clauses.Clause.Contains | logic_solver.c:199-211 | found exactly when an equal literal is in the clause |
| Clauses.Clause.Copy | logic_solver.c:219-240 | a fresh clause with the same literals in the same order |
| Clauses.ParseClause | logic_solver.c:243-279 | the clause built from a line is the insertion, in token order, of every token that parses |
| Clauses.ParsedLiteralsMembers | logic_solver.c:261-275 | a literal is among the parsed literals exactly when some token parses to it |
| Clauses.ParsedClauseMembers | logic_solver.c:243-279 | a parsed clause is duplicate-free, and holds a literal exactly when some token of the line parses to it |
| Clauses.BlankOrBangLineIsEmpty | logic_solver.c:261-275 | a line whose tokens are all a lone "!" parses to the empty clause |
| Clauses.ClauseToString | logic_solver.c:282-339 | "[]" for the empty clause, otherwise the literal renderings between parentheses, separated by " ∨ " |
| Clauses.ClauseFirstPass | logic_solver.c:292-306 | the first pass counts exactly the length of the clause's rendering, which is the closed form: 2, plus the literals, plus 3 per connective |
| Clauses.RenderClauseLength | logic_solver.c:292-306 | in characters, the rendering is exactly as long as the first pass counts: 2, plus the literals, plus 3 per connective |
| Semantics.ComplementaryDisagree | logic_solver.c:68-74 | no assignment makes two complementary literals both true or both false |
| Semantics.EmptyClauseIsContradiction | logic_solver.c:214-216 | a clause is false under every assignment exactly when it is empty |
| Semantics.EmptyClauseRefutes | logic_solver.c:625-627 | a formula holding the empty clause is unsatisfiable, which justifies the early `true` |
| Semantics.ComplementaryPairIsValid | logic_solver.c:508-516 | a clause holding a complementary pair is true under every assignment, so discarding a tautological resolvent loses nothing |
| Formulas.SameClauseIsSetEquality | logic_solver.c:393-421 | for duplicate-free clauses, the duplicate test holds exactly when the two literal sets are equal |
| Formulas.AddClauseKeepsWellFormed | logic_solver.c:387-439 | adding a clause keeps the formula well-formed, keeps the old clauses as a prefix, grows the formula exactly when no stored clause has the same literal set, and leaves an equivalent of the clause in it |
| Formulas.AddClauseSameSet | logic_solver.c:393-421 | adding a clause with the literal set of one just added changes nothing |
| Formulas.Formula.constructor | logic_solver.c:350-369 | a new formula has no clauses |
| Formulas.Formula.AddClause | logic_solver.c:387-439 | the clause list becomes the old list plus a copy of the clause, unless an equivalent is stored; success is reported in both cases |
| Formulas.Formula.ContainsEmptyClause | logic_solver.c:442-454 | found exactly when the empty clause is in the formula |
| Formulas.FormulaToString | logic_solver.c:525-578 | "(empty formula)" for no clauses, otherwise the clause renderings separated by " ∧ " |
| Formulas.RenderFormulaLength | logic_solver.c:534-548 | in characters, the rendering is exactly as long as the first pass counts |
| Formulas.FormulaFirstPass | logic_solver.c:534-548 | for a formula with clauses, the first pass counts exactly the length of its rendering: the clause renderings plus 3 per connective |
| Resolution.FirstPair | logic_solver.c:457-468 | present exactly when the two clauses hold a complementary pair, and then it is the first pair in row-major order |
| Resolution.FindResolvableLiterals | logic_solver.c:457-468 | found exactly when a complementary pair exists, and returns the first one |
| Resolution.Resolvent | logic_solver.c:482-506 | the resolvent is duplicate-free and holds exactly the literals of both clauses other than the resolved pair |
| Resolution.InsertExceptMembers | logic_solver.c:488-506 | the copy loops add exactly the literals at the positions other than the skipped one |
| Resolution.AddLiteralsExcept | logic_solver.c:488-506 | one copy loop: the clause becomes its old literals with every literal of the source clause but the skipped one inserted in order, and stays duplicate-free |
| Resolution.BuildResolvent | logic_solver.c:482-506 | a fresh clause holding the resolvent |
| Resolution.IsTautology | logic_solver.c:508-516 | true exactly when the clause holds a complementary pair |
| Resolution.ApplyResolution | logic_solver.c:472-522 | the report and the new clause list are those of one resolution step on the old list |
| Resolution.ResolveStepShape | logic_solver.c:472-522 | a step keeps the formula well-formed and only appends; with no report the formula is unchanged; an appended clause is the non-tautological resolvent of the first pair, built only from literals of the two clauses |
| Resolution.DuplicateResolventReportsTrue | logic_solver.c:519-521 | a non-tautological resolvent equivalent to a stored clause leaves the formula unchanged, yet the step reports true |
| Resolution.ResolveStepSettles | logic_solver.c:472-522 | repeating a step on any extension of its result changes nothing |
| Resolution.ResolventSound | logic_solver.c:482-506 | every assignment satisfying both clauses satisfies their resolvent |
| Resolution.ResolveStepSound | logic_solver.c:472-522 | a step keeps every satisfying assignment of the formula and both clauses |
| Saturation.TryPair | logic_solver.c:655-670 | one untried pair is marked and resolved: the report and the new clause list are those of one resolution step on clauses i and j; progress is kept; no report means no change; the result is unsatisfiable exactly when a step reports and the empty clause is present |
| Saturation.ResolveRow | logic_solver.c:654-672 | the pairs tried are untried pairs of row i, in increasing order of j; the new formula is the old one after one resolution step per tried pair, in that order; every pair (i, j) below n is tried unless the empty clause appears, which is reported exactly when present |
| Saturation.ResolveRound | logic_solver.c:650-685 | one round: the pairs tried lie below the size the formula had when the round began and come in row-major order (by i, then by j); the new formula is the old one after one resolution step per tried pair, in that order; unless the empty clause appears, every such pair is marked; if nothing is added, the formula is unchanged and every pair has been tried |
| Saturation.StepsConcat | logic_solver.c:649-686 | running the steps of one list of pairs and then those of another is running the steps of the two lists joined, so rows and rounds compose |
| Saturation.RowMajorConcat | logic_solver.c:650-656 | the pairs of rows below i, in row-major order, followed by pairs of row i in increasing order, are in row-major order |
| Saturation.RoundDecreases | logic_solver.c:649-686 | each round either uses up one more literal set of the vocabulary, or marks a pair that was not marked, or adds nothing and ends the loop |
| Saturation.RowsCoveredAll | logic_solver.c:650-656 | once every row of the pairs below n is marked, every pair below n is marked |
| Saturation.TryPairKeepsProgress | logic_solver.c:655-670 | a step keeps the formula well-formed, within the input's vocabulary, satisfied by the input's models, and the tried pairs settled |
| Saturation.UnusedShrinks | logic_solver.c:649-686 | every clause added is a new literal set over the input's fixed vocabulary, so the rounds terminate |
| Saturation.SettledGrows | logic_solver.c:653-673 | a pair whose step changes nothing stays settled when the formula grows |
| Saturation.AllSettledSaturated | logic_solver.c:686 | when every pair has been tried and settled, no step can change the formula |
| Saturation.AttemptBounds | logic_solver.c:653-656 | every recorded attempt is a pair i < j of clause positions |
| Saturation.IsUnsatisfiable | logic_solver.c:620-695 | result: unsatisfiable exactly when the final formula holds the empty clause; an input that already holds it is returned unchanged; the answer is sound (an unsatisfiable report means no assignment satisfies the input, and the input's models satisfy every clause added). Progress: every pair is tried at most once, and the final formula is the input after one resolution step per attempt, in order; a "not unsatisfiable" answer means the formula is saturated |
| CnfFile.StripNewlineSplits | logic_solver.c:597-600 | either the line ended in a newline and the text is the line without it, or the line is kept whole and does not end in a newline |
| CnfFile.SkippedLines | logic_solver.c:597-605 | a line is passed over exactly when it is empty, a lone newline, or starts with '#' |
| CnfFile.ParseLinesWellFormed | logic_solver.c:594-612 | reading any file gives a well-formed formula |
| CnfFile.ParseFormulaLines | logic_solver.c:594-612 | drops the newline, skips blank and '#' lines, and adds each other line's clause in order |
| CnfFile.WriteClauseLine | logic_solver.c:709-720 | a clause's line is its literal renderings separated by single spaces, then a newline |
| CnfFile.WriteFormulaLines | logic_solver.c:707-721 | one line per clause, in order |
| CnfFile.ClauseLineRoundTrip | logic_solver.c:708-720 | a written line of writable literals reads back as the same clause; it is skipped exactly when the clause is empty |
| CnfFile.WriteParseRoundTrip | logic_solver.c:698-725 | writing a well-formed formula of writable clauses and reading it back gives the formula without its empty clauses |
| CnfFile.ReadWriteReadLoses | logic_solver.c:698-725 | the empty clause, and a clause whose first literal is a positive name starting with '#', are each read back from a line that starts with a space; once written and read again, they are gone |
| CnfFile.HashNameLost | logic_solver.c:594-612 | the file " #A B" reads as the clause #A ∨ B, and the file written from that formula reads as no clauses |
| CnfFile.ParsedClauseWritable | logic_solver.c:77-97 | every literal parsed from a line has a non-empty name free of delimiters, and a positive one does not start with '!' |
| CnfFile.ReadLiteralsWritable | logic_solver.c:594-612 | every literal of a formula read from a file is writable in that sense |
| CnfFile.PaddedLineRoundTrip | logic_solver.c:708-720 | a clause line written with a leading space is never passed over, and reads back as its clause, the empty clause included |
| CnfFile.PaddedRoundTrip | logic_solver.c:698-725 | with the leading space, every well-formed formula of writable literals reads back exactly, empty clauses included |
| CnfFile.PaddedReadWriteRead | logic_solver.c:594-725 | with the leading space, reading any file, writing the formula and reading it again gives what the first read gave |
| GuiText.IsValidClause | gui_solver.c:47-76 | accepts exactly the lines with at least one token whose tokens are all valid literals (one optional '!', then [A-Za-z_][A-Za-z0-9_]*) |
| GuiText.BlankRejected | gui_solver.c:48-55 | a line of only spaces and tabs, the empty line included, is refused |
| GuiText.TokenExamples | gui_solver.c:57-73 | "!", "1A", "!!P" and "A-B" are refused; "P" and "!_x1" are accepted |
| GuiText.AcceptedLineShape | gui_solver.c:47-76 | an accepted line holds no newline and is not a line the solver skips |
| GuiText.AcceptedLineParses | gui_solver.c:47-76 | the solver tokenises an accepted line the same way, and every token becomes a literal of a non-empty clause |
| GuiText.ReadAcceptedLine | gui_solver.c:725 | an accepted line written with its newline adds its non-empty, duplicate-free clause when read |
| GuiText.HeaderSkipped | gui_solver.c:697 | the solver skips the comment line at the top of the file |
| GuiText.GuiFileReadsBack | gui_solver.c:697-726 | a file written from accepted lines reads as a formula without empty clauses, at most one clause per line, with an equivalent of each entered clause |
| GuiText.CheckFormulaName | gui_solver.c:666-681 | accepts exactly the non-empty names made of letters, digits, '_' and '-' |
| GuiText.CnfFileNameIsLocal | gui_solver.c:690 | an accepted name gives a file name without '/', '\\' or ':', whose only '.' starts the ".cnf" extension |
| GuiText.CnfFileNameInjective | gui_solver.c:690 | different accepted names give different files |
| GuiText.AppendShownClause | gui_solver.c:795-809 | appends the line's tokens separated by " V " |
| GuiText.FormatPreview | gui_solver.c:778-810 | the preview skips the first line, cuts each line at its newline, skips empty lines, and separates the shown clauses by " ^\n" |
| GuiText.KeptOfEntered | gui_solver.c:781-786 | the lines the preview keeps from the written clause lines are exactly the entered lines |
| GuiText.PreviewOfGuiFile | gui_solver.c:778-810 | the preview of a file written from accepted lines shows each entered line, in order |
| SolverCases.ResolveAOrBWithNotA | logic_solver.c:782-785 | resolving (A ∨ B) with (¬A) appends (B) and reports true |
| SolverCases.UnsatisfiableCase | logic_solver.c:791-808 | (A) ∧ (¬A) is reported unsatisfiable |
| SolverCases.SaturatedWithAAndNotA | logic_solver.c:649-686 | a saturated formula starting with (A) and (¬A) holds the empty clause |
| SolverCases.SatCaseSatisfiable | logic_solver.c:810-831 | (A ∨ B) ∧ (A ∨ ¬B) is satisfiable |
| SolverCases.SatisfiableCase | logic_solver.c:810-831 | (A ∨ B) ∧ (A ∨ ¬B) is not reported unsatisfiable |
| SolverCases.TautologyDiscarded | logic_solver.c:508-516 | resolving (A ∨ B) with (¬A ∨ ¬B) yields a tautology, so the step adds nothing and reports false |
| SolverCases.EmptyFormulaCase | logic_solver.c:620-695 | the formula without clauses is not reported unsatisfiable |
| SolverCases.SatCaseFirstStep | logic_solver.c:653-659 | the first pair of (A ∨ B) ∧ (A ∨ ¬B) resolves on B and appends (A) |
| SolverCases.MemoOverrun | logic_solver.c:631-685 | for any n clauses that a round grows to m > n: every flag of the first round lies inside the table; every row pointer stored for a new clause, n to m-1, lies outside the outer array of n; every flag (i, j) of the next round with i < n <= j lies outside row i |
| SolverCases.MemoOverrunOnSatCase | logic_solver.c:676-677 | on (A ∨ B) ∧ (A ∨ ¬B), the first round adds a third clause; row pointer 2 is stored outside the two-slot array, and flag [0][2] lies outside its row |
| ByteRendering.ConnectiveBytes | logic_solver.c:330 | " ∨ " and " ∧ " are five bytes each in UTF-8 |
| ByteRendering.CopyParts | logic_solver.c:315-336 | copying each literal's bytes at the write pointer, moving it on by their length, copying the connective between literals and moving on by three, gives '(' then the literals joined by the connective's first three bytes, then ')' |
| ByteRendering.WriteClauseBytes | logic_solver.c:282-339 | clauseToString's bytes are "[]" for the empty clause, else the literals' UTF-8 bytes joined by the first three bytes of " ∨ " between '(' and ')' |
| ByteRendering.ClauseBytesAsWrittenFill | logic_solver.c:292-336 | the bytes left in the buffer fill exactly the size the first pass computes |
| ByteRendering.LastConnectiveInBuffer | logic_solver.c:309-332 | the six bytes strcpy writes for the last connective fit in the buffer (the first pass's size plus one) exactly when the last literal renders to at least one byte; a last literal with an empty name overruns it by one byte |
| ByteRendering.ClauseBytesIntended | logic_solver.c:282-339 | the encoding of a clause's rendering is '(', the literals with the whole " ∨ " between them, ')', and is as long as a count with five bytes per connective |
| ByteRendering.ClauseConnectiveTruncated | logic_solver.c:329-332 | a clause of two or more literals is written 2 bytes per connective short of its encoding, so it differs from it |
| ByteRendering.AOrBAsWritten | logic_solver.c:315-336 | (A ∨ B) is written as the bytes 28 41 20 E2 88 42 29 |
| ByteRendering.FormulaBytesIntended | logic_solver.c:525-578 | the encoding of a formula's rendering is the clause encodings with the whole " ∧ " between them, five bytes per connective |
| ByteRendering.FormulaConnectiveTruncated | logic_solver.c:571-573 | a formula of two or more clauses is written at least 2 bytes per connective short of its encoding, so it differs from it |

## Left out

- File and window I/O:
  - `fopen`, `fgets`, `fprintf`, `fclose`, `MessageBox` and `SetWindowText` are left out.
  - A file is modelled as the sequence of lines `fgets` returns. Writing produces that sequence.
  - A failed `fopen` is not modelled.
- Line length limits. `fgets` splits a line longer than 1023 bytes (`MAX_LINE_LENGTH`, and the GUI's `line[1024]`). The model reads every line whole.
- Memory errors:
  - `malloc`, `calloc`, `realloc` and `strdup` returning NULL are not modelled, nor the error returns that follow them.
  - The capacity fields and their doubling are left out: sequences grow without bound.
- NULL pointer arguments are not modelled. Every function that checks for them returns early on NULL.
- Characters. Strings are sequences of characters with no terminating NUL. `isalpha` and `isalnum` are the ASCII classes of the C locale.
- `main` prints its results, and printing is left out. Its formulas are worked through in `SolverCases`. Test 8 (write, then read back) is covered by `CnfFile.WriteParseRoundTrip` and `CnfFile.ReadWriteReadLoses`.
- input_generator.c is not part of this model.
- Most of the Win32 front end is left out:
  - window and dialog procedures;
  - running the solver process;
  - the `totalClauses` count read with `atoi`;
  - the 100-byte formula name buffer;
  - the 8192-byte preview buffer, which `strcat` can overrun on a long file.
- Saturation.IsUnsatisfiable records the tried pairs as a set of index pairs. It does not use the source's table of row arrays, so the out-of-bounds stores of that table (see Findings) are not part of the corrected model.
- Saturation.IsUnsatisfiable states the order of its attempts only through the fold of resolution steps. How the attempts split into rounds is not in its contract; the order within a round is stated by `Saturation.ResolveRound`.
- Saturation.IsUnsatisfiable does not model the early `return true` freeing rows that were never allocated. That path frees `formula->size` rows, including rows for clauses added in the current round. It is a memory error with no effect on the answer.
- CnfFile.PaddedLine is not the source's writer. It is the corrected writer of the Findings, and the model's writer `CnfFile.WriteFormulaLines` stays as written.
- Clauses.ClauseToString and Formulas.FormulaToString render characters, not bytes. Their byte-level behaviour, including the truncated connectives, is modelled separately in `ByteRendering`.

## Findings

| source | as written | input that shows it | evidently intended | confidence | as-written member | corrected member |
|---|---|---|---|---|---|---|
| logic_solver.c:676-677 | the memo of resolved pairs gets `formula->size` row pointers at the start (line 631). Rows for clauses added in a round are stored at positions past that size, and old rows stay `formula->size` flags long while `j` runs to the new size (line 656) | (A ∨ B) ∧ (A ∨ ¬B): the first round adds (A); row pointer 2 is stored into a two-slot array, and the second round marks flag [0][2] of a two-flag row. `SolverCases.MemoOverrun` states the same for every formula that a round grows | grow the memo with the formula, so that each pair of clauses is marked once and only in bounds | not executed; high | SolverCases.MemoOverrunOnSatCase | Saturation.IsUnsatisfiable |
| logic_solver.c:329-332 | the first pass counts 3 bytes for " ∨ " (line 304). After copying it, the pointer advances 3 bytes. In UTF-8 the connective is 5 bytes, so the next literal overwrites its last two. formulaToString does the same with " ∧ " (lines 546, 572-573) | (A ∨ B) is returned as the bytes 28 41 20 E2 88 42 29, which hold an incomplete UTF-8 sequence | count and advance by the connective's byte length, so the returned text is the UTF-8 encoding of the rendering | not executed; high | ByteRendering.ClauseConnectiveTruncated | ByteRendering.ClauseBytesIntended |
| logic_solver.c:708-720 | writeFormulaToFile writes nothing before a clause's first literal, and writes an empty clause as an empty line. parseFormulaFromFile skips a line that is empty or starts with '#' (lines 603-605). A line read with a leading space is a clause even when its first token starts with '#' | the file " #A B" reads as the clause #A ∨ B, which is written as "#A B" and skipped by the next read; a line holding only a space reads as the empty clause, which is written as a blank line and skipped | a formula the solver reads, writes and reads again is the same formula, for example by writing a space before each clause's literals | not executed; medium | CnfFile.ReadWriteReadLoses | CnfFile.PaddedReadWriteRead |
