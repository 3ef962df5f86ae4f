# Brainfuck tokenizer and bracket validator, modelled in Dafny

This project models the two working parts of `python/main.py`, a small
Brainfuck front end.

- **The tokenizer.** `tokenize` maps one character to an `Action`. The eight
  Brainfuck symbols `> < + - . , [ ]` map to their actions through the
  `BF_TOKENS` table. Every other character maps to `NO_OP` and is a comment.
- **The validator and action compiler.** `program_has_matching_brackets`
  scans the program once, left to right. It counts lines, which start at 1
  and advance on every `\n` or `\r`. It counts columns, which restart on a
  newline character and advance on every character, comments included. It
  pushes the position of each `[` on a stack and pops the stack on each `]`.
  It collects the recognised actions in order.
  - A `]` met with an empty stack ends the scan at once with an
    unmatched-`]` error at that character's position.
  - If brackets are still open at the end, the reporting loop returns on its
    first iteration, so only the innermost open `[` is reported.
  - Otherwise it returns the action list.

Files:

- `tokens.dfy` (module `Tokens`) holds:
  - the `Action` datatype;
  - the `BfTokens` table and the `NewlineChars` set;
  - `Tokenize`, and `Symbol`, its inverse on the eight symbols.
- `brackets.dfy` (module `Brackets`) holds:
  - the `Outcome` datatype. It replaces the source's `None`-plus-stderr
    convention with `UnmatchedClose(at)`, `UnmatchedOpen(at)` or
    `Ok(actions)`.
  - the specification functions. They are pure functions of the first `n`
    characters: bracket depth (`Depth`), the first unmatched `]`
    (`FirstUnmatchedClose`), the innermost open `[` (`InnermostOpen`), line
    and column (`NewlineCount`, `ColumnAfter`, `PositionOf`), and the
    filtered action list (`Filtered`).
  - `Expected`, which combines these into the specified outcome.
  - the imperative method `ProgramHasMatchingBrackets`, which mirrors the
    source loop with a sequence-backed stack and is proved equal to
    `Expected`.
- `properties.dfy` (module `BracketProperties`) proves what the validator
  promises, as lemmas about `Expected` and the specification functions:
  - acceptance exactly of balanced programs;
  - both error reports;
  - order-preserving filtering;
  - the line and column arithmetic.
- `hello_world.dfy` (module `HelloWorld`) holds the shipped "Hello World!"
  program and proves that the validator accepts it.

The source has no executor and no jump-target resolution: its actions carry
no targets (python/main.py:70) and `main` ends in a placeholder failing
assert (python/main.py:82), so no execution is modelled.

The reporting loop at python/main.py:72-75 returns on its first iteration,
so only the innermost open `[` is reported; the model does the same.

## Model

| member | source | states |
|---|---|---|
| Tokens.Tokenize | python/main.py:46-47 | A character gets a non-`NoOp` action exactly when it is a key of the table, and then it gets the table's action for it. Every other character gets `NoOp`. |
| Tokens.Symbol | python/main.py:19-28 | Every action other than `NoOp` has a symbol in the table that maps back to it. |
| Tokens.TokenizeSymbolInverse | python/main.py:19-28 | The table is a bijection between the eight symbols and the eight non-`NoOp` actions. Tokenizing a symbol gives its action, and a recognised character is its action's symbol. |
| Tokens.TokenizeBrackets | python/main.py:26-27 | The two jump actions come from `[` and `]` and from no other character. |
| Tokens.RecognisedCharacters | python/main.py:19-34 | Exactly the eight characters `> < + - . , [ ]` are recognised. Newline characters, spaces and tabs are comments. |
| Brackets.FirstUnmatchedClose | python/main.py:64-69 | The result is the index of the first `]` that takes the running depth below zero: depth 0 before it, negative after it, never negative earlier. It is absent exactly when no prefix goes negative. |
| Brackets.LastBelow | python/main.py:71-75 | The result is the last point before `n` where the depth is below `d`, and the depth stays at `d` or more after it. |
| Brackets.InnermostOpen | python/main.py:71-75 | When brackets are left open, the result is the index of a `[` whose enclosing depth is one less than the final depth, and the depth never falls back after it. This is the innermost open bracket, the top of the source's stack. |
| Brackets.Expected | python/main.py:49-76 | The whole outcome of validation, defined from bracket depth alone: the first unmatched `]` at its position, else the innermost open `[` at its position, else the filtered actions. The method is proved equal to it. |
| Brackets.OpenPositions | python/main.py:62-66 | The `validate_matching_brackets` stack after `n` characters: the position of each `[` pushed, one entry popped on each `]` when there is one. |
| Brackets.NewlineCount | python/main.py:54-55 | How many times the line counter has advanced after `n` characters: one for each `\n` or `\r`. |
| Brackets.ColumnAfter | python/main.py:54-58 | The column counter after `n` characters: reset to 0 on a newline character, then advanced by one for every character. |
| Brackets.PositionOf | python/main.py:50-58 | The `(line, column)` pair the counters hold when the character at `i` is examined: line 1 plus the newlines up to and including it, and the column after it. |
| Brackets.Filtered | python/main.py:57-70 | The `actions` list after `n` characters: each character's `tokenize` result in source order, with every `NoOp` skipped. |
| Brackets.ProgramHasMatchingBrackets | python/main.py:49-76 | The loop with its line, column, stack and action list returns exactly `Expected(prog)`. That is the first unmatched `]` with its position; otherwise the innermost unmatched `[` with its position; otherwise the filtered actions. |
| Brackets.OpenPositionsOfIndices | python/main.py:62-66 | The validator's stack holds, bottom to top, the positions of the `[` brackets that are still open. |
| Brackets.OpenPositionsDepth | python/main.py:62-69 | While no `]` has been unmatched, the stack height equals the number of `[` minus the number of `]` scanned so far. |
| Brackets.OpenIndicesSound | python/main.py:62-66 | The stack entry at height `d` was pushed at depth `d`, and the depth has stayed above `d` since. |
| Brackets.OpenStackStep | python/main.py:62-66 | One push or pop keeps that stack invariant, unless it meets a `]` with nothing open. |
| Brackets.FirstUnmatchedCloseAt | python/main.py:64-69 | A `]` that takes the depth below zero after a non-negative prefix is the first unmatched `]`. |
| Brackets.ExpectedOnClose | python/main.py:64-69 | A pop on an empty stack ends validation with an unmatched-`]` error at that character's line and column. |
| Brackets.ExpectedAtEnd | python/main.py:71-76 | After a complete scan, a non-empty stack gives an unmatched-`[` error at its top entry. An empty stack gives the collected actions. |
| BracketProperties.PrefixAgrees | python/main.py:53-70 | Depth, line, column and collected actions after `n` characters depend only on those `n` characters. |
| BracketProperties.DepthCounts | python/main.py:62-69 | The bracket depth of a prefix is its number of `[` minus its number of `]`. |
| BracketProperties.PrefixCounts | python/main.py:62-69 | The running depth never goes negative exactly when every prefix holds at least as many `[` as `]`. |
| BracketProperties.OkIffBalanced | python/main.py:62-76 | Validation succeeds exactly when every prefix has at least as many `[` as `]` and the totals are equal, that is, when the brackets balance. On success the result is the filtered action list. |
| BracketProperties.UnmatchedCloseStopsScan | python/main.py:64-69 | The first `]` that brings the depth below zero is reported with its own position. Replacing everything after it leaves the outcome unchanged. |
| BracketProperties.UnmatchedCloseIffExcess | python/main.py:64-69 | An unmatched-`]` error occurs exactly when some prefix has more `]` than `[`. |
| BracketProperties.UnmatchedOpenIsInnermost | python/main.py:71-75 | An unmatched-`[` error occurs exactly when no prefix goes negative and brackets remain open. It carries the position of an unclosed `[`, and every `[` after that one is closed, so it is the innermost unclosed bracket. |
| BracketProperties.FilteredAppend | python/main.py:57-70 | The actions of a concatenation are the actions of its parts in order: filtering preserves source order. |
| BracketProperties.FilteredCounts | python/main.py:57-70 | Each action occurs in the action list as often as its symbol occurs in the source. |
| BracketProperties.FilteredLength | python/main.py:57-70 | The action list is as long as the number of recognised characters in the source. |
| BracketProperties.FilteredHasNoNoOp | python/main.py:59-60 | `NoOp` never reaches the action list. |
| BracketProperties.FilteredOfComments | python/main.py:59-60 | A source made only of comment characters yields no actions. |
| BracketProperties.NewlineCountIsCount | python/main.py:54-55 | The line counter's increments are the number of `\n` plus the number of `\r` characters. |
| BracketProperties.LineCountsNewlines | python/main.py:50-55 | The line of the character at `i` is 1 plus the number of newline characters in positions 0 to `i` inclusive. |
| BracketProperties.CrLfCountsTwice | python/main.py:54-56 | A `\r\n` pair advances the line counter by two, and the `\n` is reported in column 1. |
| BracketProperties.ColumnAfterNewline | python/main.py:54-58 | After the last newline character at `k`, the character at `i` is in column `i - k + 1`. Comments count, and the newline itself is in column 1. |
| BracketProperties.ColumnOnFirstLine | python/main.py:50-58 | Before any newline character, the character at `i` is on line 1 in column `i + 1`. |
| HelloWorld.SingleLoopBalanced | python/main.py:36-38 | A bracket-free setup, one loop with a bracket-free body, and a bracket-free tail balance. |
| HelloWorld.HelloWorldValidates | python/main.py:79-80 | The shipped "Hello World!" program passes validation. |

## Left out

- Diagnostics printed to `sys.stderr` (python/main.py:68, 74) are not modelled as output. The outcome value carries the error kind and its `(line, column)`. The `None` return is the absence of an action list in the two error outcomes.
- `platform.system()` and `IS_WINDOWS` (python/main.py:4, 44) are not modelled. It is an operating-system query that the validator never uses.
- The global `MEMORY_CELL` array (python/main.py:41) is not modelled because no code reads or writes it.
- `main` and the `__main__` entry point (python/main.py:78-85) are not modelled, except for the one fact `main` relies on: `HelloWorld.HelloWorldValidates`. The rest of `main` is a placeholder failing assert.
- No executor, tape, pointer, output stream or jump targets are modelled. The source implements none of them.
- The text of the shipped program is written in `hello_world.dfy` as a concatenation of short literal pieces. The pieces join to the exact 124-character string of python/main.py:36-38. They are split so that proving each piece bracket-free stays cheap.
- The model's input is a sequence of Unicode scalar values, because a Dafny `char` cannot hold a lone surrogate code point (U+D800 to U+DFFF). A Python `str` can hold one; the source treats it as a comment and counts one column for it, and the model has no such input.
