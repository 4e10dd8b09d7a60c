# A verified model of a Brainfuck tokenizer, parser and interpreter

This project models the core of a small Brainfuck toolchain written in Rust:

- **Tokenizer** (`Tokenizer`). A character filter. Each of the eight command characters `> < + - . , [ ]` becomes a token, and every other character is a comment and is dropped. Tokens carry no source positions.
- **Parser** (`Parser`, proofs in `ParserFacts`). A bracket matcher driven by a depth counter.
  - Each outermost matched pair becomes a `Loop`, whose body is the recursive parse of the tokens strictly between the brackets.
  - A `]` with nothing open is an error naming that token's index.
  - A `[` still open at the end is an error naming the index of the last outermost `[`.
  - These errors are indices into the token sequence, exactly what the panic messages print. They are not a line and column: the tokens have no positions to report.
- **Interpreter** (`Interpreter`, proofs in `InterpreterFacts`). A tree-walking evaluator over a tape of 30000 byte cells and a pointer.
  - Moving the pointer off either end of the tape ends the process.
  - Cell arithmetic wraps modulo 256.
  - `,` leaves the cell alone when the input is exhausted.
  - `[...]` repeats its body while the current cell is nonzero.
  - Standard input and output become sequences.
  - A loop may not terminate, so the interpreter is a pure function indexed by *fuel*. Instructions in sequence all receive the same fuel; each iteration of a loop passes one unit less both to its body and to the loop's remaining iterations. Fuel therefore bounds the nesting and length of loop iterations together, not their total count. The outcome is one of:
    - `Done(state)`;
    - `OutOfBounds(edge, output)`, where the process would exit with what it had printed so far;
    - `OutOfFuel`.
- **Tape window** (`TapeView`). The arithmetic that chooses the 11 cells shown around the pointer and the column of the arrow that marks it.
- **REPL command classifier** (`Repl`). It turns a line into `Exit`, `Tape(None)`, `Tape(Some(i))`, `Invalid` or `Code(text)`.
  - It follows Rust's `trim`, `split_whitespace` (Unicode `White_Space`) and `parse::<usize>` exactly.
  - Reading the file named by `run <file>` is a function parameter `load`.
- **Pipeline** (`Pipeline`). `eval`: tokenize, parse, run on a zeroed tape with the pointer at cell 0.

Every operation has a partner that its lemmas connect it to:

- Spelling tokens as their command characters is undone by tokenizing (`TokenizeSpellAll`). Tokenizing and then spelling removes exactly the comments (`TokensSpellSource`).
- A successful parse is undone by flattening the instruction tree, and flattening any tree is undone by parsing (`ParseFlatten`). Parse succeeds exactly on balanced token sequences, and each error names the token described by an independent prefix-depth characterisation.
- Each instruction's effect is stated against the state it starts from. Running a concatenation is running its parts in turn, and fuel is only a bound.
- The tape window is the pointer-centred window clamped into the tape.
- Joining whitespace-free words with single spaces is undone by the classifier's word splitting (`SplitJoin`). Printing a `usize` in decimal is undone by its number parsing (`ParseDecimal`), and a string parses to a value exactly when it is an optional `+`, zeros and that value's decimal spelling (`ParseUsizeSpells`).

## Model

| member | source | states |
|---|---|---|
| Tokenizer.TokenOf | src/tokenizer.rs:16-25 | a character yields a token exactly when it is one of the eight command characters, and that token is spelled by the character |
| Tokenizer.TokenOfIsInjective | src/tokenizer.rs:16-24 | distinct command characters yield distinct token kinds |
| Tokenizer.SpellIsInverse | src/tokenizer.rs:2-24 | every token kind is produced by exactly its own command character |
| Tokenizer.StripCommentsShape | src/tokenizer.rs:15-27 | the kept characters are all commands and are no more than the input; nothing is dropped exactly when every character is a command, and nothing is kept exactly when no character is |
| Tokenizer.TokensSpellSource | src/tokenizer.rs:13-29 | spelling the tokens back gives the source with its comments removed, in source order |
| Tokenizer.TokenCount | src/tokenizer.rs:14-28 | the token count is the number of command characters, at most the input length; no tokens exactly when the input has no command character |
| Tokenizer.TokenizeAppend | src/tokenizer.rs:15-27 | tokenizing a concatenation is concatenating the tokenizations |
| Tokenizer.TokenizeSpellAll | src/tokenizer.rs:13-29 | tokenizing the spelling of any token sequence gives that sequence back |
| Parser.Emit | src/parser.rs:19-26 | each non-bracket token becomes the instruction of the same kind, which flattens back to that token |
| ParserFacts.InnerBalanced | src/parser.rs:36-42 | the tokens strictly between an outermost matched pair are balanced, so the recursive parse of the loop body never fails |
| ParserFacts.ScanVerdict | src/parser.rs:18-51 | from any point of the scan that satisfies the depth invariant, the scan ends in the verdict below |
| ParserFacts.ParseVerdict | src/parser.rs:13-54 | parse succeeds exactly on balanced tokens (no prefix closes more than it opens, totals equal); on success the tree flattens back to the tokens; an unmatched `]` error names the first underflowing token; an unmatched `[` error names the last `[` opened at depth 0 |
| ParserFacts.ParseErrors | src/parser.rs:27-50 | for every index, the unmatched-`]` error names it exactly when it is the first underflow, and that token is a `]` seen at depth 0; the unmatched-`[` error names it exactly when it is the last outermost open, and that token is a `[` |
| ParserFacts.FlattenBalanced | src/parser.rs:13-54 | the flattening of every instruction tree is balanced, so every tree is the parse of something |
| ParserFacts.FlattenInjective | src/parser.rs:18-53 | distinct instruction trees flatten to distinct token sequences, so the parse result is the only tree matching the input |
| ParserFacts.ParseFlatten | src/parser.rs:18-53 | parsing the flattening of any tree gives that tree back |
| ParserFacts.ParseAppend | src/parser.rs:18-47 | two parsable token sequences parse, when concatenated, to the concatenation of their parses |
| ParserFacts.ParseLoopBody | src/parser.rs:36-42 | every loop in a parse result sits between a `[` and a `]` in the input, and its body is the parse of exactly the tokens between them |
| Interpreter.Initial | src/commands/eval.rs:7-8 | the initial state has a 30000-cell tape of zeros, the pointer at cell 0 and no output |
| Interpreter.Exec | src/interpreter.rs:12-51 | a non-loop instruction fails exactly on `>` at cell 29999 or `<` at cell 0, reports the right edge and keeps the output written so far; otherwise the pointer stays on the tape |
| Interpreter.Run | src/interpreter.rs:9-60 | a finished run leaves the pointer on the tape |
| Interpreter.Step | src/interpreter.rs:10-58 | a finished instruction leaves the pointer on the tape |
| Interpreter.RunLoop | src/interpreter.rs:53-57 | a loop that finishes leaves the pointer on the tape and the current cell zero |
| InterpreterFacts.RightEffect | src/interpreter.rs:12-19 | `>` at cell 29999 is fatal at the high edge; elsewhere it moves the pointer one right and changes nothing else |
| InterpreterFacts.LeftEffect | src/interpreter.rs:21-28 | `<` at cell 0 is fatal at the low edge; elsewhere it moves the pointer one left and changes nothing else |
| InterpreterFacts.IncrementEffect | src/interpreter.rs:30-32 | `+` sets the current cell to its value plus one modulo 256 and changes no other cell, the pointer, input or output |
| InterpreterFacts.DecrementEffect | src/interpreter.rs:34-36 | `-` sets the current cell to its value plus 255 modulo 256 and changes nothing else |
| InterpreterFacts.WriteEffect | src/interpreter.rs:38-41 | `.` appends the current cell's character to the output and changes nothing else |
| InterpreterFacts.ReadEffect | src/interpreter.rs:43-51 | `,` with input stores the next byte in the current cell and consumes it; with input exhausted the state is unchanged |
| InterpreterFacts.MovesCancel | src/interpreter.rs:12-28 | `>` then `<` leaves the state unchanged below the last cell, and `<` then `>` leaves it unchanged above cell 0 |
| InterpreterFacts.ArithmeticCancels | src/interpreter.rs:30-36 | `+` then `-`, and `-` then `+`, leave the state unchanged for every cell value |
| InterpreterFacts.LoopOnZeroSkips | src/interpreter.rs:53-57 | a loop entered on a zero cell does nothing |
| InterpreterFacts.RunExtends | src/interpreter.rs:9-60 | running only consumes input from the front and only appends to the output, including the output carried by a fatal outcome |
| InterpreterFacts.RunAppend | src/interpreter.rs:10-59 | running `a + b` is running `a` and then, if it finished, running `b` from the state it left |
| InterpreterFacts.RunMoreFuel | src/interpreter.rs:53-57 | an outcome other than running out of fuel is unchanged by more fuel |
| InterpreterFacts.Increments | src/interpreter.rs:30-32 | `n` increments add `n` to the current cell modulo 256 and change nothing else |
| InterpreterFacts.IncrementsWrap | src/interpreter.rs:31 | any multiple of 256 increments leaves the state unchanged |
| InterpreterFacts.MovesRight | src/interpreter.rs:12-19 | `n` moves right reach cell `ptr + n` while that is on the tape and are fatal at the high edge otherwise |
| InterpreterFacts.TapeEdges | src/interpreter.rs:12-28 | from the initial state 29999 moves right reach the last cell, 30000 are fatal, and a leading `<` is fatal |
| InterpreterFacts.CountDown | src/interpreter.rs:53-57 | `[-]` finishes exactly when the fuel covers the cell's value, and then only clears the current cell |
| TapeView.SelectWindow | src/tape.rs:3-16 | the window is 11 cells inside the tape and holds the pointer, centred on it (5 cells before) when 6 <= ptr <= 29994; the arrow column is 3 plus 6 per cell from the window start and lies in [3, 63] |
| TapeView.WindowIsClampedCentre | src/tape.rs:5-14 | the window start is `ptr - 5` clamped into [0, 29989] |
| Repl.TrimStart | src/commands/repl.rs:15 | the result is a suffix of the line, everything dropped is whitespace and the result does not start with whitespace |
| Repl.TrimEnd | src/commands/repl.rs:15 | the result is a prefix of the line, everything dropped is whitespace and the result does not end with whitespace |
| Repl.TrimIsTheTrim | src/commands/repl.rs:15 | the trimmed line is the unique infix obtained by dropping whitespace at both ends and starting and ending with non-whitespace |
| Repl.Word | src/commands/repl.rs:22 | the first word is the longest whitespace-free prefix |
| Repl.SplitWhitespace | src/commands/repl.rs:22 | every split part is a non-empty whitespace-free word |
| Repl.SplitKeepsText | src/commands/repl.rs:22 | the split parts together hold exactly the line's non-whitespace characters, in order |
| Repl.SplitJoin | src/commands/repl.rs:22 | splitting words joined by single spaces gives the words back |
| Repl.ParseUsize | src/commands/repl.rs:28 | a parsed index fits in a 64-bit `usize` |
| Repl.ParseUsizeSpells | src/commands/repl.rs:28-40 | a string parses to `v` exactly when `v` fits a `usize` and the string is an optional `+`, any number of `0`s, then the decimal spelling of `v`; every other string, such as `5x`, is rejected and the line is `Invalid` |
| Repl.ParseDecimal | src/commands/repl.rs:28 | the decimal spelling of a `usize`, with or without a leading `+`, parses back to it; a leading `-` never parses |
| Repl.Classify | src/commands/repl.rs:30-34 | every `Tape(Some(i))` has `i <= 29999` |
| Repl.ClassifyKeywords | src/commands/repl.rs:17-20 | `Exit` exactly when the trimmed line is `exit`; `Tape(None)` exactly when it is `tape` |
| Repl.ClassifyTapeIndex | src/commands/repl.rs:21-41 | for other lines starting with `tape`: `Tape(Some(i))` exactly when there are two words, the second parses to `i` and `i <= 29999`; `Invalid` exactly otherwise |
| Repl.ClassifyRun | src/commands/repl.rs:42-51 | a line starting with `run` is `Invalid` exactly when it does not have two words, and otherwise is the code loaded from the file named by the second |
| Repl.ClassifyCode | src/commands/repl.rs:52-53 | any other line is code, namely the trimmed line |
| Repl.TapePrefixIsLiteral | src/commands/repl.rs:21-34 | the `tape` test is a prefix test: any word starting with `tape` followed by an in-range index shows that cell (`tapeworm 5` shows cell 5) |
| Pipeline.EvalSyntax | src/commands/eval.rs:4-5 | code is rejected exactly when its tokens are unbalanced, with the error naming the first unmatched `]` or the last unclosed outer `[` |
| Pipeline.CommentsAreIgnored | src/commands/eval.rs:4-5 | removing every non-command character does not change what code does |
| Pipeline.EvalOfComment | src/commands/eval.rs:4-10 | code without command characters finishes in the initial state |
| Pipeline.ExecuteAppend | src/commands/eval.rs:4-10 | executing the concatenation of two well-bracketed pieces of code is executing the first and then, if it finished, the second from where it left off |

## Left out

- Standard input and output are sequences. Flushing stdout, `log::error!` messages and `process::exit(1)` are not modelled: a fatal pointer move is an `OutOfBounds` outcome carrying the output already printed.
- A read error on stdin counts as exhausted input in the source (`result.ok()`). The model has no read errors: the input is a finite sequence of bytes.
- `print!("{}", cell as char)` writes the UTF-8 encoding of the code point. The model's output is the sequence of characters; the two-byte encoding of values 128 to 255 is not modelled.
- Interpreter.Run: non-termination is bounded by fuel. Sequenced instructions share the fuel, and each loop iteration hands one unit less to its body and to the iterations after it, so a program whose loops nest or iterate more deeply than the fuel gives `OutOfFuel` instead of running on. `RunMoreFuel` shows fuel is only a bound: any other outcome stays the same with more.
- The parser's depth counter is an `i32`. Overflowing it needs more than 2^31 nested `[`, and the model's depth is unbounded.
- Parse errors are `panic!`s in the source; the model returns them as `Err`. The message text is not modelled, only the index it prints.
- Repl.ParseUsize: assumes a 64-bit `usize`. Rust's `parse::<usize>` overflow bound depends on the target.
- The file read in `run <file>` (`read_file`, which exits the process on failure) is the parameter `load`. src/commands/utils.rs is not part of this model.
- The REPL loop itself (src/commands/repl.rs:58-124): line editing, history, cursor control, and keeping the tape and pointer between lines.
- The tape printing (src/tape.rs:17-41): the `println!` output and the floating-point padding of cell numbers.
- The command-line front end (src/main.rs) and the `run`, `check` and `minify` commands, which are glue over the same pipeline or file handling. `source_from_tokens`, used by `minify`, is not part of this model.
