# FFS compiler and virtual machine in Dafny

FFS is a Brainfuck-style language. The language works on a tape of byte
cells. Its source text is compiled in three passes:

1. `strip_comments` removes `#` line comments and `/* */` block comments.
2. `desugar` turns the text into a flat list of instructions. It expands:
   - repeat suffixes such as `+x5`;
   - labeled brackets `[@name` / `]@name`;
   - `=num` constants;
   - `:ident` annotations.
3. `link_jumps` pairs each `[` (JZ) with its `]` (JNZ) using a stack. It
   stores each partner's index in the other's argument.

The virtual machine `run` then executes the linked program:
- it uses a zero-filled tape with a pointer;
- the tape can grow ("elastic"), the run can die at the ends ("strict"), or
  the pointer stays put at the ends ("clamp");
- it reads bytes from an input stream and writes bytes to an output stream.

`src/main.cpp` is an older single-file copy of the same pipeline. Its
`parse_number` keeps the low byte of large literals instead of rejecting
them.

The model is split by module:

| file | module | models |
|---|---|---|
| program.dfy | `Bytecode` | `Op`, `Instr`, `Program` (include/program.h) and the `ErrorCode` enum (include/error.h) |
| compiler.dfy | `Compiler` | `calculateLocation`, `strip_comments`, `is_ident`, `parse_number` with `std::stoul`, and `desugar` |
| linker.dfy | `Linker` | `link_jumps`, in place on an `array` |
| compile.dfy | `Compile` | `compile_src` of src/compiler.cpp |
| vm.dfy | `Vm` | `run` as a specification (`Step`, `RunFrom`) and as a method with the source's loops |
| pipeline.dfy | `Pipeline` | what compiled programs mean to the machine |
| legacy.dfy | `Legacy` | the parts of src/main.cpp that differ |

Each stateful pass is a method proved equal to a specification function:
- `StripComments` equals `Strip`;
- `DesugarWith` equals `Desugar`;
- `Run` equals `Execute`;
- `LinkJumps` is proved against depth-based predicates on the original
  code.

The lemmas then state the source's promises about those functions.

`Desugar` takes the literal parser as a parameter. The two compilers
instantiate it with their own `parse_number`:
- `Compiler.ParseNumber` rejects out-of-range literals with an error code;
- `Legacy.ParseNumber` wraps them with `& 0xFF`.

The I/O streams are modelled as values:
- the input is the byte sequence the input file would deliver;
- the output is the sequence of bytes written;
- trace lines and `!` dumps are recorded as events on a diagnostics sequence.

A `die` or an `ErrorReporter::syntaxError` (both end the process) becomes an
error result.

## Model

| member | source | states |
|---|---|---|
| Compiler.LineColumn | src/compiler.cpp:18-29 | the scan's line and column start at 1 and never drop below it; what they count is stated by `LineColumnCounts` |
| Compiler.CalculateLocation | src/compiler.cpp:12-32 | returns the line and column reached after scanning the first min(position, size) characters, with position and filename unchanged |
| Compiler.LineColumnCounts | src/compiler.cpp:15-29 | the line is 1 + the number of newlines scanned; the column is 1 + the number of characters since the last newline (none of them a newline, and the character before them is one) |
| Compiler.StripComments | src/compiler.cpp:35-74 | the one-pass scan with the in-block flag returns exactly the comment-free text `Strip(s)` |
| Compiler.SkipToNewline | src/compiler.cpp:45-48 | the skip loop stops at the first newline after the `#`, or at the end, passes no newline, and does not change what the comment strips to |
| Compiler.ScanLineComment | src/compiler.cpp:43-54 | a `#` comment up to and including its newline contributes that one newline, or nothing when it runs to the end |
| Compiler.StripKeepsText | src/compiler.cpp:67-70 | text that starts no comment is kept unchanged and in order ahead of the rest |
| Compiler.StripCommentFree | src/compiler.cpp:35-74 | a text with no `#` and no `/*` is its own stripped form |
| Compiler.StripLineComment | src/compiler.cpp:43-54 | `#body\nrest` strips to `\n` followed by the stripped rest; `#body` at the end strips to nothing |
| Compiler.StripBlockComment | src/compiler.cpp:55-66 | `/*body*/rest` strips to the stripped rest; an unterminated `/*body` drops everything after it |
| Compiler.IdentChars | src/compiler.cpp:76-79 | is_ident accepts exactly the ASCII letters and digits, `_` and `-`; a name ends at white space, `@`, `=`, `:`, `#` and every operator except `-` |
| Compiler.Stoul | src/compiler.cpp:96-112 | a value std::stoul returns is at most ULONG_MAX |
| Compiler.StoulNoDigit | src/compiler.cpp:96-112 | std::stoul throws invalid_argument exactly when no digit of the base follows the leading white space and the optional sign |
| Compiler.ReadDigits | src/compiler.cpp:96-112 | after white space, sign and prefix, no leading digit means invalid_argument; a returned value is at most ULONG_MAX |
| Compiler.ParseNumber | src/compiler.cpp:81-133 | a literal gives a value in 0..255, or one of OUT_OF_RANGE, EMPTY_NUMBER, INVALID_NUMBER_FORMAT |
| Compiler.ParseEmptyNumber | src/compiler.cpp:86-107 | EMPTY_NUMBER is reported exactly for `0x`, `0X`, `b` and `B` |
| Compiler.ParseDecimal | src/compiler.cpp:110-122 | a run of decimal digits with value v gives v when v <= 255, OUT_OF_RANGE when v <= ULONG_MAX, INVALID_NUMBER_FORMAT otherwise |
| Compiler.ParseDecimalPrefix | src/compiler.cpp:110-113 | stoul reads only the longest digit prefix: what follows the digits does not change the result |
| Compiler.ParseStopsAtNonDigit | src/compiler.cpp:110-113 | `1f` parses as 1 |
| Compiler.ParseHex | src/compiler.cpp:86-97 | `0x`/`0X` followed by hex digits is read in base 16, with the same range rules |
| Compiler.ParseBinary | src/compiler.cpp:98-109 | `b`/`B` followed by binary digits is read in base 2, with the same range rules |
| Compiler.ParseNoDigit | src/compiler.cpp:125-132 | a literal starting with a letter other than `b`/`B` has no leading digit and gives INVALID_NUMBER_FORMAT |
| Compiler.ParseRepeat | src/compiler.cpp:155-172 | parseRepeat returns the repeat count and the end of the `x<digits>` suffix, or count 1 and no suffix |
| Compiler.ScanWhile | src/compiler.cpp:138-144 | the index loops of desugar stop at the end of the maximal run of matching characters |
| Compiler.PushCopies | src/compiler.cpp:236-242 | the push loop appends exactly `rep` copies of the instruction |
| Compiler.LexAt | src/compiler.cpp:155-278 | one token: its instructions (or the literal's error) and where scanning resumes, agreeing with `Desugar` |
| Compiler.DesugarWith | src/compiler.cpp:135-282 | the tokenizer loop returns exactly `Desugar(src)` |
| Compiler.LexSkipRun | src/compiler.cpp:138-149 | skipping white space emits nothing |
| Compiler.DesugarRepeat | src/compiler.cpp:155-242 | an operator followed by `x<digits>` emits exactly n copies of its instruction (none for n = 0) |
| Compiler.DesugarSingle | src/compiler.cpp:198-242 | an operator without a suffix emits one instruction with argument 1, or the debug width for `!`, and an empty label |
| Compiler.DesugarLabeled | src/compiler.cpp:177-196 | `[@name` / `]@name` emits a single JZ/JNZ carrying the label and takes no repeat suffix |
| Compiler.DesugarBareAt | src/compiler.cpp:177-190 | a bracket followed by `@` with no name emits nothing, and neither does the `@` |
| Compiler.DesugarAssign | src/compiler.cpp:245-264 | `=num` emits CLEAR then INC with the literal's value, or stops with the literal's error |
| Compiler.DesugarEmptyAssign | src/compiler.cpp:245-264 | `=` without a literal emits nothing |
| Compiler.DesugarAnnotation | src/compiler.cpp:266-275 | `:ident` emits nothing |
| Compiler.DesugarSkipsOther | src/compiler.cpp:277-278 | any other character emits nothing |
| Compiler.DesugarShape | src/compiler.cpp:135-282 | every emitted instruction has the shape desugar builds: labels only on jumps and made of identifier characters, `!` carries the debug width, CLEAR 0, INC 0..255, everything else argument 1; an error is one of the three literal codes |
| Linker.LinkJumps | src/compiler.cpp:284-331 | succeeds exactly when the brackets balance with equal labels, and then links every jump to its innermost partner with nothing else changed; otherwise reports the first fault: a `]` with an empty stack, a pair with different labels, or a `[` left open |
| Linker.LinkUnique | src/compiler.cpp:320-321 | a program has only one linking |
| Linker.LinkedJumps | src/compiler.cpp:320-321 | a linked jump's argument is inside the program: a `[` points forward and a `]` backward, to a partner of the opposite kind that points back and, when linking succeeds, has the same label |
| Linker.UnmatchedCloseNotLinkable | src/compiler.cpp:301-307 | an unmatched `]` makes linking fail, and it is not the open-at-end fault |
| Linker.MismatchNotLinkable | src/compiler.cpp:310-319 | a label mismatch makes linking fail, and it is not the open-at-end fault |
| Linker.FirstUnmatchedClose | src/compiler.cpp:301-307 | the first unmatched `]` is unique |
| Linker.UnmatchedCloseExcludesMismatch | src/compiler.cpp:299-319 | a first unmatched `]` and a first label mismatch cannot both exist |
| Linker.FirstMismatch | src/compiler.cpp:310-319 | the first label mismatch is a unique pair |
| Linker.FirstFaultUnique | src/compiler.cpp:299-330 | a program has at most one first fault, so the scan's report is determined by the code |
| Linker.FaultsExhaustive | src/compiler.cpp:284-331 | a program is linkable exactly when it has no first fault: the three faults are the only ways linking fails |
| Linker.LinkDone | src/compiler.cpp:324-330 | at the end of the scan an empty stack means every jump is linked; a non-empty one means a `[` was left open |
| Compile.LinkErrorCode | src/compiler.cpp:301-330 | MISMATCHED_LABELS for a label mismatch, UNMATCHED_BRACKET for either unmatched bracket |
| Compile.CompileSrc | src/compiler.cpp:334-340 | succeeds exactly when the stripped, desugared code is linkable, returning its linking; a literal error propagates; otherwise the first fault decides the code, UNMATCHED_BRACKET for an unmatched `]` or an unclosed `[` and MISMATCHED_LABELS for a label mismatch, and each code comes with a witness of its fault |
| Compile.CompiledShape | src/compiler.cpp:334-340 | in a compiled program every jump targets its partner, which points back with the same label and the opposite op; every other instruction is as desugar built it |
| Vm.InitialCells | src/vm.cpp:20-23 | the tape has `initCells` cells, or 30000 when `initCells <= 0` |
| Vm.Grow | src/vm.cpp:25-28 | growth gives max(2n, n+1) cells, the old ones kept and the new ones zero |
| Vm.StepRight | src/vm.cpp:47-59 | one step right keeps the pointer on the tape |
| Vm.MoveRightEffects | src/vm.cpp:46-61 | moving right never shrinks the tape and dies only with "ptr overflow", only in strict mode without elastic |
| Vm.MoveLeftEffects | src/vm.cpp:62-73 | moving left keeps the tape and dies only with "ptr underflow", only in strict mode |
| Vm.ReadInputKeeps | src/vm.cpp:85-94 | reads keep the pointer and the size of the tape |
| Vm.MoveRightLoop | src/vm.cpp:46-61 | the INC_PTR loop computes `MoveRight` for `arg` steps, or dies with its message |
| Vm.MoveLeftLoop | src/vm.cpp:62-73 | the DEC_PTR loop computes `MoveLeft` for `arg` steps, or dies with its message |
| Vm.WriteLoop | src/vm.cpp:80-84 | OUT appends `arg` copies of the current cell to the output |
| Vm.ReadLoop | src/vm.cpp:85-94 | the IN loop computes `arg` reads |
| Vm.DumpLoop | src/vm.cpp:110-122 | the `!` loop shows the cells of `Window` |
| Vm.Exec | src/vm.cpp:45-126 | an instruction that does not die keeps the pointer on the tape |
| Vm.ExecEffects | src/vm.cpp:45-126 | only INC_PTR ("ptr overflow") and DEC_PTR ("ptr underflow") can die, only in strict mode (and INC_PTR only without elastic); the tape never shrinks; every other instruction keeps the pointer and the tape size |
| Vm.ExecOp | src/vm.cpp:45-126 | the switch computes `Exec` for the instruction, or dies with the message `Exec` gives |
| Vm.Run | src/vm.cpp:10-130 | the dispatch loop returns exactly `Execute(p, cfg, input, fuel)` |
| Vm.Step | src/vm.cpp:34-127 | the pointer-on-tape invariant holds after every instruction that does not die, and pc stays non-negative |
| Vm.MoveRightClamp | src/vm.cpp:48-56 | in clamp mode the pointer moves right by n and sticks at the last cell |
| Vm.MoveRightStrict | src/vm.cpp:48-54 | in strict mode n steps succeed exactly when they stay on the tape, otherwise the run dies with "ptr overflow" |
| Vm.MoveRightElastic | src/vm.cpp:25-61 | in elastic mode (which takes precedence) the move never dies: the pointer advances n cells, old cells are kept, new cells are zero, streams unchanged |
| Vm.MoveLeftClosed | src/vm.cpp:62-73 | moving left by n <= ptr subtracts n; beyond cell 0 strict mode dies with "ptr underflow" and the other modes stop at 0 |
| Vm.ReadInputClosed | src/vm.cpp:85-94 | n reads leave the n-th input byte in the cell and consume n bytes, or leave 255 and consume the whole input |
| Vm.ReadThenZeroAtEof | src/vm.cpp:105-109 | after reading at end of input, ZERO_IF_EOF turns the cell into 0 |
| Vm.IncDecInverse | src/vm.cpp:74-79 | DEC k undoes INC k on the cell for any k, since both wrap modulo 256 and touch nothing else |
| Vm.WindowShows | src/vm.cpp:110-122 | a dump of width w shows the next min(w, cells left) cells from the pointer |
| Vm.WindowNegative | src/vm.cpp:111-112 | a negative width shows nothing, unless ptr + width wraps as a size_t; then it shows the whole rest of the tape |
| Vm.ExecAppends | src/vm.cpp:45-126 | an instruction only appends to the output and the diagnostics, and only OUT writes output |
| Vm.RunKeepsOutput | src/vm.cpp:34-127 | a run never takes back output already written |
| Vm.TraceInvisible | src/vm.cpp:36-44 | tracing and diagnostics affect neither the outcome nor the output |
| Vm.DbgWidthUnused | src/vm.cpp:19 | run ignores its dbgWidth parameter |
| Vm.StepJump | src/vm.cpp:95-104 | JZ on a zero cell and JNZ on a nonzero cell continue at arg + 1; otherwise at pc + 1 |
| Vm.EmptyProgram | src/vm.cpp:34-129 | an empty program returns at once with no output |
| Pipeline.CompiledJumpsSafe | src/compiler.cpp:320-321 | every jump of a compiled program lands inside the program, so `run` never indexes outside it |
| Pipeline.CompiledLoop | src/vm.cpp:95-104 | in a compiled program `[` on zero continues after its `]`, and `]` on nonzero continues at the body after its `[` |
| Legacy.LowByte | src/main.cpp:61-72 | a stoul value becomes its low byte; an escaping exception becomes a termination |
| Legacy.ParseNumber | src/main.cpp:61-72 | the legacy parse gives a value in 0..255 or terminates; it has no error code of its own |
| Legacy.ParseAgrees | src/main.cpp:61-72 | agrees with src/compiler.cpp's parse on every literal that one accepts, and also accepts exactly those it rejects as out of range |
| Legacy.ParseDecimalWraps | src/main.cpp:71 | a decimal literal with value v <= ULONG_MAX gives v mod 256 |
| Legacy.AssignWraps | src/main.cpp:147-164 | `=300` emits CLEAR and INC 44 |
| Legacy.AssignRejected | src/compiler.cpp:115-122 | the newer compiler rejects `=300` with OUT_OF_RANGE |
| Legacy.DesugarAgrees | src/main.cpp:75-179 | wherever the newer desugar succeeds, the legacy one emits the same code |
| Legacy.DieMessage | src/main.cpp:192-204 | the die messages "unmatched ']'", "mismatched labels between '[' and ']'" and "unmatched '['" correspond one-to-one to the three faults |
| Legacy.CompileSrc | src/main.cpp:286-291 | succeeds exactly when the code is linkable; terminates exactly on a bad literal; otherwise dies with the message of the first fault, which is one of the three messages, each with a witness of its fault |
| Legacy.CompileAgrees | src/main.cpp:286-291 | where the newer desugar succeeds the legacy one gives the same code, and every program the newer compiler produces the legacy one produces too |

## Left out

- Streams: the input file, output file and error stream are values. The text
  layout of trace lines and `!` dumps (`fprintf` formats) is reduced to
  `TraceLine` and `DumpLine` events.
- Error reporting: `ErrorReporter` messages, hints, colours and source
  locations are not modelled; errors are `ErrorCode` values. So the
  `filename` and `position` parameters of `desugar` and `parse_number` are
  dropped. `calculateLocation` is modelled on its own; nothing in the
  compiler calls it.
- Process exit: `die` and `syntaxError` end the process. They are modelled as
  an error result of the pass that calls them. `main`, flag parsing,
  `read_all` and the code-name tables of src/error.cpp are not modelled.
- Vm.Run: the source loop need not terminate, so the model runs for at most
  `fuel` instructions and reports `OutOfFuel` when the fuel runs out.
- Vm.Run: requires every jump argument to be at least -1. An argument below
  -1 would make the source index the program out of bounds. Every compiled
  program satisfies this (`Pipeline.CompiledJumpsSafe`).
- Host integers: these are unbounded in the model:
  - `stoi` overflow of huge repeat counts (out_of_range, uncaught);
  - `int` overflow of `cell + arg`, of `pc`, and of a repeat count beyond
    INT_MAX;
  - allocation failure when the tape grows.

  The size_t wrap-around is modelled where it changes behaviour, in the
  right end of the `!` window.
- Character classes: `isalnum`, `isspace` and `isdigit` use the ASCII
  classes of the "C" locale.
- Legacy.ParseNumber: it models the same `std::stoul` as the newer compiler:
  - leading white space;
  - a sign, with negation modulo 2^64;
  - an optional `0x` in base 16 and no `0b` in base 2;
  - the longest digit prefix;
  - out_of_range above ULONG_MAX.

  An exception that escapes it is `Terminated`. Which `std::terminate`
  handler then runs is not modelled.
- Shared legacy code: `strip_comments`, `isIdent`, `desugar` (apart from its
  literal parser), `link_jumps` and `run` in src/main.cpp are the same code
  as in src/compiler.cpp and src/vm.cpp. They are modelled once (`Desugar`
  is generic over the parser).
- link_jumps: the inner test `!(top.tag.empty() && label.empty())` always
  holds once the tags differ. The model tests only that the tags differ.
- Helper methods: the counted loops of `run`'s switch, the `#` comment scan
  and the token dispatch of `desugar` are separate methods, each proved
  against its specification function. This changes no behaviour.
- Unused error codes: include/error.h:25-28 declares POINTER_OVERFLOW,
  POINTER_UNDERFLOW, MEMORY_LIMIT_EXCEEDED and INVALID_JUMP_TARGET, but `run`
  never reports them. It has no tape-growth ceiling, no instruction counter
  and no jump-target check. It dies with "ptr overflow" or "ptr underflow"
  and lets the tape grow without limit. The model follows the code.
