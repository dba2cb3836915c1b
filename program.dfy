/** The data model shared by the compiler and the virtual machine:
    the instruction set and program (include/program.h), the error codes
    (include/error.h), byte cells and the ASCII character classes the
    scanners use. */
module Bytecode {

  /** The eleven operations of the instruction set, in declaration order. */
  datatype Op =
    | INC_PTR
    | DEC_PTR
    | INC
    | DEC
    | OUT
    | IN
    | JZ
    | JNZ
    | ZERO_IF_EOF
    | DBG
    | CLEAR

  /** One instruction: an operation, an integer argument (1 unless a
      pass sets it) and a label, `tag` here because `label` is a Dafny keyword (empty
      unless the bracket was labeled). */
  datatype Instr = Instr(op: Op, arg: int, tag: string)

  /** A compiled program: the flat instruction sequence. */
  datatype Program = Program(code: seq<Instr>)

  /** The default argument of a freshly built instruction. */
  const DefaultArg: int := 1

  /** The error codes of include/error.h. */
  datatype ErrorCode =
    | UNMATCHED_BRACKET
    | MISMATCHED_LABELS
    | INVALID_NUMBER_FORMAT
    | EMPTY_NUMBER
    | POINTER_OVERFLOW
    | POINTER_UNDERFLOW
    | MEMORY_LIMIT_EXCEEDED
    | INVALID_JUMP_TARGET
    | FILE_NOT_FOUND
    | FILE_READ_ERROR
    | INVALID_ARGUMENT_VALUE
    | MISSING_ARGUMENT_VALUE
    | UNKNOWN_ARGUMENT
    | OUT_OF_RANGE
    | INTERNAL_ERROR

  /** A source position as the diagnostics report it. */
  datatype SourceLocation = SourceLocation(line: nat, column: nat, position: nat, filename: string)

  /** The outcome of a pass that either produces a value or stops with an error. */
  datatype Result<+T, +E> = Ok(value: T) | Err(error: E)

  datatype Option<+T> = None | Some(value: T)

  /** An unsigned 8-bit tape cell or stream byte. */
  type byte = x: int | 0 <= x < 256

  /** The largest value of a 64-bit `unsigned long`. */
  const ULongMax: nat := 0xFFFF_FFFF_FFFF_FFFF

  // ASCII character classes (the C locale's isdigit, isalnum, isspace).

  predicate IsDigit(c: char) { '0' <= c <= '9' }

  predicate IsAlnum(c: char) { IsDigit(c) || 'a' <= c <= 'z' || 'A' <= c <= 'Z' }

  /** Space, tab, newline, vertical tab, form feed, carriage return. */
  predicate IsSpace(c: char) { c == ' ' || '\t' <= c <= '\r' }

  /** `n` copies of `x`, in a row. */
  function Copies<T>(x: T, n: nat): (r: seq<T>)
    ensures |r| == n
    ensures forall k :: 0 <= k < n ==> r[k] == x
  {
    if n == 0 then [] else Copies(x, n - 1) + [x]
  }
}
