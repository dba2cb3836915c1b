/** compile_src of src/compiler.cpp: strip comments, desugar with
    parse_number, link the jumps in place and wrap the code as a Program. */
module Compile {
  import opened Bytecode
  import opened Compiler
  import opened Linker

  /** The error code link_jumps reports for each fault. */
  function LinkErrorCode(f: LinkFault): (e: ErrorCode)
    ensures e == UNMATCHED_BRACKET <==> !f.MismatchedLabels?
    ensures e == MISMATCHED_LABELS <==> f.MismatchedLabels?
  {
    match f
    case UnmatchedClose(_) => UNMATCHED_BRACKET
    case MismatchedLabels(_, _) => MISMATCHED_LABELS
    case UnmatchedOpen => UNMATCHED_BRACKET
  }

  /** The desugared (unlinked) code of `raw`, or the literal error. */
  function Unlinked(raw: string, dbgWidth: int): Result<seq<Instr>, ErrorCode> {
    Desugar(Strip(raw), dbgWidth, ParseNumber)
  }

  /** `p` is what compiling `raw` produces: its desugared code, linkable,
      with every jump linked to its partner. */
  predicate CompiledFrom(raw: string, dbgWidth: int, p: Program) {
    var d := Unlinked(raw, dbgWidth);
    d.Ok? && Linkable(d.value) && IsLinkOf(d.value, p.code)
  }

  /** compile_src: a literal error stops compilation; otherwise linking
      either succeeds or reports the code of its first fault. */
  method CompileSrc(raw: string, dbgWidth: int) returns (r: Result<Program, ErrorCode>)
    ensures r.Ok? <==> Unlinked(raw, dbgWidth).Ok? && Linkable(Unlinked(raw, dbgWidth).value)
    ensures r.Ok? ==> CompiledFrom(raw, dbgWidth, r.value)
    ensures Unlinked(raw, dbgWidth).Err? ==> r == Err(Unlinked(raw, dbgWidth).error)
    ensures forall f :: Unlinked(raw, dbgWidth).Ok? && IsFirstFault(Unlinked(raw, dbgWidth).value, f) ==>
      r == Err(LinkErrorCode(f))
    ensures Unlinked(raw, dbgWidth).Ok? && !Linkable(Unlinked(raw, dbgWidth).value) ==>
      r == Err(UNMATCHED_BRACKET) || r == Err(MISMATCHED_LABELS)
    ensures r == Err(MISMATCHED_LABELS) ==>
      Unlinked(raw, dbgWidth).Ok? && exists a: nat, b: nat :: MismatchAt(Unlinked(raw, dbgWidth).value, a, b)
    ensures r == Err(UNMATCHED_BRACKET) ==>
      var d := Unlinked(raw, dbgWidth);
      d.Ok? && (UnclosedAtEnd(d.value) || exists j: nat :: UnmatchedCloseAt(d.value, j))
  {
    var noCom := StripComments(raw);
    var d := DesugarWith(noCom, dbgWidth, ParseNumber);
    assert d == Unlinked(raw, dbgWidth);
    if d.Err? {
      DesugarShape(noCom, dbgWidth);
      return Err(d.error);
    }
    var code := new Instr[|d.value|](k requires 0 <= k < |d.value| => d.value[k]);
    assert code[..] == d.value;
    var fault := LinkJumps(code);
    FaultsExhaustive(d.value);
    if fault.Some? {
      forall f | IsFirstFault(d.value, f)
        ensures f == fault.value
      {
        FirstFaultUnique(d.value, f, fault.value);
      }
      match fault.value
      case UnmatchedClose(j) =>
        assert UnmatchedCloseAt(d.value, j);
      case MismatchedLabels(a, b) =>
        assert MismatchAt(d.value, a, b);
      case UnmatchedOpen =>
    }
    if fault.Some? {
      return Err(LinkErrorCode(fault.value));
    }
    r := Ok(Program(code[..]));
  }

  /** Shape of a compiled program: every jump targets its partner, which
      points back and carries the same label; every other instruction is as
      desugar built it. */
  lemma CompiledShape(raw: string, dbgWidth: int, p: Program, x: nat)
    requires CompiledFrom(raw, dbgWidth, p) && x < |p.code|
    ensures IsJump(p.code[x].op) ==>
      && 0 <= p.code[x].arg < |p.code|
      && p.code[p.code[x].arg].arg == x
      && p.code[p.code[x].arg].tag == p.code[x].tag
      && (p.code[x].op == JZ <==> p.code[p.code[x].arg].op == JNZ)
    ensures !IsJump(p.code[x].op) ==> Desugared(p.code[x], dbgWidth)
  {
    var d := Unlinked(raw, dbgWidth).value;
    if IsJump(p.code[x].op) {
      LinkedJumps(d, p.code, x);
    } else {
      DesugarShape(Strip(raw), dbgWidth);
      assert p.code[x] == d[x];
    }
  }
}
