/** The compiled program as the virtual machine sees it: compile_src's
    output satisfies run's assumption about jump targets, and its jumps
    behave as bracket loops. */
module Pipeline {
  import opened Bytecode
  import Linker
  import Compile
  import Vm

  /** Every jump of a compiled program lands inside the program. */
  lemma CompiledJumpsSafe(raw: string, dbgWidth: int, p: Program)
    requires Compile.CompiledFrom(raw, dbgWidth, p)
    ensures Vm.JumpsSafe(p)
  {
    forall x | 0 <= x < |p.code| && (p.code[x].op == JZ || p.code[x].op == JNZ)
      ensures p.code[x].arg >= -1
    {
      Compile.CompiledShape(raw, dbgWidth, p, x);
    }
  }

  /** `[` on a zero cell continues just past its matching `]`; `]` on a
      nonzero cell continues just past its matching `[`, the first
      instruction of the loop body; otherwise the next instruction runs. */
  lemma CompiledLoop(raw: string, dbgWidth: int, p: Program, cfg: Vm.Config, s: Vm.State)
    requires Compile.CompiledFrom(raw, dbgWidth, p)
    requires 0 <= s.pc < |p.code| && Vm.Valid(s.m)
    requires p.code[s.pc].op == JZ || p.code[s.pc].op == JNZ
    ensures Vm.JumpsSafe(p)
    ensures var partner := p.code[s.pc].arg;
      var cell := s.m.tape[s.m.ptr];
      var taken := (p.code[s.pc].op == JZ) == (cell == 0);
      && 0 <= partner < |p.code|
      && p.code[partner].arg == s.pc
      && (p.code[s.pc].op == JZ <==> p.code[partner].op == JNZ)
      && Vm.Step(p, cfg, s) == Vm.Next(Vm.State(Vm.Traced(p, cfg, s), if taken then partner + 1 else s.pc + 1))
  {
    CompiledJumpsSafe(raw, dbgWidth, p);
    Compile.CompiledShape(raw, dbgWidth, p, s.pc);
    Vm.StepJump(p, cfg, s);
  }
}
