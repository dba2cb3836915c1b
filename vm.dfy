/** The virtual machine of src/vm.cpp: a byte tape with a pointer, run over a
    linked program one instruction at a time.

    The streams become values: the input is the byte sequence the input file
    would deliver, the output is the bytes written to the output file, and
    the diagnostics (trace lines and `!` dumps written to the error file) are
    events. A `die` ends the run with its message; the source's loop may run
    forever, so the model runs for at most `fuel` instructions. */
module Vm {
  import opened Bytecode

  /** The run options that vm.cpp reads. */
  datatype Config = Config(initCells: int, elastic: bool, strict: bool, dbgWidth: int, trace: bool)

  /** A line on the error stream: a trace line before an instruction, or a
      `!` dump of cells from the pointer on. */
  datatype Event =
    | TraceLine(pc: int, op: Op, arg: int, ptr: nat, cell: byte)
    | DumpLine(ptr: nat, cells: seq<byte>)

  /** Tape, pointer, what is left of the input, what has been written. */
  datatype Machine = Machine(tape: seq<byte>, ptr: nat, input: seq<byte>, output: seq<byte>, diag: seq<Event>)

  predicate Valid(m: Machine) { m.ptr < |m.tape| }

  /** The tape size used when the requested one is not positive. */
  const DefaultCells: nat := 30000

  function InitialCells(initCells: int): (n: nat)
    ensures n > 0
    ensures initCells > 0 ==> n == initCells
    ensures initCells <= 0 ==> n == DefaultCells
  {
    if initCells <= 0 then DefaultCells else initCells
  }

  function Max(a: int, b: int): int { if a < b then b else a }

  function Min(a: int, b: int): int { if a < b then a else b }

  /** grow: the tape doubles (at least one more cell); new cells are zero. */
  function Grow(tape: seq<byte>): (r: seq<byte>)
    ensures |r| == Max(2 * |tape|, |tape| + 1)
    ensures r[..|tape|] == tape
    ensures forall k :: |tape| <= k < |r| ==> r[k] == 0
  {
    tape + Copies(0, Max(2 * |tape|, |tape| + 1) - |tape|)
  }

  /** How often a counted loop `for (n = 0; n < arg; ++n)` runs. */
  function Reps(arg: int): nat { if arg > 0 then arg else 0 }

  /** One step right: at the last cell the tape grows (elastic), the run
      dies (strict) or the pointer stays (clamp). */
  function StepRight(m: Machine, cfg: Config): (r: Result<Machine, string>)
    requires Valid(m)
    ensures r.Ok? ==> Valid(r.value)
  {
    if m.ptr == |m.tape| - 1 then
      if cfg.elastic then Ok(m.(tape := Grow(m.tape), ptr := m.ptr + 1))
      else if cfg.strict then Err("ptr overflow")
      else Ok(m)
    else Ok(m.(ptr := m.ptr + 1))
  }

  function MoveRight(m: Machine, cfg: Config, n: nat): (r: Result<Machine, string>)
    requires Valid(m)
    ensures r.Ok? ==> Valid(r.value)
    decreases n
  {
    if n == 0 then Ok(m)
    else
      match StepRight(m, cfg)
      case Err(e) => Err(e)
      case Ok(m') => MoveRight(m', cfg, n - 1)
  }

  /** One step left: at cell 0 the run dies (strict) or the pointer stays. */
  function StepLeft(m: Machine, cfg: Config): (r: Result<Machine, string>)
    requires Valid(m)
    ensures r.Ok? ==> Valid(r.value)
  {
    if m.ptr == 0 then
      if cfg.strict then Err("ptr underflow") else Ok(m)
    else Ok(m.(ptr := m.ptr - 1))
  }

  function MoveLeft(m: Machine, cfg: Config, n: nat): (r: Result<Machine, string>)
    requires Valid(m)
    ensures r.Ok? ==> Valid(r.value)
    decreases n
  {
    if n == 0 then Ok(m)
    else
      match StepLeft(m, cfg)
      case Err(e) => Err(e)
      case Ok(m') => MoveLeft(m', cfg, n - 1)
  }

  /** One fgetc into the current cell: 255 at end of input. */
  function ReadByte(m: Machine): (r: Machine)
    requires Valid(m)
    ensures Valid(r)
  {
    if m.input == [] then m.(tape := m.tape[m.ptr := 255])
    else m.(tape := m.tape[m.ptr := m.input[0]], input := m.input[1..])
  }

  function ReadInput(m: Machine, n: nat): (r: Machine)
    requires Valid(m)
    ensures Valid(r)
    decreases n
  {
    if n == 0 then m else ReadInput(ReadByte(m), n - 1)
  }

  /** The low byte of `c + delta`, the `& 0xFF` of the source. */
  function AddByte(c: byte, delta: int): byte { (c + delta) % 256 }

  /** The cells a `!` dump shows: from the pointer up to `ptr + arg`
      computed as a size_t (so modulo 2^64), cut at the end of the tape. */
  function Window(tape: seq<byte>, ptr: nat, arg: int): seq<byte>
    requires ptr < |tape|
  {
    var right := Min(|tape|, (ptr + arg) % 0x1_0000_0000_0000_0000);
    if ptr < right then tape[ptr..right] else []
  }

  /** The effect of one instruction on the machine (jumps change nothing here). */
  function Exec(ins: Instr, cfg: Config, m: Machine): (r: Result<Machine, string>)
    requires Valid(m)
    ensures r.Ok? ==> Valid(r.value)
  {
    var cell := m.tape[m.ptr];
    match ins.op
    case INC_PTR => MoveRight(m, cfg, Reps(ins.arg))
    case DEC_PTR => MoveLeft(m, cfg, Reps(ins.arg))
    case INC => Ok(m.(tape := m.tape[m.ptr := AddByte(cell, ins.arg)]))
    case DEC => Ok(m.(tape := m.tape[m.ptr := AddByte(cell, -ins.arg)]))
    case OUT => Ok(m.(output := m.output + Copies(cell, Reps(ins.arg))))
    case IN => Ok(ReadInput(m, Reps(ins.arg)))
    case JZ => Ok(m)
    case JNZ => Ok(m)
    case ZERO_IF_EOF => Ok(if cell == 255 then m.(tape := m.tape[m.ptr := 0]) else m)
    case DBG => Ok(m.(diag := m.diag + [DumpLine(m.ptr, Window(m.tape, m.ptr, ins.arg))]))
    case CLEAR => Ok(m.(tape := m.tape[m.ptr := 0]))
  }

  /** Where a run continues: a taken jump sets pc to its argument and the
      loop's `++pc` then steps past it. */
  function NextPc(ins: Instr, cell: byte, pc: int): int {
    if (ins.op == JZ && cell == 0) || (ins.op == JNZ && cell != 0) then ins.arg + 1 else pc + 1
  }

  /** Every jump lands at a valid index or past the end, never below 0. */
  predicate JumpsSafe(p: Program) {
    forall x :: 0 <= x < |p.code| && (p.code[x].op == JZ || p.code[x].op == JNZ) ==> p.code[x].arg >= -1
  }

  datatype State = State(m: Machine, pc: int)

  datatype StepResult = Next(s: State) | Fault(message: string, m: Machine)

  /** The trace line written before instruction `pc`, if tracing. */
  function Traced(p: Program, cfg: Config, s: State): (m: Machine)
    requires 0 <= s.pc < |p.code| && Valid(s.m)
    ensures Valid(m)
  {
    var ins := p.code[s.pc];
    if cfg.trace then s.m.(diag := s.m.diag + [TraceLine(s.pc, ins.op, ins.arg, s.m.ptr, s.m.tape[s.m.ptr])])
    else s.m
  }

  /** One turn of the run loop. */
  function Step(p: Program, cfg: Config, s: State): (r: StepResult)
    requires 0 <= s.pc < |p.code| && Valid(s.m) && JumpsSafe(p)
    ensures r.Next? ==> Valid(r.s.m) && r.s.pc >= 0
  {
    var ins := p.code[s.pc];
    var m1 := Traced(p, cfg, s);
    match Exec(ins, cfg, m1)
    case Err(msg) => Fault(msg, m1)
    case Ok(m2) => Next(State(m2, NextPc(ins, m2.tape[m2.ptr], s.pc)))
  }

  /** How a run ends: run returns 0, die exits with status 1 and its message,
      or the fuel ran out first. */
  datatype Outcome =
    | Returned(output: seq<byte>, diag: seq<Event>)
    | Died(message: string, output: seq<byte>, diag: seq<Event>)
    | OutOfFuel

  function RunFrom(p: Program, cfg: Config, s: State, fuel: nat): Outcome
    requires Valid(s.m) && s.pc >= 0 && JumpsSafe(p)
    decreases fuel
  {
    if s.pc >= |p.code| then Returned(s.m.output, s.m.diag)
    else if fuel == 0 then OutOfFuel
    else
      match Step(p, cfg, s)
      case Fault(msg, m) => Died(msg, m.output, m.diag)
      case Next(s') => RunFrom(p, cfg, s', fuel - 1)
  }

  function Start(cfg: Config, input: seq<byte>): (m: Machine)
    ensures Valid(m)
  {
    Machine(Copies(0, InitialCells(cfg.initCells)), 0, input, [], [])
  }

  /** A run of `p` on `input` for at most `fuel` instructions. */
  function Execute(p: Program, cfg: Config, input: seq<byte>, fuel: nat): Outcome
    requires JumpsSafe(p)
  {
    RunFrom(p, cfg, State(Start(cfg, input), 0), fuel)
  }

  // The counted loops of run's switch, one method each.

  /** INC_PTR: `arg` steps right; a `die` stops the loop with its message. */
  method MoveRightLoop(m: Machine, cfg: Config, arg: int) returns (fault: Option<string>, m': Machine)
    requires Valid(m)
    ensures fault.None? ==> MoveRight(m, cfg, Reps(arg)) == Ok(m')
    ensures fault.Some? ==> MoveRight(m, cfg, Reps(arg)) == Err(fault.value)
  {
    var tape: seq<byte>, ptr: nat := m.tape, m.ptr;
    fault := None;
    var n := 0;
    while n < arg && fault == None
      invariant 0 <= n <= Reps(arg) && ptr < |tape|
      invariant fault == None ==> MoveRight(m.(tape := tape, ptr := ptr), cfg, Reps(arg) - n) == MoveRight(m, cfg, Reps(arg))
      invariant fault.Some? ==> MoveRight(m, cfg, Reps(arg)) == Err(fault.value)
    {
      if ptr == |tape| - 1 {
        if cfg.elastic {
          tape := tape + Copies(0, Max(2 * |tape|, |tape| + 1) - |tape|);
          ptr := ptr + 1;
        } else if cfg.strict {
          fault := Some("ptr overflow");
        }
      } else {
        ptr := ptr + 1;
      }
      n := n + 1;
    }
    m' := m.(tape := tape, ptr := ptr);
  }

  /** DEC_PTR: `arg` steps left; a `die` stops the loop with its message. */
  method MoveLeftLoop(m: Machine, cfg: Config, arg: int) returns (fault: Option<string>, m': Machine)
    requires Valid(m)
    ensures fault.None? ==> MoveLeft(m, cfg, Reps(arg)) == Ok(m')
    ensures fault.Some? ==> MoveLeft(m, cfg, Reps(arg)) == Err(fault.value)
  {
    var ptr: nat := m.ptr;
    fault := None;
    var n := 0;
    while n < arg && fault == None
      invariant 0 <= n <= Reps(arg) && ptr < |m.tape|
      invariant fault == None ==> MoveLeft(m.(ptr := ptr), cfg, Reps(arg) - n) == MoveLeft(m, cfg, Reps(arg))
      invariant fault.Some? ==> MoveLeft(m, cfg, Reps(arg)) == Err(fault.value)
    {
      if ptr == 0 {
        if cfg.strict {
          fault := Some("ptr underflow");
        }
      } else {
        ptr := ptr - 1;
      }
      n := n + 1;
    }
    m' := m.(ptr := ptr);
  }

  /** OUT: the current cell written `arg` times. */
  method WriteLoop(m: Machine, arg: int) returns (m': Machine)
    requires Valid(m)
    ensures m' == m.(output := m.output + Copies(m.tape[m.ptr], Reps(arg)))
  {
    var out := m.output;
    var n := 0;
    while n < arg
      invariant 0 <= n <= Reps(arg)
      invariant out == m.output + Copies(m.tape[m.ptr], n)
    {
      out := out + [m.tape[m.ptr]];
      n := n + 1;
    }
    m' := m.(output := out);
  }

  /** IN: `arg` reads into the current cell. */
  method ReadLoop(m: Machine, arg: int) returns (m': Machine)
    requires Valid(m)
    ensures m' == ReadInput(m, Reps(arg))
  {
    var tape: seq<byte>, inp := m.tape, m.input;
    var n := 0;
    while n < arg
      invariant 0 <= n <= Reps(arg) && |tape| == |m.tape|
      invariant ReadInput(m.(tape := tape, input := inp), Reps(arg) - n) == ReadInput(m, Reps(arg))
    {
      if inp == [] {
        tape := tape[m.ptr := 255];
      } else {
        tape := tape[m.ptr := inp[0]];
        inp := inp[1..];
      }
      n := n + 1;
    }
    m' := m.(tape := tape, input := inp);
  }

  /** DBG: the cells from `ptr` to the window's right end. */
  method DumpLoop(tape: seq<byte>, ptr: nat, arg: int) returns (shown: seq<byte>)
    requires ptr < |tape|
    ensures shown == Window(tape, ptr, arg)
  {
    var left := ptr;
    var right := Min(|tape|, (ptr + arg) % 0x1_0000_0000_0000_0000);
    shown := [];
    var i := left;
    while i < right
      invariant left <= i && (i <= right || i == left)
      invariant shown == tape[left..i]
    {
      shown := shown + [tape[i]];
      i := i + 1;
    }
  }

  /** The switch of run's loop: the effect of one instruction; `fault` is
      the message of a `die`. */
  method ExecOp(ins: Instr, cfg: Config, m: Machine) returns (fault: Option<string>, m': Machine)
    requires Valid(m)
    ensures fault.None? ==> Exec(ins, cfg, m) == Ok(m')
    ensures fault.Some? ==> Exec(ins, cfg, m) == Err(fault.value)
  {
    fault, m' := None, m;
    match ins.op {
      case INC_PTR =>
        fault, m' := MoveRightLoop(m, cfg, ins.arg);
      case DEC_PTR =>
        fault, m' := MoveLeftLoop(m, cfg, ins.arg);
      case INC =>
        m' := m.(tape := m.tape[m.ptr := (m.tape[m.ptr] + ins.arg) % 256]);
      case DEC =>
        m' := m.(tape := m.tape[m.ptr := (m.tape[m.ptr] - ins.arg) % 256]);
      case OUT =>
        m' := WriteLoop(m, ins.arg);
      case IN =>
        m' := ReadLoop(m, ins.arg);
      case JZ =>
      case JNZ =>
      case ZERO_IF_EOF =>
        if m.tape[m.ptr] == 255 {
          m' := m.(tape := m.tape[m.ptr := 0]);
        }
      case DBG =>
        var shown := DumpLoop(m.tape, m.ptr, ins.arg);
        m' := m.(diag := m.diag + [DumpLine(m.ptr, shown)]);
      case CLEAR =>
        m' := m.(tape := m.tape[m.ptr := 0]);
    }
  }

  /** run: the source's loop over pc with the switch on the operation and
      its counted inner loops, stopped after `fuel` instructions. */
  method Run(p: Program, cfg: Config, input: seq<byte>, fuel: nat) returns (r: Outcome)
    requires JumpsSafe(p)
    ensures r == Execute(p, cfg, input, fuel)
  {
    var cells := if cfg.initCells <= 0 then 30000 else cfg.initCells;
    var tape: seq<byte> := Copies(0, cells);
    var ptr: nat := 0;
    var inp := input;
    var out: seq<byte> := [];
    var diag: seq<Event> := [];
    var pc: int := 0;
    var steps: nat := 0;
    while pc < |p.code|
      invariant 0 <= pc && ptr < |tape| && steps <= fuel
      invariant RunFrom(p, cfg, State(Machine(tape, ptr, inp, out, diag), pc), fuel - steps) == Execute(p, cfg, input, fuel)
      decreases fuel - steps
    {
      if steps == fuel {
        return OutOfFuel;
      }
      steps := steps + 1;
      var ins := p.code[pc];
      ghost var s := State(Machine(tape, ptr, inp, out, diag), pc);
      if cfg.trace {
        diag := diag + [TraceLine(pc, ins.op, ins.arg, ptr, tape[ptr])];
      }
      var m1 := Machine(tape, ptr, inp, out, diag);
      assert m1 == Traced(p, cfg, s);
      var fault, m2 := ExecOp(ins, cfg, m1);
      if fault.Some? {
        return Died(fault.value, out, diag);
      }
      tape, ptr, inp, out, diag := m2.tape, m2.ptr, m2.input, m2.output, m2.diag;
      if (ins.op == JZ && tape[ptr] == 0) || (ins.op == JNZ && tape[ptr] != 0) {
        pc := ins.arg;
      }
      pc := pc + 1;
    }
    return Returned(out, diag);
  }

  // Properties of the machine.

  /** Clamp mode (neither elastic nor strict): the pointer moves right and
      sticks at the last cell. */
  lemma {:induction false} MoveRightClamp(m: Machine, cfg: Config, n: nat)
    requires Valid(m) && !cfg.elastic && !cfg.strict
    ensures MoveRight(m, cfg, n) == Ok(m.(ptr := Min(m.ptr + n, |m.tape| - 1)))
    decreases n
  {
    if n > 0 {
      MoveRightClamp(StepRight(m, cfg).value, cfg, n - 1);
    }
  }

  /** Strict mode: `n` steps succeed exactly when they stay on the tape;
      otherwise the run dies with "ptr overflow". */
  lemma {:induction false} MoveRightStrict(m: Machine, cfg: Config, n: nat)
    requires Valid(m) && !cfg.elastic && cfg.strict
    ensures m.ptr + n < |m.tape| ==> MoveRight(m, cfg, n) == Ok(m.(ptr := m.ptr + n))
    ensures m.ptr + n >= |m.tape| ==> MoveRight(m, cfg, n) == Err("ptr overflow")
    decreases n
  {
    if n > 0 && m.ptr < |m.tape| - 1 {
      MoveRightStrict(m.(ptr := m.ptr + 1), cfg, n - 1);
    }
  }

  /** Elastic mode never dies: the pointer moves `n` cells, the old tape is
      kept as a prefix and every added cell is zero; the streams are
      untouched. */
  lemma {:induction false} MoveRightElastic(m: Machine, cfg: Config, n: nat)
    requires Valid(m) && cfg.elastic
    ensures MoveRight(m, cfg, n).Ok?
    ensures var r := MoveRight(m, cfg, n).value;
      && r.ptr == m.ptr + n
      && |m.tape| <= |r.tape|
      && r.tape[..|m.tape|] == m.tape
      && (forall k :: |m.tape| <= k < |r.tape| ==> r.tape[k] == 0)
      && r.input == m.input && r.output == m.output && r.diag == m.diag
    decreases n
  {
    if n > 0 {
      var m' := StepRight(m, cfg).value;
      MoveRightElastic(m', cfg, n - 1);
      var r := MoveRight(m', cfg, n - 1).value;
      assert r.tape[..|m'.tape|] == m'.tape;
      assert r.tape[..|m.tape|] == r.tape[..|m'.tape|][..|m.tape|];
      assert m'.tape[..|m.tape|] == m.tape;
    }
  }

  /** Moving left: strict mode dies with "ptr underflow" when the pointer
      would pass cell 0, the other modes stop at cell 0. */
  lemma {:induction false} MoveLeftClosed(m: Machine, cfg: Config, n: nat)
    requires Valid(m)
    ensures n <= m.ptr ==> MoveLeft(m, cfg, n) == Ok(m.(ptr := m.ptr - n))
    ensures n > m.ptr && cfg.strict ==> MoveLeft(m, cfg, n) == Err("ptr underflow")
    ensures n > m.ptr && !cfg.strict ==> MoveLeft(m, cfg, n) == Ok(m.(ptr := 0))
    decreases n
  {
    if n > 0 && m.ptr > 0 {
      MoveLeftClosed(m.(ptr := m.ptr - 1), cfg, n - 1);
    } else if n > 0 && !cfg.strict {
      MoveLeftClosed(m, cfg, n - 1);
    }
  }

  /** `n` reads leave the last byte read in the cell (255 once the input is
      exhausted) and consume min(n, |input|) bytes. */
  lemma {:induction false} ReadInputClosed(m: Machine, n: nat)
    requires Valid(m) && n > 0
    ensures n <= |m.input| ==>
      ReadInput(m, n) == m.(tape := m.tape[m.ptr := m.input[n - 1]], input := m.input[n..])
    ensures n > |m.input| ==>
      ReadInput(m, n) == m.(tape := m.tape[m.ptr := 255], input := [])
    decreases n
  {
    if n > 1 {
      ReadInputClosed(ReadByte(m), n - 1);
      if n <= |m.input| {
        assert m.input[1..][n - 1..] == m.input[n..];
      }
    }
  }

  /** After `,` at end of input the following EOF check zeroes the cell. */
  lemma ReadThenZeroAtEof(m: Machine, cfg: Config, n: nat, arg: int)
    requires Valid(m) && m.input == [] && n > 0
    ensures Exec(Instr(ZERO_IF_EOF, arg, ""), cfg, ReadInput(m, n)) == Ok(m.(tape := m.tape[m.ptr := 0]))
  {
    ReadInputClosed(m, n);
    assert m.tape[m.ptr := 255][m.ptr := 0] == m.tape[m.ptr := 0];
  }

  /** `-k` undoes `+k` on a cell, whatever the wrap-around. */
  lemma IncDecInverse(m: Machine, cfg: Config, k: int)
    requires Valid(m)
    ensures var up := Exec(Instr(INC, k, ""), cfg, m);
      up.Ok? && Exec(Instr(DEC, k, ""), cfg, up.value) == Ok(m)
  {
    var c := m.tape[m.ptr];
    var up := AddByte(c, k);
    assert AddByte(up, -k) == c by {
      assert (c + k) % 256 - k == c + 256 * (-((c + k) / 256));
      ModShift(c, -((c + k) / 256));
    }
    assert m.tape[m.ptr := up][m.ptr := c] == m.tape;
  }

  lemma ModShift(c: byte, q: int)
    ensures (c + 256 * q) % 256 == c
  {
  }

  /** A `!` dump with a width that fits: the next min(arg, cells left)
      cells from the pointer. */
  lemma WindowShows(tape: seq<byte>, ptr: nat, arg: int)
    requires ptr < |tape| && 0 <= arg && ptr + arg < 0x1_0000_0000_0000_0000
    ensures |Window(tape, ptr, arg)| == Min(arg, |tape| - ptr)
    ensures forall k :: 0 <= k < |Window(tape, ptr, arg)| ==> Window(tape, ptr, arg)[k] == tape[ptr + k]
  {
  }

  /** A negative width (an int argument): size_t arithmetic shows nothing
      when ptr + arg stays non-negative, and the whole rest of the tape
      when it wraps. */
  lemma WindowNegative(tape: seq<byte>, ptr: nat, arg: int)
    requires ptr < |tape| && -0x8000_0000 <= arg < 0
    ensures ptr + arg >= 0 ==> Window(tape, ptr, arg) == []
    ensures ptr + arg < 0 && |tape| <= 0x8000_0000_0000_0000 ==> Window(tape, ptr, arg) == tape[ptr..]
  {
  }

  /** Moving right never shrinks the tape; it dies only with "ptr overflow",
      and only in strict mode without elastic. */
  lemma {:induction false} MoveRightEffects(m: Machine, cfg: Config, n: nat)
    requires Valid(m)
    ensures var r := MoveRight(m, cfg, n);
      && (r.Ok? ==> |r.value.tape| >= |m.tape|)
      && (r.Err? ==> r.error == "ptr overflow" && cfg.strict && !cfg.elastic)
    decreases n
  {
    if n > 0 && StepRight(m, cfg).Ok? {
      MoveRightEffects(StepRight(m, cfg).value, cfg, n - 1);
    }
  }

  /** Moving left keeps the tape; it dies only with "ptr underflow", and only
      in strict mode. */
  lemma {:induction false} MoveLeftEffects(m: Machine, cfg: Config, n: nat)
    requires Valid(m)
    ensures var r := MoveLeft(m, cfg, n);
      && (r.Ok? ==> r.value.tape == m.tape)
      && (r.Err? ==> r.error == "ptr underflow" && cfg.strict)
    decreases n
  {
    if n > 0 && StepLeft(m, cfg).Ok? {
      MoveLeftEffects(StepLeft(m, cfg).value, cfg, n - 1);
    }
  }

  /** Reads keep the pointer and the size of the tape. */
  lemma {:induction false} ReadInputKeeps(m: Machine, n: nat)
    requires Valid(m)
    ensures ReadInput(m, n).ptr == m.ptr && |ReadInput(m, n).tape| == |m.tape|
    decreases n
  {
    if n > 0 {
      ReadInputKeeps(ReadByte(m), n - 1);
    }
  }

  /** Only pointer moves can die, and only in strict mode; the tape never
      shrinks, and only pointer moves change its size or the pointer. */
  lemma ExecEffects(ins: Instr, cfg: Config, m: Machine)
    requires Valid(m)
    ensures var r := Exec(ins, cfg, m);
      && (r.Ok? ==> |r.value.tape| >= |m.tape|)
      && (r.Err? ==> cfg.strict && (ins.op == DEC_PTR || !cfg.elastic))
      && (r.Err? ==> (ins.op == INC_PTR && r.error == "ptr overflow") || (ins.op == DEC_PTR && r.error == "ptr underflow"))
      && (r.Ok? && ins.op != INC_PTR && ins.op != DEC_PTR ==> r.value.ptr == m.ptr && |r.value.tape| == |m.tape|)
  {
    match ins.op
    case INC_PTR => MoveRightEffects(m, cfg, Reps(ins.arg));
    case DEC_PTR => MoveLeftEffects(m, cfg, Reps(ins.arg));
    case IN => ReadInputKeeps(m, Reps(ins.arg));
    case _ =>
  }

  /** An instruction only appends to the output and to the diagnostics. */
  lemma ExecAppends(ins: Instr, cfg: Config, m: Machine)
    requires Valid(m) && Exec(ins, cfg, m).Ok?
    ensures m.output <= Exec(ins, cfg, m).value.output
    ensures m.diag <= Exec(ins, cfg, m).value.diag
    ensures ins.op != OUT ==> Exec(ins, cfg, m).value.output == m.output
  {
    var r := Exec(ins, cfg, m).value;
    match ins.op
    case INC_PTR =>
      MoveRightStreams(m, cfg, Reps(ins.arg));
    case DEC_PTR =>
      MoveLeftClosed(m, cfg, Reps(ins.arg));
    case IN =>
      if Reps(ins.arg) > 0 {
        ReadInputClosed(m, Reps(ins.arg));
      }
    case _ =>
  }

  lemma {:induction false} MoveRightStreams(m: Machine, cfg: Config, n: nat)
    requires Valid(m) && MoveRight(m, cfg, n).Ok?
    ensures MoveRight(m, cfg, n).value.output == m.output
    ensures MoveRight(m, cfg, n).value.diag == m.diag
    decreases n
  {
    if n > 0 {
      MoveRightStreams(StepRight(m, cfg).value, cfg, n - 1);
    }
  }

  /** Written output is never taken back: a run ends with the output it had
      so far as a prefix. */
  lemma {:induction false} RunKeepsOutput(p: Program, cfg: Config, s: State, fuel: nat)
    requires Valid(s.m) && s.pc >= 0 && JumpsSafe(p)
    ensures match RunFrom(p, cfg, s, fuel)
      case Returned(out, _) => s.m.output <= out
      case Died(_, out, _) => s.m.output <= out
      case OutOfFuel => true
    decreases fuel
  {
    if s.pc < |p.code| && fuel > 0 {
      var m1 := Traced(p, cfg, s);
      var ins := p.code[s.pc];
      if Exec(ins, cfg, m1).Ok? {
        ExecAppends(ins, cfg, m1);
        RunKeepsOutput(p, cfg, Step(p, cfg, s).s, fuel - 1);
      }
    }
  }

  /** What a run shows outside the error stream. */
  function Visible(o: Outcome): Outcome {
    match o
    case Returned(out, _) => Returned(out, [])
    case Died(msg, out, _) => Died(msg, out, [])
    case OutOfFuel => OutOfFuel
  }

  function Quiet(m: Machine): (r: Machine)
    ensures r.diag == [] && r.tape == m.tape && r.ptr == m.ptr
    ensures r.input == m.input && r.output == m.output
  {
    m.(diag := [])
  }

  lemma ExecIgnoresDiag(ins: Instr, cfg: Config, cfg': Config, m: Machine, m': Machine)
    requires Valid(m) && Quiet(m) == Quiet(m')
    requires cfg'.elastic == cfg.elastic && cfg'.strict == cfg.strict
    ensures Exec(ins, cfg, m).Ok? == Exec(ins, cfg', m').Ok?
    ensures Exec(ins, cfg, m).Err? ==> Exec(ins, cfg, m) == Exec(ins, cfg', m')
    ensures Exec(ins, cfg, m).Ok? ==> Quiet(Exec(ins, cfg, m).value) == Quiet(Exec(ins, cfg', m').value)
  {
    match ins.op
    case INC_PTR =>
      MoveRightQuiet(m, cfg, cfg', Reps(ins.arg));
      MoveRightQuiet(m', cfg', cfg', Reps(ins.arg));
    case DEC_PTR =>
      MoveLeftClosed(m, cfg, Reps(ins.arg));
      MoveLeftClosed(m', cfg', Reps(ins.arg));
    case IN =>
      if Reps(ins.arg) > 0 {
        ReadInputClosed(m, Reps(ins.arg));
        ReadInputClosed(m', Reps(ins.arg));
      }
    case _ =>
  }

  lemma {:induction false} MoveRightQuiet(m: Machine, cfg: Config, cfg': Config, n: nat)
    requires Valid(m) && cfg'.elastic == cfg.elastic && cfg'.strict == cfg.strict
    ensures MoveRight(m, cfg, n).Ok? == MoveRight(Quiet(m), cfg', n).Ok?
    ensures MoveRight(m, cfg, n).Err? ==> MoveRight(m, cfg, n) == MoveRight(Quiet(m), cfg', n)
    ensures MoveRight(m, cfg, n).Ok? ==> Quiet(MoveRight(m, cfg, n).value) == MoveRight(Quiet(m), cfg', n).value
    decreases n
  {
    if n > 0 && StepRight(m, cfg).Ok? {
      var m' := StepRight(m, cfg).value;
      assert Quiet(m') == StepRight(Quiet(m), cfg').value;
      MoveRightQuiet(m', cfg, cfg', n - 1);
      assert Quiet(m') == Quiet(Quiet(m'));
    }
  }

  /** Tracing and the diagnostics only affect the error stream: two runs
      whose machines differ only in their diagnostics, one with tracing
      and one without (or with another `!` width), end the same way with
      the same output. */
  lemma {:induction false} TraceInvisible(p: Program, cfg: Config, cfg': Config, s: State, t: State, fuel: nat)
    requires Valid(s.m) && s.pc >= 0 && JumpsSafe(p)
    requires t.pc == s.pc && Quiet(t.m) == Quiet(s.m)
    requires cfg'.elastic == cfg.elastic && cfg'.strict == cfg.strict
    ensures Visible(RunFrom(p, cfg, s, fuel)) == Visible(RunFrom(p, cfg', t, fuel))
    decreases fuel
  {
    if s.pc < |p.code| && fuel > 0 {
      var ins := p.code[s.pc];
      var m1 := Traced(p, cfg, s);
      var n1 := Traced(p, cfg', t);
      assert Quiet(n1) == Quiet(m1);
      ExecIgnoresDiag(ins, cfg, cfg', m1, n1);
      if Exec(ins, cfg, m1).Ok? {
        TraceInvisible(p, cfg, cfg', Step(p, cfg, s).s, Step(p, cfg', t).s, fuel - 1);
      }
    }
  }

  /** run ignores its dbgWidth parameter: the width matters only when
      desugar builds the `!` instructions. */
  lemma {:induction false} DbgWidthUnused(p: Program, cfg: Config, s: State, fuel: nat, w: int)
    requires Valid(s.m) && s.pc >= 0 && JumpsSafe(p)
    ensures RunFrom(p, cfg, s, fuel) == RunFrom(p, cfg.(dbgWidth := w), s, fuel)
    decreases fuel
  {
    if s.pc < |p.code| && fuel > 0 {
      var ins := p.code[s.pc];
      var m1 := Traced(p, cfg, s);
      ExecConfig(ins, cfg, cfg.(dbgWidth := w), m1);
      if Step(p, cfg, s).Next? {
        DbgWidthUnused(p, cfg, Step(p, cfg, s).s, fuel - 1, w);
      }
    }
  }

  lemma ExecConfig(ins: Instr, cfg: Config, cfg': Config, m: Machine)
    requires Valid(m) && cfg'.elastic == cfg.elastic && cfg'.strict == cfg.strict
    ensures Exec(ins, cfg, m) == Exec(ins, cfg', m)
  {
    if ins.op == INC_PTR {
      MoveRightQuiet(m, cfg, cfg', Reps(ins.arg));
      MoveRightConfig(m, cfg, cfg', Reps(ins.arg));
    } else if ins.op == DEC_PTR {
      MoveLeftClosed(m, cfg, Reps(ins.arg));
      MoveLeftClosed(m, cfg', Reps(ins.arg));
    }
  }

  lemma {:induction false} MoveRightConfig(m: Machine, cfg: Config, cfg': Config, n: nat)
    requires Valid(m) && cfg'.elastic == cfg.elastic && cfg'.strict == cfg.strict
    ensures MoveRight(m, cfg, n) == MoveRight(m, cfg', n)
    decreases n
  {
    if n > 0 && StepRight(m, cfg).Ok? {
      MoveRightConfig(StepRight(m, cfg).value, cfg, cfg', n - 1);
    }
  }

  /** A taken jump continues just past its target; an untaken one, and
      every other instruction, at the next instruction. */
  lemma StepJump(p: Program, cfg: Config, s: State)
    requires 0 <= s.pc < |p.code| && Valid(s.m) && JumpsSafe(p)
    requires p.code[s.pc].op == JZ || p.code[s.pc].op == JNZ
    ensures var cell := s.m.tape[s.m.ptr];
      var taken := (p.code[s.pc].op == JZ) == (cell == 0);
      Step(p, cfg, s) == Next(State(Traced(p, cfg, s), if taken then p.code[s.pc].arg + 1 else s.pc + 1))
  {
  }

  /** An empty program returns at once with no output. */
  lemma EmptyProgram(cfg: Config, input: seq<byte>, fuel: nat)
    ensures Execute(Program([]), cfg, input, fuel) == Returned([], [])
  {
  }
}
