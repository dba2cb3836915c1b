/** src/main.cpp: the older single-file copy of the compiler. Its
    strip_comments, isIdent, desugar, link_jumps and run are the same code as
    the one in src/compiler.cpp and src/vm.cpp, so the model reuses
    those; what differs is parse_number, which keeps the low byte instead of
    rejecting large literals and lets stoul's exceptions escape, and the way
    errors end the process. */
module Legacy {
  import opened Bytecode
  import Compiler
  import Linker
  import Compile

  /** How the legacy compiler stops: `die` prints its message and exits with
      status 1; an exception nobody catches calls std::terminate. */
  datatype Failure = Died(message: string) | Terminated

  /** What parse_number makes of stoul's result: the low byte of the value,
      or an escaping exception. */
  function LowByte(c: Compiler.Conversion): (r: Result<int, Failure>)
    ensures r.Ok? <==> c.Converted?
    ensures r.Ok? ==> 0 <= r.value < 256 && r.value == c.value % 256
    ensures r.Err? ==> r.error == Terminated
  {
    match c
    case Converted(v) => Ok(v % 256)
    case _ => Err(Terminated)
  }

  /** parse_number of main.cpp: `0x`/`0X` hexadecimal, `b`/`B` binary or
      decimal, masked with `& 0xFF`. */
  function ParseNumber(s: string): (r: Result<int, Failure>)
    ensures r.Ok? ==> 0 <= r.value < 256
    ensures r.Err? ==> r.error == Terminated
  {
    if Compiler.HasHexPrefix(s) then LowByte(Compiler.Stoul(s[2..], 16))
    else if Compiler.HasBinaryPrefix(s) then LowByte(Compiler.Stoul(s[1..], 2))
    else LowByte(Compiler.Stoul(s, 10))
  }

  /** The two ways of treating stoul's result, side by side. */
  lemma LowByteAgrees(c: Compiler.Conversion)
    ensures Compiler.ByteOrError(c).Ok? ==> LowByte(c) == Ok(Compiler.ByteOrError(c).value)
    ensures LowByte(c).Ok? <==> Compiler.ByteOrError(c).Ok? || Compiler.ByteOrError(c) == Err(OUT_OF_RANGE)
  {
  }

  lemma StoulEmpty(base: nat)
    requires base == 2 || base == 10 || base == 16
    ensures Compiler.Stoul([], base) == Compiler.InvalidArgument
  {
    assert Compiler.Span([], IsSpace) == 0;
    assert Compiler.Span([], Compiler.DigitsOf(base)) == 0;
  }

  /** The two parse_number agree on every literal the newer one accepts;
      the older one in addition accepts exactly the literals the newer one
      rejects as out of range. */
  lemma ParseAgrees(s: string)
    ensures Compiler.ParseNumber(s).Ok? ==> ParseNumber(s) == Ok(Compiler.ParseNumber(s).value)
    ensures ParseNumber(s).Ok? <==> Compiler.ParseNumber(s).Ok? || Compiler.ParseNumber(s) == Err(OUT_OF_RANGE)
  {
    if Compiler.HasHexPrefix(s) {
      if |s| <= 2 {
        assert s[2..] == [];
        StoulEmpty(16);
      } else {
        LowByteAgrees(Compiler.Stoul(s[2..], 16));
      }
    } else if Compiler.HasBinaryPrefix(s) {
      if |s| <= 1 {
        assert s[1..] == [];
        StoulEmpty(2);
      } else {
        LowByteAgrees(Compiler.Stoul(s[1..], 2));
      }
    } else {
      LowByteAgrees(Compiler.Stoul(s, 10));
    }
  }

  /** A decimal literal keeps its low byte; beyond ULONG_MAX stoul throws. */
  lemma ParseDecimalWraps(ds: string)
    requires ds != [] && Compiler.AllDigits(ds, 10)
    ensures var v := Compiler.DigitsValue(ds, 10);
      ParseNumber(ds) == if v <= ULongMax then Ok(v % 256) else Err(Terminated)
  {
    assert !Compiler.HasHexPrefix(ds) && !Compiler.HasBinaryPrefix(ds) by {
      assert Compiler.DigitValue(ds[0]) < 10;
      assert |ds| >= 2 ==> Compiler.DigitValue(ds[1]) < 10;
    }
    assert ds + [] == ds;
    Compiler.StoulDigits(ds, [], 10);
  }

  lemma Value300()
    ensures Compiler.AllDigits("300", 10) && Compiler.DigitsValue("300", 10) == 300
  {
    var num := "300";
    assert Compiler.DigitValue(num[0]) == 3 && Compiler.DigitValue(num[1]) == 0 && Compiler.DigitValue(num[2]) == 0;
    assert num[..2] == "30" && num[..2][..1] == "3" && num[..2][..1][..0] == [];
    assert Compiler.DigitsValue("3", 10) == 3;
    assert Compiler.DigitsValue("30", 10) == 30;
  }

  /** `=num` on its own: the two instructions, or the literal's error. */
  lemma AssignAlone<E>(num: string, dbgWidth: int, parse: string -> Result<int, E>)
    requires num != [] && forall k :: 0 <= k < |num| ==> Compiler.IsNumChar(num[k])
    ensures parse(num).Ok? ==>
      Compiler.Desugar(['='] + num, dbgWidth, parse) == Ok([Instr(CLEAR, 0, ""), Instr(INC, parse(num).value, "")])
    ensures parse(num).Err? ==> Compiler.Desugar(['='] + num, dbgWidth, parse) == Err(parse(num).error)
  {
    assert ['='] + num + [] == ['='] + num;
    Compiler.DesugarAssign(num, [], dbgWidth, parse);
    assert Compiler.Desugar([], dbgWidth, parse) == Ok([]);
    var code := [Instr(CLEAR, 0, ""), Instr(INC, if parse(num).Ok? then parse(num).value else 0, "")];
    assert code + [] == code;
  }

  /** `=300` sets the cell to 44 here. */
  lemma AssignWraps(dbgWidth: int)
    ensures Compiler.Desugar("=300", dbgWidth, ParseNumber) == Ok([Instr(CLEAR, 0, ""), Instr(INC, 44, "")])
  {
    var num := "300";
    Value300();
    assert ParseNumber(num) == Ok(44) by {
      ParseDecimalWraps(num);
      assert 300 <= ULongMax && 300 % 256 == 44;
    }
    assert ['='] + num == "=300";
    AssignAlone(num, dbgWidth, ParseNumber);
  }

  /** The newer compiler rejects `=300` as out of range. */
  lemma AssignRejected(dbgWidth: int)
    ensures Compiler.Desugar("=300", dbgWidth, Compiler.ParseNumber) == Err(OUT_OF_RANGE)
  {
    var num := "300";
    Value300();
    assert Compiler.ParseNumber(num) == Err(OUT_OF_RANGE) by {
      Compiler.ParseDecimal(num);
      assert 255 < 300 <= ULongMax;
    }
    assert ['='] + num == "=300";
    AssignAlone(num, dbgWidth, Compiler.ParseNumber);
  }

  /** On one token the two desugarers agree whenever the newer one succeeds. */
  lemma TokenAgrees(t: string, dbgWidth: int)
    requires t != []
    ensures var old_ := Compiler.Token(t, dbgWidth, ParseNumber);
      var new_ := Compiler.Token(t, dbgWidth, Compiler.ParseNumber);
      && old_.len == new_.len
      && (new_.emit.Ok? ==> old_.emit == Ok(new_.emit.value))
  {
    if t[0] == '=' {
      AssignTokenAgrees(t, dbgWidth);
    } else {
      OtherTokenAgrees(t, dbgWidth);
    }
  }

  lemma AssignTokenAgrees(t: string, dbgWidth: int)
    requires t != [] && t[0] == '='
    ensures var old_ := Compiler.Token(t, dbgWidth, ParseNumber);
      var new_ := Compiler.Token(t, dbgWidth, Compiler.ParseNumber);
      && old_.len == new_.len
      && (new_.emit.Ok? ==> old_.emit == Ok(new_.emit.value))
  {
    var n := Compiler.Span(t[1..], Compiler.IsNumChar);
    if n > 0 {
      ParseAgrees(t[1..1 + n]);
    }
  }

  lemma OtherTokenAgrees(t: string, dbgWidth: int)
    requires t != [] && t[0] != '='
    ensures var old_ := Compiler.Token(t, dbgWidth, ParseNumber);
      var new_ := Compiler.Token(t, dbgWidth, Compiler.ParseNumber);
      && old_.len == new_.len
      && new_.emit.Ok? && old_.emit == Ok(new_.emit.value)
  {
  }

  /** Where the newer desugar succeeds, the older one emits the same code. */
  lemma {:induction false} DesugarAgrees(t: string, dbgWidth: int)
    requires Compiler.Desugar(t, dbgWidth, Compiler.ParseNumber).Ok?
    ensures Compiler.Desugar(t, dbgWidth, ParseNumber) == Ok(Compiler.Desugar(t, dbgWidth, Compiler.ParseNumber).value)
    decreases |t|
  {
    if t != [] {
      TokenAgrees(t, dbgWidth);
      var lx := Compiler.Token(t, dbgWidth, Compiler.ParseNumber);
      DesugarAgrees(t[lx.len..], dbgWidth);
    }
  }

  /** The message link_jumps dies with for each fault. */
  function DieMessage(f: Linker.LinkFault): (msg: string)
    ensures f.UnmatchedClose? <==> msg == "unmatched ']'"
    ensures f.MismatchedLabels? <==> msg == "mismatched labels between '[' and ']'"
    ensures f.UnmatchedOpen? <==> msg == "unmatched '['"
  {
    match f
    case UnmatchedClose(_) => "unmatched ']'"
    case MismatchedLabels(_, _) => "mismatched labels between '[' and ']'"
    case UnmatchedOpen => "unmatched '['"
  }

  /** The desugared code of `raw`, or the escaped exception. */
  function Unlinked(raw: string, dbgWidth: int): Result<seq<Instr>, Failure> {
    Compiler.Desugar(Compiler.Strip(raw), dbgWidth, ParseNumber)
  }

  predicate CompiledFrom(raw: string, dbgWidth: int, p: Program) {
    var d := Unlinked(raw, dbgWidth);
    d.Ok? && Linker.Linkable(d.value) && Linker.IsLinkOf(d.value, p.code)
  }

  /** compile_src of main.cpp: the same passes; a bad literal terminates, a
      bracket fault dies with the message of the first one found. */
  method CompileSrc(raw: string, dbgWidth: int) returns (r: Result<Program, Failure>)
    ensures r.Ok? <==> Unlinked(raw, dbgWidth).Ok? && Linker.Linkable(Unlinked(raw, dbgWidth).value)
    ensures r.Ok? ==> CompiledFrom(raw, dbgWidth, r.value)
    ensures r == Err(Terminated) <==> Unlinked(raw, dbgWidth).Err?
    ensures r == Err(Died("unmatched ']'")) ==> exists j: nat :: Linker.UnmatchedCloseAt(Unlinked(raw, dbgWidth).value, j)
    ensures r == Err(Died("mismatched labels between '[' and ']'")) ==>
      exists a: nat, b: nat :: Linker.MismatchAt(Unlinked(raw, dbgWidth).value, a, b)
    ensures r == Err(Died("unmatched '['")) ==> Linker.UnclosedAtEnd(Unlinked(raw, dbgWidth).value)
    ensures forall f :: Unlinked(raw, dbgWidth).Ok? && Linker.IsFirstFault(Unlinked(raw, dbgWidth).value, f) ==>
      r == Err(Died(DieMessage(f)))
    ensures r.Err? && r.error.Died? ==>
      r.error.message in {"unmatched ']'", "mismatched labels between '[' and ']'", "unmatched '['"}
  {
    var noCom := Compiler.StripComments(raw);
    var d := Compiler.DesugarWith(noCom, dbgWidth, ParseNumber);
    assert d == Unlinked(raw, dbgWidth);
    if d.Err? {
      return Err(Terminated);
    }
    var code := new Instr[|d.value|](k requires 0 <= k < |d.value| => d.value[k]);
    assert code[..] == d.value;
    var fault := Linker.LinkJumps(code);
    Linker.FaultsExhaustive(d.value);
    if fault.Some? {
      forall f | Linker.IsFirstFault(d.value, f)
        ensures f == fault.value
      {
        Linker.FirstFaultUnique(d.value, f, fault.value);
      }
      match fault.value
      case UnmatchedClose(j) =>
        assert Linker.UnmatchedCloseAt(d.value, j);
      case MismatchedLabels(a, b) =>
        assert Linker.MismatchAt(d.value, a, b);
      case UnmatchedOpen =>
    }
    if fault.Some? {
      return Err(Died(DieMessage(fault.value)));
    }
    r := Ok(Program(code[..]));
  }

  /** Every program the newer compiler produces, the older one produces too. */
  lemma CompileAgrees(raw: string, dbgWidth: int, p: Program)
    requires Compiler.Desugar(Compiler.Strip(raw), dbgWidth, Compiler.ParseNumber).Ok?
    ensures Unlinked(raw, dbgWidth).Ok?
    ensures Unlinked(raw, dbgWidth).value == Compiler.Desugar(Compiler.Strip(raw), dbgWidth, Compiler.ParseNumber).value
    ensures Compile.CompiledFrom(raw, dbgWidth, p) ==> CompiledFrom(raw, dbgWidth, p)
  {
    DesugarAgrees(Compiler.Strip(raw), dbgWidth);
  }
}
