/** The Intcode interpreter: a fetch-decode-execute machine over a flat integer
    memory with one instruction pointer, position/immediate addressing and an
    input queue and output list in place of Go channels.

    `Step` performs one instruction exactly as one iteration of the loop in
    `ExecFull` does (same evaluation order, same table lookups); `Run` repeats
    it under a step budget because Intcode programs need not terminate. */
module Intcode {
  import opened Wrappers
  import Arith

  datatype Opcode = Add | Mult | Input | Output | JumpIfTrue | JumpIfFalse | LessThan | Equals | End

  /** Numeric code of each opcode. */
  function Code(op: Opcode): int {
    match op
    case Add => 1
    case Mult => 2
    case Input => 3
    case Output => 4
    case JumpIfTrue => 5
    case JumpIfFalse => 6
    case LessThan => 7
    case Equals => 8
    case End => 99
  }

  /** The opcode table; None is every code the dispatch `switch` falls through to `default` for. */
  function OpcodeOf(code: int): Option<Opcode> {
    match code
    case 1 => Some(Add)
    case 2 => Some(Mult)
    case 3 => Some(Input)
    case 4 => Some(Output)
    case 5 => Some(JumpIfTrue)
    case 6 => Some(JumpIfFalse)
    case 7 => Some(LessThan)
    case 8 => Some(Equals)
    case 99 => Some(End)
    case _ => None
  }

  /** The `arity` table: parameter slots after the opcode word. */
  function Arity(op: Opcode): nat {
    match op
    case Add => 3
    case Mult => 3
    case Input => 1
    case Output => 1
    case JumpIfTrue => 2
    case JumpIfFalse => 2
    case LessThan => 3
    case Equals => 3
    case End => 0
  }

  /** The `args` table: leading parameters resolved as operand values.
      INPUT is listed with one, so its destination cell is also read. */
  function Args(op: Opcode): (n: nat)
    ensures n <= Arity(op)
  {
    match op
    case Add => 2
    case Mult => 2
    case Input => 1
    case Output => 1
    case JumpIfTrue => 2
    case JumpIfFalse => 2
    case LessThan => 2
    case Equals => 2
    case End => 0
  }

  /** The `hasDest` table: opcodes whose last parameter is a store address. */
  predicate HasDest(op: Opcode) {
    op.Add? || op.Mult? || op.Input? || op.LessThan? || op.Equals?
  }

  lemma OpcodeTableRoundTrip(op: Opcode, code: int)
    ensures OpcodeOf(Code(op)) == Some(op)
    ensures OpcodeOf(code) == Some(op) ==> Code(op) == code
    ensures OpcodeOf(code).Some? <==> code in {1, 2, 3, 4, 5, 6, 7, 8, 99}
  {
  }

  /** Addressing mode of one parameter. Go switches on the digit with cases for
      0 and 1 only, so any other digit leaves the operand at 0 and is not
      rejected as a destination. */
  datatype Mode = Position | Immediate | Other(digit: int)

  function ModeOf(digit: int): Mode {
    if digit == 0 then Position else if digit == 1 then Immediate else Other(digit)
  }

  /** Go's integer `/`, which truncates toward zero. */
  function TruncDiv(a: int, b: int): int
    requires b > 0
  {
    if a >= 0 then a / b else -((-a) / b)
  }

  /** Go's integer `%`: the remainder has the sign of the dividend. */
  function TruncMod(a: int, b: int): int
    requires b > 0
  {
    a - TruncDiv(a, b) * b
  }

  /** The mode loop: take the low digit, then drop it, n times. */
  function DecodeModes(paramMode: int, n: nat): (modes: seq<Mode>)
    ensures |modes| == n
    decreases n
  {
    if n == 0 then []
    else [ModeOf(TruncMod(paramMode, 10))] + DecodeModes(TruncDiv(paramMode, 10), n - 1)
  }

  datatype Instruction = Instruction(code: int, modes: seq<Mode>)

  /** Splits an instruction word into its opcode and one mode per parameter slot
      (none for a code outside the table, whose arity Go reads as 0). */
  function Decode(word: int): (ins: Instruction)
    ensures OpcodeOf(ins.code).Some? ==> |ins.modes| == Arity(OpcodeOf(ins.code).value)
  {
    var code := TruncMod(word, 100);
    var n := match OpcodeOf(code) case Some(op) => Arity(op) case None => 0;
    Instruction(code, DecodeModes(TruncDiv(word, 100), n))
  }

  function Pow10(j: nat): (p: nat)
    ensures p > 0
  {
    if j == 0 then 1 else 10 * Pow10(j - 1)
  }

  /** Closed form of the mode digit of parameter j of a non-negative word. */
  function ModeDigit(word: nat, j: nat): int {
    (word / 100 / Pow10(j)) % 10
  }

  lemma MulAtLeast(x: int, d: int)
    ensures x >= 1 && d >= 0 ==> x * d >= d
  {
    if x >= 1 && d >= 0 {
      assert x * d == d + (x - 1) * d;
    }
  }

  lemma DivUnique(a: nat, d: nat, q: nat, r: nat)
    requires d > 0 && a == q * d + r && r < d
    ensures a / d == q
  {
    var q' := a / d;
    var r' := a % d;
    assert a == q' * d + r';
    assert (q - q') * d == q * d - q' * d;
    assert (q' - q) * d == q' * d - q * d;
    MulAtLeast(q - q', d);
    MulAtLeast(q' - q, d);
  }

  lemma MulNonNegative(x: int, d: int)
    ensures x >= 0 && d >= 0 ==> x * d >= 0
  {
  }

  lemma DivTenDiv(a: nat, c: nat)
    requires c > 0
    ensures a / 10 / c == a / (10 * c)
  {
    var q := a / 10;
    var r := a % 10;
    var q2 := q / c;
    var r2 := q % c;
    assert a == 10 * q + r;
    assert q == q2 * c + r2;
    Arith.MulAddRight(q2 * c, r2, 10);
    assert 10 * q == q2 * (10 * c) + 10 * r2;
    MulNonNegative(c - 1 - r2, 10);
    assert 10 * r2 + r < 10 * c;
    DivUnique(a, 10 * c, q2, 10 * r2 + r);
  }

  lemma {:induction false} DecodeModesDigits(paramMode: nat, n: nat, j: nat)
    requires j < n
    ensures DecodeModes(paramMode, n)[j] == ModeOf((paramMode / Pow10(j)) % 10)
    decreases j
  {
    if j > 0 {
      DecodeModesDigits(paramMode / 10, n - 1, j - 1);
      DivTenDiv(paramMode, Pow10(j - 1));
    }
  }

  /** Decoding: the opcode is the word's low two digits and the mode of
      parameter j is the digit (word / 100 / 10^j) % 10, for every parameter
      slot of the opcode. */
  lemma DecodeDigits(word: nat, j: nat)
    requires j < |Decode(word).modes|
    ensures Decode(word).code == word % 100
    ensures Decode(word).modes[j] == ModeOf(ModeDigit(word, j))
  {
    DecodeModesDigits(word / 100, |Decode(word).modes|, j);
  }

  /** A negative word never yields a known opcode: its truncated remainder is at most 0. */
  lemma NegativeWordIsUnknown(word: int)
    requires word < 0
    ensures OpcodeOf(Decode(word).code).None?
  {
  }

  datatype Machine = Machine(mem: seq<int>, ip: int, input: seq<int>, output: seq<int>)

  datatype Fault =
    | DestinationImmediate      // the error value ExecFull returns
    | UnknownOpcode(code: int)  // log.Panicf in Go
    | OutOfBounds(address: int) // an index panic in Go

  /** AwaitingInput is where Go blocks forever on an empty input channel;
      OutputBlocked is where it blocks forever sending on an output channel
      that nobody reads. */
  datatype Status = Running | Halted | AwaitingInput | OutputBlocked | Faulted(fault: Fault)

  datatype Config = Config(status: Status, machine: Machine)

  function Read(mem: seq<int>, address: int): (r: Result<int, Fault>)
    ensures r.Success? <==> 0 <= address < |mem|
    ensures r.Success? ==> r.value == mem[address]
    ensures r.Failure? ==> r.error == OutOfBounds(address)
  {
    if 0 <= address < |mem| then Success(mem[address]) else Failure(OutOfBounds(address))
  }

  /** Value of parameter j of the instruction at ip under the given mode. */
  function Operand(mem: seq<int>, ip: int, j: nat, mode: Mode): Result<int, Fault> {
    match mode
    case Position =>
      var address :- Read(mem, ip + 1 + j);
      Read(mem, address)
    case Immediate => Read(mem, ip + 1 + j)
    case Other(_) => Success(0)
  }

  /** Operands j, j+1, ... in order; the first failing read is the fault. */
  function Resolve(mem: seq<int>, ip: int, modes: seq<Mode>, j: nat): (r: Result<seq<int>, Fault>)
    ensures r.Success? ==> |r.value| == |modes|
    ensures r.Success? ==> forall k :: 0 <= k < |modes| ==> Operand(mem, ip, j + k, modes[k]) == Success(r.value[k])
    ensures r.Failure? ==> exists k :: 0 <= k < |modes| && Operand(mem, ip, j + k, modes[k]) == Failure(r.error)
    decreases |modes|
  {
    if modes == [] then Success([])
    else
      var v :- Operand(mem, ip, j, modes[0]);
      var rest :- Resolve(mem, ip, modes[1..], j + 1);
      Success([v] + rest)
  }

  /** Writes v at dest and moves ip past the instruction, or faults on a bad address. */
  function Store(m: Machine, dest: int, v: int, op: Opcode): (c: Config)
    ensures |c.machine.mem| == |m.mem|
  {
    if 0 <= dest < |m.mem| then Config(Running, m.(mem := m.mem[dest := v], ip := m.ip + Arity(op) + 1))
    else Config(Faulted(OutOfBounds(dest)), m)
  }

  /** The dispatch `switch` once operands and destination are known. */
  function Execute(m: Machine, op: Opcode, ops: seq<int>, dest: int): (c: Config)
    requires |ops| == Args(op)
    ensures |c.machine.mem| == |m.mem|
  {
    var next := m.ip + Arity(op) + 1;
    match op
    case Add => Store(m, dest, ops[0] + ops[1], op)
    case Mult => Store(m, dest, ops[0] * ops[1], op)
    case Input =>
      if m.input == [] then Config(AwaitingInput, m)
      else Store(m.(input := m.input[1..]), dest, m.input[0], op)
    case Output => Config(Running, m.(output := m.output + [ops[0]], ip := next))
    case JumpIfTrue => Config(Running, m.(ip := if ops[0] != 0 then ops[1] else next))
    case JumpIfFalse => Config(Running, m.(ip := if ops[0] == 0 then ops[1] else next))
    case LessThan => Store(m, dest, if ops[0] < ops[1] then 1 else 0, op)
    case Equals => Store(m, dest, if ops[0] == ops[1] then 1 else 0, op)
    case End => Config(Halted, m)
  }

  /** Memories s and t agree everywhere except possibly at address a. */
  predicate SameExceptAt(s: seq<int>, t: seq<int>, a: int) {
    |s| == |t| && forall i :: 0 <= i < |s| && i != a ==> s[i] == t[i]
  }

  /** The instruction at ip exists and has the given opcode. */
  predicate AtCode(m: Machine, code: int) {
    0 <= m.ip < |m.mem| && TruncMod(m.mem[m.ip], 100) == code
  }

  /** One iteration of the ExecFull loop. */
  function Step(m: Machine): (c: Config)
    ensures |c.machine.mem| == |m.mem|
    ensures c.status.Faulted? ==> c.machine.mem == m.mem && c.machine.ip == m.ip && c.machine.output == m.output
    ensures c.status.Halted? || c.status.AwaitingInput? ==> c.machine == m
    ensures c.status.Halted? ==> AtCode(m, 99)
    ensures c.status.AwaitingInput? ==> AtCode(m, 3) && m.input == []
    ensures c.machine.output == m.output || (|c.machine.output| == |m.output| + 1 && c.machine.output[..|m.output|] == m.output)
    ensures |c.machine.output| > |m.output| ==> c.status.Running? && AtCode(m, 4)
    ensures c.machine.input == m.input || (m.input != [] && c.machine.input == m.input[1..])
    ensures !c.status.OutputBlocked?
  {
    if !(0 <= m.ip < |m.mem|) then Config(Faulted(OutOfBounds(m.ip)), m)
    else
      var ins := Decode(m.mem[m.ip]);
      match OpcodeOf(ins.code)
      case None => Config(Faulted(UnknownOpcode(ins.code)), m)
      case Some(op) =>
        match Resolve(m.mem, m.ip, ins.modes[..Args(op)], 0)
        case Failure(f) => Config(Faulted(f), m)
        case Success(ops) =>
          if HasDest(op) then
            var slot := Arity(op) - 1;
            if ins.modes[slot] == Immediate then Config(Faulted(DestinationImmediate), m)
            else
              match Read(m.mem, m.ip + 1 + slot)
              case Failure(f) => Config(Faulted(f), m)
              case Success(dest) => Execute(m, op, ops, dest)
          else Execute(m, op, ops, 0)
  }

  /** a is what remains of b after dropping some leading values. */
  predicate IsSuffix(a: seq<int>, b: seq<int>) {
    |a| <= |b| && a == b[|b| - |a|..]
  }

  /** What any number of steps can do to a machine: keep the memory size,
      only append to the output, only consume the input from the front. */
  predicate Evolves(m: Machine, m': Machine) {
    |m'.mem| == |m.mem| && m.output <= m'.output && IsSuffix(m'.input, m.input)
  }

  lemma EvolvesTransitive(m1: Machine, m2: Machine, m3: Machine)
    requires Evolves(m1, m2) && Evolves(m2, m3)
    ensures Evolves(m1, m3)
  {
    assert m1.output <= m3.output by {
      assert m3.output[..|m2.output|][..|m1.output|] == m3.output[..|m1.output|];
    }
    var k2 := |m1.input| - |m2.input|;
    var k3 := |m2.input| - |m3.input|;
    assert m3.input == m1.input[k2..][k3..];
    assert m1.input[k2..][k3..] == m1.input[k2 + k3..];
  }

  lemma StepEvolves(m: Machine)
    ensures Evolves(m, Step(m).machine)
  {
  }

  /** The ExecFull loop over an arbitrary step function: apply it until the
      status leaves Running or the budget is spent. */
  function Drive(step: Machine -> Config, m: Machine, fuel: nat): Config
    decreases fuel
  {
    if fuel == 0 then Config(Running, m)
    else
      var c := step(m);
      if c.status.Running? then Drive(step, c.machine, fuel - 1) else c
  }

  lemma {:induction false} DriveEvolves(step: Machine -> Config, m: Machine, fuel: nat)
    requires forall x :: Evolves(x, step(x).machine)
    ensures Evolves(m, Drive(step, m, fuel).machine)
    decreases fuel
  {
    if fuel > 0 {
      var c := step(m);
      if c.status.Running? {
        DriveEvolves(step, c.machine, fuel - 1);
        EvolvesTransitive(m, c.machine, Drive(step, m, fuel).machine);
      }
    }
  }

  lemma {:induction false} DriveStopsLikeStep(step: Machine -> Config, ok: Config -> bool, m: Machine, fuel: nat)
    requires forall x :: !step(x).status.Running? ==> ok(step(x))
    ensures !Drive(step, m, fuel).status.Running? ==> ok(Drive(step, m, fuel))
    decreases fuel
  {
    if fuel > 0 && step(m).status.Running? {
      DriveStopsLikeStep(step, ok, step(m).machine, fuel - 1);
    }
  }

  lemma {:induction false} DriveFuelIrrelevantAfterStop(step: Machine -> Config, m: Machine, f: nat, g: nat)
    requires f <= g && !Drive(step, m, f).status.Running?
    ensures Drive(step, m, g) == Drive(step, m, f)
    decreases f
  {
    var c := step(m);
    if c.status.Running? {
      DriveFuelIrrelevantAfterStop(step, c.machine, f - 1, g - 1);
    }
  }

  lemma {:induction false} DriveSplits(step: Machine -> Config, m: Machine, a: nat, b: nat)
    ensures Drive(step, m, a + b) ==
            (var c := Drive(step, m, a); if c.status.Running? then Drive(step, c.machine, b) else c)
    decreases a
  {
    if a > 0 {
      var c := step(m);
      if c.status.Running? {
        DriveSplits(step, c.machine, a - 1, b);
        assert a + b - 1 == (a - 1) + b;
      }
    }
  }

  /** A configuration that stopped by halting or waiting sits on the END or
      INPUT instruction responsible. */
  predicate StoppedProperly(c: Config) {
    && (c.status.Halted? ==> AtCode(c.machine, 99))
    && (c.status.AwaitingInput? ==> AtCode(c.machine, 3) && c.machine.input == [])
  }

  /** Runs Step until the machine halts, faults or waits, or the budget is spent. */
  function Run(m: Machine, fuel: nat): (c: Config)
    ensures Evolves(m, c.machine)
    ensures c.status.Halted? ==> AtCode(c.machine, 99)
    ensures c.status.AwaitingInput? ==> AtCode(c.machine, 3) && c.machine.input == []
  {
    forall x ensures Evolves(x, Step(x).machine) {
      StepEvolves(x);
    }
    DriveEvolves(Step, m, fuel);
    DriveStopsLikeStep(Step, StoppedProperly, m, fuel);
    Drive(Step, m, fuel)
  }

  /** The initial state of ExecFull: a private copy of the program, ip 0. */
  function Init(program: seq<int>, input: seq<int>): Machine {
    Machine(program, 0, input, [])
  }

  /** ExecFull with the values the input channel will deliver, in order. */
  function ExecFull(program: seq<int>, input: seq<int>, fuel: nat): (c: Config)
    ensures |c.machine.mem| == |program|
    ensures IsSuffix(c.machine.input, input)
    ensures c.status.Halted? ==> AtCode(c.machine, 99)
  {
    Run(Init(program, input), fuel)
  }

  /** One step under Exec, whose private output channel has no reader: an
      OUTPUT instruction blocks forever on its send, after reading its
      operand, so the machine stays as it was. */
  function ExecStep(m: Machine): (c: Config)
    ensures !c.status.OutputBlocked? ==> c == Step(m)
    ensures c.status.OutputBlocked? ==> c.machine == m && AtCode(m, 4)
    ensures c.machine.output == m.output
  {
    var c := Step(m);
    if |c.machine.output| > |m.output| then Config(OutputBlocked, m) else c
  }

  /** What Exec's machines keep: the program's memory size, and channels on
      which nothing has been received or sent. */
  predicate Silent(m: Machine, size: nat) {
    |m.mem| == size && m.input == [] && m.output == []
  }

  /** A configuration Exec stopped in sits on the instruction responsible. */
  predicate ExecStoppedProperly(c: Config) {
    && (c.status.Halted? ==> AtCode(c.machine, 99))
    && (c.status.OutputBlocked? ==> AtCode(c.machine, 4))
  }

  /** A Drive keeps every property its step function keeps. */
  lemma {:induction false} DriveKeeps(step: Machine -> Config, inv: Machine -> bool, m: Machine, fuel: nat)
    requires forall x :: inv(x) ==> inv(step(x).machine)
    requires inv(m)
    ensures inv(Drive(step, m, fuel).machine)
    decreases fuel
  {
    if fuel > 0 && step(m).status.Running? {
      DriveKeeps(step, inv, step(m).machine, fuel - 1);
    }
  }

  /** Two step functions that agree except where the first blocks on output
      drive to the same configuration unless the first run blocks. */
  lemma {:induction false} DriveAgrees(s1: Machine -> Config, s2: Machine -> Config, m: Machine, fuel: nat)
    requires forall x :: !s1(x).status.OutputBlocked? ==> s1(x) == s2(x)
    ensures !Drive(s1, m, fuel).status.OutputBlocked? ==> Drive(s1, m, fuel) == Drive(s2, m, fuel)
    decreases fuel
  {
    if fuel > 0 && s1(m).status.Running? {
      DriveAgrees(s1, s2, s1(m).machine, fuel - 1);
    }
  }

  lemma ExecStepKeepsSilent(x: Machine, size: nat)
    requires Silent(x, size)
    ensures Silent(ExecStep(x).machine, size)
  {
  }

  /** Exec: ExecFull with nothing ever sent on the input channel and nobody
      reading the output channel. It stops at the first OUTPUT; until then
      it runs exactly as ExecFull with no input. */
  function Exec(program: seq<int>, fuel: nat): (c: Config)
    ensures |c.machine.mem| == |program|
    ensures c.machine.input == [] && c.machine.output == []
    ensures c.status.Halted? ==> AtCode(c.machine, 99)
    ensures c.status.OutputBlocked? ==> AtCode(c.machine, 4)
    ensures !c.status.OutputBlocked? ==> c == ExecFull(program, [], fuel)
  {
    var size := |program|;
    forall x | Silent(x, size) ensures Silent(ExecStep(x).machine, size) {
      ExecStepKeepsSilent(x, size);
    }
    DriveKeeps(ExecStep, x => Silent(x, size), Init(program, []), fuel);
    DriveStopsLikeStep(ExecStep, ExecStoppedProperly, Init(program, []), fuel);
    DriveAgrees(ExecStep, Step, Init(program, []), fuel);
    Drive(ExecStep, Init(program, []), fuel)
  }

  // ---------------------------------------------------------------------------
  // Reference semantics, read directly off the instruction word's digits.

  /** The word at ip exists and is positive (every word with a known opcode is). */
  predicate Fetchable(m: Machine) {
    0 <= m.ip < |m.mem| && m.mem[m.ip] > 0
  }

  /** Every cell that reading parameter j touches exists. */
  predicate Readable(m: Machine, j: nat) {
    && Fetchable(m)
    && match ModeOf(ModeDigit(m.mem[m.ip], j))
       case Position => m.ip + 1 + j < |m.mem| && 0 <= m.mem[m.ip + 1 + j] < |m.mem|
       case Immediate => m.ip + 1 + j < |m.mem|
       case Other(_) => true
  }

  /** Value of parameter j: the addressed cell, the literal, or 0 for an unsupported digit. */
  function Param(m: Machine, j: nat): int
    requires Readable(m, j)
  {
    match ModeOf(ModeDigit(m.mem[m.ip], j))
    case Position => m.mem[m.mem[m.ip + 1 + j]]
    case Immediate => m.mem[m.ip + 1 + j]
    case Other(_) => 0
  }

  /** Parameter j is a usable destination: not immediate, and the address it names exists. */
  predicate Storable(m: Machine, j: nat) {
    && Fetchable(m)
    && ModeDigit(m.mem[m.ip], j) != 1
    && m.ip + 1 + j < |m.mem|
    && 0 <= m.mem[m.ip + 1 + j] < |m.mem|
  }

  function Opcode100(m: Machine): int
    requires Fetchable(m)
  {
    m.mem[m.ip] % 100
  }

  lemma OperandMatchesParam(m: Machine, j: nat)
    requires Readable(m, j)
    requires OpcodeOf(Opcode100(m)).Some? && j < Arity(OpcodeOf(Opcode100(m)).value)
    ensures Operand(m.mem, m.ip, j, Decode(m.mem[m.ip]).modes[j]) == Success(Param(m, j))
  {
    DecodeDigits(m.mem[m.ip], j);
  }

  lemma ResolveTwo(m: Machine)
    requires Readable(m, 0) && Readable(m, 1)
    requires OpcodeOf(Opcode100(m)).Some? && Args(OpcodeOf(Opcode100(m)).value) == 2
    ensures Resolve(m.mem, m.ip, Decode(m.mem[m.ip]).modes[..2], 0) == Success([Param(m, 0), Param(m, 1)])
  {
    var modes := Decode(m.mem[m.ip]).modes[..2];
    OperandMatchesParam(m, 0);
    OperandMatchesParam(m, 1);
    var tail := modes[1..];
    assert |tail| == 1;
    assert tail[0] == Decode(m.mem[m.ip]).modes[1];
    assert Operand(m.mem, m.ip, 1, tail[0]) == Success(Param(m, 1));
    assert tail[1..] == [];
    assert Resolve(m.mem, m.ip, tail[1..], 2) == Success([]);
    var r := Resolve(m.mem, m.ip, tail, 1);
    assert r.Success?;
    assert r.value == [Param(m, 1)];
    assert modes[0] == Decode(m.mem[m.ip]).modes[0];
    assert [Param(m, 0)] + [Param(m, 1)] == [Param(m, 0), Param(m, 1)];
  }

  lemma ResolveOne(m: Machine)
    requires Readable(m, 0)
    requires OpcodeOf(Opcode100(m)).Some? && Args(OpcodeOf(Opcode100(m)).value) == 1
    ensures Resolve(m.mem, m.ip, Decode(m.mem[m.ip]).modes[..1], 0) == Success([Param(m, 0)])
  {
    var modes := Decode(m.mem[m.ip]).modes[..1];
    OperandMatchesParam(m, 0);
    assert modes[0] == Decode(m.mem[m.ip]).modes[0];
    assert modes[1..] == [];
    assert [Param(m, 0)] + [] == [Param(m, 0)];
  }

  /** ADD and MULT store the sum or product of their two operands at the
      address in the third slot and advance ip by 4. */
  lemma StepArithmetic(m: Machine)
    requires Fetchable(m) && (Opcode100(m) == 1 || Opcode100(m) == 2)
    requires Readable(m, 0) && Readable(m, 1) && Storable(m, 2)
    ensures var a, b := Param(m, 0), Param(m, 1);
      Step(m) == Config(Running, m.(mem := m.mem[m.mem[m.ip + 3] := if Opcode100(m) == 1 then a + b else a * b],
                                    ip := m.ip + 4))
  {
    ResolveTwo(m);
    DecodeDigits(m.mem[m.ip], 2);
  }

  /** LESS_THAN and EQUALS store exactly 1 when `<` (or `==`) holds of the
      operands and 0 otherwise, then advance ip by 4. */
  lemma StepCompare(m: Machine)
    requires Fetchable(m) && (Opcode100(m) == 7 || Opcode100(m) == 8)
    requires Readable(m, 0) && Readable(m, 1) && Storable(m, 2)
    ensures var a, b := Param(m, 0), Param(m, 1);
      var holds := if Opcode100(m) == 7 then a < b else a == b;
      Step(m) == Config(Running, m.(mem := m.mem[m.mem[m.ip + 3] := if holds then 1 else 0], ip := m.ip + 4))
  {
    ResolveTwo(m);
    DecodeDigits(m.mem[m.ip], 2);
  }

  /** JUMP_IF_TRUE jumps to the second operand exactly when the first is
      non-zero, JUMP_IF_FALSE exactly when it is zero; otherwise ip advances by 3.
      Memory and I/O are untouched. */
  lemma StepJump(m: Machine)
    requires Fetchable(m) && (Opcode100(m) == 5 || Opcode100(m) == 6)
    requires Readable(m, 0) && Readable(m, 1)
    ensures var jump := if Opcode100(m) == 5 then Param(m, 0) != 0 else Param(m, 0) == 0;
      Step(m) == Config(Running, m.(ip := if jump then Param(m, 1) else m.ip + 3))
  {
    ResolveTwo(m);
  }

  /** INPUT takes exactly the front value of the input and stores it at the
      address in its slot; ip advances by 2 and nothing else changes. */
  lemma StepInput(m: Machine)
    requires Fetchable(m) && Opcode100(m) == 3 && m.input != []
    requires Readable(m, 0) && Storable(m, 0)
    ensures Step(m) == Config(Running, m.(mem := m.mem[m.mem[m.ip + 1] := m.input[0]],
                                          ip := m.ip + 2, input := m.input[1..]))
  {
    ResolveOne(m);
    DecodeDigits(m.mem[m.ip], 0);
  }

  /** INPUT with nothing left to read waits, changing nothing (Go blocks on the channel). */
  lemma StepInputWaits(m: Machine)
    requires Fetchable(m) && Opcode100(m) == 3 && m.input == []
    requires Readable(m, 0) && Storable(m, 0)
    ensures Step(m) == Config(AwaitingInput, m)
  {
    ResolveOne(m);
    DecodeDigits(m.mem[m.ip], 0);
  }

  /** OUTPUT appends exactly its operand to the output, changes no memory and
      advances ip by 2. */
  lemma StepOutput(m: Machine)
    requires Fetchable(m) && Opcode100(m) == 4
    requires Readable(m, 0)
    ensures Step(m) == Config(Running, m.(output := m.output + [Param(m, 0)], ip := m.ip + 2))
  {
    ResolveOne(m);
  }

  /** Opcode 99 halts with the machine exactly as it was. */
  lemma StepEnd(m: Machine)
    requires Fetchable(m) && Opcode100(m) == 99
    ensures Step(m) == Config(Halted, m)
  {
  }

  /** A code outside the table faults and changes nothing. */
  lemma StepUnknownOpcode(m: Machine)
    requires 0 <= m.ip < |m.mem|
    requires OpcodeOf(TruncMod(m.mem[m.ip], 100)).None?
    ensures Step(m) == Config(Faulted(UnknownOpcode(TruncMod(m.mem[m.ip], 100))), m)
  {
  }

  /** A destination slot in immediate mode is an error, reported with the
      memory as it was before the instruction. */
  lemma StepDestinationImmediate(m: Machine)
    requires Fetchable(m) && Opcode100(m) in {1, 2, 7, 8}
    requires Readable(m, 0) && Readable(m, 1) && ModeDigit(m.mem[m.ip], 2) == 1
    ensures Step(m) == Config(Faulted(DestinationImmediate), m)
  {
    ResolveTwo(m);
    DecodeDigits(m.mem[m.ip], 2);
  }

  /** The same for INPUT, whose only slot is its destination. */
  lemma StepInputDestinationImmediate(m: Machine)
    requires Fetchable(m) && Opcode100(m) == 3
    requires Readable(m, 0) && ModeDigit(m.mem[m.ip], 0) == 1
    ensures Step(m) == Config(Faulted(DestinationImmediate), m)
  {
    ResolveOne(m);
    DecodeDigits(m.mem[m.ip], 0);
  }

  /** An instruction pointer outside memory faults on the fetch. */
  lemma StepIpOutOfBounds(m: Machine)
    requires !(0 <= m.ip < |m.mem|)
    ensures Step(m) == Config(Faulted(OutOfBounds(m.ip)), m)
  {
  }

  /** Resolution stops at the first operand whose read fails, with that fault. */
  lemma {:induction false} ResolveFirstFailure(mem: seq<int>, ip: int, modes: seq<Mode>, j0: nat, j: nat)
    requires j < |modes|
    requires forall k :: 0 <= k < j ==> Operand(mem, ip, j0 + k, modes[k]).Success?
    requires Operand(mem, ip, j0 + j, modes[j]).Failure?
    ensures Resolve(mem, ip, modes, j0) == Failure(Operand(mem, ip, j0 + j, modes[j]).error)
    decreases j
  {
    if j > 0 {
      assert Operand(mem, ip, j0 + 0, modes[0]).Success?;
      forall k | 0 <= k < j - 1
        ensures Operand(mem, ip, (j0 + 1) + k, modes[1..][k]).Success?
      {
        assert Operand(mem, ip, j0 + (k + 1), modes[k + 1]).Success?;
      }
      ResolveFirstFailure(mem, ip, modes[1..], j0 + 1, j - 1);
    }
  }

  /** The cell whose read fails for an unreadable parameter j: the slot
      itself when it lies past the end of memory, else the address it names. */
  function BadAddress(m: Machine, j: nat): int {
    if 0 <= m.ip + 1 + j < |m.mem| then m.mem[m.ip + 1 + j] else m.ip + 1 + j
  }

  /** Reading the first unreadable operand faults on the cell out of range,
      with the machine unchanged. */
  lemma StepOperandOutOfBounds(m: Machine, op: Opcode, j: nat)
    requires Fetchable(m) && OpcodeOf(Opcode100(m)) == Some(op)
    requires j < Args(op) && !Readable(m, j)
    requires forall k :: 0 <= k < j ==> Readable(m, k)
    ensures Step(m) == Config(Faulted(OutOfBounds(BadAddress(m, j))), m)
  {
    var modes := Decode(m.mem[m.ip]).modes;
    var first := modes[..Args(op)];
    forall k | 0 <= k < j
      ensures Operand(m.mem, m.ip, 0 + k, first[k]).Success?
    {
      OperandMatchesParam(m, k);
    }
    DecodeDigits(m.mem[m.ip], j);
    assert Operand(m.mem, m.ip, 0 + j, first[j]) == Failure(OutOfBounds(BadAddress(m, j)));
    ResolveFirstFailure(m.mem, m.ip, first, 0, j);
  }

  /** A destination slot that is not immediate but lies past the end of
      memory, or names an address outside it, faults on that cell. INPUT
      first takes its value from the input (and waits when there is none),
      so its fault comes with the value consumed. */
  lemma StepDestinationOutOfBounds(m: Machine, op: Opcode)
    requires Fetchable(m) && OpcodeOf(Opcode100(m)) == Some(op) && HasDest(op)
    requires forall k :: 0 <= k < Args(op) ==> Readable(m, k)
    requires ModeDigit(m.mem[m.ip], Arity(op) - 1) != 1 && !Storable(m, Arity(op) - 1)
    ensures var slot := m.ip + Arity(op);
      slot >= |m.mem| ==> Step(m) == Config(Faulted(OutOfBounds(slot)), m)
    ensures var slot := m.ip + Arity(op);
      slot < |m.mem| && !op.Input? ==> Step(m) == Config(Faulted(OutOfBounds(m.mem[slot])), m)
    ensures var slot := m.ip + Arity(op);
      slot < |m.mem| && op.Input? ==>
        Step(m) == if m.input == [] then Config(AwaitingInput, m)
                   else Config(Faulted(OutOfBounds(m.mem[slot])), m.(input := m.input[1..]))
  {
    if op.Input? {
      assert Readable(m, 0);
      ResolveOne(m);
    } else {
      assert Readable(m, 0) && Readable(m, 1);
      ResolveTwo(m);
    }
    DecodeDigits(m.mem[m.ip], Arity(op) - 1);
  }

  /** The address a store of the instruction at ip would write, or -1 when the
      instruction cannot store. */
  function DestOf(m: Machine): int {
    if !(0 <= m.ip < |m.mem|) then -1
    else
      match OpcodeOf(Decode(m.mem[m.ip]).code)
      case None => -1
      case Some(op) =>
        if HasDest(op) && m.ip + Arity(op) < |m.mem| then m.mem[m.ip + Arity(op)] else -1
  }

  /** Every step changes at most the one destination cell, and only an opcode
      with a destination changes memory at all. */
  lemma StepChangesOnlyDestination(m: Machine)
    ensures SameExceptAt(m.mem, Step(m).machine.mem, DestOf(m))
    ensures Step(m).machine.mem != m.mem ==> 0 <= DestOf(m) < |m.mem|
  {
  }

  // ---------------------------------------------------------------------------
  // Runs.

  /** Once a run stops (halt, fault or wait), more budget changes nothing. */
  lemma RunFuelIrrelevantAfterStop(m: Machine, f: nat, g: nat)
    requires f <= g && !Run(m, f).status.Running?
    ensures Run(m, g) == Run(m, f)
  {
    DriveFuelIrrelevantAfterStop(Step, m, f, g);
  }

  /** Running a + b steps is running a steps and then, if still running, b more:
      instructions, and therefore outputs, happen in program order. */
  lemma RunSplits(m: Machine, a: nat, b: nat)
    ensures Run(m, a + b) == (var c := Run(m, a); if c.status.Running? then Run(c.machine, b) else c)
  {
    DriveSplits(Step, m, a, b);
  }

  /** After a fault no further instruction runs: the run ends in that fault. */
  lemma RunStopsAtFault(m: Machine, fuel: nat)
    requires fuel > 0 && Step(m).status.Faulted?
    ensures Run(m, fuel) == Step(m)
  {
  }
}
