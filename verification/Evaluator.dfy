/** Compilation, the stack machine and the certificate checker
    (reference/evaluator.py). */
module Evaluator {
  import opened Outcomes
  import opened Binary64
  import opened Intervals
  import opened IntervalLaws
  import opened WireFormat

  // ---- Compilation --------------------------------------------------------

  datatype Instruction =
    | PushConst(value: Interval)
    | PushVar(index: int)
    | ApplyNeg
    | ApplyAbs
    | ApplyPow(exponent: int)
    | ApplyBinary(op: Operation)

  /** Postfix order: operands first, then the operation. */
  function Compile(e: Expression): Result<seq<Instruction>, Fault> {
    match e
    case Const(encoded) =>
      var value :- DecodeInterval(encoded);
      Success([PushConst(value)])
    case Var(index) => Success([PushVar(index)])
    case Negation(arg) =>
      var program :- Compile(arg);
      Success(program + [ApplyNeg])
    case AbsoluteValue(arg) =>
      var program :- Compile(arg);
      Success(program + [ApplyAbs])
    case PowNat(arg, exponent) =>
      var program :- Compile(arg);
      Success(program + [ApplyPow(exponent)])
    case Binary(op, left, right) =>
      var first :- Compile(left);
      var second :- Compile(right);
      Success(first + second + [ApplyBinary(op)])
  }

  /** The list that the nested visitor extends. */
  class ProgramBuilder {
    var program: seq<Instruction>

    constructor ()
      ensures program == []
    {
      program := [];
    }

    method Visit(node: Expression) returns (outcome: Result<(), Fault>)
      modifies this
      ensures outcome.Success? <==> Compile(node).Success?
      ensures outcome.Success? ==> program == old(program) + Compile(node).value
      ensures outcome.Failure? ==> outcome.error == Compile(node).error
      decreases node
    {
      outcome := Success(());
      match node
      case Const(encoded) =>
        var value := DecodeInterval(encoded);
        if value.Failure? {
          return Failure(value.error);
        }
        program := program + [PushConst(value.value)];
      case Var(index) =>
        program := program + [PushVar(index)];
      case Negation(arg) =>
        outcome := Visit(arg);
        if outcome.Failure? {
          return;
        }
        program := program + [ApplyNeg];
      case AbsoluteValue(arg) =>
        outcome := Visit(arg);
        if outcome.Failure? {
          return;
        }
        program := program + [ApplyAbs];
      case PowNat(arg, exponent) =>
        outcome := Visit(arg);
        if outcome.Failure? {
          return;
        }
        program := program + [ApplyPow(exponent)];
      case Binary(op, left, right) =>
        outcome := Visit(left);
        if outcome.Failure? {
          return;
        }
        outcome := Visit(right);
        if outcome.Failure? {
          return;
        }
        program := program + [ApplyBinary(op)];
    }
  }

  // ---- The stack machine --------------------------------------------------

  type Stack = seq<Interval>
  type Row = seq<Interval>

  /** Indexing with Python's meaning of a negative index. */
  function RowEntry(row: Row, index: int): Result<Interval, Fault> {
    if 0 <= index < |row| then Success(row[index])
    else if -|row| <= index < 0 then Success(row[|row| + index])
    else Failure(IndexOutOfRange)
  }

  function Power(a: Interval, exponent: int): Result<Interval, Fault> {
    if exponent < 0 then Failure(MalformedInterval) else IntervalPow(a, exponent)
  }

  function Step(instruction: Instruction, stack: Stack, row: Row): Result<Stack, Fault> {
    var top := |stack| - 1;
    match instruction
    case PushConst(value) => Success(stack + [value])
    case PushVar(index) =>
      var value :- RowEntry(row, index);
      Success(stack + [value])
    case ApplyNeg =>
      if top < 0 then Failure(StackUnderflow)
      else
        var value :- IntervalNeg(stack[top]);
        Success(stack[..top] + [value])
    case ApplyAbs =>
      if top < 0 then Failure(StackUnderflow)
      else
        var value :- IntervalAbs(stack[top]);
        Success(stack[..top] + [value])
    case ApplyPow(exponent) =>
      if top < 0 then Failure(StackUnderflow)
      else
        var value :- Power(stack[top], exponent);
        Success(stack[..top] + [value])
    case ApplyBinary(op) =>
      if top < 1 then Failure(StackUnderflow)
      else
        var value :- IntervalOperation(op, stack[top - 1], stack[top]);
        Success(stack[..top - 1] + [value])
  }

  function Run(program: seq<Instruction>, stack: Stack, row: Row): Result<Stack, Fault> {
    if |program| == 0 then Success(stack)
    else
      var next :- Step(program[0], stack, row);
      Run(program[1..], next, row)
  }

  function Finish(outcome: Result<Stack, Fault>): Result<Interval, Fault> {
    var stack :- outcome;
    if |stack| != 1 then Failure(WrongFinalStack) else Success(stack[0])
  }

  /** How many primitive interval operations an instruction performs. */
  function InstructionWork(instruction: Instruction): nat {
    match instruction
    case PushConst(_) => 0
    case PushVar(_) => 0
    case ApplyNeg => 1
    case ApplyAbs => 1
    case ApplyPow(exponent) => if exponent < 0 then 0 else exponent
    case ApplyBinary(_) => 1
  }

  function ProgramWork(program: seq<Instruction>): nat {
    if |program| == 0 then 0 else InstructionWork(program[0]) + ProgramWork(program[1..])
  }

  method RunProgram(program: seq<Instruction>, row: Row) returns (r: Result<Interval, Fault>, ghost work: nat)
    ensures r == Finish(Run(program, [], row))
    ensures work <= ProgramWork(program)
  {
    var stack: Stack := [];
    work := 0;
    for i := 0 to |program|
      invariant Run(program, [], row) == Run(program[i..], stack, row)
      invariant work + ProgramWork(program[i..]) <= ProgramWork(program)
    {
      assert program[i..][1..] == program[i + 1..];
      var next := Step(program[i], stack, row);
      work := work + InstructionWork(program[i]);
      if next.Failure? {
        return Failure(next.error), work;
      }
      stack := next.value;
    }
    if |stack| != 1 {
      return Failure(WrongFinalStack), work;
    }
    r := Success(stack[0]);
  }

  // ---- Compiler correctness -----------------------------------------------

  /** Direct recursive evaluation of the tree, the meaning of a program. */
  function EvalTree(e: Expression, row: Row): Result<Interval, Fault> {
    match e
    case Const(encoded) => DecodeInterval(encoded)
    case Var(index) => RowEntry(row, index)
    case Negation(arg) =>
      var a :- EvalTree(arg, row);
      IntervalNeg(a)
    case AbsoluteValue(arg) =>
      var a :- EvalTree(arg, row);
      IntervalAbs(a)
    case PowNat(arg, exponent) =>
      var a :- EvalTree(arg, row);
      Power(a, exponent)
    case Binary(op, left, right) =>
      var a :- EvalTree(left, row);
      var b :- EvalTree(right, row);
      IntervalOperation(op, a, b)
  }

  /** What running one compiled expression does to the rest of a run. */
  function Continue(value: Result<Interval, Fault>, rest: seq<Instruction>, stack: Stack, row: Row)
    : Result<Stack, Fault>
  {
    if value.Failure? then Failure(value.error) else Run(rest, stack + [value.value], row)
  }

  /** Running the compiled program, from any stack and before any continuation, pushes exactly the
      value of the tree, or stops with exactly its fault. */
  lemma {:induction false} CompilerCorrect(e: Expression, rest: seq<Instruction>, stack: Stack, row: Row)
    requires Compile(e).Success?
    ensures Run(Compile(e).value + rest, stack, row) == Continue(EvalTree(e, row), rest, stack, row)
    decreases e, 1
  {
    match e
    case Const(_) => FirstStep(Compile(e).value[0], rest, stack, row);
    case Var(_) => FirstStep(Compile(e).value[0], rest, stack, row);
    case Negation(arg) => UnaryCorrect(arg, ApplyNeg, rest, stack, row);
    case AbsoluteValue(arg) => UnaryCorrect(arg, ApplyAbs, rest, stack, row);
    case PowNat(arg, exponent) => UnaryCorrect(arg, ApplyPow(exponent), rest, stack, row);
    case Binary(op, left, right) => BinaryCorrect(e, Compile(left).value, Compile(right).value, rest, stack, row);
  }

  lemma FirstStep(instruction: Instruction, rest: seq<Instruction>, stack: Stack, row: Row)
    ensures Run([instruction] + rest, stack, row) ==
      var next := Step(instruction, stack, row);
      if next.Failure? then Failure(next.error) else Run(rest, next.value, row)
  {
    assert ([instruction] + rest)[1..] == rest;
  }

  lemma BinaryStep(op: Operation, rest: seq<Instruction>, stack: Stack, a: Interval, b: Interval, row: Row)
    ensures Run([ApplyBinary(op)] + rest, (stack + [a]) + [b], row)
      == Continue(IntervalOperation(op, a, b), rest, stack, row)
  {
    var full := (stack + [a]) + [b];
    FirstStep(ApplyBinary(op), rest, full, row);
    assert full[..|full| - 2] == stack;
  }

  lemma {:induction false} BinaryCorrect(
    e: Expression, first: seq<Instruction>, second: seq<Instruction>, rest: seq<Instruction>, stack: Stack, row: Row)
    requires e.Binary? && Compile(e.left) == Success(first) && Compile(e.right) == Success(second)
    requires Compile(e) == Success(first + second + [ApplyBinary(e.op)])
    ensures Run(Compile(e).value + rest, stack, row) == Continue(EvalTree(e, row), rest, stack, row)
    decreases e, 0
  {
    var tail := [ApplyBinary(e.op)] + rest;
    assert first + second + [ApplyBinary(e.op)] + rest == first + (second + tail);
    CompilerCorrect(e.left, second + tail, stack, row);
    var a := EvalTree(e.left, row);
    if a.Success? {
      CompilerCorrect(e.right, tail, stack + [a.value], row);
      var b := EvalTree(e.right, row);
      if b.Success? {
        BinaryStep(e.op, rest, stack, a.value, b.value, row);
      }
    }
  }

  predicate IsUnary(instruction: Instruction) {
    instruction.ApplyNeg? || instruction.ApplyAbs? || instruction.ApplyPow?
  }

  function ApplyUnary(instruction: Instruction, a: Interval): Result<Interval, Fault>
    requires IsUnary(instruction)
  {
    match instruction
    case ApplyNeg => IntervalNeg(a)
    case ApplyAbs => IntervalAbs(a)
    case ApplyPow(exponent) => Power(a, exponent)
  }

  lemma UnaryStep(last: Instruction, rest: seq<Instruction>, stack: Stack, a: Interval, row: Row)
    requires IsUnary(last)
    ensures Run([last] + rest, stack + [a], row) == Continue(ApplyUnary(last, a), rest, stack, row)
  {
    var full, program := stack + [a], [last] + rest;
    assert program[1..] == rest;
    assert full[..|full| - 1] == stack;
  }

  lemma {:induction false} UnaryCorrect(
    arg: Expression, last: Instruction, rest: seq<Instruction>, stack: Stack, row: Row)
    requires Compile(arg).Success? && IsUnary(last)
    ensures EvalTree(arg, row).Failure? ==>
      Run(Compile(arg).value + [last] + rest, stack, row) == Failure(EvalTree(arg, row).error)
    ensures EvalTree(arg, row).Success? ==>
      Run(Compile(arg).value + [last] + rest, stack, row)
        == Continue(ApplyUnary(last, EvalTree(arg, row).value), rest, stack, row)
    decreases arg, 2
  {
    var tail := [last] + rest;
    assert Compile(arg).value + [last] + rest == Compile(arg).value + tail;
    CompilerCorrect(arg, tail, stack, row);
    if EvalTree(arg, row).Success? {
      UnaryStep(last, rest, stack, EvalTree(arg, row).value, row);
    }
  }

  /** A compiled program evaluates its tree. */
  lemma ProgramEvaluatesTree(e: Expression, row: Row)
    requires Compile(e).Success?
    ensures Finish(Run(Compile(e).value, [], row)) == EvalTree(e, row)
  {
    CompilerCorrect(e, [], [], row);
    assert Compile(e).value + [] == Compile(e).value;
  }

  // ---- The work of a program ----------------------------------------------

  lemma {:induction false} ProgramWorkAppend(first: seq<Instruction>, second: seq<Instruction>)
    ensures ProgramWork(first + second) == ProgramWork(first) + ProgramWork(second)
  {
    if |first| == 0 {
      assert first + second == second;
    } else {
      assert (first + second)[1..] == first[1..] + second;
      ProgramWorkAppend(first[1..], second);
    }
  }

  /** A compiled program has one instruction per node and performs the operations of its tree. */
  lemma {:induction false} CompiledWork(e: Expression)
    requires Compile(e).Success?
    ensures |Compile(e).value| == NodeCount(e)
    ensures ProgramWork(Compile(e).value) == OperationCount(e)
  {
    match e
    case Const(_) =>
    case Var(_) =>
    case Negation(arg) =>
      CompiledWork(arg);
      ProgramWorkAppend(Compile(arg).value, [ApplyNeg]);
    case AbsoluteValue(arg) =>
      CompiledWork(arg);
      ProgramWorkAppend(Compile(arg).value, [ApplyAbs]);
    case PowNat(arg, exponent) =>
      CompiledWork(arg);
      ProgramWorkAppend(Compile(arg).value, [ApplyPow(exponent)]);
    case Binary(op, left, right) =>
      CompiledWork(left);
      CompiledWork(right);
      ProgramWorkAppend(Compile(left).value, Compile(right).value);
      ProgramWorkAppend(Compile(left).value + Compile(right).value, [ApplyBinary(op)]);
  }
}
