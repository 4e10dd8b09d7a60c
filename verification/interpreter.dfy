/**
 * The interpreter: a tree walk over a 30000-cell byte tape and a pointer.
 * Stdin and stdout become the `input` and `output` sequences of the state.
 * `Loop` runs while the current cell is nonzero and may diverge, so runs carry
 * fuel: instructions in sequence share it, and each loop iteration passes one
 * unit less to its body and to the iterations after it. Running out is its own
 * outcome.
 */
module Interpreter {
  import opened Parser

  const TapeLength: nat := 30000
  const LastCell: nat := TapeLength - 1

  /** An unsigned 8-bit value; tape cells and input bytes. */
  type Byte = b: int | 0 <= b < 256

  /** The machine between instructions: the tape, the pointer, the unread
      input bytes and the characters written so far. */
  datatype State = State(tape: seq<Byte>, ptr: nat, input: seq<Byte>, output: seq<char>)

  /** The tape has its fixed length and the pointer lies on it. */
  predicate Valid(s: State) {
    |s.tape| == TapeLength && s.ptr < TapeLength
  }

  /** The edge of the tape a move ran into. */
  datatype Edge = Low | High

  datatype Outcome =
    | Done(state: State)
      // The pointer left the tape: the process exits. What was written is already out.
    | OutOfBounds(edge: Edge, output: seq<char>)
    | OutOfFuel

  /** A zeroed tape with the pointer at cell 0. */
  function Initial(input: seq<Byte>): (s: State)
    ensures Valid(s) && s.ptr == 0 && s.input == input && s.output == []
    ensures forall j :: 0 <= j < TapeLength ==> s.tape[j] == 0
  {
    State(seq(TapeLength, _ => 0), 0, input, [])
  }

  /** The character written for a cell value (`u8 as char`). */
  function CharOf(b: Byte): char {
    b as char
  }

  /** One non-loop instruction. */
  function Exec(x: Instruction, s: State): (r: Outcome)
    requires !x.Loop? && Valid(s)
    ensures r.Done? ==> Valid(r.state)
    ensures r.OutOfBounds? <==> (x == Right && s.ptr == LastCell) || (x == Left && s.ptr == 0)
    ensures r.OutOfBounds? ==> r.output == s.output && (r.edge == High <==> x == Right)
    ensures !r.OutOfFuel?
  {
    match x
    case Right =>
      if s.ptr == LastCell then OutOfBounds(High, s.output) else Done(s.(ptr := s.ptr + 1))
    case Left =>
      if s.ptr == 0 then OutOfBounds(Low, s.output) else Done(s.(ptr := s.ptr - 1))
    case Increment =>
      // u8::wrapping_add(1)
      Done(s.(tape := s.tape[s.ptr := (s.tape[s.ptr] as int + 1) % 256]))
    case Decrement =>
      // u8::wrapping_sub(1)
      Done(s.(tape := s.tape[s.ptr := (s.tape[s.ptr] as int - 1) % 256]))
    case Write =>
      Done(s.(output := s.output + [CharOf(s.tape[s.ptr])]))
    case Read =>
      if |s.input| == 0 then Done(s)
      else Done(s.(tape := s.tape[s.ptr := s.input[0]], input := s.input[1..]))
  }

  /** Runs a sequence of instructions in order, stopping at the first failure. */
  function Run(program: seq<Instruction>, s: State, fuel: nat): (r: Outcome)
    requires Valid(s)
    ensures r.Done? ==> Valid(r.state)
    decreases fuel, program
  {
    if |program| == 0 then Done(s)
    else
      match Step(program[0], s, fuel)
      case Done(s') => Run(program[1..], s', fuel)
      case failed => failed
  }

  function Step(x: Instruction, s: State, fuel: nat): (r: Outcome)
    requires Valid(s)
    ensures r.Done? ==> Valid(r.state)
    decreases fuel, x
  {
    if x.Loop? then RunLoop(x.body, s, fuel) else Exec(x, s)
  }

  /** `while tape[ptr] != 0 { run(body) }`; each iteration runs with one unit less fuel. */
  function RunLoop(body: seq<Instruction>, s: State, fuel: nat): (r: Outcome)
    requires Valid(s)
    ensures r.Done? ==> Valid(r.state) && r.state.tape[r.state.ptr] == 0
    decreases fuel, body
  {
    if s.tape[s.ptr] == 0 then Done(s)
    else if fuel == 0 then OutOfFuel
    else
      match Run(body, s, fuel - 1)
      case Done(s') => RunLoop(body, s', fuel - 1)
      case failed => failed
  }
}
