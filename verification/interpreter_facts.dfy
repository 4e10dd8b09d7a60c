/**
 * Properties of the interpreter: the effect of each instruction, how runs
 * compose, why fuel is only a bound, and the loop and wrap-around behaviour.
 */
module InterpreterFacts {
  import opened Parser
  import opened Interpreter

  /** `Right` fails at the last cell and otherwise moves one cell up, changing nothing else. */
  lemma RightEffect(s: State, fuel: nat)
    requires Valid(s)
    ensures s.ptr == LastCell ==> Step(Right, s, fuel) == OutOfBounds(High, s.output)
    ensures s.ptr < LastCell ==> Step(Right, s, fuel) == Done(State(s.tape, s.ptr + 1, s.input, s.output))
  {
  }

  /** `Left` fails at cell 0 and otherwise moves one cell down, changing nothing else. */
  lemma LeftEffect(s: State, fuel: nat)
    requires Valid(s)
    ensures s.ptr == 0 ==> Step(Left, s, fuel) == OutOfBounds(Low, s.output)
    ensures s.ptr > 0 ==> Step(Left, s, fuel) == Done(State(s.tape, s.ptr - 1, s.input, s.output))
  {
  }

  /** The tapes agree everywhere except possibly at cell `p`. */
  ghost predicate SameExcept(t: seq<Byte>, u: seq<Byte>, p: nat) {
    |t| == |u| && forall j :: 0 <= j < |t| && j != p ==> t[j] == u[j]
  }

  /** `Increment` adds one to the current cell modulo 256 and changes nothing else. */
  lemma IncrementEffect(s: State, fuel: nat)
    requires Valid(s)
    ensures var r := Step(Increment, s, fuel);
            && r.Done? && r.state.ptr == s.ptr && r.state.input == s.input && r.state.output == s.output
            && SameExcept(r.state.tape, s.tape, s.ptr)
            && r.state.tape[s.ptr] == (s.tape[s.ptr] as int + 1) % 256
  {
  }

  /** `Decrement` subtracts one from the current cell modulo 256 and changes nothing else. */
  lemma DecrementEffect(s: State, fuel: nat)
    requires Valid(s)
    ensures var r := Step(Decrement, s, fuel);
            && r.Done? && r.state.ptr == s.ptr && r.state.input == s.input && r.state.output == s.output
            && SameExcept(r.state.tape, s.tape, s.ptr)
            && r.state.tape[s.ptr] == (s.tape[s.ptr] as int + 255) % 256
  {
  }

  /** `Write` appends the current cell and changes neither the tape nor the pointer. */
  lemma WriteEffect(s: State, fuel: nat)
    requires Valid(s)
    ensures Step(Write, s, fuel) == Done(State(s.tape, s.ptr, s.input, s.output + [CharOf(s.tape[s.ptr])]))
  {
  }

  /** `Read` stores and consumes the next input byte; with input exhausted the state is unchanged. */
  lemma ReadEffect(s: State, fuel: nat)
    requires Valid(s)
    ensures |s.input| == 0 ==> Step(Read, s, fuel) == Done(s)
    ensures |s.input| > 0 ==>
              var r := Step(Read, s, fuel);
              && r.Done? && r.state.ptr == s.ptr && r.state.output == s.output
              && r.state.input == s.input[1..]
              && SameExcept(r.state.tape, s.tape, s.ptr) && r.state.tape[s.ptr] == s.input[0]
  {
  }

  /** `<` undoes `>` wherever `>` does not fall off the tape, and `>` undoes `<` likewise. */
  lemma MovesCancel(s: State, fuel: nat)
    requires Valid(s)
    ensures s.ptr < LastCell ==> Run([Right, Left], s, fuel) == Done(s)
    ensures s.ptr > 0 ==> Run([Left, Right], s, fuel) == Done(s)
  {
    assert [Right, Left][1..] == [Left] && [Left, Right][1..] == [Right];
    if s.ptr < LastCell {
      var t := State(s.tape, s.ptr + 1, s.input, s.output);
      assert Run([Left], t, fuel) == Done(s) by { assert [Left][1..] == []; }
    }
    if s.ptr > 0 {
      var t := State(s.tape, s.ptr - 1, s.input, s.output);
      assert Run([Right], t, fuel) == Done(s) by { assert [Right][1..] == []; }
    }
  }

  /** `-` undoes `+` and `+` undoes `-`, on every cell value. */
  lemma ArithmeticCancels(s: State, fuel: nat)
    requires Valid(s)
    ensures Run([Increment, Decrement], s, fuel) == Done(s)
    ensures Run([Decrement, Increment], s, fuel) == Done(s)
  {
    var p, x: int := s.ptr, s.tape[s.ptr];
    assert [Increment, Decrement][1..] == [Decrement] && [Decrement, Increment][1..] == [Increment];
    assert [Decrement][1..] == [] && [Increment][1..] == [];
    assert ((x + 1) % 256 - 1) % 256 == x && ((x - 1) % 256 + 1) % 256 == x;
    var up := s.(tape := s.tape[p := (x + 1) % 256]);
    var down := s.(tape := s.tape[p := (x - 1) % 256]);
    assert up.tape[p := x] == s.tape && down.tape[p := x] == s.tape;
    assert Run([Decrement], up, fuel) == Done(s);
    assert Run([Increment], down, fuel) == Done(s);
  }

  /** A loop entered on a zero cell never runs its body. */
  lemma LoopOnZeroSkips(body: seq<Instruction>, s: State, fuel: nat)
    requires Valid(s) && s.tape[s.ptr] == 0
    ensures Step(Loop(body), s, fuel) == Done(s)
  {
  }

  // ----- Input is only consumed, output only appended -----

  /** `b` ends with `a`. */
  ghost predicate IsSuffix<T>(a: seq<T>, b: seq<T>) {
    |a| <= |b| && a == b[|b| - |a|..]
  }

  /** `t` continues `s`: it has consumed a prefix of `s`'s input and appended to its output. */
  ghost predicate Continues(s: State, t: State) {
    IsSuffix(t.input, s.input) && s.output <= t.output
  }

  /** What an outcome has written extends what `s` had written, and a finished
      run has consumed a prefix of the input. */
  ghost predicate Extends(s: State, r: Outcome) {
    && (r.Done? ==> Continues(s, r.state))
    && (r.OutOfBounds? ==> s.output <= r.output)
  }

  lemma ContinuesTransitive(s: State, t: State, u: State)
    requires Continues(s, t) && Continues(t, u)
    ensures Continues(s, u)
  {
  }

  lemma {:induction false} RunExtends(program: seq<Instruction>, s: State, fuel: nat)
    requires Valid(s)
    ensures Extends(s, Run(program, s, fuel))
    decreases fuel, program
  {
    if |program| > 0 {
      StepExtends(program[0], s, fuel);
      var r := Step(program[0], s, fuel);
      if r.Done? {
        RunExtends(program[1..], r.state, fuel);
        var r' := Run(program[1..], r.state, fuel);
        if r'.Done? {
          ContinuesTransitive(s, r.state, r'.state);
        }
      }
    }
  }

  lemma {:induction false} StepExtends(x: Instruction, s: State, fuel: nat)
    requires Valid(s)
    ensures Extends(s, Step(x, s, fuel))
    decreases fuel, x
  {
    if x.Loop? {
      LoopExtends(x.body, s, fuel);
    } else if x == Read && |s.input| > 0 {
      assert s.input[1..] == s.input[|s.input| - |s.input[1..]|..];
    } else {
      assert s.input == s.input[|s.input| - |s.input|..];
    }
  }

  lemma {:induction false} LoopExtends(body: seq<Instruction>, s: State, fuel: nat)
    requires Valid(s)
    ensures Extends(s, RunLoop(body, s, fuel))
    decreases fuel, body
  {
    if s.tape[s.ptr] == 0 {
      assert s.input == s.input[|s.input| - |s.input|..];
    } else if fuel > 0 {
      RunExtends(body, s, fuel - 1);
      var r := Run(body, s, fuel - 1);
      if r.Done? {
        LoopExtends(body, r.state, fuel - 1);
        var r' := RunLoop(body, r.state, fuel - 1);
        if r'.Done? {
          ContinuesTransitive(s, r.state, r'.state);
        }
      }
    }
  }

  // ----- Composition -----

  /** Runs `rest` after an outcome, passing failures through. */
  function Then(o: Outcome, rest: seq<Instruction>, fuel: nat): Outcome
    requires o.Done? ==> Valid(o.state)
  {
    match o
    case Done(s) => Run(rest, s, fuel)
    case _ => o
  }

  /** Running `a + b` is running `a` and then, if it finished, `b`. */
  lemma {:induction false} RunAppend(a: seq<Instruction>, b: seq<Instruction>, s: State, fuel: nat)
    requires Valid(s)
    ensures Run(a + b, s, fuel) == Then(Run(a, s, fuel), b, fuel)
    decreases |a|
  {
    if |a| == 0 {
      assert a + b == b;
    } else {
      assert (a + b)[0] == a[0] && (a + b)[1..] == a[1..] + b;
      match Step(a[0], s, fuel)
      case Done(s') => RunAppend(a[1..], b, s', fuel);
      case _ =>
    }
  }

  // ----- Fuel is only a bound -----

  /** An outcome reached with some fuel is reached unchanged with more. */
  lemma {:induction false} RunMoreFuel(program: seq<Instruction>, s: State, fuel: nat, more: nat)
    requires Valid(s) && fuel <= more && !Run(program, s, fuel).OutOfFuel?
    ensures Run(program, s, more) == Run(program, s, fuel)
    decreases fuel, program
  {
    if |program| > 0 {
      StepMoreFuel(program[0], s, fuel, more);
      match Step(program[0], s, fuel)
      case Done(s') => RunMoreFuel(program[1..], s', fuel, more);
      case _ =>
    }
  }

  lemma {:induction false} StepMoreFuel(x: Instruction, s: State, fuel: nat, more: nat)
    requires Valid(s) && fuel <= more && !Step(x, s, fuel).OutOfFuel?
    ensures Step(x, s, more) == Step(x, s, fuel)
    decreases fuel, x
  {
    if x.Loop? {
      LoopMoreFuel(x.body, s, fuel, more);
    }
  }

  lemma {:induction false} LoopMoreFuel(body: seq<Instruction>, s: State, fuel: nat, more: nat)
    requires Valid(s) && fuel <= more && !RunLoop(body, s, fuel).OutOfFuel?
    ensures RunLoop(body, s, more) == RunLoop(body, s, fuel)
    decreases fuel, body
  {
    if s.tape[s.ptr] != 0 {
      assert fuel > 0;
      var r := Run(body, s, fuel - 1);
      assert !r.OutOfFuel?;
      RunMoreFuel(body, s, fuel - 1, more - 1);
      assert Run(body, s, more - 1) == r;
      if r.Done? {
        assert RunLoop(body, s, fuel) == RunLoop(body, r.state, fuel - 1);
        assert RunLoop(body, s, more) == RunLoop(body, r.state, more - 1);
        LoopMoreFuel(body, r.state, fuel - 1, more - 1);
      } else {
        assert RunLoop(body, s, fuel) == r;
        assert RunLoop(body, s, more) == r;
      }
    }
  }

  // ----- Repetition, wrap-around and the tape edges -----

  /** `n` copies of one instruction. */
  function Repeat(x: Instruction, n: nat): seq<Instruction>
  {
    if n == 0 then [] else [x] + Repeat(x, n - 1)
  }

  /** `n` increments add `n` to the current cell modulo 256 and change nothing else. */
  lemma {:induction false} Increments(n: nat, s: State, fuel: nat)
    requires Valid(s)
    ensures var r := Run(Repeat(Increment, n), s, fuel);
            && r.Done? && r.state.ptr == s.ptr && r.state.input == s.input && r.state.output == s.output
            && SameExcept(r.state.tape, s.tape, s.ptr)
            && r.state.tape[s.ptr] == (s.tape[s.ptr] + n) % 256
  {
    if n > 0 {
      IncrementEffect(s, fuel);
      var s' := Step(Increment, s, fuel).state;
      assert Run(Repeat(Increment, n), s, fuel) == Run(Repeat(Increment, n - 1), s', fuel);
      Increments(n - 1, s', fuel);
      SameExceptTransitive(Run(Repeat(Increment, n - 1), s', fuel).state.tape, s'.tape, s.tape, s.ptr);
      AddOneThenRest(s.tape[s.ptr], n);
    }
  }

  lemma SameExceptTransitive(t: seq<Byte>, u: seq<Byte>, v: seq<Byte>, p: nat)
    requires SameExcept(t, u, p) && SameExcept(u, v, p)
    ensures SameExcept(t, v, p)
  {
  }

  lemma AddOneThenRest(v: int, n: nat)
    requires n > 0
    ensures ((v + 1) % 256 + (n - 1)) % 256 == (v + n) % 256
  {
  }

  /** Any multiple of 256 consecutive increments leaves the state unchanged. */
  lemma IncrementsWrap(k: nat, s: State, fuel: nat)
    requires Valid(s)
    ensures Run(Repeat(Increment, 256 * k), s, fuel) == Done(s)
  {
    Increments(256 * k, s, fuel);
    var t := Run(Repeat(Increment, 256 * k), s, fuel).state;
    assert (s.tape[s.ptr] + 256 * k) % 256 == s.tape[s.ptr];
    assert t.tape == s.tape;
  }

  /** `n` moves right reach cell `ptr + n` if it is on the tape and fail at the top edge otherwise. */
  lemma {:induction false} MovesRight(n: nat, s: State, fuel: nat)
    requires Valid(s)
    ensures s.ptr + n <= LastCell ==> Run(Repeat(Right, n), s, fuel) == Done(s.(ptr := s.ptr + n))
    ensures s.ptr + n > LastCell ==> Run(Repeat(Right, n), s, fuel) == OutOfBounds(High, s.output)
  {
    if n > 0 {
      if s.ptr < LastCell {
        MovesRight(n - 1, s.(ptr := s.ptr + 1), fuel);
      }
    }
  }

  /** From a fresh tape, 29999 moves right reach the last cell and one more is fatal; a first move left is fatal. */
  lemma TapeEdges(input: seq<Byte>, fuel: nat, rest: seq<Instruction>)
    ensures Run(Repeat(Right, LastCell), Initial(input), fuel) == Done(Initial(input).(ptr := LastCell))
    ensures Run(Repeat(Right, TapeLength), Initial(input), fuel) == OutOfBounds(High, [])
    ensures Run([Left] + rest, Initial(input), fuel) == OutOfBounds(Low, [])
  {
    MovesRight(LastCell, Initial(input), fuel);
    MovesRight(TapeLength, Initial(input), fuel);
    assert ([Left] + rest)[0] == Left;
  }

  /** `[-]` on a cell holding `v` runs its body exactly `v` times: it needs `v`
      units of fuel and then leaves the cell at 0 with nothing else changed. */
  lemma {:induction false} CountDown(s: State, fuel: nat)
    requires Valid(s)
    ensures var r := RunLoop([Decrement], s, fuel);
            && (r.Done? <==> fuel >= s.tape[s.ptr])
            && (r.Done? ==> r.state == s.(tape := s.tape[s.ptr := 0]))
            && (!r.Done? ==> r.OutOfFuel?)
    decreases fuel
  {
    var v := s.tape[s.ptr];
    if v != 0 && fuel > 0 {
      var s' := s.(tape := s.tape[s.ptr := v - 1]);
      assert Run([Decrement], s, fuel - 1) == Done(s');
      CountDown(s', fuel - 1);
      assert s'.(tape := s'.tape[s.ptr := 0]) == s.(tape := s.tape[s.ptr := 0]);
    }
  }
}
