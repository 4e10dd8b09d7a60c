/**
 * The `eval` pipeline: tokenize the code, parse the tokens, run the program on a
 * fresh tape with the pointer at cell 0.
 */

module Pipeline {
  import Tokenizer
  import opened Results
  import opened Parser
  import opened ParserFacts
  import opened Interpreter
  import opened InterpreterFacts

  /** What evaluating a piece of code comes to: the parser rejects it (the source
      panics with the error's message), or the program runs to an outcome. */
  datatype Verdict = SyntaxError(error: ParseError) | Ran(outcome: Outcome)

  /** Tokenize, parse and run `code` from the machine state `s`. */
  function Execute(code: string, s: State, fuel: nat): (v: Verdict)
    requires Valid(s)
    ensures v.Ran? && v.outcome.Done? ==> Valid(v.outcome.state)
  {
    match Parse(Tokenizer.Tokenize(code))
    case Err(e) => SyntaxError(e)
    case Ok(program) => Ran(Run(program, s, fuel))
  }

  /** `eval`: execute `code` on a zeroed tape, pointer 0, with `input` as standard input. */
  function Eval(code: string, input: seq<Byte>, fuel: nat): (v: Verdict)
    ensures v.Ran? && v.outcome.Done? ==> Valid(v.outcome.state)
  {
    Execute(code, Initial(input), fuel)
  }

  /** Code is rejected exactly when its brackets do not balance, and the error
      names the first unmatched `]` or the last unclosed outer `[`. */
  lemma EvalSyntax(code: string, input: seq<Byte>, fuel: nat)
    ensures Eval(code, input, fuel).SyntaxError? <==> !Balanced(Tokenizer.Tokenize(code))
    ensures forall i: nat :: Eval(code, input, fuel) == SyntaxError(UnmatchedEnd(i)) <==>
              FirstUnderflow(Tokenizer.Tokenize(code), i)
    ensures forall j: nat :: Eval(code, input, fuel) == SyntaxError(UnmatchedStart(j)) <==>
              LastOuterOpen(Tokenizer.Tokenize(code), j)
  {
    var tokens := Tokenizer.Tokenize(code);
    ParseVerdict(tokens);
    ParseErrors(tokens);
  }

  /** Characters other than the eight commands are comments: removing them changes nothing. */
  lemma CommentsAreIgnored(code: string, s: State, fuel: nat)
    requires Valid(s)
    ensures Execute(Tokenizer.StripComments(code), s, fuel) == Execute(code, s, fuel)
  {
    Tokenizer.TokensSpellSource(code);
    Tokenizer.TokenizeSpellAll(Tokenizer.Tokenize(code));
  }

  /** Code without any command characters evaluates to the untouched initial state. */
  lemma EvalOfComment(code: string, input: seq<Byte>, fuel: nat)
    requires forall k :: 0 <= k < |code| ==> !Tokenizer.IsCommand(code[k])
    ensures Eval(code, input, fuel) == Ran(Done(Initial(input)))
  {
    Tokenizer.TokenCount(code);
  }

  /** Executes `next` after a verdict whose program finished; any other verdict stands. */
  function AndThen(v: Verdict, next: string, fuel: nat): Verdict
    requires v.Ran? && v.outcome.Done? ==> Valid(v.outcome.state)
  {
    if v.Ran? && v.outcome.Done? then Execute(next, v.outcome.state, fuel) else v
  }

  /** Executing two well-bracketed pieces of code one after the other is executing
      their concatenation: the second starts from the state the first left. */
  lemma {:induction false} ExecuteAppend(a: string, b: string, s: State, fuel: nat)
    requires Valid(s)
    requires Balanced(Tokenizer.Tokenize(a)) && Balanced(Tokenizer.Tokenize(b))
    ensures Execute(a + b, s, fuel) == AndThen(Execute(a, s, fuel), b, fuel)
  {
    var ta, tb := Tokenizer.Tokenize(a), Tokenizer.Tokenize(b);
    Tokenizer.TokenizeAppend(a, b);
    ParseVerdict(ta);
    ParseVerdict(tb);
    ParseAppend(ta, tb);
    RunAppend(Parse(ta).value, Parse(tb).value, s, fuel);
  }
}
