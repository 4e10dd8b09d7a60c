/**
 * The parser: a single left-to-right scan with a bracket-depth counter. Each
 * outermost matched pair of brackets becomes one Loop whose body is the
 * recursive parse of the tokens strictly between the two brackets. An
 * unmatched bracket is an error that reports a token index.
 */
module Parser {
  import opened Results
  import opened Tokenizer

  datatype Instruction = Right | Left | Increment | Decrement | Write | Read | Loop(body: seq<Instruction>)

  /** The two ways a parse fails, each with the index of the offending token. */
  datatype ParseError =
    | UnmatchedEnd(index: nat)    // a LoopEnd met at depth 0
    | UnmatchedStart(index: nat)  // the last LoopStart opened at depth 0 is never closed

  predicate IsBracket(t: Token) {
    t == LoopStart || t == LoopEnd
  }

  /** The instruction a non-bracket token stands for. */
  function Emit(t: Token): (x: Instruction)
    requires !IsBracket(t)
    ensures !x.Loop? && FlattenOne(x) == [t]
  {
    match t
    case Right => Instruction.Right
    case Left => Instruction.Left
    case Increment => Instruction.Increment
    case Decrement => Instruction.Decrement
    case Write => Instruction.Write
    case Read => Instruction.Read
  }

  /** The tokens an instruction tree is read back as: a Loop becomes its body between brackets. */
  function FlattenOne(x: Instruction): seq<Token>
  {
    match x
    case Right => [Token.Right]
    case Left => [Token.Left]
    case Increment => [Token.Increment]
    case Decrement => [Token.Decrement]
    case Write => [Token.Write]
    case Read => [Token.Read]
    case Loop(body) => [LoopStart] + Flatten(body) + [LoopEnd]
  }

  function Flatten(program: seq<Instruction>): seq<Token>
  {
    if |program| == 0 then [] else FlattenOne(program[0]) + Flatten(program[1..])
  }

  function Parse(tokens: seq<Token>): Result<seq<Instruction>, ParseError>
    decreases |tokens|, 1
  {
    Scan(tokens, 0, [], 0, 0)
  }

  /**
   * One step of the scan at token index `i`. `done` holds the instructions
   * emitted so far, `depth` is the bracket-depth counter and `start` the index
   * of the LoopStart that opened the current outermost loop.
   */
  function Scan(tokens: seq<Token>, i: nat, done: seq<Instruction>, depth: nat, start: nat)
    : Result<seq<Instruction>, ParseError>
    requires i <= |tokens|
    requires depth > 0 ==> start < i
    decreases |tokens|, 0, |tokens| - i
  {
    if i == |tokens| then
      if depth != 0 then Err(UnmatchedStart(start)) else Ok(done)
    else if depth == 0 then
      match tokens[i]
      case LoopStart => Scan(tokens, i + 1, done, 1, i)
      case LoopEnd => Err(UnmatchedEnd(i))
      case _ => Scan(tokens, i + 1, done + [Emit(tokens[i])], 0, start)
    else
      match tokens[i]
      case LoopStart => Scan(tokens, i + 1, done, depth + 1, start)
      case LoopEnd =>
        if depth == 1 then
          match Parse(tokens[start + 1..i])
          case Ok(body) => Scan(tokens, i + 1, done + [Loop(body)], 0, start)
          case Err(e) => Err(e)
        else
          Scan(tokens, i + 1, done, depth - 1, start)
      case _ => Scan(tokens, i + 1, done, depth, start)
  }

  // ----- Bracket depth -----

  function Delta(t: Token): int {
    if t == LoopStart then 1 else if t == LoopEnd then -1 else 0
  }

  /** The number of LoopStart tokens minus the number of LoopEnd tokens. */
  function Depth(tokens: seq<Token>): int
  {
    if |tokens| == 0 then 0 else Depth(tokens[..|tokens| - 1]) + Delta(tokens[|tokens| - 1])
  }

  /** No prefix closes more brackets than it opens. */
  ghost predicate NeverBelowZero(tokens: seq<Token>) {
    forall k :: 0 <= k <= |tokens| ==> Depth(tokens[..k]) >= 0
  }

  /** Every prefix has at least as many `[` as `]`, and the totals are equal. */
  ghost predicate Balanced(tokens: seq<Token>) {
    NeverBelowZero(tokens) && Depth(tokens) == 0
  }

  /** Token `i` is the first at which more brackets have been closed than opened. */
  ghost predicate FirstUnderflow(tokens: seq<Token>, i: int) {
    && 0 <= i < |tokens|
    && Depth(tokens[..i + 1]) < 0
    && forall k :: 0 <= k <= i ==> Depth(tokens[..k]) >= 0
  }

  /** No prefix underflows, some bracket stays open, and token `j` is the last
      LoopStart met at depth 0: everything after it stays nested inside it. */
  ghost predicate LastOuterOpen(tokens: seq<Token>, j: int) {
    && NeverBelowZero(tokens)
    && 0 <= j < |tokens|
    && tokens[j] == LoopStart
    && Depth(tokens[..j]) == 0
    && forall k :: j < k <= |tokens| ==> Depth(tokens[..k]) > 0
  }

  lemma DepthStep(tokens: seq<Token>, i: nat)
    requires i < |tokens|
    ensures Depth(tokens[..i + 1]) == Depth(tokens[..i]) + Delta(tokens[i])
  {
    assert tokens[..i + 1][..i] == tokens[..i];
  }

  lemma {:induction false} DepthAppend(a: seq<Token>, b: seq<Token>)
    ensures Depth(a + b) == Depth(a) + Depth(b)
    decreases |b|
  {
    if |b| == 0 {
      assert a + b == a;
    } else {
      var b' := b[..|b| - 1];
      assert (a + b)[..|a + b| - 1] == a + b';
      DepthAppend(a, b');
    }
  }

  lemma {:induction false} FlattenAppend(p: seq<Instruction>, q: seq<Instruction>)
    ensures Flatten(p + q) == Flatten(p) + Flatten(q)
  {
    if |p| == 0 {
      assert p + q == q;
    } else {
      assert (p + q)[1..] == p[1..] + q;
      FlattenAppend(p[1..], q);
    }
  }
}
