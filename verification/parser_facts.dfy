/**
 * What the parser computes: it succeeds exactly on balanced token sequences,
 * its tree reads back as the input tokens, it is the inverse of Flatten, and
 * its two errors point at the first underflowing LoopEnd and at the last
 * LoopStart opened at depth 0.
 */
module ParserFacts {
  import opened Results
  import opened Tokenizer
  import opened Parser

  /** The loop invariant of the scan at index `i`. */
  ghost predicate ScanInv(tokens: seq<Token>, i: nat, done: seq<Instruction>, depth: nat, start: nat) {
    && i <= |tokens|
    && (forall k :: 0 <= k <= i ==> Depth(tokens[..k]) >= 0)
    && depth == Depth(tokens[..i])
    && (depth == 0 ==> Flatten(done) == tokens[..i])
    && (depth > 0 ==>
          && start < i
          && tokens[start] == LoopStart
          && Depth(tokens[..start]) == 0
          && Flatten(done) == tokens[..start]
          && forall k :: start < k <= i ==> Depth(tokens[..k]) > 0)
  }

  /** The verdict of a scan or parse, stated against the whole token sequence. */
  ghost predicate Verdict(tokens: seq<Token>, r: Result<seq<Instruction>, ParseError>) {
    && (r.Ok? <==> Balanced(tokens))
    && (r.Ok? ==> Flatten(r.value) == tokens)
    && (r.Err? && r.error.UnmatchedEnd? ==> FirstUnderflow(tokens, r.error.index))
    && (r.Err? && r.error.UnmatchedStart? ==> LastOuterOpen(tokens, r.error.index))
  }

  /** The tokens strictly between an outermost pair of brackets are balanced. */
  lemma InnerBalanced(tokens: seq<Token>, start: nat, i: nat)
    requires start < i < |tokens|
    requires tokens[start] == LoopStart && Depth(tokens[..start]) == 0
    requires forall k :: start < k <= i ==> Depth(tokens[..k]) > 0
    requires Depth(tokens[..i]) == 1
    ensures Balanced(tokens[start + 1..i])
  {
    var inner := tokens[start + 1..i];
    DepthStep(tokens, start);
    forall m | 0 <= m <= |inner|
      ensures Depth(inner[..m]) == Depth(tokens[..start + 1 + m]) - 1
    {
      assert inner[..m] == tokens[start + 1..start + 1 + m];
      assert tokens[..start + 1 + m] == tokens[..start + 1] + tokens[start + 1..start + 1 + m];
      DepthAppend(tokens[..start + 1], inner[..m]);
    }
    assert inner[..|inner|] == inner;
  }

  // ----- The scan invariant is kept by every step -----

  lemma ScanAtEnd(tokens: seq<Token>, i: nat, done: seq<Instruction>, depth: nat, start: nat)
    requires ScanInv(tokens, i, done, depth, start) && i == |tokens|
    ensures Verdict(tokens, Scan(tokens, i, done, depth, start))
  {
    assert tokens[..i] == tokens;
  }

  lemma ScanUnderflow(tokens: seq<Token>, i: nat, done: seq<Instruction>, start: nat)
    requires ScanInv(tokens, i, done, 0, start) && i < |tokens| && tokens[i] == LoopEnd
    ensures FirstUnderflow(tokens, i) && !Balanced(tokens)
  {
    DepthStep(tokens, i);
  }

  lemma KeepOpen(tokens: seq<Token>, i: nat, done: seq<Instruction>, start: nat)
    requires ScanInv(tokens, i, done, 0, start) && i < |tokens| && tokens[i] == LoopStart
    ensures ScanInv(tokens, i + 1, done, 1, i)
  {
    DepthStep(tokens, i);
  }

  lemma KeepEmit(tokens: seq<Token>, i: nat, done: seq<Instruction>, start: nat)
    requires ScanInv(tokens, i, done, 0, start) && i < |tokens| && !IsBracket(tokens[i])
    ensures ScanInv(tokens, i + 1, done + [Emit(tokens[i])], 0, start)
  {
    DepthStep(tokens, i);
    FlattenAppend(done, [Emit(tokens[i])]);
    assert tokens[..i + 1] == tokens[..i] + [tokens[i]];
  }

  lemma KeepNested(tokens: seq<Token>, i: nat, done: seq<Instruction>, depth: nat, start: nat)
    requires ScanInv(tokens, i, done, depth, start) && i < |tokens| && depth > 0
    requires tokens[i] != LoopEnd || depth > 1
    ensures ScanInv(tokens, i + 1, done, depth + Delta(tokens[i]), start)
  {
    DepthStep(tokens, i);
  }

  /** Closing the outer loop extends the flattened prefix by the whole bracketed pair. */
  lemma ClosedPrefix(tokens: seq<Token>, i: nat, done: seq<Instruction>, start: nat, body: seq<Instruction>)
    requires start < i < |tokens| && tokens[start] == LoopStart && tokens[i] == LoopEnd
    requires Flatten(done) == tokens[..start] && Flatten(body) == tokens[start + 1..i]
    ensures Flatten(done + [Loop(body)]) == tokens[..i + 1]
  {
    FlattenAppend(done, [Loop(body)]);
    assert Flatten([Loop(body)]) == [LoopStart] + tokens[start + 1..i] + [LoopEnd];
    assert tokens[..i + 1] == tokens[..start] + [LoopStart] + tokens[start + 1..i] + [LoopEnd] by {
      assert tokens[..i + 1] == tokens[..i] + [tokens[i]];
      assert tokens[..i] == tokens[..start] + [tokens[start]] + tokens[start + 1..i];
    }
  }

  lemma KeepClose(tokens: seq<Token>, i: nat, done: seq<Instruction>, start: nat, body: seq<Instruction>)
    requires ScanInv(tokens, i, done, 1, start) && i < |tokens| && tokens[i] == LoopEnd
    requires Flatten(body) == tokens[start + 1..i]
    ensures ScanInv(tokens, i + 1, done + [Loop(body)], 0, start)
  {
    DepthStep(tokens, i);
    ClosedPrefix(tokens, i, done, start, body);
  }

  lemma {:induction false} ScanVerdict(tokens: seq<Token>, i: nat, done: seq<Instruction>, depth: nat, start: nat)
    requires ScanInv(tokens, i, done, depth, start)
    ensures Verdict(tokens, Scan(tokens, i, done, depth, start))
    decreases |tokens|, 0, |tokens| - i, 1
  {
    if i == |tokens| {
      ScanAtEnd(tokens, i, done, depth, start);
    } else if depth == 0 {
      if tokens[i] == LoopStart {
        KeepOpen(tokens, i, done, start);
        ScanVerdict(tokens, i + 1, done, 1, i);
      } else if tokens[i] == LoopEnd {
        ScanUnderflow(tokens, i, done, start);
      } else {
        KeepEmit(tokens, i, done, start);
        ScanVerdict(tokens, i + 1, done + [Emit(tokens[i])], 0, start);
      }
    } else if tokens[i] == LoopEnd && depth == 1 {
      CloseVerdict(tokens, i, done, start);
    } else {
      KeepNested(tokens, i, done, depth, start);
      ScanVerdict(tokens, i + 1, done, depth + Delta(tokens[i]), start);
    }
  }

  /** The scan step that closes an outermost loop: the inner parse succeeds and the scan goes on. */
  lemma {:induction false} CloseVerdict(tokens: seq<Token>, i: nat, done: seq<Instruction>, start: nat)
    requires ScanInv(tokens, i, done, 1, start) && i < |tokens| && tokens[i] == LoopEnd
    ensures Verdict(tokens, Scan(tokens, i, done, 1, start))
    decreases |tokens|, 0, |tokens| - i, 0
  {
    var inner := tokens[start + 1..i];
    InnerBalanced(tokens, start, i);
    ParseVerdict(inner);
    var body := Parse(inner).value;
    KeepClose(tokens, i, done, start, body);
    ScanVerdict(tokens, i + 1, done + [Loop(body)], 0, start);
    assert Scan(tokens, i, done, 1, start) == Scan(tokens, i + 1, done + [Loop(body)], 0, start);
  }

  /** Parse succeeds exactly on balanced tokens, reads back as its input, and
      each error names the token the source's message names. */
  lemma {:induction false} ParseVerdict(tokens: seq<Token>)
    ensures Parse(tokens).Ok? <==> Balanced(tokens)
    ensures Parse(tokens).Ok? ==> Flatten(Parse(tokens).value) == tokens
    ensures Parse(tokens).Err? && Parse(tokens).error.UnmatchedEnd? ==> FirstUnderflow(tokens, Parse(tokens).error.index)
    ensures Parse(tokens).Err? && Parse(tokens).error.UnmatchedStart? ==> LastOuterOpen(tokens, Parse(tokens).error.index)
    decreases |tokens|, 1, 0, 0
  {
    assert tokens[..0] == [];
    ScanVerdict(tokens, 0, [], 0, 0);
  }

  // ----- Error reports -----

  lemma FirstUnderflowUnique(tokens: seq<Token>, i: int, i': int)
    requires FirstUnderflow(tokens, i) && FirstUnderflow(tokens, i')
    ensures i == i'
  {
  }

  lemma LastOuterOpenUnique(tokens: seq<Token>, j: int, j': int)
    requires LastOuterOpen(tokens, j) && LastOuterOpen(tokens, j')
    ensures j == j'
  {
  }

  /** A LoopEnd at depth 0 is reported with its own index exactly when it is the
      first token where the brackets underflow; the unmatched-start error names
      the last LoopStart opened at depth 0, exactly when no prefix underflows
      and some bracket is left open. */
  lemma ParseErrors(tokens: seq<Token>)
    ensures forall i: nat :: Parse(tokens) == Err(UnmatchedEnd(i)) <==> FirstUnderflow(tokens, i)
    ensures forall j: nat :: Parse(tokens) == Err(UnmatchedStart(j)) <==> LastOuterOpen(tokens, j)
    ensures forall i: nat :: Parse(tokens) == Err(UnmatchedEnd(i)) ==>
              i < |tokens| && tokens[i] == LoopEnd && Depth(tokens[..i]) == 0
    ensures forall j: nat :: Parse(tokens) == Err(UnmatchedStart(j)) ==>
              j < |tokens| && tokens[j] == LoopStart && Depth(tokens) > 0
  {
    ParseVerdict(tokens);
    var r := Parse(tokens);
    forall i | FirstUnderflow(tokens, i)
      ensures r == Err(UnmatchedEnd(i))
    {
      assert Depth(tokens[..i + 1]) < 0;
      assert !NeverBelowZero(tokens);
      if r.error.UnmatchedEnd? {
        FirstUnderflowUnique(tokens, i, r.error.index);
      }
    }
    forall j | LastOuterOpen(tokens, j)
      ensures r == Err(UnmatchedStart(j))
    {
      assert tokens[..|tokens|] == tokens;
      if r.error.UnmatchedStart? {
        LastOuterOpenUnique(tokens, j, r.error.index);
      }
    }
    if r.Err? && r.error.UnmatchedEnd? {
      DepthStep(tokens, r.error.index);
    }
    if r.Err? && r.error.UnmatchedStart? {
      assert tokens[..|tokens|] == tokens;
    }
  }

  // ----- Flatten produces balanced tokens, and only from one tree -----

  lemma BalancedAppend(a: seq<Token>, b: seq<Token>)
    requires Balanced(a) && Balanced(b)
    ensures Balanced(a + b)
  {
    DepthAppend(a, b);
    forall k | 0 <= k <= |a + b|
      ensures Depth((a + b)[..k]) >= 0
    {
      if k <= |a| {
        assert (a + b)[..k] == a[..k];
      } else {
        assert (a + b)[..k] == a + b[..k - |a|];
        DepthAppend(a, b[..k - |a|]);
      }
    }
  }

  /** Wrapping balanced tokens in brackets keeps them balanced, and every proper
      non-empty prefix of the wrapped tokens stays strictly above depth 0. */
  lemma BalancedWrap(x: seq<Token>)
    requires Balanced(x)
    ensures Balanced([LoopStart] + x + [LoopEnd])
    ensures forall k :: 1 <= k <= |x| + 1 ==> Depth(([LoopStart] + x + [LoopEnd])[..k]) > 0
  {
    var w := [LoopStart] + x + [LoopEnd];
    forall k | 1 <= k <= |x| + 1
      ensures Depth(w[..k]) > 0
    {
      assert w[..k] == [LoopStart] + x[..k - 1];
      DepthAppend([LoopStart], x[..k - 1]);
      assert Depth([LoopStart]) == 1;
    }
    assert w == ([LoopStart] + x) + [LoopEnd];
    DepthAppend([LoopStart] + x, [LoopEnd]);
    DepthAppend([LoopStart], x);
    assert Depth([LoopStart]) == 1 && Depth([LoopEnd]) == -1;
    assert w[..0] == [] && w[..|w|] == w;
  }

  lemma {:induction false} FlattenBalanced(program: seq<Instruction>)
    ensures Balanced(Flatten(program))
    decreases program
  {
    if |program| == 0 {
      assert Flatten(program) == [];
      assert Flatten(program)[..0] == [];
    } else {
      FlattenOneBalanced(program[0]);
      FlattenBalanced(program[1..]);
      BalancedAppend(FlattenOne(program[0]), Flatten(program[1..]));
    }
  }

  lemma {:induction false} FlattenOneBalanced(x: Instruction)
    ensures Balanced(FlattenOne(x))
    ensures |FlattenOne(x)| >= 1
    decreases x
  {
    if x.Loop? {
      FlattenBalanced(x.body);
      BalancedWrap(Flatten(x.body));
    } else {
      var t := FlattenOne(x);
      assert |t| == 1 && !IsBracket(t[0]);
      assert t[..0] == [] && t[..1] == t;
      assert Depth(t) == Depth(t[..0]) + Delta(t[0]);
    }
  }

  /** Two trees that read back as the same tokens are the same tree. */
  lemma {:induction false} FlattenInjective(p: seq<Instruction>, q: seq<Instruction>)
    requires Flatten(p) == Flatten(q)
    ensures p == q
    decreases |Flatten(p)|, 1
  {
    if |p| == 0 || |q| == 0 {
      if |p| > 0 { FlattenOneBalanced(p[0]); }
      if |q| > 0 { FlattenOneBalanced(q[0]); }
    } else {
      var t := Flatten(p);
      FlattenOneBalanced(p[0]);
      FlattenOneBalanced(q[0]);
      FlattenBalanced(p[1..]);
      FlattenBalanced(q[1..]);
      var n := |FlattenOne(p[0])|;
      var m := |FlattenOne(q[0])|;
      FirstTreeLength(p[0], q[0], Flatten(p[1..]), Flatten(q[1..]));
      assert FlattenOne(p[0]) == t[..n] == FlattenOne(q[0]);
      assert Flatten(p[1..]) == t[n..] == Flatten(q[1..]);
      FlattenOneInjective(p[0], q[0]);
      FlattenInjective(p[1..], q[1..]);
      assert p == [p[0]] + p[1..] && q == [q[0]] + q[1..];
    }
  }

  /** When two instruction trees head the same token stream, they read back as the same number of tokens. */
  lemma FirstTreeLength(x: Instruction, y: Instruction, a: seq<Token>, b: seq<Token>)
    requires FlattenOne(x) + a == FlattenOne(y) + b
    ensures |FlattenOne(x)| == |FlattenOne(y)|
  {
    var fx, fy := FlattenOne(x), FlattenOne(y);
    FlattenOneBalanced(x);
    FlattenOneBalanced(y);
    assert (fx + a)[0] == fx[0] && (fy + b)[0] == fy[0];
    if x.Loop? && y.Loop? {
      LoopsSameLength(x.body, y.body, a, b);
    }
  }

  /** Two loops at the head of one token stream close at the same `]`. */
  lemma LoopsSameLength(p: seq<Instruction>, q: seq<Instruction>, a: seq<Token>, b: seq<Token>)
    requires FlattenOne(Loop(p)) + a == FlattenOne(Loop(q)) + b
    ensures |FlattenOne(Loop(p))| == |FlattenOne(Loop(q))|
  {
    var fx, fy := FlattenOne(Loop(p)), FlattenOne(Loop(q));
    FlattenBalanced(p);
    FlattenBalanced(q);
    BalancedWrap(Flatten(p));
    BalancedWrap(Flatten(q));
    CommonPrefix(fx, fy, a, b);
    CommonPrefix(fy, fx, b, a);
    assert fx[..|fx|] == fx && fy[..|fy|] == fy;
  }

  /** Of two ways to split one token stream, the shorter head is a prefix of the longer. */
  lemma CommonPrefix(u: seq<Token>, v: seq<Token>, a: seq<Token>, b: seq<Token>)
    requires u + a == v + b
    ensures |u| <= |v| ==> v[..|u|] == u
  {
    if |u| <= |v| {
      assert v[..|u|] == (v + b)[..|u|];
      assert (u + a)[..|u|] == u;
    }
  }

  lemma {:induction false} FlattenOneInjective(x: Instruction, y: Instruction)
    requires FlattenOne(x) == FlattenOne(y)
    ensures x == y
    decreases |FlattenOne(x)|, 0
  {
    if x.Loop? {
      var fx := FlattenOne(x);
      assert fx[1..|fx| - 1] == Flatten(x.body);
      assert fx[1..|fx| - 1] == Flatten(y.body);
      FlattenInjective(x.body, y.body);
    }
  }

  /** Parse is the inverse of Flatten: every instruction tree is parsed back from its tokens. */
  lemma ParseFlatten(program: seq<Instruction>)
    ensures Parse(Flatten(program)) == Ok(program)
  {
    FlattenBalanced(program);
    ParseVerdict(Flatten(program));
    FlattenInjective(Parse(Flatten(program)).value, program);
  }

  /** Parsing distributes over concatenation of parseable token sequences. */
  lemma ParseAppend(a: seq<Token>, b: seq<Token>)
    requires Parse(a).Ok? && Parse(b).Ok?
    ensures Parse(a + b) == Ok(Parse(a).value + Parse(b).value)
  {
    ParseVerdict(a);
    ParseVerdict(b);
    FlattenAppend(Parse(a).value, Parse(b).value);
    ParseFlatten(Parse(a).value + Parse(b).value);
  }

  /** Each Loop of a parsed program sits between its own pair of brackets, and
      its body is the parse of exactly the tokens strictly between them. */
  lemma ParseLoopBody(tokens: seq<Token>, k: nat)
    requires Parse(tokens).Ok? && k < |Parse(tokens).value| && Parse(tokens).value[k].Loop?
    ensures var p := Parse(tokens).value;
            var inner := Flatten(p[k].body);
            && tokens == Flatten(p[..k]) + [LoopStart] + inner + [LoopEnd] + Flatten(p[k + 1..])
            && Parse(inner) == Ok(p[k].body)
  {
    var p := Parse(tokens).value;
    ParseVerdict(tokens);
    assert p == p[..k] + [p[k]] + p[k + 1..];
    FlattenAppend(p[..k] + [p[k]], p[k + 1..]);
    FlattenAppend(p[..k], [p[k]]);
    ParseFlatten(p[k].body);
  }
}
