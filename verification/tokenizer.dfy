/**
 * The tokenizer: a character filter that turns each of the eight command
 * characters into a token and drops every other character (comments).
 * Tokens carry no source positions.
 */
module Tokenizer {
  import opened Results

  datatype Token = Right | Left | Increment | Decrement | Write | Read | LoopStart | LoopEnd

  /** The eight command characters. */
  const CommandChars: string := "><+-.,[]"

  predicate IsCommand(c: char) {
    c in CommandChars
  }

  /** The token a single source character stands for; comment characters stand for none. */
  function TokenOf(c: char): (t: Option<Token>)
    ensures t.Some? <==> IsCommand(c)
    ensures t.Some? ==> Spell(t.value) == c
  {
    match c
    case '>' => Some(Right)
    case '<' => Some(Left)
    case '+' => Some(Increment)
    case '-' => Some(Decrement)
    case '.' => Some(Write)
    case ',' => Some(Read)
    case '[' => Some(LoopStart)
    case ']' => Some(LoopEnd)
    case _ => None
  }

  /** The command character that produces a token: the inverse of TokenOf. */
  function Spell(t: Token): char {
    match t
    case Right => '>'
    case Left => '<'
    case Increment => '+'
    case Decrement => '-'
    case Write => '.'
    case Read => ','
    case LoopStart => '['
    case LoopEnd => ']'
  }

  /** Every command character stands for exactly one token, and distinct characters for distinct tokens. */
  lemma TokenOfIsInjective(c: char, d: char)
    requires IsCommand(c)
    ensures Spell(TokenOf(c).value) == c
    ensures TokenOf(c) == TokenOf(d) ==> c == d
  {
  }

  /** Every token kind is produced by its own command character. */
  lemma SpellIsInverse(t: Token)
    ensures IsCommand(Spell(t)) && TokenOf(Spell(t)) == Some(t)
  {
  }

  /** The tokens of a source text, in source order. */
  function Tokenize(source: string): seq<Token>
  {
    if |source| == 0 then []
    else
      var head := match TokenOf(source[0]) case Some(t) => [t] case None => [];
      head + Tokenize(source[1..])
  }

  /** The source text with every comment character removed. */
  function StripComments(source: string): string
  {
    if |source| == 0 then []
    else if IsCommand(source[0]) then [source[0]] + StripComments(source[1..])
    else StripComments(source[1..])
  }

  /** The text a token sequence spells, one command character per token. */
  function SpellAll(tokens: seq<Token>): (text: string)
    ensures |text| == |tokens|
    ensures forall i :: 0 <= i < |tokens| ==> text[i] == Spell(tokens[i])
  {
    if |tokens| == 0 then [] else [Spell(tokens[0])] + SpellAll(tokens[1..])
  }

  /** Stripping comments keeps only command characters and never lengthens the text. */
  lemma {:induction false} StripCommentsShape(source: string)
    ensures |StripComments(source)| <= |source|
    ensures forall i :: 0 <= i < |StripComments(source)| ==> IsCommand(StripComments(source)[i])
    ensures StripComments(source) == source <==> forall i :: 0 <= i < |source| ==> IsCommand(source[i])
    ensures StripComments(source) == [] <==> forall i :: 0 <= i < |source| ==> !IsCommand(source[i])
  {
    if |source| > 0 {
      StripCommentsShape(source[1..]);
      if !IsCommand(source[0]) {
        assert |StripComments(source)| < |source|;
      }
    }
  }

  /** The tokens spell exactly the comment-free source, in order. */
  lemma {:induction false} TokensSpellSource(source: string)
    ensures SpellAll(Tokenize(source)) == StripComments(source)
  {
    if |source| > 0 {
      TokensSpellSource(source[1..]);
      if IsCommand(source[0]) {
        assert Tokenize(source) == [TokenOf(source[0]).value] + Tokenize(source[1..]);
      } else {
        assert Tokenize(source) == Tokenize(source[1..]);
      }
    }
  }

  /** The token count equals the number of command characters; so it is at most the text's length,
      and a text without command characters (empty or comment only) yields no tokens. */
  lemma TokenCount(source: string)
    ensures |Tokenize(source)| == |StripComments(source)| <= |source|
    ensures Tokenize(source) == [] <==> forall i :: 0 <= i < |source| ==> !IsCommand(source[i])
  {
    TokensSpellSource(source);
    StripCommentsShape(source);
  }

  /** Tokenizing distributes over concatenation, so tokens keep source order. */
  lemma {:induction false} TokenizeAppend(a: string, b: string)
    ensures Tokenize(a + b) == Tokenize(a) + Tokenize(b)
  {
    if |a| > 0 {
      assert (a + b)[1..] == a[1..] + b;
      TokenizeAppend(a[1..], b);
    } else {
      assert a + b == b;
    }
  }

  /** Tokenizing a comment-free spelling gives the spelled tokens back. */
  lemma {:induction false} TokenizeSpellAll(tokens: seq<Token>)
    ensures Tokenize(SpellAll(tokens)) == tokens
  {
    if |tokens| > 0 {
      SpellIsInverse(tokens[0]);
      TokenizeSpellAll(tokens[1..]);
      assert SpellAll(tokens)[1..] == SpellAll(tokens[1..]);
    }
  }
}
