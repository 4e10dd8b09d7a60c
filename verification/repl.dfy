/**
 * The REPL's command classifier: a trimmed input line becomes `exit`,
 * `tape`, `tape <index>`, `run <file>` or a line of code. Reading the named
 * file is a parameter (`load`) of the classifier.
 */
module Repl {
  import opened Results
  import Interpreter

  /** The largest `usize` (a 64-bit target). */
  const UsizeMax: nat := 0xFFFF_FFFF_FFFF_FFFF

  datatype Command = Exit | Tape(index: Option<nat>) | Invalid | Code(text: string)

  // ----- Whitespace, as Rust's `char::is_whitespace` (the Unicode White_Space property) -----

  predicate IsWhitespace(c: char) {
    var n := c as int;
    || 0x09 <= n <= 0x0D || n == 0x20 || n == 0x85 || n == 0xA0 || n == 0x1680
    || 0x2000 <= n <= 0x200A || n == 0x2028 || n == 0x2029 || n == 0x202F || n == 0x205F
    || n == 0x3000
  }

  /** The first index at or after `i` that does not hold whitespace. */
  function SkipSpace(s: string, i: nat): (j: nat)
    requires i <= |s|
    ensures i <= j <= |s|
    ensures forall k :: i <= k < j ==> IsWhitespace(s[k])
    ensures j < |s| ==> !IsWhitespace(s[j])
    decreases |s| - i
  {
    if i < |s| && IsWhitespace(s[i]) then SkipSpace(s, i + 1) else i
  }

  /** The last index at or before `j` that is not preceded by whitespace. */
  function BackSpace(s: string, j: nat): (i: nat)
    requires j <= |s|
    ensures i <= j
    ensures forall k :: i <= k < j ==> IsWhitespace(s[k])
    ensures i > 0 ==> !IsWhitespace(s[i - 1])
  {
    if j > 0 && IsWhitespace(s[j - 1]) then BackSpace(s, j - 1) else j
  }

  /** Drops leading whitespace. */
  function TrimStart(s: string): (r: string)
    ensures |r| <= |s| && r == s[|s| - |r|..]
    ensures forall i :: 0 <= i < |s| - |r| ==> IsWhitespace(s[i])
    ensures |r| > 0 ==> !IsWhitespace(r[0])
  {
    s[SkipSpace(s, 0)..]
  }

  /** Drops trailing whitespace. */
  function TrimEnd(s: string): (r: string)
    ensures |r| <= |s| && r == s[..|r|]
    ensures forall i :: |r| <= i < |s| ==> IsWhitespace(s[i])
    ensures |r| > 0 ==> !IsWhitespace(r[|r| - 1])
  {
    s[..BackSpace(s, |s|)]
  }

  /** `str::trim`. */
  function Trim(s: string): string {
    TrimEnd(TrimStart(s))
  }

  /** `r` is `s` with its leading and trailing whitespace removed: a slice of
      `s` with only whitespace around it that neither starts nor ends with whitespace. */
  ghost predicate IsTrimOf(r: string, s: string) {
    exists i :: 0 <= i <= |s| - |r| && IsTrimAt(r, s, i)
  }

  ghost predicate IsTrimAt(r: string, s: string, i: int)
    requires 0 <= i <= |s| - |r|
  {
    && r == s[i..i + |r|]
    && (forall k :: 0 <= k < i ==> IsWhitespace(s[k]))
    && (forall k :: i + |r| <= k < |s| ==> IsWhitespace(s[k]))
    && (|r| > 0 ==> !IsWhitespace(r[0]) && !IsWhitespace(r[|r| - 1]))
  }

  /** Trim drops the whitespace before index `|s| - |TrimStart(s)|` and after the kept slice. */
  lemma TrimAt(s: string)
    ensures var i := |s| - |TrimStart(s)|;
            0 <= i <= |s| - |Trim(s)| && IsTrimAt(Trim(s), s, i)
  {
    var u := TrimStart(s);
    var t := TrimEnd(u);
    PrefixOfSuffix(s, u, t);
  }

  /** A prefix `t` of a suffix `u` of `s` is a slice of `s`; what follows it in `u` follows it in `s`. */
  lemma PrefixOfSuffix(s: string, u: string, t: string)
    requires |u| <= |s| && u == s[|s| - |u|..]
    requires |t| <= |u| && t == u[..|t|]
    requires forall k :: |t| <= k < |u| ==> IsWhitespace(u[k])
    ensures var i := |s| - |u|;
            && t == s[i..i + |t|]
            && (|t| > 0 ==> t[0] == u[0])
            && forall k :: i + |t| <= k < |s| ==> IsWhitespace(s[k])
  {
    var i := |s| - |u|;
    forall k | i + |t| <= k < |s|
      ensures IsWhitespace(s[k])
    {
      assert s[k] == u[k - i];
    }
  }

  /** Trim returns the one and only trimmed form of its input. */
  lemma TrimIsTheTrim(s: string, r: string)
    ensures IsTrimOf(Trim(s), s)
    ensures IsTrimOf(r, s) ==> r == Trim(s)
  {
    var i := |s| - |TrimStart(s)|;
    TrimAt(s);
    if IsTrimOf(r, s) {
      var j :| 0 <= j <= |s| - |r| && IsTrimAt(r, s, j);
      TrimsAgree(r, Trim(s), s, j, i);
    }
  }

  lemma TrimsAgree(r: string, t: string, s: string, j: int, i: int)
    requires 0 <= j <= |s| - |r| && IsTrimAt(r, s, j)
    requires 0 <= i <= |s| - |t| && IsTrimAt(t, s, i)
    ensures r == t
  {
    if |r| > 0 {
      assert s[j] == r[0] && s[j + |r| - 1] == r[|r| - 1];
    }
    if |t| > 0 {
      assert s[i] == t[0] && s[i + |t| - 1] == t[|t| - 1];
    }
  }

  // ----- `str::split_whitespace` -----

  predicate NoWhitespace(w: string) {
    forall i :: 0 <= i < |w| ==> !IsWhitespace(w[i])
  }

  /** A non-empty run of non-whitespace characters. */
  predicate IsWord(w: string) {
    |w| > 0 && NoWhitespace(w)
  }

  /** The longest prefix without whitespace. */
  function Word(s: string): (w: string)
    ensures |w| <= |s| && w == s[..|w|] && NoWhitespace(w)
    ensures |w| < |s| ==> IsWhitespace(s[|w|])
  {
    if |s| == 0 || IsWhitespace(s[0]) then [] else [s[0]] + Word(s[1..])
  }

  /** The maximal whitespace-free runs of a string, in order. */
  function SplitWhitespace(s: string): (words: seq<string>)
    ensures forall k :: 0 <= k < |words| ==> IsWord(words[k])
    decreases |s|
  {
    var t := TrimStart(s);
    if |t| == 0 then []
    else
      var w := Word(t);
      [w] + SplitWhitespace(t[|w|..])
  }

  function Concat(words: seq<string>): string {
    if |words| == 0 then [] else words[0] + Concat(words[1..])
  }

  /** The string without its whitespace characters. */
  function Squeeze(s: string): string {
    if |s| == 0 then [] else Keep(s[0]) + Squeeze(s[1..])
  }

  function Keep(c: char): string {
    if IsWhitespace(c) then [] else [c]
  }

  /** Words joined by single spaces. */
  function JoinSpaces(words: seq<string>): string {
    if |words| == 0 then []
    else if |words| == 1 then words[0]
    else words[0] + " " + JoinSpaces(words[1..])
  }

  lemma {:induction false} SqueezeAppend(a: string, b: string)
    ensures Squeeze(a + b) == Squeeze(a) + Squeeze(b)
  {
    if |a| == 0 {
      assert a + b == b;
    } else {
      calc {
        Squeeze(a + b);
        { assert (a + b)[0] == a[0] && (a + b)[1..] == a[1..] + b; }
        Keep(a[0]) + Squeeze(a[1..] + b);
        { SqueezeAppend(a[1..], b); }
        Keep(a[0]) + (Squeeze(a[1..]) + Squeeze(b));
        Squeeze(a) + Squeeze(b);
      }
    }
  }

  lemma {:induction false} SqueezeSpaces(s: string)
    requires forall i :: 0 <= i < |s| ==> IsWhitespace(s[i])
    ensures Squeeze(s) == []
  {
    if |s| > 0 {
      SqueezeSpaces(s[1..]);
    }
  }

  lemma {:induction false} SqueezeWord(s: string)
    requires NoWhitespace(s)
    ensures Squeeze(s) == s
  {
    if |s| > 0 {
      SqueezeWord(s[1..]);
    }
  }

  lemma SqueezeTrimStart(s: string)
    ensures Squeeze(TrimStart(s)) == Squeeze(s)
  {
    var t := TrimStart(s);
    var lead := s[..|s| - |t|];
    assert s == lead + t;
    SqueezeAppend(lead, t);
    SqueezeSpaces(lead);
  }

  lemma SqueezeWordThen(w: string, rest: string)
    requires NoWhitespace(w)
    ensures Squeeze(w + rest) == w + Squeeze(rest)
  {
    SqueezeAppend(w, rest);
    SqueezeWord(w);
  }

  lemma ConcatCons(w: string, words: seq<string>)
    ensures Concat([w] + words) == w + Concat(words)
  {
    assert ([w] + words)[1..] == words;
  }

  /** The first word of a string that is not all whitespace, and what follows it. */
  lemma {:induction false} SplitFirst(s: string) returns (w: string, rest: string)
    requires |TrimStart(s)| > 0
    ensures SplitWhitespace(s) == [w] + SplitWhitespace(rest)
    ensures Squeeze(s) == w + Squeeze(rest)
    ensures |rest| < |s|
  {
    SqueezeTrimStart(s);
    var t := TrimStart(s);
    w := Word(t);
    rest := t[|w|..];
    assert t == w + rest;
    SqueezeWordThen(w, rest);
  }

  /** Splitting loses nothing but whitespace: the words together are the string's non-whitespace characters. */
  lemma {:induction false} SplitKeepsText(s: string)
    ensures Concat(SplitWhitespace(s)) == Squeeze(s)
    decreases |s|
  {
    if |TrimStart(s)| == 0 {
      SqueezeTrimStart(s);
    } else {
      var w, rest := SplitFirst(s);
      SplitKeepsText(rest);
      ConcatCons(w, SplitWhitespace(rest));
    }
  }

  /** A word followed by whitespace (or nothing) is split off as the first word. */
  lemma {:induction false} SplitCons(w: string, rest: string)
    requires IsWord(w)
    requires |rest| > 0 ==> IsWhitespace(rest[0])
    ensures SplitWhitespace(w + rest) == [w] + SplitWhitespace(rest)
  {
    var s := w + rest;
    assert s[0] == w[0];
    assert TrimStart(s) == s;
    WordOfWord(w, rest);
    assert s[|w|..] == rest;
  }

  /** Leading whitespace does not change the split. */
  lemma SplitSkipsSpace(c: char, rest: string)
    requires IsWhitespace(c)
    ensures SplitWhitespace([c] + rest) == SplitWhitespace(rest)
  {
    SkipSpaceShift(c, rest, 0);
    var n := SkipSpace(rest, 0);
    assert ([c] + rest)[n + 1..] == rest[n..];
  }

  /** Skipping whitespace after a leading character is skipping it in the rest, one index on. */
  lemma {:induction false} SkipSpaceShift(c: char, rest: string, i: nat)
    requires i <= |rest|
    ensures SkipSpace([c] + rest, i + 1) == SkipSpace(rest, i) + 1
    decreases |rest| - i
  {
    assert ([c] + rest)[i + 1..] == rest[i..];
    if i < |rest| {
      assert ([c] + rest)[i + 1] == rest[i];
      SkipSpaceShift(c, rest, i + 1);
    }
  }

  /** Joining words with spaces and splitting gives the words back. */
  lemma {:induction false} SplitJoin(words: seq<string>)
    requires forall k :: 0 <= k < |words| ==> IsWord(words[k])
    ensures SplitWhitespace(JoinSpaces(words)) == words
  {
    if |words| == 1 {
      SplitCons(words[0], []);
      assert words[0] + [] == words[0];
    } else if |words| > 1 {
      var rest := JoinSpaces(words[1..]);
      calc {
        SplitWhitespace(JoinSpaces(words));
        { assert JoinSpaces(words) == words[0] + ([' '] + rest); }
        SplitWhitespace(words[0] + ([' '] + rest));
        { SplitCons(words[0], [' '] + rest); }
        [words[0]] + SplitWhitespace([' '] + rest);
        { SplitSkipsSpace(' ', rest); }
        [words[0]] + SplitWhitespace(rest);
        { SplitJoin(words[1..]); }
        [words[0]] + words[1..];
        words;
      }
    }
  }

  /** A whitespace-free word followed by whitespace (or nothing) is read as that word. */
  lemma {:induction false} WordOfWord(w: string, rest: string)
    requires NoWhitespace(w)
    requires |rest| > 0 ==> IsWhitespace(rest[0])
    ensures Word(w + rest) == w
  {
    if |w| > 0 {
      assert (w + rest)[0] == w[0] && (w + rest)[1..] == w[1..] + rest;
      WordOfWord(w[1..], rest);
    } else {
      assert w + rest == rest;
    }
  }

  // ----- `str::parse::<usize>` -----

  predicate IsDigit(c: char) {
    '0' <= c <= '9'
  }

  predicate AllDigits(s: string) {
    forall i :: 0 <= i < |s| ==> IsDigit(s[i])
  }

  /** The value of a string of decimal digits, most significant first. */
  function DecimalValue(ds: string): nat
    requires AllDigits(ds)
  {
    if |ds| == 0 then 0 else DecimalValue(ds[..|ds| - 1]) * 10 + (ds[|ds| - 1] as int - '0' as int)
  }

  /** An optional `+` and at least one digit, with a value that fits a `usize`. */
  function ParseUsize(s: string): (r: Option<nat>)
    ensures r.Some? ==> r.value <= UsizeMax
  {
    var ds := if |s| > 0 && s[0] == '+' then s[1..] else s;
    if |ds| == 0 || !AllDigits(ds) then None
    else
      var v := DecimalValue(ds);
      if v > UsizeMax then None else Some(v)
  }

  /** The decimal spelling of a number, without leading zeros. */
  function Decimal(n: nat): (ds: string)
    ensures |ds| > 0 && AllDigits(ds)
  {
    if n < 10 then ['0' + n as char] else Decimal(n / 10) + ['0' + (n % 10) as char]
  }

  lemma {:induction false} DecimalValueOfDecimal(n: nat)
    ensures DecimalValue(Decimal(n)) == n
  {
    if n >= 10 {
      var ds := Decimal(n);
      assert ds[..|ds| - 1] == Decimal(n / 10);
      DecimalValueOfDecimal(n / 10);
    }
  }

  /** Every `usize` is parsed back from its decimal spelling, with or without a leading `+`;
      a leading `-` is never accepted. */
  lemma ParseDecimal(n: nat, s: string)
    requires n <= UsizeMax
    ensures ParseUsize(Decimal(n)) == Some(n)
    ensures ParseUsize("+" + Decimal(n)) == Some(n)
    ensures ParseUsize("-" + s) == None
  {
    DecimalValueOfDecimal(n);
    assert ("+" + Decimal(n))[1..] == Decimal(n);
    if |s| > 0 {
      assert !IsDigit(("-" + s)[0]);
    }
  }

  /** `z` zero digits. */
  function Zeros(z: nat): (ds: string)
    ensures |ds| == z && AllDigits(ds)
  {
    seq(z, _ => '0')
  }

  lemma {:induction false} ZerosValue(z: nat)
    ensures DecimalValue(Zeros(z)) == 0
  {
    if z > 0 {
      assert Zeros(z)[..z - 1] == Zeros(z - 1);
      ZerosValue(z - 1);
    }
  }

  /** Leading zeros do not change the value of a digit string. */
  lemma {:induction false} LeadingZerosValue(z: nat, ds: string)
    requires AllDigits(ds)
    ensures AllDigits(Zeros(z) + ds) && DecimalValue(Zeros(z) + ds) == DecimalValue(ds)
  {
    var u := Zeros(z) + ds;
    if |ds| == 0 {
      assert u == Zeros(z);
      ZerosValue(z);
    } else {
      assert u[..|u| - 1] == Zeros(z) + ds[..|ds| - 1];
      assert u[|u| - 1] == ds[|ds| - 1];
      LeadingZerosValue(z, ds[..|ds| - 1]);
    }
  }

  /** The value of a digit string is at least its leading digit. */
  lemma {:induction false} LeadBound(ds: string)
    requires |ds| > 0 && AllDigits(ds)
    ensures DecimalValue(ds) >= ds[0] as int - '0' as int
  {
    if |ds| > 1 {
      var p := ds[..|ds| - 1];
      LeadBound(p);
    }
  }

  /** A digit string without a redundant leading zero is the decimal spelling of its value. */
  lemma {:induction false} CanonicalDigits(ds: string)
    requires |ds| > 0 && AllDigits(ds) && (|ds| == 1 || ds[0] != '0')
    ensures Decimal(DecimalValue(ds)) == ds
  {
    var d := ds[|ds| - 1] as int - '0' as int;
    if |ds| == 1 {
      assert DecimalValue(ds) == d;
      assert ['0' + d as char] == ds;
    } else {
      var p := ds[..|ds| - 1];
      CanonicalDigits(p);
      LeadBound(p);
      var n := DecimalValue(ds);
      assert n == DecimalValue(p) * 10 + d;
      assert n / 10 == DecimalValue(p) && n % 10 == d;
      assert ds == p + ['0' + d as char];
    }
  }

  /** Dropping one leading zero keeps the value. */
  lemma DropZero(ds: string)
    requires |ds| > 0 && AllDigits(ds) && ds[0] == '0'
    ensures DecimalValue(ds) == DecimalValue(ds[1..])
  {
    assert ds == Zeros(1) + ds[1..];
    LeadingZerosValue(1, ds[1..]);
  }

  lemma ZerosCons(z: nat)
    ensures Zeros(z + 1) == ['0'] + Zeros(z)
  {
  }

  /** Every non-empty digit string is some zeros followed by the decimal spelling of its value. */
  lemma {:induction false} DigitsShape(ds: string) returns (z: nat)
    requires |ds| > 0 && AllDigits(ds)
    ensures ds == Zeros(z) + Decimal(DecimalValue(ds))
  {
    if |ds| > 1 && ds[0] == '0' {
      var rest := ds[1..];
      var z' := DigitsShape(rest);
      z := z' + 1;
      DropZero(ds);
      ZerosCons(z');
      calc {
        ds;
        ['0'] + rest;
        ['0'] + (Zeros(z') + Decimal(DecimalValue(rest)));
        (['0'] + Zeros(z')) + Decimal(DecimalValue(rest));
        Zeros(z) + Decimal(DecimalValue(ds));
      }
    } else {
      z := 0;
      CanonicalDigits(ds);
      assert Zeros(0) + ds == ds;
    }
  }

  /** Zeros and a decimal spelling, with or without a `+`, parse to the spelled value. */
  lemma ParsePaddedDecimal(z: nat, v: nat)
    requires v <= UsizeMax
    ensures ParseUsize(Zeros(z) + Decimal(v)) == Some(v)
    ensures ParseUsize("+" + Zeros(z) + Decimal(v)) == Some(v)
  {
    var ds := Zeros(z) + Decimal(v);
    LeadingZerosValue(z, Decimal(v));
    DecimalValueOfDecimal(v);
    assert ("+" + ds)[1..] == ds;
    assert "+" + Zeros(z) + Decimal(v) == "+" + ds;
    assert ds[0] != '+' by {
      if z > 0 { assert ds[0] == Zeros(z)[0]; } else { assert ds[0] == Decimal(v)[0]; }
    }
  }

  /** A string that parses is an optional `+`, some zeros, and the spelling of the value. */
  lemma ParsedShape(s: string) returns (z: nat)
    requires ParseUsize(s).Some?
    ensures var v := ParseUsize(s).value;
            s == Zeros(z) + Decimal(v) || s == "+" + Zeros(z) + Decimal(v)
  {
    var ds := if |s| > 0 && s[0] == '+' then s[1..] else s;
    z := DigitsShape(ds);
    if |s| > 0 && s[0] == '+' {
      assert s == "+" + ds;
    }
  }

  /** A string parses to `v` exactly when `v` fits a `usize` and the string is an optional
      `+`, any number of zeros, then the decimal spelling of `v`: everything else is rejected. */
  lemma ParseUsizeSpells(s: string, v: nat)
    ensures ParseUsize(s) == Some(v) <==>
              v <= UsizeMax && exists z: nat :: s == Zeros(z) + Decimal(v) || s == "+" + Zeros(z) + Decimal(v)
  {
    if ParseUsize(s) == Some(v) {
      var z := ParsedShape(s);
    }
    if v <= UsizeMax && exists z: nat :: s == Zeros(z) + Decimal(v) || s == "+" + Zeros(z) + Decimal(v) {
      var z: nat :| s == Zeros(z) + Decimal(v) || s == "+" + Zeros(z) + Decimal(v);
      ParsePaddedDecimal(z, v);
    }
  }

  // ----- `ReplCommand::from_string` -----

  predicate StartsWith(s: string, prefix: string) {
    |prefix| <= |s| && s[..|prefix|] == prefix
  }

  /** Classifies one REPL input line; `load` reads the file named by `run <file>`. */
  function Classify(line: string, load: string -> string): (c: Command)
    ensures c.Tape? && c.index.Some? ==> c.index.value <= Interpreter.LastCell
  {
    var cmd := Trim(line);
    if cmd == "exit" then Exit
    else if cmd == "tape" then Tape(None)
    else if StartsWith(cmd, "tape") then
      var splits := SplitWhitespace(cmd);
      if |splits| != 2 then Invalid
      else
        match ParseUsize(splits[1])
        case Some(index) => if index > Interpreter.LastCell then Invalid else Tape(Some(index))
        case None => Invalid
    else if StartsWith(cmd, "run") then
      var splits := SplitWhitespace(cmd);
      if |splits| != 2 then Invalid else Code(load(splits[1]))
    else
      Code(cmd)
  }

  /** Exactly the trimmed line `exit` exits and exactly `tape` shows the tape at the pointer;
      the exact `tape` test comes before the prefix test that would reject it. */
  lemma ClassifyKeywords(line: string, load: string -> string)
    ensures Classify(line, load) == Exit <==> Trim(line) == "exit"
    ensures Classify(line, load) == Tape(None) <==> Trim(line) == "tape"
  {
    ClassifyExit(line, load);
    ClassifyTapeAlone(line, load);
  }

  lemma ClassifyExit(line: string, load: string -> string)
    ensures Classify(line, load) == Exit <==> Trim(line) == "exit"
  {
  }

  lemma ClassifyTapeAlone(line: string, load: string -> string)
    ensures Classify(line, load) == Tape(None) <==> Trim(line) == "tape"
  {
  }

  /** Any other line starting with `tape` names a tape index: exactly two words, the second
      a `usize` no greater than the last tape index; anything else is invalid. */
  lemma ClassifyTapeIndex(line: string, load: string -> string, i: nat)
    requires var t := Trim(line); StartsWith(t, "tape") && t != "tape"
    ensures var w := SplitWhitespace(Trim(line));
            Classify(line, load) == Tape(Some(i)) <==> |w| == 2 && ParseUsize(w[1]) == Some(i) && i <= Interpreter.LastCell
    ensures var w := SplitWhitespace(Trim(line));
            Classify(line, load) == Invalid <==>
              |w| != 2 || ParseUsize(w[1]).None? || ParseUsize(w[1]).value > Interpreter.LastCell
  {
  }

  /** A line starting with `run` (and not `tape`) runs the file named by its second word,
      and is invalid unless it has exactly two words. */
  lemma {:induction false} ClassifyRun(line: string, load: string -> string)
    requires StartsWith(Trim(line), "run")
    ensures var w := SplitWhitespace(Trim(line));
            && (Classify(line, load) == Invalid <==> |w| != 2)
            && (|w| == 2 ==> Classify(line, load) == Code(load(w[1])))
  {
    var t := Trim(line);
    assert t[0] == t[..3][0] == 'r';
    assert t != "exit" && t != "tape";
    assert !StartsWith(t, "tape") by {
      if |t| >= 4 {
        assert t[..4][0] == 'r';
      }
    }
  }

  /** Every other line is code, and the code is the trimmed line. */
  lemma ClassifyCode(line: string, load: string -> string)
    requires var t := Trim(line); t != "exit" && !StartsWith(t, "tape") && !StartsWith(t, "run")
    ensures Classify(line, load) == Code(Trim(line))
  {
  }

  lemma DigitsAreWords(ds: string)
    requires |ds| > 0 && AllDigits(ds)
    ensures IsWord(ds)
  {
  }

  /** Two words joined by a space are already trimmed and split back into the two words. */
  lemma TwoWords(a: string, b: string)
    requires IsWord(a) && IsWord(b)
    ensures Trim(a + " " + b) == a + " " + b
    ensures SplitWhitespace(a + " " + b) == [a, b]
  {
    var line := a + " " + b;
    assert line[0] == a[0] && line[|line| - 1] == b[|b| - 1];
    AlreadyTrimmed(line);
    assert JoinSpaces([a, b]) == line;
    SplitJoin([a, b]);
  }

  /** A string that neither starts nor ends with whitespace is its own trim. */
  lemma AlreadyTrimmed(s: string)
    requires |s| > 0 && !IsWhitespace(s[0]) && !IsWhitespace(s[|s| - 1])
    ensures TrimStart(s) == s && TrimEnd(s) == s && Trim(s) == s
  {
  }

  /** A line of two words whose first starts with `tape` passes the prefix test. */
  lemma {:induction false} TapeLineShape(word: string, ds: string)
    requires IsWord(word) && IsWord(ds) && StartsWith(word, "tape")
    ensures var line := word + " " + ds;
            && Trim(line) == line && SplitWhitespace(line) == [word, ds]
            && StartsWith(line, "tape") && line != "tape"
  {
    TwoWords(word, ds);
    TapeLinePrefix(word, ds);
  }

  lemma TapeLinePrefix(word: string, ds: string)
    requires StartsWith(word, "tape") && |ds| > 0
    ensures StartsWith(word + " " + ds, "tape") && word + " " + ds != "tape"
  {
    var line := word + " " + ds;
    assert line[..4] == word[..4];
    assert |line| != |"tape"|;
  }

  /** The `tape` test is a plain prefix test: any word that starts with `tape`
      followed by an index shows the tape there, so `tapeworm 5` shows cell 5. */
  lemma {:induction false} TapePrefixIsLiteral(suffix: string, n: nat, load: string -> string)
    requires NoWhitespace(suffix) && n <= Interpreter.LastCell
    ensures Classify("tape" + suffix + " " + Decimal(n), load) == Tape(Some(n))
  {
    var word := "tape" + suffix;
    var ds := Decimal(n);
    DigitsAreWords(ds);
    assert IsWord(word) && StartsWith(word, "tape") by {
      assert word[..4] == "tape";
    }
    TapeLineShape(word, ds);
    ParseDecimal(n, "");
    ClassifyTapeIndex(word + " " + ds, load, n);
  }
}
