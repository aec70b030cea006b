/**
 * `lsh_split_line`: the tokenizer of the shell.
 *
 * The loop walks the line with an index `i`, a pending-word start `start`,
 * a quote state (`inQuote`, `quoteChar`) and the token count `position`.
 * Tokens are plain strings: nothing records whether a token was quoted or
 * was an operator, so later stages recognise `>` or `|` by string equality.
 *
 * `Step` is one iteration of that loop and `Run` the loop itself; they are
 * the specification of the method `SplitLine`. `Words`/`Quoted` is an
 * independent, character-by-character reading of the same rules, and
 * `Tokenize` is proved to agree with it; the properties of the tokenizer
 * are proved about `Words`.
 */
module Lexer {
  import opened Common

  /** LSH_TOK_BUFSIZE: the initial capacity of the token array and its growth step. */
  const TokenChunk: nat := 64

  /** `isspace` in the C locale. */
  predicate IsSpace(c: char) {
    c == ' ' || c == '\t' || c == '\n' || c == '\U{000B}' || c == '\U{000C}' || c == '\r'
  }

  predicate IsQuote(c: char) { c == '"' || c == '\'' }

  predicate IsOperatorChar(c: char) { c == '<' || c == '>' || c == '|' }

  /** The character the C loop sees at index `i` of the NUL-terminated copy of `line`. */
  function At(line: string, i: nat): char {
    if i < |line| then line[i] else '\0'
  }

  /** The loop variables of `lsh_split_line`; `tokens` are the strings stored so far. */
  datatype LoopState = LoopState(i: nat, start: nat, inQuote: bool, quoteChar: char, tokens: seq<string>)

  const Initial := LoopState(0, 0, false, '\0', [])

  predicate Valid(line: string, s: LoopState) {
    s.start <= s.i <= |line| + 1 && (s.inQuote ==> IsQuote(s.quoteChar))
  }

  /** The first branch: a quote character not preceded by a backslash. */
  predicate QuoteAt(line: string, i: nat) {
    IsQuote(At(line, i)) && (i == 0 || At(line, i - 1) != '\\')
  }

  /** The second branch: `>>` outside quotes with both characters inside the line. */
  predicate AppendAt(line: string, s: LoopState) {
    !s.inQuote && s.i + 1 < |line| && line[s.i] == '>' && line[s.i + 1] == '>'
  }

  /** The word between `start` and `i`, if any: what the `if (i > start)` flushes store. */
  function Pending(line: string, s: LoopState): seq<string>
    requires s.start <= s.i <= |line|
  {
    if s.i > s.start then [line[s.start..s.i]] else []
  }

  /** One iteration of the `while (i <= len)` loop, including the advance of `i`. */
  function Step(line: string, s: LoopState): (t: LoopState)
    requires Valid(line, s) && s.i <= |line|
    ensures Valid(line, t) && s.i < t.i
    ensures |s.tokens| <= |t.tokens| <= |s.tokens| + 2 && t.tokens[..|s.tokens|] == s.tokens
  {
    var c := At(line, s.i);
    if QuoteAt(line, s.i) then
      if !s.inQuote then
        s.(i := s.i + 1, start := s.i + 1, inQuote := true, quoteChar := c)
      else if c == s.quoteChar then
        s.(i := s.i + 1, start := s.i + 1, inQuote := false, tokens := s.tokens + [line[s.start..s.i]])
      else
        s.(i := s.i + 1)
    else if AppendAt(line, s) then
      s.(i := s.i + 2, start := s.i + 2, tokens := s.tokens + Pending(line, s) + [">>"])
    else if !s.inQuote && IsOperatorChar(c) then
      s.(i := s.i + 1, start := s.i + 1, tokens := s.tokens + Pending(line, s) + [[c]])
    else if !s.inQuote && (IsSpace(c) || c == '\0') then
      s.(i := s.i + 1, start := s.i + 1, tokens := s.tokens + Pending(line, s))
    else
      s.(i := s.i + 1)
  }

  /** The loop from state `s` to its exit: the tokens stored by the time `i > len`. */
  function Run(line: string, s: LoopState): (r: seq<string>)
    requires Valid(line, s)
    ensures |s.tokens| <= |r| && r[..|s.tokens|] == s.tokens
    decreases |line| + 1 - s.i
  {
    if s.i > |line| then s.tokens else Run(line, Step(line, s))
  }

  /**
   * The tokens `lsh_split_line(line)` returns, in order, without the NULL
   * terminator: the loop runs over the `strdup` copy of the line, which ends
   * at its first NUL, and yields exactly the tokens of the
   * character-by-character reading of that copy.
   */
  function Tokenize(line: string): (r: seq<string>)
    ensures r == Words(CString(line), [], false)
  {
    var copy := CString(line);
    RunIsWords(copy, Initial);
    assert copy[0..] == copy;
    Run(copy, Initial)
  }

  // ---------------------------------------------------------------------
  // An independent reading of the tokenizing rules, one character at a time.

  function Flush(word: string): seq<string> {
    if word == [] then [] else [word]
  }

  /**
   * Tokens of `rest` outside quotes; `word` is the unquoted text read since
   * the last boundary and `escaped` says the previous character was a
   * backslash. An opening quote discards `word`.
   */
  function Words(rest: string, word: string, escaped: bool): seq<string>
    decreases |rest|
  {
    if rest == [] then Flush(word)
    else
      var c := rest[0];
      if IsQuote(c) && !escaped then Quoted(rest[1..], c, [], false)
      else if c == '>' && |rest| >= 2 && rest[1] == '>' then Flush(word) + [">>"] + Words(rest[2..], [], false)
      else if IsOperatorChar(c) then Flush(word) + [[c]] + Words(rest[1..], [], false)
      else if IsSpace(c) then Flush(word) + Words(rest[1..], [], false)
      else Words(rest[1..], word + [c], c == '\\')
  }

  /**
   * Tokens of `rest` inside a quote opened by `q`; `body` is the quoted text
   * read so far. Only an unescaped `q` closes the quote; at the end of the
   * line an open quote yields nothing.
   */
  function Quoted(rest: string, q: char, body: string, escaped: bool): seq<string>
    decreases |rest|
  {
    if rest == [] then []
    else if rest[0] == q && !escaped then [body] + Words(rest[1..], [], false)
    else Quoted(rest[1..], q, body + [rest[0]], rest[0] == '\\')
  }

  /** Whether the character before index `i` is a backslash. */
  predicate EscapedAt(line: string, i: nat) {
    i > 0 && At(line, i - 1) == '\\'
  }

  /** What is left to produce from loop state `s`, according to the reference reading. */
  function Remaining(line: string, s: LoopState): seq<string>
    requires s.start <= s.i <= |line|
  {
    if s.inQuote then Quoted(line[s.i..], s.quoteChar, line[s.start..s.i], EscapedAt(line, s.i))
    else Words(line[s.i..], line[s.start..s.i], EscapedAt(line, s.i))
  }

  /** A quote character read in the loop: the reference reading keeps step with it. */
  lemma StepQuote(line: string, s: LoopState)
    requires NoNul(line) && Valid(line, s) && s.i < |line| && QuoteAt(line, s.i)
    ensures var t := Step(line, s);
      t.i <= |line| && s.tokens + Remaining(line, s) == t.tokens + Remaining(line, t)
  {
    if !s.inQuote {
      StepOpenQuote(line, s);
    } else if line[s.i] == s.quoteChar {
      StepCloseQuote(line, s);
    } else {
      StepOtherQuote(line, s);
    }
  }

  /** An opening quote starts quoted text and drops the pending word. */
  lemma StepOpenQuote(line: string, s: LoopState)
    requires NoNul(line) && Valid(line, s) && s.i < |line| && QuoteAt(line, s.i) && !s.inQuote
    ensures var t := Step(line, s);
      t.i <= |line| && s.tokens + Remaining(line, s) == t.tokens + Remaining(line, t)
  {
    var t := Step(line, s);
    var c := line[s.i];
    assert t == s.(i := s.i + 1, start := s.i + 1, inQuote := true, quoteChar := c);
    assert line[s.i..] == [c] + line[s.i + 1..];
    assert EscapedAt(line, s.i + 1) == (c == '\\');
    assert line[t.start..t.i] == [];
  }

  /** The matching quote closes the quoted text, which becomes a token. */
  lemma StepCloseQuote(line: string, s: LoopState)
    requires NoNul(line) && Valid(line, s) && s.i < |line| && QuoteAt(line, s.i) && s.inQuote
    requires line[s.i] == s.quoteChar
    ensures var t := Step(line, s);
      t.i <= |line| && s.tokens + Remaining(line, s) == t.tokens + Remaining(line, t)
  {
    var t := Step(line, s);
    var c := line[s.i];
    assert t == s.(i := s.i + 1, start := s.i + 1, inQuote := false, tokens := s.tokens + [line[s.start..s.i]]);
    assert line[s.i..] == [c] + line[s.i + 1..];
    assert EscapedAt(line, s.i + 1) == (c == '\\');
    assert line[t.start..t.i] == [];
  }

  /** The other quote character inside quotes is part of the quoted text. */
  lemma StepOtherQuote(line: string, s: LoopState)
    requires NoNul(line) && Valid(line, s) && s.i < |line| && QuoteAt(line, s.i) && s.inQuote
    requires line[s.i] != s.quoteChar
    ensures var t := Step(line, s);
      t.i <= |line| && s.tokens + Remaining(line, s) == t.tokens + Remaining(line, t)
  {
    var t := Step(line, s);
    var c := line[s.i];
    assert t == s.(i := s.i + 1);
    assert line[s.i..] == [c] + line[s.i + 1..];
    assert EscapedAt(line, s.i + 1) == (c == '\\');
    assert line[s.start..t.i] == line[s.start..s.i] + [c];
  }


  /** A `>>` read outside quotes: the reference reading keeps step with it. */
  lemma StepAppend(line: string, s: LoopState)
    requires NoNul(line) && Valid(line, s) && s.i < |line| && !QuoteAt(line, s.i) && AppendAt(line, s)
    ensures var t := Step(line, s);
      t.i <= |line| && s.tokens + Remaining(line, s) == t.tokens + Remaining(line, t)
  {
    var t := Step(line, s);
    assert line[s.i..] == ['>', '>'] + line[s.i + 2..];
    assert line[t.start..t.i] == [];
  }

  /** A character inside quotes other than the closing quote extends the quoted body. */
  lemma StepInQuote(line: string, s: LoopState)
    requires NoNul(line) && Valid(line, s) && s.i < |line| && !QuoteAt(line, s.i) && s.inQuote
    ensures var t := Step(line, s);
      t.i <= |line| && s.tokens + Remaining(line, s) == t.tokens + Remaining(line, t)
  {
    var t := Step(line, s);
    var c := line[s.i];
    assert line[s.i..] == [c] + line[s.i + 1..];
    assert EscapedAt(line, s.i + 1) == (c == '\\');
    assert line[s.start..t.i] == line[s.start..s.i] + [c];
    assert !(c == s.quoteChar && !EscapedAt(line, s.i));
  }

  /** An ordinary character outside quotes extends the pending word. */
  lemma StepWordChar(line: string, s: LoopState)
    requires NoNul(line) && Valid(line, s) && s.i < |line| && !QuoteAt(line, s.i) && !AppendAt(line, s) && !s.inQuote
    requires !IsOperatorChar(line[s.i]) && !IsSpace(line[s.i])
    ensures var t := Step(line, s);
      t.i <= |line| && s.tokens + Remaining(line, s) == t.tokens + Remaining(line, t)
  {
    var c := line[s.i];
    assert c != '\0';
    var t := Step(line, s);
    assert t == s.(i := s.i + 1);
    assert line[s.i..] == [c] + line[s.i + 1..];
    assert EscapedAt(line, s.i + 1) == (c == '\\');
    assert line[s.start..t.i] == line[s.start..s.i] + [c];
    assert !(IsQuote(c) && !EscapedAt(line, s.i));
  }

  /** A single operator outside quotes ends the pending word and is a token of its own. */
  lemma StepOperator(line: string, s: LoopState)
    requires NoNul(line) && Valid(line, s) && s.i < |line| && !QuoteAt(line, s.i) && !AppendAt(line, s) && !s.inQuote
    requires IsOperatorChar(line[s.i])
    ensures var t := Step(line, s);
      t.i <= |line| && s.tokens + Remaining(line, s) == t.tokens + Remaining(line, t)
  {
    var t := Step(line, s);
    var c := line[s.i];
    assert t.tokens == s.tokens + Pending(line, s) + [[c]];
    assert line[s.i..] == [c] + line[s.i + 1..];
    assert EscapedAt(line, s.i + 1) == (c == '\\');
    assert line[t.start..t.i] == [];
  }

  /** White space outside quotes ends the pending word. */
  lemma StepSpace(line: string, s: LoopState)
    requires NoNul(line) && Valid(line, s) && s.i < |line| && !QuoteAt(line, s.i) && !AppendAt(line, s) && !s.inQuote
    requires IsSpace(line[s.i]) && !IsOperatorChar(line[s.i])
    ensures var t := Step(line, s);
      t.i <= |line| && s.tokens + Remaining(line, s) == t.tokens + Remaining(line, t)
  {
    var t := Step(line, s);
    var c, word := line[s.i], line[s.start..s.i];
    assert !IsQuote(c) && c != '\\' && c != '\0' && c != '>';
    assert t == s.(i := s.i + 1, start := s.i + 1, tokens := s.tokens + Pending(line, s));
    assert Flush(word) == Pending(line, s);
    assert line[s.i..][0] == c && line[s.i..][1..] == line[s.i + 1..];
    assert Remaining(line, s) == Flush(word) + Words(line[s.i + 1..], [], false);
    assert !EscapedAt(line, s.i + 1) && line[t.start..t.i] == [];
    assert Remaining(line, t) == Words(line[s.i + 1..], [], false);
  }

  /** Any other character: an operator, white space or part of a word, inside or outside quotes. */
  lemma StepOther(line: string, s: LoopState)
    requires NoNul(line) && Valid(line, s) && s.i < |line| && !QuoteAt(line, s.i) && !AppendAt(line, s)
    ensures var t := Step(line, s);
      t.i <= |line| && s.tokens + Remaining(line, s) == t.tokens + Remaining(line, t)
  {
    if s.inQuote {
      StepInQuote(line, s);
    } else if IsOperatorChar(line[s.i]) {
      StepOperator(line, s);
    } else if IsSpace(line[s.i]) {
      StepSpace(line, s);
    } else {
      StepWordChar(line, s);
    }
  }

  /** The C loop and the reference reading produce the same tokens from every reachable state. */
  lemma {:induction false} RunIsWords(line: string, s: LoopState)
    requires NoNul(line) && Valid(line, s) && s.i <= |line|
    ensures Run(line, s) == s.tokens + Remaining(line, s)
    decreases |line| - s.i
  {
    var t := Step(line, s);
    if s.i == |line| {
      assert line[s.i..] == [];
    } else {
      if QuoteAt(line, s.i) {
        StepQuote(line, s);
      } else if AppendAt(line, s) {
        StepAppend(line, s);
      } else {
        StepOther(line, s);
      }
      RunIsWords(line, t);
    }
  }

  // ---------------------------------------------------------------------
  // Text outside quotes

  predicate IsOperatorToken(t: string) { t == "<" || t == ">" || t == ">>" || t == "|" }

  /** A word read outside quotes: non-empty, without white space or operator characters. */
  predicate IsPlainWord(t: string) {
    |t| > 0 && forall k :: 0 <= k < |t| ==> !IsSpace(t[k]) && !IsOperatorChar(t[k])
  }

  /** Every quote character in `rest` is preceded by a backslash (`escaped` for the first one). */
  predicate NoOpeningQuote(rest: string, escaped: bool) {
    forall k :: 0 <= k < |rest| ==> !OpensQuote(rest, k, escaped)
  }

  /** The character at `k` is a quote character not preceded by a backslash. */
  predicate OpensQuote(s: string, k: nat, escaped: bool)
    requires k < |s|
  {
    IsQuote(s[k]) && !AfterBackslash(s, k, escaped)
  }

  /** Dropping the first character keeps every quote escaped. */
  lemma NoOpeningQuoteTail(rest: string, escaped: bool, n: nat)
    requires NoOpeningQuote(rest, escaped) && 0 < n <= |rest|
    requires n > 1 ==> rest[n - 1] != '\\'
    ensures NoOpeningQuote(rest[n..], n == 1 && rest[0] == '\\')
  {
    var tail, e := rest[n..], n == 1 && rest[0] == '\\';
    forall k: nat | k < |tail|
      ensures !OpensQuote(tail, k, e)
    {
      assert !OpensQuote(rest, k + n, escaped);
    }
  }

  /** Whether the character at `k` follows a backslash; `escaped` stands for the one before `s`. */
  predicate AfterBackslash(s: string, k: nat, escaped: bool)
    requires k < |s|
  {
    if k == 0 then escaped else s[k - 1] == '\\'
  }

  /** The line without its white space. */
  function Visible(s: string): string {
    if s == [] then [] else (if IsSpace(s[0]) then [] else [s[0]]) + Visible(s[1..])
  }

  function Concat(ts: seq<string>): string {
    if ts == [] then [] else ts[0] + Concat(ts[1..])
  }

  lemma ConcatAppend(a: seq<string>, b: seq<string>)
    ensures Concat(a + b) == Concat(a) + Concat(b)
  {
    if a == [] {
      assert a + b == b;
    } else {
      assert (a + b)[0] == a[0];
      assert (a + b)[1..] == a[1..] + b;
      ConcatAppend(a[1..], b);
    }
  }

  /** The white-space-free word test, for a pending word. */
  predicate Unbroken(word: string) {
    forall k :: 0 <= k < |word| ==> !IsSpace(word[k]) && !IsOperatorChar(word[k])
  }

  lemma {:induction false} WordsShape(rest: string, word: string, escaped: bool)
    requires NoOpeningQuote(rest, escaped) && Unbroken(word)
    ensures forall t :: t in Words(rest, word, escaped) ==> IsOperatorToken(t) || IsPlainWord(t)
    decreases |rest|
  {
    if rest != [] {
      var c := rest[0];
      assert !OpensQuote(rest, 0, escaped);
      NoOpeningQuoteTail(rest, escaped, 1);
      if c == '>' && |rest| >= 2 && rest[1] == '>' {
        NoOpeningQuoteTail(rest, escaped, 2);
        WordsShape(rest[2..], [], false);
      } else if IsOperatorChar(c) || IsSpace(c) {
        WordsShape(rest[1..], [], false);
      } else {
        WordsShape(rest[1..], word + [c], c == '\\');
      }
    }
  }

  lemma {:induction false} WordsSpell(rest: string, word: string, escaped: bool)
    requires NoOpeningQuote(rest, escaped)
    ensures Concat(Words(rest, word, escaped)) == word + Visible(rest)
    decreases |rest|
  {
    if rest == [] {
      assert word + Visible(rest) == word;
    } else {
      var c := rest[0];
      assert !OpensQuote(rest, 0, escaped);
      NoOpeningQuoteTail(rest, escaped, 1);
      if c == '>' && |rest| >= 2 && rest[1] == '>' {
        NoOpeningQuoteTail(rest, escaped, 2);
        WordsSpell(rest[2..], [], false);
        SpellAppend(rest, word, escaped);
      } else if IsOperatorChar(c) || IsSpace(c) {
        WordsSpell(rest[1..], [], false);
        SpellBreak(rest, word, escaped);
      } else {
        WordsSpell(rest[1..], word + [c], c == '\\');
        SpellChar(rest, word, escaped);
      }
    }
  }

  /** The `>>` case of `WordsSpell`. */
  lemma SpellAppend(rest: string, word: string, escaped: bool)
    requires |rest| >= 2 && rest[0] == '>' && rest[1] == '>'
    requires Concat(Words(rest[2..], [], false)) == Visible(rest[2..])
    ensures Concat(Words(rest, word, escaped)) == word + Visible(rest)
  {
    var after := Words(rest[2..], [], false);
    assert Words(rest, word, escaped) == Flush(word) + [">>"] + after;
    assert Visible(rest) == ">>" + Visible(rest[2..]) by {
      var tail := rest[1..];
      assert tail[0] == '>' && tail[1..] == rest[2..];
      assert Visible(tail) == ['>'] + Visible(rest[2..]);
      assert Visible(rest) == ['>'] + Visible(tail);
    }
    SpellBoundary(word, ">>", after);
  }

  /** A single operator character or a white-space character in `WordsSpell`. */
  lemma SpellBreak(rest: string, word: string, escaped: bool)
    requires |rest| >= 1 && !OpensQuote(rest, 0, escaped) && (IsOperatorChar(rest[0]) || IsSpace(rest[0]))
    requires !(|rest| >= 2 && rest[0] == '>' && rest[1] == '>')
    requires Concat(Words(rest[1..], [], false)) == Visible(rest[1..])
    ensures Concat(Words(rest, word, escaped)) == word + Visible(rest)
  {
    var c := rest[0];
    var after := Words(rest[1..], [], false);
    if IsOperatorChar(c) {
      assert Words(rest, word, escaped) == Flush(word) + [[c]] + after;
      SpellBoundary(word, [c], after);
      assert Visible(rest) == [c] + Visible(rest[1..]);
    } else {
      assert Words(rest, word, escaped) == Flush(word) + after;
      SpellBoundary(word, [], after);
      assert Visible(rest) == Visible(rest[1..]);
    }
  }

  /** An ordinary character in `WordsSpell`. */
  lemma SpellChar(rest: string, word: string, escaped: bool)
    requires |rest| >= 1 && !OpensQuote(rest, 0, escaped) && !IsOperatorChar(rest[0]) && !IsSpace(rest[0])
    requires Concat(Words(rest[1..], word + [rest[0]], rest[0] == '\\')) == word + [rest[0]] + Visible(rest[1..])
    ensures Concat(Words(rest, word, escaped)) == word + Visible(rest)
  {
    var c := rest[0];
    assert Words(rest, word, escaped) == Words(rest[1..], word + [c], c == '\\');
    assert Visible(rest) == [c] + Visible(rest[1..]);
  }

  /** Flushing the pending word, then an optional operator token, then the rest. */
  lemma SpellBoundary(word: string, op: string, after: seq<string>)
    ensures Concat(Flush(word) + (if op == [] then [] else [op]) + after) == word + op + Concat(after)
  {
    var ops := if op == [] then [] else [op];
    ConcatAppend(Flush(word) + ops, after);
    ConcatAppend(Flush(word), ops);
    assert Concat(ops) == op by {
      if op != [] {
        assert ops[1..] == [];
      }
    }
    assert Concat(Flush(word)) == word by {
      if word != [] {
        assert Flush(word)[1..] == [];
      }
    }
  }

  /**
   * On a line whose every quote character is escaped, each token is an
   * operator or a non-empty word free of white space and operator
   * characters, and the tokens spell out the line's visible characters in
   * order: nothing outside quotes is lost, reordered or duplicated.
   */
  lemma UnquotedTokens(line: string)
    requires NoNul(line) && NoOpeningQuote(line, false)
    ensures forall t :: t in Tokenize(line) ==> IsOperatorToken(t) || IsPlainWord(t)
    ensures Concat(Tokenize(line)) == Visible(line)
  {
    WordsShape(line, [], false);
    WordsSpell(line, [], false);
  }

  /** A run of ordinary characters only extends the pending word. */
  lemma {:induction false} PlainText(w: string, rest: string, word: string, escaped: bool)
    requires Unbroken(w) && forall k :: 0 <= k < |w| ==> !IsQuote(w[k]) && w[k] != '\\'
    ensures Words(w + rest, word, escaped && w == []) == Words(rest, word + w, escaped && w == [])
    decreases |w|
  {
    if w == [] {
      assert w + rest == rest && word + w == word;
    } else {
      assert (w + rest)[0] == w[0];
      assert (w + rest)[1..] == w[1..] + rest;
      PlainText(w[1..], rest, word + [w[0]], false);
      assert word + [w[0]] + w[1..] == word + w;
    }
  }

  // ---------------------------------------------------------------------
  // Quotes

  /** Every `q` in `body` is preceded by a backslash (`escaped` for the first character). */
  predicate NoClosingQuote(body: string, q: char, escaped: bool) {
    forall k :: 0 <= k < |body| ==> !ClosesQuote(body, k, q, escaped)
  }

  /** The character at `k` is `q` not preceded by a backslash. */
  predicate ClosesQuote(body: string, k: nat, q: char, escaped: bool)
    requires k < |body|
  {
    body[k] == q && !AfterBackslash(body, k, escaped)
  }

  lemma NoClosingQuoteTail(body: string, q: char, escaped: bool)
    requires NoClosingQuote(body, q, escaped) && body != []
    ensures NoClosingQuote(body[1..], q, body[0] == '\\') && !ClosesQuote(body, 0, q, escaped)
  {
    var tail, e := body[1..], body[0] == '\\';
    forall k: nat | k < |tail|
      ensures !ClosesQuote(tail, k, q, e)
    {
      assert !ClosesQuote(body, k + 1, q, escaped);
    }
  }

  /** The backslash test applied to the closing quote that follows `body`. */
  predicate EndsEscaped(body: string, escaped: bool) {
    if body == [] then escaped else body[|body| - 1] == '\\'
  }

  lemma {:induction false} QuotedBody(body: string, q: char, rest: string, acc: string, escaped: bool)
    requires NoClosingQuote(body, q, escaped) && !EndsEscaped(body, escaped)
    ensures Quoted(body + [q] + rest, q, acc, escaped) == [acc + body] + Words(rest, [], false)
    decreases |body|
  {
    if body == [] {
      assert body + [q] + rest == [q] + rest;
      assert ([q] + rest)[0] == q && ([q] + rest)[1..] == rest;
      assert acc + body == acc;
    } else {
      assert (body + [q] + rest)[1..] == body[1..] + [q] + rest;
      NoClosingQuoteTail(body, q, escaped);
      QuotedBody(body[1..], q, rest, acc + [body[0]], body[0] == '\\');
      assert acc + [body[0]] + body[1..] == acc + body;
    }
  }

  /**
   * A quote opened outside quotes (not after a backslash) is closed only by
   * an unescaped copy of the same character; everything between the two,
   * white space, operators, the other quote character and backslashes
   * included, becomes one token, possibly empty. Unquoted text pending in
   * front of the opening quote is discarded.
   */
  lemma QuotedToken(q: char, body: string, rest: string, word: string)
    requires IsQuote(q) && NoClosingQuote(body, q, false) && !EndsEscaped(body, false)
    ensures Words([q] + body + [q] + rest, word, false) == [body] + Words(rest, [], false)
  {
    assert ([q] + body + [q] + rest)[0] == q;
    assert ([q] + body + [q] + rest)[1..] == body + [q] + rest;
    QuotedBody(body, q, rest, [], false);
    assert [] + body == body;
  }

  lemma {:induction false} UnclosedBody(body: string, q: char, acc: string, escaped: bool)
    requires NoClosingQuote(body, q, escaped)
    ensures Quoted(body, q, acc, escaped) == []
    decreases |body|
  {
    if body != [] {
      NoClosingQuoteTail(body, q, escaped);
      UnclosedBody(body[1..], q, acc + [body[0]], body[0] == '\\');
    }
  }

  /**
   * A quote still open at the end of the line yields no token: the quoted
   * fragment and the unquoted text pending in front of the quote are both
   * dropped.
   */
  lemma UnterminatedQuoteDropped(q: char, body: string, word: string)
    requires IsQuote(q) && NoClosingQuote(body, q, false)
    ensures Words([q] + body, word, false) == []
  {
    assert ([q] + body)[1..] == body;
    UnclosedBody(body, q, [], false);
  }

  // ---------------------------------------------------------------------
  // Every token of every line

  /**
   * `line[j]` opens a quote that `line[k]` closes: the same quote character,
   * neither following a backslash, and no unescaped copy of it in between.
   */
  predicate QuotePair(line: string, j: nat, k: nat) {
    && j < k < |line| && IsQuote(line[j]) && line[k] == line[j]
    && !EscapedAt(line, j) && !EscapedAt(line, k)
    && NoClosingQuote(line[j + 1..k], line[j], false)
  }

  /** An operator, a plain word, or exactly the text between a pair of quotes of `line`. */
  predicate TokenOf(line: string, t: string) {
    || IsOperatorToken(t) || IsPlainWord(t)
    || exists j: nat, k: nat :: j < k < |line| && QuotePair(line, j, k) && t == line[j + 1..k]
  }

  /** The tokens read outside quotes from index `p` of `line` on. */
  lemma {:induction false} WordsTokens(line: string, p: nat, word: string, escaped: bool)
    requires p <= |line| && Unbroken(word) && escaped == EscapedAt(line, p)
    ensures forall t :: t in Words(line[p..], word, escaped) ==> TokenOf(line, t)
    decreases |line| - p
  {
    if p < |line| {
      var rest, c := line[p..], line[p];
      assert rest[0] == c && rest[1..] == line[p + 1..];
      assert word != [] ==> IsPlainWord(word);
      if IsQuote(c) && !escaped {
        assert line[p + 1..p + 1] == [];
        QuotedTokens(line, p, p + 1, false);
      } else if c == '>' && |rest| >= 2 && rest[1] == '>' {
        assert rest[2..] == line[p + 2..];
        WordsTokens(line, p + 2, [], false);
      } else if IsOperatorChar(c) || IsSpace(c) {
        WordsTokens(line, p + 1, [], false);
      } else {
        WordsTokens(line, p + 1, word + [c], c == '\\');
      }
    }
  }

  /** The tokens read inside the quote opened at `j`, from index `p` of `line` on. */
  lemma {:induction false} QuotedTokens(line: string, j: nat, p: nat, escaped: bool)
    requires j < p <= |line| && IsQuote(line[j]) && !EscapedAt(line, j) && escaped == EscapedAt(line, p)
    requires NoClosingQuote(line[j + 1..p], line[j], false)
    ensures forall t :: t in Quoted(line[p..], line[j], line[j + 1..p], escaped) ==> TokenOf(line, t)
    decreases |line| - p
  {
    if p < |line| {
      var q, body := line[j], line[j + 1..p];
      assert line[p..][0] == line[p] && line[p..][1..] == line[p + 1..];
      if line[p] == q && !escaped {
        assert QuotePair(line, j, p);
        WordsTokens(line, p + 1, [], false);
      } else {
        assert line[j + 1..p + 1] == body + [line[p]];
        QuoteExtends(body, q, escaped, line[p]);
        QuotedTokens(line, j, p + 1, line[p] == '\\');
      }
    }
  }

  /** A character that does not close the quote extends a body free of closing quotes. */
  lemma QuoteExtends(body: string, q: char, escaped: bool, c: char)
    requires IsQuote(q) && NoClosingQuote(body, q, false) && !(c == q && !escaped)
    requires escaped == EndsEscaped(body, false)
    ensures NoClosingQuote(body + [c], q, false)
  {
    var b := body + [c];
    forall k: nat | k < |b|
      ensures !ClosesQuote(b, k, q, false)
    {
      if k < |body| {
        assert !ClosesQuote(body, k, q, false);
      }
    }
  }

  /** Every token of a line read from a prefix of it is a token of the line as well. */
  lemma TokenOfPrefix(c: string, line: string, t: string)
    requires c <= line && TokenOf(c, t)
    ensures TokenOf(line, t)
  {
    if !IsOperatorToken(t) && !IsPlainWord(t) {
      var j: nat, k: nat :| j < k < |c| && QuotePair(c, j, k) && t == c[j + 1..k];
      assert c == line[..|c|];
      assert line[j] == c[j] && line[k] == c[k] && line[j + 1..k] == c[j + 1..k];
      assert EscapedAt(line, j) == EscapedAt(c, j) && At(line, k - 1) == At(c, k - 1);
      assert QuotePair(line, j, k);
    }
  }

  /**
   * Every token of every line is an operator, a non-empty plain word free of
   * white space and operator characters, or exactly the text between a quote
   * and the unescaped copy of it that closes it.
   */
  lemma EveryToken(line: string)
    ensures forall t :: t in Tokenize(line) ==> TokenOf(line, t)
  {
    var copy := CString(line);
    assert copy[0..] == copy;
    WordsTokens(copy, 0, [], false);
    forall t | t in Tokenize(line)
      ensures TokenOf(line, t)
    {
      TokenOfPrefix(copy, line, t);
    }
  }

  // ---------------------------------------------------------------------
  // The procedure itself, over the token array and the scratch copy of the line

  /** The first `|words|` slots of the token array point at copies of `words`. */
  predicate Holds(a: seq<Option<string>>, words: seq<string>) {
    |words| <= |a| && forall k :: 0 <= k < |words| ==> a[k] == Some(words[k])
  }

  lemma HoldsStore(a: seq<Option<string>>, words: seq<string>, w: string)
    requires Holds(a, words) && |words| < |a|
    ensures Holds(a[|words| := Some(w)], words + [w])
  {
  }

  lemma HoldsPrefix(a: seq<Option<string>>, b: seq<Option<string>>, words: seq<string>)
    requires Holds(a, words) && |words| <= |b| && b[..|words|] == a[..|words|]
    ensures Holds(b, words)
  {
    forall k | 0 <= k < |words|
      ensures b[k] == Some(words[k])
    {
      assert b[k] == b[..|words|][k];
    }
  }

  /**
   * The scratch copy of the line: from `start` on it still holds the line
   * and its NUL terminator, and it has a backslash exactly where the line
   * has one, so the `line_copy[i - 1]` test reads the line itself.
   */
  predicate Mirrors(copy: seq<char>, line: string, start: nat) {
    |copy| == |line| + 1
    && (forall k :: start <= k <= |line| ==> copy[k] == At(line, k))
    && (forall k :: 0 <= k < |line| ==> (copy[k] == '\\') == (line[k] == '\\'))
  }

  /** Writing a NUL over a non-backslash at `i` in front of the new `start` keeps the mirror. */
  lemma MirrorsCut(copy: seq<char>, line: string, start: nat, i: nat, next: nat)
    requires Mirrors(copy, line, start) && start <= i < next && i <= |line| && At(line, i) != '\\'
    ensures Mirrors(copy[i := '\0'], line, next)
  {
  }

  /** Putting the line's own character back at `i` keeps the mirror. */
  lemma MirrorsRestore(copy: seq<char>, line: string, start: nat, i: nat)
    requires Mirrors(copy, line, start) && i < |line|
    ensures Mirrors(copy[i := line[i]], line, start)
  {
  }

  lemma MirrorsAdvance(copy: seq<char>, line: string, start: nat, next: nat)
    requires Mirrors(copy, line, start) && start <= next
    ensures Mirrors(copy, line, next)
  {
  }

  lemma RunStep(line: string, s: LoopState)
    requires Valid(line, s) && s.i <= |line|
    ensures Run(line, s) == Run(line, Step(line, s))
  {
  }

  lemma NextChunk(n: nat)
    requires n % TokenChunk == 0
    ensures (n + TokenChunk) % TokenChunk == 0
  {
  }

  /** `realloc` of the token array by one chunk: the first `used` slots keep what they hold. */
  method Grow(tokens: array<Option<string>>, used: nat) returns (grown: array<Option<string>>)
    requires used <= tokens.Length
    ensures fresh(grown) && grown.Length == tokens.Length + TokenChunk
    ensures grown[..used] == tokens[..used]
  {
    grown := new Option<string>[tokens.Length + TokenChunk](_ => None);
    forall k | 0 <= k < used {
      grown[k] := tokens[k];
    }
  }

  /**
   * The repaired capacity check: when fewer than two slots are left, grow
   * the array by one chunk, keeping the tokens stored so far.
   */
  method MakeRoom(tokens: array<Option<string>>, position: nat, ghost emitted: seq<string>)
    returns (room: array<Option<string>>)
    requires Holds(tokens[..], emitted) && position == |emitted| <= tokens.Length
    requires tokens.Length % TokenChunk == 0
    ensures room == tokens || fresh(room)
    ensures Holds(room[..], emitted) && position + 2 <= room.Length && room.Length % TokenChunk == 0
  {
    room := tokens;
    if tokens.Length - position < 2 {
      room := Grow(tokens, position);
      HoldsPrefix(tokens[..], room[..], emitted);
      NextChunk(tokens.Length);
    }
  }

  /**
   * `lsh_split_line` with the capacity check repaired: the check runs after
   * every iteration, the `>>` one included, and keeps room for the two
   * stores the next iteration may make. The scratch copy `lineCopy` is cut
   * with NUL characters exactly where the C code cuts it, and each token is
   * the `strdup` of the copy from `start`. The result is a NULL-terminated
   * array whose strings are the tokens of the line.
   */
  method SplitLine(line: string) returns (tokens: array<Option<string>>)
    requires NoNul(line)
    ensures tokens.Length % TokenChunk == 0 && |Tokenize(line)| < tokens.Length
    ensures Argv(tokens[..]) == Tokenize(line)
  {
    tokens := new Option<string>[TokenChunk](_ => None);
    var position := 0;
    var len := |line|;
    var lineCopy := new char[len + 1](k => if 0 <= k < len then line[k] else '\0');
    var i, start, inQuote, quoteChar := 0, 0, false, '\0';
    ghost var emitted: seq<string> := [];
    while i <= len
      invariant Valid(line, LoopState(i, start, inQuote, quoteChar, emitted))
      invariant Run(line, LoopState(i, start, inQuote, quoteChar, emitted)) == Run(line, Initial)
      invariant fresh(tokens)
      invariant position == |emitted| && position + 2 <= tokens.Length && tokens.Length % TokenChunk == 0
      invariant Holds(tokens[..], emitted)
      invariant Mirrors(lineCopy[..], line, start)
      decreases len + 1 - i
    {
      var step;
      ghost var s := LoopState(i, start, inQuote, quoteChar, emitted);
      RunStep(line, s);
      step, start, inQuote, quoteChar, position, emitted :=
        Advance(line, lineCopy, tokens, i, start, inQuote, quoteChar, position, emitted);
      tokens := MakeRoom(tokens, position, emitted);
      i := i + step;
      assert LoopState(i, start, inQuote, quoteChar, emitted) == Step(line, s);
    }
    tokens[position] := None;
    ArgvStopsAt(tokens[..], position);
  }

  /**
   * The body of the `while (i <= len)` loop up to the capacity check: the
   * four branches of the C code, with the scratch copy cut where the C code
   * cuts it. The loop variables move exactly as `Step` says.
   */
  method Advance(line: string, lineCopy: array<char>, tokens: array<Option<string>>,
                 i: nat, start: nat, inQuote: bool, quoteChar: char, position: nat, ghost emitted: seq<string>)
    returns (step: nat, start': nat, inQuote': bool, quoteChar': char, position': nat, ghost emitted': seq<string>)
    requires NoNul(line) && i <= |line| && Valid(line, LoopState(i, start, inQuote, quoteChar, emitted))
    requires Mirrors(lineCopy[..], line, start)
    requires Holds(tokens[..], emitted) && position == |emitted| && position + 2 <= tokens.Length
    modifies lineCopy, tokens
    ensures LoopState(i + step, start', inQuote', quoteChar', emitted') == Step(line, LoopState(i, start, inQuote, quoteChar, emitted))
    ensures Mirrors(lineCopy[..], line, start')
    ensures Holds(tokens[..], emitted') && position' == |emitted'|
  {
    var len := |line|;
    var c := lineCopy[i];
    assert c == At(line, i);
    assert i > 0 ==> (lineCopy[i - 1] == '\\') == (At(line, i - 1) == '\\');
    assert i + 1 < len ==> lineCopy[i + 1] == line[i + 1];
    step, start', inQuote', quoteChar', position', emitted' := 1, start, inQuote, quoteChar, position, emitted;
    if (c == '"' || c == '\'') && (i == 0 || lineCopy[i - 1] != '\\') {
      if !inQuote {
        MirrorsAdvance(lineCopy[..], line, start, i + 1);
        inQuote', quoteChar', start' := true, c, i + 1;
      } else if c == quoteChar {
        emitted' := CutAndStore(lineCopy, tokens, position, start, i, line, emitted, i + 1);
        position', start', inQuote' := position + 1, i + 1, false;
      }
    } else if !inQuote && i + 1 < len && c == '>' && lineCopy[i + 1] == '>' {
      if i > start {
        emitted' := CutAndStore(lineCopy, tokens, position, start, i, line, emitted, i + 2);
        position' := position + 1;
      } else {
        MirrorsAdvance(lineCopy[..], line, start, i + 2);
      }
      emitted' := Store(tokens, position', ">>", emitted');
      position', step, start' := position' + 1, 2, i + 2;
    } else if !inQuote && (c == '<' || c == '>' || c == '|') {
      if i > start {
        emitted' := CutAndStore(lineCopy, tokens, position, start, i, line, emitted, i + 1);
        position' := position + 1;
        ghost var cut := lineCopy[..];
        lineCopy[i] := c;
        MirrorsRestore(cut, line, i + 1, i);
      } else {
        MirrorsAdvance(lineCopy[..], line, start, i + 1);
      }
      emitted' := Store(tokens, position', [c], emitted');
      position', start' := position' + 1, i + 1;
    } else if !inQuote && (IsSpace(c) || c == '\0') {
      if i > start {
        emitted' := CutAndStore(lineCopy, tokens, position, start, i, line, emitted, i + 1);
        position' := position + 1;
      } else {
        MirrorsAdvance(lineCopy[..], line, start, i + 1);
      }
      start' := i + 1;
    }
  }

  /** `tokens[position++] = strdup(word)`. */
  method Store(tokens: array<Option<string>>, position: nat, word: string, ghost emitted: seq<string>)
    returns (ghost stored: seq<string>)
    requires Holds(tokens[..], emitted) && position == |emitted| < tokens.Length
    modifies tokens
    ensures tokens[..] == old(tokens[..])[position := Some(word)]
    ensures stored == emitted + [word] && Holds(tokens[..], stored)
  {
    tokens[position] := Some(word);
    HoldsStore(old(tokens[..]), emitted, word);
    stored := emitted + [word];
  }

  /**
   * The `if (i > start)` flush: `line_copy[i] = '\0'` ends the pending word
   * and its `strdup` is stored. The copy still mirrors the line from the
   * next `start` on.
   */
  method CutAndStore(lineCopy: array<char>, tokens: array<Option<string>>, position: nat, start: nat, i: nat,
                     ghost line: string, ghost emitted: seq<string>, ghost next: nat)
    returns (ghost stored: seq<string>)
    requires NoNul(line) && Mirrors(lineCopy[..], line, start) && start <= i <= |line| && i < next
    requires At(line, i) != '\\'
    requires Holds(tokens[..], emitted) && position == |emitted| < tokens.Length
    modifies lineCopy, tokens
    ensures lineCopy[..] == old(lineCopy[..])[i := '\0'] && Mirrors(lineCopy[..], line, next)
    ensures tokens[..] == old(tokens[..])[position := Some(line[start..i])]
    ensures stored == emitted + [line[start..i]] && Holds(tokens[..], stored)
  {
    lineCopy[i] := '\0';
    MirrorsCut(old(lineCopy[..]), line, start, i, next);
    var word := Strdup(lineCopy, start, i, line);
    stored := Store(tokens, position, word, emitted);
  }

  /**
   * `strdup(&line_copy[start])` just after the loop wrote the NUL at `i`:
   * the copy holds `line[start..i]`.
   */
  method Strdup(lineCopy: array<char>, start: nat, i: nat, ghost line: string) returns (r: string)
    requires NoNul(line) && start <= i < lineCopy.Length && i <= |line|
    requires forall k :: start <= k < i ==> lineCopy[k] == line[k]
    requires lineCopy[i] == '\0'
    ensures r == line[start..i]
  {
    var tail := lineCopy[start..];
    assert tail[..i - start] == line[start..i];
    CStringOf(tail, line[start..i]);
    r := CString(tail);
  }

  // ---------------------------------------------------------------------
  // The capacity check as written

  /** How many of the stores at indices `from .. to - 1` land at or past slot `cap`. */
  function PastEnd(from: nat, to: nat, cap: nat): nat
    requires from <= to
  {
    if to <= cap then 0 else if from <= cap then to - cap else to - from
  }

  /**
   * The stores the C loop makes past the end of its token array,
   * from loop state `s` with `bufsize` slots. After an iteration the check
   * `position >= bufsize` grows the array by one chunk, except after the
   * `>>` branch, whose `continue` jumps over it; the final NULL store counts
   * as well.
   */
  function OverflowFrom(line: string, s: LoopState, bufsize: nat): (r: nat)
    requires Valid(line, s)
    ensures |Run(line, s)| < bufsize ==> r == 0
    decreases |line| + 1 - s.i
  {
    if s.i > |line| then (if |s.tokens| >= bufsize then 1 else 0)
    else
      var t := Step(line, s);
      var grown := if !AppendAt(line, s) && |t.tokens| >= bufsize then bufsize + TokenChunk else bufsize;
      PastEnd(|s.tokens|, |t.tokens|, bufsize) + OverflowFrom(line, t, grown)
  }

  /** The out-of-bounds stores `lsh_split_line(line)` makes as written. */
  function Overflow(line: string): (r: nat)
    ensures |Tokenize(line)| < TokenChunk ==> r == 0
  {
    OverflowFrom(CString(line), Initial, TokenChunk)
  }

  /** `n` copies of one character. */
  function Repeat(c: char, n: nat): string {
    seq(n, _ => c)
  }

  lemma PastEndSplit(from: nat, mid: nat, to: nat, cap: nat)
    requires from <= mid <= to
    ensures PastEnd(from, mid, cap) + PastEnd(mid, to, cap) == PastEnd(from, to, cap)
  {
  }

  /** From the `j`-th `>>` of a line made of `k` of them to the end of the loop. */
  lemma {:induction false} AppendRun(k: nat, s: LoopState)
    requires s.i == s.start == 2 * |s.tokens| <= 2 * k && !s.inQuote
    ensures OverflowFrom(Repeat('>', 2 * k), s, TokenChunk)
         == PastEnd(|s.tokens|, k, TokenChunk) + (if k >= 2 * TokenChunk then 1 else 0)
    decreases k - |s.tokens|
  {
    var line := Repeat('>', 2 * k);
    var t := Step(line, s);
    if |s.tokens| < k {
      assert AppendAt(line, s);
      assert t == s.(i := s.i + 2, start := s.i + 2, tokens := s.tokens + [">>"]);
      AppendRun(k, t);
      PastEndSplit(|s.tokens|, |s.tokens| + 1, k, TokenChunk);
    } else {
      assert t == s.(i := s.i + 1, start := s.i + 1);
    }
  }

  /**
   * A line of `k` `>>` operators in a row takes the `>>` branch on every
   * iteration, so the capacity check never runs while its `k` strings are
   * stored: every store past slot 63 lands outside the 64-slot array, and
   * from 128 operators on the terminating NULL does too.
   */
  lemma AppendFloodOverflows(k: nat)
    ensures Overflow(Repeat('>', 2 * k)) == (if k > TokenChunk then k - TokenChunk else 0) + (if k >= 2 * TokenChunk then 1 else 0)
  {
    assert CString(Repeat('>', 2 * k)) == Repeat('>', 2 * k);
    AppendRun(k, Initial);
  }

  /** 63 pipes followed by `a|`: the iteration that reads the last `|` stores two tokens. */
  function LateCheckLine(): string {
    Repeat('|', TokenChunk - 1) + "a|"
  }

  /** From the `j`-th leading `|` of `LateCheckLine` to the end of the loop. */
  lemma {:induction false} LateCheckRun(s: LoopState)
    requires s.i == s.start == |s.tokens| < TokenChunk && !s.inQuote
    ensures OverflowFrom(LateCheckLine(), s, TokenChunk) == 1
    decreases TokenChunk - s.i
  {
    var line := LateCheckLine();
    assert |line| == TokenChunk + 1;
    var t := Step(line, s);
    if s.i < TokenChunk - 1 {
      assert line[s.i] == '|';
      assert t == s.(i := s.i + 1, start := s.i + 1, tokens := s.tokens + ["|"]);
      LateCheckRun(t);
    } else {
      assert line[s.i] == 'a' && line[s.i + 1] == '|';
      assert t == s.(i := s.i + 1);
      assert line[t.start..t.i] == [line[s.i]] == "a";
      var u := Step(line, t);
      assert u == t.(i := t.i + 1, start := t.i + 1, tokens := s.tokens + ["a"] + ["|"]);
      var v := Step(line, u);
      assert v == u.(i := u.i + 1, start := u.i + 1);
      assert v.i > |line| && |v.tokens| == TokenChunk + 1;
      assert OverflowFrom(line, v, 2 * TokenChunk) == 0;
      assert OverflowFrom(line, u, 2 * TokenChunk) == 0;
      assert OverflowFrom(line, t, TokenChunk) == 1;
    }
  }

  /**
   * The check runs one iteration late when that iteration stores two
   * tokens (a pending word and an operator): on `LateCheckLine` the word
   * lands in slot 63 and the `|` in slot 64, one past the end of the
   * 64-slot array.
   */
  lemma LateCheckOverflows()
    ensures Overflow(LateCheckLine()) == 1
  {
    var line := LateCheckLine();
    assert NoNul(line) by {
      forall k | 0 <= k < |line|
        ensures line[k] != '\0'
      {
        assert line[k] == (if k < TokenChunk - 1 then '|' else "a|"[k - (TokenChunk - 1)]);
      }
    }
    assert CString(line) == line;
    LateCheckRun(Initial);
  }

  // ---------------------------------------------------------------------
  // Examples

  /** A plain word followed by nothing is one token. */
  lemma WordsPlain(w: string)
    requires w != [] && Unbroken(w) && forall k :: 0 <= k < |w| ==> !IsQuote(w[k]) && w[k] != '\\'
    ensures Words(w, [], false) == [w]
  {
    PlainText(w, [], [], false);
    assert w + [] == w && [] + w == w;
  }

  lemma WordsNoSpace()
    ensures Words("cmd>file", [], false) == ["cmd", ">", "file"]
  {
    var tail := ">file";
    var f := "file";
    assert Words(f, [], false) == [f] by {
      WordsPlain(f);
    }
    assert Words(tail, "cmd", false) == ["cmd"] + [">"] + [f] by {
      assert tail[0] == '>' && tail[1] == 'f' && tail[1..] == f;
    }
    assert Words("cmd>file", [], false) == Words(tail, "cmd", false) by {
      PlainText("cmd", tail, [], false);
      assert "cmd" + tail == "cmd>file" && [] + "cmd" == "cmd";
    }
    assert ["cmd"] + [">"] + [f] == ["cmd", ">", "file"];
  }

  /** The tail of `cmd > file` after the first word. */
  lemma WordsSpacedTail()
    ensures Words(" > file", "cmd", false) == ["cmd", ">", "file"]
  {
    var tail := " > file";
    var t2 := "> file";
    var t3 := " file";
    var f := "file";
    assert Words(t3, [], false) == [f] by {
      assert t3[0] == ' ' && t3[1..] == f;
      WordsPlain(f);
    }
    assert Words(t2, [], false) == [">"] + [f] by {
      assert t2[0] == '>' && t2[1] == ' ' && t2[1..] == t3;
    }
    assert tail[0] == ' ' && tail[1..] == t2;
  }

  lemma WordsSpaced()
    ensures Words("cmd > file", [], false) == ["cmd", ">", "file"]
  {
    var tail := " > file";
    WordsSpacedTail();
    PlainText("cmd", tail, [], false);
    assert "cmd" + tail == "cmd > file" && [] + "cmd" == "cmd";
  }

  lemma WordsQuotedPipe()
    ensures Words("a \"|\" b", [], false) == ["a", "|", "b"]
  {
    var l := "a \"|\" b";
    var t1 := " \"|\" b";
    var t2 := "\"|\" b";
    var r := " b";
    assert Words(r, [], false) == ["b"] by {
      assert r[0] == ' ' && r[1..] == "b";
      WordsPlain("b");
    }
    assert Words(t2, [], false) == ["|"] + Words(r, [], false) by {
      QuotedToken('"', "|", r, []);
      assert t2 == ['"'] + "|" + ['"'] + r;
    }
    assert Words(t1, "a", false) == ["a"] + Words(t2, [], false) by {
      assert t1[0] == ' ' && t1[1..] == t2;
    }
    assert Words(l, [], false) == Words(t1, "a", false) by {
      assert l[0] == 'a' && l[1..] == t1;
      assert [] + ['a'] == "a";
    }
    assert ["a"] + (["|"] + ["b"]) == ["a", "|", "b"];
  }

  /** An operator needs no surrounding white space: `cmd>file` splits in three. */
  lemma OperatorSplitsWord()
    ensures Tokenize("cmd>file") == ["cmd", ">", "file"]
  {
    assert NoNul("cmd>file");
    WordsNoSpace();
  }

  /** With white space around the operator the tokens are the same. */
  lemma OperatorBetweenSpaces()
    ensures Tokenize("cmd > file") == ["cmd", ">", "file"]
  {
    assert NoNul("cmd > file");
    WordsSpaced();
  }

  /** `>>` is matched before `>`: `>>>` is `>>` then `>`. */
  lemma LongestMatchFirst()
    ensures Tokenize(">>>") == [">>", ">"]
  {
    var l := ">>>";
    assert NoNul(l);
    assert Words(l[2..], [], false) == [">"] by {
      assert l[2..] == ">" && l[2..][1..] == [];
    }
    assert l[0] == '>' && l[1] == '>';
  }

  /** A quoted `|` is an ordinary token string, indistinguishable from the operator. */
  lemma QuotedPipeIsBare()
    ensures Tokenize("a \"|\" b") == ["a", "|", "b"]
  {
    assert NoNul("a \"|\" b");
    WordsQuotedPipe();
  }
}
