/** The backend's `calculate`: trim the expression, reject it when empty,
    rewrite the display symbols to ASCII operators, check every character
    against a whitelist, and only then hand it to the evaluator, whose outcome
    is mapped to a fixed error message or the formatted number. The two
    server entry points hold the same body; this one definition stands for
    both. Evaluation and number formatting are an oracle. */
module Backend {
  import opened Symbols

  /** The minus sign the backend rewrites besides the times and division
      signs. */
  const MinusSign: char := '\U{2212}'

  const EmptyMessage: string := "Error: Empty expression"
  const InvalidCharactersMessage: string := "Error: Invalid characters"
  const InvalidExpressionMessage: string := "Error: Invalid expression"
  const InvalidResultMessage: string := "Error: Invalid result"

  predicate IsErrorMessage(s: string) {
    s == EmptyMessage || s == InvalidCharactersMessage
    || s == InvalidExpressionMessage || s == InvalidResultMessage
  }

  // ---------------------------------------------------------------------
  // Trimming

  /** What `String.prototype.trim` strips: ECMAScript WhiteSpace (tab,
      vertical tab, form feed, byte order mark and every space separator)
      and LineTerminator (line feed, carriage return, line and paragraph
      separators). None of it is a display symbol. */
  predicate IsJsWhitespace(c: char)
    ensures IsJsWhitespace(c) ==> !IsDisplaySymbol(c)
  {
    c == '\t' || c == '\n' || c == '\U{000B}' || c == '\U{000C}' || c == '\r'
    || c == ' ' || c == '\U{00A0}' || c == '\U{1680}'
    || ('\U{2000}' <= c <= '\U{200A}')
    || c == '\U{2028}' || c == '\U{2029}' || c == '\U{202F}' || c == '\U{205F}'
    || c == '\U{3000}' || c == '\U{FEFF}'
  }

  /** Drops leading whitespace. */
  function TrimStart(s: string): (r: string)
    ensures |r| <= |s| && r == s[|s| - |r|..]
    ensures forall k :: 0 <= k < |s| - |r| ==> IsJsWhitespace(s[k])
    ensures r == [] || !IsJsWhitespace(r[0])
  {
    if s != [] && IsJsWhitespace(s[0]) then TrimStart(s[1..]) else s
  }

  /** Drops trailing whitespace. */
  function TrimEnd(s: string): (r: string)
    ensures |r| <= |s| && r == s[..|r|]
    ensures forall k :: |r| <= k < |s| ==> IsJsWhitespace(s[k])
    ensures r == [] || !IsJsWhitespace(r[|r| - 1])
  {
    if s != [] && IsJsWhitespace(s[|s| - 1]) then TrimEnd(s[..|s| - 1]) else s
  }

  /** `trim`: the result is no longer than the input and has whitespace at
      neither end. */
  function Trim(s: string): (r: string)
    ensures |r| <= |s|
    ensures r == [] || (!IsJsWhitespace(r[0]) && !IsJsWhitespace(r[|r| - 1]))
  {
    TrimEnd(TrimStart(s))
  }

  /** How many whitespace characters trimming removes at the front. */
  function LeadingCount(s: string): nat {
    |s| - |TrimStart(s)|
  }

  /** Trimming keeps a contiguous piece of the input and removes only
      whitespace around it (the piece has whitespace at neither end, as
      `Trim` states). */
  lemma TrimIsWhitespaceStrip(s: string)
    ensures LeadingCount(s) + |Trim(s)| <= |s|
    ensures Trim(s) == s[LeadingCount(s)..LeadingCount(s) + |Trim(s)|]
    ensures forall k :: 0 <= k < LeadingCount(s) ==> IsJsWhitespace(s[k])
    ensures forall k :: LeadingCount(s) + |Trim(s)| <= k < |s| ==> IsJsWhitespace(s[k])
  {
    var a := TrimStart(s);
    var r := TrimEnd(a);
    var i := |s| - |a|;
    assert Trim(s) == r && LeadingCount(s) == i;
    WhitespaceTailOfSuffix(s, i, |r|);
  }

  /** A whitespace tail of the suffix from `i` is a whitespace tail of the
      whole string, and what precedes it in the suffix is a slice of it. */
  lemma WhitespaceTailOfSuffix(s: string, i: nat, n: nat)
    requires i + n <= |s|
    requires forall k :: n <= k < |s| - i ==> IsJsWhitespace(s[i..][k])
    ensures s[i..][..n] == s[i..i + n]
    ensures forall k :: i + n <= k < |s| ==> IsJsWhitespace(s[k])
  {
    forall k | i + n <= k < |s|
      ensures IsJsWhitespace(s[k])
    {
      assert s[k] == s[i..][k - i];
    }
  }

  /** The input trims to nothing exactly when it is all whitespace. */
  lemma TrimEmptyIffAllWhitespace(s: string)
    ensures Trim(s) == [] <==> forall k :: 0 <= k < |s| ==> IsJsWhitespace(s[k])
  {
    TrimIsWhitespaceStrip(s);
    var a := TrimStart(s);
    if a != [] {
      assert a[0] == s[|s| - |a|];
    }
  }

  /** Trimming a trimmed string changes nothing. */
  lemma TrimIdempotent(s: string)
    ensures Trim(Trim(s)) == Trim(s)
  {
    var r := Trim(s);
    TrimIsWhitespaceStrip(s);
    if r != [] {
      assert TrimStart(r) == r;
      assert TrimEnd(r) == r;
    }
  }

  // ---------------------------------------------------------------------
  // Normalisation

  /** `replace(/from/g, to)` for a one-character pattern. */
  function ReplaceAll(s: string, from: char, to: char): (r: string)
    ensures |r| == |s|
    ensures forall i :: 0 <= i < |s| ==> r[i] == (if s[i] == from then to else s[i])
  {
    if s == [] then [] else [if s[0] == from then to else s[0]] + ReplaceAll(s[1..], from, to)
  }

  /** The three replacements, in order: times, division, minus sign. Together
      they act character by character: the length is kept, each display
      symbol becomes its ASCII operator, every other character stays. */
  function Normalize(s: string): (r: string)
    ensures |r| == |s|
    ensures forall i :: 0 <= i < |s| ==> r[i] == NormalizeChar(s[i])
  {
    ReplaceAll(ReplaceAll(ReplaceAll(s, TimesSign, '*'), DivideSign, '/'), MinusSign, '-')
  }

  /** What normalisation does to one character. */
  function NormalizeChar(c: char): char {
    if c == TimesSign then '*'
    else if c == DivideSign then '/'
    else if c == MinusSign then '-'
    else c
  }

  predicate IsDisplaySymbol(c: char) {
    c == TimesSign || c == DivideSign || c == MinusSign
  }

  /** No display symbol survives normalisation. */
  lemma NormalizeRemovesDisplaySymbols(s: string)
    ensures TimesSign !in Normalize(s) && DivideSign !in Normalize(s) && MinusSign !in Normalize(s)
  {
  }

  /** Normalising twice is normalising once. */
  lemma NormalizeIdempotent(s: string)
    ensures Normalize(Normalize(s)) == Normalize(s)
  {
  }

  // ---------------------------------------------------------------------
  // Whitelist

  // One character of the whitelist class: an ASCII digit, one of the
  // operators + - * / %, a `.`, a parenthesis or a plain space. All of them
  // are ASCII, none is a display symbol, and the space is the only
  // whitespace among them.
  predicate IsAllowedChar(c: char)
    ensures IsAllowedChar(c) ==> c as int < 0x80 && !IsDisplaySymbol(c)
    ensures IsAllowedChar(c) && IsJsWhitespace(c) ==> c == ' '
  {
    ('0' <= c <= '9') || c == '+' || c == '-' || c == '*' || c == '/'
    || c == '.' || c == '%' || c == '(' || c == ')' || c == ' '
  }

  // The whitelist test: a non-empty string of whitelist characters only,
  // anchored at both ends. Normalisation leaves a whitelisted string as it is.
  predicate Whitelisted(s: string)
    ensures Whitelisted(s) ==> |s| > 0 && Normalize(s) == s
  {
    |s| > 0 && forall i :: 0 <= i < |s| ==> IsAllowedChar(s[i])
  }

  /** A character that neither the whitelist nor normalisation admits. */
  predicate HasForeignChar(e: string) {
    exists i :: 0 <= i < |e| && !IsAllowedChar(e[i]) && !IsDisplaySymbol(e[i])
  }

  /** Before normalisation, the accepted alphabet is the whitelist plus the
      three display symbols. */
  lemma WhitelistAfterNormalize(e: string)
    ensures Whitelisted(Normalize(e)) <==>
      |e| > 0 && forall i :: 0 <= i < |e| ==> IsAllowedChar(e[i]) || IsDisplaySymbol(e[i])
  {
    if Whitelisted(Normalize(e)) {
      forall i | 0 <= i < |e|
        ensures IsAllowedChar(e[i]) || IsDisplaySymbol(e[i])
      {
        assert IsAllowedChar(Normalize(e)[i]);
      }
    }
  }

  // ---------------------------------------------------------------------
  // The decision procedure around the evaluator

  /** What evaluating and formatting an expression gives: a thrown error, a
      value that is not a number, a non-finite number, or the text of the
      rounded finite number. */
  datatype Outcome = Throws | NotNumber | NonFinite | Finite(text: string)

  /** The checks either answer with a message or pass an expression on to
      the evaluator. */
  datatype Stage = Reject(message: string) | Evaluate(expression: string)

  /** The checks in front of the evaluator. */
  function Prepare(input: string): (r: Stage)
    ensures r == Reject(EmptyMessage) <==> Trim(input) == []
    ensures r == Reject(InvalidCharactersMessage) <==>
      Trim(input) != [] && !Whitelisted(Normalize(Trim(input)))
    ensures r.Evaluate? <==> Whitelisted(Normalize(Trim(input)))
    ensures r.Evaluate? ==> r.expression == Normalize(Trim(input))
  {
    var expression := Trim(input);
    if expression == [] then Reject(EmptyMessage)
    else
      var js := Normalize(expression);
      if !Whitelisted(js) then Reject(InvalidCharactersMessage)
      else Evaluate(js)
  }

  /** How an outcome of the evaluator is reported: a finite number as its
      text, anything else as an error message, the invalid-expression one
      exactly for a throw. */
  function Report(o: Outcome): (r: string)
    ensures o.Finite? ==> r == o.text
    ensures !o.Finite? ==> IsErrorMessage(r)
    ensures !o.Finite? ==> (r == InvalidExpressionMessage <==> o == Throws)
  {
    match o
    case Throws => InvalidExpressionMessage
    case NotNumber => InvalidResultMessage
    case NonFinite => InvalidResultMessage
    case Finite(text) => text
  }

  /** `calculate`, with the evaluator passed in. It is total: it returns one
      of the four messages or the evaluator's finite text for the trimmed and
      normalised input. */
  function Calculate(input: string, evaluate: string -> Outcome): (r: string)
    ensures IsErrorMessage(r) || evaluate(Normalize(Trim(input))) == Finite(r)
  {
    match Prepare(input)
    case Reject(message) => message
    case Evaluate(js) => Report(evaluate(js))
  }

  /** The evaluator only ever sees a non-empty, trimmed, normalised string
      over the whitelist alphabet. */
  lemma EvaluatorInput(input: string)
    requires Prepare(input).Evaluate?
    ensures var js := Prepare(input).expression;
      js == Normalize(Trim(input)) && Whitelisted(js)
      && js[0] != ' ' && js[|js| - 1] != ' '
      && TimesSign !in js && DivideSign !in js && MinusSign !in js
  {
    var e := Trim(input);
    TrimIsWhitespaceStrip(input);
    NormalizeRemovesDisplaySymbols(e);
  }

  /** Empty or whitespace-only input is reported as empty, whatever the
      evaluator would do. */
  lemma WhitespaceOnlyIsEmpty(input: string, evaluate: string -> Outcome)
    requires forall k :: 0 <= k < |input| ==> IsJsWhitespace(input[k])
    ensures Calculate(input, evaluate) == EmptyMessage
  {
    TrimEmptyIffAllWhitespace(input);
  }

  /** A rejected character is reported without consulting the evaluator:
      any two evaluators give the same answer. */
  lemma InvalidCharactersSkipEvaluator(input: string, e1: string -> Outcome, e2: string -> Outcome)
    requires HasForeignChar(Trim(input))
    ensures Calculate(input, e1) == InvalidCharactersMessage
    ensures Calculate(input, e1) == Calculate(input, e2)
  {
    WhitelistAfterNormalize(Trim(input));
  }

  /** The evaluator's outcome decides the answer once the checks pass. */
  lemma OutcomeDecides(input: string, evaluate: string -> Outcome)
    requires Prepare(input).Evaluate?
    ensures var o := evaluate(Normalize(Trim(input)));
      (o == Throws ==> Calculate(input, evaluate) == InvalidExpressionMessage)
      && (o == NotNumber || o == NonFinite ==> Calculate(input, evaluate) == InvalidResultMessage)
      && (o.Finite? ==> Calculate(input, evaluate) == o.text)
  {
  }

  lemma {:induction false} TrimStartSkips(w: string, e: string)
    requires forall k :: 0 <= k < |w| ==> IsJsWhitespace(w[k])
    requires e == [] || !IsJsWhitespace(e[0])
    ensures TrimStart(w + e) == e
  {
    if w != [] {
      assert (w + e)[1..] == w[1..] + e;
      TrimStartSkips(w[1..], e);
    }
  }

  lemma {:induction false} TrimEndSkips(e: string, w: string)
    requires forall k :: 0 <= k < |w| ==> IsJsWhitespace(w[k])
    requires e == [] || !IsJsWhitespace(e[|e| - 1])
    ensures TrimEnd(e + w) == e
  {
    if w != [] {
      assert (e + w)[..|e + w| - 1] == e + w[..|w| - 1];
      TrimEndSkips(e, w[..|w| - 1]);
    }
  }

  /** Whitespace around an expression that neither starts nor ends with
      whitespace is exactly what trimming removes. */
  lemma TrimRemovesSurroundingWhitespace(before: string, e: string, after: string)
    requires forall k :: 0 <= k < |before| ==> IsJsWhitespace(before[k])
    requires forall k :: 0 <= k < |after| ==> IsJsWhitespace(after[k])
    requires e != [] && !IsJsWhitespace(e[0]) && !IsJsWhitespace(e[|e| - 1])
    ensures Trim(before + e + after) == e
  {
    assert before + e + after == before + (e + after);
    TrimStartSkips(before, e + after);
    TrimEndSkips(e, after);
  }

  /** Whitespace other than the plain space inside the trimmed expression is
      rejected, although trimming strips it at the ends. */
  lemma InteriorWhitespaceRejected(input: string, evaluate: string -> Outcome, i: int)
    requires 0 <= i < |Trim(input)|
    requires IsJsWhitespace(Trim(input)[i]) && Trim(input)[i] != ' '
    ensures Calculate(input, evaluate) == InvalidCharactersMessage
  {
    var e := Trim(input);
    assert !IsAllowedChar(e[i]) && !IsDisplaySymbol(e[i]);
    InvalidCharactersSkipEvaluator(input, evaluate, evaluate);
  }
}
