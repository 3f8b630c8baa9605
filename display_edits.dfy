/** The calculator's display editor: every button or key press maps the old
    display string to a new one by plain string manipulation (no arithmetic).
    These are the pure transitions; the class in module App holds the state. */
module DisplayEdits {
  import opened Symbols

  datatype Option<T> = None | Some(value: T)

  /** The characters the editor treats as operators on the display: its
      `operators` list and the character class it splits the display on. */
  predicate IsDisplayOperator(c: char) {
    c == '+' || c == '-' || c == TimesSign || c == DivideSign || c == '%'
  }

  /** An ASCII digit, which is also what `\d` matches in a regular expression
      without the unicode flag. */
  predicate IsDigit(c: char) {
    '0' <= c <= '9'
  }

  /** The five operators the buttons and the keyboard hand to the editor. */
  predicate IsOperatorKey(c: char) {
    c == '+' || c == '-' || c == '*' || c == '/' || c == '%'
  }

  predicate EndsWithOperator(d: string) {
    |d| > 0 && IsDisplayOperator(d[|d| - 1])
  }

  /** Two operator characters side by side somewhere in the display. */
  predicate HasAdjacentOperators(d: string) {
    exists k :: 0 <= k < |d| - 1 && IsDisplayOperator(d[k]) && IsDisplayOperator(d[k + 1])
  }

  /** `*` is shown as the times sign and `/` as the division sign. */
  function DisplaySymbol(op: char): (r: char)
    ensures r != '*' && r != '/'
    ensures IsOperatorKey(op) ==> IsDisplayOperator(r)
    ensures op == '*' ==> r == TimesSign
    ensures op == '/' ==> r == DivideSign
    ensures op != '*' && op != '/' ==> r == op
  {
    if op == '*' then TimesSign else if op == '/' then DivideSign else op
  }

  // ---------------------------------------------------------------------
  // Digits, backspace, clear

  /** A digit press appends the digit and keeps everything before it. */
  function PressDigit(d: string, digit: char): (r: string)
    ensures |r| == |d| + 1 && r[..|d|] == d && r[|d|] == digit
  {
    d + [digit]
  }

  /** `slice(0, -1)`: drop the last character; the empty display stays empty. */
  function Backspace(d: string): (r: string)
    ensures d == [] ==> r == []
    ensures d != [] ==> r + [d[|d| - 1]] == d
  {
    if d == [] then [] else d[..|d| - 1]
  }

  /** Clear empties the display whatever it held. */
  function Clear(d: string): (r: string)
    ensures |r| == 0
  {
    []
  }

  /** Backspace undoes a digit press exactly. */
  lemma BackspaceUndoesDigit(d: string, digit: char)
    ensures Backspace(PressDigit(d, digit)) == d
  {
  }

  // ---------------------------------------------------------------------
  // Operators

  /** An operator press: ignored on an empty display unless it is `-`;
      replaces a trailing operator; otherwise appends. */
  function PressOperator(d: string, op: char): (r: string)
    ensures d == [] ==> r == (if op == '-' then ['-'] else [])
    ensures EndsWithOperator(d) ==>
      |r| == |d| && r[..|d| - 1] == d[..|d| - 1] && r[|d| - 1] == DisplaySymbol(op)
    ensures d != [] && !EndsWithOperator(d) ==>
      |r| == |d| + 1 && r[..|d|] == d && r[|d|] == DisplaySymbol(op)
  {
    if d == [] && op != '-' then d
    else if EndsWithOperator(d) then d[..|d| - 1] + [DisplaySymbol(op)]
    else d + [DisplaySymbol(op)]
  }

  /** An operator press never creates a new pair of adjacent operator
      characters: every such pair in the result was already in the display. */
  lemma OperatorAddsNoAdjacentPair(d: string, op: char, k: int)
    requires 0 <= k && k + 1 < |PressOperator(d, op)|
    requires IsDisplayOperator(PressOperator(d, op)[k]) && IsDisplayOperator(PressOperator(d, op)[k + 1])
    ensures k + 1 < |d| && IsDisplayOperator(d[k]) && IsDisplayOperator(d[k + 1])
  {
    var r := PressOperator(d, op);
    if d == [] {
    } else if EndsWithOperator(d) {
      assert r[k] == d[k] by { assert r[..|d| - 1][k] == d[..|d| - 1][k]; }
      if k + 1 < |d| - 1 {
        assert r[k + 1] == d[k + 1] by { assert r[..|d| - 1][k + 1] == d[..|d| - 1][k + 1]; }
      }
    } else {
      assert r[k] == d[k] by { assert r[..|d|][k] == d[k]; }
      assert r[k + 1] == d[k + 1] by { assert r[..|d|][k + 1] == d[k + 1]; }
    }
  }

  /** Hence a display without adjacent operators keeps that shape. */
  lemma OperatorKeepsNoAdjacent(d: string, op: char)
    requires !HasAdjacentOperators(d)
    ensures !HasAdjacentOperators(PressOperator(d, op))
  {
    var r := PressOperator(d, op);
    forall k | 0 <= k < |r| - 1 && IsDisplayOperator(r[k])
      ensures !IsDisplayOperator(r[k + 1])
    {
      if IsDisplayOperator(r[k + 1]) {
        OperatorAddsNoAdjacentPair(d, op, k);
      }
    }
  }

  /** Operator presses never put `*` or `/` into the display. */
  lemma OperatorNeverShowsAsciiTimesOrDivide(d: string, op: char)
    requires '*' !in d && '/' !in d
    ensures '*' !in PressOperator(d, op) && '/' !in PressOperator(d, op)
  {
    var r := PressOperator(d, op);
    forall k | 0 <= k < |r|
      ensures r[k] != '*' && r[k] != '/'
    {
      if d == [] {
      } else if EndsWithOperator(d) {
        if k < |d| - 1 { assert r[k] == r[..|d| - 1][k] == d[k]; }
      } else {
        if k < |d| { assert r[k] == r[..|d|][k] == d[k]; }
      }
    }
  }

  /** On a non-empty display the last of two operator presses wins, so
      pressing the same operator twice is the same as pressing it once. */
  lemma LastOperatorWins(d: string, a: char, b: char)
    requires d != []
    requires IsOperatorKey(a)
    ensures PressOperator(PressOperator(d, a), b) == PressOperator(d, b)
  {
    var r := PressOperator(d, a);
    assert EndsWithOperator(r);
    if EndsWithOperator(d) {
      assert r[..|r| - 1] == d[..|d| - 1];
    } else {
      assert r[..|r| - 1] == d;
    }
  }

  // ---------------------------------------------------------------------
  // Decimal point

  /** The text after the last operator character: the last element of
      `split(/[+\-×÷%]/)`, the whole display when there is no operator. */
  function LastSegment(s: string): (r: string)
    ensures |r| <= |s| && r == s[|s| - |r|..]
    ensures forall i :: 0 <= i < |r| ==> !IsDisplayOperator(r[i])
    ensures |r| < |s| ==> IsDisplayOperator(s[|s| - |r| - 1])
  {
    if s == [] then []
    else if IsDisplayOperator(s[|s| - 1]) then []
    else LastSegment(s[..|s| - 1]) + [s[|s| - 1]]
  }

  /** A decimal press appends `.` unless the number being typed has one. */
  function PressDecimal(d: string): (r: string)
    ensures '.' !in LastSegment(d) <==> r == d + ['.']
    ensures '.' in LastSegment(d) <==> r == d
  {
    if '.' in LastSegment(d) then d else d + ['.']
  }

  function DotCount(s: string): nat {
    multiset(s)['.']
  }

  lemma LastSegmentAfterDot(d: string)
    ensures LastSegment(d + ['.']) == LastSegment(d) + ['.']
  {
    assert (d + ['.'])[..|d|] == d;
  }

  /** A decimal press never gives the number being typed a second `.`: after
      it that number holds exactly one. */
  lemma DecimalKeepsOneDot(d: string)
    requires DotCount(LastSegment(d)) <= 1
    ensures DotCount(LastSegment(PressDecimal(d))) == 1
  {
    var seg := LastSegment(d);
    if '.' in seg {
      assert multiset(seg)['.'] > 0;
    } else {
      LastSegmentAfterDot(d);
      assert multiset(seg + ['.']) == multiset(seg) + multiset{'.'};
    }
  }

  /** A second decimal press changes nothing. */
  lemma DecimalIdempotent(d: string)
    ensures PressDecimal(PressDecimal(d)) == PressDecimal(d)
  {
    if '.' !in LastSegment(d) {
      LastSegmentAfterDot(d);
      assert '.' in LastSegment(d) + ['.'];
    }
  }

  // ---------------------------------------------------------------------
  // Toggle sign

  /** `\d+\.?\d*`: a digit first, then digits with at most one `.`. */
  predicate IsUnsignedNumber(t: string) {
    |t| > 0 && IsDigit(t[0])
    && (forall i :: 0 <= i < |t| ==> IsDigit(t[i]) || t[i] == '.')
    && DotCount(t) <= 1
  }

  /** `-?\d+\.?\d*`: an unsigned number, optionally preceded by `-`. Such a
      text is non-empty and holds at most one `.`. */
  predicate IsNumberText(t: string)
    ensures IsNumberText(t) ==> |t| > 0 && DotCount(t) <= 1
  {
    assert |t| > 0 ==> t == [t[0]] + t[1..];
    IsUnsignedNumber(t) || (|t| > 0 && t[0] == '-' && IsUnsignedNumber(t[1..]))
  }

  /** A number text holds only digits and `.`, apart from a leading `-`. */
  lemma NumberTextChars(t: string, k: int)
    requires IsNumberText(t) && 0 <= k < |t|
    ensures IsDigit(t[k]) || t[k] == '.' || (k == 0 && t[k] == '-')
  {
    if !IsUnsignedNumber(t) && k > 0 {
      assert t[k] == t[1..][k - 1];
    }
  }

  /** The leftmost start at or after `i` of a match of `-?\d+\.?\d*` that
      runs to the end of `s`, as the regular expression engine finds it. */
  function TrailingNumberFrom(s: string, i: nat): (r: Option<nat>)
    requires i <= |s|
    ensures r.Some? ==> i <= r.value < |s| && IsNumberText(s[r.value..])
    ensures r.Some? ==> forall j :: i <= j < r.value ==> !IsNumberText(s[j..])
    ensures r.None? ==> forall j :: i <= j <= |s| ==> !IsNumberText(s[j..])
    decreases |s| - i
  {
    if i == |s| then None
    else if IsNumberText(s[i..]) then Some(i)
    else TrailingNumberFrom(s, i + 1)
  }

  function TrailingNumber(s: string): Option<nat> {
    TrailingNumberFrom(s, 0)
  }

  /** `startsWith('-')` decides whether the sign is dropped or added: the
      result loses the leading `-` exactly when there is one, and gains one
      exactly when there is none. */
  function FlipSign(m: string): (r: string)
    ensures ['-'] + r == m <==> |m| > 0 && m[0] == '-'
    ensures r == ['-'] + m <==> |m| == 0 || m[0] != '-'
  {
    if |m| > 0 && m[0] == '-' then m[1..] else ['-'] + m
  }

  /** The display changes exactly when it ends in a number text, and then
      only by one `-` more or one `-` fewer. */
  function ToggleSign(d: string): (r: string)
    ensures r == d <==> TrailingNumber(d).None?
    ensures r != d ==> |r| == |d| + 1 || |r| + 1 == |d|
  {
    if d == [] then d
    else match TrailingNumber(d)
      case None => d
      case Some(p) => d[..p] + FlipSign(d[p..])
  }

  /** Toggling adds or removes one `-` and leaves every other character. */
  lemma ToggleSignOnlyMovesMinus(d: string)
    requires TrailingNumber(d).Some?
    ensures multiset(ToggleSign(d)) == multiset(d) + multiset{'-'}
      || multiset(ToggleSign(d)) + multiset{'-'} == multiset(d)
  {
    var p := TrailingNumber(d).value;
    var m := d[p..];
    assert d == d[..p] + m;
    if m[0] == '-' {
      assert m == ['-'] + m[1..];
    }
  }

  /** The leftmost trailing match is the one the search returns. */
  lemma LeftmostIsTrailingNumber(s: string, p: nat)
    requires p <= |s| && IsNumberText(s[p..])
    requires forall j :: 0 <= j < p ==> !IsNumberText(s[j..])
    ensures TrailingNumber(s) == Some(p)
  {
  }

  /** Without a trailing number the display is unchanged. */
  lemma ToggleSignWithoutNumber(d: string)
    requires forall j :: 0 <= j <= |d| ==> !IsNumberText(d[j..])
    ensures ToggleSign(d) == d
  {
  }

  /** With the leftmost trailing number starting at `p`, the prefix is kept
      and the number gains or loses one leading `-`. */
  lemma ToggleSignAt(d: string, p: nat)
    requires p <= |d| && IsNumberText(d[p..])
    requires forall j :: 0 <= j < p ==> !IsNumberText(d[j..])
    ensures d[p] == '-' ==> ToggleSign(d) == d[..p] + d[p + 1..]
    ensures d[p] != '-' ==> ToggleSign(d) == d[..p] + ['-'] + d[p..]
  {
    LeftmostIsTrailingNumber(d, p);
    assert d[p..][0] == d[p];
    assert d[p..][1..] == d[p + 1..];
  }

  /** A character that is neither a digit nor `.`, and not a `-` in first
      position, rules a string out as a number text. */
  lemma NotNumberText(t: string, k: int)
    requires 0 <= k < |t| && !IsDigit(t[k]) && t[k] != '.' && (k == 0 ==> t[k] != '-')
    ensures !IsNumberText(t)
  {
    if IsNumberText(t) {
      NumberTextChars(t, k);
    }
  }

  /** A blocking character at `b` rules out every match starting before `p`. */
  lemma NoMatchBefore(t: string, b: nat, p: nat)
    requires p <= b + 1 && b < |t|
    requires !IsDigit(t[b]) && t[b] != '.' && (t[b] == '-' ==> p <= b)
    ensures forall j :: 0 <= j < p ==> !IsNumberText(t[j..])
  {
    forall j | 0 <= j < p
      ensures !IsNumberText(t[j..])
    {
      assert t[j..][b - j] == t[b];
      NotNumberText(t[j..], b - j);
    }
  }

  /** A number text starting with `-` at `p` is where the toggle matches: no
      match can start earlier and run across that `-`. */
  lemma ToggleSignAtSign(t: string, p: nat)
    requires p <= |t| && IsNumberText(t[p..]) && t[p] == '-'
    ensures ToggleSign(t) == t[..p] + t[p + 1..]
  {
    NoMatchBefore(t, p, p);
    ToggleSignAt(t, p);
  }

  /** A number text at `p` that follows a character which cannot extend a
      number (or starts the display) is where the toggle matches. */
  lemma ToggleSignAfterBlock(t: string, p: nat)
    requires p <= |t| && IsNumberText(t[p..])
    requires p > 0 ==> !IsDigit(t[p - 1]) && t[p - 1] != '.' && t[p - 1] != '-'
    ensures t[p] == '-' ==> ToggleSign(t) == t[..p] + t[p + 1..]
    ensures t[p] != '-' ==> ToggleSign(t) == t[..p] + ['-'] + t[p..]
  {
    if p > 0 {
      NoMatchBefore(t, p - 1, p);
    }
    ToggleSignAt(t, p);
  }

  /** Toggling the display with a `-` put in front of the unsigned number at
      `p` removes that `-` again. */
  lemma AddedSignRemoved(d: string, p: nat)
    requires p <= |d| && IsNumberText(d[p..]) && d[p] != '-'
    ensures ToggleSign(d[..p] + ['-'] + d[p..]) == d
  {
    SignInserted(d, p);
    ToggleSignAtSign(d[..p] + ['-'] + d[p..], p);
    assert d[..p] + d[p..] == d;
  }

  /** Putting a `-` in front of the unsigned number at `p` gives a signed
      number at `p` and keeps the rest of the display around it. */
  lemma SignInserted(d: string, p: nat)
    requires p <= |d| && IsNumberText(d[p..]) && d[p] != '-'
    ensures var t := d[..p] + ['-'] + d[p..];
      IsNumberText(t[p..]) && t[p] == '-' && t[..p] == d[..p] && t[p + 1..] == d[p..]
  {
    var t := d[..p] + ['-'] + d[p..];
    assert IsUnsignedNumber(d[p..]);
    assert t[p..] == ['-'] + d[p..];
    assert t[p..][1..] == d[p..];
  }

  /** Toggling the display with the leading `-` at `p` dropped puts that `-`
      back, provided the character before `p` cannot extend a number. */
  lemma RemovedSignRestored(d: string, p: nat)
    requires p <= |d| && IsNumberText(d[p..]) && d[p] == '-'
    requires p > 0 ==> !IsDigit(d[p - 1]) && d[p - 1] != '.' && d[p - 1] != '-'
    ensures ToggleSign(d[..p] + d[p + 1..]) == d
  {
    SignDropped(d, p);
    ToggleSignAfterBlock(d[..p] + d[p + 1..], p);
  }

  /** Dropping the leading `-` of the number at `p` leaves an unsigned number
      at `p`; putting the `-` back in front of it gives the display again. */
  lemma SignDropped(d: string, p: nat)
    requires p <= |d| && IsNumberText(d[p..]) && d[p] == '-'
    ensures var t := d[..p] + d[p + 1..];
      IsNumberText(t[p..]) && t[p] != '-' && (p > 0 ==> t[p - 1] == d[p - 1])
      && d == t[..p] + ['-'] + t[p..]
  {
    var u := d[p + 1..];
    var t := d[..p] + u;
    assert d[p..] == ['-'] + u;
    assert IsUnsignedNumber(u) by {
      assert !IsUnsignedNumber(d[p..]);
      assert d[p..][1..] == u;
    }
    assert t[p..] == u && t[..p] == d[..p];
    assert d == d[..p] + d[p..];
  }

  /** Toggling twice restores the display when the trailing number was
      unsigned. */
  lemma ToggleSignTwiceUnsigned(d: string, p: nat)
    requires p <= |d| && IsNumberText(d[p..]) && d[p] != '-'
    requires forall j :: 0 <= j < p ==> !IsNumberText(d[j..])
    ensures ToggleSign(ToggleSign(d)) == d
  {
    ToggleSignAt(d, p);
    AddedSignRemoved(d, p);
  }

  /** Toggling twice also restores a signed trailing number, provided the
      character before it cannot extend a number (not a digit, `.` or `-`). */
  lemma ToggleSignTwiceSigned(d: string, p: nat)
    requires p <= |d| && IsNumberText(d[p..]) && d[p] == '-'
    requires forall j :: 0 <= j < p ==> !IsNumberText(d[j..])
    requires p > 0 ==> !IsDigit(d[p - 1]) && d[p - 1] != '.' && d[p - 1] != '-'
    ensures ToggleSign(ToggleSign(d)) == d
  {
    ToggleSignAt(d, p);
    RemovedSignRestored(d, p);
  }

  /** The `-` of the subtraction in "5-3" is taken as the sign of the
      trailing number, which loses it. */
  lemma SubtractionSignDropped()
    ensures ToggleSign("5-3") == "53"
  {
    var s := "5-3";
    NotNumberText(s, 1);
    assert s[0..] == s;
    var m := s[1..];
    assert m == "-3" && m[1..] == "3";
    assert multiset(m[1..])['.'] == 0;
    assert IsNumberText(m);
    ToggleSignAt(s, 1);
    assert s[..1] + s[2..] == "53";
  }

  /** "53" is a number from its first character on, so it gains a `-`. */
  lemma WholeNumberSigned()
    ensures ToggleSign("53") == "-53"
  {
    var t := "53";
    assert multiset(t) == multiset{'5', '3'};
    assert t[0..] == t && IsNumberText(t);
    ToggleSignAt(t, 0);
    assert t[..0] + ['-'] + t[0..] == "-53";
  }

  /** The counter-case: "5-3" toggles to "53", and toggling again does not
      restore "5-3". */
  lemma ToggleSignSubtraction()
    ensures ToggleSign("5-3") == "53"
    ensures ToggleSign(ToggleSign("5-3")) == "-53"
  {
    SubtractionSignDropped();
    WholeNumberSigned();
  }

  // ---------------------------------------------------------------------
  // What the buttons can type

  /** Digits, `.` and the display operators: every character a button puts
      on the display. */
  predicate InEditorAlphabet(d: string) {
    forall i :: 0 <= i < |d| ==> IsDigit(d[i]) || d[i] == '.' || IsDisplayOperator(d[i])
  }

  /** Toggling the sign only adds or removes a `-`. */
  lemma ToggleSignKeepsAlphabet(d: string)
    requires InEditorAlphabet(d)
    ensures InEditorAlphabet(ToggleSign(d))
  {
    if d != [] && TrailingNumber(d).Some? {
      var p := TrailingNumber(d).value;
      var r := ToggleSign(d);
      forall i | 0 <= i < |r|
        ensures IsDigit(r[i]) || r[i] == '.' || IsDisplayOperator(r[i])
      {
        if i < p {
          assert r[i] == d[..p][i];
        } else if d[p] == '-' {
          assert r[i] == d[p + 1..][i - p];
        } else if i > p {
          assert r[i] == d[p..][i - p - 1];
        }
      }
    }
  }

  /** An operator press keeps the display within the editor alphabet. */
  lemma OperatorKeepsAlphabet(d: string, op: char)
    requires InEditorAlphabet(d) && IsOperatorKey(op)
    ensures InEditorAlphabet(PressOperator(d, op))
  {
    var r := PressOperator(d, op);
    forall i | 0 <= i < |r|
      ensures IsDigit(r[i]) || r[i] == '.' || IsDisplayOperator(r[i])
    {
      if d != [] && EndsWithOperator(d) && i < |d| - 1 {
        assert r[i] == r[..|d| - 1][i];
      } else if d != [] && !EndsWithOperator(d) && i < |d| {
        assert r[i] == r[..|d|][i];
      }
    }
  }

  /** Digit, decimal, backspace and clear presses keep the display within
      the editor alphabet. */
  lemma EditsKeepAlphabet(d: string, digit: char)
    requires InEditorAlphabet(d) && IsDigit(digit)
    ensures InEditorAlphabet(PressDigit(d, digit))
    ensures InEditorAlphabet(PressDecimal(d))
    ensures InEditorAlphabet(Backspace(d))
    ensures InEditorAlphabet(Clear(d))
  {
    if d != [] {
      assert forall i :: 0 <= i < |Backspace(d)| ==> Backspace(d)[i] == d[i];
    }
  }

  // ---------------------------------------------------------------------
  // Keyboard

  /** JavaScript's `a <= b` on strings: lexicographic by code unit. It is
      reflexive and total, and the first differing character decides. */
  predicate LexLeq(a: string, b: string)
    ensures a == b ==> LexLeq(a, b)
    ensures LexLeq(a, b) && a != [] ==> b != [] && a[0] <= b[0]
    ensures a != [] && b != [] && a[0] < b[0] ==> LexLeq(a, b)
  {
    if a == [] then true
    else if b == [] then false
    else if a[0] != b[0] then a[0] < b[0]
    else LexLeq(a[1..], b[1..])
  }

  /** Any two strings compare one way or the other. */
  lemma {:induction false} LexLeqTotal(a: string, b: string)
    ensures LexLeq(a, b) || LexLeq(b, a)
  {
    if a != [] && b != [] && a[0] == b[0] {
      LexLeqTotal(a[1..], b[1..]);
    }
  }

  /** The digit test `key >= '0' && key <= '9'`: a key that passes starts
      with a digit. */
  predicate IsDigitKey(key: string)
    ensures IsDigitKey(key) ==> |key| > 0 && IsDigit(key[0])
  {
    LexLeq("0", key) && LexLeq(key, "9")
  }

  /** The digit test admits exactly the keys whose first character is `0`
      to `8`, and the key `9`; for one-character keys that is a digit. */
  lemma DigitKeyExactly(key: string)
    ensures IsDigitKey(key) <==> |key| > 0 && ('0' <= key[0] <= '8' || key == "9")
    ensures |key| == 1 ==> (IsDigitKey(key) <==> IsDigit(key[0]))
  {
    if |key| > 0 && key[0] == '0' {
      assert LexLeq("0", key) by { assert "0"[1..] == []; }
    }
    if |key| > 0 && key[0] == '9' {
      assert "9"[1..] == [];
      if |key| > 1 {
        assert !LexLeq(key[1..], "9"[1..]);
      } else {
        assert key == "9";
      }
    }
  }

  /** What a key press does: set the display, ask for evaluation (handled
      elsewhere), or nothing at all. */
  datatype KeyEffect = SetDisplay(display: string) | RequestEquals | Ignored

  /** A key press: the digit test comes first, Enter and `=` are the only
      keys that request evaluation, and every display change is one of the
      button transitions (with a digit key appended whole). */
  function KeyDown(d: string, key: string): (r: KeyEffect)
    ensures IsDigitKey(key) ==> r == SetDisplay(d + key)
    ensures r == RequestEquals ==> key == "Enter" || key == "="
    ensures r.SetDisplay? ==>
      r.display == d + key || r.display == PressDecimal(d) || r.display == Backspace(d)
      || r.display == Clear(d) || (|key| == 1 && r.display == PressOperator(d, key[0]))
  {
    if IsDigitKey(key) then SetDisplay(d + key)
    else if |key| == 1 && IsOperatorKey(key[0]) then SetDisplay(PressOperator(d, key[0]))
    else if key == "." then SetDisplay(PressDecimal(d))
    else if key == "Enter" || key == "=" then RequestEquals
    else if key == "Backspace" then SetDisplay(Backspace(d))
    else if key == "Escape" || key == "c" || key == "C" then SetDisplay([])
    else Ignored
  }

  /** The display after a key press; equals and unknown keys leave it alone. */
  function AfterKey(d: string, e: KeyEffect): string {
    match e
    case SetDisplay(x) => x
    case _ => d
  }

  /** A digit key does what the digit button does. */
  lemma DigitKeyMatchesButton(d: string, c: char)
    requires IsDigit(c)
    ensures KeyDown(d, [c]) == SetDisplay(PressDigit(d, c))
  {
    DigitKeyExactly([c]);
  }

  /** An operator key does what the operator button does. */
  lemma OperatorKeyMatchesButton(d: string, c: char)
    requires IsOperatorKey(c)
    ensures KeyDown(d, [c]) == SetDisplay(PressOperator(d, c))
  {
    DigitKeyExactly([c]);
  }

  /** The `.` key does what the decimal button does. */
  lemma DecimalKeyMatchesButton(d: string)
    ensures KeyDown(d, ".") == SetDisplay(PressDecimal(d))
  {
    var key := ".";
    assert |key| == 1 && key[0] == '.';
    assert !IsDigitKey(key);
    assert !IsOperatorKey(key[0]);
  }

  /** The Backspace key does what the backspace button does. */
  lemma BackspaceKeyMatchesButton(d: string)
    ensures KeyDown(d, "Backspace") == SetDisplay(Backspace(d))
  {
    var key := "Backspace";
    assert |key| > 1 && key[0] == 'B';
    assert !IsDigitKey(key);
  }

  /** Escape, `c` and `C` do what the Clear button does. */
  lemma ClearKeysMatchButton(d: string)
    ensures KeyDown(d, "Escape") == SetDisplay(Clear(d))
    ensures KeyDown(d, "c") == SetDisplay(Clear(d))
    ensures KeyDown(d, "C") == SetDisplay(Clear(d))
  {
    var escape, lower, upper := "Escape", "c", "C";
    assert |escape| > 1 && escape[0] == 'E' && !IsDigitKey(escape);
    assert |lower| == 1 && lower[0] == 'c' && !IsDigitKey(lower) && !IsOperatorKey(lower[0]);
    assert |upper| == 1 && upper[0] == 'C' && !IsDigitKey(upper) && !IsOperatorKey(upper[0]);
  }

  /** Enter and `=` hand over to evaluation and leave the display alone. */
  lemma EqualsKeysRequestEvaluation(d: string)
    ensures KeyDown(d, "Enter") == RequestEquals
    ensures KeyDown(d, "=") == RequestEquals
  {
    var enter, equals := "Enter", "=";
    assert |enter| > 1 && enter[0] == 'E' && !IsDigitKey(enter);
    assert |equals| == 1 && equals[0] == '=' && !IsDigitKey(equals) && !IsOperatorKey(equals[0]);
  }

  /** Any other key leaves the display unchanged. */
  lemma UnknownKeyIgnored(d: string, key: string)
    requires |key| == 0 || !('0' <= key[0] <= '8')
    requires key != "9" && (|key| != 1 || !IsOperatorKey(key[0]))
    requires key !in {".", "Enter", "=", "Backspace", "Escape", "c", "C"}
    ensures KeyDown(d, key) == Ignored
    ensures AfterKey(d, KeyDown(d, key)) == d
  {
    DigitKeyExactly(key);
  }
}
