# Calculator: display editor and backend `calculate`

This project models the two pieces of logic in a browser calculator.

The **display editor** (`src/App.jsx`) holds one string, `display`. Each
button or key press maps the old display to a new one by plain string
manipulation:

- append a digit;
- add an operator, or replace a trailing one, showing `*` as `×` and `/` as `÷`;
- add a `.` at most once per number;
- backspace;
- clear;
- toggle the sign of the trailing number.

Module `DisplayEdits` holds these transitions as pure functions and proves
their properties. Module `App` holds the class `Calculator`. Its field
`display` is overwritten by one method per handler, and each method
delegates to its transition.

The **backend `calculate`** (`cdk/lambda/index.js` and `cdk/lambda/server.js`)
runs these steps in order:

1. trim the input;
2. reject it when it is empty;
3. rewrite `×`, `÷` and `−` (U+2212) to `*`, `/` and `-`;
4. check every character against a whitelist;
5. evaluate the expression and map the outcome to one of four fixed error
   strings or to the formatted number.

The two files hold the same function body, so module `Backend` defines it once.
Evaluation, rounding and formatting are an oracle, a parameter
`evaluate: string -> Outcome` with
`Outcome = Throws | NotNumber | NonFinite | Finite(text)`.
`Prepare` is the chain of checks in front of the oracle: it either answers
with a message or hands over the string to evaluate. `Calculate` joins the
checks to the oracle.

Module `Symbols` holds the `×` and `÷` characters that the editor shows and
the backend rewrites, so both halves use one definition. Module `Wiring`
connects the two halves. Any non-empty display typed with the
buttons passes the backend's checks and reaches the evaluator in normalised
form.

Modelling notes:

- Toggle sign uses the regular expression `-?\d+\.?\d*` anchored at the end.
  The model takes the leftmost start `p` such that `d[p..]` is a number text.
  That is the match a backtracking engine returns.
- The keyboard's digit test `key >= '0' && key <= '9'` compares strings
  lexicographically, and `LexLeq` models that comparison.
- `key.toLowerCase() === 'c'` is modelled as the key being `c` or `C`.
- Trimming strips the ECMAScript WhiteSpace and LineTerminator characters.

## Model

| member | source | states |
|---|---|---|
| `DisplayEdits.DisplaySymbol` | src/App.jsx:28-30 | `*` is shown as `×` and `/` as `÷`; every other character is shown unchanged; so the shown symbol is never `*` or `/`, and each operator key maps to a display operator |
| `DisplayEdits.PressDigit` | src/App.jsx:7-9 | a digit press makes the display one longer, keeps the old display as its prefix and puts the digit last |
| `DisplayEdits.Clear` | src/App.jsx:44-46 | clearing leaves the empty display whatever was shown |
| `DisplayEdits.BackspaceUndoesDigit` | src/App.jsx:7-9 | backspace after a digit press restores the old display |
| `DisplayEdits.Backspace` | src/App.jsx:48-50 | the empty display stays empty; otherwise the result followed by the dropped last character is the old display |
| `DisplayEdits.PressOperator` | src/App.jsx:11-33 | on an empty display, `-` gives `"-"` and any other operator changes nothing; a trailing operator is overwritten in place (same length, earlier characters kept); otherwise the shown symbol is appended |
| `DisplayEdits.OperatorAddsNoAdjacentPair` | src/App.jsx:15-25 | every pair of adjacent operator characters after an operator press was already in the display at the same place |
| `DisplayEdits.OperatorKeepsNoAdjacent` | src/App.jsx:15-32 | a display without adjacent operators keeps none after an operator press |
| `DisplayEdits.OperatorNeverShowsAsciiTimesOrDivide` | src/App.jsx:20-31 | operator presses never put `*` or `/` into the display |
| `DisplayEdits.LastOperatorWins` | src/App.jsx:18-24 | on a non-empty display, pressing operator `a` then `b` equals pressing `b` alone, so a repeated operator press is idempotent |
| `DisplayEdits.LastSegment` | src/App.jsx:37-38 | the last piece of the split is the suffix after the last `+ - × ÷ %`: it holds no operator and is the whole display or is preceded by an operator |
| `DisplayEdits.PressDecimal` | src/App.jsx:35-42 | `.` is appended exactly when the last segment has no `.`; otherwise the display is unchanged |
| `DisplayEdits.DecimalKeepsOneDot` | src/App.jsx:36-41 | if the number being typed has at most one `.`, after a decimal press it has exactly one |
| `DisplayEdits.DecimalIdempotent` | src/App.jsx:39-41 | a second decimal press changes nothing |
| `DisplayEdits.IsNumberText` | src/App.jsx:56 | a text matching `-?\d+\.?\d*` is non-empty and holds at most one `.` |
| `DisplayEdits.NumberTextChars` | src/App.jsx:56 | every character of such a text is a digit or `.`, except a `-` in first position |
| `DisplayEdits.TrailingNumberFrom` | src/App.jsx:56-57 | the search returns the leftmost start from which the rest of the display is a number text `-?\d+\.?\d*`, or reports that none exists |
| `DisplayEdits.FlipSign` | src/App.jsx:63-68 | the number loses its leading `-` exactly when it has one, and gains one exactly when it has none |
| `DisplayEdits.ToggleSign` | src/App.jsx:52-72 | the display changes exactly when it ends in a number text, and then grows or shrinks by one character |
| `DisplayEdits.ToggleSignOnlyMovesMinus` | src/App.jsx:59-70 | when the toggle applies it adds or removes one `-` and no other character |
| `DisplayEdits.LeftmostIsTrailingNumber` | src/App.jsx:56-61 | the leftmost matching start is the match position the toggle uses |
| `DisplayEdits.ToggleSignWithoutNumber` | src/App.jsx:53-59 | without a trailing number text the display is unchanged |
| `DisplayEdits.ToggleSignAt` | src/App.jsx:59-70 | with the match at `p`, the prefix before `p` is kept and the match loses its leading `-` or gains one |
| `DisplayEdits.ToggleSignAtSign` | src/App.jsx:56-70 | a number text that starts with `-` is where the toggle matches, so the toggle drops that `-` |
| `DisplayEdits.ToggleSignAfterBlock` | src/App.jsx:56-70 | a number text at the start of the display, or after a character that is not a digit, `.` or `-`, is where the toggle matches |
| `DisplayEdits.AddedSignRemoved` | src/App.jsx:63-70 | toggling a display in which a `-` was put in front of the unsigned number at `p` removes that `-` again |
| `DisplayEdits.RemovedSignRestored` | src/App.jsx:63-70 | toggling a display whose number at `p` lost its leading `-` puts the `-` back, when the character before `p` cannot extend a number |
| `DisplayEdits.ToggleSignTwiceUnsigned` | src/App.jsx:64-70 | toggling twice restores the display when the trailing number had no leading `-` |
| `DisplayEdits.ToggleSignTwiceSigned` | src/App.jsx:63-70 | toggling twice restores a signed trailing number when the character before it is not a digit, `.` or `-` |
| `DisplayEdits.SubtractionSignDropped` | src/App.jsx:56-70 | `"5-3"` toggles to `"53"`, because the subtraction's `-` is read as the number's sign |
| `DisplayEdits.WholeNumberSigned` | src/App.jsx:56-70 | `"53"` toggles to `"-53"` |
| `DisplayEdits.ToggleSignSubtraction` | src/App.jsx:56-70 | `"5-3"` toggles to `"53"` and then to `"-53"`, so toggling twice does not restore the display in general |
| `DisplayEdits.ToggleSignKeepsAlphabet` | src/App.jsx:52-72 | toggling keeps a display made of digits, `.` and display operators within that alphabet |
| `DisplayEdits.OperatorKeepsAlphabet` | src/App.jsx:11-33 | an operator press keeps the display within the editor alphabet |
| `DisplayEdits.EditsKeepAlphabet` | src/App.jsx:7-50 | digit, decimal, backspace and clear presses keep the display within the editor alphabet |
| `DisplayEdits.LexLeq` | src/App.jsx:106 | JavaScript string `<=` is reflexive, and the first differing character decides it |
| `DisplayEdits.LexLeqTotal` | src/App.jsx:106 | any two strings compare one way or the other |
| `DisplayEdits.IsDigitKey` | src/App.jsx:106 | a key that passes the digit test starts with a digit |
| `DisplayEdits.DigitKeyExactly` | src/App.jsx:106 | the string test admits exactly the keys that start with `0` to `8` and the key `9`; among one-character keys, exactly the digits |
| `DisplayEdits.KeyDown` | src/App.jsx:102-170 | the digit test comes first and appends the key whole; only Enter and `=` request evaluation; every other display change is one of the button transitions (decimal, backspace, clear, operator) |
| `DisplayEdits.DigitKeyMatchesButton` | src/App.jsx:105-109 | a digit key appends that digit, as the digit button does |
| `DisplayEdits.OperatorKeyMatchesButton` | src/App.jsx:111-136 | an operator key has the same effect as the operator button |
| `DisplayEdits.DecimalKeyMatchesButton` | src/App.jsx:138-150 | the `.` key has the same effect as the decimal button |
| `DisplayEdits.BackspaceKeyMatchesButton` | src/App.jsx:159-163 | the Backspace key has the same effect as the backspace button |
| `DisplayEdits.ClearKeysMatchButton` | src/App.jsx:165-169 | Escape, `c` and `C` clear the display |
| `DisplayEdits.EqualsKeysRequestEvaluation` | src/App.jsx:152-157 | Enter and `=` request evaluation and do not edit the display |
| `DisplayEdits.UnknownKeyIgnored` | src/App.jsx:102-170 | any key none of the tests recognise leaves the display unchanged |
| `App.Calculator.constructor` | src/App.jsx:5 | the display starts empty |
| `App.Calculator.NumberClick` | src/App.jsx:7-9 | the new display is the old one with the digit appended |
| `App.Calculator.OperatorClick` | src/App.jsx:11-33 | the new display is the operator transition of the old one; an empty display ignores operators other than `-`; no adjacent operator pair is created |
| `App.Calculator.DecimalClick` | src/App.jsx:35-42 | the new display is the decimal transition of the old one; the number being typed ends with exactly one `.` |
| `App.Calculator.ClearClick` | src/App.jsx:44-46 | the display becomes empty |
| `App.Calculator.BackspaceClick` | src/App.jsx:48-50 | the new display is the old one without its last character |
| `App.Calculator.ToggleSignClick` | src/App.jsx:52-72 | the new display is the toggle transition of the old one, and is unchanged without a trailing number |
| `App.Calculator.KeyPress` | src/App.jsx:102-170 | the display is updated as the key's effect says; Enter and `=` are reported to the caller instead |
| `Backend.IsJsWhitespace` | cdk/lambda/index.js:14 | no character that trimming strips is a display symbol |
| `Backend.TrimStart` | cdk/lambda/index.js:14 | the result is a suffix of the input; everything removed is whitespace, and the result does not start with whitespace |
| `Backend.TrimEnd` | cdk/lambda/server.js:19 | the result is a prefix of the input; everything removed is whitespace, and the result does not end with whitespace |
| `Backend.Trim` | cdk/lambda/index.js:14 | the trimmed expression is no longer than the input and has whitespace at neither end |
| `Backend.TrimIsWhitespaceStrip` | cdk/lambda/index.js:13-14 | trimming keeps a contiguous piece of the input and removes only whitespace around it |
| `Backend.TrimEmptyIffAllWhitespace` | cdk/lambda/index.js:14-18 | the input trims to nothing exactly when every character is whitespace |
| `Backend.TrimIdempotent` | cdk/lambda/server.js:18-19 | trimming twice is trimming once |
| `Backend.TrimRemovesSurroundingWhitespace` | cdk/lambda/index.js:14 | whitespace around an expression with non-whitespace ends is exactly what trimming removes |
| `Backend.ReplaceAll` | cdk/lambda/index.js:22-24 | a global one-character replacement keeps the length and rewrites exactly the occurrences of the pattern |
| `Backend.Normalize` | cdk/lambda/index.js:20-24 | the three chained replacements keep the length and act character by character: `×`, `÷`, `−` become `*`, `/`, `-`; every other character is unchanged |
| `Backend.NormalizeRemovesDisplaySymbols` | cdk/lambda/server.js:26-29 | no `×`, `÷` or `−` is left after normalisation |
| `Backend.NormalizeIdempotent` | cdk/lambda/index.js:21-24 | normalising twice is normalising once |
| `Backend.IsAllowedChar` | cdk/lambda/index.js:26-27 | every whitelist character is ASCII and not a display symbol, and the plain space is the only whitespace among them |
| `Backend.Whitelisted` | cdk/lambda/index.js:26-27 | a whitelisted string is non-empty, and normalising it changes nothing |
| `Backend.WhitelistAfterNormalize` | cdk/lambda/index.js:26-27 | the normalised expression passes the whitelist exactly when it is non-empty and each raw character is an ASCII digit, one of `+ - * / . % ( )`, a plain space, or a display symbol |
| `Backend.Prepare` | cdk/lambda/index.js:14-29 | the empty message is returned exactly when the trimmed input is empty; the invalid-characters message exactly when it is non-empty and fails the whitelist; otherwise the trimmed, normalised input goes to the evaluator |
| `Backend.Report` | cdk/lambda/index.js:35-45 | a finite number is reported as its text; any other outcome as an error message, which is the invalid-expression message exactly for a throw |
| `Backend.Calculate` | cdk/lambda/server.js:16-52 | total: the result is one of the four fixed messages or the evaluator's finite text for the trimmed, normalised input |
| `Backend.EvaluatorInput` | cdk/lambda/index.js:14-33 | the evaluator is only given the trimmed, normalised input, which is non-empty and whitelisted, has no space at either end, and holds no display symbol |
| `Backend.WhitespaceOnlyIsEmpty` | cdk/lambda/server.js:19-23 | empty or whitespace-only input gives `"Error: Empty expression"` whatever the evaluator does |
| `Backend.InvalidCharactersSkipEvaluator` | cdk/lambda/server.js:31-34 | a character neither whitelisted nor a display symbol gives `"Error: Invalid characters"`, and any two evaluators give the same answer |
| `Backend.OutcomeDecides` | cdk/lambda/server.js:38-50 | once the checks pass, a throw gives `"Error: Invalid expression"`, a non-number or non-finite value gives `"Error: Invalid result"`, and a finite value gives its text |
| `Backend.InteriorWhitespaceRejected` | cdk/lambda/index.js:26-29 | a tab, newline or other non-space whitespace inside the trimmed input gives `"Error: Invalid characters"` |
| `Wiring.EditorTextReachesEvaluator` | src/App.jsx:79-85 | a non-empty display typed with the buttons passes trimming and the whitelist, so its normalised form goes to the evaluator |

## Left out

- Evaluation through the `Function` constructor (cdk/lambda/index.js:33, cdk/lambda/server.js:38) is left out. It runs JavaScript, so it is the oracle parameter `evaluate`. Nothing is claimed about which strings parse. For example, `2**3` passes the whitelist.
- Rounding with `Math.round(result * 1e9) / 1e9` and `toString()` is floating-point numerics, folded into `Finite(text)`. The oracle may return `"Infinity"` as finite text. That happens for a finite result above about 1.8e299, which overflows when multiplied by 1e9.
- `Backend.Calculate` takes a string. The `catch` that would turn a failing `trim` on a non-string into `"Error: Invalid expression"` is left out, because both callers reject non-string input first.
- The Lambda `handler` and the Express endpoint are left out. They cover CORS, JSON parsing, status codes, routing and `listen`, which is I/O plumbing.
- `handleEquals` is left out because it is a network call. `KeyDown` reports Enter and `=` as `RequestEquals`, and `Calculator.KeyPress` returns that as a flag without changing the display.
- The React rendering, the `useEffect` and `useCallback` wiring and the listener registration are left out as UI framework code.
- `DisplayEdits.KeyDown` compares strings by code point, not by UTF-16 code unit. The two orders agree on every key name and on every character the editor uses.
- `DisplayEdits.ClearKeysMatchButton` treats `toLowerCase() === 'c'` as "the key is `c` or `C`". No other key value lowercases to `c`.
- `DisplayEdits.DigitKeyExactly` shows that a multi-character key starting with `0` to `8` would pass the digit test and be appended whole. Browsers send no such key, and the model keeps the behaviour as written.
- `App.Calculator` has no object invariant over `display`. `handleEquals` can set the display to any backend text, so none holds in the running component. The alphabet lemmas cover button presses only.
