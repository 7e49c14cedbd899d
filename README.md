# JavaScript interview exercises and a calculator, modelled in Dafny

The repository is a set of JavaScript interview exercises and small browser
demos. This project models the parts that are sequential logic:

- **The calculator's input editor** (`basic-ui/calculator/js/solultion-2/index.js`).
  A `Calculator` object keeps three fields: `expression`, `lastResult` and
  `isNewCalculation`. `handleInput` appends a keystroke only when `isValidInput`
  allows it, `=` runs `calculate`, and `AC` runs `clear`. `calculate` checks the
  characters and the parentheses with `validateExpression`, replaces `%` by
  `/100`, evaluates, and shows either the formatted result or `Error`.
  The model is the class `Calculator.Calculator`. Its methods are proved
  against pure functions of a `State` value: `Step`, `Calculated`, `Failed`
  and `Validation`. Lemmas about those functions state what the editor keeps
  true. Evaluation and formatting are a parameter,
  `eval: string -> Option<string>`, whose `None` stands for a thrown error.
- **`customReverse`** (`js-questions/intermediate/reverse-array-polyfoll.js`).
  This is an in-place two-pointer reversal of an `array`. It is specified by
  `Sequences.Reversed`.
- **`flatten`** (`js-questions/flatten-array.js`). A nested JavaScript array is
  a sequence of `Item`s, each `Leaf(value)` or `Nested(items)`. The three
  working variants are each proved equal to `Leaves`, the depth-first,
  left-to-right sequence of values.
- **`removeDuplicates`** (`js-questions/duplicate-string.js`). The text is split
  on `" "`, the first occurrence of each word is kept, and the kept words are
  joined with `" "`. The three variants are each proved equal to
  `RemoveDuplicates`, which is built on `FirstOccurrences`.
- **`reverse`** (`js-questions/reverse-string.js`). The three variants are each
  proved equal to `Sequences.Reversed`.

Some modules model JavaScript library behaviour the exercises rely on:

- `JsStrings` models `split("")`, `split(" ")` and `join`.
- `JsNumber` models which strings `isNaN` accepts as numbers. This is the
  StringNumericLiteral grammar of ECMA-262, section 7.1.4.1.

JavaScript strings are sequences of UTF-16 code units. Here they are `string`,
a sequence of `char`, and a `char` is one Unicode scalar value. The two agree
on strings without characters outside the Basic Multilingual Plane. The model
assumes such strings (see "## Left out").

## Model

| member | source | states |
|---|---|---|
| Calculator.Calculator.constructor | basic-ui/calculator/js/solultion-2/index.js:3-10 | a new calculator has an empty expression, an empty last result and `isNewCalculation` set |
| Calculator.Calculator.HandleInput | basic-ui/calculator/js/solultion-2/index.js:45-65 | the new state is `Step` of the old one. A numeric value entered while `isNewCalculation` is set first empties the expression and clears the flag; other values leave the flag alone. Then `=` calculates, `AC` clears, and any other value is appended exactly when `IsValidInput` accepts it; otherwise the expression is unchanged |
| Calculator.IsValidInput | basic-ui/calculator/js/solultion-2/index.js:67-87 | definition: rejects a value holding an operator after an expression ending in an operator, `.` when the current number has a `.`, and `0` when the current number is exactly `0`; accepts everything else |
| Calculator.AlwaysAccepted | basic-ui/calculator/js/solultion-2/index.js:67-87 | every value is accepted into an empty expression, and any value other than `.` and `0` without an operator is always accepted |
| Calculator.Reset | basic-ui/calculator/js/solultion-2/index.js:46-49 | definition: a numeric value while `isNewCalculation` is set empties the expression and clears the flag; otherwise the state is unchanged |
| Calculator.Step | basic-ui/calculator/js/solultion-2/index.js:45-65 | definition of `handleInput` on a state: `Reset`, then `=` gives `Calculated`, `AC` gives the initial state, and any other value is appended when `IsValidInput` accepts it |
| Calculator.TypingStep | basic-ui/calculator/js/solultion-2/index.js:45-65 | for a value other than `=` and `AC`: the last result is unchanged; `isNewCalculation` is cleared iff the value is numeric; the expression after the reset gets the value appended iff `isValidInput` accepts it, else stays as it was |
| Calculator.Calculated | basic-ui/calculator/js/solultion-2/index.js:108-128 | definition of `calculate` on a state: empty expression unchanged; a validation error or a failed evaluation gives `Failed`; success shows the result text as expression and last result |
| Calculator.CalculateOutcome | basic-ui/calculator/js/solultion-2/index.js:108-128 | an empty expression is left alone; otherwise `isNewCalculation` is set, and the outcome is either the error state or a shown result that equals the new last result; validation and evaluation failures both give the error state |
| Calculator.Failed | basic-ui/calculator/js/solultion-2/index.js:171-175 | definition of `handleError` on a state: expression `Error`, `isNewCalculation` set, last result kept |
| Calculator.Validation | basic-ui/calculator/js/solultion-2/index.js:130-144 | definition of what `validateExpression` throws: `InvalidCharacters` if a character is outside the allowed set, else `UnmatchedParentheses` if the counter goes negative or does not end at 0, else nothing |
| Calculator.ValidationMeaning | basic-ui/calculator/js/solultion-2/index.js:130-144 | validation passes iff every character is allowed and the parentheses are balanced; an unmatched-parentheses error implies the characters passed |
| Calculator.Sanitize | basic-ui/calculator/js/solultion-2/index.js:116 | definition of `replace(/%/g, "/100")`, character by character |
| JsNumber.IsNumeric | basic-ui/calculator/js/solultion-2/index.js:46 | definition of `!isNaN(value)` for a string: after trimming white space, empty, a StrDecimalLiteral or a NonDecimalIntegerLiteral |
| Calculator.SingleCharacterRules | basic-ui/calculator/js/solultion-2/index.js:67-87 | for a one-character value, both directions: an operator is accepted iff the expression is empty or does not end in an operator; `.` is accepted iff the current number has no `.`; `0` is accepted iff the current number is not exactly `0`; every other character is accepted |
| Calculator.CurrentNumber | basic-ui/calculator/js/solultion-2/index.js:89-91 | the result is the longest suffix of the expression without an operator: it is a suffix, it holds no operator, and when it is shorter than the expression an operator precedes it |
| Calculator.CurrentNumberSnoc | basic-ui/calculator/js/solultion-2/index.js:89-91 | typing an operator leaves an empty current number; typing anything else extends the current number by that character |
| Calculator.Calculator.AppendValue | basic-ui/calculator/js/solultion-2/index.js:93-95 | the expression becomes the old expression followed by the value; the other fields are unchanged |
| Calculator.Calculator.DeleteLastChar | basic-ui/calculator/js/solultion-2/index.js:97-100 | exactly one trailing character is removed, an empty expression stays empty, and the other fields are unchanged |
| Calculator.Calculator.Clear | basic-ui/calculator/js/solultion-2/index.js:102-106 | expression and last result become empty and `isNewCalculation` is set |
| Calculator.Calculator.Calculate | basic-ui/calculator/js/solultion-2/index.js:108-128 | the new state is `Calculated` of the old one. An empty expression changes nothing. A failed validation or a failed evaluation leads to the error state with `lastResult` unchanged. Success sets both the expression and the last result to the result text and sets `isNewCalculation` |
| Calculator.SanitizeRemovesPercent | basic-ui/calculator/js/solultion-2/index.js:116 | the sanitised text contains no `%`, and a text without `%` is left unchanged |
| Calculator.SanitizeAppend | basic-ui/calculator/js/solultion-2/index.js:116 | sanitising works piece by piece. Together with `SanitizePercent`, every `%` becomes `/100` and every other character stays |
| Calculator.SanitizePercent | basic-ui/calculator/js/solultion-2/index.js:116 | a single `%` becomes `/100` |
| Calculator.Calculator.ValidateExpression | basic-ui/calculator/js/solultion-2/index.js:130-144 | the character test and the counting loop report `InvalidCharacters` iff some character is outside digits, `+ - * / ( ) . %` and space. Otherwise they report `UnmatchedParentheses` iff the running count of `(` minus `)` goes negative or does not end at 0, and nothing otherwise |
| Calculator.BalancedConcat | basic-ui/calculator/js/solultion-2/index.js:136-143 | two expressions that pass the parenthesis scan pass it side by side |
| Calculator.BalancedWrap | basic-ui/calculator/js/solultion-2/index.js:136-143 | an expression that passes the parenthesis scan passes it inside one more pair of parentheses |
| Calculator.DepthAppend | basic-ui/calculator/js/solultion-2/index.js:137-142 | the parenthesis count of a concatenation is the sum of the counts of its parts |
| Calculator.Calculator.HandleError | basic-ui/calculator/js/solultion-2/index.js:171-175 | the expression becomes `Error` and `isNewCalculation` is set; the last result is unchanged |
| Calculator.TidyAppend | basic-ui/calculator/js/solultion-2/index.js:67-87 | appending a character that `isValidInput` accepts keeps the editor's invariant: no operator follows an operator, and every current number seen has at most one `.` and does not start with `00` |
| Calculator.AppendKeepsOperatorsApart | basic-ui/calculator/js/solultion-2/index.js:71-74 | the operator rule alone keeps operators apart |
| Calculator.AppendKeepsNumber | basic-ui/calculator/js/solultion-2/index.js:76-84 | the `.` and `0` rules alone keep the current number well formed |
| Calculator.TidyPrefix | basic-ui/calculator/js/solultion-2/index.js:97-100 | deleting trailing characters keeps the invariant |
| Calculator.TidyStep | basic-ui/calculator/js/solultion-2/index.js:45-65 | every one-character input and `AC` keeps the invariant, provided the texts evaluation produces keep it |
| Calculator.PlainTextTidy | basic-ui/calculator/js/solultion-2/index.js:173 | a text without operators, without `.` and not starting with `00` satisfies the invariant |
| Calculator.CurrentNumberWithoutOperators | basic-ui/calculator/js/solultion-2/index.js:89-91 | in a text without operators the whole text is the current number |
| Calculator.ErrorTidy | basic-ui/calculator/js/solultion-2/index.js:173 | the `Error` text satisfies the invariant |
| Calculator.ErrorPersists | basic-ui/calculator/js/solultion-2/index.js:132-134 | pressing `=` while `Error` is shown shows `Error` again, because its letters fail the character test |
| Calculator.DigitStartsNewCalculation | basic-ui/calculator/js/solultion-2/index.js:46-49 | after a result, a digit replaces the expression with just that digit and clears `isNewCalculation` |
| Calculator.OperatorThenDigitDiscardsResult | basic-ui/calculator/js/solultion-2/index.js:46-61 | after a result, an operator is appended to the result but leaves `isNewCalculation` set, so a following digit discards the result and the operator |
| JsNumber.SingleCharNumeric | basic-ui/calculator/js/solultion-2/index.js:46 | `!isNaN` of a one-character string holds iff the character is a decimal digit or white space; `.`, signs and operators are NaN |
| JsNumber.DigitsNumeric | basic-ui/calculator/js/solultion-2/index.js:46 | a non-empty run of decimal digits is not NaN |
| JsNumber.ClearLabelNotNumeric | basic-ui/calculator/js/solultion-2/index.js:46 | `AC` is NaN, so it never resets the expression before clearing |
| JsNumber.TrimStart | basic-ui/calculator/js/solultion-2/index.js:46 | the white space removed is a prefix, all of it white space, and the rest does not start with white space |
| JsNumber.TrimEnd | basic-ui/calculator/js/solultion-2/index.js:46 | the white space removed is a suffix, all of it white space, and the rest does not end with white space |
| JsNumber.IndexOf | basic-ui/calculator/js/solultion-2/index.js:46 | the first position of a character, or the length when it is absent |
| JsNumber.IndexOfExponent | basic-ui/calculator/js/solultion-2/index.js:46 | the first position of `e` or `E`, or the length when there is none |
| ReverseArray.CustomReverse | js-questions/intermediate/reverse-array-polyfoll.js:27-42 | afterwards the array holds the reversal of its old contents, the returned reference is the array itself, and the loop performs exactly `length / 2` swaps |
| ReverseArray.Swap | js-questions/intermediate/reverse-array-polyfoll.js:36-38 | only the two positions change, and they exchange their values |
| ReverseArray.MeetInTheMiddle | js-questions/intermediate/reverse-array-polyfoll.js:34-41 | when the pointers meet, the mirrored outer parts and the untouched middle make up the reversal |
| Sequences.Reversed | js-questions/intermediate/reverse-array-polyfoll.js:6-8 | the reversal has the length of the input |
| Sequences.ReversedAt | js-questions/intermediate/reverse-array-polyfoll.js:6-8 | position `k` of the reversal holds input position `n-1-k` |
| Sequences.ReversedFromMirror | js-questions/intermediate/reverse-array-polyfoll.js:6-8 | a sequence that mirrors the input at every position is its reversal |
| Sequences.ReversedPermutes | js-questions/intermediate/reverse-array-polyfoll.js:36-38 | the reversal is a permutation of the input |
| Sequences.ReversedShort | js-questions/intermediate/reverse-array-polyfoll.js:34 | sequences of length 0 or 1 are their own reversal |
| Sequences.ReversedTwice | js-questions/reverse-string.js:30-32 | reversing twice gives back the input |
| Sequences.ReversedCons | js-questions/reverse-string.js:37-39 | an element put in front of the input ends up at the back of the reversal |
| ReverseString.ReverseByPush | js-questions/reverse-string.js:14-21 | the array-push loop returns the reversal of its input |
| ReverseString.ReverseBySplitJoin | js-questions/reverse-string.js:30-32 | the `split/reverse/join` chain returns the reversal of its input |
| ReverseString.ReverseByConcat | js-questions/reverse-string.js:35-41 | the string-concatenation loop returns the reversal of its input |
| ReverseString.JoinReversedChars | js-questions/reverse-string.js:31 | joining the reversed one-character pieces gives the reversed string |
| ReverseString.HelloWorldExample | js-questions/reverse-string.js:4 | `'Hello, world!'` reverses to `'!dlrow ,olleH'` |
| JsStrings.SplitChars | js-questions/reverse-string.js:15 | `split("")` gives one one-character piece per character, in order |
| JsStrings.JoinSplitChars | js-questions/reverse-string.js:31 | joining the pieces of `split("")` with `""` gives back the string |
| JsStrings.Join | js-questions/duplicate-string.js:27 | definition of `join(sep)`: the parts with the separator between neighbours, `""` for no parts |
| JsStrings.JoinCons | js-questions/duplicate-string.js:27 | joining a word and a non-empty rest puts the separator between them |
| JsStrings.Split | js-questions/duplicate-string.js:15 | `split(" ")` gives at least one piece, and no piece holds the separator |
| JsStrings.JoinSplit | js-questions/duplicate-string.js:15-27 | joining the pieces of a split with the separator gives back the string |
| JsStrings.SplitJoin | js-questions/duplicate-string.js:15-27 | splitting words that hold no separator, once joined with it, gives back the words |
| JsStrings.SplitPrefix | js-questions/duplicate-string.js:15 | a separator-free word in front of a text joins the first piece of its split |
| FlattenArray.Leaves | js-questions/flatten-array.js:29-35 | the flattening contains no arrays |
| FlattenArray.FlattenForEach | js-questions/flatten-array.js:26-38 | the `forEach` variant returns the depth-first, left-to-right values |
| FlattenArray.FlattenConcat | js-questions/flatten-array.js:44-48 | the `concat` reduce variant returns the depth-first, left-to-right values |
| FlattenArray.FlattenReducePush | js-questions/flatten-array.js:51-60 | the push/concat reduce variant returns the depth-first, left-to-right values |
| FlattenArray.LeavesAppend | js-questions/flatten-array.js:44-47 | flattening distributes over concatenation |
| FlattenArray.LeavesSnoc | js-questions/flatten-array.js:45-46 | adding one element flattens to the old flattening followed by that element's flattening |
| FlattenArray.LeavesOne | js-questions/flatten-array.js:30-34 | a single value flattens to itself, and a nested array flattens to its flattening |
| FlattenArray.LeavesOfFlat | js-questions/flatten-array.js:29-35 | an array without nested arrays is returned unchanged |
| FlattenArray.LeavesIdempotent | js-questions/flatten-array.js:29-35 | flattening twice is flattening once |
| FlattenArray.LeafCount | js-questions/flatten-array.js:26-38 | definition: the number of non-array values at any depth, the independent count `LeavesLength` compares with |
| FlattenArray.LeavesLength | js-questions/flatten-array.js:26-38 | the output has one element per value at any depth |
| FlattenArray.ExampleFlatten | js-questions/flatten-array.js:62-63 | `[1, 2, [3, 4, [5, 6, 7], 8], 9, 10]` flattens to `[1, ..., 10]`, for any ten values in those places |
| FlattenArray.ExampleMiddle | js-questions/flatten-array.js:62 | the inner array `[3, 4, [5, 6, 7], 8]` flattens to `[3, 4, 5, 6, 7, 8]` |
| DuplicateString.FirstOccurrences | js-questions/duplicate-string.js:18-26 | the kept words are pairwise distinct, and a word is kept iff it occurs in the input |
| DuplicateString.FirstOccurrencesInOrder | js-questions/duplicate-string.js:25 | the kept words come in the order of their first occurrences, so they are a subsequence of the input |
| DuplicateString.FirstOccurrencesSnoc | js-questions/duplicate-string.js:39-41 | one more word is kept exactly when it has not been seen |
| DuplicateString.FirstOccurrencesKeep | js-questions/duplicate-string.js:39-41 | a word not seen before is kept after the words kept so far |
| DuplicateString.FirstOccurrencesSkip | js-questions/duplicate-string.js:39 | a word seen before is dropped |
| DuplicateString.FirstOccurrencesOfDistinct | js-questions/duplicate-string.js:18-26 | distinct words are all kept, in order |
| DuplicateString.FirstIndex | js-questions/duplicate-string.js:21 | the first position of a word: it holds the word and no earlier position does |
| DuplicateString.FirstIndexSnoc | js-questions/duplicate-string.js:25 | adding a word does not move the first position of a word already present |
| DuplicateString.RemoveDuplicates | js-questions/duplicate-string.js:14-28 | definition of what every variant returns: the first occurrences of the words of `split(" ")`, joined with `" "` |
| DuplicateString.Add | js-questions/duplicate-string.js:54 | definition of `set.add(w)` on an insertion-ordered set: a new member goes last, a present one stays where it is |
| DuplicateString.SetOf | js-questions/duplicate-string.js:54 | definition of `new Set(arr)`: the elements of `arr` added in order to an empty set |
| DuplicateString.ResultWords | js-questions/duplicate-string.js:15-27 | the words of the result are the first occurrences of the words of the input |
| DuplicateString.DistinctUnchanged | js-questions/duplicate-string.js:15-27 | a text whose space-separated words are already distinct comes back unchanged |
| DuplicateString.RemoveDuplicatesIdempotent | js-questions/duplicate-string.js:14-28 | removing duplicates twice is removing them once |
| DuplicateString.RemoveDuplicatesScan | js-questions/duplicate-string.js:14-28 | the nested-loop variant with `itemFound` returns `RemoveDuplicates` of its input |
| DuplicateString.RemoveDuplicatesIncludes | js-questions/duplicate-string.js:34-44 | the `includes` variant returns `RemoveDuplicates` of its input |
| DuplicateString.RemoveDuplicatesBySet | js-questions/duplicate-string.js:52-58 | the `Set` variant returns `RemoveDuplicates` of its input |
| DuplicateString.SetOfMembers | js-questions/duplicate-string.js:54-56 | a `Set` built from an array holds the first occurrences, in insertion order |
| DuplicateString.ExampleRemoveDuplicates | js-questions/duplicate-string.js:5-6 | `'This is is a test test string'` gives `'This is a test string'` |
| DuplicateString.ExampleInputJoin | js-questions/duplicate-string.js:5 | proof helper for `ExampleRemoveDuplicates`: the words of the example input join to the example input |
| DuplicateString.ExampleOutputJoin | js-questions/duplicate-string.js:6 | proof helper for `ExampleRemoveDuplicates`: the words of the example output join to the example output |
| DuplicateString.RepeatedNeighbours | js-questions/duplicate-string.js:5-6 | for any five distinct words, the example's pattern of repeated neighbours keeps each word once |
| DuplicateString.JoinSeven | js-questions/duplicate-string.js:27 | proof helper for `ExampleInputJoin`: seven words join to the words with the separator between neighbours |
| DuplicateString.JoinFive | js-questions/duplicate-string.js:27 | proof helper for `ExampleOutputJoin` and `JoinSeven`: five words join to the words with the separator between neighbours |

## Left out

- Evaluation and formatting of results (`evaluateExpression`, `formatResult`,
  basic-ui/calculator/js/solultion-2/index.js:146-169). They execute the text
  with `new Function` and use IEEE floating point and `toFixed(8)`. They are
  the parameter `eval` of `Calculate`, `HandleInput` and `Step`, whose `None`
  is a thrown error or a non-finite result. The unused `tokens` match at line
  148 is not modelled.
- `updateDisplay`, the event listeners, `handleKeyboard` and the
  `DOMContentLoaded` hook (lines 12-43, 177-193): DOM, timers and key events.
  The `display` field is left out with them, and so is `console.error` in
  `handleError`.
- Calculator.TidyStep: proved for one-character values and `AC`. These are
  the values that keys send (`handleKeyboard`, index.js:26-43). The button
  values come from the page markup (`event.target.value`, index.js:16), which
  is not part of this model, and are assumed to be the same. A value of
  several characters can break the invariant, because the `.` and `0` rules
  compare the whole value.
- The thrown `Error` objects: `ValidateExpression` returns which error it
  would throw as a `CalcError`, and `Calculate` takes the error path on it.
- The first `flatten` variant (js-questions/flatten-array.js:8-17). It pushes
  into a global array whose declaration is commented out, so it throws a
  ReferenceError.
- ReverseArray.CustomReverse: states the reversal through `Sequences.Reversed`.
  The pointwise mirror, the permutation and the length 0 and 1 cases are
  the lemmas `Sequences.ReversedAt`, `Sequences.ReversedPermutes` and
  `Sequences.ReversedShort`, not further `ensures` of the method. `this` is
  modelled as an `array` argument, and the method is not installed on
  `Array.prototype`.
- The first `reverse` variant assigns the undeclared `i` (js-questions/reverse-string.js:17).
  Outside strict mode that creates a global variable. The model uses a local
  counter.
- DuplicateString.ExampleRemoveDuplicates: the example in the file's comment
  is proved. The different string logged at line 59 is not.
- Arrays with holes and arrays that contain themselves: `Item` sequences and
  `array<T>` can represent neither. `forEach` and `reduce` skip holes
  (js-questions/flatten-array.js:29, 45, 52). `customReverse` turns a hole
  paired with a value into `undefined` on the other side
  (js-questions/intermediate/reverse-array-polyfoll.js:36-38), where the
  native `reverse` keeps the hole. An array that contains itself makes
  `flatten` recurse until a RangeError.
- Strings are sequences of `char`. UTF-16 surrogate pairs are not modelled:
  `split("")` and `str[i]` work on code units, so the JavaScript `reverse`
  of a character outside the Basic Multilingual Plane splits its surrogate
  pair, while the model treats each `char` as one unit.
