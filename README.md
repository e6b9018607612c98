# Validators, calculator and shopping cart: a verified model

This project models in Dafny the core of three JavaScript course
assignments:

- **The string validation library** (`project-assignment-4/js/validator.js`)
  is a set of predicates. They cover e-mail addresses, phone numbers, dates,
  blank strings, and word containment (`contains`/`lacks`). They also cover
  composition from a word list (`isComposedOf`), length and word-count
  limits, numeric ranges, alphanumeric strings, credit-card numbers and CSS
  colours (hex, `rgb()`, `hsl()`), plus the whitespace check `isTrimmed`.
  Helpers are modelled too: `isNumber`, `combination`, `dashToSpace` and
  `withoutSymbols`. The module `Validator` holds the predicates. Where the
  source builds or scans a string in a loop, `Validator` has a method proved
  against the predicate.
- **The calculator** (`project-assignment-5/js/app.js`) has a reducer over
  the display state `{last, current}` and the glyph substitution
  `prettifyDisplay`. They are in the module `Calculator`.
- **The shopping cart** (`project-assignment-6/js/app.js`) has a reducer
  over `{cart, items, quantity, action, discount}`, the coupon table, the
  helpers `findById` and `values`, and the subtotal computed on every
  render. They are in the module `Cart`.

Both applications use the same small `createStore(reducer)`. Here it is the
class `Store.Store`. Its closure variables are fields and its functions are
methods. A log of listener calls stands in for calling the listeners.

The module `Text` models the JavaScript string built-ins the code relies
on: `split`/`join`, `trim`, `indexOf`/`lastIndexOf`, ASCII `toLowerCase`,
`parseInt(s, 10)`, and filtering a string's characters. `Wrappers` holds
`Option`.

JavaScript's loose values are modelled explicitly:

- `undefined` results and thrown errors are `None`.
- Cart quantities are numbers or NaN (`Cart.Num`), because a missing
  quantity entry reads as `undefined`.
- The calculator's expression evaluator is a parameter.

Every reducer property is stated for every state that satisfies the
invariant the page maintains (for the cart, `Cart.Valid`; for the
calculator, a non-empty display) and for every action the page
dispatches. The cart's invariant says that the count equals the sum of the quantities, and that
the items are one per id with positive quantities. The invariant is proved
for every action the page can dispatch, and over any run of them.

Where the code and its documentation disagree, the model follows the code:

- Several `@` are allowed in an e-mail address.
- `isAfterDate` is not strict.
- A component that does not parse passes the colour checks, so `rgb(,,)` is
  accepted.
- `isTrimmed` does not look at the ends of the string.

The places where the code evidently does not do what its authors meant are
listed under Findings. Each has a model of the code as written and a
corrected version.

## Model

| member | source | states |
|---|---|---|
| Store.Store.constructor | moderndeveloper-css-master/moderndeveloper-css-master/project-assignment-6/js/app.js:20-51 | a new store has no listeners, no calls logged, and holds the state the reducer makes from its default state and the seed action `{}` |
| Store.Store.GetState | moderndeveloper-css-master/moderndeveloper-css-master/project-assignment-5/js/app.js:21-23 | `getState` returns the current state and changes nothing |
| Store.Store.Dispatch | moderndeveloper-css-master/moderndeveloper-css-master/project-assignment-5/js/app.js:25-30 | the new state is the reducer applied to the old state and the action; then every listener is called once, in subscription order, and the list itself is unchanged |
| Store.Store.Subscribe | moderndeveloper-css-master/moderndeveloper-css-master/project-assignment-6/js/app.js:35-36 | the listener is appended after the existing ones; the state and the call log are unchanged |
| Store.Store.Unsubscribe | moderndeveloper-css-master/moderndeveloper-css-master/project-assignment-6/js/app.js:37-41 | the returned function removes every occurrence of that listener and keeps the others; the state is unchanged |
| Store.SubscribeThenUnsubscribe | moderndeveloper-css-master/moderndeveloper-css-master/project-assignment-5/js/app.js:32-39 | subscribing a fresh listener and unsubscribing it gives back the original list, with later subscriptions still in order |
| Store.WithoutIdempotent | moderndeveloper-css-master/moderndeveloper-css-master/project-assignment-5/js/app.js:34-38 | calling the unsubscribe function twice has the same effect as calling it once |
| Store.WithoutConcat | moderndeveloper-css-master/moderndeveloper-css-master/project-assignment-5/js/app.js:35-37 | the filter works piece by piece, so the relative order of the remaining listeners is kept |
| Calculator.CreateStore | moderndeveloper-css-master/moderndeveloper-css-master/project-assignment-5/js/app.js:17-48 | the calculator store starts with state `{last: "", current: "0"}`, no listeners, and the calculator reducer |
| Calculator.Reduce | moderndeveloper-css-master/moderndeveloper-css-master/project-assignment-5/js/app.js:99-180 | the reducer, one case per action type; its behaviour is stated by the lemmas below |
| Calculator.IdentityAndClear | moderndeveloper-css-master/moderndeveloper-css-master/project-assignment-5/js/app.js:99-104 | CLEAR always resets to the initial state; an unknown action (the seed `{}` included) leaves the state unchanged |
| Calculator.BackRemovesLast | moderndeveloper-css-master/moderndeveloper-css-master/project-assignment-5/js/app.js:105-108 | BACK removes the last character of `current`; a display of one character becomes "0", "0" stays "0", and `last` is kept |
| Calculator.BackUndoesTyping | moderndeveloper-css-master/moderndeveloper-css-master/project-assignment-5/js/app.js:105-176 | BACK right after typing one digit, a dot or an operator (on a display that does not end in one) restores the state from before |
| Calculator.OperatorTyping | moderndeveloper-css-master/moderndeveloper-css-master/project-assignment-5/js/app.js:109-152 | ADD/MINUS/MULTI/DIVIDE replace a trailing operator with theirs and otherwise append it, keeping `last`; the display grows by at most one character and never gains two operators in a row |
| Calculator.LastOperatorWins | moderndeveloper-css-master/moderndeveloper-css-master/project-assignment-5/js/app.js:109-152 | typing two operators in a row has the same effect as typing only the second |
| Calculator.NumberTyping | moderndeveloper-css-master/moderndeveloper-css-master/project-assignment-5/js/app.js:165-168 | NUMBER replaces a display of "0" and is appended to any other display |
| Calculator.DotTyping | moderndeveloper-css-master/moderndeveloper-css-master/project-assignment-5/js/app.js:169-176 | DOT appends "." to a display that does not end in one, keeping `last`, and leaves a display ending in "." unchanged; a second DOT changes nothing |
| Calculator.EqualEvaluates | moderndeveloper-css-master/moderndeveloper-css-master/project-assignment-5/js/app.js:153-164 | EQUAL moves the expression to `last` and shows its value, or "Error :(" when evaluation fails |
| Calculator.CurrentNeverEmpty | moderndeveloper-css-master/moderndeveloper-css-master/project-assignment-5/js/app.js:99-180 | no action empties a non-empty display, given non-empty digits and evaluation results |
| Calculator.RunNeverEmpty | moderndeveloper-css-master/moderndeveloper-css-master/project-assignment-5/js/app.js:99-180 | the display stays non-empty over any sequence of such actions |
| Calculator.PrettifyDisplay | moderndeveloper-css-master/moderndeveloper-css-master/project-assignment-5/js/app.js:60-82 | the loop over the symbol table shows every `*`, `/` and `-` as ×, ÷ and −, and `+` as itself, each optionally padded with spaces; every other character stays as it is |
| Calculator.Prettify | moderndeveloper-css-master/moderndeveloper-css-master/project-assignment-5/js/app.js:60-82 | the four global replacements of the symbol table, in order; its meaning is stated by `PrettifyPerCharacter` |
| Calculator.PrettifyPerCharacter | moderndeveloper-css-master/moderndeveloper-css-master/project-assignment-5/js/app.js:60-82 | the four global replacements in a row act character by character, since no replacement touches a glyph an earlier one wrote |
| Calculator.PrettifyRoundTrip | moderndeveloper-css-master/moderndeveloper-css-master/project-assignment-5/js/app.js:60-82 | without padding, mapping the glyphs back to ASCII recovers the input, provided it had no ×, ÷ or − of its own |
| Calculator.PrettifyLength | moderndeveloper-css-master/moderndeveloper-css-master/project-assignment-5/js/app.js:60-82 | without padding the display has the same length as the input |
| Calculator.PrettifyRemovesOperators | moderndeveloper-css-master/moderndeveloper-css-master/project-assignment-5/js/app.js:60-82 | no `*`, `/` or `-` is left on the display |
| Calculator.PrettifyConcat | moderndeveloper-css-master/moderndeveloper-css-master/project-assignment-5/js/app.js:60-82 | prettifying a concatenation is the concatenation of the prettified parts |
| Cart.CreateStore | moderndeveloper-css-master/moderndeveloper-css-master/project-assignment-6/js/app.js:20-51 | the cart store starts with `{cart: 0, items: [], quantity: {}, action: "", discount: {}}`, no listeners, and the cart reducer |
| Cart.Reduce | moderndeveloper-css-master/moderndeveloper-css-master/project-assignment-6/js/app.js:136-199 | the reducer, one case per action type; its behaviour is stated by the effect lemmas and the invariant below |
| Cart.FindById | moderndeveloper-css-master/moderndeveloper-css-master/project-assignment-6/js/app.js:69-75 | returns the first product with the id, or nothing (`undefined`) exactly when no product has that id |
| Cart.Values | moderndeveloper-css-master/moderndeveloper-css-master/project-assignment-6/js/app.js:83-91 | returns the values of the own properties, one per property, in order |
| Cart.Subtotal | moderndeveloper-css-master/moderndeveloper-css-master/project-assignment-6/js/app.js:381-384 | the loop computes the sum of price times quantity over the items (NaN once a quantity is missing) |
| Cart.SubtotalOf | moderndeveloper-css-master/moderndeveloper-css-master/project-assignment-6/js/app.js:381-384 | the sum of price times quantity over the items, NaN once a quantity is missing; its behaviour is stated by `SubtotalAfterStep` and `SubtotalNotNegative` |
| Cart.InitialValid | moderndeveloper-css-master/moderndeveloper-css-master/project-assignment-6/js/app.js:119-125 | the initial state is consistent: the count is the sum of quantities and every item has one positive quantity |
| Cart.CountsPreserved | moderndeveloper-css-master/moderndeveloper-css-master/project-assignment-6/js/app.js:136-199 | every action on an id in the cart, and every ADD, keeps `cart` equal to the sum of the quantities |
| Cart.RemoveAbsentId | moderndeveloper-css-master/moderndeveloper-css-master/project-assignment-6/js/app.js:154-170 | REMOVE of an id with no quantity makes the cart count NaN |
| Cart.DecreaseClickAllowed | moderndeveloper-css-master/moderndeveloper-css-master/project-assignment-6/js/app.js:358-374 | the decrease button dispatches REMOVE at quantity 1 and DECREASE otherwise, so it never asks for a DECREASE to 0 |
| Cart.ItemsPreserved | moderndeveloper-css-master/moderndeveloper-css-master/project-assignment-6/js/app.js:136-199 | actions the page can dispatch keep one item per id, with the items' ids exactly the quantity keys, all quantities positive |
| Cart.DecreaseToZero | moderndeveloper-css-master/moderndeveloper-css-master/project-assignment-6/js/app.js:171-179 | the reducer itself does not guard DECREASE: at quantity 1 it leaves a 0 behind, which breaks that agreement |
| Cart.ValidPreserved | moderndeveloper-css-master/moderndeveloper-css-master/project-assignment-6/js/app.js:136-199 | actions the page can dispatch keep the state consistent |
| Cart.RunValid | moderndeveloper-css-master/moderndeveloper-css-master/project-assignment-6/js/app.js:136-199 | any sequence of such actions from a consistent state ends in a consistent state |
| Cart.CartCountShowsItems | moderndeveloper-css-master/moderndeveloper-css-master/project-assignment-6/js/app.js:290-302 | in a consistent state the count is a non-negative number, positive exactly when the cart holds items (the test `render` uses to show the totals) |
| Cart.AddEffect | moderndeveloper-css-master/moderndeveloper-css-master/project-assignment-6/js/app.js:138-153 | ADD pushes a product not yet in the cart with quantity 1, or raises the quantity of one already in it without pushing it again; the count grows by 1, other quantities and the discount are unchanged |
| Cart.RemoveEffect | moderndeveloper-css-master/moderndeveloper-css-master/project-assignment-6/js/app.js:154-170 | REMOVE drops the one item with the id, keeping the other items in order, drops its quantity, subtracts that quantity from the count, and records the action "REMOVE" |
| Cart.StepEffect | moderndeveloper-css-master/moderndeveloper-css-master/project-assignment-6/js/app.js:171-188 | INCREASE/DECREASE change the count and that one quantity by 1, record the action "INCREASE"/"DECREASE", and leave the items and the discount unchanged |
| Cart.DiscountEffect | moderndeveloper-css-master/moderndeveloper-css-master/project-assignment-6/js/app.js:189-195 | DISCOUNT replaces the discount with the one code and its coupon value, changing nothing else; exactly three codes have a value: 20OFF 0.2, BIGSALE 0.5, FLASHSLAE 0.05 |
| Cart.OtherIsIdentity | moderndeveloper-css-master/moderndeveloper-css-master/project-assignment-6/js/app.js:196-197 | an unknown action, the seed `{}` included, returns the state unchanged |
| Cart.SubtotalAfterStep | moderndeveloper-css-master/moderndeveloper-css-master/project-assignment-6/js/app.js:180-188 | INCREASE/DECREASE of an item in a consistent cart raises/lowers the subtotal by exactly its price |
| Cart.SubtotalNotNegative | moderndeveloper-css-master/moderndeveloper-css-master/project-assignment-6/js/app.js:381-384 | with non-negative prices and positive quantities the subtotal is a non-negative number |
| Cart.SumUpdate | moderndeveloper-css-master/moderndeveloper-css-master/project-assignment-6/js/app.js:145-150 | changing one quantity changes the sum of quantities by the difference |
| Cart.SumPositive | moderndeveloper-css-master/moderndeveloper-css-master/project-assignment-6/js/app.js:119-125 | the sum of positive quantities is 0 exactly when there are none |
| Cart.WithoutIdIds | moderndeveloper-css-master/moderndeveloper-css-master/project-assignment-6/js/app.js:154-161 | filtering out an id removes exactly that id from the items and keeps them one per id |
| Cart.WithoutIdKeeps | moderndeveloper-css-master/moderndeveloper-css-master/project-assignment-6/js/app.js:155-161 | the filter keeps exactly the items with another id |
| Cart.WithoutIdOne | moderndeveloper-css-master/moderndeveloper-css-master/project-assignment-6/js/app.js:155-161 | with one item per id, the filter removes exactly the one item with the id and keeps the others in order |
| Validator.Combination | moderndeveloper-css-master/moderndeveloper-css-master/project-assignment-4/js/validator.js:40-50 | returns exactly the combinations of the strings: every non-empty choice of them concatenated in array order (`IsCombination`), 2^n − 1 entries, each single string among them |
| Validator.Recur | moderndeveloper-css-master/moderndeveloper-css-master/project-assignment-4/js/validator.js:42-47 | appends to the result the combinations that start with the prefix |
| Validator.CombosMembers | moderndeveloper-css-master/moderndeveloper-css-master/project-assignment-4/js/validator.js:40-50 | a string is in the enumeration exactly when it is some non-empty choice of the strings concatenated in array order |
| Validator.CombosCount | moderndeveloper-css-master/moderndeveloper-css-master/project-assignment-4/js/validator.js:40-50 | a list of n strings has 2^n − 1 combinations |
| Validator.CombosHasSingles | moderndeveloper-css-master/moderndeveloper-css-master/project-assignment-4/js/validator.js:42-47 | every string after the start index, with the prefix, is a combination |
| Validator.DashToSpace | moderndeveloper-css-master/moderndeveloper-css-master/project-assignment-4/js/validator.js:58-69 | the result has the input's length, no dash, and a space wherever the input had a dash |
| Validator.WithoutSymbols | moderndeveloper-css-master/moderndeveloper-css-master/project-assignment-4/js/validator.js:129-134 | the input with every character of the `disallow` list removed; stated by `WithoutSymbolsKeeps` |
| Validator.WithoutSymbolsKeeps | moderndeveloper-css-master/moderndeveloper-css-master/project-assignment-4/js/validator.js:129-134 | no symbol is left, and every other character occurs exactly as often as in the input |
| Validator.WithoutSymbolsConcat | moderndeveloper-css-master/moderndeveloper-css-master/project-assignment-4/js/validator.js:129-134 | removing symbols works piece by piece |
| Validator.IsEmailAddress | moderndeveloper-css-master/moderndeveloper-css-master/project-assignment-4/js/validator.js:79-91 | the e-mail check as written; characterised by `EmailAddressShape` |
| Validator.EmailAddressShape | moderndeveloper-css-master/moderndeveloper-css-master/project-assignment-4/js/validator.js:79-91 | an address is accepted exactly when its first `@` is not the first character, a `.` follows it, the character after it is not `.`, and there is no space and no `..` |
| Validator.EmailAllowsSeveralAts | moderndeveloper-css-master/moderndeveloper-css-master/project-assignment-4/js/validator.js:79-91 | a second `@` is not rejected: "a@b@c.de" passes |
| Validator.IsNumberChar | moderndeveloper-css-master/moderndeveloper-css-master/project-assignment-4/js/validator.js:25-32 | `isNumber` on one character: a digit or whitespace; the latter is the first finding |
| Validator.IsPhoneNumber | moderndeveloper-css-master/moderndeveloper-css-master/project-assignment-4/js/validator.js:100-121 | the phone-number check as written; characterised by `PhoneNumberShape` and `PhoneIgnoresSeparators` |
| Validator.CheckPhoneNumber | moderndeveloper-css-master/moderndeveloper-css-master/project-assignment-4/js/validator.js:100-121 | decides a phone number: ten characters that `isNumber` accepts after separators are dropped, starting 1800, 1300, 03 or 01 |
| Validator.PhoneIgnoresSeparators | moderndeveloper-css-master/moderndeveloper-css-master/project-assignment-4/js/validator.js:101-105 | adding or removing a `+ ( ) -` or space anywhere never changes the verdict |
| Validator.PhoneNumberShape | moderndeveloper-css-master/moderndeveloper-css-master/project-assignment-4/js/validator.js:100-121 | an accepted number has exactly ten remaining characters, each accepted by `isNumber`, with one of the four prefixes |
| Validator.PhoneAcceptsTabs | moderndeveloper-css-master/moderndeveloper-css-master/project-assignment-4/js/validator.js:100-121 | "1800" followed by six tabs passes as written and fails the digits-only check |
| Validator.DigitPhoneNumberIsStrict | moderndeveloper-css-master/moderndeveloper-css-master/project-assignment-4/js/validator.js:100-121 | the digits-only check implies the check as written, accepts only digits, and agrees with it on inputs without whitespace |
| Validator.IsBeforeDate | moderndeveloper-css-master/moderndeveloper-css-master/project-assignment-4/js/validator.js:158-163 | `None` (the thrown TypeError) on an invalid date, otherwise whether the reference is later; stated by `DateComparisons` |
| Validator.IsAfterDate | moderndeveloper-css-master/moderndeveloper-css-master/project-assignment-4/js/validator.js:172-174 | the negation of `isBeforeDate`, error included; stated by `DateComparisons` |
| Validator.DateComparisons | moderndeveloper-css-master/moderndeveloper-css-master/project-assignment-4/js/validator.js:158-174 | both comparisons throw on an invalid date; otherwise "before" is strict and "after" is its negation, so equal dates count as "after" |
| Validator.IsEmpty | moderndeveloper-css-master/moderndeveloper-css-master/project-assignment-4/js/validator.js:206-212 | `undefined`/`null` are not empty; a string is empty when it trims to nothing; stated by `EmptyMeansBlank` |
| Validator.EmptyMeansBlank | moderndeveloper-css-master/moderndeveloper-css-master/project-assignment-4/js/validator.js:206-212 | a string is empty exactly when it is all whitespace; `undefined` and `null` are not empty |
| Validator.Contains | moderndeveloper-css-master/moderndeveloper-css-master/project-assignment-4/js/validator.js:221-232 | the loop decides whether some word, lowered, equals a token of the input |
| Validator.Lacks | moderndeveloper-css-master/moderndeveloper-css-master/project-assignment-4/js/validator.js:240-242 | the negation of `contains`; stated by `ContainsStandaloneWord` and `ContainsEither` |
| Validator.ContainsStandaloneWord | moderndeveloper-css-master/moderndeveloper-css-master/project-assignment-4/js/validator.js:221-242 | a plain lower-case word between spaces is found, so `lacks` is false |
| Validator.ContainsDashIsSpace | moderndeveloper-css-master/moderndeveloper-css-master/project-assignment-4/js/validator.js:221-225 | a dash separates words exactly as a space does |
| Validator.ContainsEither | moderndeveloper-css-master/moderndeveloper-css-master/project-assignment-4/js/validator.js:221-242 | `contains` over two word lists is the disjunction, `lacks` the conjunction |
| Validator.IsComposedOf | moderndeveloper-css-master/moderndeveloper-css-master/project-assignment-4/js/validator.js:250-275 | the method with its loops computes the model of `isComposedOf`, `undefined` included |
| Validator.ComposedOf | moderndeveloper-css-master/moderndeveloper-css-master/project-assignment-4/js/validator.js:250-275 | the value of `isComposedOf`, `None` for the `undefined` it returns when the cleaned input is empty and not a combination; characterised by the lemmas below |
| Validator.ComposedOfOneString | moderndeveloper-css-master/moderndeveloper-css-master/project-assignment-4/js/validator.js:253-257 | a plain word that is one of the strings is composed of them |
| Validator.ComposedOfTokens | moderndeveloper-css-master/moderndeveloper-css-master/project-assignment-4/js/validator.js:267-274 | two plain words separated by a space are composed of the strings exactly when both are among them |
| Validator.ComposedOfFirstCharacterOnly | moderndeveloper-css-master/moderndeveloper-css-master/project-assignment-4/js/validator.js:259-265 | a one-token input that is not a combination is accepted exactly when its first character is among the strings |
| Validator.ComposedOfEveryCharSound | moderndeveloper-css-master/moderndeveloper-css-master/project-assignment-4/js/validator.js:259-265 | the corrected check accepts a one-token input when it is a combination or every character is among the strings, and whatever it accepts the original accepts |
| Validator.ComposedOfDiffers | moderndeveloper-css-master/moderndeveloper-css-master/project-assignment-4/js/validator.js:259-265 | "xy" is accepted by the original and rejected by the corrected check when only "x" is allowed |
| Validator.IsLength | moderndeveloper-css-master/moderndeveloper-css-master/project-assignment-4/js/validator.js:284-286 | at most n characters |
| Validator.IsOfLength | moderndeveloper-css-master/moderndeveloper-css-master/project-assignment-4/js/validator.js:295-297 | at least n characters |
| Validator.CountWords | moderndeveloper-css-master/moderndeveloper-css-master/project-assignment-4/js/validator.js:305-321 | the loop builds the text with every separator turned into a space, and the count is its number of non-empty space-separated pieces |
| Validator.WordCount | moderndeveloper-css-master/moderndeveloper-css-master/project-assignment-4/js/validator.js:305-321 | the number of non-empty pieces once every separator is a space; stated by `WordCountJoin`, `WordCountConcat` and `NoWordsInSeparators` |
| Validator.WordCountJoin | moderndeveloper-css-master/moderndeveloper-css-master/project-assignment-4/js/validator.js:305-321 | words without separators joined by single spaces count one each |
| Validator.WordCountConcat | moderndeveloper-css-master/moderndeveloper-css-master/project-assignment-4/js/validator.js:305-321 | joined by a space, the word counts of two texts add up |
| Validator.ContractionIsOneWord | moderndeveloper-css-master/moderndeveloper-css-master/project-assignment-4/js/validator.js:306-309 | as written, the apostrophe does not separate: "don't" is one word |
| Validator.ApostropheSeparates | moderndeveloper-css-master/moderndeveloper-css-master/project-assignment-4/js/validator.js:306-309 | with the apostrophe a separator, a contraction counts two words where the code as written counts one |
| Validator.IntendedAgrees | moderndeveloper-css-master/moderndeveloper-css-master/project-assignment-4/js/validator.js:306-309 | on text without an apostrophe the corrected count and the count as written agree |
| Validator.NoWordsInSeparators | moderndeveloper-css-master/moderndeveloper-css-master/project-assignment-4/js/validator.js:305-321 | a text made only of separators has no words |
| Validator.WordChecks | moderndeveloper-css-master/moderndeveloper-css-master/project-assignment-4/js/validator.js:330-343 | words without separators joined by single spaces pass `lessWordsThan(n)` exactly when there are at most n of them and `moreWordsThan(n)` exactly when there are at least n |
| Validator.LessWordsThan | moderndeveloper-css-master/moderndeveloper-css-master/project-assignment-4/js/validator.js:330-332 | at most n words; stated by `WordChecks` |
| Validator.MoreWordsThan | moderndeveloper-css-master/moderndeveloper-css-master/project-assignment-4/js/validator.js:341-343 | at least n words; stated by `WordChecks` |
| Validator.IsBetween | moderndeveloper-css-master/moderndeveloper-css-master/project-assignment-4/js/validator.js:353-355 | floor ≤ input ≤ ceil, both ends inclusive |
| Validator.IsAlphanumeric | moderndeveloper-css-master/moderndeveloper-css-master/project-assignment-4/js/validator.js:363-371 | the loop accepts exactly the strings of ASCII letters and digits |
| Validator.AlphanumericConcat | moderndeveloper-css-master/moderndeveloper-css-master/project-assignment-4/js/validator.js:363-371 | a concatenation is alphanumeric exactly when both parts are |
| Validator.IsCreditCard | moderndeveloper-css-master/moderndeveloper-css-master/project-assignment-4/js/validator.js:379-394 | accepts at most 19 characters which, without dashes, are 16 letters or digits |
| Validator.CreditCardShape | moderndeveloper-css-master/moderndeveloper-css-master/project-assignment-4/js/validator.js:379-394 | an accepted number has 16 to 19 characters, exactly its length minus 16 dashes, and letters or digits otherwise |
| Validator.CreditCardGroups | moderndeveloper-css-master/moderndeveloper-css-master/project-assignment-4/js/validator.js:379-394 | four groups of four letters or digits pass with or without dashes between them |
| Validator.IsHex | moderndeveloper-css-master/moderndeveloper-css-master/project-assignment-4/js/validator.js:402-423 | accepts exactly a leading `#` followed, once every `#` is dropped, by 3 or 6 hex digits of either case |
| Validator.HexOfBody | moderndeveloper-css-master/moderndeveloper-css-master/project-assignment-4/js/validator.js:402-423 | with one leading `#`, the input passes exactly when the body has 3 or 6 hex digits |
| Validator.HexIgnoresExtraHash | moderndeveloper-css-master/moderndeveloper-css-master/project-assignment-4/js/validator.js:406-412 | further `#` characters after the first are ignored |
| Validator.CheckComponents | moderndeveloper-css-master/moderndeveloper-css-master/project-assignment-4/js/validator.js:450-457 | decides that there are as many components as bounds and each one, trimmed and parsed, is not out of its bounds |
| Validator.MatchColorFunction | moderndeveloper-css-master/moderndeveloper-css-master/project-assignment-4/js/validator.js:431-459 | decides the shared shape: the name letters, in order, and three in-range comma-separated components |
| Validator.IsRGB | moderndeveloper-css-master/moderndeveloper-css-master/project-assignment-4/js/validator.js:431-459 | decides the `rgb()` check with each component in 0..255 |
| Validator.IsHSL | moderndeveloper-css-master/moderndeveloper-css-master/project-assignment-4/js/validator.js:467-501 | decides the `hsl()` check with hue in 0..360 and saturation and lightness in 0..1 |
| Validator.IsColor | moderndeveloper-css-master/moderndeveloper-css-master/project-assignment-4/js/validator.js:509-511 | a colour is a hex, RGB or HSL colour |
| Validator.ColorOfComponents | moderndeveloper-css-master/moderndeveloper-css-master/project-assignment-4/js/validator.js:431-459 | with the name letters in place, the input passes exactly when each of the three components is in range |
| Validator.ColorOfNumbers | moderndeveloper-css-master/moderndeveloper-css-master/project-assignment-4/js/validator.js:431-459 | a name wrapped around three decimal numerals passes exactly when each number is within its bounds |
| Validator.RgbOfNumbers | moderndeveloper-css-master/moderndeveloper-css-master/project-assignment-4/js/validator.js:431-459 | rgb(r,g,b) with decimal numerals passes exactly when each is at most 255 |
| Validator.HslOfNumbers | moderndeveloper-css-master/moderndeveloper-css-master/project-assignment-4/js/validator.js:467-501 | hsl(h,s,l) with decimal numerals passes exactly when h is at most 360 and s and l at most 1 |
| Validator.ColorAcceptsNonNumbers | moderndeveloper-css-master/moderndeveloper-css-master/project-assignment-4/js/validator.js:453-457 | a component that does not parse (NaN) passes both comparisons and is never rejected |
| Validator.RgbAcceptsEmptyComponents | moderndeveloper-css-master/moderndeveloper-css-master/project-assignment-4/js/validator.js:431-459 | "rgb(,,)" passes |
| Validator.ColorIgnoresCase | moderndeveloper-css-master/moderndeveloper-css-master/project-assignment-4/js/validator.js:432 | the colour-function check is case-insensitive |
| Validator.IsTrimmed | moderndeveloper-css-master/moderndeveloper-css-master/project-assignment-4/js/validator.js:519-531 | the loop accepts exactly the strings without two consecutive spaces |
| Validator.TrimmedIntendedShape | moderndeveloper-css-master/moderndeveloper-css-master/project-assignment-4/js/validator.js:519-531 | the corrected check rejects two consecutive spaces and leading or trailing whitespace |
| Validator.TrimmedMissesLeadingSpace | moderndeveloper-css-master/moderndeveloper-css-master/project-assignment-4/js/validator.js:519-531 | " word" passes the check as written but not the corrected one |
| Text.SplitPieces | moderndeveloper-css-master/moderndeveloper-css-master/project-assignment-4/js/validator.js:222 | `split` yields pieces without the separator which, joined back, give the input |
| Text.SplitJoin | moderndeveloper-css-master/moderndeveloper-css-master/project-assignment-4/js/validator.js:252 | splitting pieces without the separator, once joined, gives them back |
| Text.SplitAt | moderndeveloper-css-master/moderndeveloper-css-master/project-assignment-4/js/validator.js:252 | splitting around one separator splits each side on its own |
| Text.TrimIsInfix | moderndeveloper-css-master/moderndeveloper-css-master/project-assignment-4/js/validator.js:210 | `trim` removes exactly the leading and the trailing whitespace |
| Text.ParseDecimal | moderndeveloper-css-master/moderndeveloper-css-master/project-assignment-4/js/validator.js:454 | `parseInt` reads a decimal numeral back as its value, whatever non-digit follows |
| Text.SelectIdempotent | moderndeveloper-css-master/moderndeveloper-css-master/project-assignment-4/js/validator.js:129-134 | filtering characters a second time changes nothing |
| Text.LowerHasNoUpper | moderndeveloper-css-master/moderndeveloper-css-master/project-assignment-4/js/validator.js:224 | `toLowerCase` leaves no ASCII capital |

## Left out

- Floating point is not modelled. This covers `fixFloat` in both applications, the calculator's `eval`, and the number-to-string conversion. EQUAL takes the evaluator as a parameter (`string -> Option<string>`), where `None` means evaluation threw.
- The cart's tax, shipping, discount amount and grand total (assignment 6, lines 385-397) are floating-point arithmetic passed through `fixFloat`, so they are not modelled. The subtotal and the discount table they start from are modelled.
- `isBeforeToday` and `isAfterToday` read the clock, so they are not modelled. Date parsing (`new Date(v)`) is not modelled either: a date is given already parsed, as valid with a time value or invalid (`Validator.Date`).
- Strings are sequences of Dafny characters rather than UTF-16 code units. `toLowerCase` is modelled on ASCII letters only.
- Validator.IsBetween is modelled on real numbers only: NaN, strings and other non-number inputs are not modelled.
- Cart product ids are integers. The page reads ids back from the DOM as strings and compares them loosely (`!=`), which agrees on the ids it generates. Prices and quantities are integers, as the product generator makes them.
- Cart.Coupon: looking up a code that names an inherited object property (such as `toString`) is not modelled.
- Cart.Values takes an object's own properties as a sequence of pairs, already in enumeration order.
- Store.Store.Dispatch: listeners are opaque values, and calling one is recorded in `notified`. A listener that dispatches, subscribes or unsubscribes while being called is not modelled.
- The state a reducer gets on the seed dispatch is its default parameter (`initialState`). `Store.Store.constructor` takes that default as an argument.
- DOM rendering, event wiring, animations, `documentReady` and the random product generator are not modelled. The decrease button's choice between REMOVE and DECREASE is modelled (`Cart.DecreaseClick`).
- `isNumber` is modelled on the one-character strings `isPhoneNumber` passes it (`Validator.IsNumberChar`); its `typeof` test for other kinds of value is not modelled.

## Findings

| source | as written | input that shows it | evidently intended | confidence | as-written member | corrected member |
|---|---|---|---|---|---|---|
| moderndeveloper-css-master/moderndeveloper-css-master/project-assignment-4/js/validator.js:100-121 | `isNumber` accepts whitespace, which unary `+` reads as 0, so whitespace other than a space counts as a digit | "1800" followed by six tab characters is accepted | only decimal digits besides the separators | not executed | Validator.PhoneAcceptsTabs | Validator.DigitPhoneNumberIsStrict |
| moderndeveloper-css-master/moderndeveloper-css-master/project-assignment-4/js/validator.js:259-265 | the loop over the characters returns in its first iteration, so only the first character is checked | `isComposedOf("xy", ["x"])` is true | every character must be one of the strings | not executed | Validator.ComposedOfDiffers | Validator.ComposedOfEveryCharSound |
| moderndeveloper-css-master/moderndeveloper-css-master/project-assignment-4/js/validator.js:519-531 | only double spaces are rejected; leading and trailing whitespace pass | `isTrimmed(" word")` is true | no leading or trailing whitespace and no double spaces | not executed | Validator.TrimmedMissesLeadingSpace | Validator.TrimmedIntendedShape |
| moderndeveloper-css-master/moderndeveloper-css-master/project-assignment-4/js/validator.js:306-309 | `puncs.indexOf(c) > 0` skips the apostrophe, which is at index 0 of the list | `countWords("don't")` is 1 although the apostrophe is listed as punctuation | every listed punctuation character separates words (`>= 0`) | not executed | Validator.ContractionIsOneWord | Validator.ApostropheSeparates |
