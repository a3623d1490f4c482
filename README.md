# Wallet front-end string helpers, in Dafny

This project models the string helpers in `lib/utils.ts` of a small web front end for an embedded crypto wallet. The modelled helpers are the string helpers of that file; `formatBalance` and the glue listed under "## Left out" are not modelled. Only `formatAddress` has a caller (`components/wallet.tsx:50`); the transfer form calls none of the validators or the sanitiser. The helpers are:

- `formatAddress`: shortens a wallet address for display.
- `isValidSeiAddress`, `isValidEmailWalletFormat`, `isValidRecipient`: recipient validators. A recipient is either `0x` plus forty hex digits, or an e-mail wallet locator `email:<local>@<domain>.<tld>:(sei-wallet|smartwallet)`.
- `isValidAmount`: amount validator. It accepts digits with at most one `.` and at most six fractional digits, parsed to a finite positive number.
- `sanitizeInput`: trims, then deletes every character outside `[\w\s@.:]`.

The source is pure: each helper is a few side-effect-free statements built from `trim`, `slice`, regular-expression tests, `replace` and, in `isValidAmount`, `parseFloat` and `isFinite`. The model is pure too, made of predicates, functions and lemmas over `string` (`seq<char>`).

- `js_string.dfy` (module `JsString`) models the ECMAScript primitives the helpers use. These are the WhiteSpace and LineTerminator code points, `String.prototype.trim`, and the index arithmetic of `String.prototype.slice`.
- `utils.dfy` (module `Utils`) models the six helpers. Each regular expression becomes a predicate on the trimmed string (`MatchesSeiAddress`, `MatchesEmailWallet`, `MatchesAmount`). An Intro/Elim pair of lemmas ties each predicate to the shape the expression describes, in both directions.

How the model reads `isValidAmount`: for a string the amount pattern accepts, `parseFloat` is modelled exactly as far as `isFinite(num) && num > 0` can tell.

- The result is `NaN` when the string has no digit (`"."`).
- The result is `Infinity` when the integer part is at least 2^1024 − 2^970. That is where binary64 rounding (round to nearest, ties to even) overflows.
- Otherwise the result is the exact decimal value. A positive value with at most six fractional digits is at least 10^-6, so rounding never changes its sign.

The lemma `AmountValidIff` then states that, on strings that pass the pattern, the amount is valid exactly when some digit is not `0` and the integer part does not overflow. `AmountValidIffNonZero` drops the overflow clause for integer parts of up to 308 digits.

Some consequences of the code worth knowing:

- Surrounding whitespace is accepted, because each recipient and amount check tests `trim()` of its input.
- The e-mail form needs a `.` after the `@`, and `.+` lets each part hold `@`, `.` or `:`.
- The code has no balance-sufficiency check, no classification of upstream error messages and no composition of token locators, because `components/transfer.tsx:17` is a placeholder. So the model has none either.

## Model

| member | source | states |
|---|---|---|
| `JsString.TrimIsInnerSlice` | lib/utils.ts:39 | `trim(s)` is the slice `s[i..j]` left after removing the whole leading and trailing whitespace runs; neither end of the result is whitespace |
| `JsString.TrimEmptyIffAllWhitespace` | lib/utils.ts:37 | `trim(s)` is empty, the falsy case of the `!x?.trim()` guards, exactly when `s` is whitespace only |
| `JsString.TrimRemovesPadding` | lib/utils.ts:45 | `trim` applied to whitespace padding around a trimmed string gives back that string |
| `JsString.TrimIdempotent` | lib/utils.ts:61 | `trim(trim(s)) == trim(s)` |
| `JsString.SliceFromNegative` | lib/utils.ts:10 | `s.slice(-n)` is the last `n` characters for `0 < n <= |s|`, and the whole string for `n == 0` |
| `Utils.FormatAddressKeepsShort` | lib/utils.ts:9 | an address of at most `2 * length` characters is returned unchanged |
| `Utils.FormatAddressElidesMiddle` | lib/utils.ts:10 | for `length > 0` and a longer address, the result is its first `length` characters, `...`, and its last `length` characters, `2 * length + 3` in all |
| `Utils.FormatAddressZeroLength` | lib/utils.ts:8-10 | with `length == 0` a non-empty address becomes `"..."` followed by the whole address, since `slice(-0)` is `slice(0)` |
| `Utils.FormatAddressNegativeLength` | lib/utils.ts:8-10 | with a negative `length`, both slices count from the other end, and the result is given in closed form |
| `Utils.FormatAddressShortensIff` | lib/utils.ts:8-10 | for `length > 0` the result is shorter than the address exactly when the address has more than `2 * length + 3` characters |
| `Utils.SeiAddressAccepts` | lib/utils.ts:36-40 | `0x` followed by any forty characters of `[a-fA-F0-9]`, with any whitespace around it, is a valid Sei address |
| `Utils.SeiAddressShape` | lib/utils.ts:36-40 | a valid Sei address trims to lower-case `0x` followed by exactly forty hex digits |
| `Utils.EmailWalletIntro` | lib/utils.ts:44 | every `email:` + local + `@` + domain + `.` + tld + `:` + kind, with the three parts non-empty and free of line terminators and kind `sei-wallet` or `smartwallet`, matches the pattern |
| `Utils.EmailWalletElim` | lib/utils.ts:44 | every string matching the pattern splits that way |
| `Utils.MailboxElim` | lib/utils.ts:44 | the part between `email:` and `:kind` splits as local `@` domain `.` tld, each part non-empty and free of line terminators |
| `Utils.EmailWalletAccepts` | lib/utils.ts:42-46 | such a locator with any whitespace around it passes `isValidEmailWalletFormat` |
| `Utils.EmailWalletHasNoLineTerminator` | lib/utils.ts:44-45 | an accepted e-mail recipient has no line terminator anywhere in its trimmed form, because `.` refuses them |
| `Utils.RecipientValidIff` | lib/utils.ts:48-50 | a recipient is valid exactly when its trimmed form matches the Sei-address pattern or the e-mail-wallet pattern |
| `Utils.RecipientFormsDisjoint` | lib/utils.ts:48-50 | no recipient passes both validators |
| `Utils.RecipientIgnoresPadding` | lib/utils.ts:48-50 | a recipient and its trimmed form are valid together or invalid together |
| `Utils.BlankRecipientRejected` | lib/utils.ts:36-50 | empty or whitespace-only recipients are rejected by both validators |
| `Utils.AmountIntro` | lib/utils.ts:54 | any digits, an optional `.`, and at most six digits match `^[0-9]*\.?[0-9]{0,6}$` |
| `Utils.AmountElim` | lib/utils.ts:54 | every matching string splits that way, with the split at its first `.` |
| `Utils.ValidAmountShape` | lib/utils.ts:52-55 | a valid amount trims to digits and at most one `.`, with at most six digits after the `.` |
| `Utils.BlankAmountRejected` | lib/utils.ts:53 | empty or whitespace-only amounts are rejected |
| `Utils.DigitsValuePositiveIff` | lib/utils.ts:57 | a digit string is worth more than zero exactly when one of its digits is not `0` |
| `Utils.ParseAmountLiteralValue` | lib/utils.ts:56 | a finite `parseFloat` result is the integer part plus a fraction below one, scaled by the number of fractional digits, and its integer part is below the overflow bound |
| `Utils.AmountValidIff` | lib/utils.ts:52-57 | on pattern-matching input, valid exactly when some digit is not `0` and the integer part is below 2^1024 − 2^970, where `parseFloat` overflows to `Infinity` |
| `Utils.AmountValidIffNonZero` | lib/utils.ts:52-57 | for integer parts of at most 308 digits, a pattern-matching amount is valid exactly when some digit is not `0` |
| `Utils.DecimalAmountValid` | lib/utils.ts:52-57 | digits, a `.` and at most six digits, with some digit not `0`, and at most 308 integer digits, form a valid amount (such a string is its own trim) |
| `Utils.ValidAmountAtLeastOneMillionth` | lib/utils.ts:52-57 | the parsed value of a valid amount is finite, with at least one unit at a scale of at most six fractional digits, so it is at least 10^-6 |
| `Utils.AmountExampleSmallest` | lib/utils.ts:52-57 | `"0.000001"`, the least value allowed, is valid |
| `Utils.AmountExampleTrailingDot` | lib/utils.ts:52-57 | `"5."` is valid |
| `Utils.AmountExampleLeadingDot` | lib/utils.ts:52-57 | `".5"` is valid |
| `Utils.AmountExamplePadded` | lib/utils.ts:52-57 | `" 12 "` is valid |
| `Utils.AmountExampleZero` | lib/utils.ts:52-57 | `"0"` is rejected |
| `Utils.ZeroAmountRejected` | lib/utils.ts:52-57 | a pattern-matching amount written only with `0` and `.`, such as `0.000000`, is rejected whatever its length |
| `Utils.AmountExampleDotOnly` | lib/utils.ts:52-57 | `"."` is rejected |
| `Utils.AmountExampleSevenDecimals` | lib/utils.ts:52-57 | `"0.0000001"` is rejected |
| `Utils.AmountExampleLetters` | lib/utils.ts:52-57 | `"abc"` is rejected |
| `Utils.AmountExampleNegative` | lib/utils.ts:52-57 | `"-1"` is rejected, since the pattern has no sign |
| `Utils.AmountExampleTwoDots` | lib/utils.ts:52-57 | `"1.2.3"` is rejected |
| `Utils.RemoveDisallowedSpec` | lib/utils.ts:61 | `replace(/[^\w\s@.:]/g, '')` returns a subsequence of its input that holds only allowed characters, and holds each allowed character as often as the input does |
| `Utils.RemoveDisallowedKeepsAllowed` | lib/utils.ts:61 | a string of allowed characters only is left unchanged |
| `Utils.RemoveDisallowedAppend` | lib/utils.ts:61 | the deletion distributes over concatenation |
| `Utils.SanitizeInputSpec` | lib/utils.ts:60-62 | `sanitizeInput(s)` is the subsequence of `trim(s)` made of exactly its allowed characters, in their original order |
| `Utils.SanitizeInputTwice` | lib/utils.ts:60-62 | sanitising a sanitised string only trims it again |
| `Utils.RemoveDisallowedDropsOne` | lib/utils.ts:61 | one disallowed character between two runs of allowed characters is the only character deleted |
| `Utils.SanitizeInputNotIdempotent` | lib/utils.ts:60-62 | for any trimmed text of allowed characters, a whitespace character and a disallowed one, `sanitizeInput` leaves the text and the whitespace, and a second call trims the whitespace too, so the function is not idempotent (`"a !"` gives `"a "`, then `"a"`) |
| `Utils.SanitizeInputDropsKindDash` | lib/utils.ts:61 | in a locator with kind `sei-wallet` and word-character parts, the sanitiser deletes only the `-`, leaving kind `seiwallet` |
| `Utils.DashlessKindRejected` | lib/utils.ts:44-45 | a locator with kind `seiwallet` is rejected by `isValidEmailWalletFormat` |
| `Utils.SanitizeInputBreaksSeiWalletKind` | lib/utils.ts:42-62 | every valid `sei-wallet` recipient with word-character parts (such as `email:a@b.c:sei-wallet`) turns, once sanitised, into an invalid one |

## Left out

- `cn`, `copyToClipboard` and `formatBalance` in `lib/utils.ts`. The first two are thin wrappers over the class-name helpers and the browser clipboard. The third parses floating-point numbers and formats them with `Intl.NumberFormat`.
- The HTTP client in `lib/crossmint-api.ts`, the two API routes, the environment loader `lib/env.ts`, the type declarations in `lib/types.ts`, and all React components. These are I/O, framework glue and UI, with no string logic of their own.
- `null` and `undefined` inputs, which the `?.` in the guards would tolerate. Every parameter is typed `string`, so the model takes strings only.
- FormatAddress: `length` is modelled as an integer. A fractional `length` is truncated by `slice` but compared untruncated by `<=`, and that is not modelled.
- FormatAddress: characters are Unicode scalar values. JavaScript counts `length` and slice positions in UTF-16 code units, so an address containing characters beyond U+FFFF can be cut differently. The validators and the sanitiser are unaffected: their patterns are ASCII, and `[^\w\s@.:]` deletes both halves of a surrogate pair.
- ParseAmountLiteral: the finite result is kept as its exact decimal value, not the rounded binary64 number. Only its sign reaches `isValidAmount`, and rounding cannot change that sign. The overflow bound assumes correctly rounded conversion. ECMAScript lets an engine round literals of more than 20 significant digits either way at the 20th digit, and that latitude is not modelled.
- IsWhitespace: the Zs (space separator) category is fixed at its current members. The set `trim` and `\s` use can grow with future Unicode versions.
