# Learn-JavaScript-with-AI utilities, modelled in Dafny

This project models the three pieces of logic in the repository: the email
helpers (`isValidEmail`, `getEmailDomain`, `sanitizeEmail`), the calculator
helpers (`add`, `subtract`, `multiply`, `divide`) and the bundle-size check
script that reads webpack's stats and sets the process exit code.

- `js.dfy` (module `Js`): the part of JavaScript's value model the helpers
  inspect. There is a dynamically typed argument (`JsValue`), `null` as
  `Option`, and a thrown `TypeError`/`Error` as the `Throw` case of `Result`.
- `js_string.dfy` (module `JsString`): the string built-ins the email helpers
  call. `trim` and the regular-expression class `\s` share one white-space
  set, the ECMAScript WhiteSpace and LineTerminator code points. The module
  also has `toLowerCase`, restricted to ASCII, and `split`/`join` on a
  one-character separator. `IsWs` is the white-space set. `Trim` is
  `String.prototype.trim`, with `TrimStart` and `TrimEnd` as its two halves.
  `ToLower` is `toLowerCase`, `Split` is `split` and `IndexOf` is `indexOf`.
  `Join` and `Count` are reference definitions that the lemmas about `Split`
  use.
- `email.dfy` (module `Email`): the regular expression
  `^[^\s@]+@[^\s@]+\.[^\s@]+$` written as a predicate. It is proved
  equivalent to a description by parts: exactly one `@`, no white space, a
  non-empty local part, and a dot that is neither first nor last in the
  domain. The three helpers are built on it, with their properties and the
  unit-test scenarios. `MatchesEmailPattern` is the regular expression and
  `IsWellFormedAddress` is the description by parts. `IsValidEmail`,
  `GetEmailDomain` and `SanitizeEmail` model `isValidEmail`,
  `getEmailDomain` and `sanitizeEmail`.
- `calculator.dfy` (module `Calculator`): the four operations with their type
  check and zero check, over real numbers. `Add`, `Subtract`, `Multiply`
  and `Divide` model `add`, `subtract`, `multiply` and `divide`.
- `bundle_size.dfy` (module `BundleSize`): the script as a method from the
  parsed stats (or their absence) to a `Report`. The report holds the exit
  code, the per-asset statuses, the total size, the bundle verdict and the
  largest-modules listing. `CheckBundleSize` is the whole script.
  - `AnalyzeAssets` is the `forEach` over the assets: a loop proved against
    `TotalSize` (the running total), `AnyOversized` (the `hasError` flag) and
    `AssetStatusOf` (the status of one asset).
  - `VerdictOf` is the comparison of the total with the bundle limits.
  - `LargestModules` is the `filter`, `sort` and `slice(0, 5)` chain. It is
    built from `LargeModules`, `SortBySizeDesc` and `Take`.
  - `LabelSource` is `name || identifier || 'unknown'`, and `DisplayName` is
    its `substring(0, 60)`.
  - `Labels` maps `DisplayName` over the listed modules.
  - The `Listing` type records the `Array.isArray` guard on `assets` and
    `modules`. `ListedItems` gives the assets the loop sees, which is none
    unless `assets` is an array.

Design decisions:

- The file system, `JSON.parse`, the console and `process.exit` are not
  modelled.
- The stats arrive as a parameter: `None` when the file does not exist.
- Each of `assets` and `modules` is absent, present but not an array, or an
  array.
- `Report.exitCode` is the value passed to `process.exit`. When the bundle
  exceeds its limit, the script exits early with 1, before the module
  listing. In that case the report's ranking is `NotReached`.
- The warning thresholds are `MAX_ASSET_SIZE * 0.8` and
  `MAX_BUNDLE_SIZE * 0.8`. In double arithmetic these products are exactly
  204800 and 409600, so the model uses natural numbers throughout.

`getEmailDomain` returns `split('@')[1]` of the trimmed address, which is
the text between the first and the second `@`. On an address with exactly
one `@` that is everything after the `@`, and every address that reaches
that line has exactly one `@`. `Email.GetEmailDomainParts` proves this.

## Model

| member | source | states |
|---|---|---|
| JsString.TrimStartFacts | src/utils/email.js:17 | removing leading white space leaves a suffix of the string; everything removed is white space, and the rest does not start with white space |
| JsString.TrimEndFacts | src/utils/email.js:17 | removing trailing white space leaves a prefix of the string; everything removed is white space, and the rest does not end with white space |
| JsString.Trim | src/utils/email.js:17 | `trim` never lengthens its argument, and its result neither starts nor ends with white space |
| JsString.TrimIsSlice | src/utils/email.js:17 | `trim` returns the slice between a removed white-space prefix and a removed white-space suffix |
| JsString.TrimKeepsNonWs | src/utils/email.js:17 | a character that is not white space is kept by `trim`, at its position minus the removed prefix |
| JsString.TrimStartsAt | src/utils/email.js:17 | when everything before position `k` is white space and `k` is not, `trim` cuts exactly `k` characters on the left and starts with the character at `k` |
| JsString.TrimKeepsChars | src/utils/email.js:17 | every character of the trimmed string occurs in the original |
| JsString.TrimOfTrimmed | src/utils/email.js:17 | a string with no surrounding white space is returned unchanged |
| JsString.TrimIdempotent | src/utils/email.js:17 | trimming twice is trimming once |
| JsString.TrimStartPadding | src/utils/email.js:17 | a white-space prefix is stripped entirely |
| JsString.TrimEndPadding | src/utils/email.js:17 | a white-space suffix is stripped entirely |
| JsString.TrimIgnoresPadding | src/utils/email.js:17 | white space added on either side never changes the result of `trim` |
| JsString.ToLowerChar | src/utils/email.js:44 | ASCII capitals move to lower case by +32, every other character is kept, and no capital remains |
| JsString.ToLower | src/utils/email.js:44 | `toLowerCase` keeps the length and lower-cases position by position |
| JsString.ToLowerIdempotent | src/utils/email.js:44 | lower-casing twice is lower-casing once |
| JsString.ToLowerKeepsDelimiters | src/utils/email.js:44 | lower-casing leaves white space, `@` and `.` exactly where they were |
| JsString.IndexOf | src/utils/email.js:30 | the first position of the separator: it holds the separator and none comes before it |
| JsString.Count | src/utils/email.js:30 | the count is zero exactly when the separator does not occur |
| JsString.CountAppend | src/utils/email.js:30 | counting distributes over concatenation |
| JsString.Split | src/utils/email.js:30 | `split` returns at least one part, and no part contains the separator |
| JsString.JoinSplit | src/utils/email.js:30 | joining the parts of `split` with the separator rebuilds the string |
| JsString.IndexOfFirst | src/utils/email.js:30 | a position holding the separator, with none before it, is the one `indexOf` finds |
| JsString.SplitAfterFirst | src/utils/email.js:30 | when the text before the first separator has none, `split` cuts it off as the first part and splits the rest |
| JsString.CountAfterFirst | src/utils/email.js:30 | the separators of a string are the first one plus those after it |
| JsString.SplitJoin | src/utils/email.js:30 | splitting a join of separator-free parts gives those parts back |
| JsString.SplitLength | src/utils/email.js:30 | `split` returns one more part than there are separators |
| JsString.SplitAtSingle | src/utils/email.js:30 | with exactly one separator, `split` returns the text before it and the text after it |
| Email.PatternImpliesWellFormed | src/utils/email.js:16 | a string the pattern matches has one `@`, no white space, a non-empty local part and an inner dot in the domain |
| Email.WellFormedImpliesPattern | src/utils/email.js:16 | every such well-formed string is matched by the pattern |
| Email.PatternIffWellFormed | src/utils/email.js:16 | the email pattern matches exactly when there is one `@`, no white space, a non-empty local part, and an inner dot in the domain part |
| Email.IsValidEmailNonString | src/utils/email.js:11-13 | any argument that is not a string is invalid |
| Email.IsValidEmailIff | src/utils/email.js:10-18 | a string is valid exactly when its trimmed form is well formed (one `@`, no white space, non-empty local part, inner dot in the domain) |
| Email.IsValidEmailIgnoresPadding | src/utils/email.js:17 | white space around an address never changes its validity, and validity equals that of the trimmed string |
| Email.ValidAddressShape | src/utils/email.js:16-17 | the trimmed form of a valid address has no white space and exactly one `@` |
| Email.GetEmailDomainNullIff | src/utils/email.js:25-28 | `getEmailDomain` returns null exactly when `isValidEmail` is false |
| Email.GetEmailDomainParts | src/utils/email.js:30-31 | for a valid address, the trimmed address is the local part, `@` and the returned domain, and the domain is non-empty and has no `@`, no white space and a `.` |
| Email.GetEmailDomainIgnoresPadding | src/utils/email.js:25-31 | white space around an address changes neither the null result nor the domain |
| Email.SanitizeEmail | src/utils/email.js:39-45 | it throws exactly when the argument is not a string, and the error is a `TypeError` with the message "Email must be a string" |
| Email.SanitizeEmailResult | src/utils/email.js:44 | for a string, the result has the trimmed string's length and characters, ASCII capitals lowered, no capital left and no surrounding white space |
| Email.SanitizeEmailIdempotent | src/utils/email.js:44 | sanitizing a sanitized address changes nothing |
| Email.PatternIgnoresCase | src/utils/email.js:16 | lower-casing neither creates nor destroys a pattern match |
| Email.SanitizeEmailKeepsValidity | src/utils/email.js:44 | a sanitized address is valid exactly when the original is |
| Email.IsValidEmailOfTrimmed | src/utils/email.js:17 | for a string with no surrounding white space, validity is the pattern itself |
| Email.AcceptsTrimmedParts | src/utils/email.js:16 | `local@host.tld` made of three `[^\s@]+` runs matches and splits into `local` and `host.tld` |
| Email.AcceptsAddress | src/utils/email.js:10-31 | an address `local@host.tld` of three `[^\s@]+` runs is valid and its domain is `host.tld` |
| Email.GetEmailDomainOfValid | src/utils/email.js:30-31 | for a valid address, `split` yields two parts and the domain is the second one |
| Email.MatchFacts | src/utils/email.js:16 | a string the pattern matches contains `@` and `.`, does not start with `@`, and has no white space |
| Email.RejectsWithoutAt | src/utils/email.js:16-17 | any string without `@`, padded or not, is invalid and has no domain |
| Email.RejectsWithoutDot | src/utils/email.js:16-17 | any string in which no `.` comes after an `@` (so any string without `.`), padded or not, is invalid and has no domain |
| Email.RejectsLeadingAt | src/utils/email.js:16-17 | a string whose first character other than white space is `@` is invalid and has no domain |
| Email.RejectsInnerWs | src/utils/email.js:16-17 | a string with white space between two characters that are not white space is invalid and has no domain |
| Email.SanitizeEmailIgnoresPadding | src/utils/email.js:44 | white space around a string never changes what it sanitizes to |
| Email.SanitizesTo | src/utils/email.js:44 | a string without surrounding white space sanitizes to its lower-cased form, position by position |
| Email.PlainAddressScenario | src/utils/email.test.js:6 | `user@example.com` is valid with domain `example.com` |
| Email.DottedLocalPartScenario | src/utils/email.test.js:7 | `test.user@domain.co.uk` is valid with domain `domain.co.uk` |
| Email.TaggedLocalPartScenario | src/utils/email.test.js:8 | `user+tag@example.com` is valid |
| Email.SubdomainScenario | src/utils/email.test.js:34 | the domain of `test@domain.co.uk` is `domain.co.uk` |
| Email.PaddedAddressScenario | src/utils/email.test.js:26-28 | `  user@example.com  ` is valid with domain `example.com` |
| Email.MissingAtScenario | src/utils/email.test.js:12 | `invalid` is invalid and has no domain |
| Email.MissingDomainScenario | src/utils/email.test.js:13 | `user@` is invalid and has no domain |
| Email.MissingLocalPartScenario | src/utils/email.test.js:14 | `@example.com` is invalid |
| Email.InnerSpaceScenario | src/utils/email.test.js:15 | `user @example.com` is invalid |
| Email.EmptyStringScenario | src/utils/email.test.js:16 | the empty string is invalid and has no domain |
| Email.NonStringScenarios | src/utils/email.test.js:19-58 | null, undefined, a number and an object are invalid, and sanitizing null, a number or an object throws the `TypeError` |
| Email.UpperCaseLowered | src/utils/email.test.js:50 | `USER@EXAMPLE.COM` sanitizes to `user@example.com` |
| Email.UpperCasePaddedScenario | src/utils/email.test.js:50 | `  USER@EXAMPLE.COM  ` sanitizes to `user@example.com` |
| Email.MixedCaseScenario | src/utils/email.test.js:51 | `Test@Domain.Com` sanitizes to `test@domain.com` |
| Email.PreservedCharactersScenario | src/utils/email.test.js:60-62 | `user+tag@example.com` is left unchanged |
| Calculator.Add | src/utils/calculator.js:11-16 | a result exactly when both arguments are numbers, otherwise the `TypeError` "Both arguments must be numbers" |
| Calculator.Subtract | src/utils/calculator.js:24-29 | a result exactly when both arguments are numbers, otherwise the same `TypeError` |
| Calculator.Multiply | src/utils/calculator.js:37-42 | a result exactly when both arguments are numbers, otherwise the same `TypeError` |
| Calculator.Divide | src/utils/calculator.js:50-58 | a result exactly when both are numbers and the divisor is non-zero; a non-number gives the `TypeError`, a zero divisor gives `Error("Cannot divide by zero")` |
| Calculator.NonNumberThrowsTypeError | src/utils/calculator.js:12-14 | whichever argument is not a number, all four operations throw the same `TypeError` |
| Calculator.TypeCheckPrecedesZeroCheck | src/utils/calculator.js:51-56 | a non-number dividend over a zero divisor is a type error, not a division by zero |
| Calculator.NumbersGiveResults | src/utils/calculator.js:11-42 | two numbers give their sum, difference and product |
| Calculator.DivideNumbers | src/utils/calculator.js:54-57 | two numbers give their quotient unless the divisor is zero, which gives the division-by-zero error |
| Calculator.CalculatorScenarios | src/utils/calculator.test.js:5-97 | every test case that compares exactly (`toBe`) and every non-number or zero-divisor throw, one clause per expectation. The three `toBeCloseTo` cases are left out |
| BundleSize.TotalSizeAppend | scripts/check-bundle-size.js:32 | adding an asset adds its size to the running total |
| BundleSize.AssetWithinTotal | scripts/check-bundle-size.js:32 | no asset is larger than the total, so one asset above 500 KiB makes the bundle exceed |
| BundleSize.AssetStatusOf | scripts/check-bundle-size.js:34-40 | an asset is too large above 250 KiB, a warning above 80% of that (204800 bytes) and up to the limit, and fine otherwise |
| BundleSize.AnalyzeAssets | scripts/check-bundle-size.js:28-44 | the pass over the assets returns the sum of their sizes, an error flag set exactly when some asset exceeds 250 KiB, and each asset's status in order |
| BundleSize.ErrorFlagIffTooLargeStatus | scripts/check-bundle-size.js:35-37 | the error flag is set exactly when some asset is marked too large |
| BundleSize.VerdictOf | scripts/check-bundle-size.js:53-65 | the bundle exceeds above 500 KiB, approaches the limit above 80% of that (409600 bytes), and is within limits otherwise |
| BundleSize.LargeModules | scripts/check-bundle-size.js:70 | the filtered list holds exactly the modules above 50 KiB, with their multiplicities |
| BundleSize.LargeModulesAppend | scripts/check-bundle-size.js:70 | `filter` keeps the input order: the large modules of `a + b` are those of `a` followed by those of `b` |
| BundleSize.InsertBySize | scripts/check-bundle-size.js:71 | inserting into a list sorted by decreasing size keeps it sorted, adds exactly the new entry, and keeps any upper bound on sizes |
| BundleSize.SortBySizeDesc | scripts/check-bundle-size.js:71 | the sort returns a permutation ordered by decreasing size |
| BundleSize.Take | scripts/check-bundle-size.js:72 | `slice(0, n)`: the first `n` entries, or all of them when there are fewer |
| BundleSize.TakeSorted | scripts/check-bundle-size.js:72 | `slice(0, 5)` of a sorted list is a sorted prefix drawn from it |
| BundleSize.TakeLeavesTheSmaller | scripts/check-bundle-size.js:71-72 | after sorting by decreasing size, every module `slice(0, 5)` drops is no larger than every module it keeps |
| BundleSize.LargestModules | scripts/check-bundle-size.js:69-72 | at most five modules, each above 50 KiB, in decreasing size, drawn from the module list |
| BundleSize.LargestModulesAreTheLargest | scripts/check-bundle-size.js:69-72 | the listing holds min(5, number of large modules) entries, and no large module left out is larger than a listed one |
| BundleSize.DisplayName | scripts/check-bundle-size.js:78-79 | the label is a non-empty prefix of at most 60 characters of the chosen name, and is shorter only when that name is longer than 60 |
| BundleSize.DisplayNameSource | scripts/check-bundle-size.js:78 | the name is used when it is a non-empty string, else the identifier when it is a non-empty string, else "unknown" |
| BundleSize.Labels | scripts/check-bundle-size.js:76-80 | each listed module gets its own label, in order |
| BundleSize.CheckBundleSize | scripts/check-bundle-size.js:15-85 | no stats file gives exit code 0; otherwise the report has the assets' statuses, total and verdict; an exceeding bundle stops before the ranking; and the exit code is 1 exactly when the total exceeds 500 KiB or some asset exceeds 250 KiB |

## Left out

- Floating point: numbers are reals. NaN, infinities, negative zero and
  rounding are not modelled, so the calculator's results are the exact sum,
  difference, product and quotient. The test cases that compare with
  `toBeCloseTo` (`0.1 + 0.2`, `1 / 3`, `0.0001 + 0.0002`) are not stated.
- Calculator.NumbersGiveResults: states exact real arithmetic, whereas the
  operators round to the nearest double.
- Asset and module sizes are natural numbers. A size that is not a number
  is not modelled. A missing size turns the running total into NaN. A string
  size makes `+=` concatenate, and `null` adds 0. The model's sum is exact;
  the double sum agrees with it only while the total stays below 2^53.
- `toLowerCase` covers the ASCII letters only. Other characters are kept,
  although the full Unicode mapping would change some of them.
- Strings are sequences of characters, not UTF-16 code units. No
  white-space code point lies outside the Basic Multilingual Plane, so
  `trim` is the same either way. Only `name.substring(0, 60)` differs: on a
  name with characters outside that plane it counts code units, and it can
  cut a surrogate pair in half. `DisplayName` counts characters.
- BundleSize.CheckBundleSize: module names and identifiers are taken to be
  absent or strings. Suppose one of the listed modules chooses a value that
  is truthy but not a string. Then `substring` throws a `TypeError` at line
  79, and the uncaught error ends the script with exit code 1, even when no
  asset is oversized. The model's exit code would be 0 there.
- BundleSize.CheckBundleSize: asset names are taken to be strings. An asset
  whose `name` is not a string is not modelled. Asset names are used only for
  console output, but `asset.name.padEnd(30)` then throws a `TypeError`. The
  uncaught error ends the script with exit code 1 before the bundle verdict
  and the module listing, whatever the sizes are.
- Console output is not modelled. This covers the status marks, `toFixed`,
  `padStart`/`padEnd`, the totals line and the suggestions. Only the values
  those lines are computed from are returned.
- The file-system check, reading the file and `JSON.parse` are not modelled.
  A missing file is the `None` argument, and a malformed file is not covered.
  Well-formed JSON whose stats or asset entries are not objects is not
  covered either. A top-level `null` makes `stats.assets` throw. A `null`
  entry in `assets` makes `asset.size` throw. Either uncaught `TypeError`
  ends the script with exit code 1. The model's stats are always a `Stats`
  record of `Asset` and `ModuleEntry` values.
- BundleSize.SortBySizeDesc: the sort is stable, like `Array.prototype.sort`,
  but the contract states only the permutation and the order. It does not
  state stability.
- `src/index.js`, `webpack.config.js`, `.eslintrc.js`, the end-to-end tests
  and the accessibility tests are not part of this model. They are wiring,
  build configuration and browser tests.
