# proc-utils `utils`: a verified Dafny model

This project models the utility object exported by `lib/utils.js`. It covers
five routines:

- `required(reqdata, params, any)` checks that request parameters are present.
  It returns `undefined` when they are, and otherwise an `Error` whose message
  lists the missing names. In all-mode any missing name is an error. In
  any-mode (`any` set) there is an error only when every name is missing.
- `isTrue(str)` coerces a value to a boolean through a fixed, case-insensitive
  table of false tokens.
- `isValidEmail(email)` tests one anchored regular expression.
- `isWebUri(url, strict)` normalises `url` and hands it to an external URI
  validator. In non-strict mode, `http://` is put in front of a url that does
  not contain it.
- `randomValueHex(len)` draws `ceil(len / 2)` random bytes, hex-encodes them
  and keeps `len` digits.

Files:

- `Wrappers.dfy` holds `Option`. `None` stands for JavaScript's `undefined`.
- `Js.dfy` models the parts of JavaScript the routines rely on:
  - a `Value` type for what a request bag can hold (`undefined`, `null`,
    booleans, numbers, `NaN`, strings, objects);
  - truthiness, and `v === 0`;
  - property lookup, where an absent key reads as `undefined`;
  - the string built-ins `toLowerCase`, `indexOf` and `join` that the
    routines call, plus `lastIndexOf` and `split`. The model uses those two
    for its e-mail matcher and to read the error message back; the source
    calls neither.
- `Utils.dfy` holds the five routines and their properties.

How each routine is modelled:

- `required` keeps the source's shape. It is a method with a loop that
  pushes missing names, in place of `params.forEach`. The method is proved
  equal to the function `RequiredOutcome`, and the promised properties are
  lemmas about that function.
- `isTrue` and `isValidEmail` are functions. `isValidEmail` first finds the
  first `@` and the last `.`, then checks the pieces. It is proved to accept
  exactly the strings the regular expression matches. The regular expression
  is stated independently: some way of cutting the string into local part,
  `@`, domain, `.` and top-level domain.
- The URI validator and the random byte source are outside code. Both are
  parameters.

Values in Dafny cannot be changed in place. So `required`'s promise to leave
the bag and the list untouched holds by construction, and so does the same
promise for the other routines.

Behaviour worth noting:

- `NaN` counts as missing in `required` too, since it is falsy and
  `NaN !== 0`.
- The normalisation in `isWebUri` tests whether `url` contains `http://`
  anywhere, not whether it starts with it. So `https://x` becomes
  `http://https://x` (lemma `WebUriCandidateHttps`).
- `formatTime`'s pattern `HH:mm A` prints a 24-hour hour followed by AM/PM.
  The formatters are not modelled (see below).

## Model

| member | source | states |
|---|---|---|
| `Js.ToLowerCase` | lib/utils.js:39 | lower-casing keeps the length and lower-cases each ASCII letter in place, leaving every other character alone |
| `Js.IndexOf` | lib/utils.js:77 | `url.indexOf(t)` is -1 exactly when `t` does not occur in `url`; otherwise it is an occurrence with none before it |
| `Js.SplitJoin` | lib/utils.js:29-30 | splitting `names.join(sep)` at a one-character `sep` gives back `names`, when there is at least one name and none contains `sep` |
| `Utils.MissingNames` | lib/utils.js:21-24 | the collected `missing` list is never longer than `params` |
| `Utils.MissingPositions` | lib/utils.js:21-24 | the positions of the missing names are positions of `params`, in strictly increasing order |
| `Utils.RequiredOutcome` | lib/utils.js:26-34 | the value `required` returns (None for `undefined`, Some(message) for the Error); no contract of its own, its meaning is given by `RequiredAllMode`, `RequiredAnyMode` and `RequiredMessage` |
| `Utils.Required` | lib/utils.js:20-35 | one pass over `params` that pushes each name whose value is falsy and not `0`, followed by the mode decision, returns exactly `RequiredOutcome` |
| `Utils.MissingNamesMembers` | lib/utils.js:22-24 | a name is in `missing` if and only if it is in `params` and its value is falsy and not the number `0` |
| `Utils.MissingNamesInOrder` | lib/utils.js:21-24 | `missing` is the subsequence of `params` taken at the positions whose value is missing, in input order, and at no other positions |
| `Utils.MissingPositionsPick` | lib/utils.js:22-24 | entry `k` of `missing` is the name of `params` at the `k`-th missing position |
| `Utils.MissingPositionsExact` | lib/utils.js:22-23 | a position of `params` is recorded if and only if its value is falsy and not `0` |
| `Utils.AllMissing` | lib/utils.js:28 | `missing.length === params.length` if and only if every name of `params` is missing |
| `Utils.RequiredAllMode` | lib/utils.js:27-31 | in all-mode an error is returned if and only if some name of `params` is missing |
| `Utils.RequiredAnyMode` | lib/utils.js:27-31 | in any-mode an error is returned if and only if `params` is non-empty and every name is missing; an empty `params` never errs |
| `Utils.RequiredMessage` | lib/utils.js:29-30 | an error's message is `missing required params: ` followed by text that splits at the vertical bar (any-mode) or the comma (all-mode) back into exactly the missing names, in order, when no name contains the separator |
| `Utils.RequiredExamples` | lib/utils.js:98-102 | `{id:0}` with `['id','key']` gives no error in any-mode and `...: key` in all-mode; `{}` in any-mode gives both names joined by a vertical bar; `{id:1}` in any-mode gives no error; `{id:''}` counts as missing |
| `Utils.IsTrue` | lib/utils.js:37-51 | `isTrue`; no contract of its own, its meaning is given by `IsTrueTable` |
| `Utils.IsTrueTable` | lib/utils.js:37-51 | a defined value is false if and only if its string form equals, ignoring ASCII case, one of `undefined`, `false`, `null`, `off`, `no`, `0` or the empty string |
| `Utils.LowerCaseToken` | lib/utils.js:40-46 | every `case` label of the switch is already lower case, so it is reachable after `toLowerCase` |
| `Utils.LowerCaseFixed` | lib/utils.js:39 | lower-casing leaves a string without upper-case letters unchanged |
| `Utils.IsTrueIgnoresCase` | lib/utils.js:39 | two strings that differ only in ASCII case coerce to the same boolean |
| `Utils.IsTrueFalseExamples` | lib/utils.js:38-47 | `isTrue(undefined)`, `"FALSE"`, `"Off"`, `""` and `"0"` are false |
| `Utils.IsTrueTrueExamples` | lib/utils.js:48-49 | `"yes"`, `"1"` and `"TRUE"` are true |
| `Utils.IsValidEmail` | lib/utils.js:53-56 | `isValidEmail`; no contract of its own, its meaning is given by `IsValidEmailMatchesPattern` |
| `Utils.IsValidEmailMatchesPattern` | lib/utils.js:53-56 | the matcher accepts a string if and only if it can be cut into a non-empty `[A-Za-z0-9._+-]` part, `@`, a non-empty `[A-Za-z0-9.-]` part, `.`, and 2 to 4 ASCII letters ending the string |
| `Utils.IsValidEmailFromParts` | lib/utils.js:54 | every local part, domain and 2-4 letter top-level domain drawn from their classes forms an accepted address |
| `Utils.ValidEmailHasOneAt` | lib/utils.js:54 | an accepted address contains exactly one `@` |
| `Utils.IsValidEmailAcceptsShortAddress` | lib/utils.js:54-55 | `a@b.com` is accepted |
| `Utils.IsValidEmailRejectsShortDomain` | lib/utils.js:54-55 | `a@b.c` is rejected (top-level domain of one letter) |
| `Utils.IsValidEmailRejectsLongDomain` | lib/utils.js:54-55 | `a@b.museum` is rejected (top-level domain of six letters) |
| `Utils.IsValidEmailRejectsPlainWord` | lib/utils.js:54-55 | `not-an-email` is rejected |
| `Utils.IsWebUri` | lib/utils.js:74-82 | `isWebUri`; no contract of its own, its meaning is given by `IsWebUriValidatorInput` |
| `Utils.WebUriCandidate` | lib/utils.js:77-79 | the string `isWebUri` hands to the validator; no contract of its own, its meaning is given by `IsWebUriValidatorInput`, `WebUriCandidateHasScheme` and `WebUriCandidateIdempotent` |
| `Utils.IsWebUriValidatorInput` | lib/utils.js:74-82 | a falsy url is returned unchanged. Otherwise the result is the validator's answer. The validator gets `http://` + url when the mode is not strict and url does not contain `http://`, and url itself otherwise |
| `Utils.WebUriCandidateHasScheme` | lib/utils.js:77-79 | in non-strict mode the string handed to the validator always contains `http://` |
| `Utils.WebUriCandidateIdempotent` | lib/utils.js:77-79 | normalising an already normalised url changes nothing, in either mode |
| `Utils.WebUriCandidateBareHost` | lib/utils.js:77-79 | `example.com` becomes `http://example.com` in non-strict mode and stays `example.com` in strict mode |
| `Utils.WebUriCandidateHttps` | lib/utils.js:77-79 | `https://x` becomes `http://https://x` in non-strict mode, because the test is for a substring, not a prefix |
| `Utils.WebUriCandidateInnerScheme` | lib/utils.js:77-79 | a url containing `http://` past its start is passed on unchanged |
| `Utils.ByteCount` | lib/utils.js:88 | the byte count is `Math.ceil(len / 2)`: the least whole number at least `len / 2` |
| `Utils.Hex` | lib/utils.js:88 | the hex encoding has two characters per byte, each one of `0-9a-f` |
| `Utils.HexDigitAt` | lib/utils.js:88 | digit `i` of the encoding is the high nibble of byte `i / 2` when `i` is even and its low nibble when `i` is odd |
| `Utils.UnhexHex` | lib/utils.js:88 | decoding the hex encoding gives the bytes back |
| `Utils.RandomValueHex` | lib/utils.js:84-90 | given `ceil(len / 2)` bytes, the result has exactly `len` characters, each one of `0-9a-f` |
| `Utils.RandomValueHexDigits` | lib/utils.js:88-89 | each character of the result is the next nibble of the drawn bytes, high nibble first, so an odd `len` keeps only the high nibble of the last byte |
| `Utils.RandomValueHexTruncation` | lib/utils.js:88-89 | an even `len` keeps the whole encoding, from which the bytes can be read back; an odd `len` drops exactly its last digit |

## Left out

- `formatTime`, `formatDate`, `formatFull` and `fileStamp` (lib/utils.js:58-72) are not modelled. They are thin wrappers over the `moment` date library and depend on the local time zone.
- `validUrl.isWebUri` (lib/utils.js:81) is an external library. It is the function parameter `validate` of `Utils.IsWebUri`, and nothing is assumed about it.
- `crypto.randomBytes` (lib/utils.js:88) is the platform's entropy source. Its bytes are the parameter `bytes` of `Utils.RandomValueHex`, constrained only in their number. Uniformity, cryptographic strength and the distinctness of repeated calls are not modelled.
- `index.js` only re-exports this object beside modules that are not part of this model (`./lib/proc`, `predicate`, `extend`, `scan`).
- The `require.main` test harness (lib/utils.js:95-105) is console output. Its one call is stated as the first case of `Utils.RequiredExamples`.
- Utils.Required: `any` is taken as a boolean. The JavaScript truthiness of other flag values is not modelled, and an omitted flag is `false`. `reqdata` is a plain object without inherited properties, so a name such as `toString` reads as `undefined` here. `params` holds strings only.
- Utils.IsTrue: the value is given by its string form `str + ''` (None for `undefined`). The conversion of numbers and objects to strings is not modelled.
- Js.ToLowerCase: only ASCII letters are lower-cased. JavaScript's full Unicode lower-casing gives the same verdict in `isTrue`. The only non-ASCII characters that lower-case to ASCII are the Kelvin sign (to `k`) and the dotted capital I (to `i` plus a combining dot). Neither can complete a false token.
- Utils.IsValidEmail and Utils.IsWebUri take strings (for `isWebUri`, None stands for `undefined`). How JavaScript coerces other argument types is not modelled.
- Utils.IsWebUri: `strict` is taken as a boolean. The source tests `!strict`, so any truthy value means strict and an omitted flag means non-strict; the truthiness of other flag values is not modelled.
- Utils.RandomValueHex: `len` is a natural number. Negative and fractional lengths are not modelled. Very large lengths, where the source throws (`crypto.randomBytes` rejects a size above 2^31-1, and the hex string can exceed the engine's maximum string length), are not modelled either: the model returns `len` digits for every natural `len`.
- Js.Value: `Infinity` is not a separate value. Like every non-zero number it is truthy, and that is all the routines ask of it.
