# restit response validator, modelled in Dafny

`ResponseValidator` (restit/validator/__init__.py) checks a decoded JSON
response against a *structure* string. The string is written in a small
grammar of keys, optional keys (`?key`), the dict wildcard `*`, array
accessors (`[0]`, `[*]`, `[+]`), depth steps (`>`, with `>>` fanning out over
every key), conjunctions (`&`) and parenthesised groups. The validator returns
on success. On the first mismatch it raises `BadResponseFormatException`. When
the structure string itself is wrong it raises `MalformedStructureException`.

The model keeps the code's own shape. It is a string-driven recursive descent
that re-parses substrings at every step.

- `wrappers.dfy`: `Option` and `Result`.
- `json.dfy` (module `JsonValues`): a JSON value is a dict (an ordered list of
  key/value pairs, looked up by first match), a list, a scalar or `null`.
  Scalars are never inspected by the validator, only compared with `{}` or
  type-checked.
- `outcomes.dfy` (module `Outcomes`): the outcome of a validation. It is
  `Ok`, `BadFormat` (one constructor per `BadResponseFormatException` message,
  carrying the offending value, key or index), `Malformed` (one constructor per
  `MalformedStructureException` message), or `Crash`. `Crash` stands for the
  two Python runtime errors the code can raise: the `IndexError` of a level
  that is only whitespace or only `(`, and the `AttributeError` of a fan-out
  over a value that is not a dict.
- `text.dfy` (module `Text`): the string operations the code relies on. These
  are `strip` (ASCII whitespace as `str.isspace` sees it), `find`, `split`,
  `isdigit`, `int()` and the slice `a[0:-1]`. The module also proves the
  `split`/`join` round trip and how `split` distributes over concatenation.
- `levels.dfy` (module `LevelSplit`): `_parse_level_paths`. `ParseLevel` is its
  specification as a function. `ParseLevelPaths`/`SplitPaths` are the loop of
  the source, with the `depth` and `nested` counters, proved equal to it.
- `validator.dfy` (module `Validator`): `validate`, `_validate_level`,
  `_validate_key` and `_validate_array`. They are mutually recursive functions.
  Each `for` loop that stops at the first exception is a recursive function
  that returns the first failure: `Paths`, `FanOut` and `Elements`.
- `properties.dfy` (module `ValidatorProperties`): what the validator
  promises, proved over the model.

Where the grammar in the class docstring differs from the code, the model
follows the code:

- Only a whole level is unwrapped, so a group works only as an entire
  level: the whole structure, or all the text after a `>`. `(a & b) > c` is
  malformed, and in `c & (a > b)` the key is `(a`, because a path is cut at
  its first `>` even inside parentheses.
- Only a level's outer `(`…`)` is unwrapped, and only the last character is
  checked to be `)`. `(a) & (b)` is therefore one path, `a) & (b`.
- A path whose key is empty (it starts with `>`, or is empty as in `a & `,
  `a && b` or `()`) calls `keys()` on the current value. A list, a
  scalar or `null` there makes Python raise, which the model reports as
  `Crash(NoKeys(v))` and not as a bad format.
- The keys of the dict are then re-read as grammar. They are split at `[`,
  stripped, and a leading `?` makes them optional.
- The whitespace of an accessor piece is stripped before its last character
  is cut off, so whitespace inside the brackets stays in the token. `ret [0]`
  gives the token `0`, but `ret[ 0 ]` gives `0 `, which is not digits, so
  once the value under `ret` is a list the structure is malformed.
- The message for a bad array token names no token. `BadArrayToken` carries
  none either.

## Model

| member | source | states |
|---|---|---|
| Validator.Validate | restit/validator/__init__.py:99-106 | An absent structure succeeds for every response. A present structure with a `None` response fails with "Empty response" before any parsing. The empty structure succeeds iff the response is the empty dict. |
| Validator.Level | restit/validator/__init__.py:109-115 | The empty level succeeds iff the value is `{}`, and otherwise reports the value as "not an empty dict". |
| Validator.Paths | restit/validator/__init__.py:117-135 | The loop over the paths of a level: each path is checked against the same value, left to right, and the first outcome that is not success is the level's outcome. Its meaning is proved in PathsConjunction and LevelConjunction. |
| Validator.PathKey | restit/validator/__init__.py:119-125 | The key of a path is the stripped text before its first `>`, or the whole path stripped when there is none. PathCut and PathWhole state this over concrete paths. |
| Validator.PathNext | restit/validator/__init__.py:119-124 | The remainder of a path is the stripped text after its first `>`, or absent (the empty string) when there is none. It is always shorter than the path or absent, which bounds the descent. |
| Validator.Path | restit/validator/__init__.py:118-135 | One path: the key `*` only asks for a dict, the empty key fans out over the keys of a dict (and raises on anything else), any other key is a key step. StarStep, DepthWildcardNeedsDict, DepthWildcard and SingleKeyLevel state its cases. |
| Validator.FanOut | restit/validator/__init__.py:131-133 | Each key of the dict in turn is read as a key of the grammar and checked against the whole dict with the same remainder; the first failure decides. FanOutAll states its meaning. |
| Validator.KeyParts | restit/validator/__init__.py:172 | A key is split at every `[` and each piece is stripped; there is always at least one piece, the name. KeyPartsOfName states the split of a name followed by accessors. |
| Validator.Tokens | restit/validator/__init__.py:189-191 | The array tokens are the accessor pieces, each without its last character (the `]`). AccessorsRoundTrip states that written accessors read back as their tokens. |
| Validator.Key | restit/validator/__init__.py:171-194 | A key step: a named key needs a dict, a missing key fails unless it is optional (then the path succeeds), a present key's value (or, for an empty name, the current value) goes to the array tokens or else to the remainder. KeyNeedsDict, KeyMissing, OptionalMissing, KeyPresent and OptionalPresent state the cases of a named key, EmptyNameKey the case of an empty name. |
| Validator.Array | restit/validator/__init__.py:138-168 | The array tokens one at a time: a list is required, then an index, `*` or `+`, or else the structure is malformed; with no tokens left the remainder applies. ArrayNeedsList, ArrayIndex, ArrayEvery, ArrayNonEmpty and ArrayThenRemainder state its cases. |
| Validator.Elements | restit/validator/__init__.py:151-161 | The loop of `[*]` and `[+]`: the remaining tokens are checked against each element in turn, and the first failure decides. ElementsAll states its meaning. |
| LevelSplit.ParseLevel | restit/validator/__init__.py:197-220 | Parsing fails iff the stripped level is empty, or starts with `(` and is `(` alone or does not end with `)`. An empty level or a lone `(` is the `IndexError`. Otherwise the defect names the text after the `(`. On success there is at least one path, and each path is stripped. |
| LevelSplit.Nesting | restit/validator/__init__.py:215-218 | The nesting counter after reading some text: up one at each `(`, down one at each `)`, never clamped at 0. |
| LevelSplit.Segments | restit/validator/__init__.py:208-219 | The raw pieces of a level between the `&` characters read at nesting 0; there is at least one, and none is longer than the level. SegmentsSplitAtTopLevel states that these are exactly the cuts. |
| LevelSplit.ParseLevelPaths | restit/validator/__init__.py:197-220 | The imperative procedure (strip, unwrap, then the index loop) returns exactly what `ParseLevel` specifies, errors included. |
| LevelSplit.SplitPaths | restit/validator/__init__.py:208-219 | The loop with the `depth` and `nested` counters appends exactly the stripped top-level segments of the level. |
| LevelSplit.SegmentsSplitAtTopLevel | restit/validator/__init__.py:211-219 | Joining the segments with `&` gives back the level. A position is a cut iff it holds an `&` read while the nesting counter is 0. |
| ValidatorProperties.ParseLevelCuts | restit/validator/__init__.py:197-220 | The paths of a parsed level are the stripped pieces of its unwrapped text. That text is cut exactly at its top-level `&` characters and at nothing else. |
| ValidatorProperties.SinglePath | restit/validator/__init__.py:197-220 | A stripped level with no `&` and no leading `(` is the single path it spells. |
| ValidatorProperties.GroupLevel | restit/validator/__init__.py:199-202 | A level written `(b)` is split inside `b`. |
| ValidatorProperties.OuterParensOnly | restit/validator/__init__.py:199-218 | `(a) & (b)` parses as the single path `a) & (b`. Only the outer characters are removed, and the `&` is read at nesting -1. |
| ValidatorProperties.UnclosedGroup | tests/test_validator.py:252-257 | `(ret > *` is malformed, and the defect names `ret > *`. |
| ValidatorProperties.FirstFailureIsFirst | restit/validator/__init__.py:118-135 | A loop that stops at the first failing step succeeds iff every step succeeds. When it fails, the earliest failing step's outcome is reported. |
| ValidatorProperties.PathsConjunction | restit/validator/__init__.py:117-135 | The loop over a level's paths succeeds iff every path succeeds. Paths are tried left to right, and the first failing path's outcome is reported. |
| ValidatorProperties.LevelConjunction | restit/validator/__init__.py:117-135 | A non-empty level that parses succeeds iff every one of its paths succeeds. Otherwise the earliest failing path decides the outcome. |
| ValidatorProperties.FanOutAll | restit/validator/__init__.py:131-133 | The fan-out succeeds iff every dict key, re-read as a key of the grammar, succeeds. Otherwise the earliest failing key decides. |
| ValidatorProperties.ElementsAll | restit/validator/__init__.py:151-161 | The loop over a list succeeds iff the rest of the chain holds of every element. Otherwise the earliest failing element decides. |
| ValidatorProperties.ElementsThenRemainder | restit/validator/__init__.py:151-161 | The loop over the elements holds iff every check of the chain passes from each element and the remainder holds of every value reached from them. |
| ValidatorProperties.PathCut | restit/validator/__init__.py:119-125 | A path is cut at its first `>`. The stripped text before it is the key, and the stripped text after it is the remainder. |
| ValidatorProperties.PathWhole | restit/validator/__init__.py:119-125 | A path without `>` is all key and has no remainder. |
| ValidatorProperties.StarStep | restit/validator/__init__.py:127-130 | `*` (with or without `>` after it) succeeds iff the value is a dict, and otherwise reports it as not a dict. The remainder after `* >` is never evaluated. |
| ValidatorProperties.DepthWildcardNeedsDict | restit/validator/__init__.py:131-133 | A path starting with `>` raises on a value that is not a dict. |
| ValidatorProperties.DepthWildcard | restit/validator/__init__.py:131-133 | For a dict with distinct plain keys, a path starting with `>` succeeds iff the remainder level holds of every value. The empty dict succeeds vacuously. |
| ValidatorProperties.SingleKeyLevel | restit/validator/__init__.py:171-185 | A level that is a single plain key, applied to a dict without that key, fails naming the key and the dict. |
| ValidatorProperties.DepthWildcardOneLevel | restit/validator/__init__.py:131-133 | Each `>` descends exactly one level. If one value of the dict is a dict lacking the key, the fan-out fails, even when the key occurs deeper inside that value. |
| ValidatorProperties.KeyPartsOfName | restit/validator/__init__.py:172-173 | A key splits at `[` into its name, then the pieces of its accessor text. |
| ValidatorProperties.KeyNeedsDict | restit/validator/__init__.py:174-177 | A named key, optional or not, fails on any value that is not a dict. |
| ValidatorProperties.KeyMissing | restit/validator/__init__.py:181-185 | A missing key fails, naming the key without decoration and the dict. |
| ValidatorProperties.OptionalMissing | restit/validator/__init__.py:178-183 | A missing `?key` succeeds at once, skipping its accessors and the remainder of the path. |
| ValidatorProperties.KeyPresent | restit/validator/__init__.py:186-194 | A present key hands its value to its array tokens, and after them to the remainder of the path. |
| ValidatorProperties.BareKeyPresent | restit/validator/__init__.py:186-194 | A present key without accessors hands its value to the remainder. With no remainder it succeeds. |
| ValidatorProperties.IndexedKeyPresent | restit/validator/__init__.py:189-191 | A present key with accessors hands its value to the tokens `a[0:-1]` of the accessor pieces. |
| ValidatorProperties.OptionalPresent | restit/validator/__init__.py:178-194 | A present `?key` behaves exactly as the key without `?`. |
| ValidatorProperties.ExtraKeysIgnored | restit/validator/__init__.py:178-194 | Fields the structure does not name, before or after the dict's fields, never matter: a present key has the same outcome, a missing key still fails naming the whole dict, and an optional key has the same outcome either way. |
| ValidatorProperties.PlainKeyStep | restit/validator/__init__.py:132-133 | A plain key of a dict with distinct keys, reached by the fan-out, hands its own value to the remainder. |
| ValidatorProperties.AccessorCount | restit/validator/__init__.py:172-189 | Accessor text yields at least one accessor piece exactly when it is not empty. |
| ValidatorProperties.AccessorsRoundTrip | restit/validator/__init__.py:172-191 | Writing plain tokens as `[t1][t2]…` and reading them back as the key code does gives the tokens. |
| ValidatorProperties.KeyWithBrackets | restit/validator/__init__.py:186-191 | A present key followed by written accessors applies exactly those tokens to its value. |
| ValidatorProperties.EmptyNameKey | restit/validator/__init__.py:172-191 | A key that is only written accessors (`[*]`, `[+][1]`) has an empty name: the current value, whatever it is, is kept without any dict check and gets exactly those tokens. |
| ValidatorProperties.ArrayNeedsList | restit/validator/__init__.py:139-165 | Any accessor demands a list, whatever its token. The list check comes first, and an unknown token is Malformed only once the value is a list. |
| ValidatorProperties.ArrayIndex | restit/validator/__init__.py:143-150 | `[i]` fails when the list is no longer than `i`, naming the list and `i`. Otherwise it continues with element `i`. |
| ValidatorProperties.ArrayEvery | restit/validator/__init__.py:151-154 | `[*]` succeeds iff the rest of the chain holds of every element, and vacuously on `[]`. |
| ValidatorProperties.ArrayNonEmpty | restit/validator/__init__.py:155-161 | `[+]` succeeds iff the list is non-empty and the rest of the chain holds of every element. `[]` fails with "array should not be empty". |
| ValidatorProperties.ArrayThenRemainder | restit/validator/__init__.py:138-168 | A chain of accessors succeeds iff every check on the way passes (a list, an index in range, a non-empty list for `+`, a known token) and the remainder holds of every value the chain reaches, as `Reached` collects them independently of the outcome. With no remainder, passing the checks is enough. |
| JsonValues.Lookup | restit/validator/__init__.py:181-186 | `key in resp` and `resp[key]`: the result is absent iff no field has the key, and otherwise it is the value of the first field with it. |
| JsonValues.LookupAppend | restit/validator/__init__.py:181-186 | Fields appended after a present key do not change its lookup. |
| JsonValues.LookupAmong | restit/validator/__init__.py:181-186 | Fields without the key, before or after the dict's fields, change neither whether the key is found nor its value. |
| Text.Strip | restit/validator/__init__.py:121-125 | `strip` gives text with no whitespace at either end, and leaves already stripped text unchanged. |
| Text.StripTrims | restit/validator/__init__.py:121-125 | What `strip` removes is whitespace on both sides, and the result is a contiguous part of the input. |
| Text.StripPadded | restit/validator/__init__.py:121-125 | Whitespace around stripped text is exactly what `strip` removes. |
| Text.Find | restit/validator/__init__.py:119 | `find` gives the first position of the character, or none iff it does not occur. |
| Text.SplitOn | restit/validator/__init__.py:172 | `split` always gives at least one piece. SplitOnPieces, SplitOnJoin and SplitOnConcat state what the pieces are. |
| Text.IsDigits | restit/validator/__init__.py:143 | `isdigit`: the token is non-empty and made only of the digits `0`-`9`. |
| Text.ParseNat | restit/validator/__init__.py:144 | `int` of a digit string: its decimal value, read from the most significant digit. |
| Text.DropLast | restit/validator/__init__.py:191 | The slice `a[0:-1]`: the text without its last character, and the empty text for the empty text. |
| Text.SplitOnPieces | restit/validator/__init__.py:172 | No piece of `split` holds the separator, and text without it is one piece. |
| Text.SplitOnJoin | restit/validator/__init__.py:172 | Joining the pieces of `split` with the separator gives back the text. |
| Text.SplitOnConcat | restit/validator/__init__.py:172 | Splitting a concatenation fuses the last piece of the first part with the first piece of the second. |

## Left out

- The text of the error messages. The model keeps the kind of each error and
  the value, key or index it embeds, not Python's rendering of them.
- Python's `str.isspace` and `str.isdigit` outside ASCII. The model strips the
  ASCII whitespace characters and reads only `0`-`9` as digits.
- Dict iteration order. A dict is an ordered list of fields. FanOutAll's
  "earliest failing key" means the earliest in that list, which the Python 2
  dicts the code still supports do not guarantee. DepthWildcard and
  DepthWildcardOneLevel say only whether the fan-out fails.
- Keys of a dict that fans out are required to be plain (no `[`, no leading `?`, no
  surrounding whitespace) in DepthWildcard, PlainKeyStep and
  DepthWildcardOneLevel. The validator functions themselves re-parse any key
  as the code does.
- Numbers, strings and booleans are one `JScalar`, since the validator never
  looks inside them.
- restit/exceptions/__init__.py is not part of this model. Its exception
  classes are the `BadFormat` and `Malformed` outcomes.
- `RestClient`, request building, login and retry, and connection-error
  classification in restit/__init__.py are not part of this model. They are
  HTTP plumbing around the call that produces the response.
