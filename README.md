# Gravity Forms disallowed-keywords blocker, modelled in Dafny

The WordPress plugin `gravity-spam-check.php` hooks one callback,
`gfkdb_validate_gravity_form_for_disallowed_keywords`, into Gravity Forms'
`gform_validation` filter. The callback reads WordPress's "Disallowed Comment
Keys" option, a newline-separated string. It turns that string into a keyword
list with `array_filter(array_map('trim', explode("\n", ...)))`. Then it scans
the form's fields in order. It skips any field whose type is not one of nine
text-like types, and any field whose posted value is PHP-`empty`. For every
other field it tests each keyword with `stripos`. On the first hit it marks
that field failed with a fixed message, sets `is_valid` to false, and leaves
both loops (`break 2`). In every other case the incoming validation result is
returned unchanged.

The project has four modules:

- `Wrappers` (`wrappers.dfy`): an `Option` type.
- `PhpStrings` (`php_strings.dfy`): the PHP built-ins the callback uses, as pure
  functions: `empty` on strings (`IsEmpty`), `trim` with its default
  character list (`Trim`), `explode("\n", ...)` (`Explode`) and its inverse
  `implode` (`Implode`), and `stripos` with ASCII case folding (`Stripos`).
- `Keywords` (`keywords.dfy`): the normalisation pipeline (`Normalize`) and
  what it guarantees about the keyword list.
- `Validation` (`validation.dfy`):
  - The field record (`Field`) and the checked-type set (`CheckedTypes`).
  - A declarative statement of the callback's outcome (`Validated`).
  - The callback itself (`ValidateForDisallowedKeywords`). This is an
    imperative method with two nested loops over an `array<Field>` that it
    updates in place, and a `break break` for PHP's `break 2`. Its
    postcondition says that it produces exactly the outcome `Validated`
    describes.
  - Lemmas stating the callback's properties about `Validated`.

The two calls into WordPress and Gravity Forms are parameters of the method:

- `get_option('disallowed_keys')` is the string `raw`.
- `rgpost('input_' . $field->id)` is a lookup in `post: map<nat, string>`
  keyed by field id. An id with no entry reads as `""`, which is what
  `rgpost` returns for a missing input.

Behaviour of the code that the model follows exactly:

- With no keywords configured, the callback returns the incoming result
  unchanged, so an incoming `false` stays `false` (`EmptyOptionUnchanged`,
  `NoKeywordsUnchanged`, `IsValidExactly`).
- `array_filter` also drops the keyword `"0"`. An option value of `"0"` is
  treated as empty by the first `empty()` test.
- Case-insensitivity is ASCII-only, which is what `stripos` does in PHP 8.2
  and later. It is not Unicode case folding.
- `trim` strips exactly space, `\t`, `\n`, `\r`, `\0` and `\x0B`.

PHP strings are byte strings. In the model a `char` of a Dafny `string`
stands for one byte of the PHP string. All six trim characters and the
letters `A`-`Z` that `stripos` folds are ASCII, so `Trim`, `AsciiLower` and
`MatchesAt` behave exactly as the PHP functions do on the bytes.

## Model

| member | source | states |
|---|---|---|
| `PhpStrings.IsEmpty` | gravity-spam-check.php:35 | PHP `empty()` on a string: true exactly for `""` and `"0"` (also used at :77) |
| `PhpStrings.Trim` | gravity-spam-check.php:42 | `trim` with its default character list: left-trim, then right-trim; its meaning is pinned down by `TrimSpec` and `TrimUnique` |
| `PhpStrings.TrimLeftSpec` | gravity-spam-check.php:42 | a string is a run of trim characters followed by its left-trimmed form, and the left-trimmed form does not start with a trim character |
| `PhpStrings.TrimRightSpec` | gravity-spam-check.php:42 | a string is its right-trimmed form followed by a run of trim characters, and the right-trimmed form does not end with one |
| `PhpStrings.TrimSpec` | gravity-spam-check.php:42 | `trim(s)` is the middle of `s` between two runs of `" \t\n\r\0\x0B"`, and it neither starts nor ends with such a character |
| `PhpStrings.TrimUnique` | gravity-spam-check.php:42 | conversely, every such decomposition of a string determines `trim`: it returns that trimmed middle part |
| `PhpStrings.TrimIdempotent` | gravity-spam-check.php:42 | trimming a trimmed key changes nothing |
| `PhpStrings.TrimAllTrimChars` | gravity-spam-check.php:42 | a piece made only of whitespace trims to `""` |
| `PhpStrings.Explode` | gravity-spam-check.php:42 | `explode("\n", s)` always yields at least one piece (`""` yields `[""]`) |
| `PhpStrings.ExplodeNoNewlines` | gravity-spam-check.php:42 | no piece of `explode("\n", s)` contains a newline |
| `PhpStrings.ImplodeExplode` | gravity-spam-check.php:42 | joining the pieces back with `"\n"` gives the original option string |
| `PhpStrings.ExplodeImplode` | gravity-spam-check.php:42 | splitting newline-free pieces joined by `"\n"` gives the same pieces back |
| `PhpStrings.ExplodeConcat` | gravity-spam-check.php:42 | the pieces of `a + "\n" + b` are the pieces of `a` followed by those of `b` |
| `PhpStrings.StriposFrom` | gravity-spam-check.php:87 | the search returns the first case-insensitive match position at or after the start, or none when no later position matches |
| `PhpStrings.Stripos` | gravity-spam-check.php:87 | `stripos(h, n) !== false` exactly when `n` occurs in `h` as a substring under ASCII case folding, and the position returned is the first such occurrence |
| `Keywords.TrimAll` | gravity-spam-check.php:42 | `array_map('trim', ...)` keeps the length and trims every piece in place |
| `Keywords.DropEmpty` | gravity-spam-check.php:42 | `array_filter` without a callback keeps no `""` and no `"0"` |
| `Keywords.Normalize` | gravity-spam-check.php:42 | the whole `array_filter(array_map('trim', explode("\n", ...)))` pipeline: at most one keyword per newline-separated piece, and no keyword is `""` or `"0"` |
| `Keywords.NormalizeMembers` | gravity-spam-check.php:42 | a string is a keyword exactly when it is the trimmed form of some newline-separated piece and is neither `""` nor `"0"` |
| `Keywords.NormalizeWellFormed` | gravity-spam-check.php:42 | every keyword is non-empty (so `stripos` never gets an empty needle), is not `"0"`, holds no newline and has no surrounding whitespace |
| `Keywords.NormalizeConcat` | gravity-spam-check.php:42 | source order is kept: the keywords of `a + "\n" + b` are those of `a` followed by those of `b` |
| `Keywords.NormalizeLines` | gravity-spam-check.php:42 | for newline-free lines joined by `"\n"`, the keywords are the trimmed lines, in order, with the empty ones dropped |
| `Keywords.NormalizeBlank` | gravity-spam-check.php:42 | an option value made only of whitespace and newlines yields no keyword |
| `Keywords.NormalizeExample` | gravity-spam-check.php:42 | `"  foo \n\nbar\n  \n"` normalises to `["foo", "bar"]` |
| `Validation.IsChecked` | gravity-spam-check.php:57-71 | `in_array($field->type, ...)` over the nine checked types `text`, `textarea`, `email`, `website`, `post_title`, `post_content`, `post_excerpt`, `phone`, `name` |
| `Validation.SubmittedValue` | gravity-spam-check.php:74 | `rgpost('input_' . $field->id)`: the value posted for the field id, or `""` when nothing was posted |
| `Validation.MarkFailed` | gravity-spam-check.php:90-92 | the marked field keeps its id and type, has `failed_validation` true and carries the fixed message |
| `Validation.Validated` | gravity-spam-check.php:25-116 | the callback's outcome: never adds or removes a field, and never turns `is_valid` from false to true; the lemmas below state the rest in its terms |
| `Validation.FirstOffendingFrom` | gravity-spam-check.php:54-104 | the field the scan stops at is checked, has a non-empty value containing a keyword, and no field before it in the scanned range does; none is found only when no field in the range offends |
| `Validation.ValidateForDisallowedKeywords` | gravity-spam-check.php:25-116 | the nested field/keyword loops with the global early exit leave `is_valid` and the field array exactly as `Validated` describes |
| `Validation.EmptyOptionUnchanged` | gravity-spam-check.php:35-37 | an empty option value (`""` or `"0"`) returns the result untouched: no field changes and `is_valid` keeps its value |
| `Validation.NoKeywordsUnchanged` | gravity-spam-check.php:45-47 | when normalisation leaves no keyword, the result is returned untouched |
| `Validation.BlankOptionUnchanged` | gravity-spam-check.php:42-47 | a whitespace/newline-only option value returns the result untouched |
| `Validation.ShapeKept` | gravity-spam-check.php:54-104 | no field is added or removed, and every field keeps its id and type |
| `Validation.NoOffenderUnchanged` | gravity-spam-check.php:54-115 | when no checked, non-empty field contains a keyword, the result is returned untouched |
| `Validation.FirstOffenderMarked` | gravity-spam-check.php:87-100 | when field `i` is the first offending field, exactly that field becomes `failed_validation = true` with the fixed message, all other fields are kept, and `is_valid` becomes false |
| `Validation.ChangedFieldOffends` | gravity-spam-check.php:71-92 | a field is changed only if its type is checked, its value is not empty and some keyword occurs in it as a case-insensitive substring; it is then marked failed with the fixed message, and no earlier field offends |
| `Validation.UncheckedTypeUntouched` | gravity-spam-check.php:57-71 | a field whose type is not among the nine checked types is never changed, whatever its value contains |
| `Validation.EmptyValueUntouched` | gravity-spam-check.php:74-79 | a field whose posted value is `""` or `"0"` (including a missing one) is never changed |
| `Validation.AtMostOneChanged` | gravity-spam-check.php:98-100 | at most one field is changed by the callback |
| `Validation.IsValidExactly` | gravity-spam-check.php:95-115 | `is_valid` ends false exactly when it came in false or a field offends a keyword of a non-empty option; it is never set to true |
| `Validation.ValidatedIdempotent` | gravity-spam-check.php:25-116 | running the callback on its own result changes nothing further |
| `Validation.SubstringNotWord` | gravity-spam-check.php:83-87 | matching is substring containment ignoring case, not a whole-word match: `"spam"` is found in `"Spammer"` and in `"I am a spammer"`, and an `email` field posting `"Spammer@example.com"` offends the keyword `"spam"` |
| `Validation.ExampleKeywords` | gravity-spam-check.php:42 | the option value `"viagra\ncasino"` gives the keywords `["viagra", "casino"]` |
| `Validation.FirstMatchOnlyExample` | gravity-spam-check.php:98-100 | with keywords `viagra`, `casino`, an email field containing `viagra` and a text field containing `casino`, only the email field is marked and `is_valid` becomes false |
| `Validation.FirstMatchOnlyRun` | gravity-spam-check.php:54-104 | the same form run through the callback method on a two-element field array: `is_valid` comes back false, the email field is marked and the text field is unchanged |

## Left out

- The `ABSPATH` guard with `exit` and the `add_filter` registration (gravity-spam-check.php:13-15, :23) are WordPress plumbing with no behaviour of the callback itself.
- `get_option` and `rgpost` are calls into WordPress and Gravity Forms. The model takes their results as inputs: `raw`, and the `post` map keyed by field id. It assumes `get_option` returns a string; a `false` return is treated by PHP's `empty()` like `""`.
- Non-string posted values, such as the arrays that multi-input `name` fields post, and PHP type juggling in `empty`, `in_array` and `stripos` beyond the `""`/`"0"` cases, are host-dependent and not modelled. Field types and values are plain strings.
- Locale-aware and multibyte case folding is not modelled. Case-insensitivity is ASCII-only.
- `ValidateForDisallowedKeywords`: the form's field objects are modelled as `Field` values in an array that the method updates in place. Aliasing is therefore not modelled: one field object appearing at two positions of the form, or being shared with other code.
- The method returns the new `is_valid` and mutates the field array. It does not model the copying of the `$validation_result` PHP array or its other entries, which the callback only passes through.
- The commented-out form-level confirmation message (gravity-spam-check.php:110-111) is dead code.
