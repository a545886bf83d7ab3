# American date parsing: a Dafny model

This project models the deterministic core of `AmericanDateParsing`, a Ruby
library for record classes. A date attribute set up with
`parse_as_americanized_date` gets a generated setter. The setter keeps the
assigned value verbatim as the raw value. It stores a parsed date beside it:
a `Date` or `Time` is converted directly, and any other value is turned into
text and handed to the Chronic library. A validator,
`AmericanDateValidator`, later decides from the parsed value, the raw value
and its options whether the attribute gets a `blank` error (presence check)
or an `invalid` error (format check). The format check searches the raw text
for a date shape: `\d{1,2}D\d{1,2}D\d{2,4}` with an optional
` H:MM[ ]AM|PM` tail, where `D` is one of `/`, `|` and `-`.

The library has no month/day/year splitter or two-digit-year logic of its
own. All text parsing goes to `Chronic.parse`. So the model covers only the
layer around that call:

- `values.dfy` (module `Values`): optional values, calendar dates, the
  structured `Date`/`Time` inputs and `to_datetime`, the raw-input union
  (nil, text, structured), and ActiveSupport's `blank?` on these values.
- `date_format.dfy` (module `DateFormat`): the date pattern as a language
  (`InPattern`) and an unanchored search (`ContainsMatch`). `Matches` is the
  same search read by start position. `MatchIndex` is the loop that scans
  start positions and returns the leftmost match, as Ruby's `=~` does.
- `classifier.dfy` (module `Classifier`): `AmericanDateValidator::Validation`
  as a datatype whose member functions are `blank?`, `format_mismatch?`,
  `presence_error`, `format_error` and `errors`.
- `date_parsing.dfy` (module `AmericanDateParsing`): the record as a class
  with the fields `raw` (`_raw_<attr>`), `parsed` (`@<attr>`) and `errors`.
  The generated setter is `Record.Assign`. `ValidateEach` is the
  error-forwarding loop of `validate_each`. The file also holds the test
  file's scenarios, stated for every possible text parser.

The format check tests the shape of the raw text, not whether it names a
real date. So text such as `02/30/2021`, which has the shape but in which
the parser finds no date, passes validation with no error and leaves the
attribute nil, even with both checks on (`ShapedUnparsedTextPasses`).

Chronic is a parameter `chronic: string -> Option<Temporal>`. No proof
assumes anything about it, except where a lemma states an assumption as a
`requires` (for example `chronic("") == None`).

## Model

| member | source | states |
|---|---|---|
| `Values.IsSpace` | lib/american_date_parsing.rb:91 | definition: a character is `[[:space:]]` when it has the Unicode White_Space property (U+0009–U+000D, U+0020, U+0085, U+00A0, U+1680, U+2000–U+200A, U+2028, U+2029, U+202F, U+205F, U+3000) |
| `Values.IsBlankText` | lib/american_date_parsing.rb:91 | definition: `String#blank?`, every character is whitespace (so `""` is blank) |
| `Values.IsBlank` | lib/american_date_parsing.rb:91 | definition: `raw.blank?` — nil is blank, text is blank by `IsBlankText`, a `Date`/`Time` is never blank |
| `Values.IsBlankValue` | lib/american_date_parsing.rb:91 | definition: `value.blank?` on the parsed value — only nil is blank, a `DateTime` never is |
| `DateFormat.InPattern` | lib/american_date_parsing.rb:7-11 | definition: `t` is a whole word of `\d{1,2}D\d{1,2}D\d{2,4}( \d{1,2}:\d{2}( )?(PM\|AM))?` with `D` the class `[/\|-]`, built from `DateShape` and `TimeShape` |
| `DateFormat.ContainsMatch` | lib/american_date_parsing.rb:97 | definition: the unanchored search succeeds when some substring is a word of `InPattern` |
| `DateFormat.DateStartsAt` | lib/american_date_parsing.rb:11 | definition: a date part with month and day one or two digits wide and a two-digit year begins at `i` |
| `DateFormat.Matches` | lib/american_date_parsing.rb:97 | definition: some position starts a match; equal to `ContainsMatch` by `MatchesIff` |
| `Classifier.Setting.Truthy` | lib/american_date_parsing.rb:100-106 | definition: Ruby truthiness of an option value — nil and `false` are falsy, `true` and every hash (the empty one too) are truthy |
| `Classifier.Validation.ValidatePresence` | lib/american_date_parsing.rb:104-106 | definition: `validate_presence?` is the truthiness of `options[:presence]` |
| `Classifier.Validation.ValidateFormat` | lib/american_date_parsing.rb:100-102 | definition: `validate_format?` is the truthiness of `options[:format]` |
| `Classifier.Validation.BothBlank` | lib/american_date_parsing.rb:90-92 | definition: `blank?` holds when the parsed value and the raw input are both blank |
| `Classifier.Validation.FormatMismatch` | lib/american_date_parsing.rb:94-98 | definition: `format_mismatch?` holds when raw is present, the parsed value is blank, and raw does not match (`DoesNotMatch`) |
| `Classifier.DoesNotMatch` | lib/american_date_parsing.rb:97 | definition: `raw !~ date_format` — text is searched with `Matches`; a `Date`/`Time` answers true (nil from `Object#=~`); nil never reaches it past the `raw.present?` guard |
| `Classifier.Validation.PresenceError` | lib/american_date_parsing.rb:82-84 | definition: `[:blank, options[:presence]]` when `ValidatePresence` and `BothBlank`, else nil |
| `Classifier.Validation.FormatError` | lib/american_date_parsing.rb:86-88 | definition: `[:invalid, options[:format]]` when `ValidateFormat` and `FormatMismatch`, else nil |
| `Values.ToDateTime` | lib/american_date_parsing.rb:33-34 | `to_datetime` keeps the calendar date of a `Date` or `Time`; a `Date` becomes midnight at offset zero |
| `Values.BlankTextIffNoVisibleChar` | lib/american_date_parsing.rb:90-91 | a string is blank exactly when none of its characters lies outside `[[:space:]]` |
| `Values.BlankExamples` | lib/american_date_parsing.rb:90-98 | nil, `""` and whitespace-only text are blank; `"cats"`, text around a date, and every `Date`/`Time` are present |
| `DateFormat.MatchIndex` | lib/american_date_parsing.rb:97 | the scanning loop finds a position exactly when some substring is a word of the pattern; the returned position starts such a substring, and no earlier position starts one |
| `DateFormat.MatchesIff` | lib/american_date_parsing.rb:97 | the search by start position (used by validation) agrees with "some substring is a word of the pattern" |
| `DateFormat.StartsIff` | lib/american_date_parsing.rb:11 | a match starts at position `i` exactly when some substring beginning at `i` is a word of the full pattern, time tail included |
| `DateFormat.DatePartPrefix` | lib/american_date_parsing.rb:11 | every word of the pattern begins with a date part `t[..k]`, and either that prefix is the whole word or the rest `t[k..]` is the time group |
| `DateFormat.DatePartSuffices` | lib/american_date_parsing.rb:11 | the time group is optional, so a string matches exactly when some substring is the date part alone |
| `DateFormat.SurroundingText` | lib/american_date_parsing.rb:97 | the search is unanchored: text added before and after a matching string never prevents the match |
| `DateFormat.ShortTextNeverMatches` | lib/american_date_parsing.rb:11 | nothing shorter than six characters (`d/d/dd`) matches |
| `DateFormat.NoDelimiterNeverMatches` | lib/american_date_parsing.rb:6-11 | a string with no `/`, `\|` or `-` never matches, whatever digits it holds |
| `DateFormat.AnyDelimiters` | lib/american_date_parsing.rb:6-11 | `12D25D2012` matches for every choice of the two delimiters, mixed ones included, since the class is matched twice independently |
| `DateFormat.MatchingExamples` | test/american_date_parsing_spec.rb:34-44 | `12/25/2012`, `12-25-2012` and `12\|25\|2012` match |
| `DateFormat.EmbeddedDate` | lib/american_date_parsing.rb:97 | a date inside other text (`due 1/2/34!`) is found |
| `DateFormat.PatternWords` | lib/american_date_parsing.rb:11 | `12/25/2012 3:45 PM` (with the time group) and `1/2/34` are words of the whole pattern |
| `DateFormat.MatchIsPresent` | lib/american_date_parsing.rb:94-97 | a string in which the search finds the date shape is never blank (the match begins with a digit), so `raw.present?` never stops a matching string |
| `DateFormat.RejectedExamples` | test/american_date_parsing_spec.rb:46-60 | `12252012` and `cats` do not match |
| `DateFormat.DoubledDelimiterRejected` | test/american_date_parsing_spec.rb:50-52 | `12/25//2012` does not match |
| `DateFormat.MissingDelimiterRejected` | test/american_date_parsing_spec.rb:54-56 | `12/252012` does not match |
| `Classifier.Compact` | lib/american_date_parsing.rb:75 | `compact` keeps exactly the present entries and never lengthens the list |
| `Classifier.CompactAppend` | lib/american_date_parsing.rb:75 | `compact` keeps the relative order of the entries |
| `Classifier.CompactPair` | lib/american_date_parsing.rb:75 | in `[format_error, presence_error].compact` a present format error comes before a present presence error |
| `Classifier.Validation.Errors` | lib/american_date_parsing.rb:74-98 | at most one error per pass; none when a value was parsed; `[:blank, options[:presence]]` is in the list exactly when presence is truthy, the value is blank and raw is blank; `[:invalid, options[:format]]` is in the list exactly when format is truthy, the value is blank, raw is present and raw does not match the pattern; nothing else is in it |
| `Classifier.BlankAndInvalidExclusive` | lib/american_date_parsing.rb:82-98 | the presence error and the format error never both apply |
| `Classifier.ShapedTextNeverInvalid` | lib/american_date_parsing.rb:94-98 | text that contains the date shape anywhere is never reported `invalid`, whatever was parsed |
| `AmericanDateParsing.TextOf` | lib/american_date_parsing.rb:36 | definition: `date_string.to_s` for a non-structured input — the text itself, and `""` for nil |
| `AmericanDateParsing.ParseAssigned` | lib/american_date_parsing.rb:33-37 | a `Date`/`Time` yields its own date without consulting the text parser; any other input yields a value exactly when the parser finds one in its text (nil as `""`), keeping that result's calendar date |
| `AmericanDateParsing.Record.WriteAttribute` | lib/american_date_parsing.rb:46-48 | the attribute's instance variable becomes the given value; nothing else changes |
| `AmericanDateParsing.Record.Assign` | lib/american_date_parsing.rb:32-41 | the raw field becomes the assigned value verbatim whatever the parse gives; the parsed field becomes the parse result; the errors are untouched |
| `AmericanDateParsing.ForwardedOptions` | lib/american_date_parsing.rb:62 | definition: `opts.respond_to?(:keys) ? opts : {}` — a hash option is forwarded as it is, `true`, `false` or nil as `{}` |
| `AmericanDateParsing.Record.constructor` | lib/american_date_parsing.rb:26 | a new record has no raw value, no parsed value and no errors (`_raw_<attr>` and `@<attr>` start as nil) |
| `AmericanDateParsing.Forwarded` | lib/american_date_parsing.rb:61-63 | one added error per classifier error, in the same order, each for the validated attribute and of the same kind |
| `AmericanDateParsing.ValidateEach` | lib/american_date_parsing.rb:56-64 | appends the classifier's errors for the record's own parsed and raw values in order; a hash option is forwarded as is and any other option value as `{}`; a pass adds at most one error, and none when a value is parsed |
| `AmericanDateParsing.ErrorsAfterAssigning` | test/american_date_parsing_spec.rb:26-31 | a fresh record, one assignment and one validation pass yield exactly the forwarded errors of the assigned input |
| `AmericanDateParsing.StructuredBypassesParser` | test/american_date_parsing_spec.rb:80-86 | a `Date`/`Time` input stores its own `to_datetime` whichever text parser is used, and such a record never fails validation |
| `AmericanDateParsing.NilAssignment` | test/american_date_parsing_spec.rb:88-90 | assigning nil stores nil, given that the text parser finds nothing in `""` |
| `AmericanDateParsing.UnshapedTextIsInvalid` | lib/american_date_parsing.rb:86-98 | present text in which the parser finds nothing and the search finds no date shape yields exactly `[:invalid, options[:format]]` when the format check is on |
| `AmericanDateParsing.ShapedUnparsedTextPasses` | lib/american_date_parsing.rb:82-98 | text with the date shape in which the parser finds no date (an impossible day such as `02/30/2021`) leaves the attribute nil and yields no error at all, under any options: the format check tests the shape only |
| `AmericanDateParsing.AcceptsAmericanDates` | test/american_date_parsing_spec.rb:34-44 | `12/25/2012` and `12-25-2012` are never reported `invalid`, whatever the text parser does |
| `AmericanDateParsing.RejectsMissingDates` | test/american_date_parsing_spec.rb:62-64 | assigning `""` yields exactly the `blank` error, not `invalid`, given that the parser finds nothing in `""` |
| `AmericanDateParsing.RejectsMalformedDates` | test/american_date_parsing_spec.rb:46-60 | `12252012`, `12/25//2012`, `12/252012` and `cats` yield exactly the `invalid` error, given that the parser finds nothing in them |

## Left out

- `Chronic.parse` (lib/american_date_parsing.rb:36) is foreign natural-language parsing. It is a parameter of the setter, not a function of the model. The test expectations that come from it alone cannot be stated: `tomorrow`, `2`, `12/25/12` and `cats` parsing to a date or to nil (test/american_date_parsing_spec.rb:68-78, 92-104). Where a scenario needs the parser to find nothing, the lemma says so in its `requires`.
- Duck typing (`respond_to?(:strftime)`, `respond_to?(:keys)`, `to_s`, `try`) is replaced by explicit tagged unions. An assigned object that is neither nil, a string nor a `Date`/`Time` is modelled as the `Text` of its `to_s`. This loses what Ruby does with such an object: `_raw_<attr>` keeps the object itself, and `blank?` and `!~` act on it. So `false`, `[]` and `{}` (blank in ActiveSupport) get `blank` in Ruby, while the model turns them into the present texts `"false"`, `"[]"` and `"{}"` and reports `invalid`. `Record.Assign` stores its input verbatim only within the three-case `RawInput` union. An option value that is neither nil, a boolean nor a hash behaves as `Flag(true)`.
- Time zones and the `Time` to `DateTime` conversion are abstract. A `Time` carries its calendar date, second of day and UTC offset as given, and `to_datetime` keeps them.
- `raw !~ date_format` on a `Date`/`Time` raw value is modelled as "does not match", which is what `Object#=~` answering nil gives. Ruby 3.2 removed `Object#=~`, and there this call raises instead. The case arises only when the parsed value is blank while raw is a `Date`/`Time`. The setter never produces that state (`StructuredBypassesParser`).
- `[[:space:]]` is taken as the current Unicode White_Space set. Older Ruby versions differ in a few characters (for example U+180E).
- The process-wide `delimiter` and `date_format` settings (`mattr_accessor`, lib/american_date_parsing.rb:6-16) are fixed at their defaults. Reconfiguration is not modelled. Neither is the `@default_format ||=` memoisation, which would keep a stale pattern after a later delimiter change.
- ActiveModel plumbing is not modelled: the `validates` registration guarded by `options[:validate].present?` (lib/american_date_parsing.rb:28-30), the inclusion of `Accessors` (lib/american_date_parsing.rb:21-23), `attr_accessor`, `read_attribute` (lib/american_date_parsing.rb:50-52, read directly as the `parsed` field), `valid?` clearing earlier errors, and the i18n messages ("is invalid", "can't be blank"). `Record.errors` holds only what this attribute's validator adds.
- The error list is `[format_error, presence_error]`: format first, as the code has it. Because at most one error applies per pass, the order never shows in a result. `CompactPair` records it.
- Regular-expression engine internals are not modelled. Only this one pattern's search semantics are.
