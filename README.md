# Help text for failed client calls

This project models the error-explanation dispatcher of the `eosioc` command-line client (programs/eosioc/help_text.cpp).
When a call to the node fails, `print_help_text` turns the resulting `fc::exception` into help text on `std::cerr` in two ways:

- **Coded path** (`print_recognized_error_code`). A code in the chain's range 3000000–3999999 prints a red `Error <code>: <what>` line. A green advice line follows when the `error_advice` table has an entry for the code. A yellow `Error Details:` block follows when at least one log entry has a non-empty format; it renders those entries in log order.
- **Catalog path**, tried only when the coded path declines. A detail string longer than 2048 characters is never matched. Otherwise the ordered `error_help_text` catalog is walked, and the first rule whose pattern is found wins. Its messages are written one line each, localized with the capture groups as arguments "0", "1", …. A group that took no part in the match is "". A `std::regex_error` is reported as one line, and the call then returns false.

Modules:

- `Decimal` (decimal.dfy): the decimal strings of `boost::lexical_cast` and of `operator<<` on a non-negative code.
- `VariantObjects` (variant_object.dfy): `fc::mutable_variant_object` as an ordered list of entries. `obj(key, value)` appends an entry without looking for an existing key, and a lookup finds the first entry with the key.
- `Collaborators` (collaborators.dfy): what the dispatcher receives:
  - the exception's accessors, as plain values;
  - the regex engine and the two localizer functions, bundled in `Env` as uninterpreted functions;
  - `std::cerr`, as the `ErrorStream` class, whose `written` field is the sequence of pieces appended by each `<<` statement (`std::endl` is "\n").
- `HelpText` (help_text.dfy): the catalog, the advice table, `SmatchToVariant`, `PrintRecognizedErrorCode` and `PrintHelpText`, each proved against a specification function. It also holds the lemmas about those functions.

`PrintHelpText` has a ghost out-parameter `tried`, the number of catalog patterns it handed to the regex engine. It makes "no pattern is evaluated" and "no later rule is evaluated" statable.

Two consequences of the code are worth stating:

- A `std::regex_error` writes its one line and the call returns `false`. `result` is set to true only just before the `break` that follows a successful match (help_text.cpp:230-238).
- Every code in 3000000–3999999, 3030011 included, takes the coded path (help_text.cpp:187, 214). Catalog rules such as `Error\n: 3030011` can therefore fire only for an exception whose own code lies outside that range.

## Model

| member | source | states |
|---|---|---|
| `Decimal.DecimalString` | programs/eosioc/help_text.cpp:88 | the index key is a non-empty string of decimal digits with no leading zero |
| `Decimal.ParseDecimalString` | programs/eosioc/help_text.cpp:88 | reading the decimal key back gives the index (round trip) |
| `Decimal.DecimalStringInjective` | programs/eosioc/help_text.cpp:87-88 | distinct group indices get distinct keys |
| `HelpText.SmatchToVariant` | programs/eosioc/help_text.cpp:85-97 | the object has one entry per group, entry i being key "i" with group i's text, or "" when the group did not take part |
| `HelpText.MatchArgsLookup` | programs/eosioc/help_text.cpp:89-93 | looking up key "i" gives group i's matched text, and "" for a group that did not participate |
| `HelpText.MatchArgsKeys` | programs/eosioc/help_text.cpp:87-88 | the keys are exactly "0" .. "size-1" |
| `HelpText.Advice` | programs/eosioc/help_text.cpp:191-192 | advice is the table entry for the code, and is non-empty exactly when the code is in the table |
| `HelpText.ExplainLog` | programs/eosioc/help_text.cpp:194-202 | the loop builds the explanation the log determines, with the "Error Details:" prefix only when it is non-empty |
| `HelpText.ExplanationAppend` | programs/eosioc/help_text.cpp:195-200 | segments follow log order: the explanation of a concatenated log is the concatenation of the explanations |
| `HelpText.ExplanationOfOne` | programs/eosioc/help_text.cpp:197-199 | one entry contributes "\n  " plus its localized format, or nothing if its format is empty |
| `HelpText.ExplanationSkipsEmptyFormat` | programs/eosioc/help_text.cpp:197 | an entry with an empty format leaves the explanation unchanged |
| `HelpText.ExplanationEmptyIff` | programs/eosioc/help_text.cpp:197-202 | the explanation is empty exactly when every log format is empty |
| `HelpText.CodedWritesLines` | programs/eosioc/help_text.cpp:204-206 | the code line comes first; the advice line is written iff the code is in the table; the details line is written iff some format is non-empty |
| `HelpText.PrintRecognizedErrorCode` | programs/eosioc/help_text.cpp:184-210 | returns true iff 3000000 <= code <= 3999999; then appends the coded lines, otherwise writes nothing |
| `HelpText.Classify` | programs/eosioc/help_text.cpp:222-233 | the rule chosen or the rule that raised lies within the catalog |
| `HelpText.ClassifyMatchedIff` | programs/eosioc/help_text.cpp:222-232 | rule k is chosen iff its pattern is found and every earlier pattern was not found |
| `HelpText.ClassifyFaultIff` | programs/eosioc/help_text.cpp:221-236 | the walk ends in a regex error iff that rule raised it and every earlier pattern was not found |
| `HelpText.ClassifyNoMatchIff` | programs/eosioc/help_text.cpp:222-233 | no rule is chosen iff no pattern is found |
| `HelpText.PrintHelpText` | programs/eosioc/help_text.cpp:212-239 | returns `HelpTextOutcome`'s result, appends exactly its pieces, and hands the regex engine exactly its number of patterns; the lemmas below state what that outcome is |
| `HelpText.CodedPathHasPriority` | programs/eosioc/help_text.cpp:214 | a recognized code returns true with the coded lines, tries no pattern, and does not depend on the matcher |
| `HelpText.OversizedDetailIsNotMatched` | programs/eosioc/help_text.cpp:218-220 | a detail string over 2048 characters returns false, writes nothing and tries no pattern |
| `HelpText.FirstMatchWins` | programs/eosioc/help_text.cpp:222-232 | for detail strings up to 2048 characters inclusive, the first found rule's messages are written in order, one line each; rules after it are not tried; the result is true |
| `HelpText.CatalogHandledIff` | programs/eosioc/help_text.cpp:215-238 | outside the coded range the result is true iff the detail fits the ceiling and some pattern is found before any other outcome |
| `HelpText.NoMatchWritesNothing` | programs/eosioc/help_text.cpp:215 | when no pattern is found, nothing is written and the result is false |
| `HelpText.RegexErrorWritesOneLine` | programs/eosioc/help_text.cpp:234-238 | a regex error writes exactly one `help_regex_error` line with its code and message, stops the walk and returns false |
| `HelpText.DuplicateRuleBeforeGenericRule` | programs/eosioc/help_text.cpp:70-75 | the 3030011 rule precedes the generic `Error\n: 303` rule and wins when both are found |
| `HelpText.AccountNotFoundScenario` | programs/eosioc/help_text.cpp:74 | an "Account not found: alice" match writes the header, the unknown-account line and the unknown-accounts text, with arguments "0" and "1" = "alice" |

## Left out

- The regex engine (`std::regex` with the ECMAScript grammar, `[^\x00]*`, backtracking, and the stack exhaustion behind the 2048 ceiling) is an uninterpreted function `Env.search`. It returns the capture groups, no match, or a `regex_error`. Compiling each pattern and searching with it are one call.
- `localized`, `localized_with_variant` and `_()` are uninterpreted. They come from localize.hpp, which is not part of this model. Placeholder substitution (`${1}`) is not modelled.
- The wording of the thirteen help texts and the six advice entries is not carried. Each is a distinct, non-empty stand-in string named after its C++ constant or its code. Only their identity and their order in the catalog matter to the dispatcher. The catalog patterns and `help_regex_error` are the literal texts.
- `fc::exception`'s accessors are inputs: `code()` is an `Int64`; `what()` and `to_detail_string()` are strings; `get_log()` is a sequence of (format, data) pairs. Log data values are modelled as strings and integers only.
- `fc::mutable_variant_object` is not part of this model beyond appending an entry and finding the first entry with a key.
- Strings are sequences of characters. The 2048 ceiling counts characters, whereas `std::string::size()` counts bytes.
- Colour escapes are opaque constants. `std::endl`'s flush and the stream's own I/O are left out.
- An exception thrown by the localizer or by the variant code, which would propagate out of `print_help_text`, is not modelled. Neither is any `regex_error` raised outside the search.
