# rf-calc power-unit handling, modelled in Dafny

`rf-calc` is a small command-line calculator for radio-link arithmetic. Its one
piece of logic that is not a closed-form floating-point formula is the unit
handling in `transmitter_power_conversion`: the power text is lower-cased; if
it ends with `mw` it is a milliwatt value, otherwise if it ends with `dbm` it
is a dBm value, otherwise the call fails with the fixed message
"Invalid input. Please enter a valid value followed by its unit (mW or dBm).".
In a unit branch every match of the unit token is removed, the rest is
trimmed and parsed as a float, and a parse failure aborts through `unwrap`.

The model has two modules:

- `RustStr` (`text.dfy`): the `str` operations that the function chains:
  `to_lowercase` (ASCII letters only), `ends_with`, `replace` (left-to-right,
  non-overlapping, scanning resumes after each match) and `trim` (Rust's
  `char::is_whitespace`, the Unicode White_Space set), each with lemmas that
  characterise it.
- `PowerConversion` (`power.dfy`): `ClassifyInput`, the string side of the
  function as a three-way outcome (milliwatt text, dBm text, invalid unit), and
  `TransmitterPowerConversion`, the whole function with the float parser and
  the two logarithmic conversions passed in as parameters. Its outcome is
  `Ok`, `Err` with the fixed message, or `ParsePanic` for the `unwrap` on a
  failed parse.

## Model

| member | source | states |
|---|---|---|
| `RustStr.LowerChar` | src/main.rs:127 | an ASCII capital moves up by 32 to its small letter, every other character is kept, and no ASCII capital comes out |
| `RustStr.ToLower` | src/main.rs:127 | computes `to_lowercase` with ASCII folding: each character lowered in place, the length kept |
| `RustStr.LowerCharEqualIff` | src/main.rs:127 | two characters lower to the same character exactly when they are equal or are the capital and small forms of one ASCII letter (both directions) |
| `RustStr.ToLowerEqualIff` | src/main.rs:127 | two texts lower-case to the same text exactly when they have the same length and at every position the characters are equal or are the two cases of one ASCII letter (both directions) |
| `RustStr.ToLowerIdempotent` | src/main.rs:127 | lower-casing twice is lower-casing once |
| `RustStr.ToLowerConcat` | src/main.rs:127 | lower-casing distributes over concatenation |
| `RustStr.EndsWith` | src/main.rs:128 | computes `ends_with`: the last characters of the text, as many as the suffix has, are the suffix |
| `RustStr.EndsWithIff` | src/main.rs:128 | `ends_with` holds exactly when the text is some text followed by the suffix |
| `RustStr.OccursIff` | src/main.rs:129 | the recursive occurrence test holds exactly when the pattern appears at some position |
| `RustStr.Replace` | src/main.rs:129 | computes `str::replace`: the leftmost match is replaced and the scan resumes right after it, so matches never overlap; characters outside matches are copied in order |
| `RustStr.CountMatches` | src/main.rs:129 | counts the matches `Replace` replaces, following the same left-to-right, non-overlapping scan |
| `RustStr.ReplaceLength` | src/main.rs:129 | the replaced text's length is the input length plus, per match, the length difference of replacement and pattern |
| `RustStr.RemoveLength` | src/main.rs:129 | removing a token shortens the text by the token length times the number of matches |
| `RustStr.ReplaceAbsent` | src/main.rs:129 | a text without the pattern has no matches and comes back unchanged |
| `RustStr.ReplaceAfterClean` | src/main.rs:129 | for a border-free pattern and a pattern-free prefix, the first match is the one right after the prefix, and the rest is replaced independently |
| `RustStr.RemoveSuffix` | src/main.rs:129 | removing a border-free token from pattern-free text followed by the token gives the text back, with exactly one match |
| `RustStr.RemoveTwice` | src/main.rs:129 | two pattern-free parts each followed by the token come out joined |
| `RustStr.OccursCounted` | src/main.rs:129 | if the pattern occurs, the left-to-right scan counts at least one match |
| `RustStr.EndsWithOccurs` | src/main.rs:128-129 | a suffix is an occurrence |
| `RustStr.IsWhitespace` | src/main.rs:129 | the White_Space set of `char::is_whitespace`: tab to carriage return, space, U+0085, U+00A0, U+1680, U+2000 to U+200A, U+2028, U+2029, U+202F, U+205F and U+3000 |
| `RustStr.TrimStart` | src/main.rs:129 | computes `trim_start`: whitespace characters are dropped from the front one at a time |
| `RustStr.TrimEnd` | src/main.rs:129 | computes `trim_end`: whitespace characters are dropped from the back one at a time |
| `RustStr.Trim` | src/main.rs:129 | computes `trim` as `trim_end` after `trim_start` |
| `RustStr.TrimStartSpec` | src/main.rs:129 | the front-trimmed text is a suffix of the input, what was cut is all whitespace, and it does not start with whitespace |
| `RustStr.TrimEndSpec` | src/main.rs:129 | the back-trimmed text is a prefix of the input, what was cut is all whitespace, and it does not end with whitespace |
| `RustStr.TrimSpec` | src/main.rs:129 | the trimmed text is a slice of the input with only whitespace around it and none at either of its ends |
| `RustStr.TrimUnique` | src/main.rs:129 | any slice with only whitespace around it and none at its ends is the trimmed text, so `TrimSpec` determines the result |
| `RustStr.TrimNoEdges` | src/main.rs:129 | a text with no whitespace at either end trims to itself |
| `RustStr.TrimIdempotent` | src/main.rs:129 | trimming twice is trimming once |
| `PowerConversion.StripUnit` | src/main.rs:129-132 | computes the numeric text of a unit branch: every match of the unit token removed from the lower-cased input, then trimmed |
| `PowerConversion.ClassifyInput` | src/main.rs:126-136 | milliwatt exactly when the lower-cased input ends with "mw"; dBm exactly when it does not but ends with "dbm"; invalid exactly when it ends with neither; the numeric text is the lower-cased input with every token match removed and trimmed, and is shorter than the input by at least the token |
| `PowerConversion.TransmitterPowerConversion` | src/main.rs:126-137 | `Err` with the fixed message exactly for an invalid unit; `ParsePanic` on the numeric text exactly when the parser rejects it; otherwise `Ok` with the parsed value sent through the conversion of its unit |
| `PowerConversion.TokensBorderFree` | src/main.rs:129-132 | neither "mw" nor "dbm" has a proper prefix that is also its suffix, so its matches cannot overlap |
| `PowerConversion.TokensDisjoint` | src/main.rs:128-131 | no text ends with both "mw" and "dbm", so the two unit branches never compete |
| `PowerConversion.StrippedShorter` | src/main.rs:129-132 | in a unit branch the numeric text is at most the input length minus the token length |
| `PowerConversion.ClassifyLowered` | src/main.rs:127 | only the lower-cased input matters to the classification |
| `PowerConversion.ClassifyCaseInsensitive` | src/main.rs:127-132 | inputs that differ only in ASCII case get the same branch and the same numeric text |
| `PowerConversion.ConversionCaseInsensitive` | src/main.rs:126-137 | inputs that differ only in ASCII case get the same outcome, whatever the parser and the arithmetic |
| `PowerConversion.InvalidUnitIgnoresParser` | src/main.rs:134-135 | a text ending with neither unit gives the fixed error for every parser, so no parse is attempted |
| `PowerConversion.StrippedLength` | src/main.rs:128-133 | the text before trimming is the lower-cased length minus the token length times the number of left-to-right matches |
| `PowerConversion.MilliwattSuffix` | src/main.rs:128-129 | a text without "mw" followed by a milliwatt unit in any case reads as milliwatts with the lower-cased text trimmed |
| `PowerConversion.DbmSuffix` | src/main.rs:131-132 | a text without "dbm" followed by a dBm unit in any case reads as dBm with the lower-cased text trimmed |
| `PowerConversion.MilliwattTwice` | src/main.rs:129 | two "mw"-free parts each followed by a milliwatt unit read as milliwatts with the two parts joined and trimmed |
| `PowerConversion.ExampleMilliwattTests` | src/main.rs:192-197 | "10mW" and "1mW" read as milliwatts with "10" and "1" |
| `PowerConversion.ExampleDbmTest10` | src/main.rs:202-203 | "10dBm" reads as dBm with "10" |
| `PowerConversion.ExampleDbmConversion` | src/main.rs:205-206 | "0dBm" reads as dBm with "0"; converting it parses "0" and applies the dBm-to-milliwatt conversion, or panics if the parse fails |
| `PowerConversion.ExampleMixedCase` | src/main.rs:127-129 | "10MW", "10mw" and "10Mw" all read as milliwatts with "10" |
| `PowerConversion.ExampleSpaced` | src/main.rs:129 | "10 mW" reads as milliwatts with "10": the space is trimmed |
| `PowerConversion.ExampleEveryMatch` | src/main.rs:129 | "1mw2mw" reads as milliwatts with "12": every match is removed, not only the suffix |
| `PowerConversion.ExampleUnknownUnit` | src/main.rs:134-135 | "10xyz" is an invalid unit |

## Left out

- `main` and the clap argument setup and dispatch (src/main.rs:4-115): argument-framework plumbing and printing. The argument is registered as "value" but read as "power", so that path would panic on `unwrap`; this belongs to the I/O layer and is not modelled.
- The float parse `str::parse::<f64>` is a parameter `parse: string -> Option<F>` of `TransmitterPowerConversion`: it is a library call whose accepted syntax is not modelled.
- The arithmetic `10.0 * value.log(10.0)` and `10.0_f64.powf(value / 10.0)` are the parameters `mwToDbm` and `dbmToMw`: IEEE floating point is not modelled.
- `free_space_path_loss`, `rf_link_range` and `times_further` (src/main.rs:149-185): single closed-form `f64` formulas with no branching or string logic.
- The unit tests' numeric tolerance checks (src/main.rs:191-228); only which branch and which numeric text the test inputs reach is modelled.
- RustStr.ToLower: folds only ASCII letters. Rust's `to_lowercase` is full Unicode lowering: it also maps the 1,407 non-ASCII characters that have a lower-case mapping (capitals, titlecase letters such as U+01C5, the Roman numerals U+2160 to U+216F and the circled letters U+24B6 to U+24CF), while capitals without a mapping, such as U+2102, stay as they are. Of these only U+0130 changes length. By the Unicode case tables, no non-ASCII character lowers to text containing `m`, `w`, `d` or `b`; only U+0130 and U+212A lower to ASCII at all, to "i̇" and "k". So the ASCII-only folding never changes which branch is taken, only the numeric text, and the model's numeric text is exact for inputs that contain none of those 1,407 characters.
- RustStr.Replace: requires a non-empty pattern. Rust's `replace` with an empty pattern inserts the replacement before, between and after all characters, which the model does not cover; the converter only ever passes "mw" or "dbm".
