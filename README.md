# getarg: command-line option parsing and typed lookups

A Dafny model of the option parser of a daemon-style application, covering
`ParseParameters`, `GetBoolArg`, `GetArg(name, string)` and
the integer overload of `GetArg`. The model follows the getarg test suite
`src/test/getarg_tests.cpp`; the implementation in `util.h` and `util.cpp` is
not modelled. The model is a parser that
reproduces every check of that suite. Each check is a proved lemma, resting
on general lemmas about the parser.

Modules, in dependency order:

- `Tokenizer` reads one raw argument:
  - a doubled leading dash is reduced to one (`--X` reads as `-X`);
  - the token is split at its first `=` into key and value;
  - a bare flag gets the empty value;
  - a token that does not begin with a dash is no option and is skipped;
  - `PositiveOf` recognises the negated spelling `-noName`.
- `Values` holds the coercions of a stored string:
  - booleans: `"0"` is false, anything else (the empty value included) is true;
  - integers: atoi-like, with an optional sign and the leading run of
    decimal digits, so text without leading digits reads as 0;
  - `Show`, the decimal spelling of an integer, which `AsInt` inverts.
- `OptionTable` holds the table an argument list produces.
  - Direct entries: the last direct occurrence of a key wins.
  - Negations: every `-noX=v` proposes the opposite of `v` for `-X`, and the
    last negation wins among proposals.
  - A proposal is used only when `-X` never occurs directly, wherever the two
    stand on the line.
  - The process-wide table is the class `Options`. Its `Parse` method makes
    one pass over the tokens that updates both maps, then overlays the
    proposals. It is proved to produce `Table(argv)`.
- `Accessors` holds `GetBool`, `GetString` and `GetInt` over the table, with
  the caller's fallback for an absent key. Its general lemmas are stated
  against the readings of the tokens.
- `GetArgTests` has one lemma per scenario of the suite. `BoolArgNoNegations`
  covers lines 145-158 in one lemma and reuses `BoolArgNegated` and
  `BoolArgNegatedOne` for the first two of them.
  - The program name is already dropped.
  - The line is split on spaces, so `ResetArgs("")` is the one-token list `[""]`.
  - `GetBoolArg(k)` with no fallback is `GetBool(t, k, false)`.
  - Each two-token scenario is proved in three steps: `…Line` reads the
    tokens, `…Readings` evaluates the accessors on those readings, and the
    scenario lemma combines the two. Keeping the two halves apart keeps each
    proof small.
  - `ParsedNegatedThenBare` runs the scenario of lines 163-164 through
    `Options.Parse` on a fresh object.

## Model

| member | source | states |
|---|---|---|
| Tokenizer.IndexOfEq | src/test/getarg_tests.cpp:100-106 | returns the position of the first `=` at or after `from`, or the length when there is none; no `=` comes before it |
| Tokenizer.SplitAtEqSpec | src/test/getarg_tests.cpp:100-110 | the key never holds `=`; with a `=`, key, `=` and value spell the body again; without one, the body is the key and the value is empty |
| Tokenizer.Normalize | src/test/getarg_tests.cpp:28-31 | a token is read as an option exactly when it begins with a dash |
| Tokenizer.NormalizeKey | src/test/getarg_tests.cpp:28-49 | every key read from a token is non-empty, begins with a dash and holds no `=` |
| Tokenizer.Tokenize | src/test/getarg_tests.cpp:20-23 | the readings line up one for one with the argument list, in order |
| Tokenizer.NormalizeRecovers | src/test/getarg_tests.cpp:104-110 | a token, after dropping a doubled dash, is exactly its key, then `=` and value when it had a `=`; without a `=` the value is empty (no text is lost or invented) |
| Tokenizer.NormalizeWrites | src/test/getarg_tests.cpp:78-81 | `key=value` and `-key=value` (the double-dash form) both read back as that key and value |
| Tokenizer.NormalizeWritesBare | src/test/getarg_tests.cpp:135-136 | a bare key with one or two dashes reads back as that key with the empty value |
| Tokenizer.SplitKeyValue | src/test/getarg_tests.cpp:104-110 | the first `=` of `key + "=" + value` is the one right after a key free of `=`, so the value may itself contain `=` |
| Tokenizer.DoubleDash | src/test/getarg_tests.cpp:77-86 | `--` and `-` before a body that does not begin with a dash give the same reading |
| Tokenizer.PositiveOf | src/test/getarg_tests.cpp:51-55 | a key names a positive key exactly when it is `-no` followed by a non-empty name; that positive key is `-` plus the name |
| Tokenizer.NegatedSpelling | src/test/getarg_tests.cpp:52-60 | `-no` + name is recognised as the negation of `-` + name for every non-empty name |
| Values.DecimalValue | src/test/getarg_tests.cpp:124-126 | the digit string of a natural number reads back as that number |
| Values.AsIntShow | src/test/getarg_tests.cpp:124-126 | the integer reading inverts decimal spelling for every integer, negatives included |
| Values.AsIntNonNumeric | src/test/getarg_tests.cpp:128-130 | text that starts with neither a digit nor a sign, or empty text, reads as 0 |
| OptionTable.NegationValue | src/test/getarg_tests.cpp:145-158 | a negation proposes the boolean opposite of its value, spelled `"0"` or `"1"` |
| OptionTable.Overlay | src/test/getarg_tests.cpp:62-75 | the table holds every direct and every proposed key; a direct entry always beats a proposal; a proposal fills only a key with no direct entry |
| OptionTable.DirectLast | src/test/getarg_tests.cpp:62-75 | the direct entry of a key is the value of its last direct occurrence |
| OptionTable.DirectKeys | src/test/getarg_tests.cpp:33-39 | a key has a direct entry if and only if some token spells it directly |
| OptionTable.ProposalLast | src/test/getarg_tests.cpp:52-60 | the proposal for a key comes from its last negation |
| OptionTable.ProposalKeys | src/test/getarg_tests.cpp:52-60 | a key has a proposal if and only if some token negates it |
| OptionTable.TableKeys | src/test/getarg_tests.cpp:33-39 | a key is in the table if and only if it occurs directly or negated |
| OptionTable.DirectWins | src/test/getarg_tests.cpp:160-164 | with a direct occurrence anywhere, the table holds its last direct value, whatever negations stand before or after it |
| OptionTable.NegationApplies | src/test/getarg_tests.cpp:145-158 | with no direct occurrence, the table holds the value proposed by the last negation |
| OptionTable.DoubleDashTable | src/test/getarg_tests.cpp:133-140 | writing any one option token with two dashes instead of one leaves the whole table unchanged |
| OptionTable.Options.Parse | src/test/getarg_tests.cpp:23 | the loop over the tokens replaces the stored table by `Table(argv)`, whatever was stored before |
| Accessors.AbsentGivesFallback | src/test/getarg_tests.cpp:92-94 | a key neither supplied nor negated yields the caller's fallback from the bool, string and int accessors |
| Accessors.SuppliedIgnoresFallback | src/test/getarg_tests.cpp:28-31 | for a supplied or negated key, no accessor's result depends on the fallback |
| Accessors.ExactKey | src/test/getarg_tests.cpp:33-39 | with one option token, every other key it does not negate (`-fo`, or the longer `-DCTo`) is absent and yields its fallback |
| Accessors.BareFlag | src/test/getarg_tests.cpp:96-102 | a bare flag or `-X=` is true as a boolean, `""` as a string and 0 as an integer, whatever the fallback |
| Accessors.DirectBool | src/test/getarg_tests.cpp:41-49 | the last direct value decides the boolean: false if and only if it is `"0"` |
| Accessors.DirectString | src/test/getarg_tests.cpp:104-110 | the string accessor returns the last direct value verbatim |
| Accessors.DirectDecimal | src/test/getarg_tests.cpp:124-126 | a decimal value is read back as its number, not the fallback |
| Accessors.DirectNonNumeric | src/test/getarg_tests.cpp:128-130 | a non-numeric value reads as 0, not the fallback |
| Accessors.NegatedBool | src/test/getarg_tests.cpp:145-158 | without a direct occurrence, the key is true if and only if the last negation's value is `"0"` |
| GetArgTests.BoolArgBare | src/test/getarg_tests.cpp:28-39 | `-DCT` makes `-DCT` true for either fallback, while `-fo` and `-DCTo` are absent and give their fallbacks |
| GetArgTests.BoolArgZero | src/test/getarg_tests.cpp:41-44 | `-DCT=0` makes `-DCT` false for either fallback |
| GetArgTests.BoolArgOne | src/test/getarg_tests.cpp:46-49 | `-DCT=1` makes `-DCT` true for either fallback |
| GetArgTests.BoolArgNegated | src/test/getarg_tests.cpp:52-55 | `-noDCT` makes `-DCT` false for either fallback |
| GetArgTests.BoolArgNegatedOne | src/test/getarg_tests.cpp:57-60 | `-noDCT=1` makes `-DCT` false for either fallback |
| GetArgTests.BoolArgBareBeatsNegated | src/test/getarg_tests.cpp:62-65 | `-DCT -noDCT` makes `-DCT` true for either fallback |
| GetArgTests.BoolArgOneBeatsNegatedOne | src/test/getarg_tests.cpp:67-70 | `-DCT=1 -noDCT=1` makes `-DCT` true for either fallback |
| GetArgTests.BoolArgZeroBeatsNegatedZero | src/test/getarg_tests.cpp:72-75 | `-DCT=0 -noDCT=0` makes `-DCT` false for either fallback, although the negation proposes true |
| GetArgTests.BoolArgDoubleDashOne | src/test/getarg_tests.cpp:78-81 | `--DCT=1` makes `-DCT` true for either fallback |
| GetArgTests.BoolArgDoubleDashNegatedOne | src/test/getarg_tests.cpp:83-86 | `--noDCT=1` makes `-DCT` false for either fallback |
| GetArgTests.StringArgNone | src/test/getarg_tests.cpp:92-94 | an empty line leaves `-DCT` absent, so the string accessor returns the fallback `""` or `"eleven"` |
| GetArgTests.StringArgBare | src/test/getarg_tests.cpp:96-98 | `-DCT -bar` gives `-DCT` the string `""` for either fallback |
| GetArgTests.StringArgEmptyValue | src/test/getarg_tests.cpp:100-102 | `-DCT=` gives the string `""` for either fallback |
| GetArgTests.StringArgNumber | src/test/getarg_tests.cpp:104-106 | `-DCT=11` gives the string `"11"` for either fallback |
| GetArgTests.StringArgWord | src/test/getarg_tests.cpp:108-110 | `-DCT=eleven` gives the string `"eleven"` for either fallback |
| GetArgTests.IntArgNone | src/test/getarg_tests.cpp:116-118 | an empty line gives `-DCT` the integer fallback, 11 or 0 |
| GetArgTests.IntArgBare | src/test/getarg_tests.cpp:120-122 | `-DCT -bar` gives both keys the integer 0 despite the fallback 11 |
| GetArgTests.IntArgNumbers | src/test/getarg_tests.cpp:124-126 | `-DCT=11 -bar=12` gives the integers 11 and 12 |
| GetArgTests.IntArgNotANumber | src/test/getarg_tests.cpp:128-130 | `-DCT=NaN -bar=NotANumber` gives the integer 0 for both, not the fallbacks 1 and 11 |
| GetArgTests.DoubleDashBare | src/test/getarg_tests.cpp:135-136 | `--DCT` makes `-DCT` true |
| GetArgTests.DoubleDashValues | src/test/getarg_tests.cpp:138-140 | `--DCT=verbose --bar=1` gives `-DCT` the string `"verbose"` and `-bar` the integer 1 |
| GetArgTests.BoolArgNoNegations | src/test/getarg_tests.cpp:145-158 | `-noDCT` and `-noDCT=1` make `-DCT` false and `-noDCT=0` makes it true, each for either fallback |
| GetArgTests.BoolArgNoBareBeatsDoubleDashNegated | src/test/getarg_tests.cpp:160-161 | `-DCT --noDCT` makes `-DCT` true |
| GetArgTests.BoolArgNoNegatedThenBare | src/test/getarg_tests.cpp:163-164 | `-noDCT -DCT` makes `-DCT` true |
| GetArgTests.ParsedNegatedThenBare | src/test/getarg_tests.cpp:163-164 | parsing `-noDCT -DCT` into a fresh `Options` object and then asking `GetBoolArg("-DCT")` gives true |

## Left out

- `ResetArgs` (lines 9-24) is test plumbing and is not modelled: the split on whitespace with `boost::split`, the dummy program name, and the conversion to C strings. Each scenario takes the token list that `ResetArgs` would pass on, without the program name.
- The Boost.Test macros and suite registration belong to the test framework, not to the parser.
- `util.h` and `util.cpp` are not part of this model. The behaviour of `ParseParameters`, `GetBoolArg` and `GetArg` comes from the checks in the test suite. Where no check fixes a case, the model makes its own choice:
  - a token that does not begin with a dash is skipped, and parsing goes on with the next token;
  - only one dash is dropped from a token that begins with two, so `---X` reads as `--X`, a lone `--` as `-` and a lone `-` as `-`;
  - `-no` with no name after it is not a negation;
  - a negated token `-noX` also stays in the table under its own key `-noX`;
  - any boolean value other than `"0"` reads as true, `"1"` and `""` included;
  - an integer value with trailing text reads by its leading digits (`"12abc"` is 12), and a sign is accepted.
- Values.AsInt: does not model a fixed-width result (a 64-bit integer is assumed here, since the declaration is not part of this model), so values beyond its range neither overflow nor saturate; the tests use only small numbers.
- The process-wide global option table is modelled as the explicit object `OptionTable.Options`.
- The multi-value table that keeps every value of a repeated key is not modelled, because the tests never query it. Config-file merging and the later consumers of the options are out of scope.
- Keys compare as exact strings, case included.
- Accessors.GetBool, Accessors.GetString and Accessors.GetInt: carry no contract of their own, because their definitions are the table lookups. Their behaviour is stated by the `Accessors` lemmas and the scenarios.
