# getenv — a Dafny model of the parse-or-fallback core

This project models the typed environment-variable accessors of the Go
library `getenv`. The core is one generic engine, `parser.Parse`:

- it looks a key up in the process environment;
- an absent key yields the caller's fallback, and the parser is never called;
- a present key is handed to a parser function;
- a parser error is fatal: getenv panics with the key, the raw text and the cause.

On top of the engine sit the typed accessors:

- `String`, backed by the identity parser `ID`;
- `Int` for every Go integer type, which parses with `strconv.ParseUint(v, 10, 64)` and narrows with the conversion `T(v)`;
- `Bool`, backed by `strconv.ParseBool`;
- the list combinator `List`, which cuts the raw text at every comma, parses and converts each part in order, and aborts on the first bad part;
- `Strings` and `Ints`, which are `List` instances.

The model is purely functional:

- The environment is an explicit `map<string, string>` (`Parser.Env`): what `os.LookupEnv` reports for each name. `os.LookupEnv` reports the empty name as absent, so `""` is never a key of the map.
- The panic is the outcome `Failure(key, raw, cause)` of the datatype `Parser.Outcome`.
- A parser is a total function `string -> ParseResult<T>`.
- Go's generic type parameter of `Int`/`Ints` becomes a value of `IntKinds.IntKind`. It names one of int, int8, …, uint64, uintptr.

Modules:

- `Decimal`: the value of a decimal digit string (`Number`, by Horner's rule), the longest digit prefix (`DigitRun`) and the canonical rendering `Render`.
- `Parser`: parser/parser.go. It holds `Parse`, `ID` and `U64`. `ScanU64` is the digit loop of `strconv.ParseUint` in base 10.
- `CommaList`: `strings.Split(s, ",")` as `Split`, with its inverse `Join`.
- `IntKinds`: Go's integer types and the conversion `T(x)` as `Convert`. `Convert` is the body of `u64toi`.
- `Getenv`: getenv.go. It holds `List` (with its inner parser `ParseParts` and getenv.go's loop `ParsePartsLoop`), `String`, `Strings`, `Int`, `Ints`, `IdentityOf` and `Bool`.

`strconv.ParseUint`, `strconv.ParseBool` and `strings.Split` belong to Go's standard library, not to getenv. They are modelled from Go's documented behaviour:

- `ParseUint` in base 10 accepts only non-empty ASCII digit text.
- It reads the digits one by one.
- It stops at the first non-digit, which is a syntax error.
- It also stops at the first digit that would take the value past 2^64 − 1, which is a range error.
- Whichever of the two comes first decides the error.

## Model

| member | source | states |
|---|---|---|
| Parser.Parse | parser/parser.go:35-45 | Absent key gives the fallback. A present key succeeds exactly when the parser accepts the raw text, with the parser's value. Otherwise it is a failure carrying the key, the raw text and the parser's cause. |
| Parser.ParseAbsentIgnoresParser | parser/parser.go:36-39 | With the key absent, any two parsers give the same outcome, the fallback: the parser is not consulted. |
| Parser.ParsePresentIgnoresFallback | parser/parser.go:40-44 | With the key present, the fallback plays no part: success or failure, any two fallbacks give the same outcome. |
| Parser.ParseReadsOnlyKey | parser/parser.go:35-45 | The outcome is determined by the presence and text of the one key looked up. Environments that agree on it give the same outcome. |
| Parser.ID | parser/parser.go:15 | The identity parser always succeeds with its input unchanged. |
| Parser.ScanU64 | parser/parser.go:18 | The base-10 digit loop succeeds iff the rest of the text is all digits and the whole value is at most 2^64 − 1. It returns that value. The error is a range error exactly when the leading digit run already exceeds 2^64 − 1, and a syntax error otherwise. |
| Parser.U64 | parser/parser.go:18 | Succeeds exactly on non-empty all-digit text whose value is at most 2^64 − 1, returning that value. Empty text and non-digits are syntax errors. Overflow of the leading digit run is a range error. |
| Parser.U64RoundTrip | parser/parser.go:18 | The canonical decimal rendering of every uint64 parses back to the same number. |
| Parser.U64LeadingZero | parser/parser.go:18 | A leading zero is accepted and changes neither the value nor the error, whatever non-empty text follows it. |
| Parser.EmptyKeyFallsBack | parser/parser.go:36-39 | The empty name is never set, so every lookup of it yields the fallback. |
| Parser.U64RejectsSign | parser/parser.go:18 | Text starting with '-' or '+' is a syntax error: the parse is unsigned. |
| Parser.U64NoWrap | parser/parser.go:18 | The decimal text of any number of 2^64 or more is a range error; it never wraps around. |
| CommaList.Split | getenv.go:108 | Cutting at commas gives one more part than there are commas. No part holds a comma. Joining the parts with commas gives the raw text back exactly (no trimming, no dropped parts). |
| CommaList.SplitJoin | getenv.go:108 | Splitting is the inverse of joining: comma-free parts joined with commas split back into the same parts. |
| IntKinds.Convert | getenv.go:123 | Go's conversion T(x) is a value of the type and is congruent to x modulo 2^width. |
| IntKinds.ConvertUnique | getenv.go:123 | The conversion result is the only value of the type congruent to the input modulo 2^width. |
| IntKinds.ConvertIdentity | getenv.go:123 | Converting a value the type already holds leaves it unchanged. |
| IntKinds.WidenNarrow | getenv.go:38-39 | Widening any value of a kind to uint64 and narrowing back gives it unchanged, negative values included. |
| IntKinds.ConvertExamples | getenv.go:123 | 300 narrows to 44 as uint8 and as int8. 200 narrows to −56 as int8. −1 widens to 2^64 − 1 as uint64, and 2^64 − 1 is −1 as int64. |
| Getenv.ParseParts | getenv.go:107-118 | The inner parser of List succeeds iff every part parses. Then it gives one converted value per part, in order. On failure the error names the key and the first failing part, with that part's cause. |
| Getenv.ParsePartsLoop | getenv.go:109-117 | getenv.go's append loop computes the same result as ParseParts. On failure its buffer holds exactly the converted parts before the first failing one. |
| Getenv.ParsePartsStopsAtFailure | getenv.go:110-114 | Once a part fails, nothing after it matters: the result is the same whatever follows the failing part. |
| Getenv.List | getenv.go:103-120 | Absent key gives the fallback. A present key yields a list iff every comma-separated part parses. The list has commas + 1 elements, element i being the converted value of part i. Otherwise the failure carries the key, the raw text and the first failing part; no list reaches the caller. |
| Getenv.IdentityOf | getenv.go:122 | The converter of the string list hands back its argument unchanged. |
| Getenv.String | getenv.go:25-27 | The raw text whenever the key is present, even when empty. Otherwise the fallback. Never a failure. |
| Getenv.Strings | getenv.go:31-33 | The comma-separated parts of the raw text, exactly as split, whenever the key is present. Otherwise the fallback. Never a failure. |
| Getenv.StringsJoin | getenv.go:31-33 | A present string list is non-empty and joins back, with commas, to the raw text. |
| Getenv.StringsEmpty | getenv.go:32 | An empty variable is the one-element list [""], not the empty list. |
| Getenv.Int | getenv.go:37-40 | The result always fits the kind. Absent key gives the fallback unchanged. A present key succeeds iff U64 accepts the text, with the decimal value narrowed to the kind. Otherwise it fails with the key, the raw text and U64's cause. |
| Getenv.IntAbsent | getenv.go:38-39 | Absent key: int8 −128, int64 −1 and uint8 255 come back unchanged. |
| Getenv.IntRejectsSign | getenv.go:38 | A leading sign makes Int fail with a syntax error for every kind, signed ones included. |
| Getenv.IntNarrows | getenv.go:123 | "300" read as uint8 is 44, silently. |
| Getenv.Ints | getenv.go:44-51 | Absent key gives the fallback. A present key yields a list iff every part is an unsigned 64-bit decimal. Every element fits the kind. |
| Getenv.IntsValues | getenv.go:44-51 | A successful integer list has one element per comma-separated part. Element i is part i's uint64 value narrowed to the kind. |
| Getenv.IntsFailure | getenv.go:44-51 | A failing integer list names the key, the raw text and the first part that is not an unsigned 64-bit decimal, with that part's cause. |
| Getenv.IntsInRange | getenv.go:44-51 | When every part's value fits the kind, the list is exactly the parts' decimal values, in order. |
| Getenv.ParseBool | getenv.go:88 | strconv.ParseBool accepts exactly the six true and six false tokens. Anything else is a syntax error. |
| Getenv.Bool | getenv.go:87-89 | Absent key gives the fallback. A present key is true iff it is a true token and false iff it is a false token. Anything else fails with a syntax error. |
| Getenv.IntExamples | getenv_test.go:230-242 | "123" is 123 for every kind. "abc" fails with a syntax error instead of falling back. |
| Getenv.IntsExample | getenv_test.go:252-256 | "123,124" is [123, 124] for every kind. |
| Getenv.IntsFailureExample | getenv_test.go:258-264 | "123,a" fails on part "a" with a syntax error, and no list comes back. |
| Getenv.StringsExample | getenv_test.go:142-146 | "value1,value2" is ["value1", "value2"]. |
| Getenv.BoolScenarios | getenv_test.go:177-188 | Absent with fallback true gives true. "false" gives false. |

## Left out

- Environment lookup (`os.LookupEnv`) is not modelled as I/O. The environment is a map parameter that the model never changes. `Parser.Env` stands for what `os.LookupEnv` reports, so the type excludes the empty name, which `os.LookupEnv` always reports as absent.
- Text that is not valid UTF-8 is out of scope. A Dafny `string` is a sequence of Unicode characters, but a Go string is a sequence of bytes: Go's `String` returns such a value unchanged, and `strconv.ParseUint` reads its bytes, but the model cannot represent it. On valid text nothing else changes, because cutting at ',' and the checks for ASCII digits and for the boolean tokens give the same result on bytes as on characters.
- Panic and recover mechanics are left out. The fatal path is the `Failure` outcome, and the error message text is not modelled; a failure carries only the key, the raw text and a structured cause.
- `Float`, `Floats`, `F64` and `f64tof` are left out: floating-point parsing and narrowing are outside the model.
- `Duration`, `Durations`, `Time` and `JSON` are left out: they hand library parsers (`time.ParseDuration`, `time.Parse`, `encoding/json`) to `Parse` or `List`. Those two are generic over any parser, so the engine's behaviour for these accessors is covered, but the library parsers themselves are not modelled.
- `IntKinds.IntKind` takes int, uint and uintptr to be 64 bits wide. Their width is platform-dependent in Go.
- Kinds defined by the caller with an integer underlying type (`~int` and so on) behave as their underlying kind and are not named separately.
