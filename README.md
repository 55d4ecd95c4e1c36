# gopherbouncealgs scrypt core in Dafny

This project models the scrypt part of the gopherbouncealgs password-hashing
library (Go) and proves properties of the model:

- `utils.dfy` (module `Utils`) — `Pow`, the square-and-multiply integer power
  over Go's `int64` that wraps on overflow, proved to return `base^exp`
  reduced to signed 64-bit two's complement; the behaviour of `Pow(2, e)` on
  every non-negative exponent (exact up to 62, `MinInt64` at 63, 0 from 64
  on); why a negative exponent never ends the loop; and the boolean result of
  `CompareHashes`.
- `scrypt.dfy` (module `Scrypt`) — `ScryptConf` as a class whose `SetRounds`
  changes only `rounds` and `n` and keeps `n == 2^rounds`, `n > 0` (falling
  back to 16 / 65536), `Copy` that allocates, the package's
  `DefaultScryptConf`, and `ScryptHasher`, whose constructor shares the
  config it is given (or the default) while its `Copy` does not.
- `errors.dfy` (module `Errors`) — the messages of `SyntaxError`,
  `VersionError` and `PasswordMismatchError`.
- `fmt.dfy` (module `Fmt`) — the parts of Go's `fmt` and `strings` these
  messages use: `%d` on integers (with its inverse), `strings.Join`, and `%s`
  on a `[]string` (elements separated by spaces, in brackets).

Go's `int` is taken to be 64 bits wide and is modelled, like `int64`, by the
newtype `Utils.int64`; the wrap-around of `*=` is written out as `Wrap64`, the
unique `int64` congruent to the exact product modulo 2^64. `exp & 1` is the
non-negative remainder modulo 2 and `exp >>= 1` is division by 2 rounded
down, which is what both operators do on two's-complement values.

The package-level variable `DefaultScryptConf` is a field of the class
`Scrypt.Globals`, whose constructor is the package initialiser and which
`NewScryptHasher` receives as a parameter. The embedded `*ScryptConf` of
`ScryptHasher` is its field `conf`.

`NewScryptHasher` shares the config object it is given (or the global
default), and `SetRounds` mutates it in place; the fallback to 16 rounds is
taken whenever the wrapped power is not positive, which
`Scrypt.CostForFallbackIff` shows is exactly when rounds exceeds 62.

## Model

| member | source | states |
|---|---|---|
| `Utils.Pow` | utils.go:23-37 | for every `exp >= 0`, the result is `base^exp` reduced to signed 64-bit two's complement, although every intermediate product wraps |
| `Utils.Wrap64` | utils.go:28-34 | the wrapped result of an `int64` multiplication is the `int64` congruent to the exact product modulo 2^64 |
| `Utils.MulCongruent` | utils.go:28-34 | reduction modulo 2^64 respects multiplication, so wrapping intermediate products does not change the wrapped final product |
| `Utils.WrapUnique` | utils.go:28-34 | two values of the `int64` range congruent modulo 2^64 are equal: the wrapped value is unique |
| `Utils.LowBit` | utils.go:27 | `exp & 1` is 0 or 1 and, with `exp >> 1`, recomposes `exp` as `2 * (exp >> 1) + (exp & 1)` |
| `Utils.ShiftRight1` | utils.go:30 | `exp >> 1` is `exp / 2` rounded towards minus infinity |
| `Utils.MultiplyStep` | utils.go:27-30 | folding the low bit into the accumulator keeps `acc * base^exp` invariant up to wrapping |
| `Utils.SquareStep` | utils.go:34 | replacing `base * base` by its wrapped value keeps `acc * base^exp` invariant up to wrapping |
| `Utils.NegativeExponentNeverZero` | utils.go:30-33 | a negative exponent stays negative under any number of shifts, so the loop's exit `exp == 0` is never reached |
| `Utils.PowZeroExponent` | utils.go:25-32 | `Pow(b, 0) == 1` for every base |
| `Utils.PowZeroBase` | utils.go:25-32 | `Pow(0, e) == 0` for every `e >= 1` |
| `Utils.PowTestVectors` | tests/utils_test.go:27-30 | `Pow(42, 0) == 1`, `Pow(0, 42) == 0`, `Pow(2, 8) == 256`, `Pow(10, 10) == 10000000000` |
| `Utils.PowTwoExact` | utils.go:24-37 | for `0 <= e <= 62`, `Pow(2, e)` is exactly `2^e` and positive |
| `Utils.PowTwo63` | utils.go:24-37 | `Pow(2, 63)` wraps to `MinInt64` |
| `Utils.PowTwoVanishes` | utils.go:24-37 | `Pow(2, e) == 0` for every `e >= 64` |
| `Utils.PowTwoPositiveIff` | utils.go:24-37 | for `e >= 0`, `Pow(2, e) > 0` exactly when `e <= 62` |
| `Utils.CompareHashes` | utils.go:46-51 | true exactly when both byte sequences have the same length and the same byte at every position |
| `Utils.CompareHashesReflexive` | utils.go:49-51 | every hash compares equal to itself |
| `Utils.CompareHashesSymmetric` | utils.go:49-51 | the comparison does not depend on the order of its arguments |
| `Utils.CompareHashesLengthMismatch` | utils.go:49-51 | hashes of different lengths compare unequal |
| `Utils.CompareHashesTestVectors` | tests/utils_test.go:45-46 | "abcd" equals "abcd" and differs from "abc" |
| `Scrypt.CostFor` | scrypt.go:70-80 | the rounds and N that `SetRounds` stores always satisfy `N > 0` and `N == 2^rounds` |
| `Scrypt.CostForKeepsRounds` | scrypt.go:70-80 | for `0 <= rounds <= 62` the rounds are kept and `N == 2^rounds` (0 rounds give N = 1) |
| `Scrypt.CostForFallsBack` | scrypt.go:72-77 | for `rounds >= 63` the power is not positive and 16 / 65536 is stored instead |
| `Scrypt.CostForFallbackIff` | scrypt.go:71-77 | the fallback replaces the rounds exactly when they exceed 62 |
| `Scrypt.ScryptConf.constructor` | scrypt.go:28-30 | the struct literal stores all five fields as given |
| `Scrypt.ScryptConf.SetRounds` | scrypt.go:69-80 | the new rounds and N are `CostFor(rounds)`, the config is valid afterwards, and only `rounds` and `n` change |
| `Scrypt.ScryptConf.Copy` | scrypt.go:43-52 | returns a freshly allocated config with all five fields equal |
| `Scrypt.ScryptConf.GetN` | scrypt.go:59-62 | returns N, which for a valid config is positive and `2^rounds` |
| `Scrypt.ScryptConf.GetRounds` | scrypt.go:64-67 | returns the rounds, which for a valid config are the exponent of N |
| `Scrypt.ScryptConf.String` | scrypt.go:54-57 | the text starts with `&{rounds: ` and ends with `}`; each piece of `&{rounds: %d, R: %d, P: %d, KeyLen: %d}` sits at its offset, and its four decimal pieces read back as rounds, R, P and KeyLen |
| `Scrypt.StringIgnoresN` | scrypt.go:54-57 | N is not part of the text: configs that agree on rounds, R, P and KeyLen print alike |
| `Scrypt.NewScryptConf` | scrypt.go:32-41 | returns a fresh, valid config whose rounds and N are `CostFor(rounds)` and whose R, P and KeyLen are stored unchecked |
| `Scrypt.Globals.constructor` | scrypt.go:82-83 | `DefaultScryptConf` is a fresh config with rounds 16, N 65536, R 8, P 1, KeyLen 64 |
| `Scrypt.ScryptHasher.constructor` | scrypt.go:96-99 | the hasher holds the config object it is given |
| `Scrypt.ScryptHasher.Copy` | scrypt.go:109-112 | returns a fresh hasher around a fresh config with all five fields equal |
| `Scrypt.NewScryptHasher` | scrypt.go:101-107 | the hasher wraps the given config object itself, or the very `DefaultScryptConf` object when none is given |
| `Scrypt.DefaultIsShared` | scrypt.go:101-107 | for any rounds `r >= 0`, setting them through a hasher built without a config gives the package default the cost `CostFor(r)`, its R, P and KeyLen unchanged |
| `Scrypt.CopiedHasherIsIndependent` | scrypt.go:109-112 | for any rounds `r >= 0`, setting them through a copy of that hasher gives its fresh config `CostFor(r)` and leaves the package default unchanged |
| `Scrypt.GivenConfIsShared` | scrypt.go:101-107 | for any rounds `r >= 0`, setting them through a hasher built with a config changes that caller's config to `CostFor(r)` |
| `Scrypt.CopyIsIndependent` | scrypt.go:43-52 | for any rounds `r >= 0`, setting them on a copy gives the copy `CostFor(r)` and leaves the original config unchanged |
| `Fmt.Digits` | scrypt.go:56 | the decimal digits of a natural number are all digits and have no leading zero |
| `Fmt.DigitsRoundTrip` | scrypt.go:56 | reading back the decimal digits of a natural number yields the number |
| `Fmt.FormatIntRoundTrip` | scrypt.go:56 | `%d` output is a well-formed decimal that reads back as the integer printed |
| `Fmt.FormatInt` | scrypt.go:56 | `%d` output is a well-formed decimal that starts with `-` exactly for negative integers |
| `Fmt.Concat` | scrypt.go:56 | the pieces of a filled-in format string, one after the other, have their total length |
| `Fmt.OffsetStep` | scrypt.go:56 | the first piece starts at 0, each piece starts where the one before ends, and the last ends where the text does |
| `Fmt.ConcatPieces` | scrypt.go:56 | every piece can be read back from the text at its offset |
| `Fmt.FormatIntInjective` | scrypt.go:56 | different integers print differently |
| `Fmt.Join` | errors.go:64 | `strings.Join` gives "" for no elements, otherwise starts with the first element and has the length of the elements plus the separators between them |
| `Fmt.JoinAppend` | errors.go:64 | joining one more element appends the separator and that element |
| `Fmt.FormatStrings` | errors.go:62 | `%s` on a `[]string` is the elements joined by spaces, between `[` and `]` |
| `Fmt.FormatSingleString` | errors.go:62 | `%s` on a one-element slice is that element in brackets |
| `Errors.SyntaxError.Error` | errors.go:30-33 | the message is "Syntax error: " followed by the cause, which can be read back from it |
| `Errors.SyntaxError.String` | errors.go:35-38 | the string form equals the message |
| `Errors.NewSyntaxError` | errors.go:25-28 | the cause is stored as given |
| `Errors.SyntaxErrorMessageInjective` | errors.go:30-33 | two syntax errors with the same message have the same cause |
| `Errors.VersionError.Body` | errors.go:60-65 | the body starts with "Invalid algorithm version, expected " and ends with ", got " followed by the version found, whatever the number of expected versions |
| `Errors.VersionError.Error` | errors.go:58-70 | an empty prefix gives "Algorithm error: " + body, any other prefix gives prefix + ": " + body, and the message always ends with the version found |
| `Errors.NewVersionError` | errors.go:47-56 | prefix, expected versions and found version are stored as given |
| `Errors.VersionErrorOneExpected` | errors.go:61-62 | with one expected version the body is "Invalid algorithm version, expected [v], got g" |
| `Errors.VersionErrorNoneExpected` | errors.go:63-64 | with no expected version the body is "Invalid algorithm version, expected one of , got g" |
| `Errors.VersionErrorMoreExpected` | errors.go:63-64 | with two or more expected versions they are listed in order separated by ", " after "expected one of " |
| `Errors.PasswordMismatchError.Error` | errors.go:81-84 | the message is always "gopherbouncealg: Passwords do not match" |
| `Errors.NewPasswordMismatchError` | errors.go:76-79 | the returned error renders "gopherbouncealg: Passwords do not match" |
| `Errors.MismatchCarriesNothing` | errors.go:72-84 | all mismatch errors, including the one `NewPasswordMismatchError` returns, are the same value and render the same text |

## Left out

- `GenSalt` (utils.go:39-44) reads from the operating system's secure random source; only the length of its buffer is determined by the code, so it is not modelled.
- `ScryptHasher.key` (scrypt.go:114-118) calls the external scrypt key-derivation function and is not modelled; as written it also reads `h.N` while the struct's field is the unexported `n`.
- The constant-time behaviour of `CompareHashes` cannot be stated in Dafny; only its boolean result is modelled.
- `Scrypt.ScryptConf.SetRounds`: requires `rounds >= 0`, because with a negative value the call to `Pow` never returns (`Utils.NegativeExponentNeverZero`); the same requirement is on `Scrypt.NewScryptConf`, `Scrypt.CostFor` and `Utils.Pow`.
- The `log.Printf` call in `SetRounds` (scrypt.go:74) is logging and is not modelled.
- `int(pow)` (scrypt.go:72) is the identity because a 64-bit `int` is assumed; truncation on 32-bit platforms is not modelled.
- `DefaultScryptConf` is a package variable that callers may reassign, even to nil; the model keeps it as a non-null field of `Scrypt.Globals`, and a hasher whose config is nil (on which `Copy` would fail) cannot be built.
- `ScryptData` (scrypt.go:89-94) is a plain struct without behaviour, and hasher.go declares only the `Hasher` and `Validator` interfaces; neither is modelled.
- The encoded-hash format, its version tag and the bodies of `Generate` and `Compare` are not part of this model: they are not in these source files.
