# kCTF proof of work, modelled in Dafny

This project models the library side of the `kctf` crate: the proof-of-work
scheme of Google's kCTF. A challenge is a 32-bit difficulty and a start value.
The solver takes `difficulty` modular square roots in turn, each round
`v := (v^e mod p) XOR 1`, with modulus `p = 2^1279 - 1` and exponent
`e = 2^1279 / 4 = (p + 1) / 4`. The verifier undoes each round with one cheap squaring,
`c := (c XOR 1)^2 mod p`, and accepts `value` or `p - value`. Challenges travel
as `s.<base64 difficulty>.<base64 value>` and solutions as `s.<base64 value>`.

Modules, one file each:

- `wrappers.dfy`: `Option` and `Result`.
- `bytes.dfy`: big-endian conversions between bytes and naturals, which are
  `from_digits` / `to_digits` with most-significant-first order, and
  `u32::to_be_bytes` / `from_be_bytes`.
- `base64.dfy`: the base64 engine configured at `src/lib.rs:47-53`. It uses the
  standard alphabet of section 4 of RFC 4648. Encoding always pads. Decoding is
  indifferent to padding and allows trailing bits.
- `split.dfy`: `str::split('.')`, as a function and as the iterator class the
  decoders consume (`Next`, `Collect`).
- `codec.dfy`: the error enum, the challenge datatype, `from_challenge`,
  `serialize_challenge` and `decode_solution`, with their characterisations
  and round trips.
- `squaring.dfy`: XOR 1, the solve and verify steps over an odd modulus, and
  the proof that the verify chain undoes the solve chain up to sign.
- `params.dfy`: `KctfParams::new` and the shared parameter constants.
- `engine.dfy`: `gen_challenge`, `solve`, `verify`, `async_solve` and
  `async_verify`, and the theorem that a solution verifies.

`from_challenge`, `decode_solution`, `solve` and `verify` are methods that
follow the source's loops, its split iterator and its four-byte buffer. Each
is proved equal to a specification function, and the properties are lemmas
about those functions. `KctfPow` is a value: `solve` consumes a clone and
`verify` only reads it.

## Model

| member | source | states |
|---|---|---|
| Params.ParamsFromBits | src/lib.rs:37-44 | with N = 2^bits, the modulus is N - 1 and the exponent N / 4, so modulus + 1 == 4 * exponent and the modulus is odd |
| Params.NewParams | src/lib.rs:37-44 | the kCTF parameters for 1279 bits: modulus + 1 == 2^1279 == 4 * exponent, with an odd modulus |
| Params.SixteenBytesBelowModulus | src/lib.rs:158-165 | every 16-byte big-endian start value is below the modulus |
| Bytes.FromDigits | src/lib.rs:137 | the big-endian value of n bytes is below 2^(8n) |
| Bytes.ToDigits | src/lib.rs:153 | the minimal big-endian bytes: empty exactly for 0, never a leading zero byte |
| Bytes.FromToDigits | src/lib.rs:153 | reading back the minimal bytes of n gives n |
| Bytes.FromDigitsLeadingZeros | src/lib.rs:130-132 | zero bytes in front do not change the value, so left-padding the difficulty is harmless |
| Bytes.FromDigitsZero | src/lib.rs:122-124 | a byte string has value 0 exactly when every byte is zero |
| Bytes.FromDigitsAppend | src/lib.rs:121-133 | the value of a + c is value(a) * 2^(8\|c\|) + value(c) |
| Bytes.PrefixValue | src/lib.rs:121-126 | a non-zero byte in the high part is exactly a value that does not fit in the low part's width |
| Bytes.ToBeBytes | src/lib.rs:172 | `u32::to_be_bytes` gives exactly four bytes |
| Bytes.FromBeBytes | src/lib.rs:128 | `u32::from_be_bytes` is the big-endian value of the four bytes |
| Bytes.ToFromBeBytes | src/lib.rs:128 | the four bytes of d read back as d |
| Base64.Symbol | src/lib.rs:48 | each 6-bit value maps to an alphabet symbol |
| Base64.ValueOf | src/lib.rs:48 | each alphabet symbol has a 6-bit value, and `Symbol` inverts it |
| Base64.Encode | src/lib.rs:51 | padded output has length 4 * ceil(n / 3) and never contains `.` |
| Base64.StripPadding | src/lib.rs:52 | the body is a prefix that does not end in `=`, and everything after it is `=` |
| Base64.DecodeEncode | src/lib.rs:47-53 | decoding the padded encoding gives the bytes back |
| Base64.DecodeUnpadded | src/lib.rs:52 | the same encoding without its padding decodes to the same bytes |
| Base64.UnpaddedDecodes | src/lib.rs:52 | symbols of a decodable length decode without any padding |
| Base64.ForeignCharacterRejected | src/lib.rs:68-73 | any character that is neither a symbol nor `=` makes decoding fail |
| Base64.LoneSymbolRejected | src/lib.rs:47-53 | a single symbol, with or without `=`, is a decode error |
| Base64.TrailingBitsIgnored | src/lib.rs:50-52 | after any whole groups and with none, one or two `=`, a final two symbols whose last differs only in its low four bits decode alike, to the groups' bytes and one more |
| Base64.TrailingBitsIgnoredThree | src/lib.rs:50-52 | after any whole groups and with none or one `=`, a final three symbols whose last differs only in its low two bits decode alike, to the groups' bytes and two more |
| Base64.DecodeSymbolsAppend | src/lib.rs:52 | after whole groups of four symbols, the rest decodes on its own: decoding distributes over the concatenation |
| Base64.PaddingAccepted | src/lib.rs:52 | symbols of a decodable length followed by no `=`, or by `=` that stays inside the last group, decode to the symbols' bytes |
| Base64.TailDecodes | src/lib.rs:52 | whole groups, a final two or three symbols and the padding that fits after them decode to the groups' bytes and then the tail's |
| Base64.EncodeThreeBytes | src/lib.rs:51 | the bytes 00 05 39 encode as `AAU5` |
| Base64.EncodeOneByte | src/lib.rs:51 | the byte 0xff encodes as `/w==`, padded to a full group |
| StrSplit.Split | src/lib.rs:98 | at least one piece, and no piece contains `.` |
| StrSplit.JoinSplit | src/lib.rs:98 | splitting loses nothing: joining the pieces with `.` gives the text |
| StrSplit.SplitJoin | src/lib.rs:168-175 | gluing dot-free pieces with `.` and splitting gives the pieces |
| StrSplit.SplitCount | src/lib.rs:105-110 | there is one more piece than there are dots |
| StrSplit.FirstPieceIs | src/lib.rs:101 | the first piece is `c` exactly when the text is `c` or starts with `c.` |
| StrSplit.SplitIter.Next | src/lib.rs:101 | hands out the next piece and advances, or gives None at the end |
| StrSplit.SplitIter.Collect | src/lib.rs:105 | returns every piece not yet handed out, in order, and exhausts the iterator |
| Codec.FromDifficultyAndValue | src/lib.rs:91-93 | keeps both fields, and the challenge survives serialization and decoding |
| Codec.SerializeChallenge | src/lib.rs:168-175 | splits into exactly the version, the encoded four difficulty bytes and the encoded minimal value bytes |
| Codec.SolutionText | src/lib.rs:150-154 | splits into exactly the version and the encoded minimal value bytes |
| Codec.FromChallenge | src/lib.rs:97-139 | the split-iterator and decode loop returns exactly `ParseChallenge` |
| Codec.DifficultyOf | src/lib.rs:121-133 | the width check and zero-filled four-byte buffer return exactly `DifficultyFromBytes` |
| Codec.AnyNonZero | src/lib.rs:122-124 | true exactly when some byte is non-zero |
| Codec.DecodeSolution | src/lib.rs:227-251 | the three `next` calls return exactly `ParseSolution` |
| Codec.ChallengeRoundTrip | src/lib.rs:168-175 | for every u32 difficulty and natural value, decoding the serialized challenge gives it back |
| Codec.FourBytesDifficulty | src/lib.rs:130-132 | the four serialized difficulty bytes decode to the same difficulty |
| Codec.SolutionRoundTrip | src/lib.rs:227-251 | the solver's text decodes to its final value |
| Codec.ChallengeVersion | src/lib.rs:98-103 | UnknownVersion exactly when the text is not `s` and does not start with `s.`, whatever follows |
| Codec.SolutionVersion | src/lib.rs:228-231 | the same version characterisation for solutions |
| Codec.ChallengeFormat | src/lib.rs:105-110 | with the right version, FormatError exactly when the text does not have two dots |
| Codec.SolutionFormat | src/lib.rs:233-248 | with the right version, FormatError exactly when there is no dot, or there are several and the second piece decodes; a bad second piece is a DecodeError first |
| Codec.SolutionDecodeError | src/lib.rs:233-240 | with the right version, DecodeError exactly when there is a second piece and it does not decode, whatever follows it |
| Codec.ChallengeDecodeError | src/lib.rs:112-116 | with the right version and two dots, DecodeError exactly when the difficulty piece or the value piece does not decode |
| Codec.ForeignPieceChallenge | src/lib.rs:112-116 | a well-shaped challenge with a foreign character in either piece is a DecodeError |
| Codec.DifficultyShort | src/lib.rs:129-132 | at most four bytes give their big-endian value |
| Codec.DifficultyTooLarge | src/lib.rs:121-127 | LargeDifficulty exactly when the decoded value is 2^32 or more |
| Codec.FirstFourBytesRead | src/lib.rs:128 | as written, bytes 00 00 00 05 39 (value 1337) give difficulty 5 |
| Codec.IntendedDifficultyFromBytes | src/lib.rs:121-133 | corrected reading: Ok is the decoded value itself, and it is an error exactly when the value needs more than 32 bits |
| Codec.DifficultyReadingsAgree | src/lib.rs:121-133 | the as-written and corrected readings agree on every segment of at most four bytes |
| Codec.ExampleDifficulty | src/lib.rs:5 | `AAU5` decodes to 00 05 39, which is difficulty 1337 |
| Codec.EmptyChallenge | src/lib.rs:98-103 | the empty text is UnknownVersion |
| Codec.ForeignVersionChallenge | tests/kctf_tests.rs:14-19 | the `v.`-tagged test challenge is UnknownVersion |
| Codec.OnePieceChallenge | src/lib.rs:105-110 | a challenge with one encoded piece is a FormatError |
| Codec.SemicolonChallenge | tests/kctf_tests.rs:30-35 | the test challenge with `;` in its difficulty is a DecodeError |
| Codec.OnePieceSolution | src/lib.rs:227-251 | `s.` followed by one decodable dot-free piece decodes to that piece's value |
| Codec.InvalidSolutionDecodes | src/lib.rs:14 | `s.invalid` decodes as a solution, so verifying it is Ok and not an error |
| Squaring.XorOne | src/lib.rs:147 | `x ^= 1` keeps x / 2 and flips the parity |
| Squaring.XorOneInvolution | src/lib.rs:147 | flipping the lowest bit twice is the identity |
| Squaring.XorOneComplement | src/lib.rs:186-187 | for odd p and x <= p, (p - x) XOR 1 == p - (x XOR 1) |
| Squaring.PowMod | src/lib.rs:146 | `pow_mod` lands below the modulus |
| Squaring.StepBack | src/lib.rs:178-188 | under the square-root property, one verify step undoes one solve step up to sign |
| Squaring.ChainBack | src/lib.rs:178-188 | n verify steps from anything equal up to sign to the n-step solve result reach the start value up to sign |
| Squaring.SolveThenVerify | src/lib.rs:142-188 | for a start value below the odd modulus, the verify chain over the solve chain ends on the value or modulus minus the value |
| Engine.GenChallenge | src/lib.rs:158-165 | keeps the difficulty, takes the bytes' big-endian value, and the value is below the modulus |
| Engine.Solve | src/lib.rs:142-155 | the loop computes `difficulty` solve steps and encodes the result; at difficulty 0 it encodes the start value |
| Engine.Verify | src/lib.rs:178-188 | the loop returns exactly the verify outcome; it is Err exactly when `decode_solution` fails |
| Engine.CheckCandidate | src/lib.rs:181-187 | the loop over a decoded candidate answers whether `difficulty` verify steps end on the value or modulus minus the value |
| Engine.AsyncCheckCandidate | src/lib.rs:212-220 | the awaited-round loop gives the same answer as the blocking one |
| Engine.AsyncSolve | src/lib.rs:190-206 | the per-round awaited loop gives the same text as `solve` |
| Engine.AsyncVerify | src/lib.rs:209-221 | the per-round awaited loop gives the same outcome as `verify` |
| Engine.SolveRound | src/lib.rs:192-197 | one async solve round: flipping the lowest bit back gives v^e mod p |
| Engine.VerifyRound | src/lib.rs:213-216 | one async verify round is (c XOR 1)^2 mod p, below the modulus |
| Engine.VerifyAcceptsSolution | src/lib.rs:142-188 | under the square-root property, verifying the solver's text gives Ok(true) for every value below the modulus |
| Engine.GeneratedChallengeVerifies | tests/kctf_tests.rs:46-57 | every generated challenge, at any difficulty, verifies against its own solution |
| Engine.VerifyAcceptsNegation | src/lib.rs:186-187 | a candidate whose chain ends on modulus minus the value is accepted |

## Left out

- `thread_rng` in `gen_challenge`: the sixteen random bytes are a parameter of `Engine.GenChallenge`.
- The `once_cell::Lazy` static: the parameters are module constants built once by `Params.NewParams`.
- Async scheduling: `AsyncSolve` and `AsyncVerify` model the awaited blocks as method calls. Their results equal the blocking versions, and interleaving with other tasks is not modelled.
- Euler's criterion for the prime 2^1279 - 1 is not proved. `Squaring.SquareRootProperty` states it as a hypothesis of every lemma about solve-then-verify. Everything else in that chain is proved for a general odd modulus.
- The `rug` and `base64` crates are specified by what they compute. Big-endian digits, `x^e mod m` as an unbounded power taken modulo m, and the decoding rules of the configured engine are written out. Their internals and performance are not modelled.
- The base64 decoding model follows the engine's documented leniency: no padding, or `=` that stays inside the last group after two or three symbols, and trailing bits allowed. Error kinds are collapsed to a single failure, because `src/lib.rs` maps every decode error to `DecodeError`.
- `KctfPow.value` is a natural: negative `Integer`s given to `from_difficulty_and_value` are not modelled (the source would serialize their magnitude).
- The 1279-bit test vector of `src/lib.rs:5-13` and `tests/kctf_tests.rs:8-11` is not evaluated. Only its difficulty piece is (`Codec.ExampleDifficulty`). That `s.invalid` verifies to `Ok(false)` for the example challenge likewise needs that computation; only the `Ok` is proved.
- The LargeDifficulty test vector `tests/kctf_tests.rs:38-43` is not evaluated. It is covered by `Codec.DifficultyTooLarge` for every input.
- `src/main.rs` (CLI, stdin/stdout, exit codes, timing), `benches/kctf_benchmark.rs` and `dist/pow.py` (download and exec) are not part of this model.

## Findings

| source | as written | input that shows it | evidently intended | confidence | as-written member | corrected member |
|---|---|---|---|---|---|---|
| src/lib.rs:128 | with more than four decoded bytes and only zeros before the last four, the difficulty is read from the FIRST four bytes, `decoded_difficulty[..4]` | bytes 00 00 00 05 39 (value 1337, base64 `AAAABTk=`) give difficulty 5 | read the last four bytes, `decoded_difficulty[len - 4..]`, so the difficulty is the decoded value whenever it fits in 32 bits | high (not executed) | Codec.FirstFourBytesRead | Codec.IntendedDifficultyFromBytes |

`Codec.FromChallenge` and `Codec.ParseChallenge` keep the code's reading, so they model the library as it behaves. The corrected reading is `Codec.IntendedDifficultyFromBytes`. `Codec.DifficultyReadingsAgree` shows that the two readings agree on every segment of at most four bytes. That covers everything `serialize_challenge` emits, so the round trip is unaffected.
