# go-nanoid sampling engine in Dafny

This project models the Nano ID generators of the Go package go-nanoid
(`nanoid.go`) and proves what they promise. Every generator's factory checks
the ID length first. It then returns a closure that produces one ID per call.

- **`Standard`** (`standard.dfy`) keeps a buffer of `6·length²` crypto-random
  bytes and a cursor `offset`. Each call refills the buffer when the cursor is
  at its end, maps the next `length` bytes through `b & 63` into the 64-unit
  default alphabet, and advances the cursor.
- **`Custom`** (`mask.dfy`, `custom.dfy`) derives a mask
  `(2 << (31 − LeadingZeros32(x))) − 1` with `x` the bitwise OR of `setLen − 1` and 1 and a block size `step`.
  Each call fills the buffer, examines its first `step` bytes, keeps
  `b & mask` when it is below the alphabet size (the code as written compares
  with `byte(setLen)`; see Findings), and refills until `length`
  units are kept.
- **`StandardNonSecure` and `CustomNonSecure`** (`nonsecure.dfy`) draw every
  unit from `prng(n)` (`prng.dfy`). This is a package-wide xorshift generator
  on the 64-bit state `tainer`, seeded once from eight bytes.
- **`invalidLength`** and the factories' error result are in
  `validation.dfy`.
- **Shared pieces** are the default alphabet and the `& 63` index map
  (`alphabet.dfy`), and bytes with bitwise AND on natural numbers
  (`bits.dfy`).

The closures become classes. Their captured variables are fields. The byte
buffer and the output buffer are arrays that the methods update in place.
Random input is a parameter:

- **`Standard`**: the refill bytes are a parameter of the call.
- **`Custom`**: the sequence of buffer contents that successive refills
  deliver is a parameter of the call.
- **Non-secure generators**: they share a `Prng.Source` object that holds
  `tainer`.

Each method is proved against a specification function:

- **`Standard.Encode`** maps the consumed bytes to an ID.
- **`Custom.Accepted` and `Custom.Examined`** filter the masked byte stream.
- **`Prng.Draws`** gives the values of successive `prng(n)` calls.

Separate lemmas prove properties of those functions:

- an ID can be decoded back to the six-bit values it came from;
- the cursor arithmetic;
- the mask is the least all-ones value that covers every index of an alphabet of two or more units;
- the filter distributes over concatenation;
- xorshift is invertible;
- successive draws concatenate.

## Model

| member | source | states |
|---|---|---|
| Validation.InvalidLength | nanoid.go:262-264 | a length is invalid exactly when it is below 2 or above 255; every factory's contract is stated in it |
| Validation.TestedLengths | nanoid_test.go:20-42 | the lengths −1, 1 and 256 are invalid, and 2, 21 and 255 are accepted |
| Alphabet.DefaultAlphabet | nanoid.go:24-41 | the default alphabet has 64 units, unit `k` being the `k`-th of a-z, A-Z, 0-9, '-', '_' |
| Alphabet.DefaultAlphabetTable | nanoid.go:20-41 | the default alphabet has 64 units and is the package's table a-z, A-Z, 0-9, '-', '_' in that order |
| Alphabet.AlphabetIndexInverts | nanoid.go:24-41 | the 64 default units are pairwise distinct: each is recovered from its position |
| Alphabet.Index63 | nanoid.go:96 | `b & 63` is below 64 and equals the byte's residue modulo 64 |
| Alphabet.MaskedIndexUniform | nanoid.go:88-96 | direct masking is unbiased: each index below 64 is hit by exactly four of the 256 byte values |
| Alphabet.Spell | nanoid.go:102 | the returned string has one unit per index, each taken from the alphabet |
| Alphabet.Read | nanoid.go:83 | a refill leaves the buffer holding exactly the bytes the random source delivered |
| Bits.BitAnd | nanoid.go:194 | Go's `&` on non-negative values, bit by bit; the result never exceeds either operand |
| Bits.AndLowOnes | nanoid.go:194 | AND with a mask of `k` low one-bits keeps the value modulo `2^k` |
| Standard.Encode | nanoid.go:87-97 | the ID a call spells from the bytes it consumes: one default-alphabet unit per byte |
| Standard.DecodeEncode | nanoid.go:87-97 | an ID carries exactly the low six bits of each consumed byte: decoding it gives them back |
| Standard.EncodeWellFormed | nanoid.go:87-97 | an ID has one unit per consumed byte, and unit `i` is `defaultAlphabet[b[i] % 64]` |
| Standard.CursorRoom | nanoid.go:96 | with a cursor that is a multiple of `length` and short of the end, `b[i + offset]` is in bounds for every `i < length` |
| Standard.AdvanceKeepsMultiple | nanoid.go:100 | advancing the cursor by `length` keeps it a multiple of `length` |
| Standard.OffsetAfterCalls | nanoid.go:62-64 | after `c >= 1` calls on a buffer of `ids·length` bytes the cursor stands at `((c − 1) mod ids + 1)·length` |
| Standard.RefillsEverySixLengthCalls | nanoid.go:82-85 | a call refills exactly when the calls before it are a positive multiple of `6·length` |
| Standard.StandardGenerator.constructor | nanoid.go:62-72 | the buffer has `6·length²` bytes holding the initial fill, the cursor is 0, and the invariant holds |
| Standard.StandardGenerator.Next | nanoid.go:82-102 | refills (and resets the cursor) exactly when the cursor was at the end, otherwise leaves the buffer unchanged; returns `Encode` of the `length` bytes at the effective cursor; advances the cursor by `length`; keeps `size == 6·length²`, `offset % length == 0` and `offset <= size` |
| Standard.NewStandard | nanoid.go:54-57 | fails with `errInvalidLength` exactly for an invalid length, otherwise returns a fresh generator with cursor 0 |
| Mask.LeadingZeros32 | nanoid.go:175 | the count of zero bits above the highest set bit of a 32-bit value |
| Mask.CoverTarget | nanoid.go:175 | `(uint32(setLen) − 1) OR 1` is odd, fits 32 bits and lies between `setLen − 1` and `setLen` |
| Mask.CustomMask | nanoid.go:175-176 | `mask = (2 << (31 − clz)) − 1` for the cover target; it is at least 1 (that it is all ones and the least cover is `MaskCovers` and `MaskIsLeast`) |
| Mask.MaskCovers | nanoid.go:175-176 | `mask + 1` is a power of two and `setLen − 1 <= x <= mask <= 2x − 1` with `x = (setLen − 1) OR 1` (bitwise) |
| Mask.MaskIsLeastForAlphabet | nanoid.go:175-176 | for an alphabet of at least two units, no all-ones value smaller than `mask` covers every index below `setLen` (a one-unit alphabet gets mask 1 because of the `OR 1`) |
| Mask.MaskIsLeast | nanoid.go:175-176 | no all-ones value smaller than `mask` covers `x` |
| Mask.SmallAlphabetMask | nanoid.go:176 | for alphabets of at most 256 units the mask fits a byte and `mask + 1 <= 2·setLen`, so at least half of the masked values are accepted |
| Mask.Step | nanoid.go:177-178 | `step` is the least whole number at or above `1.6·mask·length / setLen` |
| Mask.StepIsPositive | nanoid.go:177-178 | `step` is at least 1, so every refill examines at least one byte |
| Mask.MaskExamples | nanoid_test.go:55-63 | the tested six-unit alphabet gets mask 7 and `step` 40 for 21-unit IDs; a 64-unit alphabet gets the default mask 63 |
| Custom.Candidate | nanoid.go:194 | the index a byte proposes never exceeds the mask |
| Custom.Examined | nanoid.go:191-193 | the bytes a call examines: the first `step` bytes of each refill, in order, `step` per refill |
| Custom.Accepted | nanoid.go:193-198 | the kept indices are at most as many as the bytes and each is below the alphabet size |
| Custom.AcceptedAppend | nanoid.go:190-204 | what the filter keeps from a stream is what it keeps from each part, in order, so later bytes never change earlier units |
| Custom.FirstAcceptedAreFixed | nanoid.go:199-200 | once a prefix of the stream holds `n` kept indices, they are the first `n` kept indices of every continuation |
| Custom.ExaminedIgnoresTail | nanoid.go:193 | only the first `step` bytes of each refilled buffer affect the result |
| Custom.NothingRejectedAtFullMask | nanoid.go:196 | when the alphabet size exceeds the mask no byte is rejected and unit `k` comes from byte `k` |
| Custom.CompletedWithin | nanoid.go:199-200 | stopping within a block yields the first `length` kept indices of the whole stream |
| Custom.StopsWithin | nanoid.go:197-200 | the units written when the count reaches `length` spell the first `length` kept indices of the whole stream |
| Custom.CustomGenerator.Scan | nanoid.go:193-203 | one pass over `b[:step]` appends `alphabet[b & mask]` for each accepted byte and stops at the first byte that brings the count to `length`: the bytes before it leave the count short |
| Custom.CustomGenerator.Next | nanoid.go:190-204 | refills until `length` bytes have been accepted, using the fewest refills; returns the alphabet units of the first `length` kept indices of the examined stream; the buffer holds the last refill |
| Custom.NewCustom | nanoid.go:162-182 | fails with `errInvalidLength` exactly for an invalid length; otherwise returns a generator whose mask and step are derived from the alphabet size |
| Custom.CustomGenerator.constructor | nanoid.go:167-182 | the generator holds the alphabet, `setLen`, the mask, `step`, a buffer of `6·step²` bytes and an `id` buffer of `length` units, with the invariant established |
| Custom.AcceptsAsWritten | nanoid.go:196 | the test as written: the proposed index is below `setLen` truncated to a byte |
| Custom.AcceptedAsWritten | nanoid.go:193-198 | the indices the loop as written keeps from a byte stream, in order; at most one per byte |
| Custom.AcceptsAsWrittenAgrees | nanoid.go:196 | for alphabets below 256 units the test `idx < byte(setLen)` is the test `idx < setLen` |
| Custom.AsWrittenAgreesBelow256 | nanoid.go:193-198 | for alphabets below 256 units the loop as written keeps exactly the indices of `Accepted` |
| Custom.AsWrittenStarvesAt256 | nanoid.go:196 | with 256 units the test as written keeps nothing from any stream, so a call never returns |
| Custom.AcceptsAllAt256 | nanoid.go:175-176 | with 256 units the mask is 255 and the intended test keeps every byte unchanged |
| Prng.XorShift | nanoid.go:245-247 | one step of the generator: `t ^= t << 13`, `t ^= t >> 7`, `t ^= t << 17` on 64 bits |
| Prng.XorShiftInverts | nanoid.go:245-247 | the xorshift step can be undone, so no two states have the same successor |
| Prng.XorShiftInjective | nanoid.go:245-247 | distinct states step to distinct states |
| Prng.ZeroIsFixed | nanoid.go:245-247 | the zero state is the only state stepping to zero, and it steps to itself |
| Prng.ToInt64 | nanoid.go:251 | `int(tainer)` is a 64-bit signed value that is negative exactly when the top bit is set |
| Prng.MostNegativeOnlyAtTop | nanoid.go:251 | only the word `2^63` reads as the most negative `int` |
| Prng.Neg64 | nanoid.go:254 | `-k` on a 64-bit `int` wraps, so the most negative value stays negative |
| Prng.GoRem | nanoid.go:257 | Go's `%` truncates: the remainder lies strictly between `−n` and `n` and takes the sign of the dividend |
| Prng.PrngAsWritten | nanoid.go:241-258 | `prng(n)` as written: the new state is the xorshift of the old, and the value lies strictly between `−n` and `n` (it can be negative) |
| Prng.Prng | nanoid.go:241-258 | the new state is the xorshift of the old, and the value lies in `[0, n)` |
| Prng.PrngAsWrittenAgrees | nanoid.go:251-257 | the code as written agrees with `Prng` on every state except the one stepping to `2^63`, and there too when `n` divides `2^63` |
| Prng.PrngNegativeAtEdge | nanoid.go:251-257 | from state `0xf9f3c78e1c306081` the code as written returns −8 for `n = 10`; the intended value is 8 |
| Prng.OnlyEdgeStateOverflows | nanoid.go:251-255 | that state is the only one whose successor reads as the most negative `int` |
| Prng.DefaultSizeUnaffected | nanoid.go:148 | for the default alphabet size 64 the overflow never changes the drawn value |
| Prng.Draws | nanoid.go:229-231 | `count` successive calls yield `count` values, each below `n` |
| Prng.DrawsAppend | nanoid.go:241-258 | draws from consecutive calls concatenate into one run from the same starting state |
| Prng.DrawsSnoc | nanoid.go:241-258 | one more call appends one draw and advances the state by one step |
| Prng.BigEndian | nanoid.go:269 | eight bytes read most significant first give a value below `2^64` |
| Prng.Seed | nanoid.go:269 | `binary.BigEndian.Uint64(b)`: the eight bytes read most significant first as a 64-bit word |
| Prng.BigEndianRoundTrip | nanoid.go:269 | writing that value back as eight bytes gives the seed bytes again |
| Prng.Source.constructor | nanoid.go:266-270 | the state is seeded from the eight random bytes |
| Prng.Source.Next | nanoid.go:241-258 | advances the shared state by one xorshift step and returns `Prng` of the old state |
| NonSecure.StandardGenerator.constructor | nanoid.go:122-133 | the buffer holds its initial fill, the cursor is 0 and the shared state is the package's |
| NonSecure.StandardGenerator.Next | nanoid.go:141-153 | the cursor never moves, so the buffer is refilled only if the cursor was at the end; the ID spells `length` draws of `prng(64)` in the default alphabet, and the shared state advances `length` steps |
| NonSecure.CustomGenerator.constructor | nanoid.go:223-226 | the generator holds the alphabet, `length`, an `id` buffer of `length` units and the shared state |
| NonSecure.CustomGenerator.Next | nanoid.go:228-234 | the ID spells `length` draws of `prng(len(runicSet))` in the alphabet, and the shared state advances `length` steps |
| NonSecure.NewStandard | nanoid.go:116-119 | fails with `errInvalidLength` exactly for an invalid length, otherwise returns a fresh generator with cursor 0 |
| NonSecure.NewCustom | nanoid.go:218-226 | fails with `errInvalidLength` exactly for an invalid length, and accepts any alphabet otherwise |

## Left out

- Random sources are not modelled. `crypto/rand.Read` and `math/rand.Read` become parameters that give the bytes delivered. For `Custom` this is the sequence of buffer contents successive refills receive.
- The `sync.Mutex` locks are not modelled. Nor is the claim that `CustomNonSecure` is safe for concurrent use. The model is sequential.
- Custom.CustomGenerator.Next: the source loops until enough bytes are accepted and may never return. The model requires that the supplied blocks contain `length` acceptable bytes among their examined prefixes. It proves the call uses the fewest blocks that do.
- Mask.Step: the source computes `step` in floating point as `ceil(1.6·mask·length / setLen)`. The model uses the exact rational ceiling `ceil(8·mask·length / (5·setLen))`. If rounding of `1.6` made the float result land just above a whole number, the source's `step` would be one larger.
- Custom.NewCustom requires an ASCII alphabet of 1 to 256 units. The reasons:
  - `setLen` counts bytes while `runicSet` counts runes, and UTF-8 decoding is not modelled.
  - With an empty alphabet the float division in the `step` formula gives +Inf, and `int(math.Ceil(+Inf))` is not defined by the language.
  - Above 256 units only the first `setLen mod 256` units can be chosen.
- NonSecure.CustomGenerator.Next requires a non-empty alphabet, because `prng(0)` divides by zero.
- The model assumes Go's `int` is 64 bits wide, as `int(tainer)` then is.
- The seeding in `init` is modelled as the `Prng.Source` constructor taking the eight bytes. Which bytes the crypto source returns is not modelled.
- Statistical properties are not modelled: the flat distribution and the absence of collisions that the tests sample. Nor are the benchmarks or `examples/example.go`.

## Findings

| source | as written | input that shows it | evidently intended | confidence | as-written member | corrected member |
|---|---|---|---|---|---|---|
| nanoid.go:251-257 | `k = -k` on a 64-bit `int` leaves the most negative value negative, and `k % n` then keeps the sign, so `prng(n)` can return a negative index | state `0xf9f3c78e1c306081` steps to `2^63`; `prng(10)` returns −8 and `runicSet[-8]` panics in `CustomNonSecure` | `prng(n)` returns a value in `[0, n)` for every state | not executed | Prng.PrngNegativeAtEdge | Prng.Prng |
| nanoid.go:196 | `idx < byte(setLen)` truncates the alphabet size to a byte | a 256-unit alphabet: `byte(256)` is 0, no byte is accepted and every call loops forever | accept `idx` when it is below the alphabet size | not executed | Custom.AsWrittenStarvesAt256 | Custom.AcceptsAllAt256 |

The generators use the corrected definitions.

- `Prng.Source.Next` takes the absolute value without wrapping. `Prng.OnlyEdgeStateOverflows` and `Prng.PrngAsWrittenAgrees` show that this differs from the code as written at one state only. They also show it never differs for the default alphabet.
- `Custom.CustomGenerator` compares against the full alphabet size. By `Custom.AsWrittenAgreesBelow256`, this keeps exactly what the code as written keeps for every alphabet below 256 units.
