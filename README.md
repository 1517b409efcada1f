# ezobj benchmark core in Dafny

This project models the three pieces of logic in the JavaScript benchmark of
ezobj, `benchmarks/bench.js`, and proves properties about them. The random
sources are inputs, so everything left is exact integer and string work.

- `uuid.dfy` (module `Uuid`) covers `uuidv4`. It takes the template
  `"10000000-1000-4000-8000-100000000000"` and rewrites every `0`, `1` and `8`,
  left to right, through the callback `c => (+c ^ b & 15 >> +c / 4).toString(16)`.
  Each call to the callback uses one fresh random byte `b`.
  - `Replace` is `String.prototype.replace` with the global pattern `/[018]/g`
    and a callback. It is narrowed to what `uuidv4` uses: the callback
    receives the matched character and that site's byte, and returns exactly
    one character. The bytes are one per site, from the left.
  - `Substitute` is the callback.
  - `Uuidv4` is the whole generator, over a block of 31 bytes.
  - The proofs show what the generator does:
    - The output has 36 characters.
    - The hyphens and the `4` are copied from the template.
    - Every `0` or `1` site becomes `b & 15` or `1 ^ (b & 15)` of its own byte.
    - The `8` site at index 19 takes the sixteenth byte and becomes `8 ^ (b & 3)`.
  - The outputs are exactly the strings of the RFC 4122 version-4 layout
    (sections 4.1.1, 4.1.3 and 4.4). Every such string is produced by some
    byte block.
  - Two blocks give the same identifier exactly when they agree on the bits
    the masks keep: the low 4 bits of every byte, except the low 2 bits of
    the sixteenth.
- `random_int.dfy` (module `RandomInt`) covers `getRandomIntInclusive(min, max)`:
  - It rounds `min` up and `max` down.
  - It adds to the rounded `min` the integer `k == Math.floor(Math.random() * n)`,
    where `n` is the span of the rounded range. `k` is a parameter.
  - `IsDraw(n, k)` holds for exactly the values `Math.floor(u * n)` takes for
    `0 <= u < 1`: `DrawOfUniform` and `UniformOfDraw` prove both directions.
  - The result lies in the rounded range.
  - For integer bounds the result is `min + k`.
  - Each value of the range comes from exactly one draw.
  - The degenerate case, where the rounded range is empty, is modelled too;
    the source does not guard against it.
- `bench.dfy` (module `Bench`) covers `TestingClass` and the loop of `main`:
  - `TestingClass` is a class with fields `value` and `id`.
  - `RunBenchmark` runs the loop from 0 to 10000 inclusive.
  - Each iteration appends `new TestingClass(getRandomIntInclusive(-20000, 20000), uuidv4()).method()`.
  - The method's postcondition gives all 10001 entries of the resulting
    sequence. Each entry is the rendering of a value in [-20000, 20000]
    followed by an identifier of the version-4 layout.

The mask is `15 >> (+c / 4)`: 15 at the `0` and `1` sites and 3 at the `8`
site, so the variant digit is always `8`, `9`, `a` or `b`.

The template is defined position by position (`TemplateChar`). `TemplateText`
proves it equals the literal of the source.

## Model

| member | source | states |
|---|---|---|
| Uuid.Template | benchmarks/bench.js:18 | the template literal, given position by position, has 36 characters |
| Uuid.TemplateText | benchmarks/bench.js:18 | the template, defined by position, is the string literal `10000000-1000-4000-8000-100000000000` |
| Uuid.HexDigit | benchmarks/bench.js:19 | `toString(16)` of a value below 16 is one lowercase hexadecimal digit whose value is that number |
| Uuid.HexDigitOfValue | benchmarks/bench.js:19 | rendering the value of a lowercase hexadecimal digit gives back that digit |
| Uuid.Digit | benchmarks/bench.js:19 | `+c` of a matched character is its decimal value |
| Uuid.Mask | benchmarks/bench.js:19 | `15 >> +c / 4` is 3 for the `8` site and 15 otherwise |
| Uuid.Substitute | benchmarks/bench.js:18-20 | the `replace` callback always returns one lowercase hexadecimal digit |
| Uuid.SiteDigit | benchmarks/bench.js:19 | the callback turns a `0` site into `b & 15`, a `1` site into `1 ^ (b & 15)` and an `8` site into `8 ^ (b & 3)` |
| Uuid.SubstituteAccepted | benchmarks/bench.js:19 | the callback's digit differs from the template digit only in bits the mask lets through |
| Uuid.VariantSite | benchmarks/bench.js:19 | an `8` site can become exactly `8`, `9`, `a` or `b` |
| Uuid.FullSite | benchmarks/bench.js:19 | a `0` or `1` site can become exactly any lowercase hexadecimal digit |
| Uuid.SubstituteSiteByte | benchmarks/bench.js:19 | for every character a site can become, some byte makes the callback return that character |
| Uuid.SiteByteSubstitute | benchmarks/bench.js:19 | the byte read back from the callback's digit is the input byte under the site's mask |
| Uuid.SubstituteKeep | benchmarks/bench.js:19 | the callback depends only on the bits of the byte that the mask keeps |
| Uuid.Sites | benchmarks/bench.js:18 | the matches of `/[018]/g`, in order; there are no more matches than characters |
| Uuid.Replace | benchmarks/bench.js:18-20 | replacing every site with one character each keeps the length of the string |
| Uuid.ReplaceAt | benchmarks/bench.js:18-19 | non-site characters are copied; the site at position `i` is rewritten from the byte whose index is the number of sites to its left (left-to-right consumption) |
| Uuid.ReplaceMatches | benchmarks/bench.js:18-19 | every output keeps the non-site characters and turns each site into a character that site can become |
| Uuid.ReplaceUnfill | benchmarks/bench.js:18-19 | every string of that shape is the output for the bytes read back from it |
| Uuid.KeptBits | benchmarks/bench.js:19 | one byte per site, each the input byte under its site's mask |
| Uuid.UnfillReplace | benchmarks/bench.js:18-19 | reading the bytes back from an output gives exactly the masked input bytes |
| Uuid.ReplaceKeptBits | benchmarks/bench.js:18-19 | masking the input bytes first does not change the output |
| Uuid.TemplateSites | benchmarks/bench.js:18 | the template has 31 sites, 15 of them before index 19; site 15 is the `8`, sites 0, 8 and 19 are `1` and the rest `0` |
| Uuid.TemplateLayout | benchmarks/bench.js:18-19 | a string has the template's shape exactly when it has the version-4 layout (hyphens at 8, 13, 18, 23, `4` at 14, `8`-`b` at 19, hexadecimal digits elsewhere) |
| Uuid.Uuidv4 | benchmarks/bench.js:17-21 | every identifier has 36 characters in the version-4 layout |
| Uuid.Uuidv4Bytes | benchmarks/bench.js:17-21 | every string of the version-4 layout is the identifier of some block of 31 bytes |
| Uuid.Uuidv4Fixed | benchmarks/bench.js:18 | indices 8, 13, 18, 23 and 14 of every identifier are the template's `-` and `4` |
| Uuid.Uuidv4Site | benchmarks/bench.js:18-19 | a `0` site of the template becomes `b & 15`, and a `1` site `1 ^ (b & 15)`, where `b` is the byte numbered by the sites to its left (below 31) |
| Uuid.Uuidv4Variant | benchmarks/bench.js:19 | index 19 becomes `8 ^ (b & 3)` for the sixteenth byte `b` |
| Uuid.Kept | benchmarks/bench.js:19 | the kept bits of a block: the low 4 bits of each byte, except the low 2 bits of byte 15 |
| Uuid.Uuidv4BytesKept | benchmarks/bench.js:17-21 | reading the bytes back from an identifier returns exactly the kept bits of its block |
| Uuid.Uuidv4SameIff | benchmarks/bench.js:17-21 | two blocks give the same identifier if and only if they have the same kept bits |
| RandomInt.Floor | benchmarks/bench.js:13 | `Math.floor` gives the greatest integer not above its argument |
| RandomInt.Ceil | benchmarks/bench.js:12 | `Math.ceil` gives the least integer not below its argument |
| RandomInt.Span | benchmarks/bench.js:14 | `maxFloored - minCeiled + 1` is positive exactly when the rounded range is non-empty |
| RandomInt.DrawOfUniform | benchmarks/bench.js:14 | for every `Math.random()` value `u` in [0, 1), `Math.floor(u * n)` is a draw for `n` |
| RandomInt.UniformOfDraw | benchmarks/bench.js:14 | every draw for `n` is `Math.floor(u * n)` of some `u` in [0, 1), the degenerate range included |
| RandomInt.GetRandomIntInclusive | benchmarks/bench.js:11-15 | the result lies in [ceil(min), floor(max)] when that range is non-empty, and in [floor(max) + 1, ceil(min)] otherwise |
| RandomInt.RoundIntegral | benchmarks/bench.js:12-13 | rounding leaves an integer bound unchanged |
| RandomInt.IntegralBounds | benchmarks/bench.js:12-14 | for integer `min <= max` and a draw `k` in [0, max - min + 1), the span is `max - min + 1` and the result is `min + k`, inside [min, max] |
| RandomInt.EveryValueDrawn | benchmarks/bench.js:12-14 | every integer of [ceil(min), floor(max)] is the result of exactly one draw |
| Bench.TestingClass.constructor | benchmarks/bench.js:2-5 | the constructor stores `value` and `id` unchanged |
| Bench.TestingClass.Method | benchmarks/bench.js:6-8 | `method` returns the rendering of the value followed by exactly `this.id` |
| Bench.Instance | benchmarks/bench.js:27 | the string pushed by one iteration always ends in a 36-character identifier of the version-4 layout |
| Bench.BenchBounds | benchmarks/bench.js:27 | the bounds -20000 and 20000 round to themselves, giving 40001 possible draws |
| Bench.InstanceShape | benchmarks/bench.js:27 | each pushed string is the rendering of a value in [-20000, 20000] followed by a 36-character identifier of the version-4 layout |
| Bench.RunBenchmark | benchmarks/bench.js:25-28 | the loop yields exactly 10001 strings; entry `i` is the string built from iteration `i`'s draws, so each push appends one entry and keeps the earlier ones |

## Left out

- The clock (`performance.now()`), the elapsed time and `console.log` in `main` (benchmarks/bench.js:24, 29-30) are left out. They are I/O and floating point.
- `Math.random()` is replaced by the integer draw `k == Math.floor(u * n)` that it produces.
  - The source computes `Math.floor(u * n + lo)`. For an integer `lo` this is `lo + k` in exact arithmetic.
  - Floating-point rounding of the product and the sum is not modelled.
- `crypto.getRandomValues` is replaced by a block of 31 input bytes per identifier, one per site from the left.
- RandomInt.GetRandomIntInclusive: the bounds are finite reals. NaN, infinities and non-number arguments of JavaScript are not modelled.
- Bench.TestingClass.Method: the text of `toString(this.value)` is a parameter (`render` in `Bench`), so the contract fixes only the `id` suffix.
  - The unqualified `toString` is the global `Object.prototype.toString`. It ignores its argument and does not print the value in decimal.
- Uuid.Digit: a character that is not a site is given the number 0. The pattern never passes one to the callback.
- The `TestingClass` objects are dropped after `method` returns, as in the source. The model keeps only the appended strings, as a sequence rather than a JavaScript array.
- benchmarks/bench.rs is not part of this model. Its only logic calls into the `rand`, `uuid` and `std::time` libraries.
