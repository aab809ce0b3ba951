# CompactBinaryDemo in Dafny

This project models the core of CompactBinaryDemo. That core is a bijective binary code for non-negative
integers, built on `BitArray` extension methods. The model has three modules:

- `BitValue` (`bit_value.dfy`) gives a bit vector its arithmetic meaning.
  - A bit vector is a `seq<bool>` with the least significant bit at index 0.
  - `Value(b)` is the sum of `b[i]·2^i`.
  - It also holds the facts the other modules need: concatenation scales the high part by `2^|a|`, a vector of n bits stays below `2^n`, minimal representations are unique, and `BitLength`.
- `Extensions` (`extensions.dfy`) models `CompactBinaryDemo/Extensions.cs`.
  - It covers ripple-carry increment, ripple-borrow decrement, repeated add and subtract, trim, slice, concat, append, reverse, Hamming weight, flip, equality and the text form.
  - It also covers the unsigned little-endian conversions between integers, bytes and bits.
- `CompactBinary` (`compact_binary.dfy`) models `CompactBinaryDemo/CompactBinary.cs`.
  - Encode adds the bias 2, takes the minimal bits, keeps bit 0, inverts the interior bits and drops the top bit, which is always set.
  - Decode keeps bit 0, inverts the rest, appends a set top bit and subtracts 2 by two decrements.

`BitArray` is a .NET reference type. Apart from `Flip`, the operations build a new array and return it,
except on a few short paths that hand back the argument instance itself (listed under "## Left out"). So those
operations are methods that take a `seq<bool>` and return one. Inside, they keep the source's
loops over a local `array<bool>` or over a growing list. `Flip` changes its argument in place, so it is a
method over an `array<bool>` with a `modifies` clause.

Each looping method is proved equal to a specification function. `Encode` adds the bias with `Add` and then runs the loop, which is the method `CompactBits`:

| method | specification function |
|---|---|
| `Increment` | `Inc` |
| `Decrement` | `Dec` |
| `Add` | `Plus` |
| `Subtract` | `Minus` |
| `TrimEnd` | `Trimmed` |
| `Slice` | `Sliced` |
| `Reverse` | `Reversed` |
| `Hamming` | `Weight` |
| `CompactBits` | `Compacted` |
| `Decode` | `Decoded` |

Lemmas then state what those functions mean. The codec lemmas give these results:

- Every `v ≥ 0` decodes back to `v`.
- Every non-empty bit string is the codeword of exactly one integer.
- The codeword length is `BitLength(v + 2) − 1`, which does not decrease as `v` grows.
- `Encode(0) = "0"`, `Encode(1) = "1"` and `Encode(2) = "01"`, with index 0 written first.

`Decode` returns the decoded `BitArray`; `ToIntegerCb` turns it into the integer.

## Model

| member | source | states |
|---|---|---|
| `Extensions.Inc` | CompactBinaryDemo/Extensions.cs:165-194 | the ripple-carry successor raises the value by exactly 1; its length is unchanged when some bit is clear and grows by one otherwise; the result always has a set bit |
| `Extensions.IncLowestZero` | CompactBinaryDemo/Extensions.cs:171-187 | with k the lowest clear bit, increment clears bits 0..k-1, sets bit k and leaves every bit above k unchanged |
| `Extensions.IncAllOnes` | CompactBinaryDemo/Extensions.cs:189-191 | when every bit is set, increment gives all zeros plus one new set top bit |
| `Extensions.Increment` | CompactBinaryDemo/Extensions.cs:165-194 | the clone-and-flip loop with its break and inner copy loop computes exactly `Inc(bits)`, so it raises the value by 1 |
| `Extensions.Dec` | CompactBinaryDemo/Extensions.cs:134-163 | on a vector with some set bit, the ripple-borrow predecessor lowers the value by exactly 1 and keeps the length |
| `Extensions.DecLowestOne` | CompactBinaryDemo/Extensions.cs:140-156 | with k the lowest set bit, decrement sets bits 0..k-1, clears bit k and leaves every bit above k unchanged |
| `Extensions.Decrement` | CompactBinaryDemo/Extensions.cs:134-163 | on a vector with a set bit, the loop computes exactly `Dec(bits)`: value lowered by 1, same length |
| `Extensions.DecInc` | CompactBinaryDemo/Extensions.cs:134-194 | decrement undoes increment bit for bit; after an all-ones increment only a clear top bit remains |
| `Extensions.IncDec` | CompactBinaryDemo/Extensions.cs:134-194 | increment undoes decrement bit for bit on every vector with a set bit |
| `Extensions.Append` | CompactBinaryDemo/Extensions.cs:210-219 | the vector grows by one bit, the old bits keep their positions and the new top bit is `bit`, so the value grows by `2^n` exactly when `bit` is set |
| `Extensions.Plus` | CompactBinaryDemo/Extensions.cs:112-121 | k successive increments raise the value by k and never shorten the vector |
| `Extensions.Add` | CompactBinaryDemo/Extensions.cs:112-121 | the counting loop applies `value` increments, and the value rises by `value` |
| `Extensions.Minus` | CompactBinaryDemo/Extensions.cs:123-132 | when the value is at least k, k successive decrements lower it by exactly k and keep the length |
| `Extensions.Subtract` | CompactBinaryDemo/Extensions.cs:123-132 | when the value is at least `value`, the loop applies `value` decrements, each with a set bit to borrow from; the value falls by `value` and the length stays |
| `Extensions.Trimmed` | CompactBinaryDemo/Extensions.cs:59-71 | the result is a prefix of `bits`, every dropped high bit equals `value`, and the result is empty or ends in a bit different from `value` |
| `Extensions.TrimmedIdempotent` | CompactBinaryDemo/Extensions.cs:59-71 | trimming twice gives the same result as trimming once |
| `Extensions.TrimmedValue` | CompactBinaryDemo/Extensions.cs:59-71 | trimming clear high bits keeps the value |
| `Extensions.TrimEnd` | CompactBinaryDemo/Extensions.cs:59-71 | the downward scan that counts matching top bits, followed by `Slice(bits, 0, takeCount)`, returns exactly `Trimmed(bits, value)` |
| `Extensions.SlicedPrefix` | CompactBinaryDemo/Extensions.cs:232-245 | from position 0, Slice returns exactly the first `count` bits, which is the only way TrimEnd calls it |
| `Extensions.SlicedWrongLength` | CompactBinaryDemo/Extensions.cs:237-241 | from any start above 0, Slice's result has `start + count` bits and so is never the requested slice |
| `Extensions.SlicedCounterexample` | CompactBinaryDemo/Extensions.cs:237-241 | `Slice([0,1], 1, 1)` gives `[0,0]`, while the slice is `[1]` |
| `Extensions.Slice` | CompactBinaryDemo/Extensions.cs:232-245 | as written: `start + count` bits, positions `start..count-1` copied from the same positions, all others clear; the full-length clone case agrees |
| `Extensions.SliceCorrected` | CompactBinaryDemo/Extensions.cs:232-245 | the corrected slice returns exactly `bits[start..start+count]` |
| `Extensions.Concat` | CompactBinaryDemo/Extensions.cs:196-208 | `a` fills positions 0..\|a\|-1 and `b[i]` sits at \|a\|+i; the value is `Value(a) + 2^\|a\|·Value(b)` |
| `Extensions.SlicedConcat` | CompactBinaryDemo/Extensions.cs:196-208 | slicing a concatenation from 0 for \|a\| bits gives back `a` |
| `Extensions.ReversedAt` | CompactBinaryDemo/Extensions.cs:221-230 | position i of the reversal holds position n-1-i |
| `Extensions.ReversedTwice` | CompactBinaryDemo/Extensions.cs:221-230 | reversing twice gives back the original |
| `Extensions.Reverse` | CompactBinaryDemo/Extensions.cs:221-230 | the two-index loop builds exactly the reversal |
| `Extensions.WeightConcat` | CompactBinaryDemo/Extensions.cs:99-104 | the number of set bits adds up over a concatenation |
| `Extensions.WeightZeroIff` | CompactBinaryDemo/Extensions.cs:99-104 | no bit is set exactly when the value is zero |
| `Extensions.WeightReversed` | CompactBinaryDemo/Extensions.cs:99-104 | reversal keeps the number of set bits |
| `Extensions.Hamming` | CompactBinaryDemo/Extensions.cs:99-104 | the counting loop returns the number of set bits |
| `Extensions.Flip` | CompactBinaryDemo/Extensions.cs:106-110 | the array is changed in place at `position` only, where the bit is inverted, and the same array is returned |
| `Extensions.FlipValue` | CompactBinaryDemo/Extensions.cs:106-110 | inverting bit i moves the value by exactly `2^i`: down if the bit was set, up if it was clear |
| `Extensions.IsEqualTo` | CompactBinaryDemo/Extensions.cs:73-80 | true exactly when both vectors have the same length and the same bits |
| `Extensions.ToStringBinary` | CompactBinaryDemo/Extensions.cs:263-272 | one character per bit, index 0 first, `'1'` exactly where the bit is set, and `'0'` otherwise |
| `Extensions.ToBitArray` | CompactBinaryDemo/Extensions.cs:247 | a byte array becomes 8 bits per byte, and the unsigned little-endian value is kept |
| `Extensions.PackUnpack` | CompactBinaryDemo/Extensions.cs:49 | unpacking the packed bytes gives the original bits followed by clear padding bits |
| `Extensions.ToBytes` | CompactBinaryDemo/Extensions.cs:34-57 | ⌈n/8⌉ bytes, and one byte for an empty vector; byte j bit k is `bits[8j+k]`, and the unused high bits are clear |
| `Extensions.ToInteger` | CompactBinaryDemo/Extensions.cs:84-97 | the unsigned little-endian integer of the bytes is `Value(bits)`, which is 0 for an empty vector |
| `Extensions.UnsignedBytes` | CompactBinaryDemo/Extensions.cs:26 | the unsigned byte form of a positive integer denotes it and has no high zero byte |
| `Extensions.ToBitsWith` | CompactBinaryDemo/Extensions.cs:21-32 | the bits denote `value`; zero gives exactly one clear bit; when minimal the top bit is set for a positive value; otherwise the result is exactly the bit array of the value's unsigned bytes, a whole number of bytes |
| `Extensions.ToBits` | CompactBinaryDemo/Extensions.cs:19 | the minimal bits: `BitLength(value)` of them, `[0]` for 0, and otherwise a set top bit; `Value` gives `value` back, and the result is exactly the low `BitLength(value)` binary digits of `value` |
| `Extensions.ToBitsOfValue` | CompactBinaryDemo/Extensions.cs:19-32 | every vector whose top bit is set is the minimal bits of its own value |
| `Extensions.IntegerBitsRoundTrip` | CompactBinaryDemo/Extensions.cs:84 | `ToInteger(ToBits(v)) == v` for every v ≥ 0 |
| `CompactBinary.Restored` | CompactBinaryDemo/CompactBinary.cs:53-70 | a non-empty codeword of length L restores to L+1 bits with a set top bit, so its value is at least 2 and the two decrements cannot run below zero |
| `CompactBinary.DecodedValue` | CompactBinaryDemo/CompactBinary.cs:72-76 | the decoded integer is the restored value minus 2, and 0 for the empty string |
| `CompactBinary.RestoredCompacted` | CompactBinaryDemo/CompactBinary.cs:35-70 | `Decode(Encode(b, false), false)` is bit-identical to b whenever b has at least 2 bits and a set top bit |
| `CompactBinary.CompactedRestored` | CompactBinaryDemo/CompactBinary.cs:35-70 | `Encode(Decode(c, false), false)` is bit-identical to every non-empty c |
| `CompactBinary.CodewordLength` | CompactBinaryDemo/CompactBinary.cs:16-47 | the codeword of v has `BitLength(v + 2) − 1` bits, at least one |
| `CompactBinary.CodewordLengthMonotone` | CompactBinaryDemo/CompactBinary.cs:16-47 | a larger value never gets a shorter codeword |
| `CompactBinary.CodewordRoundTrip` | CompactBinaryDemo/CompactBinary.cs:16-79 | decoding the codeword of v gives v, for every v ≥ 0 |
| `CompactBinary.CodewordOnto` | CompactBinaryDemo/CompactBinary.cs:16-79 | every non-empty bit string is the codeword of the integer it decodes to |
| `CompactBinary.CodewordInjective` | CompactBinaryDemo/CompactBinary.cs:16-79 | distinct values have distinct codewords |
| `CompactBinary.CodewordExamples` | CompactBinaryDemo/CompactBinary.cs:16-47 | `Encode(0) = [0]`, `Encode(1) = [1]` and `Encode(2) = [0,1]` |
| `CompactBinary.Encode` | CompactBinaryDemo/CompactBinary.cs:22-48 | adds 2 when `add`; then, for L ≥ 2 bits, returns L−1 bits with bit 0 kept and bits 1..L−2 inverted; shorter vectors come back unchanged |
| `CompactBinary.CompactBits` | CompactBinaryDemo/CompactBinary.cs:29-47 | the list-building loop after the addition returns exactly `Compacted(input)`: the empty vector unchanged, otherwise bit 0 followed by the inverted interior bits |
| `CompactBinary.EncodeInteger` | CompactBinaryDemo/CompactBinary.cs:16-20 | a negative value is rejected with an out-of-range error; otherwise the result is the codeword of the value |
| `CompactBinary.Decode` | CompactBinaryDemo/CompactBinary.cs:50-79 | an empty input comes back unchanged; otherwise bit 0 is kept, the rest are inverted, a set top bit is appended, and 2 is subtracted when `subtract` |
| `CompactBinary.ToBitsCb` | CompactBinaryDemo/Extensions.cs:17 | encodes like `Encode(value)` and the result decodes back to `value` |
| `CompactBinary.ToIntegerCb` | CompactBinaryDemo/Extensions.cs:82 | decodes and converts to the integer the codeword stands for |

## Left out

- `BitArray.LeftShift` and `BitArray.RightShift` are not part of this model. `Append` is modelled by what its length check relies on: the vector grows by one bit and the old bits keep their positions.
- Extensions.Decrement: requires some bit to be set. On an all-zero vector the source reaches `LeftShift(1)`, whose effect is not defined here. The method keeps that branch and proves it cannot be reached. Every call inside the codec has a set bit, because `Subtract` requires `Value(bits) ≥ value`.
- Extensions.Dec: the same restriction as `Decrement`.
- Extensions.Subtract, Extensions.Minus: require the value to be at least the amount subtracted, because each step is a `Decrement`, which needs a set bit. Below that the source would reach the all-zero `LeftShift(1)` path described for `Decrement`.
- Extensions.Slice, Extensions.Flip: the arguments are `nat`s, and the indices the source reads must be in range. Negative arguments are not modelled. In the source, an index out of range or a negative `start + count` raises a .NET exception. A negative `count` with `start + count ≥ 0` does not throw: the copy loop does not run and `Slice` returns `start + count` clear bits, for example `Slice(bits, 2, -1)` gives `[false]`. Neither the exception nor that negative-count result is modelled.
- Extensions.ToBitsWith: does not model `isUnsigned = false` (two's complement) or negative values. The codec calls it only with `value + 2 ≥ 2` and `isUnsigned = true`.
- `ToInteger(byte[], bool, bool)`: the signed and big-endian branches are not modelled. The codec uses only the unsigned little-endian path, which is `BytesValue`.
- `BigInteger.ToByteArray`, the `BigInteger(byte[])` constructor, `new BitArray(byte[])` and `BitArray.CopyTo` are modelled only by their unsigned little-endian meaning. These are `UnsignedBytes`, `BytesValue`, `ToBitArray` and `Pack`.
- Null inputs are not modelled. Dafny sequences cannot be null, so the source's null checks have no counterpart.
- `ToBools` and `ToBitArray(IEnumerable<bool>)` are collection conversions with no logic, so they are not modelled.
- The console driver `Program.cs` is I/O only and is not modelled. Its 0..128 round trip is covered for every v by `CodewordRoundTrip`.
- `BitArray` lengths are unbounded here. In .NET they are 32-bit `int`s.
- Aliasing is not modelled: every method here returns a value. In the source, these paths return the argument instance itself rather than a new array:
  - `Add(bits, 0)` and `Subtract(bits, 0)`, whose loops do not run.
  - `Encode(bits, false)` on an empty vector.
  - `Decode` on an empty vector.
  - `Append`, which returns the result of `RightShift`, an in-place operation on the argument.
  - `Flip`, which changes the array in place; the model keeps that as an `array<bool>` with `modifies`.
  A caller that mutates the returned array would also change the argument on those paths. The model does not capture that.

## Findings

| source | as written | input that shows it | evidently intended | confidence | as-written member | corrected member |
|---|---|---|---|---|---|---|
| CompactBinaryDemo/Extensions.cs:237-241 | `Slice(bits, start, count)` allocates `start + count` bits. It copies positions `start..count-1` to the same positions and leaves the rest clear. | `Slice([0,1], 1, 1)` gives `[0,0]`. From any start above 0, the length is `start + count`. | The `count` bits from `start`, renumbered from 0, so `[1]` for this input. | high; not executed | `Extensions.SlicedCounterexample` | `Extensions.SliceCorrected` |

The only caller of `Slice` is `TrimEnd`, and it always passes `start = 0`. `SlicedPrefix` proves that there
the as-written and the corrected slice agree. So `TrimEnd` keeps the source's call, and nothing else in the
model depends on the defect.
