/** The bit-vector primitives of the extension class.
  A BitArray is a `seq<bool>`, least significant bit at index 0. Every
  operation except Flip clones its input and returns a new vector, so those
  take and return values and keep the source's loops over a local array;
  Flip updates its argument in place and works on an `array<bool>`.
  Each looping method is proved against a specification function
  (Inc, Dec, Plus, Minus, Trimmed, Sliced, Reversed, Weight) whose meaning is
  stated by the lemmas beside it. */
module Extensions {
  import opened BitValue

  /** The C# `uint` of Add and Subtract's step count. */
  newtype uint32 = x: int | 0 <= x < 0x1_0000_0000

  // ---------------------------------------------------------------------
  // Increment and decrement

  /** Ripple-carry successor: clear the trailing ones, set the lowest zero,
    or grow by one set bit when every bit was set. */
  function Inc(b: seq<bool>): (r: seq<bool>)
    ensures Value(r) == Value(b) + 1
    ensures |r| == if false in b then |b| else |b| + 1
    ensures true in r
    decreases |b|
  {
    if b == [] then [true]
    else if !b[0] then [true] + b[1..]
    else
      assert b == [b[0]] + b[1..];
      [false] + Inc(b[1..])
  }

  /** Ripple-borrow predecessor of a vector with some bit set: set the
    trailing zeros, clear the lowest one. */
  function Dec(b: seq<bool>): (r: seq<bool>)
    requires true in b
    ensures Value(r) + 1 == Value(b)
    ensures |r| == |b|
    decreases |b|
  {
    if b[0] then [false] + b[1..]
    else
      assert b == [b[0]] + b[1..];
      [true] + Dec(b[1..])
  }

  /** Increment flips the bits up to and including the lowest clear bit k and
    leaves every higher bit as it was. */
  lemma {:induction false} IncLowestZero(b: seq<bool>, k: nat)
    requires k < |b| && !b[k]
    requires forall j :: 0 <= j < k ==> b[j]
    ensures Inc(b) == Zeros(k) + ([true] + b[k + 1..])
  {
    if k == 0 {
      assert Inc(b) == [true] + b[1..];
    } else {
      var t := b[1..];
      assert b[0];
      assert Inc(b) == [false] + Inc(t);
      IncLowestZero(t, k - 1);
      assert t[k..] == b[k + 1..];
      ZerosCons(k - 1, [true] + b[k + 1..]);
    }
  }

  /** Increment of a vector of ones is all zeros plus one new set top bit. */
  lemma {:induction false} IncAllOnes(b: seq<bool>)
    requires false !in b
    ensures Inc(b) == Zeros(|b|) + [true]
  {
    if b != [] {
      assert b == [b[0]] + b[1..];
      IncAllOnes(b[1..]);
      assert [false] + Zeros(|b| - 1) == Zeros(|b|);
    }
  }

  /** Decrement flips the bits up to and including the lowest set bit k and
    leaves every higher bit as it was. */
  lemma {:induction false} DecLowestOne(b: seq<bool>, k: nat)
    requires k < |b| && b[k]
    requires forall j :: 0 <= j < k ==> !b[j]
    ensures Dec(b) == Ones(k) + ([false] + b[k + 1..])
  {
    if k == 0 {
      assert Dec(b) == [false] + b[1..];
    } else {
      var t := b[1..];
      assert !b[0] && t[k - 1];
      assert Dec(b) == [true] + Dec(t);
      DecLowestOne(t, k - 1);
      assert t[k..] == b[k + 1..];
      OnesCons(k - 1, [false] + b[k + 1..]);
    }
  }

  /** Decrement undoes increment bit for bit, except that the bit grown by
    an all-ones increment stays behind as a clear top bit. */
  lemma {:induction false} DecInc(b: seq<bool>)
    ensures Dec(Inc(b)) == if false in b then b else b + [false]
  {
    if b != [] && b[0] {
      assert b == [b[0]] + b[1..];
      DecInc(b[1..]);
      var i := Inc(b[1..]);
      assert ([false] + i)[1..] == i;
    } else if b != [] {
      assert ([true] + b[1..])[1..] == b[1..];
    }
  }

  /** Increment undoes decrement bit for bit. */
  lemma {:induction false} IncDec(b: seq<bool>)
    requires true in b
    ensures Inc(Dec(b)) == b
  {
    if !b[0] {
      assert b == [b[0]] + b[1..];
      IncDec(b[1..]);
      var d := Dec(b[1..]);
      assert ([true] + d)[1..] == d;
    } else {
      assert ([false] + b[1..])[1..] == b[1..];
    }
  }

  /** Append: the vector grows by one bit at the top and that bit is `bit`.
    The source delegates the growth to RightShift(1); this is the behaviour
    its length check relies on. */
  function Append(bits: seq<bool>, bit: bool): (r: seq<bool>)
    ensures |r| == |bits| + 1 && r[..|bits|] == bits && r[|bits|] == bit
    ensures Value(r) == Value(bits) + (if bit then Pow2(|bits|) else 0)
  {
    ValueConcat(bits, [bit]);
    assert Value([bit]) == if bit then 1 else 0;
    bits + [bit]
  }

  /** Adds one by ripple carry over a clone of `bits`. */
  method Increment(bits: seq<bool>) returns (r: seq<bool>)
    ensures r == Inc(bits)
    ensures Value(r) == Value(bits) + 1
  {
    var n := |bits|;
    var result := new bool[n](j requires 0 <= j < n => bits[j]);
    var carry := true;
    ghost var k := 0;
    var i := 0;
    while i < n
      invariant 0 <= i <= n && carry
      invariant forall j :: 0 <= j < i ==> bits[j] && !result[j]
      invariant forall j :: i <= j < n ==> result[j] == bits[j]
    {
      result[i] := !bits[i];
      if !bits[i] {
        // the lowest clear bit absorbs the carry
        carry := false;
        k := i;
        i := i + 1;
        while i < n
          invariant k < i <= n
          invariant forall j :: 0 <= j < k ==> !result[j]
          invariant result[k]
          invariant forall j :: k < j < n ==> result[j] == bits[j]
        {
          result[i] := bits[i];
          i := i + 1;
        }
        break;
      }
      i := i + 1;
    }
    if carry {
      assert result[..] == Zeros(n);
      IncAllOnes(bits);
      r := Append(result[..], true);
    } else {
      assert result[..] == Zeros(k) + ([true] + bits[k + 1..]);
      IncLowestZero(bits, k);
      r := result[..];
    }
  }

  /** Subtracts one by ripple borrow over a clone of `bits`. The all-zero
    input, where the borrow runs off the top, is excluded. */
  method Decrement(bits: seq<bool>) returns (r: seq<bool>)
    requires true in bits
    ensures r == Dec(bits)
    ensures Value(r) + 1 == Value(bits)
  {
    var n := |bits|;
    var result := new bool[n](j requires 0 <= j < n => bits[j]);
    var carry := true;
    ghost var k := 0;
    var i := 0;
    while i < n
      invariant 0 <= i <= n && carry
      invariant forall j :: 0 <= j < i ==> !bits[j] && result[j]
      invariant forall j :: i <= j < n ==> result[j] == bits[j]
    {
      result[i] := !bits[i];
      if bits[i] {
        // the lowest set bit absorbs the borrow
        carry := false;
        k := i;
        i := i + 1;
        while i < n
          invariant k < i <= n
          invariant forall j :: 0 <= j < k ==> result[j]
          invariant !result[k]
          invariant forall j :: k < j < n ==> result[j] == bits[j]
        {
          result[i] := bits[i];
          i := i + 1;
        }
        break;
      }
      i := i + 1;
    }
    if carry {
      // the borrow ran off the top: no bit of `bits` was set
      assert false;
    }
    assert result[..] == Ones(k) + ([false] + bits[k + 1..]);
    DecLowestOne(bits, k);
    r := result[..];
  }

  /** `k` successive increments. */
  function Plus(b: seq<bool>, k: nat): (r: seq<bool>)
    ensures Value(r) == Value(b) + k
    ensures |b| <= |r|
    decreases k
  {
    if k == 0 then b else Inc(Plus(b, k - 1))
  }

  /** `k` successive decrements; defined while the value stays non-negative. */
  function Minus(b: seq<bool>, k: nat): (r: seq<bool>)
    requires Value(b) >= k
    ensures Value(r) + k == Value(b)
    ensures |r| == |b|
    decreases k
  {
    if k == 0 then b
    else
      var prev := Minus(b, k - 1);
      ValueZeroIff(prev);
      Dec(prev)
  }

  /** Adds `value` by repeated increment. */
  method Add(bits: seq<bool>, value: uint32) returns (r: seq<bool>)
    ensures r == Plus(bits, value as nat)
    ensures Value(r) == Value(bits) + value as nat
  {
    r := bits;
    var i: uint32 := 0;
    while i < value
      invariant i <= value
      invariant r == Plus(bits, i as nat)
    {
      r := Increment(r);
      i := i + 1;
    }
  }

  /** Subtracts `value` by repeated decrement; the value must not go below 0. */
  method Subtract(bits: seq<bool>, value: uint32) returns (r: seq<bool>)
    requires Value(bits) >= value as nat
    ensures r == Minus(bits, value as nat)
    ensures Value(r) + value as nat == Value(bits)
    ensures |r| == |bits|
  {
    r := bits;
    var i: uint32 := 0;
    while i < value
      invariant i <= value
      invariant r == Minus(bits, i as nat)
    {
      ValueZeroIff(r);
      r := Decrement(r);
      i := i + 1;
    }
  }

  // ---------------------------------------------------------------------
  // Trimming and slicing

  /** The longest prefix of `bits` that does not end in `value`. */
  function Trimmed(bits: seq<bool>, value: bool): (r: seq<bool>)
    ensures |r| <= |bits| && r == bits[..|r|]
    ensures forall i :: |r| <= i < |bits| ==> bits[i] == value
    ensures r == [] || r[|r| - 1] != value
    decreases |bits|
  {
    if bits == [] then []
    else if bits[|bits| - 1] == value then Trimmed(bits[..|bits| - 1], value)
    else bits
  }

  /** Trimming is idempotent. */
  lemma TrimmedIdempotent(bits: seq<bool>, value: bool)
    ensures Trimmed(Trimmed(bits, value), value) == Trimmed(bits, value)
  {
  }

  /** Trimming clear high bits keeps the value. */
  lemma TrimmedValue(bits: seq<bool>)
    ensures Value(Trimmed(bits, false)) == Value(bits)
  {
    var r := Trimmed(bits, false);
    assert bits == r + Zeros(|bits| - |r|);
    ValueZeros(r, |bits| - |r|);
  }

  /** Drops the high bits equal to `value`, scanning down from the top. */
  method TrimEnd(bits: seq<bool>, value: bool) returns (r: seq<bool>)
    ensures r == Trimmed(bits, value)
  {
    var length := |bits|;
    var takeCount := length;
    var i := length - 1;
    assert bits[..takeCount] == bits;
    while i >= 0
      invariant -1 <= i < length && takeCount == i + 1
      invariant Trimmed(bits[..takeCount], value) == Trimmed(bits, value)
    {
      if bits[i] == value {
        assert Trimmed(bits[..takeCount], value) == Trimmed(bits[..i], value) by {
          assert bits[..takeCount][..i] == bits[..i];
        }
        takeCount := takeCount - 1;
      } else {
        break;
      }
      i := i - 1;
    }
    if takeCount < 1 {
      return [];
    }
    r := Slice(bits, 0, takeCount);
    SlicedPrefix(bits, takeCount);
  }

  /** Slice as written: a vector of `start + count` bits in which positions
    `start` up to `count - 1` are copied from `bits` at the same positions and
    every other position is clear. */
  function Sliced(bits: seq<bool>, start: nat, count: nat): (r: seq<bool>)
    requires start < count ==> count <= |bits|
  {
    seq(start + count, i requires 0 <= i < start + count =>
      if start <= i < count then bits[i] else false)
  }

  /** From position 0, Slice takes exactly the first `count` bits. */
  lemma SlicedPrefix(bits: seq<bool>, count: nat)
    requires count <= |bits|
    ensures Sliced(bits, 0, count) == bits[..count]
  {
  }

  /** From any position other than 0, Slice's result has the wrong length,
    `start + count` instead of `count`. */
  lemma SlicedWrongLength(bits: seq<bool>, start: nat, count: nat)
    requires 0 < start && start + count <= |bits|
    ensures Sliced(bits, start, count) != bits[start..start + count]
  {
    assert |Sliced(bits, start, count)| != |bits[start..start + count]|;
  }

  /** The smallest input on which Slice is not a slice: bit 1 of [0, 1]. */
  lemma SlicedCounterexample()
    ensures Sliced([false, true], 1, 1) == [false, false]
    ensures [false, true][1..2] == [true]
  {
  }

  /** Copies `bits[start..count)` into a clear vector of `start + count` bits. */
  method Slice(bits: seq<bool>, start: nat, count: nat) returns (r: seq<bool>)
    requires start < count ==> count <= |bits|
    ensures r == Sliced(bits, start, count)
  {
    if start == 0 && count == |bits| {
      assert bits == Sliced(bits, start, count);
      return bits;
    }
    var length := start + count;
    var result := new bool[length](_ => false);
    var i := start;
    while i < count
      invariant start <= i && (i <= count || i == start)
      invariant forall j :: 0 <= j < length ==> result[j] == (start <= j < i && bits[j])
    {
      result[i] := bits[i];
      i := i + 1;
    }
    r := result[..];
  }

  /** The `count` bits from `start`, renumbered from 0: what Slice is evidently
    meant to compute. */
  method SliceCorrected(bits: seq<bool>, start: nat, count: nat) returns (r: seq<bool>)
    requires start + count <= |bits|
    ensures r == bits[start..start + count]
  {
    var result := new bool[count];
    for i := 0 to count
      invariant forall j :: 0 <= j < i ==> result[j] == bits[start + j]
    {
      result[i] := bits[start + i];
    }
    r := result[..];
  }

  // ---------------------------------------------------------------------
  // Concatenation, reversal, weight, flip, equality, text

  /** `a` in the low positions, `b` above it. */
  method Concat(a: seq<bool>, b: seq<bool>) returns (r: seq<bool>)
    ensures r == a + b
    ensures Value(r) == Value(a) + Pow2(|a|) * Value(b)
  {
    var length := |a| + |b|;
    var bits := new bool[length];
    for i := 0 to |a|
      invariant forall j :: 0 <= j < i ==> bits[j] == a[j]
    {
      bits[i] := a[i];
    }
    var offset := |a|;
    for i := 0 to |b|
      invariant forall j :: 0 <= j < |a| ==> bits[j] == a[j]
      invariant forall j :: 0 <= j < i ==> bits[offset + j] == b[j]
    {
      bits[i + offset] := b[i];
    }
    r := bits[..];
    ValueConcat(a, b);
  }

  /** Slicing a concatenation from 0 for |a| bits gives back `a`. */
  lemma SlicedConcat(a: seq<bool>, b: seq<bool>)
    ensures Sliced(a + b, 0, |a|) == a
  {
    SlicedPrefix(a + b, |a|);
    assert (a + b)[..|a|] == a;
  }

  /** The bits in the opposite order. */
  function Reversed(s: seq<bool>): (r: seq<bool>)
    ensures |r| == |s|
  {
    if s == [] then [] else [s[|s| - 1]] + Reversed(s[..|s| - 1])
  }

  /** Position i of the reversal holds position n-1-i of the original. */
  lemma {:induction false} ReversedAt(s: seq<bool>, i: nat)
    requires i < |s|
    ensures Reversed(s)[i] == s[|s| - 1 - i]
  {
    if i > 0 {
      ReversedAt(s[..|s| - 1], i - 1);
    }
  }

  /** Reversing twice gives back the original. */
  lemma ReversedTwice(s: seq<bool>)
    ensures Reversed(Reversed(s)) == s
  {
    var r := Reversed(s);
    forall i | 0 <= i < |s|
      ensures Reversed(r)[i] == s[i]
    {
      ReversedAt(r, i);
      ReversedAt(s, |s| - 1 - i);
    }
  }

  /** Builds the reversal by filling positions 0, 1, ... from the top down. */
  method Reverse(bits: seq<bool>) returns (r: seq<bool>)
    ensures r == Reversed(bits)
  {
    var n := |bits|;
    var resultBits := new bool[n];
    var i, j := n - 1, 0;
    while i >= 0
      invariant -1 <= i < n && j == n - 1 - i
      invariant forall m :: 0 <= m < j ==> resultBits[m] == bits[n - 1 - m]
    {
      resultBits[j] := bits[i];
      i, j := i - 1, j + 1;
    }
    r := resultBits[..];
    forall m | 0 <= m < n
      ensures r[m] == Reversed(bits)[m]
    {
      ReversedAt(bits, m);
    }
  }

  /** The number of set bits. */
  function Weight(s: seq<bool>): (w: nat)
    ensures w <= |s|
  {
    if s == [] then 0 else Weight(s[..|s| - 1]) + (if s[|s| - 1] then 1 else 0)
  }

  /** The weight of a concatenation is the sum of the weights. */
  lemma {:induction false} WeightConcat(a: seq<bool>, b: seq<bool>)
    ensures Weight(a + b) == Weight(a) + Weight(b)
  {
    if b != [] {
      WeightConcat(a, b[..|b| - 1]);
      assert (a + b)[..|a + b| - 1] == a + b[..|b| - 1];
    } else {
      assert a + b == a;
    }
  }

  /** The weight is zero exactly when the value is zero. */
  lemma {:induction false} WeightZeroIff(s: seq<bool>)
    ensures Weight(s) == 0 <==> Value(s) == 0
  {
    ValueZeroIff(s);
    if s != [] {
      var p := s[..|s| - 1];
      WeightZeroIff(p);
      ValueZeroIff(p);
      assert s == p + [s[|s| - 1]];
    }
  }

  /** Reversal keeps the weight. */
  lemma {:induction false} WeightReversed(s: seq<bool>)
    ensures Weight(Reversed(s)) == Weight(s)
  {
    if s != [] {
      var p := s[..|s| - 1];
      WeightReversed(p);
      WeightConcat([s[|s| - 1]], Reversed(p));
      assert Weight([s[|s| - 1]]) == if s[|s| - 1] then 1 else 0;
    }
  }

  /** Counts the set bits in one pass. */
  method Hamming(bits: seq<bool>) returns (h: nat)
    ensures h == Weight(bits)
  {
    h := 0;
    for i := 0 to |bits|
      invariant h == Weight(bits[..i])
    {
      assert bits[..i + 1][..i] == bits[..i];
      if bits[i] {
        h := h + 1;
      }
    }
    assert bits[..|bits|] == bits;
  }

  /** Inverts the bit at `position` in place and hands back the same array. */
  method Flip(bits: array<bool>, position: nat) returns (r: array<bool>)
    requires position < bits.Length
    modifies bits
    ensures r == bits
    ensures bits[..] == old(bits[..])[position := !old(bits[position])]
  {
    bits[position] := !bits[position];
    r := bits;
  }

  /** Flipping bit i moves the value by exactly 2^i, up or down. */
  lemma {:induction false} FlipValue(s: seq<bool>, i: nat)
    requires i < |s|
    ensures Value(s[i := !s[i]]) == if s[i] then Value(s) - Pow2(i) else Value(s) + Pow2(i)
  {
    var f := s[i := !s[i]];
    if i == 0 {
      assert f[1..] == s[1..];
    } else {
      assert f[1..] == s[1..][i - 1 := !s[i]];
      FlipValue(s[1..], i - 1);
    }
  }

  /** Equal length and equal bits, compared one position at a time. */
  method IsEqualTo(bits: seq<bool>, other: seq<bool>) returns (eq: bool)
    ensures eq <==> bits == other
  {
    if |bits| != |other| {
      return false;
    }
    for i := 0 to |bits|
      invariant forall j :: 0 <= j < i ==> bits[j] == other[j]
    {
      if bits[i] != other[i] {
        return false;
      }
    }
    return true;
  }

  /** The bits as '0'/'1' characters, index 0 first. */
  method ToStringBinary(bits: seq<bool>) returns (s: string)
    ensures |s| == |bits|
    ensures forall i :: 0 <= i < |bits| ==> (s[i] == '1' <==> bits[i]) && s[i] in "01"
  {
    s := "";
    for i := 0 to |bits|
      invariant |s| == i
      invariant forall j :: 0 <= j < i ==> (s[j] == '1' <==> bits[j]) && s[j] in "01"
    {
      s := s + [if bits[i] then '1' else '0'];
    }
  }

  // ---------------------------------------------------------------------
  // Integer and byte conversions (unsigned, little-endian)

  /** The eight bits of one byte, least significant first. */
  function ByteBits(b: byte): (r: seq<bool>)
    ensures |r| == 8 && Value(r) == b as nat
  {
    Pow2Byte();
    ValueBitsOfWidth(b as nat, 8);
    BitsOfWidth(b as nat, 8)
  }

  /** A byte array as a bit array: byte j supplies bits 8j to 8j+7. */
  function ToBitArray(bytes: seq<byte>): (r: seq<bool>)
    ensures |r| == 8 * |bytes|
    ensures Value(r) == BytesValue(bytes)
  {
    if bytes == [] then []
    else
      var rest := ToBitArray(bytes[1..]);
      ValueConcat(ByteBits(bytes[0]), rest);
      Pow2Byte();
      ByteBits(bytes[0]) + rest
  }

  /** The byte whose low bits are `low` and whose other bits are clear. */
  function ByteOf(low: seq<bool>): (b: byte)
    requires |low| <= 8
    ensures ByteBits(b) == low + Zeros(8 - |low|)
  {
    var padded := low + Zeros(8 - |low|);
    ValueZeros(low, 8 - |low|);
    ValueBound(padded);
    Pow2Byte();
    BitsOfWidthValue(padded);
    Value(low) as byte
  }

  /** Packs bits eight to a byte, the last byte padded with clear bits. */
  function Pack(bits: seq<bool>): (r: seq<byte>)
    ensures |r| == (|bits| + 7) / 8
    decreases |bits|
  {
    if bits == [] then []
    else if |bits| <= 8 then [ByteOf(bits)]
    else [ByteOf(bits[..8])] + Pack(bits[8..])
  }

  /** Unpacking a byte sequence unpacks its first byte and then the rest. */
  lemma ToBitArrayCons(b: byte, rest: seq<byte>)
    ensures ToBitArray([b] + rest) == ByteBits(b) + ToBitArray(rest)
  {
    assert ([b] + rest)[1..] == rest;
  }

  /** Unpacking the packed bytes gives the bits back, followed by the padding. */
  lemma {:induction false} PackUnpack(bits: seq<bool>)
    ensures ToBitArray(Pack(bits)) == bits + Zeros(8 * |Pack(bits)| - |bits|)
    decreases |bits|
  {
    if bits == [] {
    } else if |bits| <= 8 {
      PackUnpackLast(bits);
    } else {
      var high := bits[8..];
      var rest := Pack(high);
      var pad := Zeros(8 * |rest| - |high|);
      PackUnpackStep(bits);
      PackUnpack(high);
      SplitAppend(bits, 8, pad);
      assert 8 * |Pack(bits)| - |bits| == 8 * |rest| - |high| by {
        assert |Pack(bits)| == 1 + |rest|;
      }
    }
  }

  /** Cutting a vector at k and putting it back together before a tail. */
  lemma SplitAppend(bits: seq<bool>, k: nat, tail: seq<bool>)
    requires k <= |bits|
    ensures bits[..k] + (bits[k..] + tail) == bits + tail
  {
    assert bits[..k] + bits[k..] == bits;
  }

  /** A vector of at most eight bits packs into one byte. */
  lemma PackUnpackLast(bits: seq<bool>)
    requires 0 < |bits| <= 8
    ensures |Pack(bits)| == 1
    ensures ToBitArray(Pack(bits)) == bits + Zeros(8 - |bits|)
  {
    var b := ByteOf(bits);
    assert Pack(bits) == [b] + [];
    ToBitArrayCons(b, []);
  }

  /** A longer vector packs its low eight bits into its first byte. */
  lemma PackUnpackStep(bits: seq<bool>)
    requires |bits| > 8
    ensures ToBitArray(Pack(bits)) == bits[..8] + ToBitArray(Pack(bits[8..]))
  {
    var b := ByteOf(bits[..8]);
    assert Pack(bits) == [b] + Pack(bits[8..]);
    ToBitArrayCons(b, Pack(bits[8..]));
    assert Zeros(0) == [];
  }

  /** The bytes of a bit array: ceil(n/8) of them, and one zero byte for an
    empty vector. */
  function ToBytes(bits: seq<bool>): (r: seq<byte>)
    ensures |r| == if |bits| == 0 then 1 else (|bits| + 7) / 8
    ensures ToBitArray(r) == bits + Zeros(8 * |r| - |bits|)
  {
    var bytesLength := |bits| / 8 + (if |bits| % 8 > 0 then 1 else 0);
    if bytesLength < 1 then
      assert ToBitArray([0]) == Zeros(8) by {
        assert ToBitArray([0]) == ByteBits(0);
        assert BitsOfWidth(0, 8) == Zeros(8);
      }
      [0]
    else
      PackUnpack(bits);
      Pack(bits)
  }

  /** The unsigned integer a bit array denotes, through its bytes. */
  function ToInteger(bits: seq<bool>): (v: nat)
    ensures v == Value(bits)
  {
    var bytes := ToBytes(bits);
    ValueZeros(bits, 8 * |bytes| - |bits|);
    BytesValue(bytes)
  }

  /** The minimal unsigned little-endian bytes of a positive integer: no
    high zero byte. */
  function UnsignedBytes(v: nat): (r: seq<byte>)
    ensures BytesValue(r) == v
    ensures v > 0 ==> r != [] && r[|r| - 1] != 0
  {
    if v == 0 then [] else [(v % 256) as byte] + UnsignedBytes(v / 256)
  }

  lemma WholeBytes(n: nat)
    ensures (8 * n) % 8 == 0
  {
  }

  /** The bits of a non-negative integer through its unsigned bytes, trimmed
    of high clear bits when `minimal`; zero is the single clear bit. */
  function ToBitsWith(value: nat, minimal: bool): (r: seq<bool>)
    ensures Value(r) == value && |r| >= 1
    ensures minimal ==> r[|r| - 1] == (value > 0)
    ensures value == 0 ==> r == [false]
    ensures !minimal && value > 0 ==> |r| % 8 == 0 && r == ToBitArray(UnsignedBytes(value))
  {
    if value == 0 then [false]
    else
      var bytes := UnsignedBytes(value);
      var bits := ToBitArray(bytes);
      assert Value(bits) == value && |bits| % 8 == 0 && |bits| >= 8 by {
        WholeBytes(|bytes|);
      }
      if minimal then
        var t := Trimmed(bits, false);
        assert Value(t) == value && t != [] && t[|t| - 1] by {
          TrimmedValue(bits);
          ValueZeroIff(t);
        }
        t
      else
        bits
  }

  /** The minimal bits of a non-negative integer: BitLength(value) bits whose
    top bit is set unless the value is 0. */
  function ToBits(value: nat): (r: seq<bool>)
    ensures Value(r) == value && |r| == BitLength(value)
    ensures r[|r| - 1] == (value > 0)
    ensures value == 0 ==> r == [false]
    ensures r == BitsOfWidth(value, BitLength(value))
  {
    var r := ToBitsWith(value, true);
    if value > 0 then
      BitLengthOfTop(r);
      BitsOfWidthValue(r);
      r
    else
      r
  }

  /** ToBits gives back every vector whose top bit is set, from its value. */
  lemma ToBitsOfValue(b: seq<bool>)
    requires |b| > 0 && b[|b| - 1]
    ensures ToBits(Value(b)) == b
  {
    BitLengthOfTop(b);
    BitsOfWidthValue(b);
  }

  /** Converting to bits and back through bytes is the identity. */
  lemma IntegerBitsRoundTrip(v: nat)
    ensures ToInteger(ToBits(v)) == v
  {
  }
}
