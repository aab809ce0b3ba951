/** The arithmetic meaning of a bit vector.
  A bit vector is a `seq<bool>` whose index 0 is the least significant bit;
  `Value` is the unsigned integer it denotes. Bytes are unsigned 8-bit values
  whose sequences are read little-endian (byte 0 is the least significant). */
module BitValue {

  /** An unsigned 8-bit value, one element of a byte array. */
  newtype byte = x: int | 0 <= x < 256

  /** 2 to the power n. */
  function Pow2(n: nat): (p: nat)
    ensures p >= 1
  {
    if n == 0 then 1 else 2 * Pow2(n - 1)
  }

  lemma Pow2Byte()
    ensures Pow2(8) == 256
  {
  }

  /** The unsigned integer denoted by `b`, least significant bit first. */
  function Value(b: seq<bool>): nat
  {
    if b == [] then 0 else (if b[0] then 1 else 0) + 2 * Value(b[1..])
  }

  /** `n` clear bits. */
  function Zeros(n: nat): (z: seq<bool>)
    ensures |z| == n && true !in z
  {
    seq(n, _ => false)
  }

  /** `n` set bits. */
  function Ones(n: nat): (z: seq<bool>)
    ensures |z| == n && false !in z
  {
    seq(n, _ => true)
  }

  /** A clear bit below n clear bits and a tail gives n + 1 clear bits and the tail. */
  lemma ZerosCons(n: nat, rest: seq<bool>)
    ensures [false] + (Zeros(n) + rest) == Zeros(n + 1) + rest
  {
    assert [false] + Zeros(n) == Zeros(n + 1);
  }

  /** A set bit below n set bits and a tail gives n + 1 set bits and the tail. */
  lemma OnesCons(n: nat, rest: seq<bool>)
    ensures [true] + (Ones(n) + rest) == Ones(n + 1) + rest
  {
    assert [true] + Ones(n) == Ones(n + 1);
  }

  /** Number of bits of the minimal representation of `v` (1 for 0). */
  function BitLength(v: nat): (n: nat)
    ensures n >= 1
  {
    if v < 2 then 1 else 1 + BitLength(v / 2)
  }

  /** The low `w` bits of `x`, least significant first. */
  function BitsOfWidth(x: nat, w: nat): (r: seq<bool>)
    ensures |r| == w
  {
    if w == 0 then [] else [x % 2 == 1] + BitsOfWidth(x / 2, w - 1)
  }

  /** The unsigned integer denoted by a little-endian byte sequence; this is
    what the `BigInteger(byte[], isUnsigned: true)` constructor computes. */
  function BytesValue(bs: seq<byte>): nat
  {
    if bs == [] then 0 else bs[0] as nat + 256 * BytesValue(bs[1..])
  }

  /** The bits of `a` stay below the bits of `b`, which are scaled by 2^|a|. */
  lemma {:induction false} ValueConcat(a: seq<bool>, b: seq<bool>)
    ensures Value(a + b) == Value(a) + Pow2(|a|) * Value(b)
  {
    if a == [] {
      assert a + b == b;
    } else {
      var t := a[1..];
      assert (a + b)[0] == a[0] && (a + b)[1..] == t + b;
      ValueConcat(t, b);
      var d, p, v := (if a[0] then 1 else 0), Pow2(|t|), Value(b);
      assert Pow2(|a|) == 2 * p;
      Distribute(d, Value(t), p, v);
    }
  }

  lemma Distribute(d: int, x: int, p: int, v: int)
    ensures d + 2 * (x + p * v) == d + 2 * x + (2 * p) * v
  {
    assert 2 * (p * v) == (2 * p) * v;
  }

  /** A vector of n bits denotes a number below 2^n. */
  lemma {:induction false} ValueBound(b: seq<bool>)
    ensures Value(b) < Pow2(|b|)
  {
    if b != [] {
      ValueBound(b[1..]);
    }
  }

  /** The value is zero exactly when no bit is set. */
  lemma {:induction false} ValueZeroIff(b: seq<bool>)
    ensures Value(b) == 0 <==> true !in b
  {
    if b != [] {
      assert b == [b[0]] + b[1..];
      ValueZeroIff(b[1..]);
    }
  }

  /** High-order clear bits do not change the value. */
  lemma ValueZeros(b: seq<bool>, n: nat)
    ensures Value(b + Zeros(n)) == Value(b)
  {
    ValueConcat(b, Zeros(n));
    ValueZeroIff(Zeros(n));
  }

  /** A vector whose top bit is set denotes at least 2^(n-1). */
  lemma ValueTop(b: seq<bool>)
    requires |b| > 0 && b[|b| - 1]
    ensures Pow2(|b| - 1) <= Value(b)
  {
    var n := |b|;
    assert b == b[..n - 1] + [true];
    ValueConcat(b[..n - 1], [true]);
    assert Value([true]) == 1;
  }

  /** Two vectors whose top bits are set and whose values agree are identical:
    the minimal representation of a positive number is unique. */
  lemma {:induction false} MinimalUnique(a: seq<bool>, b: seq<bool>)
    requires |a| > 0 && a[|a| - 1]
    requires |b| > 0 && b[|b| - 1]
    requires Value(a) == Value(b)
    ensures a == b
  {
    if |a| == 1 || |b| == 1 {
      // a value of 1 has no room for a second set top bit
      if |a| > 1 { ValueTop(a); }
      if |b| > 1 { ValueTop(b); }
      assert Pow2(1) == 2;
    } else {
      MinimalUnique(a[1..], b[1..]);
      assert a == [a[0]] + a[1..] && b == [b[0]] + b[1..];
    }
  }

  /** The minimal representation of a positive number has BitLength bits. */
  lemma {:induction false} BitLengthOfTop(b: seq<bool>)
    requires |b| > 0 && b[|b| - 1]
    ensures BitLength(Value(b)) == |b|
  {
    if |b| > 1 {
      var t := b[1..];
      assert t[|t| - 1];
      ValueTop(t);
      BitLengthOfTop(t);
      assert Value(b) / 2 == Value(t);
    }
  }

  /** BitLength does not decrease as the number grows. */
  lemma {:induction false} BitLengthMonotone(x: nat, y: nat)
    requires x <= y
    ensures BitLength(x) <= BitLength(y)
    decreases y
  {
    if x >= 2 {
      BitLengthMonotone(x / 2, y / 2);
    }
  }

  /** Reading a number below 2^w back from its low w bits gives the number. */
  lemma {:induction false} ValueBitsOfWidth(x: nat, w: nat)
    requires x < Pow2(w)
    ensures Value(BitsOfWidth(x, w)) == x
  {
    if w > 0 {
      ValueBitsOfWidth(x / 2, w - 1);
      assert BitsOfWidth(x, w)[1..] == BitsOfWidth(x / 2, w - 1);
    }
  }

  /** The low |b| bits of Value(b) are b itself. */
  lemma {:induction false} BitsOfWidthValue(b: seq<bool>)
    ensures BitsOfWidth(Value(b), |b|) == b
  {
    if b != [] {
      BitsOfWidthValue(b[1..]);
      assert Value(b) / 2 == Value(b[1..]);
      assert b == [b[0]] + b[1..];
    }
  }
}
