/** The compact binary codec: a bijection between the non-negative integers
  and the non-empty bit strings.
  Encoding biases the value by 2, takes its minimal bits, keeps bit 0,
  inverts the interior bits and drops the top bit, which the bias makes
  always set. Decoding keeps bit 0, inverts the rest, puts the set top bit
  back and subtracts the bias by two decrements. */
module CompactBinary {
  import opened BitValue
  import opened Extensions

  /** The exception Encode throws for a negative value. */
  datatype Error = ArgumentOutOfRange

  datatype Result<T> = Ok(value: T) | Err(error: Error)

  /** The bias Encode adds before compacting and Decode subtracts after
    restoring; it makes every codeword's uncompacted form at least 2 bits. */
  const Bias: uint32 := 2

  /** Every bit inverted. */
  function Inverted(s: seq<bool>): (r: seq<bool>)
    ensures |r| == |s| && forall i :: 0 <= i < |s| ==> r[i] != s[i]
  {
    seq(|s|, i requires 0 <= i < |s| => !s[i])
  }

  /** The bit transform of Encode: bit 0 kept, bits 1 to n-2 inverted, the
    top bit dropped; vectors of fewer than two bits come back unchanged. */
  function Compacted(bits: seq<bool>): seq<bool>
  {
    if |bits| < 2 then bits else [bits[0]] + Inverted(bits[1..|bits| - 1])
  }

  /** The bit transform of Decode: bit 0 kept, the other bits inverted, a set
    top bit appended; the empty vector comes back unchanged. */
  function Restored(c: seq<bool>): (r: seq<bool>)
    ensures c != [] ==> |r| == |c| + 1 && r[|c|] && Value(r) >= 2
  {
    if c == [] then c
    else
      var r := [c[0]] + Inverted(c[1..]) + [true];
      ValueTop(r);
      r
  }

  /** What Decode returns; the subtraction never runs below zero, since a
    restored vector of two or more bits has its top bit set. */
  function Decoded(c: seq<bool>, subtract: bool): seq<bool>
  {
    if c == [] then c
    else if subtract then Minus(Restored(c), Bias as nat)
    else Restored(c)
  }

  /** The codeword of a non-negative integer. */
  function Codeword(v: nat): seq<bool>
  {
    Compacted(ToBits(v + 2))
  }

  /** The integer a codeword decodes to. */
  function DecodedValue(c: seq<bool>): (v: nat)
    ensures c != [] ==> v + 2 == Value(Restored(c))
    ensures c == [] ==> v == 0
  {
    ToInteger(Decoded(c, true))
  }

  lemma InvertedTwice(s: seq<bool>)
    ensures Inverted(Inverted(s)) == s
  {
  }

  /** Inverting one more bit extends the inverted vector by that bit's complement. */
  lemma InvertedSnoc(s: seq<bool>, x: bool)
    ensures Inverted(s + [x]) == Inverted(s) + [!x]
  {
  }

  /** Decode without the subtraction undoes Encode without the addition, bit
    for bit, on every vector of two or more bits whose top bit is set. */
  lemma RestoredCompacted(b: seq<bool>)
    requires |b| >= 2 && b[|b| - 1]
    ensures Restored(Compacted(b)) == b
  {
    var n := |b|;
    var c := Compacted(b);
    assert c[1..] == Inverted(b[1..n - 1]);
    InvertedTwice(b[1..n - 1]);
    assert b == [b[0]] + b[1..n - 1] + [b[n - 1]];
  }

  /** Encode without the addition undoes Decode without the subtraction, bit
    for bit, on every non-empty vector. */
  lemma CompactedRestored(c: seq<bool>)
    requires c != []
    ensures Compacted(Restored(c)) == c
  {
    var r := Restored(c);
    assert r[1..|r| - 1] == Inverted(c[1..]);
    InvertedTwice(c[1..]);
    assert c == [c[0]] + c[1..];
  }

  /** A codeword is one bit shorter than the minimal bits of value + 2, so it
    has at least one bit. */
  lemma CodewordLength(v: nat)
    ensures |Codeword(v)| == BitLength(v + 2) - 1 >= 1
  {
    assert BitLength(v + 2) >= 2;
  }

  /** Larger values never get shorter codewords. */
  lemma CodewordLengthMonotone(x: nat, y: nat)
    requires x <= y
    ensures |Codeword(x)| <= |Codeword(y)|
  {
    assert |Codeword(x)| == BitLength(x + 2) - 1 by { CodewordLength(x); }
    assert |Codeword(y)| == BitLength(y + 2) - 1 by { CodewordLength(y); }
    BitLengthMonotone(x + 2, y + 2);
  }

  /** Round trip: decoding the codeword of v gives v. */
  lemma CodewordRoundTrip(v: nat)
    ensures DecodedValue(Codeword(v)) == v
  {
    var b := ToBits(v + 2);
    CodewordLength(v);
    RestoredCompacted(b);
  }

  /** Every non-empty bit string is the codeword of the value it decodes to. */
  lemma CodewordOnto(c: seq<bool>)
    requires c != []
    ensures Codeword(DecodedValue(c)) == c
  {
    CodewordOf(DecodedValue(c), Restored(c));
    CompactedRestored(c);
  }

  /** Distinct values have distinct codewords. */
  lemma CodewordInjective(x: nat, y: nat)
    requires Codeword(x) == Codeword(y)
    ensures x == y
  {
    CodewordRoundTrip(x);
    CodewordRoundTrip(y);
  }

  /** The codeword of v is read off any vector with top bit set that denotes v + 2. */
  lemma CodewordOf(v: nat, b: seq<bool>)
    requires |b| > 0 && b[|b| - 1] && Value(b) == v + 2
    ensures Codeword(v) == Compacted(b)
  {
    ToBitsOfValue(b);
  }

  /** The first three codewords: 0 is "0", 1 is "1", 2 is "01" (index 0 first). */
  lemma CodewordExamples()
    ensures Codeword(0) == [false]
    ensures Codeword(1) == [true]
    ensures Codeword(2) == [false, true]
  {
    CodewordOfZero();
    CodewordOfOne();
    CodewordOfTwo();
  }

  lemma CodewordOfZero()
    ensures Codeword(0) == [false]
  {
    var two := [false, true];
    assert two[1..] == [true] && [true][1..] == [];
    CodewordOf(0, two);
  }

  lemma CodewordOfOne()
    ensures Codeword(1) == [true]
  {
    var three := [true, true];
    assert three[1..] == [true] && [true][1..] == [];
    CodewordOf(1, three);
  }

  lemma CodewordOfTwo()
    ensures Codeword(2) == [false, true]
  {
    var four := [false, false, true];
    assert four[1..] == [false, true] && [false, true][1..] == [true] && [true][1..] == [];
    CodewordOf(2, four);
    CompactedOfThree(four);
  }

  lemma CompactedOfThree(b: seq<bool>)
    requires |b| == 3
    ensures Compacted(b) == [b[0], !b[1]]
  {
    assert b[1..|b| - 1] == [b[1]];
  }

  /** Adds the bias when `add`, then compacts the vector. */
  method Encode(bits: seq<bool>, add: bool) returns (r: seq<bool>)
    ensures r == Compacted(if add then Plus(bits, Bias as nat) else bits)
  {
    var input := bits;
    if add {
      input := Add(input, Bias);
    }
    r := CompactBits(input);
  }

  /** The body of Encode after the addition: keeps bit 0, inverts the
    interior bits and drops the top bit, collecting the output in a growing
    list; the empty vector comes back as it is. */
  method CompactBits(input: seq<bool>) returns (r: seq<bool>)
    ensures r == Compacted(input)
  {
    if |input| == 0 {
      return input;
    }
    var encodedBitsList := [input[0]];
    var i := 1;
    while i < |input| - 1
      invariant 1 <= i <= if |input| > 1 then |input| - 1 else 1
      invariant encodedBitsList == [input[0]] + Inverted(input[1..i])
    {
      assert input[1..i + 1] == input[1..i] + [input[i]];
      InvertedSnoc(input[1..i], input[i]);
      encodedBitsList := encodedBitsList + [!input[i]];
      i := i + 1;
    }
    assert encodedBitsList == Compacted(input) by {
      if |input| > 1 {
        assert input[1..i] == input[1..|input| - 1];
      }
    }
    r := encodedBitsList;
  }

  /** The codeword of a non-negative integer; a negative one is rejected. */
  method EncodeInteger(value: int) returns (r: Result<seq<bool>>)
    ensures value < 0 ==> r == Err(ArgumentOutOfRange)
    ensures value >= 0 ==> r == Ok(Codeword(value))
  {
    if value < 0 {
      return Err(ArgumentOutOfRange);
    }
    var bits := Encode(ToBits(value + 2), false);
    r := Ok(bits);
  }

  /** Keeps bit 0, inverts the other bits, appends a set top bit, and then
    subtracts 2 when `subtract`; an empty input comes back as it is. */
  method Decode(bits: seq<bool>, subtract: bool) returns (r: seq<bool>)
    ensures r == Decoded(bits, subtract)
  {
    if |bits| == 0 {
      return bits;
    }
    var decodedBitsList := [bits[0]];
    for i := 1 to |bits|
      invariant decodedBitsList == [bits[0]] + Inverted(bits[1..i])
    {
      decodedBitsList := decodedBitsList + [!bits[i]];
    }
    decodedBitsList := decodedBitsList + [true];
    assert bits[1..|bits|] == bits[1..];
    assert decodedBitsList == Restored(bits);
    r := decodedBitsList;
    if subtract {
      r := Subtract(r, Bias);
    }
  }

  /** The codeword of an integer, as the extension method on integers. */
  method ToBitsCb(value: int) returns (r: Result<seq<bool>>)
    ensures value < 0 ==> r == Err(ArgumentOutOfRange)
    ensures value >= 0 ==> r == Ok(Codeword(value)) && DecodedValue(r.value) == value
  {
    r := EncodeInteger(value);
    if value >= 0 {
      CodewordRoundTrip(value);
    }
  }

  /** The integer a bit string decodes to, as the extension method on bit arrays. */
  method ToIntegerCb(bits: seq<bool>) returns (v: nat)
    ensures v == DecodedValue(bits)
  {
    var decoded := Decode(bits, true);
    v := ToInteger(decoded);
  }
}
