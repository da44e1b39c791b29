/** What the Base64 codec computes, as functions on byte sequences, and its laws: section 4 of
    RFC 4648, with the code's own treatment of foreign and malformed input. */
module Base64Spec {
  import opened Bits
  import opened Quanta

  const PAD: Byte := 61  // '='

  datatype Outcome = Returned(bytes: seq<Byte>) | Thrown

  // ---------------------------------------------------------------- tables

  /** encodingTable[v] */
  function Letter(v: int): Byte
    requires 0 <= v < 64
  {
    if v < 26 then 65 + v
    else if v < 52 then 71 + v
    else if v < 62 then v - 4
    else if v == 62 then 43
    else 47
  }

  /** decodingTable[c]; no index outside the table is ever looked up in bytes that passed the filter. */
  function Value(c: int): (v: int)
    ensures -1 <= v < 64
    ensures v != -1 ==> 0 <= c < 128 && c != PAD
  {
    if 65 <= c <= 90 then c - 65
    else if 97 <= c <= 122 then c - 71
    else if 48 <= c <= 57 then c + 4
    else if c == 43 then 62
    else if c == 47 then 63
    else -1
  }

  /** isValidBase64Byte */
  predicate IsValid(b: Byte) {
    if b == PAD then true
    else if b < 0 then false
    else Value(b) != -1
  }

  /** A character of the alphabet proper. */
  predicate IsLetter(b: Byte) {
    Value(b) != -1
  }

  lemma ValueOfLetter(v: int)
    requires 0 <= v < 64
    ensures Value(Letter(v)) == v
  {
  }

  lemma LetterOfValue(c: Byte)
    requires IsLetter(c)
    ensures Letter(Value(c)) == c
  {
  }

  // ---------------------------------------------------------------- filtering

  /** discardNonBase64Bytes */
  function Filter(d: seq<Byte>): (f: seq<Byte>)
    ensures |f| <= |d|
    ensures forall i | 0 <= i < |f| :: IsValid(f[i])
  {
    if d == [] then []
    else Filter(d[..|d| - 1]) + if IsValid(d[|d| - 1]) then [d[|d| - 1]] else []
  }

  lemma {:induction false} FilterConcat(a: seq<Byte>, b: seq<Byte>)
    ensures Filter(a + b) == Filter(a) + Filter(b)
  {
    if b == [] {
      assert a + b == a;
    } else {
      FilterConcat(a, b[..|b| - 1]);
      assert (a + b)[..|a + b| - 1] == a + b[..|b| - 1];
    }
  }

  lemma {:induction false} FilterForeign(j: seq<Byte>)
    requires forall i | 0 <= i < |j| :: !IsValid(j[i])
    ensures Filter(j) == []
  {
    if j != [] {
      FilterForeign(j[..|j| - 1]);
    }
  }

  lemma {:induction false} FilterValid(d: seq<Byte>)
    requires forall i | 0 <= i < |d| :: IsValid(d[i])
    ensures Filter(d) == d
  {
    if d != [] {
      FilterValid(d[..|d| - 1]);
      assert d == d[..|d| - 1] + [d[|d| - 1]];
    }
  }

  // ---------------------------------------------------------------- encoding

  /** b & 0xff */
  function Unsigned(b: int): (r: int)
    ensures 0 <= r < 256
  {
    b % 256
  }

  /** Three bytes, read as one 24-bit group, as four letters of six bits each. */
  function EncodeBlock(x: seq<Byte>): (r: seq<Byte>)
    requires |x| == 3
    ensures |r| == 4
  {
    var a1, a2, a3 := Unsigned(x[0]), Unsigned(x[1]), Unsigned(x[2]);
    [Letter(a1 / 4), Letter(a1 % 4 * 16 + a2 / 16), Letter(a2 % 16 * 4 + a3 / 64), Letter(a3 % 64)]
  }

  function EncodeBlocks(d: seq<Byte>, n: nat): (r: seq<Byte>)
    requires |d| == 3 * n
    ensures |r| == 4 * n
  {
    MapThrees(EncodeBlock, d, n)
  }

  /** The final quantum of one or two bytes; the missing bytes count as zero. */
  function EncodeTail(d: seq<Byte>): (r: seq<Byte>)
    requires |d| < 3
    ensures |r| == if |d| == 0 then 0 else 4
  {
    if |d| == 0 then []
    else if |d| == 1 then EncodeBlock([d[0], 0, 0])[..2] + [PAD, PAD]
    else EncodeBlock([d[0], d[1], 0])[..3] + [PAD]
  }

  function Encoded(d: seq<Byte>): (r: seq<Byte>)
    ensures |r| == 4 * (|d| / 3) + if |d| % 3 == 0 then 0 else 4
  {
    var n := |d| / 3;
    EncodeBlocks(d[..3 * n], n) + EncodeTail(d[3 * n..])
  }

  /** The length encode computes for its result, in 32 bits; a negative one makes it throw. */
  function EncodedSize(realCount: int): int {
    if JavaMod(realCount, 3) == 0 then JavaDiv(ToInt(4 * realCount), 3)
    else ToInt(4 * (JavaDiv(realCount, 3) + 1))
  }

  /** How many bytes can be encoded before that computation wraps around. */
  predicate EncodeFits(n: nat) {
    if n % 3 == 0 then n <= 536870910 else n <= 1610612732
  }

  /** encode(data, offset), for every offset.  Past the end the code returns an array of zeros, of the
      length it computes. */
  function EncodeOutcome(data: seq<Byte>, offset: int): Outcome {
    if offset < 0 then Thrown
    else if offset <= |data| then
      if EncodeFits(|data| - offset) then Returned(Encoded(data[offset..])) else Thrown
    else
      var size := EncodedSize(|data| - offset);
      if size < 0 then Thrown else Returned(seq(size, _ => 0))
  }

  // ---------------------------------------------------------------- decoding

  /** A byte from a sextet above and a part of a sextet below.  The table gives -1 for '=', which
      the code does not check for inside a text; or-ing -1 gives -1. */
  function Join(high: int, low: int): Byte {
    if low < 0 then -1 else ToByte(high + low)
  }

  function DecodeBlock(q: seq<Byte>): (r: seq<Byte>)
    requires |q| == 4
    ensures |r| == 3
  {
    var v1, v2, v3, v4 := Value(q[0]), Value(q[1]), Value(q[2]), Value(q[3]);
    [Join(v1 * 4, v2 / 16), Join(v2 * 16, v3 / 4), Join(v3 * 64, v4)]
  }

  function DecodeBlocks(f: seq<Byte>, n: nat): (r: seq<Byte>)
    requires |f| == 4 * n
    ensures |r| == 3 * n
  {
    MapFours(DecodeBlock, f, n)
  }

  predicate AllAscii(f: seq<Byte>) {
    forall i | 0 <= i < |f| :: f[i] >= 0
  }

  /** How many bytes the last four characters give. */
  function TailLength(q: seq<Byte>): nat
    requires |q| == 4
  {
    if q[2] == PAD then 1 else if q[3] == PAD then 2 else 3
  }

  function DecodeTail(q: seq<Byte>): (r: seq<Byte>)
    requires |q| == 4
    ensures |r| == TailLength(q)
  {
    DecodeBlock(q)[..TailLength(q)]
  }

  /** Whole quanta, then the last four characters.  When the length is not a multiple of four the
      last four overlap with what the loop has already decoded, and replace it. */
  function Decoded(f: seq<Byte>): seq<Byte>
    requires |f| >= 4
  {
    var n := |f| / 4 - 1;
    DecodeBlocks(f[..4 * n], n) + DecodeTail(f[|f| - 4..])
  }

  /** The filtered texts on which decode throws: too short, or padded with a length that is not a
      multiple of four. */
  predicate DecodeThrows(f: seq<Byte>) {
    |f| < 4 || (|f| % 4 != 0 && (f[|f| - 2] == PAD || f[|f| - 1] == PAD))
  }

  function DecodeFiltered(f: seq<Byte>): Outcome {
    if DecodeThrows(f) then Thrown else Returned(Decoded(f))
  }

  /** decode(byte[]) */
  function DecodeOutcome(data: seq<Byte>): Outcome {
    DecodeFiltered(Filter(data))
  }

  // ---------------------------------------------------------------- blocks, arithmetically

  lemma ToByteOf(x: int, b: Byte)
    requires x % 256 == b % 256
    ensures ToByte(x) == b
  {
  }

  lemma SplitLow(p: int, q: int, high: int, low: int)
    requires low == q * high + p && high > 0 && 0 <= p < high
    ensures low / high == q && low % high == p
  {
    DivModUnique(low, high, q, p);
  }

  /** The three bytes that four sextets give. */
  lemma DecodeValues(q: seq<Byte>, v1: int, v2: int, v3: int, v4: int)
    requires |q| == 4 && v1 == Value(q[0]) && v2 == Value(q[1]) && v3 == Value(q[2]) && v4 == Value(q[3])
    ensures v2 >= 0 ==> DecodeBlock(q)[0] == ToByte(v1 * 4 + v2 / 16)
    ensures v3 >= 0 ==> DecodeBlock(q)[1] == ToByte(v2 * 16 + v3 / 4)
    ensures v4 >= 0 ==> DecodeBlock(q)[2] == ToByte(v3 * 64 + v4)
  {
  }

  lemma EncodeLetters(x: seq<Byte>)
    requires |x| == 3
    ensures forall i | 0 <= i < 4 :: IsLetter(EncodeBlock(x)[i])
    ensures var e, a1, a2, a3 := EncodeBlock(x), Unsigned(x[0]), Unsigned(x[1]), Unsigned(x[2]);
            && Value(e[0]) == a1 / 4 && Value(e[1]) == a1 % 4 * 16 + a2 / 16
            && Value(e[2]) == a2 % 16 * 4 + a3 / 64 && Value(e[3]) == a3 % 64
  {
    var a1, a2, a3 := Unsigned(x[0]), Unsigned(x[1]), Unsigned(x[2]);
    ValueOfLetter(a1 / 4);
    ValueOfLetter(a1 % 4 * 16 + a2 / 16);
    ValueOfLetter(a2 % 16 * 4 + a3 / 64);
    ValueOfLetter(a3 % 64);
  }

  lemma Regroup(a1: int, a2: int, a3: int, v1: int, v2: int, v3: int, v4: int)
    requires 0 <= a1 < 256 && 0 <= a2 < 256 && 0 <= a3 < 256
    requires v1 == a1 / 4 && v2 == a1 % 4 * 16 + a2 / 16 && v3 == a2 % 16 * 4 + a3 / 64 && v4 == a3 % 64
    ensures 0 <= v2 && 0 <= v3 && 0 <= v4
    ensures (v1 * 4 + v2 / 16) % 256 == a1 && (v2 * 16 + v3 / 4) % 256 == a2 && (v3 * 64 + v4) % 256 == a3
  {
    SplitLow(a2 / 16, a1 % 4, 16, v2);
    SplitLow(a3 / 64, a2 % 16, 4, v3);
    SplitLow(a2, a1 % 4, 256, v2 * 16 + v3 / 4);
    SplitLow(a3, a2 % 16, 256, v3 * 64 + v4);
  }

  lemma DecodeOfEncode(x: seq<Byte>)
    requires |x| == 3
    ensures DecodeBlock(EncodeBlock(x)) == x
  {
    var e := EncodeBlock(x);
    var v1, v2, v3, v4 := Value(e[0]), Value(e[1]), Value(e[2]), Value(e[3]);
    EncodeLetters(x);
    Regroup(Unsigned(x[0]), Unsigned(x[1]), Unsigned(x[2]), v1, v2, v3, v4);
    ToByteOf(v1 * 4 + v2 / 16, x[0]);
    ToByteOf(v2 * 16 + v3 / 4, x[1]);
    ToByteOf(v3 * 64 + v4, x[2]);
    DecodeGives(e, v1, v2, v3, v4, x);
  }

  lemma DecodeGives(q: seq<Byte>, v1: int, v2: int, v3: int, v4: int, x: seq<Byte>)
    requires |q| == 4 && v1 == Value(q[0]) && v2 == Value(q[1]) && v3 == Value(q[2]) && v4 == Value(q[3])
    requires v2 >= 0 && v3 >= 0 && v4 >= 0 && |x| == 3
    requires ToByte(v1 * 4 + v2 / 16) == x[0] && ToByte(v2 * 16 + v3 / 4) == x[1] && ToByte(v3 * 64 + v4) == x[2]
    ensures DecodeBlock(q) == x
  {
    DecodeValues(q, v1, v2, v3, v4);
  }

  lemma ToByteMod(x: int)
    ensures ToByte(x) % 256 == x % 256
  {
  }

  lemma RegroupBack(v1: int, v2: int, v3: int, v4: int)
    requires 0 <= v1 < 64 && 0 <= v2 < 64 && 0 <= v3 < 64 && 0 <= v4 < 64
    ensures var a1, a2, a3 := (v1 * 4 + v2 / 16) % 256, (v2 * 16 + v3 / 4) % 256, (v3 * 64 + v4) % 256;
            && a1 / 4 == v1 && a1 % 4 * 16 + a2 / 16 == v2
            && a2 % 16 * 4 + a3 / 64 == v3 && a3 % 64 == v4
  {
    SplitLow(v2 % 16 * 16 + v3 / 4, v2 / 16, 256, v2 * 16 + v3 / 4);
    SplitLow(v3 % 4 * 64 + v4, v3 / 4, 256, v3 * 64 + v4);
    SplitLow(v2 / 16, v1, 4, v1 * 4 + v2 / 16);
    SplitLow(v3 / 4, v2 % 16, 16, v2 % 16 * 16 + v3 / 4);
    SplitLow(v4, v3 % 4, 64, v3 % 4 * 64 + v4);
  }

  lemma EncodeOfDecode(q: seq<Byte>)
    requires |q| == 4 && forall i | 0 <= i < 4 :: IsLetter(q[i])
    ensures EncodeBlock(DecodeBlock(q)) == q
  {
    var v1, v2, v3, v4 := Value(q[0]), Value(q[1]), Value(q[2]), Value(q[3]);
    DecodeValues(q, v1, v2, v3, v4);
    ToByteMod(v1 * 4 + v2 / 16);
    ToByteMod(v2 * 16 + v3 / 4);
    ToByteMod(v3 * 64 + v4);
    RegroupBack(v1, v2, v3, v4);
    LetterOfValue(q[0]);
    LetterOfValue(q[1]);
    LetterOfValue(q[2]);
    LetterOfValue(q[3]);
  }
}
