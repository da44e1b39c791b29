/** The Base64 codec as it is written: loops over arrays, bit operations, and array accesses that
    may throw.  An exception is modelled by returning None. */
module Base64Codec {
  import opened Bits
  import opened Quanta
  import opened Base64Spec
  import opened Options

  /** The bytes of a Java array index expression: throws when out of range. */
  predicate InRange(a: array<Byte>, i: int) {
    0 <= i < a.Length
  }

  // ---------------------------------------------------------------- tables

  const UPPER := "ABCDEFGHIJKLMNOPQRSTUVWXYZ"
  const LOWER := "abcdefghijklmnopqrstuvwxyz"
  const DIGITS := "0123456789"
  const ENCODING_TABLE := UPPER + LOWER + DIGITS + "+/"

  lemma UpperIs(v: nat)
    ensures |UPPER| == 26 && (v < 26 ==> UPPER[v] as int == 65 + v)
  {
    var upper := "ABCDEFGHIJKLMNOPQRSTUVWXYZ";
    assert UPPER == upper;
  }

  lemma LowerIs(v: nat)
    ensures |LOWER| == 26 && (v < 26 ==> LOWER[v] as int == 97 + v)
  {
    var lower := "abcdefghijklmnopqrstuvwxyz";
    assert LOWER == lower;
  }

  lemma DigitsAre(v: nat)
    ensures |DIGITS| == 10 && (v < 10 ==> DIGITS[v] as int == 48 + v)
  {
    var digits := "0123456789";
    assert DIGITS == digits;
  }

  lemma JoinedAt<T>(a: seq<T>, b: seq<T>, c: seq<T>, d: seq<T>, v: nat)
    requires v < |a| + |b| + |c| + |d|
    ensures (a + b + c + d)[v] == if v < |a| then a[v] else if v < |a| + |b| then b[v - |a|]
                                  else if v < |a| + |b| + |c| then c[v - |a| - |b|] else d[v - |a| - |b| - |c|]
  {
  }

  lemma EncodingTableIs(v: int)
    requires 0 <= v < 64
    ensures |ENCODING_TABLE| == 64 && ENCODING_TABLE[v] as int == Letter(v)
  {
    UpperIs(v);
    LowerIs(if v < 26 then 0 else v - 26);
    DigitsAre(if v < 52 then 0 else v - 52);
    JoinedAt(UPPER, LOWER, DIGITS, "+/", v);
  }

  ghost predicate IsDecodingTable(t: array<Byte>)
    reads t
  {
    t.Length == 128 && forall c | 0 <= c < 128 :: t[c] == Value(c)
  }

  /** The static initialiser. */
  method BuildDecodingTable() returns (t: array<Byte>)
    ensures IsDecodingTable(t)
  {
    t := new Byte[128](_ => 0);
    for i := 0 to 128
      invariant forall c | 0 <= c < i :: t[c] == -1
    {
      t[i] := -1;
    }
    for i := 65 to 91
      invariant forall c | 0 <= c < 128 :: t[c] == if 65 <= c < i then c - 65 else -1
    {
      t[i] := i - 65;
    }
    for i := 97 to 123
      invariant forall c | 0 <= c < 128 ::
                  t[c] == if 65 <= c <= 90 then c - 65 else if 97 <= c < i then c - 97 + 26 else -1
    {
      t[i] := i - 97 + 26;
    }
    for i := 48 to 58
      invariant forall c | 0 <= c < 128 ::
                  t[c] == if 65 <= c <= 90 then c - 65 else if 97 <= c <= 122 then c - 97 + 26
                          else if 48 <= c < i then c - 48 + 52 else -1
    {
      t[i] := i - 48 + 52;
    }
    t[43] := 62;
    t[47] := 63;
  }

  method IsValidBase64Byte(table: array<Byte>, b: Byte) returns (valid: bool)
    requires IsDecodingTable(table)
    ensures valid == IsValid(b)
  {
    if b == PAD {
      return true;
    } else if b < 0 {
      return false;
    } else if table[b] == -1 {
      return false;
    }
    return true;
  }

  // ---------------------------------------------------------------- filtering

  lemma FilterStep(d: seq<Byte>, i: nat)
    requires i < |d|
    ensures Filter(d[..i + 1]) == Filter(d[..i]) + if IsValid(d[i]) then [d[i]] else []
  {
    assert d[..i + 1][..i] == d[..i];
  }

  method DiscardNonBase64Bytes(table: array<Byte>, data: array<Byte>) returns (newData: array<Byte>)
    requires IsDecodingTable(table)
    ensures newData[..] == Filter(data[..])
  {
    var temp := new Byte[data.Length](_ => 0);
    var bytesCopied := 0;
    for i := 0 to data.Length
      invariant bytesCopied <= i
      invariant temp[..bytesCopied] == Filter(data[..i])
      invariant IsDecodingTable(table)
    {
      FilterStep(data[..], i);
      assert data[..][..i] == data[..i] && data[..][..i + 1] == data[..i + 1];
      var valid := IsValidBase64Byte(table, data[i]);
      if valid {
        temp[bytesCopied] := data[i];
        bytesCopied := bytesCopied + 1;
      }
    }
    assert data[..data.Length] == data[..];
    newData := new Byte[bytesCopied](i requires 0 <= i < bytesCopied <= temp.Length reads temp => temp[i]);
    assert newData[..] == temp[..bytesCopied];
  }

  // ---------------------------------------------------------------- encoding

  lemma Mask8(x: int)
    ensures BitAnd(x, 0xff) == Unsigned(x)
  {
    Powers();
    AndIsMod(x, 8);
  }

  lemma And6(x: int)
    ensures BitAnd(x, 0x3f) == x % 64
  {
    Powers();
    AndIsMod(x, 6);
  }

  lemma Or4(x: int, y: int)
    requires 0 <= y < 16
    ensures BitOr(x * 16, y) == x * 16 + y
  {
    Powers();
    OrIsPlus(x, y, 4);
  }

  lemma Or2(x: int, y: int)
    requires 0 <= y < 4
    ensures BitOr(x * 4, y) == x * 4 + y
  {
    Powers();
    OrIsPlus(x, y, 2);
  }

  lemma Or6(x: int, y: int)
    requires 0 <= y < 64
    ensures BitOr(x * 64, y) == x * 64 + y
  {
    Powers();
    OrIsPlus(x, y, 6);
  }

  /** The letter that joins the low bits of one byte with the high bits of the next. */
  lemma Joined4(a1: int, a2: int)
    requires 0 <= a1 < 256 && 0 <= a2 < 256
    ensures BitAnd(BitOr(a1 * 16, a2 / 16), 0x3f) == a1 % 4 * 16 + a2 / 16
  {
    hide BitAnd, BitOr;
    Or4(a1, a2 / 16);
    And6(a1 * 16 + a2 / 16);
    SplitLow(a1 % 4 * 16 + a2 / 16, a1 / 4, 64, a1 * 16 + a2 / 16);
  }

  lemma Joined2(a2: int, a3: int)
    requires 0 <= a2 < 256 && 0 <= a3 < 256
    ensures BitAnd(BitOr(a2 * 4, a3 / 64), 0x3f) == a2 % 16 * 4 + a3 / 64
  {
    hide BitAnd, BitOr;
    Or2(a2, a3 / 64);
    And6(a2 * 4 + a3 / 64);
    SplitLow(a2 % 16 * 4 + a3 / 64, a2 / 16, 64, a2 * 4 + a3 / 64);
  }

  /** encodingTable[x & 0x3f] */
  function Encoding(x: int): (b: Byte)
    requires 0 <= x < 64
    ensures b == Letter(x)
  {
    EncodingTableIs(x);
    ENCODING_TABLE[x] as int
  }

  lemma EncodeStep(d: seq<Byte>, k: nat)
    requires 3 * k + 3 <= |d|
    ensures EncodeBlocks(d[..3 * (k + 1)], k + 1) ==
            EncodeBlocks(d[..3 * k], k) + EncodeBlock(d[3 * k..3 * k + 3])
  {
    assert d[..3 * (k + 1)][..3 * k] == d[..3 * k];
    assert d[..3 * (k + 1)][3 * k..] == d[3 * k..3 * k + 3];
  }

  // One method for each expression of encode, so that bit-level reasoning stays in it.

  /** data[i] & 0xff */
  method LowByte(b: Byte) returns (a: int)
    ensures a == Unsigned(b)
  {
    hide BitAnd, BitOr;
    Mask8(b);
    a := BitAnd(b, 0xff);
  }

  /** (a >>> 2) & 0x3f */
  method HighSix(a: int) returns (v: int)
    requires 0 <= a < 256
    ensures v == a / 4
  {
    hide BitAnd, BitOr;
    And6(a / 4);
    v := BitAnd(a / 4, 0x3f);
  }

  /** ((a << 4) | (b >>> 4)) & 0x3f */
  method LowTwoHighFour(a: int, b: int) returns (v: int)
    requires 0 <= a < 256 && 0 <= b < 256
    ensures v == a % 4 * 16 + b / 16
  {
    hide BitAnd, BitOr;
    Joined4(a, b);
    v := BitAnd(BitOr(a * 16, b / 16), 0x3f);
  }

  /** ((a << 2) | (b >>> 6)) & 0x3f */
  method LowFourHighTwo(a: int, b: int) returns (v: int)
    requires 0 <= a < 256 && 0 <= b < 256
    ensures v == a % 16 * 4 + b / 64
  {
    hide BitAnd, BitOr;
    Joined2(a, b);
    v := BitAnd(BitOr(a * 4, b / 64), 0x3f);
  }

  /** a & 0x3f */
  method LowSix(a: int) returns (v: int)
    ensures v == a % 64
  {
    hide BitAnd, BitOr;
    And6(a);
    v := BitAnd(a, 0x3f);
  }

  lemma ShiftedMod(a: int)
    ensures (a * 16) % 64 == a % 4 * 16 && (a * 4) % 64 == a % 16 * 4
  {
    SplitLow(a % 4 * 16, a / 4, 64, a * 16);
    SplitLow(a % 16 * 4, a / 16, 64, a * 4);
  }

  /** The four letters the loop of encode computes from three bytes. */
  method EncodeQuantum(b1: Byte, b2: Byte, b3: Byte) returns (e1: Byte, e2: Byte, e3: Byte, e4: Byte)
    ensures [e1, e2, e3, e4] == EncodeBlock([b1, b2, b3])
  {
    hide Encoding;
    var a1 := LowByte(b1);
    var a2 := LowByte(b2);
    var a3 := LowByte(b3);
    var v1 := HighSix(a1);
    var v2 := LowTwoHighFour(a1, a2);
    var v3 := LowFourHighTwo(a2, a3);
    var v4 := LowSix(a3);
    e1, e2, e3, e4 := Encoding(v1), Encoding(v2), Encoding(v3), Encoding(v4);
  }

  lemma TailLetters(b: Byte, c: Byte)
    ensures var d1, d2 := Unsigned(b), Unsigned(c);
            EncodeTail([b, c]) == [Letter(d1 / 4), Letter(d1 % 4 * 16 + d2 / 16), Letter(d2 % 16 * 4), PAD]
  {
    var d2 := Unsigned(c);
    assert Unsigned(0) == 0;
    assert d2 % 16 * 4 + 0 / 64 == d2 % 16 * 4;
  }

  lemma OneLetters(b: Byte)
    ensures var d1 := Unsigned(b); EncodeTail([b]) == [Letter(d1 / 4), Letter(d1 % 4 * 16), PAD, PAD]
  {
    assert Unsigned(0) == 0 && Unsigned(b) % 4 * 16 + 0 / 16 == Unsigned(b) % 4 * 16;
  }

  /** case 1 of the switch of encode: one byte is left. */
  method EncodeOne(d: Byte) returns (e1: Byte, e2: Byte)
    ensures [e1, e2, PAD, PAD] == EncodeTail([d])
  {
    hide Encoding, EncodeTail, Letter;
    var d1 := LowByte(d);
    var b1 := HighSix(d1);
    var b2 := LowSix(d1 * 16);
    ShiftedMod(d1);
    OneLetters(d);
    e1, e2 := Encoding(b1), Encoding(b2);
  }

  /** case 2 of the switch of encode: two bytes are left. */
  method EncodeTwo(b: Byte, c: Byte) returns (e1: Byte, e2: Byte, e3: Byte)
    ensures [e1, e2, e3, PAD] == EncodeTail([b, c])
  {
    hide Encoding, EncodeTail, Letter;
    var d1 := LowByte(b);
    var d2 := LowByte(c);
    var b1 := HighSix(d1);
    var b2 := LowTwoHighFour(d1, d2);
    var b3 := LowSix(d2 * 4);
    ShiftedMod(d2);
    TailLetters(b, c);
    e1, e2, e3 := Encoding(b1), Encoding(b2), Encoding(b3);
  }

  lemma EncodedSizeIs(c: int)
    requires -0x8000_0000 <= c < 0x8000_0000
    ensures c >= 0 ==> JavaMod(c, 3) == c % 3
    ensures c >= 0 && EncodeFits(c) ==> EncodedSize(c) == 4 * (c / 3) + if c % 3 == 0 then 0 else 4
    ensures c >= 0 && !EncodeFits(c) ==> EncodedSize(c) < if c % 3 == 0 then 4 * (c / 3) else 0
    ensures c < 0 ==> c <= JavaMod(c, 3) <= 0
    ensures JavaMod(c, 3) > 0 ==> EncodedSize(c) < 0 || EncodedSize(c) >= 4
    ensures -2 <= JavaMod(c, 3) <= 2
  {
    var q := if c >= 0 then c / 3 else (-c) / 3;
    assert c >= 0 ==> c == 3 * q + c % 3;
    assert c >= 0 && c % 3 == 0 ==> 4 * c == 4 * q * 3;
  }

  /** Storing the next quantum extends the part of the result that is finished. */
  lemma StoreExtends(before: seq<Byte>, after: seq<Byte>, body: seq<Byte>, rest: seq<Byte>, q: seq<Byte>)
    requires |body| + |q| <= |rest| && before == body + rest[|body|..]
    requires after == before[..|body|] + q + before[|body| + |q|..]
    ensures after == (body + q) + rest[|body| + |q|..]
  {
  }

  /** Four stores at bytes[j], bytes[j + 1], bytes[j + 2] and bytes[j + 3]. */
  method Store4(bytes: array<Byte>, j: nat, e1: Byte, e2: Byte, e3: Byte, e4: Byte)
    requires j + 4 <= bytes.Length
    modifies bytes
    ensures bytes[..] == old(bytes[..])[..j] + [e1, e2, e3, e4] + old(bytes[..])[j + 4..]
  {
    bytes[j] := e1;
    bytes[j + 1] := e2;
    bytes[j + 2] := e3;
    bytes[j + 3] := e4;
  }

  /** The body of the loop of encode.  body is what is finished, rest what was there at first. */
  method EncodeAt(x: seq<Byte>, bytes: array<Byte>, j: nat, ghost body: seq<Byte>, ghost rest: seq<Byte>)
    requires |x| == 3 && j + 4 <= bytes.Length
    requires |body| == j && |rest| == bytes.Length && bytes[..] == body + rest[j..]
    modifies bytes
    ensures bytes[..] == (body + EncodeBlock(x)) + rest[j + 4..]
  {
    var e1, e2, e3, e4 := EncodeQuantum(x[0], x[1], x[2]);
    assert x == [x[0], x[1], x[2]];
    ghost var before := bytes[..];
    Store4(bytes, j, e1, e2, e3, e4);
    StoreExtends(before, bytes[..], body, rest, [e1, e2, e3, e4]);
  }

  /** The result after k quanta: their letters, then what was there at first. */
  ghost function Partial(d: seq<Byte>, k: nat, rest: seq<Byte>): seq<Byte>
    requires 3 * k <= |d| && 4 * k <= |rest|
  {
    EncodeBlocks(d[..3 * k], k) + rest[4 * k..]
  }

  lemma PartialEnds(d: seq<Byte>, rest: seq<Byte>)
    ensures Partial(d, 0, rest) == rest
    ensures forall n: nat | |d| == 3 * n && 4 * n <= |rest| :: Partial(d, n, rest) == EncodeBlocks(d, n) + rest[4 * n..]
  {
    forall n: nat | |d| == 3 * n && 4 * n <= |rest|
      ensures Partial(d, n, rest) == EncodeBlocks(d, n) + rest[4 * n..]
    {
      assert d[..3 * n] == d;
    }
  }

  /** One iteration of the loop of encode. */
  method EncodeNext(b1: Byte, b2: Byte, b3: Byte, bytes: array<Byte>, j: nat,
                    ghost d: seq<Byte>, ghost k: nat, ghost rest: seq<Byte>)
    requires 3 * k + 3 <= |d| && j == 4 * k && j + 4 <= bytes.Length == |rest|
    requires b1 == d[3 * k] && b2 == d[3 * k + 1] && b3 == d[3 * k + 2]
    requires bytes[..] == Partial(d, k, rest)
    modifies bytes
    ensures bytes[..] == Partial(d, k + 1, rest)
  {
    hide EncodeBlock, EncodeBlocks;
    EncodeStep(d, k);
    assert [b1, b2, b3] == d[3 * k..3 * k + 3];
    EncodeAt([b1, b2, b3], bytes, j, EncodeBlocks(d[..3 * k], k), rest);
  }

  /** The loop of encode over n quanta that are there; false when the result is too short for them. */
  method EncodeQuanta(data: array<Byte>, offset: nat, dataLength: int, bytes: array<Byte>, ghost n: nat)
    returns (ok: bool)
    requires data != bytes && dataLength == offset + 3 * n <= data.Length
    modifies bytes
    ensures ok <==> 4 * n <= bytes.Length
    ensures ok ==> bytes[..] == EncodeBlocks(data[offset..dataLength], n) + old(bytes[..])[4 * n..]
  {
    hide *;
    ghost var d, rest := data[offset..dataLength], bytes[..];
    ghost var k := 0;
    var i, j := offset, 0;
    PartialEnds(d, rest);
    while i < dataLength
      invariant k <= n && i == offset + 3 * k && j == 4 * k <= bytes.Length
      invariant forall p | 0 <= p < |d| :: d[p] == data[offset + p]
      invariant bytes[..] == Partial(d, k, rest)
    {
      if j + 4 > bytes.Length {
        return false;
      }
      EncodeNext(data[i], data[i + 1], data[i + 2], bytes, j, d, k, rest);
      i, j, k := i + 3, j + 4, k + 1;
    }
    ok := true;
  }

  /** The loop of encode; false when it throws ArrayIndexOutOfBoundsException. */
  method EncodeLoop(data: array<Byte>, offset: int, dataLength: int, bytes: array<Byte>, ghost n: nat)
    returns (ok: bool)
    requires data != bytes
    requires offset > data.Length ==> dataLength <= offset
    requires 0 <= offset <= data.Length ==> dataLength == offset + 3 * n <= data.Length
    modifies bytes
    ensures ok <==> if 0 <= offset <= data.Length then 4 * n <= bytes.Length else offset >= 0 || dataLength <= offset
    ensures offset < 0 || data.Length < offset ==> bytes[..] == old(bytes[..])
    ensures 0 <= offset <= data.Length && ok ==>
              bytes[..] == EncodeBlocks(data[offset..dataLength], n) + old(bytes[..])[4 * n..]
  {
    hide *;
    if offset < 0 || data.Length < offset {
      return dataLength <= offset;  // data[offset] throws, or the loop has no iteration
    }
    ok := EncodeQuanta(data, offset, dataLength, bytes, n);
  }

  /** The switch of encode; false when it throws ArrayIndexOutOfBoundsException. */
  method EncodeSwitch(data: array<Byte>, modulus: int, bytes: array<Byte>) returns (ok: bool)
    requires data != bytes && (1 <= modulus <= 2 && modulus <= data.Length ==> bytes.Length >= 4)
    modifies bytes
    ensures ok <==> !(1 <= modulus <= 2) || modulus <= data.Length
    ensures bytes[..] == if 1 <= modulus <= 2 && modulus <= data.Length
                         then old(bytes[..bytes.Length - 4]) + EncodeTail(data[data.Length - modulus..])
                         else old(bytes[..])
  {
    hide EncodeTail;
    var size := bytes.Length;
    ok := true;
    if modulus == 1 {
      if !InRange(data, data.Length - 1) {
        return false;
      }
      var e1, e2 := EncodeOne(data[data.Length - 1]);
      bytes[size - 4], bytes[size - 3], bytes[size - 2], bytes[size - 1] := e1, e2, PAD, PAD;
      assert data[data.Length - 1..] == [data[data.Length - 1]];
      assert bytes[..] == old(bytes[..size - 4]) + [e1, e2, PAD, PAD];
    } else if modulus == 2 {
      if !InRange(data, data.Length - 2) {
        return false;
      }
      var e1, e2, e3 := EncodeTwo(data[data.Length - 2], data[data.Length - 1]);
      bytes[size - 4], bytes[size - 3], bytes[size - 2], bytes[size - 1] := e1, e2, e3, PAD;
      assert data[data.Length - 2..] == [data[data.Length - 2], data[data.Length - 1]];
      assert bytes[..] == old(bytes[..size - 4]) + [e1, e2, e3, PAD];
    }
  }

  /** encode after the array has been made: the loop and the switch. */
  method EncodeInto(data: array<Byte>, offset: int, modulus: int, bytes: array<Byte>) returns (ok: bool)
    requires data != bytes && -2 <= modulus <= 2
    requires modulus > 0 ==> bytes.Length >= 4
    requires 0 <= offset <= data.Length ==> modulus == (data.Length - offset) % 3
    requires offset > data.Length ==> data.Length - offset <= modulus <= 0
    modifies bytes
    ensures offset < 0 ==> !ok
    ensures offset > data.Length ==> ok && bytes[..] == old(bytes[..])
    ensures 0 <= offset <= data.Length ==>
              var c := data.Length - offset;
              && (ok <==> 4 * (c / 3) <= bytes.Length)
              && (bytes.Length == 4 * (c / 3) + (if c % 3 == 0 then 0 else 4) ==>
                    bytes[..] == Encoded(data[..][offset..]))
  {
    hide *;
    var dataLength := data.Length - modulus;
    ghost var n := if offset <= data.Length then (data.Length - offset) / 3 else 0;
    ok := EncodeLoop(data, offset, dataLength, bytes, n);
    if !ok {
      return;
    }
    ok := EncodeSwitch(data, modulus, bytes);
    if ok && 0 <= offset <= data.Length {
      EncodedParts(data[..][offset..], n);
      assert data[..][offset..][..3 * n] == data[offset..dataLength];
      assert data[..][offset..][3 * n..] == data[dataLength..];
    }
  }

  /** encode(byte[], int).  Virtual machines allow no longer arrays. */
  method Encode(data: array<Byte>, offset: int) returns (r: Option<array<Byte>>)
    requires data.Length <= 0x7FFF_FFFD && -0x8000_0000 <= offset < 0x8000_0000
    ensures match EncodeOutcome(data[..], offset)
            case Thrown => r.None?
            case Returned(e) => r.Some? && r.value[..] == e
  {
    hide Encoded, EncodedSize, EncodeFits, JavaDiv, JavaMod, ToInt;
    ToIntIs(data.Length - offset);
    var realCount := ToInt(data.Length - offset);
    var modulus := JavaMod(realCount, 3);
    var size := EncodedSize(realCount);
    EncodedSizeIs(realCount);
    if size < 0 {
      return None;  // NegativeArraySizeException
    }
    var bytes := new Byte[size](_ => 0);
    var ok := EncodeInto(data, offset, modulus, bytes);
    if !ok {
      return None;
    }
    assert offset > data.Length ==> bytes[..] == seq(size, _ => 0);
    r := Some(bytes);
  }

  lemma ToIntIs(x: int)
    ensures -0x8000_0000 <= x < 0x8000_0000 ==> ToInt(x) == x
  {
  }

  lemma EncodedParts(d: seq<Byte>, n: nat)
    requires 3 * n <= |d| < 3 * n + 3
    ensures Encoded(d) == EncodeBlocks(d[..3 * n], n) + EncodeTail(d[3 * n..])
  {
    assert |d| / 3 == n;
  }

  // ---------------------------------------------------------------- decoding

  /** (byte) ((high << k) | low) */
  lemma OrMinusOne(x: int)
    ensures BitOr(x, -1) == -1
  {
  }

  /** (byte) ((b1 << 2) | (b2 >> 4)) */
  method JoinFirst(b1: int, b2: int) returns (d: Byte)
    requires -1 <= b1 < 64 && -1 <= b2 < 64
    ensures d == Join(b1 * 4, b2 / 16)
  {
    hide BitOr;
    if b2 == -1 {
      OrMinusOne(b1 * 4);
    } else {
      Or2(b1, b2 / 16);
    }
    d := ToByte(BitOr(b1 * 4, b2 / 16));
  }

  /** (byte) ((b2 << 4) | (b3 >> 2)) */
  method JoinSecond(b2: int, b3: int) returns (d: Byte)
    requires -1 <= b2 < 64 && -1 <= b3 < 64
    ensures d == Join(b2 * 16, b3 / 4)
  {
    hide BitOr;
    if b3 == -1 {
      OrMinusOne(b2 * 16);
    } else {
      Or4(b2, b3 / 4);
    }
    d := ToByte(BitOr(b2 * 16, b3 / 4));
  }

  /** (byte) ((b3 << 6) | b4) */
  method JoinThird(b3: int, b4: int) returns (d: Byte)
    requires -1 <= b3 < 64 && -1 <= b4 < 64
    ensures d == Join(b3 * 64, b4)
  {
    hide BitOr;
    if b4 == -1 {
      OrMinusOne(b3 * 64);
    } else {
      Or6(b3, b4);
    }
    d := ToByte(BitOr(b3 * 64, b4));
  }

  /** The three bytes the loop of decode computes from four table entries. */
  method DecodeQuantum(table: array<Byte>, c1: Byte, c2: Byte, c3: Byte, c4: Byte)
    returns (d1: Byte, d2: Byte, d3: Byte)
    requires IsDecodingTable(table) && c1 >= 0 && c2 >= 0 && c3 >= 0 && c4 >= 0
    ensures [d1, d2, d3] == DecodeBlock([c1, c2, c3, c4])
  {
    var b1, b2, b3, b4 := table[c1], table[c2], table[c3], table[c4];
    d1 := JoinFirst(b1, b2);
    d2 := JoinSecond(b2, b3);
    d3 := JoinThird(b3, b4);
  }

  /** Three stores at bytes[j], bytes[j + 1] and bytes[j + 2]. */
  method Store3(bytes: array<Byte>, j: nat, d1: Byte, d2: Byte, d3: Byte)
    requires j + 3 <= bytes.Length
    modifies bytes
    ensures bytes[..] == old(bytes[..])[..j] + [d1, d2, d3] + old(bytes[..])[j + 3..]
  {
    bytes[j] := d1;
    bytes[j + 1] := d2;
    bytes[j + 2] := d3;
  }

  lemma DecodeStep(f: seq<Byte>, k: nat)
    requires 4 * k + 4 <= |f|
    ensures DecodeBlocks(f[..4 * k + 4], k + 1) ==
            DecodeBlocks(f[..4 * k], k) + DecodeBlock([f[4 * k], f[4 * k + 1], f[4 * k + 2], f[4 * k + 3]])
  {
    assert f[..4 * k + 4][..4 * k] == f[..4 * k];
    assert f[..4 * k + 4][4 * k..] == [f[4 * k], f[4 * k + 1], f[4 * k + 2], f[4 * k + 3]];
  }

  /** How often the loop of decode runs on a filtered text of this length. */
  function Iterations(length: nat): (m: nat)
    ensures if length > 0 then 4 * m < length <= 4 * m + 4 else m == 0
  {
    if length == 0 then 0 else (length - 1) / 4
  }

  /** The body of the loop of decode; false when bytes[j + 2] throws.  body is what is finished, rest
      what was there at first. */
  method DecodeAt(table: array<Byte>, q: seq<Byte>, bytes: array<Byte>, j: nat,
                  ghost body: seq<Byte>, ghost rest: seq<Byte>) returns (ok: bool)
    requires IsDecodingTable(table) && bytes != table && |q| == 4 && AllAscii(q)
    requires |body| == j && |rest| == bytes.Length && j <= bytes.Length && bytes[..] == body + rest[j..]
    modifies bytes
    ensures ok <==> j + 3 <= bytes.Length
    ensures ok ==> bytes[..] == (body + DecodeBlock(q)) + rest[j + 3..]
  {
    var d1, d2, d3 := DecodeQuantum(table, q[0], q[1], q[2], q[3]);
    assert q == [q[0], q[1], q[2], q[3]];
    if !InRange(bytes, j + 2) {
      return false;
    }
    ghost var before := bytes[..];
    Store3(bytes, j, d1, d2, d3);
    StoreExtends(before, bytes[..], body, rest, [d1, d2, d3]);
    ok := true;
  }

  /** The result after k quanta: their bytes, then what was there at first. */
  ghost function Decoding(f: seq<Byte>, k: nat, rest: seq<Byte>): seq<Byte>
    requires 4 * k <= |f| && 3 * k <= |rest|
  {
    DecodeBlocks(f[..4 * k], k) + rest[3 * k..]
  }

  lemma DecodingStart(f: seq<Byte>, rest: seq<Byte>)
    ensures Decoding(f, 0, rest) == rest
  {
  }

  /** One iteration of the loop of decode; false when it throws. */
  method DecodeNext(table: array<Byte>, q: seq<Byte>, bytes: array<Byte>, j: nat,
                    ghost f: seq<Byte>, ghost k: nat, ghost rest: seq<Byte>) returns (ok: bool)
    requires IsDecodingTable(table) && bytes != table && 4 * k + 4 <= |f| && |q| == 4 && AllAscii(q)
    requires q == [f[4 * k], f[4 * k + 1], f[4 * k + 2], f[4 * k + 3]]
    requires j == 3 * k <= bytes.Length == |rest| && bytes[..] == Decoding(f, k, rest)
    modifies bytes
    ensures ok <==> j + 3 <= bytes.Length
    ensures ok ==> bytes[..] == Decoding(f, k + 1, rest)
  {
    hide DecodeBlock, DecodeBlocks, IsDecodingTable;
    DecodeStep(f, k);
    ok := DecodeAt(table, q, bytes, j, DecodeBlocks(f[..4 * k], k), rest);
  }

  /** The loop of decode over the filtered text; false when it throws ArrayIndexOutOfBoundsException. */
  method DecodeLoop(table: array<Byte>, data: array<Byte>, bytes: array<Byte>) returns (ok: bool)
    requires IsDecodingTable(table) && AllAscii(data[..]) && bytes != table && bytes != data
    modifies bytes
    ensures ok <==> 3 * Iterations(data.Length) <= bytes.Length
    ensures ok ==> var m := Iterations(data.Length);
                   4 * m <= data.Length && bytes[..] == DecodeBlocks(data[..][..4 * m], m) + old(bytes[..])[3 * m..]
  {
    hide DecodeBlock, DecodeBlocks, Iterations, IsDecodingTable, Decoding, AllAscii;
    ghost var f, rest := data[..], bytes[..];
    ghost var k := 0;
    var i, j := 0, 0;
    DecodingStart(f, rest);
    while i < data.Length - 4
      invariant i == 4 * k && j == 3 * k <= bytes.Length && k <= Iterations(data.Length)
      invariant data[..] == f && IsDecodingTable(table)
      invariant bytes[..] == Decoding(f, k, rest)
    {
      FourOf(f, i);
      var fits := DecodeNext(table, [data[i], data[i + 1], data[i + 2], data[i + 3]], bytes, j, f, k, rest);
      if !fits {
        return false;
      }
      i, j, k := i + 4, j + 3, k + 1;
    }
    DecodingIs(f, k, rest);
    ok := true;
  }

  lemma FourOf(f: seq<Byte>, i: nat)
    requires i + 4 <= |f| && AllAscii(f)
    ensures AllAscii([f[i], f[i + 1], f[i + 2], f[i + 3]])
  {
  }

  lemma DecodingIs(f: seq<Byte>, k: nat, rest: seq<Byte>)
    requires 4 * k <= |f| && 3 * k <= |rest|
    ensures Decoding(f, k, rest) == DecodeBlocks(f[..4 * k], k) + rest[3 * k..]
  {
  }

  lemma TailBytes(q: seq<Byte>, x: seq<Byte>)
    requires |q| == 4 && |x| == 3
    requires x[0] == DecodeBlock(q)[0]
    requires TailLength(q) > 1 ==> x[1] == DecodeBlock(q)[1]
    requires TailLength(q) > 2 ==> x[2] == DecodeBlock(q)[2]
    ensures DecodeTail(q) == x[..TailLength(q)]
  {
  }

  /** The last four characters, in the three cases of decode. */
  method DecodeLast(table: array<Byte>, q: seq<Byte>) returns (d1: Byte, d2: Byte, d3: Byte)
    requires IsDecodingTable(table) && |q| == 4 && q[0] >= 0 && q[1] >= 0
    requires q[2] == PAD || (q[2] >= 0 && (q[3] == PAD || q[3] >= 0))
    ensures DecodeTail(q) == [d1, d2, d3][..TailLength(q)]
  {
    d2, d3 := 0, 0;
    var b1, b2 := table[q[0]], table[q[1]];
    d1 := JoinFirst(b1, b2);
    if q[2] != PAD {
      var b3 := table[q[2]];
      d2 := JoinSecond(b2, b3);
      if q[3] != PAD {
        var b4 := table[q[3]];
        d3 := JoinThird(b3, b4);
      }
    }
    TailBytes(q, [d1, d2, d3]);
  }

  /** The length decode computes for its result; a negative one makes it throw. */
  function DecodedSize(length: nat, pad2: bool, pad1: bool): int {
    if pad2 then (length / 4 - 1) * 3 + 1
    else if pad1 then (length / 4 - 1) * 3 + 2
    else length / 4 * 3
  }

  /** The final stores of decode: one, two or three bytes at the end. */
  method StoreLast(bytes: array<Byte>, count: nat, d1: Byte, d2: Byte, d3: Byte)
    requires 1 <= count <= 3 && count <= bytes.Length
    modifies bytes
    ensures bytes[..] == old(bytes[..bytes.Length - count]) + [d1, d2, d3][..count]
  {
    var size := bytes.Length;
    if count == 1 {
      bytes[size - 1] := d1;
    } else if count == 2 {
      bytes[size - 2] := d1;
      bytes[size - 1] := d2;
    } else {
      bytes[size - 3] := d1;
      bytes[size - 2] := d2;
      bytes[size - 1] := d3;
    }
  }

  /** What the loop has left of the result before the final stores. */
  lemma BodyOf(f: seq<Byte>)
    requires |f| >= 4
    ensures var m, n := Iterations(|f|), |f| / 4 - 1;
            n <= m <= n + 1 && 4 * m <= |f| && DecodeBlocks(f[..4 * m], m)[..3 * n] == DecodeBlocks(f[..4 * n], n)
    ensures |f| % 4 == 0 <==> Iterations(|f|) == |f| / 4 - 1
  {
    var m, n := Iterations(|f|), |f| / 4 - 1;
    if m == n + 1 {
      DecodeStep(f, n);
    }
  }

  lemma ResultIs(f: seq<Byte>, before: seq<Byte>, rest: seq<Byte>, last: seq<Byte>)
    requires |f| >= 4 && last == DecodeTail(f[|f| - 4..])
    requires before == DecodeBlocks(f[..4 * Iterations(|f|)], Iterations(|f|)) + rest
    requires |before| == 3 * (|f| / 4 - 1) + |last|
    ensures before[..|before| - |last|] + last == Decoded(f)
  {
    BodyOf(f);
    var n := |f| / 4 - 1;
    assert before[..3 * n] == DecodeBlocks(f[..4 * Iterations(|f|)], Iterations(|f|))[..3 * n];
  }

  lemma SizeFits(length: nat, pad2: bool, pad1: bool)
    ensures length < 4 ==> DecodedSize(length, pad2, pad1) == if pad2 then -2 else if pad1 then -1 else 0
    ensures length >= 4 && (length % 4 == 0 || !(pad2 || pad1)) ==>
              && 3 * Iterations(length) <= DecodedSize(length, pad2, pad1)
              && DecodedSize(length, pad2, pad1) == 3 * (length / 4 - 1) + (if pad2 then 1 else if pad1 then 2 else 3)
    ensures length >= 4 && length % 4 != 0 && (pad2 || pad1) ==>
              3 * Iterations(length) > DecodedSize(length, pad2, pad1)
  {
    var q := length / 4;
    assert length >= 4 ==> Iterations(length) == if length % 4 == 0 then q - 1 else q;
  }

  /** decode(byte[]) after the filter. */
  method DecodeData(table: array<Byte>, data: array<Byte>) returns (r: Option<array<Byte>>)
    requires IsDecodingTable(table) && AllAscii(data[..])
    ensures r.None? <==> DecodeThrows(data[..])
    ensures r.Some? ==> r.value[..] == Decoded(data[..])
  {
    hide DecodeBlock, DecodeBlocks, Decoded, DecodeTail, Iterations, DecodedSize;
    var length := data.Length;
    ghost var f := data[..];
    if !InRange(data, length - 2) {
      return None;
    }
    var pad2, pad1 := data[length - 2] == PAD, data[length - 1] == PAD;
    var size := DecodedSize(length, pad2, pad1);
    SizeFits(length, pad2, pad1);
    if size < 0 {
      return None;  // NegativeArraySizeException
    }
    var bytes := new Byte[size](_ => 0);
    var ok := DecodeLoop(table, data, bytes);
    if !ok || !InRange(data, length - 4) {
      return None;
    }
    var count := if pad2 then 1 else if pad1 then 2 else 3;
    assert size == 3 * (length / 4 - 1) + count && length / 4 >= 1;
    var q := [data[length - 4], data[length - 3], data[length - 2], data[length - 1]];
    assert q == f[|f| - 4..];
    var d1, d2, d3 := DecodeLast(table, q);
    ghost var before := bytes[..];
    StoreLast(bytes, count, d1, d2, d3);
    ResultIs(f, before, before[3 * Iterations(length)..], [d1, d2, d3][..count]);
    r := Some(bytes);
  }

  /** decode(byte[]) */
  method Decode(table: array<Byte>, text: array<Byte>) returns (r: Option<array<Byte>>)
    requires IsDecodingTable(table)
    ensures match DecodeOutcome(text[..])
            case Thrown => r.None?
            case Returned(d) => r.Some? && r.value[..] == d
  {
    var data := DiscardNonBase64Bytes(table, text);
    r := DecodeData(table, data);
  }
}
