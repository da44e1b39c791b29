/** What the Base64 codec computes, said on bits and literal values rather than through its own tables. */
module Base64Bits {
  import opened Bits
  import opened Base64Spec
  import opened Base64Codec
  import opened Base64Laws
  import opened Base64Strings

  /** Table 1 of section 4 of RFC 4648. */
  lemma Alphabet(v: int)
    requires 0 <= v < 64
    ensures Letter(v) == if v < 26 then 'A' as int + v
                         else if v < 52 then 'a' as int + (v - 26)
                         else if v < 62 then '0' as int + (v - 52)
                         else if v == 62 then '+' as int else '/' as int
    ensures PAD == '=' as int
  {
  }

  /** Just the 64 letters have a value, and just they and '=' pass the filter. */
  lemma ValidIff(b: Byte)
    ensures IsLetter(b) <==> exists v :: 0 <= v < 64 && Letter(v) == b
    ensures IsValid(b) <==> IsLetter(b) || b == '=' as int
  {
    if IsLetter(b) {
      LetterOfValue(b);
    } else if exists v :: 0 <= v < 64 && Letter(v) == b {
      var v :| 0 <= v < 64 && Letter(v) == b;
      ValueOfLetter(v);
    }
  }

  // ---------------------------------------------------------------- groups of 24 bits

  lemma SplitSix(a1: int, a2: int, a3: int)
    requires 0 <= a1 < 256 && 0 <= a2 < 256 && 0 <= a3 < 256
    ensures a1 / 4 * 0x4_0000 + (a1 % 4 * 16 + a2 / 16) * 0x1000 + (a2 % 16 * 4 + a3 / 64) * 0x40 + a3 % 64 ==
              a1 * 0x1_0000 + a2 * 0x100 + a3
  {
    assert a1 == a1 / 4 * 4 + a1 % 4 && a2 == a2 / 16 * 16 + a2 % 16 && a3 == a3 / 64 * 64 + a3 % 64;
  }

  /** Four letters are the four groups of six bits of the 24 bits of three bytes, first byte first. */
  lemma TwentyFourBits(x: seq<Byte>, a1: int, a2: int, a3: int)
    requires |x| == 3 && 0 <= a1 < 256 && 0 <= a2 < 256 && 0 <= a3 < 256
    requires ToByte(a1) == x[0] && ToByte(a2) == x[1] && ToByte(a3) == x[2]
    ensures var e := EncodeBlock(x);
            && (forall i | 0 <= i < 4 :: IsLetter(e[i]))
            && Value(e[0]) * 0x4_0000 + Value(e[1]) * 0x1000 + Value(e[2]) * 0x40 + Value(e[3]) ==
                 a1 * 0x1_0000 + a2 * 0x100 + a3
  {
    EncodeLetters(x);
    UnsignedIs(x[0], a1);
    UnsignedIs(x[1], a2);
    UnsignedIs(x[2], a3);
    SplitSix(a1, a2, a3);
  }

  lemma UnsignedIs(b: Byte, a: int)
    requires 0 <= a < 256 && ToByte(a) == b
    ensures Unsigned(b) == a
  {
  }

  /** One byte: eight bits and four zero bits in two letters, then "==". */
  lemma TwelveBits(b: Byte, a: int)
    requires 0 <= a < 256 && ToByte(a) == b
    ensures var e := EncodeTail([b]);
            && IsLetter(e[0]) && IsLetter(e[1]) && e[2..] == ['=' as int, '=' as int]
            && Value(e[0]) * 64 + Value(e[1]) == a * 16
  {
    UnsignedIs(b, a);
    OneLetters(b);
    ValueOfLetter(a / 4);
    ValueOfLetter(a % 4 * 16);
    assert a == a / 4 * 4 + a % 4;
  }

  /** Two bytes: sixteen bits and two zero bits in three letters, then "=". */
  lemma EighteenBits(b: Byte, c: Byte, a1: int, a2: int)
    requires 0 <= a1 < 256 && ToByte(a1) == b && 0 <= a2 < 256 && ToByte(a2) == c
    ensures var e := EncodeTail([b, c]);
            && IsLetter(e[0]) && IsLetter(e[1]) && IsLetter(e[2]) && e[3..] == ['=' as int]
            && Value(e[0]) * 0x1000 + Value(e[1]) * 0x40 + Value(e[2]) == (a1 * 0x100 + a2) * 4
  {
    UnsignedIs(b, a1);
    UnsignedIs(c, a2);
    TailLetters(b, c);
    ValueOfLetter(a1 / 4);
    ValueOfLetter(a1 % 4 * 16 + a2 / 16);
    ValueOfLetter(a2 % 16 * 4);
    assert a1 == a1 / 4 * 4 + a1 % 4 && a2 == a2 / 16 * 16 + a2 % 16;
  }

  // ---------------------------------------------------------------- decoding malformed text

  /** Whatever four characters are decoded, the bytes are those of the code's shifts and ors on the table's
      values, -1 for '=' included. */
  lemma DecodeBits(q: seq<Byte>)
    requires |q| == 4
    ensures var v1, v2, v3, v4 := Value(q[0]), Value(q[1]), Value(q[2]), Value(q[3]);
            DecodeBlock(q) ==
            [ToByte(BitOr(v1 * 4, v2 / 16)), ToByte(BitOr(v2 * 16, v3 / 4)), ToByte(BitOr(v3 * 64, v4))]
  {
    var v1, v2, v3, v4 := Value(q[0]), Value(q[1]), Value(q[2]), Value(q[3]);
    hide BitOr, Value;
    OrValue(v1 * 4, v2 / 16);
    OrValue(v2 * 16, v3 / 4);
    OrValue(v3 * 64, v4);
    if v2 >= 0 { Or2(v1, v2 / 16); }
    if v3 >= 0 { Or4(v2, v3 / 4); }
    if v4 >= 0 { Or6(v3, v4); }
  }

  lemma OrValue(x: int, y: int)
    ensures y == -1 ==> BitOr(x, y) == -1
  {
  }

  /** The characters by which the length exceeds a multiple of four are left out, just before the last four. */
  lemma SurplusLeftOut(f: seq<Byte>)
    requires |f| >= 4
    ensures var n := |f| / 4 - 1; Decoded(f) == Decoded(f[..4 * n] + f[|f| - 4..])
  {
    var n := |f| / 4 - 1;
    var g := f[..4 * n] + f[|f| - 4..];
    assert |g| / 4 - 1 == n && g[..4 * n] == f[..4 * n] && g[|g| - 4..] == f[|f| - 4..];
  }

  /** Every text: too short, it throws; without '=' in the last two places it decodes, to three bytes for each
      four characters, surplus characters left out; with '=' there it decodes only without surplus. */
  lemma DecodeOutcomes(text: seq<Byte>)
    ensures var f, r := Filter(text), DecodeOutcome(text);
            && (|f| < 4 ==> r == Thrown)
            && (|f| >= 4 && f[|f| - 2] != '=' as int && f[|f| - 1] != '=' as int ==>
                  var n := |f| / 4 - 1;
                  && r == Returned(Decoded(f[..4 * n] + f[|f| - 4..])) && |r.bytes| == 3 * n + 3)
            && (|f| >= 4 && (f[|f| - 2] == '=' as int || f[|f| - 1] == '=' as int) ==>
                  if |f| % 4 != 0 then r == Thrown
                  else
                    && r == Returned(Decoded(f))
                    && |r.bytes| == 3 * (|f| / 4 - 1) + if f[|f| - 2] == '=' as int then 1 else 2)
  {
    var f := Filter(text);
    if |f| >= 4 {
      SurplusLeftOut(f);
      var q := f[|f| - 4..];
      assert q[2] == f[|f| - 2] && q[3] == f[|f| - 1];
    }
  }

  /** The characters that are looked up: all, or all but the last one or two when these are padding. */
  lemma LookupsFitIff(f: seq<Utf16>)
    requires |f| >= 2
    ensures LookupsFit(f) <==>
              && (forall i | 0 <= i < |f| - 2 :: f[i] < 128)
              && (f[|f| - 2] == '=' as int || (f[|f| - 2] < 128 && (f[|f| - 1] == '=' as int || f[|f| - 1] < 128)))
  {
  }

  /** A character that is not looked up may be any whose low byte is '='. */
  lemma NotLookedUp()
    ensures StringOutcome([81, 81, 61, 0x13D]) == Returned([65])
  {
    var s: seq<Utf16> := [81, 81, 61, 0x13D];
    FilterAll(s);
    var b: seq<Byte> := [81, 81, 61, 61];
    assert ToBytes(s) == b;
    DecodedCut(b, 0);
    assert DecodeBlocks(b[..0], 0) == [];
    assert b[0..] == b && DecodeTail(b) == [65];
  }

  // ---------------------------------------------------------------- offsets past the end

  /** With an offset past the end the code returns four zero bytes, or none, or throws. */
  lemma PastTheEnd(data: seq<Byte>, past: int)
    requires 1 <= past <= 536870912
    ensures EncodeOutcome(data, |data| + past) ==
              if past <= 2 then Returned([0, 0, 0, 0]) else if past == 4 || past == 5 then Returned([]) else Thrown
  {
    var size := EncodedSize(-past);
    assert past <= 2 ==> size == 4;
    assert past == 4 || past == 5 ==> size == 0;
    assert past == 3 || past >= 6 ==> size < 0;
  }

  // ---------------------------------------------------------------- test vectors

  lemma EncodedShort(x: seq<Byte>, t: seq<Byte>)
    requires |x| == 3 && |t| < 3
    ensures Encoded(t) == EncodeTail(t)
    ensures Encoded(x + t) == EncodeBlock(x) + EncodeTail(t)
  {
    EncodedParts(t, 0);
    assert t[..0] == [] && t[0..] == t;
    EncodedParts(x + t, 1);
    assert (x + t)[..3] == x && (x + t)[3..] == t;
    assert x[..0] == [] && x[0..] == x;
    assert EncodeBlocks(x, 1) == EncodeBlocks(x[..0], 0) + EncodeBlock(x[0..]);
    assert EncodeBlocks([], 0) == [] && EncodeBlocks(x, 1) == EncodeBlock(x);
  }

  lemma OneByteVectors()
    ensures EncodeTail([]) == [] && EncodeTail([102]) == [90, 103, 61, 61] && EncodeTail([98]) == [89, 103, 61, 61]
  {
    OneLetters(102);
    OneLetters(98);
  }

  lemma TwoByteVectors()
    ensures EncodeTail([102, 111]) == [90, 109, 56, 61] && EncodeTail([98, 97]) == [89, 109, 69, 61]
  {
    TailLetters(102, 111);
    TailLetters(98, 97);
  }

  lemma BlockVector()
    ensures EncodeBlock([102, 111, 111]) == [90, 109, 57, 118]
  {
  }

  /** Of section 10 of RFC 4648: "", "f", "fo", "foo", "foob" and "fooba". */
  lemma TestVectors()
    ensures Encoded([]) == []
    ensures Encoded([102]) == [90, 103, 61, 61]                                                // Zg==
    ensures Encoded([102, 111]) == [90, 109, 56, 61]                                           // Zm8=
    ensures Encoded([102, 111, 111]) == [90, 109, 57, 118]                                     // Zm9v
    ensures Encoded([102, 111, 111, 98]) == [90, 109, 57, 118, 89, 103, 61, 61]                // Zm9vYg==
    ensures Encoded([102, 111, 111, 98, 97]) == [90, 109, 57, 118, 89, 109, 69, 61]            // Zm9vYmE=
  {
    hide Encoded, EncodeTail, EncodeBlock;
    var foo: seq<Byte> := [102, 111, 111];
    OneByteVectors();
    TwoByteVectors();
    BlockVector();
    EncodedShort(foo, []);
    EncodedShort(foo, [102]);
    EncodedShort(foo, [102, 111]);
    EncodedShort(foo, [98]);
    EncodedShort(foo, [98, 97]);
    assert foo + [] == foo && foo + [98] == [102, 111, 111, 98] && foo + [98, 97] == [102, 111, 111, 98, 97];
  }
}
