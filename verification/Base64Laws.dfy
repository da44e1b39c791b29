/** The laws of the Base64 codec: round trip, canonical texts, and insensitivity to foreign bytes. */
module Base64Laws {
  import opened Bits
  import opened Quanta
  import opened Base64Spec

  // ---------------------------------------------------------------- cutting off the last quantum

  /** The encoding of the last one to three bytes. */
  function LastQuantum(x: seq<Byte>): (r: seq<Byte>)
    requires 1 <= |x| <= 3
    ensures |r| == 4
  {
    if |x| == 3 then EncodeBlock(x) else EncodeTail(x)
  }

  /** How many quanta of d precede the last one. */
  function BodyQuanta(d: seq<Byte>): (n: nat)
    requires d != []
    ensures 3 * n < |d| <= 3 * n + 3
  {
    (|d| - 1) / 3
  }

  lemma EncodedCut(d: seq<Byte>, n: nat)
    requires 3 * n < |d| <= 3 * n + 3
    ensures Encoded(d) == EncodeBlocks(d[..3 * n], n) + LastQuantum(d[3 * n..])
  {
    if |d| == 3 * n + 3 {
      assert |d| / 3 == n + 1 && d[3 * (n + 1)..] == [];
      assert d[..3 * (n + 1)] == d;
    } else {
      assert |d| / 3 == n;
    }
  }

  lemma DecodedCut(f: seq<Byte>, n: nat)
    requires |f| == 4 * n + 4
    ensures Decoded(f) == DecodeBlocks(f[..4 * n], n) + DecodeTail(f[4 * n..])
  {
    assert |f| / 4 - 1 == n;
  }

  // ---------------------------------------------------------------- the last quantum

  /** The bits of the last letter that carry no data are zero. */
  predicate TailClear(q: seq<Byte>)
    requires |q| == 4
  {
    if q[2] == PAD then Value(q[1]) % 16 == 0
    else if q[3] == PAD then Value(q[2]) % 4 == 0
    else true
  }

  /** Letters, with '=' at most in the third and fourth place. */
  predicate TailFormed(q: seq<Byte>)
    requires |q| == 4
  {
    && IsLetter(q[0]) && IsLetter(q[1])
    && (q[2] == PAD || IsLetter(q[2])) && (q[3] == PAD || IsLetter(q[3]))
    && (q[2] == PAD ==> q[3] == PAD)
  }

  /** Replacing the last letters of a block by '=' keeps the bytes decoded from the letters that stay. */
  lemma PaddedTail(e: seq<Byte>, q: seq<Byte>)
    requires |e| == 4 && (forall i | 0 <= i < 4 :: IsLetter(e[i]))
    requires q == [e[0], e[1], e[2], PAD] || q == [e[0], e[1], PAD, PAD]
    ensures TailFormed(q) && DecodeTail(q) == DecodeBlock(e)[..TailLength(q)]
  {
    DecodeValues(e, Value(e[0]), Value(e[1]), Value(e[2]), Value(e[3]));
    DecodeValues(q, Value(q[0]), Value(q[1]), Value(q[2]), Value(q[3]));
    assert IsLetter(e[0]) && IsLetter(e[1]) && IsLetter(e[2]);
  }

  /** Bytes that are zero leave the low bits of the letter they begin in clear. */
  lemma ZeroBits(x: seq<Byte>)
    requires |x| == 3
    ensures x[1] == 0 ==> Value(EncodeBlock(x)[1]) % 16 == 0
    ensures x[2] == 0 ==> Value(EncodeBlock(x)[2]) % 4 == 0
  {
    EncodeLetters(x);
    if x[1] == 0 {
      SplitLow(0, Unsigned(x[0]) % 4, 16, Value(EncodeBlock(x)[1]));
    }
    if x[2] == 0 {
      SplitLow(0, Unsigned(x[1]) % 16, 4, Value(EncodeBlock(x)[2]));
    }
  }

  lemma LastOne(x: seq<Byte>, e: seq<Byte>, q: seq<Byte>)
    requires |x| == 3 && x[1] == 0 && e == EncodeBlock(x) && q == [e[0], e[1], PAD, PAD]
    ensures TailFormed(q) && TailClear(q) && DecodeTail(q) == x[..1]
  {
    EncodeLetters(x);
    DecodeOfEncode(x);
    PaddedTail(e, q);
    ZeroBits(x);
  }

  lemma LastTwo(x: seq<Byte>, e: seq<Byte>, q: seq<Byte>)
    requires |x| == 3 && x[2] == 0 && e == EncodeBlock(x) && q == [e[0], e[1], e[2], PAD]
    ensures TailFormed(q) && TailClear(q) && DecodeTail(q) == x[..2]
  {
    EncodeLetters(x);
    DecodeOfEncode(x);
    PaddedTail(e, q);
    ZeroBits(x);
    assert IsLetter(e[2]);
  }

  lemma LastThree(x: seq<Byte>)
    requires |x| == 3
    ensures var q := LastQuantum(x); TailFormed(q) && TailClear(q) && DecodeTail(q) == x
  {
    EncodeLetters(x);
    DecodeOfEncode(x);
    assert IsLetter(EncodeBlock(x)[2]) && IsLetter(EncodeBlock(x)[3]);
  }

  lemma LastQuantumDecode(x: seq<Byte>)
    requires 1 <= |x| <= 3
    ensures var q := LastQuantum(x); TailFormed(q) && TailClear(q) && DecodeTail(q) == x
  {
    if |x| == 1 {
      LastOne([x[0], 0, 0], EncodeBlock([x[0], 0, 0]), LastQuantum(x));
      assert x == [x[0], 0, 0][..1];
    } else if |x| == 2 {
      LastTwo([x[0], x[1], 0], EncodeBlock([x[0], x[1], 0]), LastQuantum(x));
      assert x == [x[0], x[1], 0][..2];
    } else {
      LastThree(x);
    }
  }

  const A: Byte := 65  // the letter for zero

  /** Padding read as the letter for zero. */
  function Unpadded(q: seq<Byte>): (z: seq<Byte>)
    requires |q| == 4
    ensures |z| == 4
  {
    [q[0], q[1], if q[2] == PAD then A else q[2], if q[3] == PAD then A else q[3]]
  }

  lemma PaddedOne(q: seq<Byte>)
    requires |q| == 4 && TailFormed(q) && TailClear(q) && q[2] == PAD
    ensures DecodeTail(q) == DecodeBlock(Unpadded(q))[..1]
    ensures DecodeBlock(Unpadded(q))[1] == 0 && DecodeBlock(Unpadded(q))[2] == 0
  {
    hide DecodeBlock, Value;
    var z := Unpadded(q);
    ValueOfA();
    DecodeValues(q, Value(q[0]), Value(q[1]), Value(q[2]), Value(q[3]));
    DecodeValues(z, Value(q[0]), Value(q[1]), 0, 0);
    ToByteOf(Value(q[1]) * 16 + 0, 0);
  }

  lemma PaddedTwo(q: seq<Byte>)
    requires |q| == 4 && TailFormed(q) && TailClear(q) && q[2] != PAD && q[3] == PAD
    ensures DecodeTail(q) == DecodeBlock(Unpadded(q))[..2]
    ensures DecodeBlock(Unpadded(q))[2] == 0
  {
    hide DecodeBlock, Value;
    var z := Unpadded(q);
    ValueOfA();
    DecodeValues(q, Value(q[0]), Value(q[1]), Value(q[2]), Value(q[3]));
    DecodeValues(z, Value(q[0]), Value(q[1]), Value(q[2]), 0);
    ToByteOf(Value(q[2]) * 64 + 0, 0);
  }

  lemma ValueOfA()
    ensures Value(A) == 0
  {
  }

  /** The padded bytes of a clear tail decode to zero. */
  lemma PaddedBytes(q: seq<Byte>)
    requires |q| == 4 && TailFormed(q) && TailClear(q)
    ensures var z := Unpadded(q);
            && (forall i | 0 <= i < 4 :: IsLetter(z[i]))
            && DecodeTail(q) == DecodeBlock(z)[..TailLength(q)]
            && (q[2] == PAD ==> DecodeBlock(z)[1] == 0)
            && (q[3] == PAD ==> DecodeBlock(z)[2] == 0)
  {
    hide DecodeBlock, Value;
    ValueOfA();
    if q[2] == PAD {
      PaddedOne(q);
    } else if q[3] == PAD {
      PaddedTwo(q);
    } else {
      assert Unpadded(q) == q;
    }
  }

  lemma LastQuantumEncode(q: seq<Byte>)
    requires |q| == 4 && TailFormed(q) && TailClear(q)
    ensures LastQuantum(DecodeTail(q)) == q
  {
    hide DecodeBlock, Value;
    var z := Unpadded(q);
    PaddedBytes(q);
    EncodeOfDecode(z);
    var d, x := DecodeBlock(z), DecodeTail(q);
    if q[2] == PAD {
      assert [x[0], 0, 0] == d;
    } else if q[3] == PAD {
      assert [x[0], x[1], 0] == d;
    } else {
      assert x == d;
    }
  }

  // ---------------------------------------------------------------- whole texts

  /** Whole quanta of valid characters with '=' at most at the last, or the last two, places. */
  predicate WellFormed(f: seq<Byte>) {
    && |f| >= 4 && |f| % 4 == 0
    && (forall i | 0 <= i < |f| :: IsValid(f[i]))
    && (forall i | 0 <= i < |f| - 2 :: f[i] != PAD)
    && (f[|f| - 2] == PAD ==> f[|f| - 1] == PAD)
  }

  /** Section 3.5 of RFC 4648: well-formed, and the unused trailing bits are zero. */
  predicate Canonical(f: seq<Byte>) {
    WellFormed(f) && TailClear(f[|f| - 4..])
  }

  lemma BlocksDecode(d: seq<Byte>, n: nat)
    requires |d| == 3 * n
    ensures DecodeBlocks(EncodeBlocks(d, n), n) == d
    ensures forall i | 0 <= i < 4 * n :: IsLetter(EncodeBlocks(d, n)[i])
  {
    forall x | |x| == 3
      ensures DecodeBlock(EncodeBlock(x)) == x && forall i | 0 <= i < 4 :: IsLetter(EncodeBlock(x)[i])
    {
      DecodeOfEncode(x);
      EncodeLetters(x);
    }
    ThreesBack(EncodeBlock, DecodeBlock, IsLetter, d, n);
  }

  lemma BlocksEncode(f: seq<Byte>, n: nat)
    requires |f| == 4 * n && forall i | 0 <= i < |f| :: IsLetter(f[i])
    ensures EncodeBlocks(DecodeBlocks(f, n), n) == f
  {
    forall x | |x| == 4 && (forall i | 0 <= i < 4 :: IsLetter(x[i])) ensures EncodeBlock(DecodeBlock(x)) == x {
      EncodeOfDecode(x);
    }
    FoursBack(EncodeBlock, DecodeBlock, IsLetter, f, n);
  }

  lemma Glue(e: seq<Byte>, q: seq<Byte>, n: nat)
    requires |e| == 4 * n && |q| == 4 && (forall i | 0 <= i < |e| :: IsLetter(e[i])) && TailFormed(q) && TailClear(q)
    ensures Canonical(e + q) && !DecodeThrows(e + q)
  {
    var f := e + q;
    assert f[|f| - 4..] == q;
    forall i | 0 <= i < |f| ensures IsValid(f[i]) && (i < |f| - 2 ==> f[i] != PAD) {
      if i >= |e| {
        assert f[i] == q[i - |e|];
      }
    }
    assert f[|f| - 2] == q[2] && f[|f| - 1] == q[3];
  }

  lemma Unglue(f: seq<Byte>, n: nat)
    requires Canonical(f) && |f| == 4 * n + 4
    ensures forall i | 0 <= i < 4 * n :: IsLetter(f[..4 * n][i])
    ensures TailFormed(f[4 * n..]) && TailClear(f[4 * n..])
  {
    var q := f[4 * n..];
    assert q[0] == f[4 * n] && q[1] == f[4 * n + 1] && q[2] == f[4 * n + 2] && q[3] == f[4 * n + 3];
  }

  lemma EncodedIsCanonical(d: seq<Byte>)
    requires d != []
    ensures Canonical(Encoded(d)) && !DecodeThrows(Encoded(d)) && Decoded(Encoded(d)) == d
  {
    var n := BodyQuanta(d);
    var e, q := EncodeBlocks(d[..3 * n], n), LastQuantum(d[3 * n..]);
    EncodedCut(d, n);
    BlocksDecode(d[..3 * n], n);
    LastQuantumDecode(d[3 * n..]);
    Glue(e, q, n);
    DecodedCut(e + q, n);
    assert (e + q)[..4 * n] == e && (e + q)[4 * n..] == q;
    assert d == d[..3 * n] + d[3 * n..];
  }

  lemma CanonicalIsEncoded(f: seq<Byte>)
    requires Canonical(f)
    ensures Encoded(Decoded(f)) == f && Decoded(f) != []
  {
    hide EncodeBlocks, DecodeBlocks, Encoded, Decoded, TailFormed, TailClear, DecodeTail, LastQuantum;
    var n := |f| / 4 - 1;
    assert |f| == 4 * n + 4;
    Unglue(f, n);
    DecodedCut(f, n);
    var d, x := DecodeBlocks(f[..4 * n], n), DecodeTail(f[4 * n..]);
    BlocksEncode(f[..4 * n], n);
    LastQuantumEncode(f[4 * n..]);
    EncodedCut(d + x, n);
    assert (d + x)[..3 * n] == d && (d + x)[3 * n..] == x;
    assert f == f[..4 * n] + f[4 * n..];
  }

  // ---------------------------------------------------------------- main results

  lemma DecodesToItself(d: seq<Byte>)
    ensures DecodeOutcome(Encoded(d)) == if d == [] then Thrown else Returned(d)
  {
    if d == [] {
      assert Encoded(d) == [];
    } else {
      EncodedIsCanonical(d);
      assert forall i | 0 <= i < |Encoded(d)| :: IsValid(Encoded(d)[i]);
      FilterValid(Encoded(d));
    }
  }

  /** For every array and offset within it: encode returns exactly when the length of its result can be
      computed in 32 bits, and decoding that gives the rest of the data back.  An empty rest is encoded
      as an empty text, on which decode throws. */
  lemma RoundTrip(data: seq<Byte>, offset: nat)
    requires offset <= |data|
    ensures EncodeOutcome(data, offset).Returned? <==>
              var n := |data| - offset; if n % 3 == 0 then n <= 536870910 else n <= 1610612732
    ensures EncodeOutcome(data, offset).Returned? ==>
              DecodeOutcome(EncodeOutcome(data, offset).bytes) ==
              if offset < |data| then Returned(data[offset..]) else Thrown
  {
    DecodesToItself(data[offset..]);
  }

  /** On every text that decodes, encoding the result gives the filtered text back exactly when that
      is well-formed and its unused trailing bits are zero. */
  lemma CanonicalIff(text: seq<Byte>)
    requires DecodeOutcome(text).Returned?
    ensures Encoded(DecodeOutcome(text).bytes) == Filter(text) <==> Canonical(Filter(text))
  {
    var f := Filter(text);
    if Canonical(f) {
      CanonicalIsEncoded(f);
    }
    if Encoded(Decoded(f)) == f {
      assert Decoded(f) != [];
      EncodedIsCanonical(Decoded(f));
    }
  }

  /** A well-formed text always decodes, to three bytes a quantum less one for each '='. */
  lemma WellFormedDecodes(text: seq<Byte>)
    requires WellFormed(Filter(text))
    ensures var f, r := Filter(text), DecodeOutcome(text);
            && r.Returned?
            && |r.bytes| == |f| / 4 * 3 - (if f[|f| - 2] == PAD then 2 else if f[|f| - 1] == PAD then 1 else 0)
  {
    var f := Filter(text);
    DecodedCut(f, |f| / 4 - 1);
    var q := f[|f| - 4..];
    assert q[2] == f[|f| - 2] && q[3] == f[|f| - 1];
  }

  /** Bytes outside the alphabet and '=' may be inserted anywhere without changing the decoding. */
  lemma ForeignBytesIgnored(a: seq<Byte>, junk: seq<Byte>, b: seq<Byte>)
    requires forall i | 0 <= i < |junk| :: !IsValid(junk[i])
    ensures DecodeOutcome(a + junk + b) == DecodeOutcome(a + b)
  {
    FilterConcat(a + junk, b);
    FilterConcat(a, junk);
    FilterConcat(a, b);
    FilterForeign(junk);
    assert Filter(a) + [] == Filter(a);
  }
}
