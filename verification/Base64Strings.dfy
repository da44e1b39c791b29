/** decode(String): the same decoder over UTF-16 code units.  Its filter looks only at the low byte
    of a code unit, and its table lookups throw for code units from 128 on. */
module Base64Strings {
  import opened Bits
  import opened Quanta
  import opened Base64Spec
  import opened Base64Codec
  import opened Options

  /** Java's char. */
  type Utf16 = x: int | 0 <= x < 0x1_0000

  function ToBytes(s: seq<Utf16>): (b: seq<Byte>)
    ensures |b| == |s|
    ensures forall i | 0 <= i < |s| :: b[i] == ToByte(s[i])
  {
    seq(|s|, i requires 0 <= i < |s| => ToByte(s[i]))
  }

  /** discardNonBase64Chars */
  function FilterChars(s: seq<Utf16>): (f: seq<Utf16>)
    ensures forall i | 0 <= i < |f| :: IsValid(ToByte(f[i]))
  {
    if s == [] then []
    else FilterChars(s[..|s| - 1]) + if IsValid(ToByte(s[|s| - 1])) then [s[|s| - 1]] else []
  }

  /** How many of the filtered characters are looked up in the table: all but the padding. */
  function LookedUp(f: seq<Utf16>): nat {
    if |f| >= 2 && f[|f| - 2] == PAD then |f| - 2
    else if |f| >= 1 && f[|f| - 1] == PAD then |f| - 1
    else |f|
  }

  predicate LookupsFit(f: seq<Utf16>) {
    forall i | 0 <= i < LookedUp(f) :: f[i] < 128
  }

  predicate StringThrows(f: seq<Utf16>) {
    || |f| < 4
    || (|f| % 4 != 0 && (f[|f| - 2] == PAD || f[|f| - 1] == PAD))
    || !LookupsFit(f)
  }

  /** decode(String) */
  function StringOutcome(s: seq<Utf16>): Outcome {
    var f := FilterChars(s);
    if StringThrows(f) then Thrown else Returned(Decoded(ToBytes(f)))
  }

  // ---------------------------------------------------------------- agreement with decode(byte[])

  lemma {:induction false} FilterCommutes(s: seq<Utf16>)
    ensures Filter(ToBytes(s)) == ToBytes(FilterChars(s))
  {
    if s != [] {
      var t := s[..|s| - 1];
      FilterCommutes(t);
      assert ToBytes(s)[..|s| - 1] == ToBytes(t);
    }
  }

  lemma {:induction false} FilteredFrom(s: seq<Utf16>, limit: int)
    requires forall i | 0 <= i < |s| :: s[i] < limit
    ensures forall i | 0 <= i < |FilterChars(s)| :: FilterChars(s)[i] < limit
  {
    if s != [] {
      FilteredFrom(s[..|s| - 1], limit);
    }
  }

  /** With fitting lookups the padding is seen alike in characters and in their low bytes. */
  lemma SamePadding(f: seq<Utf16>)
    requires |f| >= 4 && LookupsFit(f)
    ensures f[|f| - 2] == PAD <==> ToBytes(f)[|f| - 2] == PAD
    ensures f[|f| - 2] != PAD ==> (f[|f| - 1] == PAD <==> ToBytes(f)[|f| - 1] == PAD)
  {
  }

  /** For every string: the two decoders agree exactly when the filtered text is one that decode throws
      on anyway or every character that is looked up is ASCII. */
  lemma AgreementIff(s: seq<Utf16>)
    ensures StringOutcome(s) == DecodeOutcome(ToBytes(s)) <==>
              DecodeThrows(Filter(ToBytes(s))) || LookupsFit(FilterChars(s))
  {
    var f := FilterChars(s);
    FilterCommutes(s);
    if |f| >= 4 && LookupsFit(f) {
      SamePadding(f);
    } else if |f| >= 4 && DecodeThrows(ToBytes(f)) {
      assert StringThrows(f);
    }
  }

  /** On strings of characters below 256 the two decoders agree. */
  lemma AgreementBelow256(s: seq<Utf16>)
    requires forall i | 0 <= i < |s| :: s[i] < 256
    ensures StringOutcome(s) == DecodeOutcome(ToBytes(s))
  {
    var f := FilterChars(s);
    FilteredFrom(s, 256);
    forall i | 0 <= i < |f| ensures f[i] < 128 {
      assert IsValid(ToByte(f[i]));
    }
    AgreementIff(s);
  }

  /** They do not always agree: U+0141 passes the filter as 'A' and then throws. */
  lemma LowByteOnly()
    ensures var s := [0x141, 81, 61, 61];
            StringOutcome(s).Thrown? && DecodeOutcome(ToBytes(s)).Returned?
  {
    var s: seq<Utf16> := [0x141, 81, 61, 61];
    FilterAll(s);
    FilterCommutes(s);
    assert s[0] >= 128;
  }

  lemma {:induction false} FilterAll(s: seq<Utf16>)
    requires forall i | 0 <= i < |s| :: IsValid(ToByte(s[i]))
    ensures FilterChars(s) == s
  {
    if s != [] {
      FilterAll(s[..|s| - 1]);
      assert s == s[..|s| - 1] + [s[|s| - 1]];
    }
  }

  // ---------------------------------------------------------------- the code

  method DiscardNonBase64Chars(table: array<Byte>, data: seq<Utf16>) returns (sb: seq<Utf16>)
    requires IsDecodingTable(table)
    ensures sb == FilterChars(data)
  {
    sb := [];
    for i := 0 to |data|
      invariant sb == FilterChars(data[..i])
    {
      assert data[..i + 1][..i] == data[..i];
      var valid := IsValidBase64Byte(table, ToByte(data[i]));
      if valid {
        sb := sb + [data[i]];
      }
    }
    assert data[..|data|] == data;
  }

  predicate FourAscii(q: seq<Utf16>)
    requires |q| == 4
  {
    q[0] < 128 && q[1] < 128 && q[2] < 128 && q[3] < 128
  }

  /** The body of the loop of decode; false when a lookup or bytes[j + 2] throws. */
  method StringAt(table: array<Byte>, q: seq<Utf16>, bytes: array<Byte>, j: nat,
                  ghost data: seq<Utf16>, ghost k: nat, ghost rest: seq<Byte>) returns (ok: bool)
    requires IsDecodingTable(table) && bytes != table && 4 * k + 4 <= |data| && q == data[4 * k..4 * k + 4]
    requires j == 3 * k <= bytes.Length == |rest| && bytes[..] == Decoding(ToBytes(data), k, rest)
    modifies bytes
    ensures ok <==> FourAscii(q) && j + 3 <= bytes.Length
    ensures ok ==> bytes[..] == Decoding(ToBytes(data), k + 1, rest)
  {
    hide IsDecodingTable, Decoding;
    if !FourAscii(q) {
      return false;
    }
    ok := DecodeNext(table, [q[0], q[1], q[2], q[3]], bytes, j, ToBytes(data), k, rest);
  }

  predicate AsciiUpTo(data: seq<Utf16>, n: nat)
    requires n <= |data|
  {
    forall i | 0 <= i < n :: data[i] < 128
  }

  lemma AsciiStep(data: seq<Utf16>, i: nat)
    requires i + 4 <= |data| && AsciiUpTo(data, i)
    ensures AsciiUpTo(data, i + 4) <==> FourAscii(data[i..i + 4])
  {
    var q := data[i..i + 4];
    assert q[0] == data[i] && q[1] == data[i + 1] && q[2] == data[i + 2] && q[3] == data[i + 3];
  }

  /** The loop of decode over the filtered string; false when it throws. */
  method StringLoop(table: array<Byte>, data: seq<Utf16>, bytes: array<Byte>) returns (ok: bool)
    requires IsDecodingTable(table) && bytes != table
    modifies bytes
    ensures var m := Iterations(|data|);
            && 4 * m <= |data|
            && (ok <==> 3 * m <= bytes.Length && AsciiUpTo(data, 4 * m))
            && (ok ==> bytes[..] == DecodeBlocks(ToBytes(data[..4 * m]), m) + old(bytes[..])[3 * m..])
  {
    hide DecodeBlock, DecodeBlocks, ToBytes, FourAscii, Iterations, IsDecodingTable, Decoding;
    ghost var f, rest := ToBytes(data), bytes[..];
    ghost var k := 0;
    var i, j := 0, 0;
    DecodingStart(f, rest);
    while i < |data| - 4
      invariant i == 4 * k && j == 3 * k <= bytes.Length && k <= Iterations(|data|)
      invariant AsciiUpTo(data, i) && IsDecodingTable(table)
      invariant bytes[..] == Decoding(f, k, rest)
    {
      AsciiStep(data, i);
      var fits := StringAt(table, data[i..i + 4], bytes, j, data, k, rest);
      if !fits {
        return false;
      }
      i, j, k := i + 4, j + 3, k + 1;
    }
    DecodingIs(f, k, rest);
    SlicesOfBytes(data, 4 * k);
    ok := true;
  }

  /** The last four characters; false when a lookup throws. */
  method StringLast(table: array<Byte>, q: seq<Utf16>) returns (ok: bool, d1: Byte, d2: Byte, d3: Byte)
    requires IsDecodingTable(table) && |q| == 4
    ensures ok <==> LookupsFit(q)
    ensures ok ==> DecodeTail(ToBytes(q)) == [d1, d2, d3][..TailLength(ToBytes(q))]
  {
    d1, d2, d3 := 0, 0, 0;
    ok := q[0] < 128 && q[1] < 128 && (q[2] == PAD || (q[2] < 128 && (q[3] == PAD || q[3] < 128)));
    if ok {
      var b: seq<Byte> := [q[0], q[1], ToByte(q[2]), ToByte(q[3])];
      assert b == ToBytes(q);
      d1, d2, d3 := DecodeLast(table, b);
    }
  }

  /** Every looked-up character is looked up in the loop or in the last four. */
  lemma LookupsSplit(f: seq<Utf16>)
    requires |f| >= 4 && (|f| % 4 == 0 || (f[|f| - 2] != PAD && f[|f| - 1] != PAD))
    ensures var m := Iterations(|f|);
            LookupsFit(f) <==> (forall i | 0 <= i < 4 * m :: f[i] < 128) && LookupsFit(f[|f| - 4..])
  {
    var m, q := Iterations(|f|), f[|f| - 4..];
    assert LookedUp(f) == |f| - 4 + LookedUp(q);
    assert 4 * m >= |f| - 4;
    assert forall i | 0 <= i < LookedUp(q) :: q[i] == f[|f| - 4 + i];
    forall i | 0 <= i < LookedUp(f) ensures i < 4 * m || f[i] == q[i - (|f| - 4)] {
    }
    assert |f| % 4 == 0 ==> 4 * m == |f| - 4;
    assert LookedUp(f) >= 4 * m;
    if LookupsFit(f) {
      forall i | 0 <= i < LookedUp(q) ensures q[i] < 128 {
        assert f[|f| - 4 + i] < 128;
      }
    }
  }

  lemma SlicesOfBytes(data: seq<Utf16>, n: nat)
    requires n <= |data|
    ensures ToBytes(data[..n]) == ToBytes(data)[..n] && ToBytes(data[n..]) == ToBytes(data)[n..]
  {
  }

  /** When the loop or the last four lookups throw, and only then, the text is one that throws. */
  lemma ThrowsIff(data: seq<Utf16>, size: int)
    requires |data| >= 4 && size == DecodedSize(|data|, data[|data| - 2] == PAD, data[|data| - 1] == PAD)
    ensures StringThrows(data) <==>
              !(&& 3 * Iterations(|data|) <= size
                && AsciiUpTo(data, 4 * Iterations(|data|)) && LookupsFit(data[|data| - 4..]))
  {
    SizeFits(|data|, data[|data| - 2] == PAD, data[|data| - 1] == PAD);
    if |data| % 4 == 0 || (data[|data| - 2] != PAD && data[|data| - 1] != PAD) {
      LookupsSplit(data);
    }
  }

  lemma TailCount(data: seq<Utf16>, size: int)
    requires !StringThrows(data) && size == DecodedSize(|data|, data[|data| - 2] == PAD, data[|data| - 1] == PAD)
    ensures var count := if data[|data| - 2] == PAD then 1 else if data[|data| - 1] == PAD then 2 else 3;
            TailLength(ToBytes(data[|data| - 4..])) == count && size == 3 * (|data| / 4 - 1) + count && |data| / 4 >= 1
  {
    SizeFits(|data|, data[|data| - 2] == PAD, data[|data| - 1] == PAD);
    SamePadding(data);
    SlicesOfBytes(data, |data| - 4);
    var q := ToBytes(data)[|data| - 4..];
    assert q[2] == ToBytes(data)[|data| - 2] && q[3] == ToBytes(data)[|data| - 1];
  }

  /** decode(String) after the filter. */
  method DecodeChars(table: array<Byte>, data: seq<Utf16>) returns (r: Option<array<Byte>>)
    requires IsDecodingTable(table)
    ensures r.None? <==> StringThrows(data)
    ensures r.Some? ==> r.value[..] == Decoded(ToBytes(data))
  {
    hide DecodeBlock, DecodeBlocks, Decoded, DecodeTail, Iterations, DecodedSize, IsDecodingTable, LookupsFit;
    var length := |data|;
    if length - 2 < 0 {
      return None;  // StringIndexOutOfBoundsException
    }
    var pad2, pad1 := data[length - 2] == PAD, data[length - 1] == PAD;
    var size := DecodedSize(length, pad2, pad1);
    if size < 0 {
      SizeFits(length, pad2, pad1);
      return None;  // NegativeArraySizeException
    }
    var bytes := new Byte[size](_ => 0);
    var ok := StringLoop(table, data, bytes);
    if length - 4 < 0 {
      return None;
    }
    ThrowsIff(data, size);
    if !ok {
      return None;
    }
    var q := data[length - 4..];
    var fits, d1, d2, d3 := StringLast(table, q);
    if !fits {
      return None;
    }
    r := StringFinish(data, bytes, d1, d2, d3);
  }

  /** The final stores of decode(String). */
  method StringFinish(data: seq<Utf16>, bytes: array<Byte>, d1: Byte, d2: Byte, d3: Byte)
    returns (r: Option<array<Byte>>)
    requires !StringThrows(data)
    requires bytes.Length == DecodedSize(|data|, data[|data| - 2] == PAD, data[|data| - 1] == PAD)
    requires var m, q := Iterations(|data|), ToBytes(data[|data| - 4..]);
             && DecodeTail(q) == [d1, d2, d3][..TailLength(q)]
             && 3 * m <= bytes.Length && 4 * m <= |data|
             && bytes[..3 * m] == DecodeBlocks(ToBytes(data[..4 * m]), m)
    modifies bytes
    ensures r == Some(bytes) && bytes[..] == Decoded(ToBytes(data))
  {
    hide DecodeBlock, DecodeBlocks, Decoded, DecodeTail, Iterations, DecodedSize, StringThrows, ToBytes;
    TailCount(data, bytes.Length);
    SlicesOfBytes(data, |data| - 4);
    SlicesOfBytes(data, 4 * Iterations(|data|));
    var count := if data[|data| - 2] == PAD then 1 else if data[|data| - 1] == PAD then 2 else 3;
    ghost var before := bytes[..];
    StoreLast(bytes, count, d1, d2, d3);
    assert before == before[..3 * Iterations(|data|)] + before[3 * Iterations(|data|)..];
    ResultIs(ToBytes(data), before, before[3 * Iterations(|data|)..], [d1, d2, d3][..count]);
    r := Some(bytes);
  }

  /** decode(String) */
  method DecodeString(table: array<Byte>, text: seq<Utf16>) returns (r: Option<array<Byte>>)
    requires IsDecodingTable(table)
    ensures match StringOutcome(text)
            case Thrown => r.None?
            case Returned(d) => r.Some? && r.value[..] == d
  {
    var data := DiscardNonBase64Chars(table, text);
    r := DecodeChars(table, data);
  }
}
