/** The UTF-8 detector: it counts the bytes of one-, two- and three-byte sequences and accepts a
    text when nearly all of its non-ASCII bytes are in such sequences. */
module Utf8Detector {
  import opened Bits
  import opened Sequences

  predicate IsAscii(b: Byte) { b >= 0 }

  predicate IsLead2(b: Byte) { -64 <= b <= -33 }

  predicate IsLead3(b: Byte) { -32 <= b <= -17 }

  predicate IsTrail(b: Byte) { -128 <= b <= -65 }

  // ---------------------------------------------------------------- what the loop counts

  predicate StartsTwo(s: seq<Byte>) {
    |s| >= 2 && IsLead2(s[0]) && IsTrail(s[1])
  }

  predicate StartsThree(s: seq<Byte>) {
    |s| >= 3 && IsLead3(s[0]) && IsTrail(s[1]) && IsTrail(s[2])
  }

  datatype Tally = Tally(good: nat, ascii: nat)

  /** goodbytes and asciibytes for the rest of a text. */
  function Scan(s: seq<Byte>): (t: Tally)
    ensures t.good + t.ascii <= |s|
  {
    if s == [] then Tally(0, 0)
    else if IsAscii(s[0]) then var t := Scan(s[1..]); t.(ascii := t.ascii + 1)
    else if StartsTwo(s) then var t := Scan(s[2..]); t.(good := t.good + 2)
    else if StartsThree(s) then var t := Scan(s[3..]); t.(good := t.good + 3)
    else Scan(s[1..])
  }

  /** 100 * good / counted; the product is computed in 32 bits. */
  function Percent(good: nat, counted: int): int
    requires counted > 0
  {
    JavaDiv(ToInt(100 * good), counted)
  }

  /** score */
  function Score(s: seq<Byte>): int
    requires Scan(s).ascii < |s|
  {
    Percent(Scan(s).good, |s| - Scan(s).ascii)
  }

  predicate Accepts(s: seq<Byte>) {
    && Scan(s).ascii < |s|
    && (Score(s) > 98 || (Score(s) > 95 && Scan(s).good > 30))
  }

  lemma AsciiMask(b: Byte)
    ensures BitAnd(b, 0x7f) == b <==> IsAscii(b)
  {
    assert Pow2(3) == 8;
    assert Pow2(5) == 32;
    assert Pow2(7) == 128;
    AndIsMod(b, 7);
  }

  lemma ScanStep(s: seq<Byte>, i: nat)
    requires i < |s|
    ensures IsAscii(s[i]) ==> Scan(s[i..]) == Tally(Scan(s[i + 1..]).good, Scan(s[i + 1..]).ascii + 1)
    ensures StartsTwo(s[i..]) ==> Scan(s[i..]) == Tally(Scan(s[i + 2..]).good + 2, Scan(s[i + 2..]).ascii)
    ensures StartsThree(s[i..]) ==> Scan(s[i..]) == Tally(Scan(s[i + 3..]).good + 3, Scan(s[i + 3..]).ascii)
    ensures !IsAscii(s[i]) && !StartsTwo(s[i..]) && !StartsThree(s[i..]) ==> Scan(s[i..]) == Scan(s[i + 1..])
  {
    assert s[i..][1..] == s[i + 1..];
    if |s| >= i + 2 { assert s[i..][2..] == s[i + 2..]; }
    if |s| >= i + 3 { assert s[i..][3..] == s[i + 3..]; }
  }

  lemma ScanEmpty()
    ensures Scan([]) == Tally(0, 0)
  {
  }

  /** isUTF8 */
  method IsUtf8(rawtext: array<Byte>) returns (r: bool)
    requires rawtext.Length < 0x7FFF_FFFF  // i + 2 does not wrap
    ensures r == Accepts(rawtext[..])
  {
    hide Scan, BitAnd, Percent;
    ghost var s := rawtext[..];
    assert Scan(s[rawtext.Length..]) == Tally(0, 0) by { ScanEmpty(); }
    var rawtextlen := rawtext.Length;
    var goodbytes, asciibytes := 0, 0;
    var i := 0;
    while i < rawtextlen
      invariant 0 <= goodbytes && 0 <= asciibytes && goodbytes + asciibytes <= i <= rawtextlen
      invariant goodbytes + Scan(s[i..]).good == Scan(s).good
      invariant asciibytes + Scan(s[i..]).ascii == Scan(s).ascii
    {
      ScanStep(s, i);
      AsciiMask(rawtext[i]);
      if BitAnd(rawtext[i], 0x7f) == rawtext[i] {
        asciibytes := asciibytes + 1;
      } else if IsLead2(rawtext[i]) && i + 1 < rawtextlen && IsTrail(rawtext[i + 1]) {
        assert StartsTwo(s[i..]);
        goodbytes := goodbytes + 2;
        i := i + 1;
      } else if IsLead3(rawtext[i]) && i + 2 < rawtextlen && IsTrail(rawtext[i + 1]) && IsTrail(rawtext[i + 2]) {
        assert StartsThree(s[i..]);
        goodbytes := goodbytes + 3;
        i := i + 2;
      }
      i := i + 1;
    }
    if asciibytes == rawtextlen {
      return false;
    }
    var score := Percent(goodbytes, rawtextlen - asciibytes);
    if score > 98 {
      return true;
    } else if score > 95 && goodbytes > 30 {
      return true;
    } else {
      return false;
    }
  }

  // ---------------------------------------------------------------- texts that split into sequences

  /** A one-, two- or three-byte sequence. */
  predicate IsSequence(c: seq<Byte>) {
    || (|c| == 1 && IsAscii(c[0]))
    || (|c| == 2 && StartsTwo(c))
    || (|c| == 3 && StartsThree(c))
  }

  ghost predicate Splits(s: seq<Byte>) {
    exists chunks: seq<seq<Byte>> :: Concat(chunks) == s && forall i | 0 <= i < |chunks| :: IsSequence(chunks[i])
  }

  lemma {:induction false} ChunksCounted(chunks: seq<seq<Byte>>)
    requires forall i | 0 <= i < |chunks| :: IsSequence(chunks[i])
    ensures var s := Concat(chunks); Scan(s).good + Scan(s).ascii == |s|
  {
    if chunks != [] {
      var c, rest := chunks[0], Concat(chunks[1..]);
      ChunksCounted(chunks[1..]);
      assert IsSequence(c);
      assert (c + rest)[|c|..] == rest;
      ScanStep(c + rest, 0);
      assert (c + rest)[0..] == c + rest;
    }
  }

  lemma {:induction false} CountedChunks(s: seq<Byte>) returns (chunks: seq<seq<Byte>>)
    requires Scan(s).good + Scan(s).ascii == |s|
    ensures Concat(chunks) == s && forall i | 0 <= i < |chunks| :: IsSequence(chunks[i])
    decreases |s|
  {
    if s == [] {
      chunks := [];
    } else {
      var n := if IsAscii(s[0]) then 1 else if StartsTwo(s) then 2 else 3;
      ScanStep(s, 0);
      assert s[0..] == s;
      assert n == 3 ==> StartsThree(s);
      var rest := CountedChunks(s[n..]);
      chunks := [s[..n]] + rest;
      assert chunks[1..] == rest;
      assert s == s[..n] + s[n..];
    }
  }

  // ---------------------------------------------------------------- sequences, bit by bit

  /** The bits of the unsigned byte from unit on. */
  function High(b: int, unit: nat): int
    requires unit > 0
  {
    b % 256 / unit
  }

  /** 0xxxxxxx, 110xxxxx, 1110xxxx and 10xxxxxx */
  lemma BitPatterns(b: Byte)
    ensures IsAscii(b) <==> High(b, 128) == 0
    ensures IsLead2(b) <==> High(b, 32) == 6
    ensures IsLead3(b) <==> High(b, 16) == 14
    ensures IsTrail(b) <==> High(b, 64) == 2
  {
  }

  /** What is accepted as a sequence, and nothing else is: the patterns of section 3 of RFC 3629 up to three
      bytes, overlong forms and surrogates included. */
  lemma SequenceIff(c: seq<Byte>)
    ensures IsSequence(c) <==>
              || (|c| == 1 && High(c[0], 128) == 0)
              || (|c| == 2 && High(c[0], 32) == 6 && High(c[1], 64) == 2)
              || (|c| == 3 && High(c[0], 16) == 14 && High(c[1], 64) == 2 && High(c[2], 64) == 2)
  {
    hide IsAscii, IsLead2, IsLead3, IsTrail;
    forall i | 0 <= i < |c|
      ensures IsAscii(c[i]) <==> High(c[i], 128) == 0
      ensures IsLead2(c[i]) <==> High(c[i], 32) == 6
      ensures IsLead3(c[i]) <==> High(c[i], 16) == 14
      ensures IsTrail(c[i]) <==> High(c[i], 64) == 2
    {
      BitPatterns(c[i]);
    }
  }

  predicate Two(s: seq<Byte>, i: nat) {
    i + 1 < |s| && High(s[i], 32) == 6 && High(s[i + 1], 64) == 2
  }

  predicate Three(s: seq<Byte>, i: nat) {
    i + 2 < |s| && High(s[i], 16) == 14 && High(s[i + 1], 64) == 2 && High(s[i + 2], 64) == 2
  }

  /** The bytes of all two- and three-byte patterns that begin at position i or later, wherever they stand. */
  function PatternBytes(s: seq<Byte>, i: nat): nat
    decreases |s| - i
  {
    if i >= |s| then 0
    else (if Two(s, i) then 2 else if Three(s, i) then 3 else 0) + PatternBytes(s, i + 1)
  }

  function AsciiBytes(s: seq<Byte>, i: nat): nat
    decreases |s| - i
  {
    if i >= |s| then 0 else (if s[i] >= 0 then 1 else 0) + AsciiBytes(s, i + 1)
  }

  lemma StartsIff(s: seq<Byte>, i: nat)
    requires i < |s|
    ensures StartsTwo(s[i..]) <==> Two(s, i)
    ensures StartsThree(s[i..]) <==> Three(s, i)
  {
    hide IsLead2, IsLead3, IsTrail;
    forall j | 0 <= j < |s|
      ensures IsLead2(s[j]) <==> High(s[j], 32) == 6
      ensures IsLead3(s[j]) <==> High(s[j], 16) == 14
      ensures IsTrail(s[j]) <==> High(s[j], 64) == 2
    {
      BitPatterns(s[j]);
    }
  }

  /** The loop, which jumps over the sequences it finds and over single bytes otherwise, counts every
      pattern in the text and every ASCII byte, malformed surroundings or not. */
  lemma {:induction false} ScanCountsAll(s: seq<Byte>, i: nat)
    requires i <= |s|
    ensures Scan(s[i..]) == Tally(PatternBytes(s, i), AsciiBytes(s, i))
    decreases |s| - i
  {
    hide Scan;
    if i == |s| {
      ScanEmpty();
      assert s[i..] == [];
    } else {
      ScanStep(s, i);
      StartsIff(s, i);
      ScanCountsAll(s, i + 1);
      if Two(s, i) {
        ScanCountsAll(s, i + 2);
        TrailStartsNothing(s, i + 1);
      } else if Three(s, i) {
        ScanCountsAll(s, i + 3);
        TrailStartsNothing(s, i + 1);
        TrailStartsNothing(s, i + 2);
      }
    }
  }

  lemma TrailStartsNothing(s: seq<Byte>, i: nat)
    requires i < |s| && High(s[i], 64) == 2
    ensures PatternBytes(s, i) == PatternBytes(s, i + 1) && AsciiBytes(s, i) == AsciiBytes(s, i + 1)
  {
  }

  lemma {:induction false} NoPatterns(s: seq<Byte>, i: nat)
    requires forall j: nat | i <= j < |s| :: !Two(s, j) && !Three(s, j)
    ensures PatternBytes(s, i) == 0
    decreases |s| - i
  {
    if i < |s| {
      NoPatterns(s, i + 1);
    }
  }

  /** The largest goodbytes for which 100 * goodbytes does not exceed 32 bits. */
  const SAFE_GOOD := 21474836

  lemma QuotientBound(x: int, d: int, p: int)
    requires d > 0
    ensures x / d >= p <==> x >= p * d
  {
    var q, r := x / d, x % d;
    assert x == q * d + r && 0 <= r < d;
    if q >= p {
      MulMono(p, q, d);
    } else {
      MulMono(q + 1, p, d);
      assert (q + 1) * d == q * d + d;
    }
  }

  lemma PercentBound(g: nat, d: int, p: int)
    requires g <= SAFE_GOOD && d > 0
    ensures Percent(g, d) >= p <==> 100 * g >= p * d
  {
    QuotientBound(100 * g, d, p);
  }

  /** Beyond the safe count the 32-bit product is negative, or too small to matter. */
  lemma PercentWrapped(g: nat, d: int)
    requires SAFE_GOOD < g <= d
    ensures Percent(g, d) < 50
  {
    var x := ToInt(100 * g);
    if x < 0 {
      QuotientBound(-x, d, 0);
    } else {
      assert x < 100 * g - 0x8000_0000;
      assert 50 * d > 0x7FFF_FFFF;
      QuotientBound(x, d, 50);
    }
  }

  /** When the percentage reaches p, for the thresholds that matter. */
  lemma PercentReaches(g: nat, d: int, p: int)
    requires d > 0 && g <= d && p >= 50
    ensures Percent(g, d) >= p <==> g <= SAFE_GOOD && 100 * g >= p * d
  {
    hide Percent;
    if g <= SAFE_GOOD {
      PercentBound(g, d, p);
    } else {
      PercentWrapped(g, d);
    }
  }

  lemma SplitsIff(s: seq<Byte>)
    ensures Splits(s) <==> Scan(s).good + Scan(s).ascii == |s|
  {
    hide Scan, Concat;
    if Splits(s) {
      var chunks: seq<seq<Byte>> :| Concat(chunks) == s && forall i | 0 <= i < |chunks| :: IsSequence(chunks[i]);
      ChunksCounted(chunks);
    }
    if Scan(s).good + Scan(s).ascii == |s| {
      var chunks := CountedChunks(s);
    }
  }

  /** A text that is not all ASCII scores 100 exactly when it splits entirely into one-, two- and
      three-byte sequences and the product does not wrap around. */
  lemma PerfectIff(s: seq<Byte>)
    requires Scan(s).ascii < |s|
    ensures Score(s) == 100 <==> Splits(s) && Scan(s).good <= SAFE_GOOD
    ensures Score(s) <= 100
  {
    hide Scan, Percent, Splits;
    var g, d := Scan(s).good, |s| - Scan(s).ascii;
    PercentReaches(g, d, 100);
    PercentReaches(g, d, 101);
    SplitsIff(s);
  }

  /** The decision on every text: the product does not wrap around, and at least 99 percent of the
      non-ASCII bytes lie in sequences, or at least 96 percent when these are more than 30 bytes. */
  lemma AcceptsIff(s: seq<Byte>)
    ensures var g, d := Scan(s).good, |s| - Scan(s).ascii;
            Accepts(s) <==> d > 0 && g <= SAFE_GOOD && (100 * g >= 99 * d || (100 * g >= 96 * d && g > 30))
  {
    hide Scan, Percent;
    var g, d := Scan(s).good, |s| - Scan(s).ascii;
    if d > 0 {
      PercentReaches(g, d, 99);
      PercentReaches(g, d, 96);
    }
  }

  /** A text that splits entirely is accepted exactly when it is not all ASCII and the bytes of its
      longer sequences are few enough for 32 bits. */
  lemma SplitAcceptedIff(s: seq<Byte>)
    requires Splits(s)
    ensures Accepts(s) <==> 0 < Scan(s).good <= SAFE_GOOD
  {
    hide Scan, Splits, Accepts;
    SplitsIff(s);
    AcceptsIff(s);
  }

  /** The decision on every text, on its bytes alone. */
  lemma AcceptsByPatterns(s: seq<Byte>)
    ensures var g, d := PatternBytes(s, 0), |s| - AsciiBytes(s, 0);
            Accepts(s) <==> d > 0 && g <= 21474836 && (100 * g >= 99 * d || (100 * g >= 96 * d && g > 30))
  {
    hide Scan, Accepts, PatternBytes, AsciiBytes;
    ScanCountsAll(s, 0);
    assert s[0..] == s;
    AcceptsIff(s);
  }

  /** A text without a single two- or three-byte pattern is refused. */
  lemma NoPatternRefused(s: seq<Byte>)
    requires forall j: nat | j < |s| :: !Two(s, j) && !Three(s, j)
    ensures !Accepts(s)
  {
    hide Accepts, PatternBytes, AsciiBytes;
    NoPatterns(s, 0);
    AcceptsByPatterns(s);
  }

  /** Such as two characters of GBK, whose second bytes are not trail bytes. */
  lemma GbkRefused()
    ensures !Accepts([-60, -29, -60, -29])
  {
    var s: seq<Byte> := [-60, -29, -60, -29];
    NoPatternRefused(s);
  }

  // ---------------------------------------------------------------- encoded text

  /** Section 3 of RFC 3629, for code points of the Basic Multilingual Plane. */
  function EncodePoint(c: nat): (e: seq<Byte>)
    requires c < 0x1_0000
    ensures IsSequence(e) && (|e| == 1 <==> c < 0x80)
  {
    if c < 0x80 then [c]
    else if c < 0x800 then [-64 + c / 0x40, -128 + c % 0x40]
    else [-32 + c / 0x1000, -128 + c / 0x40 % 0x40, -128 + c % 0x40]
  }

  /** The payload bits give the code point back. */
  lemma PointPayload(c: nat, e: seq<int>)
    requires c < 0x1_0000 && e == EncodePoint(c)
    ensures |e| == if c < 0x80 then 1 else if c < 0x800 then 2 else 3
    ensures c == if |e| == 1 then e[0]
                 else if |e| == 2 then e[0] % 32 * 64 + e[1] % 64
                 else e[0] % 16 * 4096 + e[1] % 64 * 64 + e[2] % 64
  {
    if 0x80 <= c < 0x800 {
      assert (-64 + c / 64) % 32 == c / 64 && (-128 + c % 64) % 64 == c % 64;
    } else if c >= 0x800 {
      assert (-32 + c / 4096) % 16 == c / 4096;
      assert (-128 + c / 64 % 64) % 64 == c / 64 % 64 && (-128 + c % 64) % 64 == c % 64;
      assert c / 4096 == c / 64 / 64;
    }
  }

  function EncodeText(text: seq<nat>): seq<Byte>
    requires forall i | 0 <= i < |text| :: text[i] < 0x1_0000
  {
    if text == [] then [] else EncodePoint(text[0]) + EncodeText(text[1..])
  }

  /** How many bytes the characters outside ASCII take. */
  function NonAsciiBytes(text: seq<nat>): nat
    requires forall i | 0 <= i < |text| :: text[i] < 0x1_0000
  {
    if text == [] then 0
    else (if text[0] < 0x80 then 0 else |EncodePoint(text[0])|) + NonAsciiBytes(text[1..])
  }

  lemma {:induction false} EncodedCounts(text: seq<nat>)
    requires forall i | 0 <= i < |text| :: text[i] < 0x1_0000
    ensures var s := EncodeText(text);
            && Scan(s).good + Scan(s).ascii == |s|
            && Scan(s).good == NonAsciiBytes(text)
  {
    if text != [] {
      var c, rest := EncodePoint(text[0]), EncodeText(text[1..]);
      EncodedCounts(text[1..]);
      assert (c + rest)[|c|..] == rest && (c + rest)[0..] == c + rest;
      ScanStep(c + rest, 0);
    }
  }

  /** An encoded text of the Basic Multilingual Plane is accepted exactly when it has a character
      outside ASCII and these take at most 21474836 bytes. */
  lemma BmpTextAcceptedIff(text: seq<nat>)
    requires forall i | 0 <= i < |text| :: text[i] < 0x1_0000
    ensures Accepts(EncodeText(text)) <==> 0 < NonAsciiBytes(text) <= SAFE_GOOD
  {
    hide Scan, EncodeText, Accepts, Splits;
    EncodedCounts(text);
    SplitsIff(EncodeText(text));
    SplitAcceptedIff(EncodeText(text));
  }

  lemma {:induction false} RepeatedBytes(c: nat, n: nat)
    requires 0x80 <= c < 0x800
    ensures NonAsciiBytes(seq(n, _ => c)) == |EncodeText(seq(n, _ => c))| == 2 * n
  {
    if n > 0 {
      RepeatedBytes(c, n - 1);
      assert seq(n, _ => c)[1..] == seq(n - 1, _ => c);
    }
  }

  /** So there are perfect texts that are refused, from 21474838 bytes on. */
  lemma PerfectTextRefused(c: nat, n: nat)
    requires 0x80 <= c < 0x800 && n > 10737418
    ensures var s := EncodeText(seq(n, _ => c));
            |s| == 2 * n && Splits(s) && !Accepts(s)
  {
    hide Scan, EncodeText, Accepts, Splits, NonAsciiBytes;
    var text: seq<nat> := seq(n, _ => c);
    RepeatedBytes(c, n);
    EncodedCounts(text);
    SplitsIff(EncodeText(text));
    BmpTextAcceptedIff(text);
  }
}
