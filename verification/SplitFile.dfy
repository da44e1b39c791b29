/** Splitting a file into pieces of one size, each copied by its own worker: by the writer that runs,
    whose outputs begin with holes, and by the one through a chunk buffer that is switched off. */
module SplitFile {
  import opened Bits
  import opened Ranges
  import opened Sequences

  const MAX_INT := 0x7FFF_FFFF
  const STEP := 10240

  // ---------------------------------------------------------------- the ranges

  /** The constructor's ranges: as many as splitSize goes into contentLength, rounded up.  Range k begins at
      k * splitSize and is a whole splitSize; the last takes the rest, unless it is the first. */
  method SplitRanges(contentLength: int, splitSize: int) returns (workers: seq<Range>)
    requires 0 <= contentLength < 0x8000_0000_0000_0000 && 0 < splitSize < 0x8000_0000_0000_0000
    requires contentLength <= MAX_INT * splitSize
    ensures contentLength > 0 ==> EndToEnd(workers, Max(contentLength, splitSize))
    ensures contentLength == 0 ==> workers == if splitSize == 1 then [] else [Range(0, splitSize)]
    ensures Partition(workers, contentLength) <==> contentLength >= splitSize || (contentLength == 0 && splitSize == 1)
    ensures workers != [] ==> workers[0] == Range(0, splitSize)
    ensures forall k | 0 <= k < |workers| :: 0 < workers[k].length <= splitSize
    ensures WholePieces(workers, contentLength, splitSize)
  {
    var threads := JavaDiv(contentLength - 1, splitSize) + 1;
    ThreadCount(contentLength, splitSize, threads);
    var step := splitSize;
    var index := 0;
    workers := [];
    var i := 0;
    while i < threads
      invariant 0 <= i <= threads && |workers| == i
      invariant i < threads ==> index == i * step
      invariant forall k | 0 <= k < i :: workers[k] == Piece(contentLength, step, threads, k)
    {
      if i == 0 {
        workers := workers + [Range(0, step)];
      } else if i == threads - 1 {
        workers := workers + [Range(index, ToLong(contentLength - index))];
      } else {
        workers := workers + [Range(index, step)];
      }
      NextStart(contentLength, step, threads, i);
      index := ToLong(index + step);
      i := ToInt(i + 1);
    }
    PiecesShape(workers, contentLength, step, threads);
  }

  /** The quotient rounded up; piece k begins at k * step; all but the last are whole. */
  predicate WholePieces(rs: seq<Range>, n: int, step: int) {
    && (n > 0 ==> (|rs| - 1) * step < n <= |rs| * step)
    && (forall k | 0 <= k < |rs| :: rs[k].start == k * step)
    && (forall k | 0 <= k < |rs| - 1 :: rs[k].length == step)
  }

  function Piece(n: int, step: int, threads: int, k: int): Range {
    if k == 0 then Range(0, step)
    else if k == threads - 1 then Range(k * step, n - k * step)
    else Range(k * step, step)
  }

  /** The number of workers is the quotient rounded up, except that an empty file has one worker
      unless the pieces are single bytes. */
  lemma ThreadCount(n: int, step: int, threads: int)
    requires 0 <= n && 0 < step && threads == JavaDiv(n - 1, step) + 1
    ensures n > 0 ==> 0 < threads && (threads - 1) * step < n <= threads * step
    ensures n == 0 ==> threads == if step == 1 then 0 else 1
    ensures n <= MAX_INT * step ==> threads <= MAX_INT
  {
    if n > 0 {
      QuotientBounds(n, step, threads - 1);
      if n <= MAX_INT * step && threads > MAX_INT {
        MulMono(MAX_INT, threads - 1, step);
      }
    } else {
      assert 1 / step == if step == 1 then 1 else 0;
    }
  }

  lemma QuotientBounds(n: int, step: int, q: int)
    requires 0 < n && 0 < step && q == (n - 1) / step
    ensures 0 <= q && q * step < n <= (q + 1) * step
  {
    var r := (n - 1) % step;
    assert n - 1 == step * q + r && 0 <= r < step;
    assert (q + 1) * step == q * step + step;
  }

  lemma NextStart(n: int, step: int, threads: int, i: int)
    requires 0 <= n && 0 <= i < threads && 0 < step
    requires n > 0 ==> (threads - 1) * step < n
    requires n == 0 ==> threads == 1
    ensures i * step + step == (i + 1) * step
    ensures i < threads - 1 ==> 0 <= i * step && (i + 1) * step < n
    ensures n > 0 ==> 0 <= i * step < n
  {
    MulMono(0, i, step);
    if i < threads - 1 {
      MulMono(i + 1, threads - 1, step);
    }
    if n > 0 {
      MulMono(i, threads - 1, step);
    }
  }

  lemma PiecesMeet(rs: seq<Range>, n: int, step: int, threads: int)
    requires 0 < n && 0 < step && |rs| == threads
    requires 0 < threads && (threads - 1) * step < n <= threads * step
    requires forall k | 0 <= k < threads :: rs[k] == Piece(n, step, threads, k)
    ensures EndToEnd(rs, Max(n, step))
    ensures forall k | 0 <= k < |rs| :: 0 < rs[k].length <= step
  {
    assert threads * step == (threads - 1) * step + step;
    forall j, k | 0 <= j < |rs| && k == j + 1 < |rs|
      ensures rs[k].start == rs[j].start + rs[j].length
    {
      assert k * step == j * step + step;
    }
    if threads > 1 {
      MulMono(1, threads - 1, step);
    }
  }

  lemma PiecesShape(rs: seq<Range>, n: int, step: int, threads: int)
    requires 0 <= n && 0 < step && |rs| == threads
    requires n > 0 ==> 0 < threads && (threads - 1) * step < n <= threads * step
    requires n == 0 ==> threads == if step == 1 then 0 else 1
    requires forall k | 0 <= k < threads :: rs[k] == Piece(n, step, threads, k)
    ensures n > 0 ==> EndToEnd(rs, Max(n, step))
    ensures Partition(rs, n) <==> n >= step || (n == 0 && step == 1)
    ensures forall k | 0 <= k < |rs| :: 0 < rs[k].length <= step
  {
    if n > 0 {
      PiecesMeet(rs, n, step, threads);
      EndToEndIsPartition(rs, Max(n, step));
      if Partition(rs, n) {
        PartitionUnique(rs, n, Max(n, step));
      }
    } else if step == 1 {
      EndToEndIsPartition(rs, 0);
    } else {
      assert Covers(rs[0], 0);
      assert Covered(rs, 0);
    }
  }

  // ---------------------------------------------------------------- the pieces give the file back

  predicate CutOut<T(==)>(file: seq<T>, rs: seq<Range>, pieces: seq<seq<T>>) {
    && |pieces| == |rs|
    && forall k | 0 <= k < |rs| ::
         && 0 <= rs[k].start <= rs[k].start + rs[k].length <= |file|
         && pieces[k] == file[rs[k].start..rs[k].start + rs[k].length]
  }

  function EndOf(rs: seq<Range>, m: nat): int
    requires m <= |rs|
  {
    if m == 0 then 0 else rs[m - 1].start + rs[m - 1].length
  }

  lemma {:induction false} JoinFirst<T>(file: seq<T>, rs: seq<Range>, pieces: seq<seq<T>>, m: nat)
    requires EndToEnd(rs, |file|) && CutOut(file, rs, pieces) && m <= |rs|
    ensures 0 <= EndOf(rs, m) <= |file|
    ensures Concat(pieces[..m]) == file[..EndOf(rs, m)]
    decreases m
  {
    if m == 0 {
      ConcatEmpty(pieces[..m]);
    } else {
      var j := m - 1;
      JoinFirst(file, rs, pieces, j);
      ConcatLast(pieces[..m]);
      assert pieces[..m][..j] == pieces[..j] && pieces[..m][j] == pieces[j];
      assert j > 0 ==> rs[j].start == rs[j - 1].start + rs[j - 1].length;
      assert file[..EndOf(rs, m)] == file[..EndOf(rs, j)] + pieces[j];
    }
  }

  /** Pieces cut out along ranges that lie end to end, joined in order, are the file. */
  lemma JoinPieces<T>(file: seq<T>, rs: seq<Range>, pieces: seq<seq<T>>)
    requires EndToEnd(rs, |file|) && CutOut(file, rs, pieces)
    ensures Concat(pieces) == file
  {
    JoinFirst(file, rs, pieces, |rs|);
    assert pieces[..|rs|] == pieces;
    assert file[..|file|] == file;
  }

  // ---------------------------------------------------------------- the writer that runs

  /** A file after a stretch up to position n has been mapped; what a longer file gains is unspecified. */
  function Grown(before: seq<Byte>, n: nat, junk: nat -> Byte): (r: seq<Byte>)
    ensures before <= r && |r| == Max(|before|, n)
  {
    if n <= |before| then before else before + seq(n - |before|, i requires 0 <= i => junk(|before| + i))
  }

  /** An output file after data has been written through a mapping that begins at start. */
  function Windowed(before: seq<Byte>, start: nat, data: seq<Byte>, junk: nat -> Byte): (r: seq<Byte>)
    ensures |r| == Max(|before|, start + |data|)
    ensures r[start..start + |data|] == data
    ensures forall i | 0 <= i < |before| && !(start <= i < start + |data|) :: r[i] == before[i]
  {
    var grown := Grown(before, start + |data|, junk);
    grown[..start] + data + grown[start + |data|..]
  }

  /** splitByByte on the stretch data, which begins at startIndex of the source.  The output is mapped from
      startIndex on too.  A stretch that is too long to be mapped leaves the output as it was. */
  method SplitByByte(data: seq<Byte>, startIndex: nat, before: seq<Byte>, junk: nat -> Byte)
    returns (output: seq<Byte>, start: int)
    ensures output == if |data| <= MAX_INT then Windowed(before, startIndex, data, junk) else before
    ensures start == if |data| <= MAX_INT then |data| else 0
  {
    var length := |data|;
    start := 0;
    if length > MAX_INT {
      return before, 0;  // IllegalArgumentException
    }
    ghost var grown := Grown(before, startIndex + length, junk);
    var target := Grown(before, startIndex + length, junk);
    var file := new Byte[|target|](i requires 0 <= i < |target| => target[i]);
    var position := startIndex;
    while start < length
      invariant 0 <= start <= length && position == startIndex + start
      invariant file[..startIndex] == grown[..startIndex]
      invariant file[startIndex..position] == data[..start]
      invariant file[startIndex + length..] == grown[startIndex + length..]
    {
      var b := data[start];
      file[position] := b;
      position := position + 1;
      start := ToInt(start + 1);
    }
    output := file[..];
    assert output == file[..startIndex] + file[startIndex..startIndex + length] + file[startIndex + length..];
  }

  // ---------------------------------------------------------------- a whole run

  /** What worker k leaves in its output file. */
  function OutputOf(mapped: seq<Byte>, r: Range, before: seq<Byte>, junk: nat -> Byte): seq<Byte>
    requires 0 <= r.start <= r.start + r.length <= |mapped|
  {
    if r.length <= MAX_INT then Windowed(before, r.start, mapped[r.start..r.start + r.length], junk) else before
  }

  /** Every output is at least as long as its range reaches. */
  predicate Reach(rs: seq<Range>, outputs: seq<seq<Byte>>) {
    && |outputs| == |rs|
    && forall k | 0 <= k < |rs| :: 0 <= rs[k].start <= rs[k].start + rs[k].length <= |outputs[k]|
  }

  /** Every output is as long as its range reaches, and together they are too long by every hole. */
  lemma {:induction false} TooLong(rs: seq<Range>, n: int, outputs: seq<seq<Byte>>, m: nat)
    requires EndToEnd(rs, n) && Reach(rs, outputs) && m <= |rs|
    ensures EndOf(rs, m) >= 0
    ensures |Concat(outputs[..m])| >= EndOf(rs, m) + if m >= 2 then rs[1].start else 0
  {
    if m > 0 {
      var j := m - 1;
      TooLong(rs, n, outputs, j);
      ConcatLast(outputs[..m]);
      Ordered(rs, n, j, j);
      assert outputs[..m][..j] == outputs[..j] && outputs[..m][j] == outputs[j];
    }
  }

  /** The joined outputs are the file exactly when it is one piece and the output was not longer before. */
  lemma JoinedIff(file: seq<Byte>, fill: seq<Byte>, splitSize: int, rs: seq<Range>, outputs: seq<seq<Byte>>,
                  before: seq<Byte>, junk: nat -> Byte)
    requires 0 < splitSize <= MAX_INT && |fill| == Max(0, splitSize - |file|)
    requires rs != [] && EndToEnd(rs, |file + fill|) && rs[0] == Range(0, splitSize)
    requires forall k | 0 <= k < |rs| :: rs[k].length > 0
    requires Reach(rs, outputs) && outputs[0] == OutputOf(file + fill, rs[0], before, junk)
    ensures Concat(outputs) == file <==> |file| == splitSize && |before| <= splitSize
  {
    hide Windowed;
    if |rs| == 1 {
      ConcatLast(outputs);
      assert outputs[..0] == [];
      assert Concat(outputs) == outputs[0];
      assert (file + fill)[0..splitSize] == file + fill;
      if |file| == splitSize && |before| <= splitSize {
        assert outputs[0] == outputs[0][0..splitSize] == file;
      }
    } else {
      TooLong(rs, |file + fill|, outputs, |rs|);
      assert outputs[..|rs|] == outputs;
      Ordered(rs, |file + fill|, 0, 1);
    }
  }

  /** The bytes of range k in output k. */
  function Windows(rs: seq<Range>, outputs: seq<seq<Byte>>): (r: seq<seq<Byte>>)
    requires Reach(rs, outputs)
  {
    seq(|rs|, k requires 0 <= k < |rs| => outputs[k][rs[k].start..rs[k].start + rs[k].length])
  }

  /** Output k is what worker k leaves. */
  ghost predicate OutputsOf(mapped: seq<Byte>, rs: seq<Range>, before: nat -> seq<Byte>, junk: nat -> nat -> Byte,
                            outputs: seq<seq<Byte>>) {
    && |outputs| == |rs|
    && forall k | 0 <= k < |rs| ::
         && 0 <= rs[k].start <= rs[k].start + rs[k].length <= |mapped|
         && outputs[k] == OutputOf(mapped, rs[k], before(k), junk(k))
  }

  /** All workers, one after the other; each writes a file of its own, which may have existed. */
  method WriteOutputs(mapped: seq<Byte>, workers: seq<Range>, before: nat -> seq<Byte>, junk: nat -> nat -> Byte)
    returns (outputs: seq<seq<Byte>>)
    requires workers != [] ==> EndToEnd(workers, |mapped|)
    ensures OutputsOf(mapped, workers, before, junk, outputs)
  {
    hide Windowed;
    outputs := [];
    var i := 0;
    while i < |workers|
      invariant 0 <= i <= |workers|
      invariant OutputsOf(mapped, workers[..i], before, junk, outputs)
    {
      var r := workers[i];
      Ordered(workers, |mapped|, i, i);
      var output, _ := SplitByByte(mapped[r.start..r.start + r.length], r.start, before(i), junk(i));
      outputs := outputs + [output];
      i := i + 1;
    }
    assert workers[..i] == workers;
  }

  /** A whole run.  fill is what the mapping of the first range appends to a source shorter than splitSize. */
  method SplitAll(file: seq<Byte>, splitSize: int, fill: seq<Byte>, before: nat -> seq<Byte>, junk: nat -> nat -> Byte)
    returns (workers: seq<Range>, outputs: seq<seq<Byte>>)
    requires |file| < 0x8000_0000_0000_0000 && 0 < splitSize < 0x8000_0000_0000_0000
    requires |file| <= MAX_INT * splitSize
    requires |fill| == Max(0, splitSize - |file|)
    ensures workers != [] ==> EndToEnd(workers, |file + fill|)
    ensures WholePieces(workers, |file|, splitSize)
    ensures OutputsOf(file + fill, workers, before, junk, outputs)
    ensures splitSize <= MAX_INT ==> Reach(workers, outputs)
    ensures splitSize <= MAX_INT && 0 < |file| ==> Concat(Windows(workers, outputs)) == file + fill
    ensures splitSize <= MAX_INT ==>
              (Concat(outputs) == file <==>
                (|file| == splitSize && |before(0)| <= splitSize) || (|file| == 0 && splitSize == 1))
  {
    hide Partition, Concat, Windowed, WholePieces, EndToEnd, OutputsOf, Windows, Reach;
    workers := SplitRanges(|file|, splitSize);
    var mapped := file + fill;
    assert |mapped| == Max(|file|, splitSize);
    assert workers != [] ==> EndToEnd(workers, |mapped|) by {
      if workers != [] && |file| == 0 { OneRange(workers, |mapped|); }
    }
    outputs := WriteOutputs(mapped, workers, before, junk);
    if workers == [] {
      NoOutputs(mapped, workers, before, junk, outputs);
    } else if splitSize <= MAX_INT {
      WindowsRebuild(mapped, workers, outputs, before, junk);
      FirstOutput(mapped, workers, outputs, before, junk);
      JoinedIff(file, fill, splitSize, workers, outputs, before(0), junk(0));
    }
  }

  lemma OneRange(rs: seq<Range>, n: nat)
    requires rs == [Range(0, n)]
    ensures EndToEnd(rs, n)
  {
  }

  lemma NoOutputs(mapped: seq<Byte>, rs: seq<Range>, before: nat -> seq<Byte>, junk: nat -> nat -> Byte,
                  outputs: seq<seq<Byte>>)
    requires rs == [] && OutputsOf(mapped, rs, before, junk, outputs)
    ensures Reach(rs, outputs) && Concat(outputs) == []
  {
  }

  lemma FirstOutput(mapped: seq<Byte>, rs: seq<Range>, outputs: seq<seq<Byte>>, before: nat -> seq<Byte>,
                    junk: nat -> nat -> Byte)
    requires rs != [] && OutputsOf(mapped, rs, before, junk, outputs)
    ensures |outputs| == |rs| && 0 <= rs[0].start <= rs[0].start + rs[0].length <= |mapped|
    ensures outputs[0] == OutputOf(mapped, rs[0], before(0), junk(0))
  {
  }

  /** Leaving out what lies outside its range, the outputs joined in order are the file. */
  lemma WindowsRebuild(mapped: seq<Byte>, rs: seq<Range>, outputs: seq<seq<Byte>>, before: nat -> seq<Byte>,
                       junk: nat -> nat -> Byte)
    requires EndToEnd(rs, |mapped|) && OutputsOf(mapped, rs, before, junk, outputs)
    requires forall k | 0 <= k < |rs| :: rs[k].length <= MAX_INT
    ensures Reach(rs, outputs)
    ensures Concat(Windows(rs, outputs)) == mapped
  {
    hide Concat, EndToEnd;
    var windows := Windows(rs, outputs);
    forall k | 0 <= k < |rs| ensures windows[k] == mapped[rs[k].start..rs[k].start + rs[k].length] {
    }
    JoinPieces(mapped, rs, windows);
  }

  // ---------------------------------------------------------------- the writer that is switched off

  /** The mapped stretch of the file with its read position. */
  class MapBuffer {
    const data: seq<Byte>
    var position: nat

    constructor (data: seq<Byte>)
      ensures this.data == data && position == 0
    {
      this.data, position := data, 0;
    }

    /** Reads n bytes to the front of bytes; ok is false for the underflow exception. */
    method Get(bytes: array<Byte>, n: nat) returns (ok: bool)
      requires n <= bytes.Length && position <= |data|
      modifies this, bytes
      ensures ok <==> old(position) + n <= |data|
      ensures ok ==> position == old(position) + n && bytes[..n] == data[old(position)..position]
      ensures !ok ==> position == old(position) && bytes[..] == old(bytes[..])
    {
      ok := position + n <= |data|;
      if ok {
        var k := 0;
        while k < n
          modifies bytes
          invariant 0 <= k <= n
          invariant bytes[..k] == data[position..position + k]
        {
          bytes[k] := data[position + k];
          k := k + 1;
        }
        position := position + n;
      }
    }
  }

  /** The longest stretch whose chunks do not carry the loop variable past the largest int. */
  const LONGEST := 2147481600

  /** splitByByteArr, the call of which is commented out, on the mapped stretch data.  done is false when an
      exception has ended it. */
  method SplitByByteArr(data: seq<Byte>) returns (written: seq<Byte>, done: bool, total: int)
    ensures written == if |data| <= MAX_INT then data else []
    ensures done <==> |data| <= LONGEST
    ensures |data| <= MAX_INT ==> total == |data|
  {
    var length := |data|;
    written, done, total := [], false, 0;
    if length > MAX_INT {
      return;
    }
    var mapBuffer := new MapBuffer(data);
    var start := 0;
    var bytes := new Byte[STEP];
    var lastLen := JavaMod(length, STEP);
    ghost var c := 0;
    while start < length
      invariant fresh(mapBuffer) && fresh(bytes) && mapBuffer.data == data && bytes.Length == STEP
      invariant Copied(length, c, start, mapBuffer.position)
      invariant written == data[..mapBuffer.position] && total == mapBuffer.position
      decreases if start < 0 then 0 else length - start + STEP
    {
      ghost var before := mapBuffer.position;
      ChunkSize(length, c, start, lastLen, before);
      var n := if length < STEP then length else if lastLen == length - start then length - start else STEP;
      var ok := mapBuffer.Get(bytes, n);
      if !ok {
        return;
      }
      written := written + bytes[..n];
      assert data[..before + n] == data[..before] + data[before..before + n];
      total := ToInt(total + n);
      start := ToInt(start + STEP);
      c := c + 1;
    }
    done := true;
  }

  /** After c chunks: the position is past them or at the end, and start is their size unless it
      has wrapped around. */
  ghost predicate Copied(length: nat, c: nat, start: int, position: int) {
    && 0 <= position <= length && start <= MAX_INT
    && if start >= 0 then
         start == STEP * c && start < length + STEP && position == (if start < length then start else length)
       else position == length && length > LONGEST
  }

  /** A chunk is what is left, up to the size of the buffer; once start has wrapped around, nothing is
      left and the chunk is a whole one. */
  lemma ChunkSize(length: nat, c: nat, start: int, lastLen: int, position: int)
    requires length <= MAX_INT && lastLen == JavaMod(length, STEP)
    requires start < length && Copied(length, c, start, position)
    ensures var n := if length < STEP then length else if lastLen == length - start then length - start else STEP;
            && 0 <= n <= STEP
            && (start >= 0 ==> n == if length - start < STEP then length - start else STEP)
            && (start < 0 ==> n == STEP)
            && (start >= 0 && ToInt(start + STEP) >= 0 ==> Copied(length, c + 1, ToInt(start + STEP), position + n))
            && (start >= 0 && ToInt(start + STEP) < 0 ==> length > LONGEST && position + n == length)
            && (start >= 0 && ToInt(start + STEP) < length ==>
                  ToInt(start + STEP) < 0 || start + STEP == ToInt(start + STEP))
            && (start >= 0 && ToInt(start + STEP) >= length ==> length <= LONGEST)
  {
  }
}
