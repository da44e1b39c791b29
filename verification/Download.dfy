/** A download shared out among five workers that write to one file, in any interleaving. */
module Download {
  import opened Bits
  import opened Ranges

  const THREADS := 5

  // ---------------------------------------------------------------- the ranges

  /** The constructor's ranges.  A content length of -1 stands for an unknown length. */
  method DownloadRanges(contentLength: int) returns (workers: seq<Range>)
    requires -0x8000_0000 <= contentLength < 0x8000_0000
    ensures |workers| == THREADS
    ensures EndToEnd(workers, contentLength) <==> contentLength >= 0
    ensures contentLength < 0 ==> workers[THREADS - 1].length < 0
    ensures contentLength >= 0 ==> Partition(workers, contentLength)
    ensures forall k | 0 <= k < 4 :: workers[k].length == JavaDiv(contentLength, 5)
    ensures forall k | 0 <= k < 5 :: workers[k].start == k * JavaDiv(contentLength, 5)
    ensures workers[4].length == contentLength - 4 * JavaDiv(contentLength, 5)
    ensures contentLength >= 0 ==>
              forall j, k | 0 <= j < k < THREADS :: 0 <= workers[k].length - workers[j].length < THREADS
  {
    var step := JavaDiv(contentLength, THREADS);
    ghost var all := EvenRanges(contentLength, step);
    var index := 0;
    workers := [];
    var i := 0;
    while i < THREADS
      invariant 0 <= i <= THREADS
      invariant workers == all[..i]
      invariant i < THREADS ==> index == all[i].start
    {
      if i == 0 {
        workers := workers + [Range(0, step)];
      } else if i == THREADS - 1 {
        workers := workers + [Range(index, ToInt(contentLength - index))];
      } else {
        workers := workers + [Range(index, step)];
      }
      index := ToInt(index + step);
      i := i + 1;
    }
    EvenRangesShape(contentLength, step);
    if contentLength >= 0 {
      EndToEndIsPartition(workers, contentLength);
    }
  }

  function EvenRanges(n: int, step: int): seq<Range> {
    [Range(0, step), Range(step, step), Range(2 * step, step), Range(3 * step, step), Range(4 * step, n - 4 * step)]
  }

  lemma EvenRangesShape(n: int, step: int)
    requires step == JavaDiv(n, THREADS)
    ensures var rs := EvenRanges(n, step);
            && (EndToEnd(rs, n) <==> n >= 0)
            && (n < 0 ==> rs[THREADS - 1].length < 0)
            && (forall k | 0 <= k < 5 :: rs[k].start == k * step)
            && (n >= 0 ==> forall j, k | 0 <= j < k < THREADS :: 0 <= rs[k].length - rs[j].length < THREADS)
  {
  }

  // ---------------------------------------------------------------- one worker

  /** What in.read() yields at position p: the cast of -1 to byte past the end of the stream. */
  function StreamByte(stream: seq<Byte>, p: nat): Byte {
    if p < |stream| then stream[p] else ToByte(-1)
  }

  /** The bytes that n reads deliver. */
  function Delivered(stream: seq<Byte>, n: nat): (r: seq<Byte>)
    ensures |r| == n && forall p | 0 <= p < n :: r[p] == StreamByte(stream, p)
    ensures n == |stream| ==> r == stream
  {
    seq(n, p requires 0 <= p => StreamByte(stream, p))
  }

  /** The copy loop of run: it fills the mapped window that begins at startIndex. */
  method FillWindow(stream: seq<Byte>, startIndex: nat, buffer: array<Byte>)
    modifies buffer
    ensures buffer[..] == Delivered(stream, startIndex + buffer.Length)[startIndex..]
  {
    var position := startIndex;
    var i := 0;
    while i < buffer.Length
      invariant 0 <= i <= buffer.Length && position == startIndex + i
      invariant forall j | 0 <= j < i :: buffer[j] == StreamByte(stream, startIndex + j)
    {
      buffer[i] := StreamByte(stream, position);
      position := position + 1;
      i := i + 1;
    }
  }

  /** When the server delivers fewer bytes than it announced, the rest are -1. */
  lemma ShortStream(stream: seq<Byte>, n: nat)
    requires |stream| <= n
    ensures Delivered(stream, n)[..|stream|] == stream
    ensures forall p | |stream| <= p < n :: Delivered(stream, n)[p] == -1
  {
  }

  // ---------------------------------------------------------------- all workers, step by step

  datatype Progress = NotMapped | Copying(i: int)

  datatype State = State(file: seq<Byte>, worker: seq<Progress>)

  /** Mapping a window past the end of the file extends the file with arbitrary bytes. */
  datatype Action = Map(k: nat, fill: seq<Byte>) | Put(k: nat)

  predicate Enabled(rs: seq<Range>, s: State, a: Action) {
    && a.k < |s.worker| == |rs|
    && var r: Range, q: Progress := rs[a.k], s.worker[a.k];
       match a
       case Map(_, fill) => q.NotMapped? && |fill| == Max(0, r.start + r.length - |s.file|)
       case Put(_) => q.Copying? && q.i < r.length && 0 <= r.start + q.i < |s.file|
  }

  function Apply(rs: seq<Range>, stream: seq<Byte>, s: State, a: Action): State
    requires Enabled(rs, s, a)
  {
    match a
    case Map(k, fill) => State(s.file + fill, s.worker[k := Copying(0)])
    case Put(k) =>
      var p := rs[k].start + s.worker[k].i;
      State(s.file[p := StreamByte(stream, p)], s.worker[k := Copying(s.worker[k].i + 1)])
  }

  ghost predicate Next(rs: seq<Range>, stream: seq<Byte>, s: State, t: State) {
    exists a :: Enabled(rs, s, a) && t == Apply(rs, stream, s, a)
  }

  ghost predicate IsRun(rs: seq<Range>, stream: seq<Byte>, run: seq<State>) {
    && run != [] && |run[0].worker| == |rs|
    && (forall k | 0 <= k < |rs| :: run[0].worker[k] == NotMapped)
    && (forall j, m | 0 <= j < |run| && m == j + 1 < |run| :: Next(rs, stream, run[j], run[m]))
  }

  ghost predicate Halted(rs: seq<Range>, s: State) {
    forall a :: !Enabled(rs, s, a)
  }

  // ---------------------------------------------------------------- what every run keeps

  /** What worker k has written is what the stream delivers. */
  predicate WorkerInv(rs: seq<Range>, stream: seq<Byte>, s: State, k: nat)
    requires k < |s.worker| == |rs|
  {
    var r, q := rs[k], s.worker[k];
    && r.start >= 0
    && (q.Copying? ==>
          && 0 <= q.i <= r.length && r.start + r.length <= |s.file|
          && forall p | r.start <= p < r.start + q.i :: s.file[p] == StreamByte(stream, p))
  }

  /** n is the content length and before the local file as it was. */
  ghost predicate Inv(rs: seq<Range>, stream: seq<Byte>, n: nat, before: seq<Byte>, s: State) {
    && |s.worker| == |rs|
    && |before| <= |s.file| <= Max(|before|, n)
    && (forall p | n <= p < |before| :: s.file[p] == before[p])
    && forall k | 0 <= k < |rs| :: WorkerInv(rs, stream, s, k)
  }

  lemma InitInv(rs: seq<Range>, stream: seq<Byte>, n: nat, s: State)
    requires EndToEnd(rs, n) && |s.worker| == |rs| && forall k | 0 <= k < |rs| :: s.worker[k] == NotMapped
    ensures Inv(rs, stream, n, s.file, s)
  {
    forall k | 0 <= k < |rs| ensures WorkerInv(rs, stream, s, k) {
      Ordered(rs, n, k, k);
    }
  }

  lemma StepInv(rs: seq<Range>, stream: seq<Byte>, n: nat, before: seq<Byte>, s: State, a: Action)
    requires EndToEnd(rs, n) && Enabled(rs, s, a) && Inv(rs, stream, n, before, s)
    ensures Inv(rs, stream, n, before, Apply(rs, stream, s, a))
  {
    Ordered(rs, n, a.k, a.k);
    var t := Apply(rs, stream, s, a);
    forall k | 0 <= k < |rs| ensures WorkerInv(rs, stream, t, k) {
      assert WorkerInv(rs, stream, s, k);
    }
  }

  lemma {:induction false} RunInv(rs: seq<Range>, stream: seq<Byte>, n: nat, run: seq<State>, m: nat)
    requires EndToEnd(rs, n) && IsRun(rs, stream, run) && m < |run|
    ensures Inv(rs, stream, n, run[0].file, run[m])
  {
    hide Inv, EndToEnd, Enabled, Apply;
    if m == 0 {
      InitInv(rs, stream, n, run[0]);
    } else {
      var j := m - 1;
      RunInv(rs, stream, n, run, j);
      assert Next(rs, stream, run[j], run[m]);
      var a :| Enabled(rs, run[j], a) && run[m] == Apply(rs, stream, run[j], a);
      StepInv(rs, stream, n, run[0].file, run[j], a);
    }
  }

  // ---------------------------------------------------------------- how long a run takes

  /** The steps workers k, k + 1, ... have still to take. */
  function StepsLeft(rs: seq<Range>, worker: seq<Progress>, k: nat): int
    requires k <= |rs| == |worker|
    decreases |rs| - k
  {
    if k == |rs| then 0
    else (match worker[k] case NotMapped => 1 + rs[k].length case Copying(i) => rs[k].length - i)
         + StepsLeft(rs, worker, k + 1)
  }

  lemma {:induction false} StepsLeftUpdate(rs: seq<Range>, worker: seq<Progress>, k: nat, j: nat, q: Progress)
    requires k <= |rs| == |worker| && j < |rs|
    requires if worker[j].NotMapped? then q == Copying(0) else q == Copying(worker[j].i + 1)
    ensures StepsLeft(rs, worker[j := q], k) == StepsLeft(rs, worker, k) - if k <= j then 1 else 0
    decreases |rs| - k
  {
    if k < |rs| {
      StepsLeftUpdate(rs, worker, k + 1, j, q);
    }
  }

  lemma {:induction false} StepsAtStart(rs: seq<Range>, n: nat, worker: seq<Progress>, k: nat)
    requires EndToEnd(rs, n) && k < |rs| == |worker| && forall j | 0 <= j < |rs| :: worker[j].NotMapped?
    ensures StepsLeft(rs, worker, k) == |rs| - k + n - rs[k].start
    decreases |rs| - k
  {
    if k + 1 < |rs| {
      StepsAtStart(rs, n, worker, k + 1);
      assert rs[k + 1].start == rs[k].start + rs[k].length;
    } else {
      assert StepsLeft(rs, worker, k + 1) == 0;
    }
  }

  lemma {:induction false} StepsAtEnd(rs: seq<Range>, worker: seq<Progress>, k: nat)
    requires k <= |rs| == |worker| && forall j | 0 <= j < |rs| :: worker[j] == Copying(rs[j].length)
    ensures StepsLeft(rs, worker, k) == 0
    decreases |rs| - k
  {
    if k < |rs| {
      StepsAtEnd(rs, worker, k + 1);
    }
  }

  lemma {:induction false} RunCounts(rs: seq<Range>, stream: seq<Byte>, run: seq<State>, m: nat)
    requires IsRun(rs, stream, run) && m < |run|
    ensures |run[m].worker| == |rs|
    ensures m + StepsLeft(rs, run[m].worker, 0) == StepsLeft(rs, run[0].worker, 0)
  {
    if m > 0 {
      var j := m - 1;
      RunCounts(rs, stream, run, j);
      assert Next(rs, stream, run[j], run[m]);
      var a :| Enabled(rs, run[j], a) && run[m] == Apply(rs, stream, run[j], a);
      StepsLeftUpdate(rs, run[j].worker, 0, a.k, run[m].worker[a.k]);
    }
  }

  // ---------------------------------------------------------------- main results

  /** No worker ever waits for another: one that has not copied its whole range can go on. */
  lemma UnfinishedMoves(rs: seq<Range>, stream: seq<Byte>, n: nat, before: seq<Byte>, s: State, k: nat)
    requires EndToEnd(rs, n) && Inv(rs, stream, n, before, s) && k < |rs|
    requires s.worker[k] != Copying(rs[k].length)
    ensures !Halted(rs, s)
  {
    assert WorkerInv(rs, stream, s, k);
    if s.worker[k].NotMapped? {
      var fill := seq(Max(0, rs[k].start + rs[k].length - |s.file|), _ => ToByte(0));
      assert Enabled(rs, s, Map(k, fill));
    } else {
      assert Enabled(rs, s, Put(k));
    }
  }

  /** Whatever the interleaving, a finished download leaves the delivered bytes, followed by whatever
      the local file already held beyond them; and it takes one step per worker and one per byte. */
  lemma DownloadCompletes(rs: seq<Range>, stream: seq<Byte>, n: nat, run: seq<State>)
    requires EndToEnd(rs, n) && rs != [] && IsRun(rs, stream, run) && Halted(rs, run[|run| - 1])
    ensures var before := run[0].file;
            run[|run| - 1].file == Delivered(stream, n) + if |before| > n then before[n..] else []
    ensures |run| - 1 == |rs| + n
  {
    hide Halted, Enabled, EndToEnd, Apply;
    var m := |run| - 1;
    var before, s := run[0].file, run[m];
    RunInv(rs, stream, n, run, m);
    forall k | 0 <= k < |rs| ensures s.worker[k] == Copying(rs[k].length) {
      if s.worker[k] != Copying(rs[k].length) {
        UnfinishedMoves(rs, stream, n, before, s, k);
      }
    }
    FileAtEnd(rs, stream, n, before, s);
    RunCounts(rs, stream, run, m);
    FirstRange(rs, stream, n, run);
    StepsAtStart(rs, n, run[0].worker, 0);
    StepsAtEnd(rs, s.worker, 0);
  }

  lemma FirstRange(rs: seq<Range>, stream: seq<Byte>, n: nat, run: seq<State>)
    requires EndToEnd(rs, n) && rs != [] && IsRun(rs, stream, run)
    ensures rs[0].start == 0
    ensures |run[0].worker| == |rs| && forall j | 0 <= j < |rs| :: run[0].worker[j].NotMapped?
  {
  }

  lemma FileAtEnd(rs: seq<Range>, stream: seq<Byte>, n: nat, before: seq<Byte>, s: State)
    requires EndToEnd(rs, n) && rs != [] && Inv(rs, stream, n, before, s)
    requires forall k | 0 <= k < |rs| :: s.worker[k] == Copying(rs[k].length)
    ensures s.file == Delivered(stream, n) + if |before| > n then before[n..] else []
  {
    assert WorkerInv(rs, stream, s, |rs| - 1);
    assert |s.file| == Max(|before|, n);
    forall p | 0 <= p < n ensures s.file[p] == StreamByte(stream, p) {
      var k := FindRange(rs, n, p, |rs| - 1);
      assert WorkerInv(rs, stream, s, k);
    }
  }

  /** With the announced length, the file is the source exactly when it was not longer before. */
  lemma FileIsSource(rs: seq<Range>, stream: seq<Byte>, run: seq<State>)
    requires EndToEnd(rs, |stream|) && rs != [] && IsRun(rs, stream, run) && Halted(rs, run[|run| - 1])
    ensures run[|run| - 1].file == stream <==> |run[0].file| <= |stream|
  {
    DownloadCompletes(rs, stream, |stream|, run);
    if |run[0].file| > |stream| {
      assert |run[|run| - 1].file| == |run[0].file|;
    }
  }
}
