/** The Snowflake-style id generator over an arbitrary clock: every call of System.currentTimeMillis
    takes the next of a sequence of readings, which may stand still or run backwards. */
module IdGenerator {
  import opened Bits
  import opened Options

  const TWEPOCH := 1361753741828
  const MAX_WORKER_ID := 15
  const SEQUENCE_MASK := 1023

  /** The id, as the shifts and ors on long values give it. */
  function MakeId(workerId: int, timestamp: int, sequence: int): int {
    BitOr(BitOr(ToLong((timestamp - TWEPOCH) * Pow2(14)), workerId * Pow2(10)), sequence)
  }

  /** Readings from 1970 on for which the shifted timestamp stays within 64 bits. */
  predicate GoodReading(t: int) {
    0 <= t < TWEPOCH + 0x2_0000_0000_0000
  }

  predicate GoodClock(readings: seq<int>) {
    forall i | 0 <= i < |readings| :: GoodReading(readings[i])
  }

  // ---------------------------------------------------------------- one call

  /** The fields of a generator. */
  datatype Worker = Worker(id: int, last: int, sequence: int)

  predicate GoodWorker(w: Worker) {
    0 <= w.id <= MAX_WORKER_ID && 0 <= w.sequence <= SEQUENCE_MASK
  }

  /** How many readings tilNextMillis takes before the one it returns. */
  function TilNext(last: int, readings: seq<int>): (n: nat)
    ensures n <= |readings|
    ensures forall i | 0 <= i < n :: readings[i] <= last
    ensures n < |readings| ==> readings[n] > last
  {
    if readings == [] || readings[0] > last then 0 else 1 + TilNext(last, readings[1..])
  }

  datatype Issue = Issue(stamp: int, sequence: int, id: int)
  datatype Call = Call(issue: Issue, worker: Worker, rest: seq<int>)

  function Issued(w: Worker, stamp: int, sequence: int, rest: seq<int>): Call {
    Call(Issue(stamp, sequence, MakeId(w.id, stamp, sequence)), Worker(w.id, stamp, sequence), rest)
  }

  /** One call of nextId; None when the readings end before it has returned. */
  function NextCall(w: Worker, readings: seq<int>): (r: Option<Call>)
    ensures r.Some? ==> |r.value.rest| < |readings|
  {
    if readings == [] then None
    else
      var t, rest := readings[0], readings[1..];
      if t != w.last then Some(Issued(w, t, 0, rest))
      else if (w.sequence + 1) % 1024 != 0 then Some(Issued(w, t, (w.sequence + 1) % 1024, rest))
      else
        var n := TilNext(w.last, rest);
        if n == |rest| then None else Some(Issued(w, rest[n], 0, rest[n + 1..]))
  }

  /** Everything a generator issues while the readings last. */
  function Run(w: Worker, readings: seq<int>): seq<Issue>
    decreases |readings|
  {
    match NextCall(w, readings)
    case None => []
    case Some(call) => [call.issue] + Run(call.worker, call.rest)
  }

  function NewWorker(id: int): Worker { Worker(id, -1, 0) }

  // ---------------------------------------------------------------- packing

  lemma IdIsSum(workerId: int, t: int, sequence: int)
    requires 0 <= workerId <= MAX_WORKER_ID && GoodReading(t) && 0 <= sequence <= SEQUENCE_MASK
    ensures MakeId(workerId, t, sequence) == (t - 1361753741828) * 16384 + workerId * 1024 + sequence
  {
    hide BitOr;
    Powers();
    var x := t - TWEPOCH;
    var shifted := x * 16384;
    assert ToLong(shifted) == shifted;
    OrIsPlus(x, workerId * 1024, 14);
    assert shifted + workerId * 1024 == (x * 16 + workerId) * 1024;
    OrIsPlus(x * 16 + workerId, sequence, 10);
  }

  /** Timestamp, worker and sequence number can be read back from the id by shifting and masking. */
  lemma Unpack(workerId: int, t: int, sequence: int)
    requires 0 <= workerId <= MAX_WORKER_ID && GoodReading(t) && 0 <= sequence <= SEQUENCE_MASK
    ensures var id := MakeId(workerId, t, sequence);
            && id / 16384 + 1361753741828 == t
            && BitAnd(id / 1024, 15) == workerId
            && BitAnd(id, 1023) == sequence
  {
    hide BitAnd, MakeId;
    var id, x := MakeId(workerId, t, sequence), t - TWEPOCH;
    IdIsSum(workerId, t, sequence);
    Powers();
    DivModUnique(id, 16384, x, workerId * 1024 + sequence);
    DivModUnique(id, 1024, x * 16 + workerId, sequence);
    DivModUnique(x * 16 + workerId, 16, x, workerId);
    AndIsMod(id, 10);
    AndIsMod(x * 16 + workerId, 4);
  }

  // ---------------------------------------------------------------- runs

  /** An issue is the next one in its millisecond, or the first after entering another. */
  predicate Follows(stamp: int, sequence: int, b: Issue) {
    if b.stamp == stamp then b.sequence == sequence + 1 else b.sequence == 0
  }

  predicate GoodIssue(id: int, b: Issue) {
    GoodReading(b.stamp) && 0 <= b.sequence <= SEQUENCE_MASK && b.id == MakeId(id, b.stamp, b.sequence)
  }

  predicate Chain(id: int, run: seq<Issue>) {
    && (forall k | 0 <= k < |run| :: GoodIssue(id, run[k]))
    && (forall k | 0 < k < |run| :: Follows(run[k - 1].stamp, run[k - 1].sequence, run[k]))
  }

  lemma {:induction false} RunChain(w: Worker, readings: seq<int>)
    requires GoodWorker(w) && GoodClock(readings)
    ensures Chain(w.id, Run(w, readings))
    ensures Run(w, readings) != [] ==> Follows(w.last, w.sequence, Run(w, readings)[0])
    decreases |readings|
  {
    hide MakeId;
    match NextCall(w, readings)
    case None =>
    case Some(call) =>
      RunChain(call.worker, call.rest);
      var rest := Run(call.worker, call.rest);
      assert Run(w, readings) == [call.issue] + rest;
  }

  lemma NewRunChain(id: int, readings: seq<int>)
    requires 0 <= id <= MAX_WORKER_ID && GoodClock(readings)
    ensures var run := Run(NewWorker(id), readings); Chain(id, run) && (run != [] ==> run[0].sequence == 0)
  {
    RunChain(NewWorker(id), readings);
  }

  /** The issues of one millisecond, from its first on. */
  lemma {:induction false} BlockStart(id: int, run: seq<Issue>, i: nat) returns (p: nat)
    requires Chain(id, run) && i < |run| && run[0].sequence == 0
    ensures p <= i && run[p].sequence == 0
    ensures forall k | p <= k <= i :: run[k].stamp == run[i].stamp
  {
    if run[i].sequence == 0 {
      p := i;
    } else {
      assert Follows(run[i - 1].stamp, run[i - 1].sequence, run[i]);
      p := BlockStart(id, run, i - 1);
    }
  }

  lemma {:induction false} SameBlock(id: int, run: seq<Issue>, i: nat, j: nat)
    requires Chain(id, run) && i <= j < |run|
    requires forall k | i <= k <= j :: run[k].stamp == run[i].stamp
    ensures run[j].sequence == run[i].sequence + (j - i)
  {
    if i < j {
      SameBlock(id, run, i, j - 1);
      assert Follows(run[j - 1].stamp, run[j - 1].sequence, run[j]);
    }
  }

  /** A millisecond in which ids were issued is left and issued in again later. */
  predicate Reenters(run: seq<Issue>) {
    exists i, j, k :: 0 <= i < j < k < |run| && run[i].stamp == run[k].stamp && run[i].stamp != run[j].stamp
  }

  predicate DistinctIds(run: seq<Issue>) {
    forall i, j | 0 <= i < j < |run| :: run[i].id != run[j].id
  }

  lemma SameId(id: int, a: Issue, b: Issue)
    requires 0 <= id <= MAX_WORKER_ID && GoodIssue(id, a) && GoodIssue(id, b)
    ensures a.id == b.id <==> a.stamp == b.stamp && a.sequence == b.sequence
  {
    hide MakeId, BitAnd;
    Unpack(id, a.stamp, a.sequence);
    Unpack(id, b.stamp, b.sequence);
  }

  // ---------------------------------------------------------------- main results

  lemma ReentryRepeats(id: int, run: seq<Issue>)
    requires 0 <= id <= MAX_WORKER_ID && Chain(id, run) && Reenters(run) && run[0].sequence == 0
    ensures !DistinctIds(run)
  {
    hide MakeId;
    var i, j, k :| 0 <= i < j < k < |run| && run[i].stamp == run[k].stamp && run[i].stamp != run[j].stamp;
    var p := BlockStart(id, run, i);
    var q := BlockStart(id, run, k);
    assert j < q;
    SameId(id, run[p], run[q]);
  }

  lemma SameIdReenters(id: int, run: seq<Issue>, i: nat, j: nat)
    requires 0 <= id <= MAX_WORKER_ID && Chain(id, run) && i < j < |run| && run[i].id == run[j].id
    ensures Reenters(run)
  {
    hide MakeId;
    SameId(id, run[i], run[j]);
    if forall k | i <= k <= j :: run[k].stamp == run[i].stamp {
      SameBlock(id, run, i, j);
    }
  }

  /** For every clock: the ids of one generator are pairwise distinct exactly when no millisecond in
      which it issued ids is left and later used again. */
  lemma UniqueIff(id: int, readings: seq<int>)
    requires 0 <= id <= MAX_WORKER_ID && GoodClock(readings)
    ensures var run := Run(NewWorker(id), readings); DistinctIds(run) <==> !Reenters(run)
  {
    hide MakeId, Run, Chain;
    var run := Run(NewWorker(id), readings);
    NewRunChain(id, readings);
    if Reenters(run) {
      ReentryRepeats(id, run);
    } else {
      forall i, j | 0 <= i < j < |run| ensures run[i].id != run[j].id {
        if run[i].id == run[j].id {
          SameIdReenters(id, run, i, j);
        }
      }
    }
  }

  // ---------------------------------------------------------------- which readings are issued

  /** When the last id had this stamp and sequence number and reading from is the next, the next id is issued
      at reading q: at once, unless the 1024 ids of the millisecond are used up and it still lasts. */
  predicate IssuedAt(stamp: int, sequence: int, readings: seq<int>, from: nat, q: nat) {
    && from <= q < |readings|
    && if readings[from] == stamp && sequence == 1023 then
         readings[q] > stamp && forall j | from <= j < q :: readings[j] <= stamp
       else q == from
  }

  /** No further id is issued: there is no reading left, or the wait for the next millisecond takes all. */
  predicate NoneIssued(stamp: int, sequence: int, readings: seq<int>, from: nat) {
    || from >= |readings|
    || (readings[from] == stamp && sequence == 1023 && forall j | from <= j < |readings| :: readings[j] <= stamp)
  }

  /** From reading from on, the issues of run are those of the readings at positions at. */
  predicate IssuedAll(stamp: int, sequence: int, run: seq<Issue>, readings: seq<int>, from: nat, at: seq<nat>)
    decreases |run|
  {
    && |at| == |run|
    && if run == [] then NoneIssued(stamp, sequence, readings, from)
       else
         && IssuedAt(stamp, sequence, readings, from, at[0]) && readings[at[0]] == run[0].stamp
         && IssuedAll(run[0].stamp, run[0].sequence, run[1..], readings, at[0] + 1, at[1..])
  }

  lemma CallIssues(w: Worker, readings: seq<int>, from: nat)
    requires GoodWorker(w) && from <= |readings|
    ensures match NextCall(w, readings[from..])
            case None => NoneIssued(w.last, w.sequence, readings, from)
            case Some(call) =>
              var q := |readings| - |call.rest| - 1;
              && q >= from && call.rest == readings[q + 1..] && readings[q] == call.issue.stamp
              && IssuedAt(w.last, w.sequence, readings, from, q)
              && GoodWorker(call.worker) && call.worker == Worker(w.id, call.issue.stamp, call.issue.sequence)
  {
    hide MakeId, TilNext;
    var now := readings[from..];
    assert forall j | from <= j < |readings| :: readings[j] == now[j - from];
  }

  lemma {:induction false} IssuesOf(w: Worker, readings: seq<int>, from: nat) returns (at: seq<nat>)
    requires GoodWorker(w) && from <= |readings|
    ensures IssuedAll(w.last, w.sequence, Run(w, readings[from..]), readings, from, at)
    decreases |readings| - from
  {
    hide MakeId, NextCall, IssuedAt, NoneIssued;
    CallIssues(w, readings, from);
    match NextCall(w, readings[from..])
    case None =>
      at := [];
    case Some(call) =>
      var q := |readings| - |call.rest| - 1;
      var rest := IssuesOf(call.worker, readings, q + 1);
      at := [q] + rest;
      RunUnfold(w, readings[from..], call);
      var later := Run(call.worker, call.rest);
      assert ([call.issue] + later)[1..] == later && at[1..] == rest;
  }

  lemma RunUnfold(w: Worker, readings: seq<int>, call: Call)
    requires NextCall(w, readings) == Some(call)
    ensures Run(w, readings) == [call.issue] + Run(call.worker, call.rest)
  {
  }

  /** For every clock, a new generator issues an id at each reading, except that after 1024 ids of one
      millisecond it waits for a later reading; and the numbers of one millisecond count up from 0. */
  lemma EveryReadingIssued(id: int, readings: seq<int>) returns (at: seq<nat>)
    requires 0 <= id <= MAX_WORKER_ID && GoodClock(readings)
    ensures IssuedAll(-1, 0, Run(NewWorker(id), readings), readings, 0, at)
    ensures Chain(id, Run(NewWorker(id), readings))
  {
    hide Run, IssuedAll, Chain;
    at := IssuesOf(NewWorker(id), readings, 0);
    assert readings[0..] == readings;
    NewRunChain(id, readings);
  }

  lemma {:induction false} StandingClock(w: Worker, t: int, n: nat)
    requires w.last == t && 0 <= w.sequence && w.sequence + n <= 1023
    ensures var run := Run(w, seq(n, _ => t));
            && |run| == n
            && forall k | 0 <= k < n :: run[k] == Issue(t, w.sequence + 1 + k, MakeId(w.id, t, w.sequence + 1 + k))
    decreases n
  {
    var readings: seq<int>, rest: seq<int> := seq(n, _ => t), seq(if n == 0 then 0 else n - 1, _ => t);
    if n > 0 {
      assert readings[1..] == rest;
      var call := Issued(w, t, w.sequence + 1, rest);
      assert NextCall(w, readings) == Some(call);
      hide Run, MakeId, NextCall;
      StandingClock(call.worker, t, n - 1);
      RunUnfold(w, readings, call);
    }
  }

  /** A clock that shows one millisecond up to 1024 times gives an id each time, numbered from 0. */
  lemma OneMillisecond(id: int, t: int, n: nat)
    requires GoodReading(t) && n <= 1024
    ensures var run := Run(NewWorker(id), seq(n, _ => t));
            |run| == n && forall k | 0 <= k < n :: run[k] == Issue(t, k, MakeId(id, t, k))
  {
    var readings: seq<int>, rest: seq<int> := seq(n, _ => t), seq(if n == 0 then 0 else n - 1, _ => t);
    if n > 0 {
      assert readings[1..] == rest;
      var call := Issued(NewWorker(id), t, 0, rest);
      assert NextCall(NewWorker(id), readings) == Some(call);
      hide Run, MakeId, NextCall;
      StandingClock(call.worker, t, n - 1);
      RunUnfold(NewWorker(id), readings, call);
    }
  }

  // ---------------------------------------------------------------- a condition on the clock

  /** The clock shows a value, another one, and the first again. */
  predicate Returns(readings: seq<int>) {
    exists i, j, k :: 0 <= i < j < k < |readings| && readings[i] == readings[k] && readings[i] != readings[j]
  }

  /** The positions at, in this order, of the readings whose values the issues carry. */
  predicate CarriedAt(run: seq<Issue>, readings: seq<int>, at: seq<nat>) {
    && |at| == |run|
    && (forall k | 0 <= k < |run| :: at[k] < |readings| && readings[at[k]] == run[k].stamp)
    && (forall i, j | 0 <= i < j < |run| :: at[i] < at[j])
  }

  lemma CarriedCons(issue: Issue, run: seq<Issue>, readings: seq<int>, taken: nat, at: seq<nat>) returns (all: seq<nat>)
    requires 0 < taken <= |readings| && readings[taken - 1] == issue.stamp
    requires CarriedAt(run, readings[taken..], at)
    ensures CarriedAt([issue] + run, readings, all)
  {
    all := seq(|at| + 1, k requires 0 <= k < |at| + 1 => if k == 0 then taken - 1 else at[k - 1] + taken);
  }

  lemma {:induction false} ReadingsOf(w: Worker, readings: seq<int>) returns (at: seq<nat>)
    ensures CarriedAt(Run(w, readings), readings, at)
    decreases |readings|
  {
    hide MakeId, NextCall, CarriedAt;
    match NextCall(w, readings)
    case None =>
      at := [];
      assert CarriedAt([], readings, at) by { CarriedNone(readings); }
    case Some(call) =>
      at := ReadingsOf(call.worker, call.rest);
      CallReads(w, readings);
      at := CarriedCons(call.issue, Run(call.worker, call.rest), readings, |readings| - |call.rest|, at);
  }

  lemma CarriedNone(readings: seq<int>)
    ensures CarriedAt([], readings, [])
  {
  }

  lemma ReentersReturns(run: seq<Issue>, readings: seq<int>, at: seq<nat>)
    requires CarriedAt(run, readings, at) && Reenters(run)
    ensures Returns(readings)
  {
    var i, j, k :| 0 <= i < j < k < |run| && run[i].stamp == run[k].stamp && run[i].stamp != run[j].stamp;
    assert at[i] < at[j] < at[k];
  }

  /** The last reading that a call takes is the one its id carries. */
  lemma CallReads(w: Worker, readings: seq<int>)
    requires NextCall(w, readings).Some?
    ensures var call := NextCall(w, readings).value;
            var taken := |readings| - |call.rest|;
            taken > 0 && call.rest == readings[taken..] && readings[taken - 1] == call.issue.stamp
  {
    hide MakeId;
  }

  /** A condition on the clock alone, weaker than that it never goes back: when no value that it shows is
      left and shown again, the ids are pairwise distinct. */
  lemma NoReturnNoRepeat(id: int, readings: seq<int>)
    requires 0 <= id <= MAX_WORKER_ID && GoodClock(readings) && !Returns(readings)
    ensures DistinctIds(Run(NewWorker(id), readings))
  {
    hide Run;
    UniqueIff(id, readings);
    var run := Run(NewWorker(id), readings);
    var at := ReadingsOf(NewWorker(id), readings);
    if Reenters(run) {
      ReentersReturns(run, readings, at);
    }
  }

  /** The clock never goes back. */
  predicate Monotone(readings: seq<int>) {
    forall i, j | 0 <= i < j < |readings| :: readings[i] <= readings[j]
  }

  lemma {:induction false} MonotoneStamps(w: Worker, readings: seq<int>)
    requires Monotone(readings) && forall i | 0 <= i < |readings| :: w.last <= readings[i]
    ensures var run := Run(w, readings);
            && (forall k | 0 <= k < |run| :: w.last <= run[k].stamp)
            && (forall i, j | 0 <= i < j < |run| :: run[i].stamp <= run[j].stamp)
    decreases |readings|
  {
    hide MakeId;
    match NextCall(w, readings)
    case None =>
    case Some(call) =>
      MonotoneStamps(call.worker, call.rest);
      assert Run(w, readings) == [call.issue] + Run(call.worker, call.rest);
  }

  /** With a clock that never goes back ids strictly increase, and two ids of the same millisecond
      are fewer than 1024 calls apart. */
  lemma MonotoneClock(id: int, readings: seq<int>)
    requires 0 <= id <= MAX_WORKER_ID && GoodClock(readings) && Monotone(readings)
    ensures var run := Run(NewWorker(id), readings);
            forall i, j | 0 <= i < j < |run| ::
              run[i].id < run[j].id && (run[i].stamp == run[j].stamp ==> j - i < 1024)
  {
    hide MakeId;
    var run := Run(NewWorker(id), readings);
    NewRunChain(id, readings);
    MonotoneStamps(NewWorker(id), readings);
    forall i, j | 0 <= i < j < |run|
      ensures run[i].id < run[j].id && (run[i].stamp == run[j].stamp ==> j - i < 1024)
    {
      IdIsSum(id, run[i].stamp, run[i].sequence);
      IdIsSum(id, run[j].stamp, run[j].sequence);
      if run[i].stamp == run[j].stamp {
        SameBlock(id, run, i, j);
      }
    }
  }

  /** Generators with different numbers never issue the same id, whatever their clocks do. */
  lemma WorkersNeverCollide(id1: int, id2: int, readings1: seq<int>, readings2: seq<int>, i: nat, j: nat)
    requires 0 <= id1 <= MAX_WORKER_ID && 0 <= id2 <= MAX_WORKER_ID && id1 != id2
    requires GoodClock(readings1) && GoodClock(readings2)
    requires i < |Run(NewWorker(id1), readings1)| && j < |Run(NewWorker(id2), readings2)|
    ensures Run(NewWorker(id1), readings1)[i].id != Run(NewWorker(id2), readings2)[j].id
  {
    hide MakeId, BitAnd, Run;
    NewRunChain(id1, readings1);
    NewRunChain(id2, readings2);
    var a, b := Run(NewWorker(id1), readings1)[i], Run(NewWorker(id2), readings2)[j];
    Unpack(id1, a.stamp, a.sequence);
    Unpack(id2, b.stamp, b.sequence);
  }

  /** A stamp that two runs share is that of a first id in each. */
  lemma FirstOfStamp(id: int, run: seq<Issue>, i: nat) returns (p: nat)
    requires 0 <= id <= MAX_WORKER_ID && Chain(id, run) && i < |run| && run[0].sequence == 0
    ensures p < |run| && run[p].stamp == run[i].stamp && run[p].sequence == 0
  {
    hide MakeId;
    p := BlockStart(id, run, i);
  }

  predicate ShareId(run1: seq<Issue>, run2: seq<Issue>) {
    exists i, j :: 0 <= i < |run1| && 0 <= j < |run2| && run1[i].id == run2[j].id
  }

  predicate ShareStamp(run1: seq<Issue>, run2: seq<Issue>) {
    exists i, j :: 0 <= i < |run1| && 0 <= j < |run2| && run1[i].stamp == run2[j].stamp
  }

  /** Two generators, or one before and after a restart, issue a common id exactly when they have the same
      number and both issue ids in a common millisecond. */
  lemma CollideIff(id1: int, id2: int, readings1: seq<int>, readings2: seq<int>)
    requires 0 <= id1 <= MAX_WORKER_ID && 0 <= id2 <= MAX_WORKER_ID
    requires GoodClock(readings1) && GoodClock(readings2)
    ensures var run1, run2 := Run(NewWorker(id1), readings1), Run(NewWorker(id2), readings2);
            ShareId(run1, run2) <==> id1 == id2 && ShareStamp(run1, run2)
  {
    hide MakeId, Run, Chain;
    var run1, run2 := Run(NewWorker(id1), readings1), Run(NewWorker(id2), readings2);
    NewRunChain(id1, readings1);
    NewRunChain(id2, readings2);
    if ShareId(run1, run2) {
      var i: nat, j: nat :| i < |run1| && j < |run2| && run1[i].id == run2[j].id;
      if id1 != id2 {
        WorkersNeverCollide(id1, id2, readings1, readings2, i, j);
      } else {
        InChain(id1, run1, i);
        InChain(id1, run2, j);
        SameId(id1, run1[i], run2[j]);
      }
    }
    if id1 == id2 && ShareStamp(run1, run2) {
      var i: nat, j: nat :| i < |run1| && j < |run2| && run1[i].stamp == run2[j].stamp;
      var p := FirstOfStamp(id1, run1, i);
      var q := FirstOfStamp(id1, run2, j);
      InChain(id1, run1, p);
      InChain(id1, run2, q);
      SameId(id1, run1[p], run2[q]);
    }
  }

  lemma InChain(id: int, run: seq<Issue>, i: nat)
    requires Chain(id, run) && i < |run|
    ensures GoodIssue(id, run[i])
  {
  }

  /** A clock set back by one millisecond makes a generator repeat an id: the step back is logged, not refused. */
  lemma RollbackRepeats(id: int)
    ensures var run := Run(NewWorker(id), [5, 6, 5]); |run| == 3 && run[0].id == run[2].id
  {
    hide MakeId;
    var w0, w1, w2 := NewWorker(id), Worker(id, 5, 0), Worker(id, 6, 0);
    assert [5, 6, 5][1..] == [6, 5] && [6, 5][1..] == [5] && [5][1..] == [];
    assert NextCall(w0, [5, 6, 5]) == Some(Issued(w0, 5, 0, [6, 5]));
    assert NextCall(w1, [6, 5]) == Some(Issued(w1, 6, 0, [5]));
    assert NextCall(w2, [5]) == Some(Issued(w2, 5, 0, []));
    assert Run(w1, [6, 5]) == [Issue(6, 0, MakeId(id, 6, 0))] + Run(w2, [5]);
    assert Run(w2, [5]) == [Issue(5, 0, MakeId(id, 5, 0))] + Run(Worker(id, 5, 0), []);
    assert Run(Worker(id, 5, 0), []) == [];
  }

  // ---------------------------------------------------------------- the code

  /** System.currentTimeMillis; None stands for a call that is still to come when the run is cut off. */
  class Clock {
    var readings: seq<int>

    constructor (readings: seq<int>)
      ensures this.readings == readings
    {
      this.readings := readings;
    }

    method TimeGen() returns (t: Option<int>)
      modifies this
      ensures if old(readings) == [] then t == None && readings == []
              else t == Some(old(readings)[0]) && readings == old(readings)[1..]
    {
      if readings == [] {
        return None;
      }
      t := Some(readings[0]);
      readings := readings[1..];
    }
  }

  lemma SequenceMask(sequence: int)
    ensures BitAnd(sequence + 1, SEQUENCE_MASK) == (sequence + 1) % 1024
  {
    Powers();
    AndIsMod(sequence + 1, 10);
  }

  class IdWorker {
    const workerId: int
    var sequence: int
    var lastTimestamp: int

    ghost function State(): Worker
      reads this
    {
      Worker(workerId, lastTimestamp, sequence)
    }

    constructor (workerId: int)
      ensures State() == NewWorker(workerId)
    {
      this.workerId := workerId;
      this.sequence := 0;
      this.lastTimestamp := -1;
    }

    /** The check of the Java constructor; None is the IllegalArgumentException. */
    static method Create(workerId: int) returns (r: Option<IdWorker>)
      ensures r.Some? <==> 0 <= workerId <= MAX_WORKER_ID
      ensures r.Some? ==> fresh(r.value) && r.value.State() == NewWorker(workerId)
    {
      if workerId > MAX_WORKER_ID || workerId < 0 {
        return None;
      }
      var w := new IdWorker(workerId);
      r := Some(w);
    }

    method TilNextMillis(clock: Clock, lastTimestamp: int) returns (r: Option<int>)
      modifies clock
      ensures var rs := old(clock.readings);
              var n := TilNext(lastTimestamp, rs);
              if n == |rs| then r == None else r == Some(rs[n]) && clock.readings == rs[n + 1..]
    {
      ghost var rs := clock.readings;
      r := clock.TimeGen();
      ghost var taken := 0;
      while r.Some? && r.value <= lastTimestamp
        invariant taken <= |rs|
        invariant r.None? <==> taken == |rs|
        invariant r.Some? ==> r.value == rs[taken] && clock.readings == rs[taken + 1..]
        invariant r.None? ==> clock.readings == []
        invariant TilNext(lastTimestamp, rs) == taken + TilNext(lastTimestamp, rs[taken..])
        decreases |rs| - taken
      {
        r := clock.TimeGen();
        taken := taken + 1;
      }
    }

    method NextId(clock: Clock) returns (r: Option<int>)
      modifies this, clock
      ensures match NextCall(old(State()), old(clock.readings))
              case None => r == None
              case Some(call) => r == Some(call.issue.id) && State() == call.worker && clock.readings == call.rest
    {
      hide MakeId, BitAnd, BitOr;
      var reading := clock.TimeGen();
      if reading.None? {
        return None;
      }
      var timestamp := reading.value;
      if this.lastTimestamp == timestamp {
        SequenceMask(this.sequence);
        this.sequence := BitAnd(this.sequence + 1, SEQUENCE_MASK);
        if this.sequence == 0 {
          reading := TilNextMillis(clock, this.lastTimestamp);
          if reading.None? {
            return None;
          }
          timestamp := reading.value;
        }
      } else {
        this.sequence := 0;
      }
      // a timestamp below lastTimestamp is only logged
      this.lastTimestamp := timestamp;
      r := Some(MakeId(this.workerId, timestamp, this.sequence));
    }
  }
}
