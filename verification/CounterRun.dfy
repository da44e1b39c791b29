/** Threads that wait for each other at a cyclic barrier, increment a shared counter under a lock, and
    wait for each other again, as a step system.  The main thread starts them and takes part in both
    barriers; count++ is a load and a separate store.  The three counters differ only in the kind
    of lock, of which mutual exclusion is all that is used. */
module CounterRun {

  /** Where a worker thread stands; i is its loop variable. */
  datatype Pc =
    | NotStarted
    | Runnable                    // started, before the first barrier.await()
    | Waiting1                    // inside the first barrier.await()
    | Looping(i: nat)             // at the head of the loop
    | HasLock(i: nat)             // inside increment, lock taken
    | Loaded(i: nat, v: nat)      // count has been read
    | Stored(i: nat)              // count has been written, lock still held
    | Waiting2                    // inside the second barrier.await()
    | Finished

  datatype MainPc =
    | Starting(k: nat)            // threads 0..k-1 have been started
    | MainWaiting1
    | Between
    | MainWaiting2
    | Timed
    | Reported(value: nat)        // getValue has returned

  /** The cyclic barrier has tripped generation times; arrived threads wait in the current one. */
  datatype State = State(
    main: MainPc,
    worker: seq<Pc>,
    loopNum: nat,
    arrived: nat,
    generation: nat,
    locked: bool,
    count: nat)

  datatype Action =
    | Start | MainArrive1 | MainResume1 | MainArrive2 | MainResume2 | Report
    | Arrive1(w: nat) | Resume1(w: nat)
    | Lock(w: nat) | Load(w: nat) | Store(w: nat) | Unlock(w: nat)
    | Arrive2(w: nat) | Resume2(w: nat)

  predicate OfMain(a: Action) {
    a.Start? || a.MainArrive1? || a.MainResume1? || a.MainArrive2? || a.MainResume2? || a.Report?
  }

  predicate Init(s: State) {
    && s.main == Starting(0) && s.arrived == 0 && s.generation == 0 && !s.locked && s.count == 0
    && forall w | 0 <= w < |s.worker| :: s.worker[w] == NotStarted
  }

  predicate MainEnabled(s: State, a: Action)
    requires OfMain(a)
  {
    match a
    case Start => s.main.Starting? && s.main.k < |s.worker|
    case MainArrive1 => s.main.Starting? && s.main.k == |s.worker|
    case MainResume1 => s.main.MainWaiting1? && s.generation >= 1
    case MainArrive2 => s.main.Between?
    case MainResume2 => s.main.MainWaiting2? && s.generation >= 2
    case Report => s.main.Timed?
  }

  predicate WorkerEnabled(s: State, a: Action)
    requires !OfMain(a)
  {
    && a.w < |s.worker|
    && var pc := s.worker[a.w];
       match a
       case Arrive1(_) => pc.Runnable?
       case Resume1(_) => pc.Waiting1? && s.generation >= 1
       case Lock(_) => pc.Looping? && pc.i < s.loopNum && !s.locked
       case Load(_) => pc.HasLock?
       case Store(_) => pc.Loaded?
       case Unlock(_) => pc.Stored?
       case Arrive2(_) => pc.Looping? && pc.i >= s.loopNum
       case Resume2(_) => pc.Waiting2? && s.generation >= 2
  }

  predicate Enabled(s: State, a: Action) {
    if OfMain(a) then MainEnabled(s, a) else WorkerEnabled(s, a)
  }

  /** The last of the parties to arrive opens the barrier and begins the next generation. */
  function Arrive(s: State): State {
    if s.arrived + 1 == |s.worker| + 1 then s.(arrived := 0, generation := s.generation + 1)
    else s.(arrived := s.arrived + 1)
  }

  function MainApply(s: State, a: Action): State
    requires OfMain(a) && MainEnabled(s, a)
  {
    match a
    case Start => s.(main := Starting(s.main.k + 1),
                     worker := s.worker[s.main.k := Runnable])
    case MainArrive1 => Arrive(s.(main := MainWaiting1))
    case MainResume1 => s.(main := Between)
    case MainArrive2 => Arrive(s.(main := MainWaiting2))
    case MainResume2 => s.(main := Timed)
    case Report => s.(main := Reported(s.count))
  }

  function WorkerApply(s: State, a: Action): State
    requires !OfMain(a) && WorkerEnabled(s, a)
  {
    var w, pc := a.w, s.worker[a.w];
    match a
    case Arrive1(_) => Arrive(s.(worker := s.worker[w := Waiting1]))
    case Resume1(_) => s.(worker := s.worker[w := Looping(0)])
    case Lock(_) => s.(worker := s.worker[w := HasLock(pc.i)], locked := true)
    case Load(_) => s.(worker := s.worker[w := Loaded(pc.i, s.count)])
    case Store(_) => s.(worker := s.worker[w := Stored(pc.i)], count := pc.v + 1)
    case Unlock(_) => s.(worker := s.worker[w := Looping(pc.i + 1)], locked := false)
    case Arrive2(_) => Arrive(s.(worker := s.worker[w := Waiting2]))
    case Resume2(_) => s.(worker := s.worker[w := Finished])
  }

  function Apply(s: State, a: Action): State
    requires Enabled(s, a)
  {
    if OfMain(a) then MainApply(s, a) else WorkerApply(s, a)
  }

  ghost predicate Next(s: State, t: State) {
    exists a :: Enabled(s, a) && t == Apply(s, a)
  }

  ghost predicate IsRun(run: seq<State>) {
    && |run| > 0 && Init(run[0])
    && forall i | 0 <= i < |run| - 1 :: Next(run[i], run[i + 1])
  }

  // ---------------------------------------------------------------- sums over the workers

  /** Increments a worker has stored. */
  function Stores(pc: Pc, loopNum: nat): nat {
    match pc
    case Looping(i) => i
    case HasLock(i) => i
    case Loaded(i, _) => i
    case Stored(i) => i + 1
    case Waiting2 => loopNum
    case Finished => loopNum
    case _ => 0
  }

  /** 1 for a worker that waits in the barrier of the given generation. */
  function Waits(pc: Pc, generation: nat): nat {
    if (generation == 0 && pc.Waiting1?) || (generation == 1 && pc.Waiting2?) then 1 else 0
  }

  predicate InLock(pc: Pc) { pc.HasLock? || pc.Loaded? || pc.Stored? }

  /** Steps a worker has still to take. */
  function Rank(pc: Pc, loopNum: nat): int {
    match pc
    case NotStarted => 4 * loopNum + 5
    case Runnable => 4 * loopNum + 4
    case Waiting1 => 4 * loopNum + 3
    case Looping(i) => 4 * loopNum - 4 * i + 2
    case HasLock(i) => 4 * loopNum - 4 * i + 1
    case Loaded(i, _) => 4 * loopNum - 4 * i
    case Stored(i) => 4 * loopNum - 4 * i - 1
    case Waiting2 => 1
    case Finished => 0
  }

  function Sum(f: Pc -> int, worker: seq<Pc>): int {
    if worker == [] then 0 else f(worker[0]) + Sum(f, worker[1..])
  }

  lemma {:induction false} SumUpdate(f: Pc -> int, worker: seq<Pc>, w: nat, pc: Pc)
    requires w < |worker|
    ensures Sum(f, worker[w := pc]) == Sum(f, worker) - f(worker[w]) + f(pc)
  {
    if w == 0 {
      assert worker[0 := pc][1..] == worker[1..];
    } else {
      SumUpdate(f, worker[1..], w - 1, pc);
      assert worker[w := pc][1..] == worker[1..][w - 1 := pc];
    }
  }

  lemma {:induction false} SumConstant(f: Pc -> int, worker: seq<Pc>, c: int)
    requires forall w | 0 <= w < |worker| :: f(worker[w]) == c
    ensures Sum(f, worker) == |worker| * c
  {
    if worker != [] {
      assert f(worker[0]) == c;
      SumConstant(f, worker[1..], c);
    }
  }

  /** Numbers of at most 1 that add up to their count are all 1. */
  lemma {:induction false} SumFull(f: Pc -> int, worker: seq<Pc>)
    requires forall w | 0 <= w < |worker| :: f(worker[w]) <= 1
    ensures Sum(f, worker) <= |worker|
    ensures Sum(f, worker) == |worker| ==> forall w | 0 <= w < |worker| :: f(worker[w]) == 1
  {
    if worker != [] {
      assert f(worker[0]) <= 1;
      SumFull(f, worker[1..]);
      if Sum(f, worker) == |worker| {
        forall w | 0 <= w < |worker| ensures f(worker[w]) == 1 {
          if w > 0 { assert worker[w] == worker[1..][w - 1]; }
        }
      }
    }
  }

  function StoresOf(loopNum: nat): Pc -> int { pc => Stores(pc, loopNum) }

  function WaitsOf(generation: nat): Pc -> int { pc => Waits(pc, generation) }

  function RankOf(loopNum: nat): Pc -> int { pc => Rank(pc, loopNum) }

  // ---------------------------------------------------------------- invariant

  function MainWaits(main: MainPc, generation: nat): nat {
    if (generation == 0 && main.MainWaiting1?) || (generation == 1 && main.MainWaiting2?) then 1 else 0
  }

  function Waiting(s: State): int {
    Sum(WaitsOf(s.generation), s.worker) + MainWaits(s.main, s.generation)
  }

  predicate MainInv(s: State) {
    && s.generation <= 2
    && (s.main.Starting? ==> s.generation == 0 && s.main.k <= |s.worker|)
    && (s.main.MainWaiting1? ==> s.generation <= 1)
    && (s.main.Between? ==> s.generation == 1)
    && (s.main.MainWaiting2? ==> s.generation >= 1)
    && (s.main.Timed? ==> s.generation == 2)
    && (s.main.Reported? ==> s.generation == 2 && s.main.value == s.count)
  }

  predicate WorkerInv(s: State, w: nat)
    requires w < |s.worker|
  {
    var pc := s.worker[w];
    && (pc.NotStarted? <==> s.main.Starting? && w >= s.main.k)
    && (pc.NotStarted? || pc.Runnable? ==> s.generation == 0)
    && (pc.Waiting1? ==> s.generation <= 1)
    && (pc.Looping? ==> s.generation == 1 && pc.i <= s.loopNum)
    && (InLock(pc) ==> s.generation == 1 && pc.i < s.loopNum && s.locked)
    && (pc.Loaded? ==> pc.v == s.count)
    && (pc.Waiting2? ==> s.generation >= 1)
    && (pc.Finished? ==> s.generation == 2)
  }

  /** The lock is held by exactly one thread when it is held. */
  ghost predicate LockInv(s: State) {
    && (forall v, w | 0 <= v < |s.worker| && 0 <= w < |s.worker|
                      && InLock(s.worker[v]) && InLock(s.worker[w]) :: v == w)
    && (s.locked ==> exists w :: 0 <= w < |s.worker| && InLock(s.worker[w]))
  }

  ghost predicate Core(s: State) {
    && MainInv(s)
    && (forall w | 0 <= w < |s.worker| :: WorkerInv(s, w))
    && LockInv(s)
    && s.count == Sum(StoresOf(s.loopNum), s.worker)
  }

  ghost predicate Inv(s: State) {
    Core(s) && s.arrived == Waiting(s) && s.arrived <= |s.worker|
  }

  lemma InitInv(s: State)
    requires Init(s)
    ensures Inv(s)
  {
    SumConstant(StoresOf(s.loopNum), s.worker, 0);
    SumConstant(WaitsOf(0), s.worker, 0);
  }

  /** When all parties have arrived, all are waiting, and the next generation begins with none. */
  lemma ArriveInv(s: State)
    requires Core(s) && s.generation < 2 && s.arrived + 1 == Waiting(s) && s.arrived <= |s.worker|
    ensures Inv(Arrive(s))
  {
    hide Sum;
    var t := Arrive(s);
    SumFull(WaitsOf(s.generation), s.worker);
    if s.arrived + 1 == |s.worker| + 1 {
      forall w | 0 <= w < |s.worker| ensures Waits(s.worker[w], s.generation) == 1 {
        assert WaitsOf(s.generation)(s.worker[w]) == 1;
      }
      SumConstant(WaitsOf(t.generation), s.worker, 0);
      forall w | 0 <= w < |s.worker| ensures WorkerInv(t, w) {
        assert WorkerInv(s, w) && Waits(s.worker[w], s.generation) == 1;
      }
    } else {
      forall w | 0 <= w < |s.worker| ensures WorkerInv(t, w) {
        assert WorkerInv(s, w);
      }
    }
  }

  /** What a worker's step changes, before a possible arrival is counted. */
  function Moved(s: State, a: Action): State
    requires !OfMain(a) && WorkerEnabled(s, a)
  {
    match a
    case Arrive1(_) => s.(worker := s.worker[a.w := Waiting1])
    case Arrive2(_) => s.(worker := s.worker[a.w := Waiting2])
    case _ => WorkerApply(s, a)
  }

  lemma MovedSums(s: State, a: Action)
    requires !OfMain(a) && WorkerEnabled(s, a)
    requires Core(s)
    ensures var t := Moved(s, a);
            && t.count == Sum(StoresOf(t.loopNum), t.worker)
            && Waiting(t) == Waiting(s) + if a.Arrive1? || a.Arrive2? then 1 else 0
  {
    hide Sum;
    var t := Moved(s, a);
    assert WorkerInv(s, a.w);
    SumUpdate(StoresOf(s.loopNum), s.worker, a.w, t.worker[a.w]);
    SumUpdate(WaitsOf(s.generation), s.worker, a.w, t.worker[a.w]);
  }

  lemma MovedWorkers(s: State, a: Action, w: nat)
    requires !OfMain(a) && WorkerEnabled(s, a) && w < |s.worker|
    requires Core(s)
    ensures WorkerInv(Moved(s, a), w)
  {
    hide Sum;
    assert WorkerInv(s, w) && WorkerInv(s, a.w);
  }

  lemma MovedLock(s: State, a: Action)
    requires !OfMain(a) && WorkerEnabled(s, a)
    requires Core(s)
    ensures LockInv(Moved(s, a))
  {
    hide Sum;
    var t := Moved(s, a);
    assert WorkerInv(s, a.w);
    if t.locked {
      if a.Lock? {
        assert InLock(t.worker[a.w]);
      } else {
        var w :| 0 <= w < |s.worker| && InLock(s.worker[w]);
        assert InLock(t.worker[w]);
      }
    }
    forall v | 0 <= v < |s.worker| && InLock(t.worker[v])
      ensures a.Lock? ==> v == a.w
      ensures !a.Lock? ==> InLock(s.worker[v])
    {
      assert WorkerInv(s, v);
    }
  }

  lemma WorkerStep(s: State, a: Action)
    requires !OfMain(a) && WorkerEnabled(s, a)
    requires Inv(s)
    ensures Inv(WorkerApply(s, a))
  {
    hide Sum, LockInv;
    var t := Moved(s, a);
    assert WorkerInv(s, a.w);
    MovedSums(s, a);
    MovedLock(s, a);
    forall w | 0 <= w < |s.worker| ensures WorkerInv(t, w) {
      MovedWorkers(s, a, w);
    }
    assert MainInv(t);
    if a.Arrive1? || a.Arrive2? {
      ArriveInv(t);
    }
  }

  lemma StartStep(s: State)
    requires MainEnabled(s, Start) && Inv(s)
    ensures Inv(MainApply(s, Start))
  {
    hide Sum;
    var t, k := MainApply(s, Start), s.main.k;
    assert WorkerInv(s, k);
    SumUpdate(StoresOf(s.loopNum), s.worker, k, Runnable);
    SumUpdate(WaitsOf(s.generation), s.worker, k, Runnable);
    forall w | 0 <= w < |s.worker| ensures WorkerInv(t, w) {
      assert WorkerInv(s, w);
    }
    assert forall w | 0 <= w < |s.worker| :: InLock(t.worker[w]) <==> InLock(s.worker[w]);
    if t.locked {
      var w :| 0 <= w < |s.worker| && InLock(s.worker[w]);
      assert InLock(t.worker[w]);
    }
  }

  lemma MainStep(s: State, a: Action)
    requires OfMain(a) && !a.Start? && MainEnabled(s, a) && Inv(s)
    ensures Inv(MainApply(s, a))
  {
    hide Sum;
    var t := if a.MainArrive1? then s.(main := MainWaiting1)
             else if a.MainArrive2? then s.(main := MainWaiting2)
             else MainApply(s, a);
    forall w | 0 <= w < |s.worker| ensures WorkerInv(t, w) {
      assert WorkerInv(s, w);
    }
    if a.MainArrive1? || a.MainArrive2? {
      ArriveInv(t);
    }
  }

  lemma StepInv(s: State, a: Action)
    requires Enabled(s, a) && Inv(s)
    ensures Inv(Apply(s, a))
  {
    hide Inv;
    if a.Start? {
      StartStep(s);
    } else if OfMain(a) {
      MainStep(s, a);
    } else {
      WorkerStep(s, a);
    }
  }

  lemma StepShape(s: State, a: Action)
    requires Enabled(s, a)
    ensures |Apply(s, a).worker| == |s.worker| && Apply(s, a).loopNum == s.loopNum
  {
  }

  lemma NextInv(s: State, t: State)
    requires Next(s, t) && Inv(s)
    ensures Inv(t) && |t.worker| == |s.worker| && t.loopNum == s.loopNum
  {
    hide Inv, Apply, Enabled;
    var a :| Enabled(s, a) && t == Apply(s, a);
    StepInv(s, a);
    StepShape(s, a);
  }

  lemma {:induction false} RunInv(run: seq<State>, k: nat)
    requires IsRun(run) && k < |run|
    ensures Inv(run[k]) && |run[k].worker| == |run[0].worker| && run[k].loopNum == run[0].loopNum
  {
    hide Inv, Next;
    if k == 0 {
      InitInv(run[0]);
    } else {
      RunInv(run, k - 1);
      assert Next(run[k - 1], run[k - 1 + 1]);
      NextInv(run[k - 1], run[k]);
    }
  }

  // ---------------------------------------------------------------- main results

  predicate AtFirstBarrier(s: State) {
    && !s.main.Starting?
    && forall w | 0 <= w < |s.worker| :: !s.worker[w].NotStarted? && !s.worker[w].Runnable?
  }

  /** No thread is past the first barrier, and nothing is counted, before all threads and the main
      thread have reached it. */
  lemma NoEarlyIncrement(run: seq<State>, k: nat, w: nat)
    requires IsRun(run) && k < |run| && w < |run[k].worker|
    requires run[k].count > 0 || InLock(run[k].worker[w]) || run[k].worker[w].Looping?
    ensures AtFirstBarrier(run[k])
  {
    hide Sum;
    RunInv(run, k);
    var s := run[k];
    assert WorkerInv(s, w);
    if s.generation == 0 {
      forall v | 0 <= v < |s.worker| ensures StoresOf(s.loopNum)(s.worker[v]) == 0 {
        assert WorkerInv(s, v);
      }
      SumConstant(StoresOf(s.loopNum), s.worker, 0);
    }
    forall v | 0 <= v < |s.worker| ensures s.generation >= 1 ==> !s.worker[v].NotStarted? && !s.worker[v].Runnable? {
      assert WorkerInv(s, v);
    }
  }

  /** At every moment the counter is the number of increments stored so far: none is lost. */
  lemma NoLostUpdate(run: seq<State>, k: nat)
    requires IsRun(run) && k < |run|
    ensures run[k].count == Sum(StoresOf(run[k].loopNum), run[k].worker)
    ensures forall v, w | 0 <= v < |run[k].worker| && 0 <= w < |run[k].worker|
                          && InLock(run[k].worker[v]) && InLock(run[k].worker[w]) :: v == w
  {
    hide Sum;
    RunInv(run, k);
  }

  /** Once the second barrier has opened the counter is exactly threads times loops. */
  lemma ExactCount(run: seq<State>, k: nat)
    requires IsRun(run) && k < |run| && run[k].generation == 2
    ensures run[k].count == |run[0].worker| * run[0].loopNum
    ensures run[k].main.Reported? ==> run[k].main.value == |run[0].worker| * run[0].loopNum
  {
    hide Sum;
    RunInv(run, k);
    var s := run[k];
    forall w | 0 <= w < |s.worker| ensures StoresOf(s.loopNum)(s.worker[w]) == s.loopNum {
      assert WorkerInv(s, w);
    }
    SumConstant(StoresOf(s.loopNum), s.worker, s.loopNum);
  }

  /** The main thread is past the second barrier only when it has opened. */
  lemma MainPassesLast(run: seq<State>, k: nat)
    requires IsRun(run) && k < |run| && (run[k].main.Timed? || run[k].main.Reported?)
    ensures run[k].generation == 2 && run[k].count == |run[0].worker| * run[0].loopNum
  {
    RunInv(run, k);
    ExactCount(run, k);
  }

  // ---------------------------------------------------------------- every run ends

  function MainRank(main: MainPc): nat {
    match main
    case Starting(_) => 5
    case MainWaiting1 => 4
    case Between => 3
    case MainWaiting2 => 2
    case Timed => 1
    case Reported(_) => 0
  }

  /** The number of steps that remain. */
  function StepsLeft(s: State): int {
    Sum(RankOf(s.loopNum), s.worker) + MainRank(s.main)
  }

  lemma StepCounts(s: State, a: Action)
    requires Enabled(s, a) && Inv(s)
    ensures StepsLeft(Apply(s, a)) == StepsLeft(s) - 1
  {
    hide Sum;
    if a.Start? {
      assert WorkerInv(s, s.main.k);
      SumUpdate(RankOf(s.loopNum), s.worker, s.main.k, Runnable);
    } else if !OfMain(a) {
      assert WorkerInv(s, a.w);
      SumUpdate(RankOf(s.loopNum), s.worker, a.w, Moved(s, a).worker[a.w]);
    }
  }

  lemma {:induction false} RunCounts(run: seq<State>, k: nat)
    requires IsRun(run) && k < |run|
    ensures StepsLeft(run[k]) == StepsLeft(run[0]) - k
  {
    hide StepsLeft, Inv, Next;
    if k > 0 {
      RunCounts(run, k - 1);
      RunInv(run, k - 1);
      assert Next(run[k - 1], run[k - 1 + 1]);
      OneLess(run[k - 1], run[k]);
    }
  }

  lemma OneLess(s: State, t: State)
    requires Next(s, t) && Inv(s)
    ensures StepsLeft(t) == StepsLeft(s) - 1
  {
    hide StepsLeft, Inv, Enabled, Apply;
    var a :| Enabled(s, a) && t == Apply(s, a);
    StepCounts(s, a);
  }

  ghost predicate Halted(s: State) {
    forall a :: !Enabled(s, a)
  }

  /** Whoever holds the lock can go on. */
  lemma LockedMoves(s: State)
    requires Inv(s) && s.locked
    ensures !Halted(s)
  {
    hide Sum;
    var v :| 0 <= v < |s.worker| && InLock(s.worker[v]);
    assert Enabled(s, Load(v)) || Enabled(s, Store(v)) || Enabled(s, Unlock(v));
  }

  lemma HaltedWorker(s: State, w: nat)
    requires Inv(s) && Halted(s) && w < |s.worker|
    ensures s.generation == 0 ==> s.worker[w].NotStarted? || s.worker[w].Waiting1?
    ensures s.generation == 1 ==> s.worker[w].Waiting2?
    ensures s.generation == 2 ==> s.worker[w].Finished?
  {
    hide Sum;
    assert WorkerInv(s, w);
    assert !Enabled(s, Arrive1(w)) && !Enabled(s, Resume1(w)) && !Enabled(s, Lock(w)) && !Enabled(s, Load(w));
    assert !Enabled(s, Store(w)) && !Enabled(s, Unlock(w)) && !Enabled(s, Arrive2(w)) && !Enabled(s, Resume2(w));
    assert !s.locked by {
      if s.locked { LockedMoves(s); }
    }
  }

  /** There is no deadlock: a state in which nobody can move is one in which everybody is through. */
  lemma HaltedIsDone(s: State)
    requires Inv(s) && Halted(s)
    ensures s.main.Reported? && forall w | 0 <= w < |s.worker| :: s.worker[w].Finished?
  {
    hide Sum;
    assert !Enabled(s, Start) && !Enabled(s, MainArrive1) && !Enabled(s, MainResume1);
    assert !Enabled(s, MainArrive2) && !Enabled(s, MainResume2) && !Enabled(s, Report);
    forall w | 0 <= w < |s.worker|
      ensures s.generation == 2 ==> s.worker[w].Finished?
      ensures s.generation < 2 ==> WaitsOf(s.generation)(s.worker[w]) == 1
    {
      HaltedWorker(s, w);
      assert WorkerInv(s, w);
    }
    if s.generation < 2 {
      SumConstant(WaitsOf(s.generation), s.worker, 1);
      assert false;
    }
  }

  /** Every run that cannot be continued has reported threads times loops, after the same number of steps. */
  lemma RunCompletes(run: seq<State>)
    requires IsRun(run) && Halted(run[|run| - 1])
    ensures var s, threads, loops := run[|run| - 1], |run[0].worker|, run[0].loopNum;
            && s.main == Reported(threads * loops)
            && (forall w | 0 <= w < |s.worker| :: s.worker[w].Finished?)
            && |run| - 1 == threads * (4 * loops + 5) + 5
  {
    hide Sum;
    var k := |run| - 1;
    RunInv(run, k);
    HaltedIsDone(run[k]);
    MainPassesLast(run, k);
    ExactCount(run, k);
    RunCounts(run, k);
    SumConstant(RankOf(run[0].loopNum), run[0].worker, 4 * run[0].loopNum + 5);
    SumConstant(RankOf(run[k].loopNum), run[k].worker, 0);
  }
}
