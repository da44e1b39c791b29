/** The counter run in place: the barrier, the lock, the count and the workers, changed one atomic action at
    a time, refine the step system. */
module CounterMachine {
  import opened CounterRun

  class Machine {
    var main: MainPc
    var arrived: nat
    var generation: nat
    var locked: bool
    var count: nat
    const loopNum: nat
    const worker: array<Pc>

    ghost function Contents(): State
      reads this, worker
    {
      State(main, worker[..], loopNum, arrived, generation, locked, count)
    }

    constructor (threadNum: nat, loopNum: nat)
      ensures fresh(worker) && worker.Length == threadNum && this.loopNum == loopNum && Init(Contents())
    {
      main, arrived, generation, locked, count := Starting(0), 0, 0, false, 0;
      this.loopNum := loopNum;
      worker := new Pc[threadNum](_ => NotStarted);
    }

    /** CyclicBarrier.await up to the wait: the last of the parties trips the barrier. */
    method AwaitBarrier()
      modifies this`arrived, this`generation
      ensures Contents() == Arrive(old(Contents()))
    {
      arrived := arrived + 1;
      if arrived == worker.Length + 1 {
        arrived, generation := 0, generation + 1;
      }
    }

    /** One action of the main thread. */
    method MainStep(a: Action)
      requires OfMain(a) && Enabled(Contents(), a)
      modifies this, worker
      ensures Contents() == Apply(old(Contents()), a)
    {
      match a {
        case Start =>
          worker[main.k] := Runnable;
          main := Starting(main.k + 1);
        case MainArrive1 =>
          main := MainWaiting1;
          AwaitBarrier();
        case MainResume1 => main := Between;
        case MainArrive2 =>
          main := MainWaiting2;
          AwaitBarrier();
        case MainResume2 => main := Timed;
        case Report => main := Reported(count);
      }
    }

    /** One action of a worker thread. */
    method WorkerStep(a: Action)
      requires !OfMain(a) && Enabled(Contents(), a)
      modifies this, worker
      ensures Contents() == Apply(old(Contents()), a)
    {
      var w := a.w;
      match a {
        case Arrive1(_) =>
          worker[w] := Waiting1;
          AwaitBarrier();
        case Resume1(_) => worker[w] := Looping(0);
        case Lock(_) =>
          locked := true;
          worker[w] := HasLock(worker[w].i);
        case Load(_) => worker[w] := Loaded(worker[w].i, count);
        case Store(_) =>
          count := worker[w].v + 1;
          worker[w] := Stored(worker[w].i);
        case Unlock(_) =>
          locked := false;
          worker[w] := Looping(worker[w].i + 1);
        case Arrive2(_) =>
          worker[w] := Waiting2;
          AwaitBarrier();
        case Resume2(_) => worker[w] := Finished;
      }
    }

    method Possible(a: Action) returns (b: bool)
      ensures b <==> Enabled(Contents(), a)
    {
      b := Enabled(State(main, worker[..], loopNum, arrived, generation, locked, count), a);
    }

    /** Whatever the scheduler asks for, in its order, as far as it is possible, is a run; once the main
        thread has reported, the count is exact. */
    method Run(schedule: seq<Action>) returns (ghost run: seq<State>)
      requires Init(Contents())
      modifies this, worker
      ensures IsRun(run) && run[0] == old(Contents()) && run[|run| - 1] == Contents()
      ensures main.Reported? ==> main.value == worker.Length * loopNum
    {
      hide Enabled, Apply, Init;
      run := [Contents()];
      var k := 0;
      while k < |schedule|
        invariant 0 <= k <= |schedule|
        invariant IsRun(run) && run[0] == old(Contents()) && run[|run| - 1] == Contents()
      {
        var a := schedule[k];
        var enabled := Possible(a);
        if enabled {
          if OfMain(a) {
            MainStep(a);
          } else {
            WorkerStep(a);
          }
          RunGrows(run, a);
          run := run + [Contents()];
        }
        k := k + 1;
      }
      if main.Reported? {
        MainPassesLast(run, |run| - 1);
        ExactCount(run, |run| - 1);
      }
    }
  }

  lemma RunGrows(run: seq<State>, a: Action)
    requires IsRun(run) && Enabled(run[|run| - 1], a)
    ensures IsRun(run + [Apply(run[|run| - 1], a)])
  {
    hide Enabled, Apply, Init;
    var all := run + [Apply(run[|run| - 1], a)];
    forall i | 0 <= i < |all| - 1 ensures Next(all[i], all[i + 1]) {
      if i < |run| - 1 {
        assert Next(run[i], run[i + 1]);
      } else {
        assert all[i] == run[|run| - 1];
      }
    }
  }
}
