/** When a run of the double barrier brings everybody through, exactly: when no participant deletes its
    node while another may still miss it. */
module BarrierCompletion {
  import opened DoubleBarrier
  import opened BarrierProgress

  // ---------------------------------------------------------------- early deletes

  /** The participant has returned from enter, or holds a list with which it will. */
  predicate Full(q: Part, size: nat) {
    Passed(q.pc) || (q.pc == Listed(Enter) && |q.seen| >= size)
  }

  predicate AllFull(s: State) {
    forall i | 0 <= i < |s.part| :: Full(s.part[i], |s.part|)
  }

  /** leave is called while somebody has still to read the full list. */
  predicate EarlyDelete(s: State, a: Action) {
    a.Delete? && !AllFull(s)
  }

  ghost predicate EarlyStep(s: State, t: State) {
    exists a :: Enabled(s, a) && EarlyDelete(s, a) && t == Apply(s, a)
  }

  ghost predicate DeletesEarly(run: seq<State>) {
    exists i, j :: 0 <= i < |run| && j == i + 1 < |run| && EarlyStep(run[i], run[j])
  }

  // ---------------------------------------------------------------- without early deletes

  predicate SomeDeleted(s: State) {
    exists j | 0 <= j < |s.part| :: Deleted(s.part[j].pc)
  }

  predicate DeletedLate(s: State) {
    SomeDeleted(s) ==> AllFull(s)
  }

  lemma FullStep(s: State, a: Action, i: nat)
    requires Enabled(s, a) && i < |s.part| && Full(s.part[i], |s.part|)
    ensures Full(Apply(s, a).part[i], |s.part|)
  {
  }

  lemma StillNotDeleted(s: State, a: Action, i: nat)
    requires !a.Delete? && Enabled(s, a) && i < |s.part| && !Deleted(s.part[i].pc)
    ensures !Deleted(Apply(s, a).part[i].pc)
  {
  }

  lemma LateStep(s: State, a: Action)
    requires DeletedLate(s) && Enabled(s, a) && !EarlyDelete(s, a)
    ensures DeletedLate(Apply(s, a))
  {
    hide Enabled, Apply, Full, Deleted;
    var t := Apply(s, a);
    SameNumber(s, a);
    if AllFull(s) {
      forall i | 0 <= i < |t.part| ensures Full(t.part[i], |t.part|) {
        FullStep(s, a, i);
      }
    } else {
      forall i | 0 <= i < |t.part| ensures !Deleted(t.part[i].pc) {
        assert !Deleted(s.part[i].pc);
        StillNotDeleted(s, a, i);
      }
    }
  }

  lemma SameNumber(s: State, a: Action)
    requires Enabled(s, a)
    ensures |Apply(s, a).part| == |s.part|
  {
  }

  lemma {:induction false} LateRun(run: seq<State>, k: nat)
    requires IsRun(run) && Init(run[0]) && !DeletesEarly(run) && k < |run|
    ensures Inv(run[k]) && DeletedLate(run[k])
  {
    hide Enabled, Apply, EarlyDelete, Inv;
    RunInv(run, k);
    if k == 0 {
      NothingDeletedYet(run[0]);
    } else {
      var j := k - 1;
      LateRun(run, j);
      assert Next(run[j], run[j + 1]);
      var a :| Enabled(run[j], a) && run[k] == Apply(run[j], a);
      assert !EarlyStep(run[j], run[k]);
      LateStep(run[j], a);
    }
  }

  lemma NothingDeletedYet(s: State)
    requires Init(s)
    ensures DeletedLate(s)
  {
  }

  /** Those left behind in enter have not read a full list, and the others have deleted their nodes. */
  lemma StuckIsEarly(s: State)
    requires Stuck(s)
    ensures !DeletedLate(s)
  {
    var c :| c in s.children;
    var l := SomeMissing(s.children, |s.part|);
    assert Deleted(s.part[l].pc);
    assert !Full(s.part[c], |s.part|);
  }

  // ---------------------------------------------------------------- after an early delete

  /** d has deleted its node, and i has neither returned from enter nor read a full list. */
  predicate Behind(s: State, d: nat, i: nat) {
    && d < |s.part| && i < |s.part|
    && Deleted(s.part[d].pc) && !Full(s.part[i], |s.part|)
  }

  lemma BehindStarts(s: State, a: Action) returns (i: nat)
    requires Enabled(s, a) && EarlyDelete(s, a)
    ensures Behind(Apply(s, a), a.p, i)
  {
    i :| i < |s.part| && !Full(s.part[i], |s.part|);
  }

  /** The node of d never comes back, so i never reads a full list. */
  lemma ShortList(s: State, d: nat)
    requires Inv(s) && d < |s.part| && Deleted(s.part[d].pc)
    ensures |s.children| < |s.part|
  {
    assert LocalInv(s, d);
    FullList(s.children, |s.part|);
  }

  lemma BehindStep(s: State, a: Action, d: nat, i: nat)
    requires Behind(s, d, i) && Enabled(s, a) && |s.children| < |s.part|
    ensures Behind(Apply(s, a), d, i)
  {
  }

  lemma {:induction false} BehindStays(run: seq<State>, j: nat, k: nat, d: nat, i: nat)
    requires IsRun(run) && Init(run[0]) && j <= k < |run| && Behind(run[j], d, i)
    ensures Behind(run[k], d, i)
    decreases k
  {
    hide Enabled, Apply, Inv, Full;
    if j < k {
      var m := k - 1;
      BehindStays(run, j, m, d, i);
      RunInv(run, m);
      ShortList(run[m], d);
      assert Next(run[m], run[m + 1]);
      var a :| Enabled(run[m], a) && run[k] == Apply(run[m], a);
      BehindStep(run[m], a, d, i);
    }
  }

  /** After an early delete not everybody ever gets through, however the run goes on. */
  lemma EarlyDeleteStrands(run: seq<State>)
    requires IsRun(run) && Init(run[0]) && DeletesEarly(run)
    ensures !AllDone(run[|run| - 1])
  {
    hide Enabled, Apply;
    var j, k :| 0 <= j < |run| && k == j + 1 < |run| && EarlyStep(run[j], run[k]);
    var a :| Enabled(run[j], a) && EarlyDelete(run[j], a) && run[k] == Apply(run[j], a);
    var i := BehindStarts(run[j], a);
    BehindStays(run, k, |run| - 1, a.p, i);
  }

  // ---------------------------------------------------------------- main results

  /** A run that has come to rest has brought everybody through the barrier exactly when it contains no
      early delete. */
  lemma CompletesIff(run: seq<State>)
    requires IsRun(run) && Init(run[0]) && Quiescent(run[|run| - 1])
    ensures AllDone(run[|run| - 1]) <==> !DeletesEarly(run)
  {
    hide Quiescent, Inv, AllDone, Stuck;
    var s := run[|run| - 1];
    if DeletesEarly(run) {
      EarlyDeleteStrands(run);
    } else {
      LateRun(run, |run| - 1);
      QuiescentOutcome(s);
      if Stuck(s) {
        StuckIsEarly(s);
      }
    }
  }

  predicate AllPassed(s: State) {
    forall j | 0 <= j < |s.part| :: Passed(s.part[j].pc)
  }

  /** Nobody deletes its node before all have returned from enter. */
  predicate Disciplined(s: State, a: Action) {
    a.Delete? ==> AllPassed(s)
  }

  ghost predicate DisciplinedNext(s: State, t: State) {
    exists a :: Enabled(s, a) && Disciplined(s, a) && t == Apply(s, a)
  }

  ghost predicate DisciplinedRun(run: seq<State>) {
    && |run| > 0
    && forall i | 0 <= i < |run| - 1 :: DisciplinedNext(run[i], run[i + 1])
  }

  /** Nobody can take a step of its own accord that the discipline allows. */
  ghost predicate Halted(s: State) {
    forall a: Action | !a.Spurious? && Disciplined(s, a) :: !Enabled(s, a)
  }

  /** Only its own delete takes a participant out of Entered. */
  lemma EnteredStays(s: State, a: Action, b: Action)
    requires Enabled(s, a) && Enabled(s, b) && b.Delete? && Apply(s, a) == Apply(s, b)
    ensures a == b
  {
    assert Apply(s, b).part[b.p].pc == Outside(Leave);
  }

  lemma DisciplinedIsLate(run: seq<State>)
    requires DisciplinedRun(run)
    ensures IsRun(run) && !DeletesEarly(run)
  {
    hide Enabled, Apply;
    forall i | 0 <= i < |run| - 1 ensures Next(run[i], run[i + 1]) {
      assert DisciplinedNext(run[i], run[i + 1]);
    }
    forall i, j | 0 <= i < |run| && j == i + 1 < |run| ensures !EarlyStep(run[i], run[j]) {
      assert DisciplinedNext(run[i], run[i + 1]);
      var a :| Enabled(run[i], a) && Disciplined(run[i], a) && run[j] == Apply(run[i], a);
      if EarlyStep(run[i], run[j]) {
        var b :| Enabled(run[i], b) && EarlyDelete(run[i], b) && run[j] == Apply(run[i], b);
        EnteredStays(run[i], a, b);
      }
    }
  }

  /** While nobody has deleted its node, nobody waits in enter once somebody has returned from it. */
  lemma NobodyLeftBehind(s: State, j: nat, w: nat)
    requires Inv(s) && DeletedLate(s) && j < |s.part| && w < |s.part|
    requires s.part[j].pc.Entered? && !Passed(s.part[w].pc)
    ensures !Halted(s)
  {
    if Halted(s) {
      assert LocalInv(s, j) && LocalInv(s, w);
      assert !Enabled(s, Acquire(w)) && !Enabled(s, GetChildren(w)) && !Enabled(s, Decide(w));
      assert !Enabled(s, Reacquire(w)) && !Enabled(s, Unlock(w)) && !Enabled(s, TakeEvent(w));
      assert !Enabled(s, Notify(w)) && !Enabled(s, Release(w));
      forall i | 0 <= i < |s.part| ensures i in s.children { assert LocalInv(s, i); }
      AllThere(s.children, |s.part|);
      assert false;
    }
  }

  /** When the discipline allows nothing more, nothing more is possible. */
  lemma HaltedIsQuiescent(s: State)
    requires Inv(s) && DeletedLate(s) && Halted(s)
    ensures Quiescent(s)
  {
    hide Inv, DeletedLate;
    forall a: Action | !a.Spurious? ensures !Enabled(s, a) {
      if a.Delete? && Enabled(s, a) && !Disciplined(s, a) {
        var w :| 0 <= w < |s.part| && !Passed(s.part[w].pc);
        NobodyLeftBehind(s, a.p, w);
      }
    }
  }

  /** So a disciplined run that cannot be continued has brought everybody through the barrier. */
  lemma DisciplinedCompletes(run: seq<State>)
    requires DisciplinedRun(run) && Init(run[0]) && Halted(run[|run| - 1])
    ensures AllDone(run[|run| - 1]) && NoEvents(run[|run| - 1])
  {
    hide Inv, Halted, Quiescent, AllDone, NoEvents, DeletesEarly;
    DisciplinedIsLate(run);
    LateRun(run, |run| - 1);
    HaltedIsQuiescent(run[|run| - 1]);
    CompletesIff(run);
    QuiescentOutcome(run[|run| - 1]);
  }
}
