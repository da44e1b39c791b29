/** The watches of the barrier are one-shot: a call of getChildren brings its participant at most one
    event, and no event is made up or dropped. */
module BarrierEvents {
  import opened DoubleBarrier

  /** A change disarms every watch and queues one event exactly where a watch was armed. */
  lemma FireOnce(part: seq<Part>, i: nat)
    requires i < |part|
    ensures var q := Fire(part)[i];
            && !q.watch && q.pending == part[i].pending + (if part[i].watch then 1 else 0)
            && q.pc == part[i].pc && q.lock == part[i].lock && q.seen == part[i].seen && q.handler == part[i].handler
    ensures Fire(Fire(part)) == Fire(part)
  {
  }

  // ---------------------------------------------------------------- counting along a run

  /** getChildren has returned to p. */
  predicate Gets(s: State, t: State, p: nat) {
    p < |s.part| && p < |t.part| && s.part[p].pc.Locked? && t.part[p].pc.Listed?
  }

  /** process has been called for p. */
  predicate Takes(s: State, t: State, p: nat) {
    p < |s.part| && p < |t.part| && s.part[p].handler.Idle? && t.part[p].handler.Holding?
  }

  /** The children have changed while p was watching. */
  predicate Fires(s: State, t: State, p: nat) {
    p < |s.part| && p < |t.part| && s.part[p].watch && t.children != s.children
  }

  function One(b: bool): nat { if b then 1 else 0 }

  datatype Count = Count(gets: nat, takes: nat, fires: nat)

  /** What has happened to p in the first k steps. */
  function Counted(run: seq<State>, p: nat, k: nat): Count
    requires k < |run|
  {
    if k == 0 then Count(0, 0, 0)
    else
      var c, s, t := Counted(run, p, k - 1), run[k - 1], run[k];
      Count(c.gets + One(Gets(s, t, p)), c.takes + One(Takes(s, t, p)), c.fires + One(Fires(s, t, p)))
  }

  lemma StepEvents(s: State, a: Action, p: nat)
    requires Inv(s) && Enabled(s, a) && p < |s.part|
    ensures |Apply(s, a).part| == |s.part|
    ensures var t := Apply(s, a);
            && t.part[p].pending + One(Takes(s, t, p)) == s.part[p].pending + One(Fires(s, t, p))
            && One(t.part[p].watch) + One(Fires(s, t, p)) <= One(s.part[p].watch) + One(Gets(s, t, p))
  {
    assert LocalInv(s, a.p);
    if a.Create? {
      assert a.p !in s.children && a.p in Apply(s, a).children;
    } else if a.Delete? {
      assert a.p in s.children && a.p !in Apply(s, a).children;
    }
  }

  /** In every run: the events handled and still queued are those queued at the start and one for each
      change that found the watch armed; and such changes are no more than the calls of getChildren. */
  lemma {:induction false} EventsAccounted(run: seq<State>, p: nat, k: nat)
    requires IsRun(run) && Init(run[0]) && k < |run| && p < |run[0].part|
    ensures |run[k].part| == |run[0].part|
    ensures var c := Counted(run, p, k);
            && c.takes + run[k].part[p].pending == run[0].part[p].pending + c.fires
            && c.fires + One(run[k].part[p].watch) <= c.gets
  {
    hide Enabled, Apply, Inv, Gets, Takes, Fires;
    if k > 0 {
      var j := k - 1;
      EventsAccounted(run, p, j);
      RunInv(run, j);
      assert Next(run[j], run[j + 1]);
      var a :| Enabled(run[j], a) && run[k] == Apply(run[j], a);
      StepEvents(run[j], a, p);
    }
  }
}
