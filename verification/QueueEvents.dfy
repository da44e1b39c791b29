/** The watches of the queue are one-shot: a call of getChildren brings its consumer at most one event, and
    no event is made up or dropped. */
module QueueEvents {
  import opened ElementQueue

  /** A change disarms every watch and queues one event exactly where a watch was armed. */
  lemma FireOnce(consumer: seq<Consumer>, i: nat)
    requires i < |consumer|
    ensures var q, r := consumer[i], Fire(consumer)[i];
            && !r.watch && r.pending == q.pending + (if q.watch then 1 else 0)
            && r.pc == q.pc && r.left == q.left && r.nums == q.nums && r.values == q.values
    ensures Fire(Fire(consumer)) == Fire(consumer)
  {
  }

  // ---------------------------------------------------------------- counting along a run

  predicate Gets(s: State, t: State, c: nat) {
    c < |s.consumer| && c < |t.consumer| && s.consumer[c].pc.Locked? && t.consumer[c].pc.Listed?
  }

  /** The nodes have changed while c was watching. */
  predicate Fires(s: State, t: State, c: nat) {
    c < |s.consumer| && c < |t.consumer| && s.consumer[c].watch && t.nodes.Keys != s.nodes.Keys
  }

  /** process has been called for c: fewer events are queued. */
  predicate Takes(s: State, t: State, c: nat) {
    c < |s.consumer| && c < |t.consumer| && t.consumer[c].pending < s.consumer[c].pending
  }

  function One(b: bool): nat { if b then 1 else 0 }

  datatype Count = Count(gets: nat, takes: nat, fires: nat)

  function Counted(run: seq<State>, c: nat, k: nat): Count
    requires k < |run|
  {
    if k == 0 then Count(0, 0, 0)
    else
      var n, s, t := Counted(run, c, k - 1), run[k - 1], run[k];
      Count(n.gets + One(Gets(s, t, c)), n.takes + One(Takes(s, t, c)), n.fires + One(Fires(s, t, c)))
  }

  predicate Accounted(s: State, t: State, c: nat) {
    && c < |s.consumer| == |t.consumer|
    && t.consumer[c].pending + One(Takes(s, t, c)) == s.consumer[c].pending + One(Fires(s, t, c))
    && One(t.consumer[c].watch) + One(Fires(s, t, c)) <= One(s.consumer[c].watch) + One(Gets(s, t, c))
  }

  lemma ProduceEvents(s: State, a: Action, c: nat)
    requires DataInv(s) && a.Produce? && Enabled(s, a) && c < |s.consumer|
    ensures Accounted(s, Apply(s, a), c)
  {
    hide PutInt, GetInt;
    assert a.num !in s.nodes && a.num in Apply(s, a).nodes.Keys;
  }

  lemma DeleteEvents(s: State, a: Action, c: nat)
    requires a.Delete? && Enabled(s, a) && Hit(s, s.consumer[a.c].pc.num) && c < |s.consumer|
    ensures Accounted(s, Apply(s, a), c)
  {
    hide PutInt, GetInt, Finds;
    assert s.consumer[a.c].pc.num !in Apply(s, a).nodes.Keys;
  }

  lemma QuietEvents(s: State, a: Action, c: nat)
    requires !a.Produce? && Enabled(s, a) && c < |s.consumer|
    requires a.Delete? ==> !Hit(s, s.consumer[a.c].pc.num)
    ensures Accounted(s, Apply(s, a), c)
  {
    hide PutInt, GetInt, Finds;
  }

  lemma StepEvents(s: State, a: Action, c: nat)
    requires Inv(s) && Enabled(s, a) && c < |s.consumer|
    ensures Accounted(s, Apply(s, a), c)
  {
    hide Accounted, DataInv, PartitionInv, OrderInv, OwnerInv, ConsumersInv, Apply;
    if a.Produce? {
      ProduceEvents(s, a, c);
    } else if a.Delete? && Hit(s, s.consumer[a.c].pc.num) {
      DeleteEvents(s, a, c);
    } else {
      QuietEvents(s, a, c);
    }
  }

  /** In every run: the events handled and still queued are those queued at the start and one for each
      change that found the watch armed; and such changes are no more than the calls of getChildren. */
  lemma {:induction false} EventsAccounted(run: seq<State>, c: nat, k: nat)
    requires IsRun(run) && k < |run| && c < |run[0].consumer|
    ensures |run[k].consumer| == |run[0].consumer|
    ensures var n := Counted(run, c, k);
            && n.takes + run[k].consumer[c].pending == run[0].consumer[c].pending + n.fires
            && n.fires + One(run[k].consumer[c].watch) <= n.gets
  {
    hide Enabled, Apply, Inv, Gets, Takes, Fires;
    if k > 0 {
      var j := k - 1;
      EventsAccounted(run, c, j);
      RunInv(run, j);
      assert Next(run[j], run[j + 1]);
      var a :| Enabled(run[j], a) && run[k] == Apply(run[j], a);
      StepEvents(run[j], a, c);
    }
  }
}
