/** The ZooKeeper double barrier as a step system.

    Every participant owns one client, one mutex and one watcher.  The steps below are the
    atomic actions of its worker thread (enter, then leave) and of the client's event thread
    (process).  Participants are numbered 0..n-1; their numbers stand for their node names,
    which are pairwise distinct, and n is the size every barrier was built with. */
module DoubleBarrier {

  datatype Phase = Enter | Leave

  /** Where the worker thread of a participant stands. */
  datatype Pc =
    | Start                     // before zk.create
    | Outside(phase: Phase)     // at the head of the loop, before synchronized (mutex)
    | Locked(phase: Phase)      // holds the mutex, before getChildren
    | Listed(phase: Phase)      // holds the mutex, list has been read
    | Waiting(phase: Phase)     // inside mutex.wait(), mutex released
    | Woken(phase: Phase)       // notified, wants the mutex back
    | Unlocking(phase: Phase)   // wait() returned with the mutex held
    | Entered                   // enter returned true
    | Done                      // leave returned true

  datatype Holder = Free | Worker | Watcher

  /** Where the event thread of a participant stands inside process. */
  datatype Handler = Idle | Holding | Notified

  datatype Part = Part(pc: Pc, lock: Holder, seen: set<nat>, watch: bool, pending: nat, handler: Handler)

  datatype State = State(children: set<nat>, part: seq<Part>)

  datatype Action =
    | Create(p: nat)
    | Acquire(p: nat)
    | GetChildren(p: nat)
    | Decide(p: nat)
    | Reacquire(p: nat)
    | Unlock(p: nat)
    | Delete(p: nat)
    | TakeEvent(p: nat)
    | Notify(p: nat)
    | Release(p: nat)
    | Spurious(p: nat)          // Java lets wait() return without a notify

  predicate Holds(pc: Pc) {
    pc.Locked? || pc.Listed? || pc.Unlocking?
  }

  predicate InLoop(pc: Pc) {
    pc.Outside? || pc.Locked? || pc.Listed? || pc.Waiting? || pc.Woken? || pc.Unlocking?
  }

  /** The participant's node has been deleted: it has called leave. */
  predicate Deleted(pc: Pc) {
    pc.Done? || (InLoop(pc) && pc.phase.Leave?)
  }

  /** The participant has returned from enter. */
  predicate Passed(pc: Pc) {
    pc.Entered? || Deleted(pc)
  }

  /** The participant's node exists. */
  predicate Present(pc: Pc) {
    pc.Entered? || (InLoop(pc) && pc.phase.Enter?)
  }

  /** The condition under which the code waits: too few children in enter, any child in leave. */
  predicate MustWait(phase: Phase, list: set<nat>, size: nat) {
    match phase
    case Enter => |list| < size
    case Leave => |list| > 0
  }

  /** A change below the root triggers every armed watch once and queues one event for each. */
  function Fire(part: seq<Part>): (r: seq<Part>)
    ensures |r| == |part|
  {
    seq(|part|, i requires 0 <= i < |part| =>
      if part[i].watch then part[i].(watch := false, pending := part[i].pending + 1) else part[i])
  }

  predicate Init(s: State) {
    && s.children == {}
    && forall i | 0 <= i < |s.part| ::
         && s.part[i].pc == Start && s.part[i].lock == Free && s.part[i].seen == {}
         && !s.part[i].watch && s.part[i].handler == Idle
         // pending may be positive: connection events also reach process
  }

  predicate Enabled(s: State, a: Action) {
    && a.p < |s.part|
    && var q := s.part[a.p];
       match a
       case Create(_) => q.pc.Start?
       case Acquire(_) => q.pc.Outside? && q.lock.Free?
       case GetChildren(_) => q.pc.Locked?
       case Decide(_) => q.pc.Listed?
       case Reacquire(_) => q.pc.Woken? && q.lock.Free?
       case Unlock(_) => q.pc.Unlocking?
       case Delete(_) => q.pc.Entered?
       case TakeEvent(_) => q.pending > 0 && q.handler.Idle? && q.lock.Free?
       case Notify(_) => q.handler.Holding?
       case Release(_) => q.handler.Notified?
       case Spurious(_) => q.pc.Waiting?
  }

  function Apply(s: State, a: Action): State
    requires Enabled(s, a)
  {
    var p := a.p;
    var q := s.part[p];
    match a
    case Create(_) => State(s.children + {p}, Fire(s.part[p := q.(pc := Outside(Enter))]))
    case Acquire(_) => s.(part := s.part[p := q.(pc := Locked(q.pc.phase), lock := Worker)])
    case GetChildren(_) => s.(part := s.part[p := q.(pc := Listed(q.pc.phase), seen := s.children, watch := true)])
    case Decide(_) =>
      var next :=
        if MustWait(q.pc.phase, q.seen, |s.part|) then Waiting(q.pc.phase)
        else if q.pc.phase.Enter? then Entered
        else Done;
      s.(part := s.part[p := q.(pc := next, lock := Free)])
    case Reacquire(_) => s.(part := s.part[p := q.(pc := Unlocking(q.pc.phase), lock := Worker)])
    case Unlock(_) => s.(part := s.part[p := q.(pc := Outside(q.pc.phase), lock := Free)])
    case Delete(_) => State(s.children - {p}, Fire(s.part[p := q.(pc := Outside(Leave))]))
    case TakeEvent(_) => s.(part := s.part[p := q.(pending := q.pending - 1, handler := Holding, lock := Watcher)])
    case Notify(_) =>
      s.(part := s.part[p := q.(handler := Notified,
                                pc := if q.pc.Waiting? then Woken(q.pc.phase) else q.pc)])
    case Release(_) => s.(part := s.part[p := q.(handler := Idle, lock := Free)])
    case Spurious(_) => s.(part := s.part[p := q.(pc := Woken(q.pc.phase))])
  }

  ghost predicate Next(s: State, t: State) {
    exists a :: Enabled(s, a) && t == Apply(s, a)
  }

  ghost predicate IsRun(run: seq<State>) {
    && |run| > 0
    && forall i | 0 <= i < |run| - 1 :: Next(run[i], run[i + 1])
  }

  ghost predicate Reaches(s: State, t: State) {
    exists run :: IsRun(run) && run[0] == s && run[|run| - 1] == t
  }

  ghost predicate Reachable(t: State) {
    exists s :: Init(s) && Reaches(s, t)
  }

  // ---------------------------------------------------------------- invariant

  predicate AllCreated(s: State) {
    forall j | 0 <= j < |s.part| :: !s.part[j].pc.Start?
  }

  predicate AllDeleted(s: State) {
    forall j | 0 <= j < |s.part| :: Deleted(s.part[j].pc)
  }

  predicate Fresh(s: State, q: Part) {
    q.watch && q.seen == s.children
  }

  predicate LocalInv(s: State, i: nat)
    requires i < |s.part|
  {
    var q := s.part[i];
    && (q.lock.Worker? <==> Holds(q.pc))
    && (q.lock.Watcher? <==> !q.handler.Idle?)
    && (i in s.children <==> Present(q.pc))
    && (q.handler.Notified? ==> !q.pc.Waiting?)
    && (q.pc.Listed? ==> Fresh(s, q) || q.pending > 0)
    && (q.pc.Waiting? ==> MustWait(q.pc.phase, q.seen, |s.part|))
    && (q.pc.Waiting? ==> Fresh(s, q) || q.pending > 0 || q.handler.Holding?)
    && (forall j | j in q.seen :: j < |s.part| && !s.part[j].pc.Start?)
    && (Passed(q.pc) ==> AllCreated(s))
    && ((q.pc.Listed? || q.pc.Waiting?) && q.pc.phase.Leave? ==>
          forall j | 0 <= j < |s.part| && j !in q.seen :: Deleted(s.part[j].pc))
    && (q.pc.Done? ==> AllDeleted(s))
  }

  predicate Inv(s: State) {
    && (forall c | c in s.children :: c < |s.part|)
    && forall i | 0 <= i < |s.part| :: LocalInv(s, i)
  }

  /** A subset of 0..n-1 with at least n elements is all of it. */
  lemma {:induction false} FullList(list: set<nat>, n: nat)
    requires forall c | c in list :: c < n
    ensures |list| <= n
    ensures |list| == n ==> forall j | 0 <= j < n :: j in list
  {
    if n > 0 {
      var smaller := list - {n - 1};
      FullList(smaller, n - 1);
      if |list| == n {
        assert n - 1 in list;
        forall j | 0 <= j < n ensures j in list { if j < n - 1 { assert j in smaller; } }
      }
    } else {
      assert list == {} by { assert forall c :: c !in list; }
    }
  }

  lemma DecideInv(s: State, a: Action, i: nat)
    requires Inv(s) && a.Decide? && Enabled(s, a) && i < |s.part|
    ensures LocalInv(Apply(s, a), i)
  {
    var q := s.part[a.p];
    assert LocalInv(s, a.p) && LocalInv(s, i);
    FullList(q.seen, |s.part|);
  }

  lemma ChangeInv(s: State, a: Action, i: nat)
    requires Inv(s) && (a.Create? || a.Delete?) && Enabled(s, a) && i < |s.part|
    ensures LocalInv(Apply(s, a), i)
  {
    assert LocalInv(s, a.p) && LocalInv(s, i);
  }

  lemma GetChildrenInv(s: State, a: Action, i: nat)
    requires Inv(s) && a.GetChildren? && Enabled(s, a) && i < |s.part|
    ensures LocalInv(Apply(s, a), i)
  {
    assert LocalInv(s, a.p) && LocalInv(s, i);
    forall j | 0 <= j < |s.part|
      ensures j in s.children ==> !s.part[j].pc.Start?
      ensures j !in s.children && AllCreated(s) ==> Deleted(s.part[j].pc)
    {
      assert LocalInv(s, j);
    }
  }

  predicate Quiet(a: Action) {
    !a.Decide? && !a.Create? && !a.Delete? && !a.GetChildren?
  }

  /** The other actions change no node and nobody's standing in the protocol. */
  lemma QuietPc(s: State, a: Action, j: nat)
    requires Quiet(a) && Enabled(s, a) && j < |s.part|
    ensures var t, p, q := Apply(s, a), s.part[j].pc, Apply(s, a).part[j].pc;
            && t.children == s.children && |t.part| == |s.part|
            && (q.Start? <==> p.Start?) && (q.Done? <==> p.Done?)
            && (Present(q) <==> Present(p)) && (Passed(q) <==> Passed(p)) && (Deleted(q) <==> Deleted(p))
  {
  }

  lemma QuietOther(s: State, a: Action, i: nat)
    requires Quiet(a) && Enabled(s, a) && i < |s.part| && i != a.p && LocalInv(s, i)
    ensures LocalInv(Apply(s, a), i)
  {
    var t := Apply(s, a);
    assert t.part[i] == s.part[i];
    hide Apply, Enabled, Present, Deleted;
    forall j | 0 <= j < |s.part|
      ensures t.part[j].pc.Start? <==> s.part[j].pc.Start?
      ensures Deleted(t.part[j].pc) <==> Deleted(s.part[j].pc)
    {
      QuietPc(s, a, j);
    }
    QuietPc(s, a, i);
  }

  lemma QuietOwn(s: State, a: Action)
    requires Quiet(a) && Enabled(s, a) && LocalInv(s, a.p)
    ensures LocalInv(Apply(s, a), a.p)
  {
    hide Deleted, Passed, Present;
    forall j | 0 <= j < |s.part|
      ensures Apply(s, a).part[j].pc.Start? <==> s.part[j].pc.Start?
      ensures Deleted(Apply(s, a).part[j].pc) <==> Deleted(s.part[j].pc)
    {
      QuietPc(s, a, j);
    }
    QuietPc(s, a, a.p);
  }

  lemma QuietInv(s: State, a: Action, i: nat)
    requires Inv(s) && Quiet(a) && Enabled(s, a) && i < |s.part|
    ensures LocalInv(Apply(s, a), i)
  {
    hide LocalInv, Enabled, Apply;
    if i == a.p {
      QuietOwn(s, a);
    } else {
      QuietOther(s, a, i);
    }
  }

  lemma StepInv(s: State, a: Action)
    requires Inv(s) && Enabled(s, a)
    ensures Inv(Apply(s, a))
  {
    forall i | 0 <= i < |s.part| ensures LocalInv(Apply(s, a), i) {
      if a.Decide? {
        DecideInv(s, a, i);
      } else if a.Create? || a.Delete? {
        ChangeInv(s, a, i);
      } else if a.GetChildren? {
        GetChildrenInv(s, a, i);
      } else {
        QuietInv(s, a, i);
      }
    }
  }

  /** Every state of every run from an initial state satisfies the invariant. */
  lemma {:induction false} RunInv(run: seq<State>, k: nat)
    requires IsRun(run) && Init(run[0]) && k < |run|
    ensures Inv(run[k]) && |run[k].part| == |run[0].part|
  {
    if k > 0 {
      RunInv(run, k - 1);
      assert Next(run[k - 1], run[k - 1 + 1]);
      var a :| Enabled(run[k - 1], a) && run[k] == Apply(run[k - 1], a);
      StepInv(run[k - 1], a);
    }
  }

  lemma ReachableInv(s: State)
    requires Reachable(s)
    ensures Inv(s)
  {
    var init :| Init(init) && Reaches(init, s);
    var run :| IsRun(run) && run[0] == init && run[|run| - 1] == s;
    RunInv(run, |run| - 1);
  }

  // ---------------------------------------------------------------- safety

  lemma DeletedNodesGone(s: State)
    requires Inv(s) && AllDeleted(s)
    ensures s.children == {}
  {
    forall j: nat ensures j !in s.children {
      if j < |s.part| {
        assert LocalInv(s, j);
      }
    }
  }

  /** Nobody is past enter until all have created their node; nobody returns from leave until
      everybody has passed enter and deleted its node, and then the root has no child left. */
  lemma BarrierSafety(s: State, i: nat)
    requires Reachable(s) && i < |s.part|
    ensures Passed(s.part[i].pc) ==> forall j | 0 <= j < |s.part| :: !s.part[j].pc.Start?
    ensures s.part[i].pc.Done? ==>
              s.children == {} && forall j | 0 <= j < |s.part| :: Passed(s.part[j].pc) && Deleted(s.part[j].pc)
  {
    ReachableInv(s);
    assert LocalInv(s, i);
    if s.part[i].pc.Done? {
      DeletedNodesGone(s);
    }
  }

  /** The mutex is never held by the worker and the watcher at once. */
  lemma MutualExclusion(s: State, i: nat)
    requires Reachable(s) && i < |s.part|
    ensures !(Holds(s.part[i].pc) && !s.part[i].handler.Idle?)
    ensures s.part[i].lock.Free? <==> !Holds(s.part[i].pc) && s.part[i].handler.Idle?
  {
    ReachableInv(s);
    assert LocalInv(s, i);
  }

  /** No wake-up is lost: a waiting participant for which no event is queued or being handled has
      its watch armed and has last read the children that are there now. */
  lemma NoLostWakeup(s: State, i: nat)
    requires Reachable(s) && i < |s.part|
    requires s.part[i].pc.Waiting? && s.part[i].pending == 0 && s.part[i].handler.Idle?
    ensures s.part[i].watch && s.part[i].seen == s.children
    ensures MustWait(s.part[i].pc.phase, s.children, |s.part|)
  {
    ReachableInv(s);
    assert LocalInv(s, i);
  }

  // ---------------------------------------------------------------- quiescence

  /** No thread can take a step of its own accord. */
  ghost predicate Quiescent(s: State) {
    forall a: Action | !a.Spurious? :: !Enabled(s, a)
  }

  predicate NoEvents(s: State) {
    forall i | 0 <= i < |s.part| :: s.part[i].pending == 0 && s.part[i].handler.Idle?
  }

  predicate AllDone(s: State) {
    forall i | 0 <= i < |s.part| :: s.part[i].pc.Done?
  }

  /** Exactly the participants in e wait in enter and have a node; all the others wait in leave. */
  predicate Split(s: State, e: set<nat>) {
    && s.children == e
    && (forall i | i in e :: i < |s.part|)
    && forall i | 0 <= i < |s.part| :: s.part[i].pc == Waiting(if i in e then Enter else Leave)
  }

  /** Some, but not all, participants are left behind in enter. */
  predicate Stuck(s: State) {
    Split(s, s.children) && 0 < |s.children| < |s.part|
  }

  lemma QuietPart(s: State, i: nat)
    requires Inv(s) && Quiescent(s) && i < |s.part|
    ensures s.part[i].pending == 0 && s.part[i].handler.Idle?
    ensures s.part[i].pc.Done? || s.part[i].pc.Waiting?
  {
    assert LocalInv(s, i);
    assert !Enabled(s, Create(i)) && !Enabled(s, Acquire(i)) && !Enabled(s, GetChildren(i));
    assert !Enabled(s, Decide(i)) && !Enabled(s, Reacquire(i)) && !Enabled(s, Unlock(i));
    assert !Enabled(s, Delete(i)) && !Enabled(s, TakeEvent(i)) && !Enabled(s, Notify(i));
    assert !Enabled(s, Release(i));
  }

  lemma QuiescentOutcome(s: State)
    requires Inv(s) && Quiescent(s)
    ensures NoEvents(s) && (AllDone(s) || Stuck(s))
  {
    forall i | 0 <= i < |s.part|
      ensures s.part[i].pending == 0 && s.part[i].handler.Idle?
      ensures s.part[i].pc.Done? || s.part[i].pc.Waiting?
    {
      QuietPart(s, i);
    }
    if !AllDone(s) {
      var w :| 0 <= w < |s.part| && s.part[w].pc.Waiting?;
      assert LocalInv(s, w);
      forall i | 0 <= i < |s.part| ensures s.part[i].pc.Waiting? && Fresh(s, s.part[i]) {
        assert LocalInv(s, i);
        if s.part[i].pc.Done? {
          DeletedNodesGone(s);
          assert false;
        }
      }
      forall i | 0 <= i < |s.part| ensures i in s.children <==> s.part[i].pc.phase.Enter? {
        assert LocalInv(s, i);
      }
      FullList(s.children, |s.part|);
      if s.part[w].pc.phase.Enter? {
        assert w in s.children;
      }
    }
  }

  /** A reachable state is quiescent exactly when no event is in flight and either everybody has
      left the barrier or the participants are split between the two waits. */
  lemma QuiescentIff(s: State)
    requires Reachable(s)
    ensures Quiescent(s) <==> NoEvents(s) && (AllDone(s) || Stuck(s))
  {
    ReachableInv(s);
    if Quiescent(s) {
      QuiescentOutcome(s);
    }
    if NoEvents(s) && (AllDone(s) || Stuck(s)) {
      forall a: Action | !a.Spurious? ensures !Enabled(s, a) {
        if a.p < |s.part| {
          assert s.part[a.p].pending == 0;
        }
      }
    }
  }
}
