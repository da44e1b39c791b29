/** The double barrier in place: the children of the root node and the participants' fields, changed one
    atomic action at a time, refine the step system. */
module BarrierMachine {
  import opened DoubleBarrier
  import opened BarrierProgress

  class Machine {
    var children: set<nat>
    const part: array<Part>

    ghost function Contents(): State
      reads this, part
    {
      State(children, part[..])
    }

    /** n participants; events[i] connection events are already queued for participant i. */
    constructor (events: seq<nat>)
      ensures fresh(part) && part.Length == |events| && Init(Contents())
      ensures forall i | 0 <= i < |events| :: part[i].pending == events[i]
    {
      children := {};
      part := new Part[|events|](i requires 0 <= i < |events| => Part(Start, Free, {}, false, events[i], Idle));
    }

    /** ZooKeeper fires every armed watch and queues an event for its owner. */
    method FireWatches()
      modifies part
      ensures part[..] == Fire(old(part[..]))
      ensures forall i | 0 <= i < part.Length ::
                && !part[i].watch && part[i].pending == old(part[i].pending) + (if old(part[i].watch) then 1 else 0)
                && part[i] == old(part[i]).(watch := part[i].watch, pending := part[i].pending)
    {
      ghost var before := part[..];
      var i := 0;
      while i < part.Length
        invariant 0 <= i <= part.Length
        invariant forall j | 0 <= j < i :: part[j] == Fire(before)[j]
        invariant forall j | i <= j < part.Length :: part[j] == before[j]
      {
        if part[i].watch {
          part[i] := part[i].(watch := false, pending := part[i].pending + 1);
        }
        i := i + 1;
      }
    }

    /** zk.create, with which enter begins. */
    method CreateNode(p: nat)
      requires Enabled(Contents(), Create(p))
      modifies this, part
      ensures Contents() == Apply(old(Contents()), Create(p))
    {
      children := children + {p};
      part[p] := part[p].(pc := Outside(Enter));
      FireWatches();
    }

    /** zk.delete, with which leave begins. */
    method DeleteNode(p: nat)
      requires Enabled(Contents(), Delete(p))
      modifies this, part
      ensures Contents() == Apply(old(Contents()), Delete(p))
    {
      children := children - {p};
      part[p] := part[p].(pc := Outside(Leave));
      FireWatches();
    }

    /** One action inside the loop of enter or leave. */
    method LoopStep(a: Action)
      requires a.Acquire? || a.GetChildren? || a.Decide? || a.Reacquire? || a.Unlock? || a.Spurious?
      requires Enabled(Contents(), a)
      modifies part
      ensures Contents() == Apply(old(Contents()), a)
    {
      var p := a.p;
      var phase := part[p].pc.phase;
      match a {
        case Acquire(_) => part[p] := part[p].(pc := Locked(phase), lock := Worker);
        case GetChildren(_) => part[p] := part[p].(pc := Listed(phase), seen := children, watch := true);
        case Decide(_) =>
          if phase.Enter? {
            if |part[p].seen| < part.Length {
              part[p] := part[p].(pc := Waiting(Enter), lock := Free);
            } else {
              part[p] := part[p].(pc := Entered, lock := Free);
            }
          } else {
            if |part[p].seen| > 0 {
              part[p] := part[p].(pc := Waiting(Leave), lock := Free);
            } else {
              part[p] := part[p].(pc := Done, lock := Free);
            }
          }
        case Reacquire(_) => part[p] := part[p].(pc := Unlocking(phase), lock := Worker);
        case Unlock(_) => part[p] := part[p].(pc := Outside(phase), lock := Free);
        case Spurious(_) => part[p] := part[p].(pc := Woken(phase));
      }
    }

    /** One action of process. */
    method ProcessStep(a: Action)
      requires a.TakeEvent? || a.Notify? || a.Release?
      requires Enabled(Contents(), a)
      modifies part
      ensures Contents() == Apply(old(Contents()), a)
    {
      var p := a.p;
      match a {
        case TakeEvent(_) =>
          part[p] := part[p].(pending := part[p].pending - 1, handler := Holding, lock := Watcher);
        case Notify(_) =>
          if part[p].pc.Waiting? {
            part[p] := part[p].(pc := Woken(part[p].pc.phase));
          }
          part[p] := part[p].(handler := Notified);
        case Release(_) => part[p] := part[p].(handler := Idle, lock := Free);
      }
    }

    method Step(a: Action)
      requires Enabled(Contents(), a)
      modifies this, part
      ensures Contents() == Apply(old(Contents()), a)
    {
      hide Enabled, Apply;
      match a {
        case Create(p) => CreateNode(p);
        case Delete(p) => DeleteNode(p);
        case TakeEvent(_) => ProcessStep(a);
        case Notify(_) => ProcessStep(a);
        case Release(_) => ProcessStep(a);
        case _ => LoopStep(a);
      }
    }

    /** Whatever the scheduler asks for, in its order, as far as it is possible: the machine stays inside
        the reachable states, so what is proved of those holds of it. */
    method Run(schedule: seq<Action>)
      requires Init(Contents())
      modifies this, part
      ensures Reaches(old(Contents()), Contents()) && Inv(Contents())
      ensures forall i | 0 <= i < part.Length && part[i].pc.Done? ::
                children == {} && forall j | 0 <= j < part.Length :: Deleted(part[j].pc)
    {
      hide Enabled, Apply, Inv, Reaches;
      ghost var start := Contents();
      ReachRefl(start);
      var k := 0;
      while k < |schedule|
        invariant 0 <= k <= |schedule|
        invariant Reaches(start, Contents())
      {
        var enabled := Possible(schedule[k]);
        if enabled {
          ghost var s := Contents();
          ghost var u := ReachStep(start, s, schedule[k]);
          Step(schedule[k]);
        }
        k := k + 1;
      }
      assert Reachable(Contents());
      ReachableInv(Contents());
      forall i | 0 <= i < part.Length && part[i].pc.Done?
        ensures children == {} && forall j | 0 <= j < part.Length :: Deleted(part[j].pc)
      {
        BarrierSafety(Contents(), i);
      }
    }

    method Possible(a: Action) returns (b: bool)
      ensures b <==> Enabled(Contents(), a)
    {
      b := a.p < part.Length && Enabled(State(children, part[..]), a);
    }
  }
}
