/** The queue in place: the element nodes and the consumers' fields, changed one atomic action at a time,
    refine the step system. */
module QueueMachine {
  import opened ElementQueue

  class Machine {
    const lookup: Lookup
    var nodes: map<nat, seq<int>>
    var next: nat
    const consumer: array<Consumer>
    ghost var made: map<nat, int>
    ghost var removed: seq<nat>

    ghost function Contents(): State
      reads this, consumer
    {
      State(lookup, nodes, next, made, removed, consumer[..])
    }

    /** One consumer for each entry of max, which says how many elements it asks for. */
    constructor (lookup: Lookup, max: seq<nat>)
      ensures this.lookup == lookup && fresh(consumer) && consumer.Length == |max| && Init(Contents())
      ensures forall i | 0 <= i < |max| :: consumer[i].left == max[i]
    {
      this.lookup := lookup;
      nodes, next, made, removed := map[], 0, map[], [];
      consumer := new Consumer[|max|](i requires 0 <= i < |max| => Consumer(Ready, max[i], [], [], false, 0));
    }

    method FireWatches()
      modifies consumer
      ensures consumer[..] == Fire(old(consumer[..]))
      ensures forall i | 0 <= i < consumer.Length ::
                && !consumer[i].watch
                && consumer[i].pending == old(consumer[i].pending) + (if old(consumer[i].watch) then 1 else 0)
                && consumer[i] == old(consumer[i]).(watch := consumer[i].watch, pending := consumer[i].pending)
    {
      ghost var before := consumer[..];
      var i := 0;
      while i < consumer.Length
        invariant 0 <= i <= consumer.Length
        invariant forall j | 0 <= j < i :: consumer[j] == Fire(before)[j]
        invariant forall j | i <= j < consumer.Length :: consumer[j] == before[j]
      {
        if consumer[i].watch {
          consumer[i] := consumer[i].(watch := false, pending := consumer[i].pending + 1);
        }
        i := i + 1;
      }
    }

    /** produce: num is the sequence number ZooKeeper chooses. */
    method Create(num: nat, value: int)
      requires Enabled(Contents(), Produce(num, value))
      modifies this, consumer
      ensures Contents() == Apply(old(Contents()), Produce(num, value))
    {
      hide PutInt;
      nodes := nodes[num := PutInt(value)];
      made := made[num := value];
      next := num + 1;
      FireWatches();
    }

    /** The delete of consume, which throws when another consumer was faster, or when there is no node of the
        name that is asked for. */
    method DeleteNode(c: nat)
      requires Enabled(Contents(), Delete(c))
      modifies this, consumer
      ensures Contents() == Apply(old(Contents()), Delete(c))
    {
      hide Finds;
      var q := consumer[c];
      if q.pc.num in nodes && Finds(lookup, q.pc.num) {
        nodes := nodes - {q.pc.num};
        removed := removed + [q.pc.num];
        consumer[c] := q.(pc := Took(q.pc.num, q.pc.data));
        FireWatches();
      } else {
        consumer[c] := q.(pc := Failed);
      }
    }

    /** The other actions of a consumer and of its watcher. */
    method ConsumerStep(a: Action)
      requires !a.Produce? && !a.Delete? && Enabled(Contents(), a)
      modifies consumer
      ensures Contents() == Apply(old(Contents()), a)
    {
      hide GetInt, Finds;
      var c := a.c;
      var q := consumer[c];
      match a {
        case Lock(_) => consumer[c] := q.(pc := Locked);
        case List(_) => consumer[c] := q.(pc := Listed(nodes.Keys), watch := true);
        case GoWait(_) => consumer[c] := q.(pc := Waiting);
        case Pick(_, m) => consumer[c] := q.(pc := Picked(m));
        case GetData(_) =>
          if q.pc.num in nodes && Finds(lookup, q.pc.num) {
            consumer[c] := q.(pc := Read(q.pc.num, nodes[q.pc.num]));
          } else {
            consumer[c] := q.(pc := Failed);
          }
        case Return(_) =>
          var retvalue := GetInt(q.pc.data);
          consumer[c] := q.(pc := Ready, left := q.left - 1,
                            nums := q.nums + [q.pc.num], values := q.values + [retvalue]);
        case Retry(_) => consumer[c] := q.(pc := Ready);
        case Notify(_) =>
          if q.pc.Waiting? {
            consumer[c] := q.(pending := q.pending - 1, pc := Ready);
          } else {
            consumer[c] := q.(pending := q.pending - 1);
          }
        case Spurious(_) => consumer[c] := q.(pc := Ready);
      }
    }

    method Step(a: Action)
      requires Enabled(Contents(), a)
      modifies this, consumer
      ensures Contents() == Apply(old(Contents()), a)
    {
      hide Enabled, Apply;
      match a {
        case Produce(num, value) => Create(num, value);
        case Delete(c) => DeleteNode(c);
        case _ => ConsumerStep(a);
      }
    }

    /** Whatever the scheduler asks for, in its order, as far as it is possible, is a run. */
    method Run(schedule: seq<Action>) returns (ghost run: seq<State>)
      requires Init(Contents())
      modifies this, consumer
      ensures IsRun(run) && run[0] == old(Contents()) && run[|run| - 1] == Contents()
      ensures Inv(Contents())
    {
      hide Enabled, Apply, Inv, Init;
      run := [Contents()];
      var k := 0;
      while k < |schedule|
        invariant 0 <= k <= |schedule|
        invariant IsRun(run) && run[0] == old(Contents()) && run[|run| - 1] == Contents()
      {
        var enabled := Possible(schedule[k]);
        if enabled {
          Step(schedule[k]);
          RunGrows(run, schedule[k]);
          run := run + [Contents()];
        }
        k := k + 1;
      }
      RunInv(run, |run| - 1);
    }

    method Possible(a: Action) returns (b: bool)
      ensures b <==> Enabled(Contents(), a)
    {
      b := Enabled(State(lookup, nodes, next, map[], [], consumer[..]), a);
    }
  }

  lemma RunGrows(run: seq<State>, a: Action)
    requires IsRun(run) && Enabled(run[|run| - 1], a)
    ensures IsRun(run + [Apply(run[|run| - 1], a)])
  {
    hide Enabled, Apply, Init;
    var all := run + [Apply(run[|run| - 1], a)];
    forall i | 0 <= i < |all| - 1 ensures Next(all[i], all[i + 1]) {
      if i < |run| - 1 {
        assert Next(run[i], run[i + 1]);
      } else {
        assert all[i] == run[|run| - 1];
      }
    }
  }
}
