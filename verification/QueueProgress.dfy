/** Which runs of the queue come to rest once the producers have stopped.  A lost race is paid for by the
    delete that won it; but a look-up under a name that the node does not have is paid for by nothing, and
    is repeated for ever. */
module QueueProgress {
  import opened ElementQueue

  // ---------------------------------------------------------------- rank

  /** The steps to the next Ready or Waiting.  An attempt whose minimum is gone fails, and costs more. */
  function PcRank(pc: Pc, nodes: map<nat, seq<int>>): nat {
    match pc
    case Ready => 6
    case Locked => 5
    case Listed(list) => if list <= nodes.Keys then 4 else 10
    case Picked(m) => if m in nodes then 3 else 9
    case Read(m, _) => if m in nodes then 2 else 8
    case Took(_, _) => 1
    case Failed => 7
    case Waiting => 0
  }

  function ConsumerRank(q: Consumer, nodes: map<nat, seq<int>>): nat {
    PcRank(q.pc, nodes) + 7 * q.left + 7 * q.pending
  }

  function Total(consumer: seq<Consumer>, nodes: map<nat, seq<int>>): nat {
    if consumer == [] then 0 else ConsumerRank(consumer[0], nodes) + Total(consumer[1..], nodes)
  }

  /** Each node stands for one delete, which can make every other consumer fail once and wake it. */
  function Rank(s: State): nat {
    13 * |s.consumer| * |s.nodes| + Total(s.consumer, s.nodes)
  }

  lemma {:induction false} TotalUpdate(consumer: seq<Consumer>, nodes: map<nat, seq<int>>, c: nat, q: Consumer)
    requires c < |consumer|
    ensures Total(consumer[c := q], nodes) ==
              Total(consumer, nodes) - ConsumerRank(consumer[c], nodes) + ConsumerRank(q, nodes)
  {
    hide ConsumerRank;
    if c == 0 {
      assert consumer[c := q][1..] == consumer[1..];
    } else {
      TotalUpdate(consumer[1..], nodes, c - 1, q);
      assert consumer[c := q][1..] == consumer[1..][c - 1 := q];
    }
  }

  /** A delete makes attempts fail and fires watches: at most 13 for each consumer. */
  lemma {:induction false} TotalDelete(consumer: seq<Consumer>, nodes: map<nat, seq<int>>, m: nat)
    ensures Total(Fire(consumer), nodes - {m}) <= Total(consumer, nodes) + 13 * |consumer|
  {
    if consumer != [] {
      TotalDelete(consumer[1..], nodes, m);
      DeleteOne(consumer, nodes, m);
      assert Fire(consumer)[1..] == Fire(consumer[1..]);
    }
  }

  lemma DeleteOne(consumer: seq<Consumer>, nodes: map<nat, seq<int>>, m: nat)
    requires consumer != []
    ensures ConsumerRank(Fire(consumer)[0], nodes - {m}) <= ConsumerRank(consumer[0], nodes) + 13
  {
  }

  /** A node that is there is asked for by a name that it does not have. */
  predicate Blind(s: State, a: Action) {
    && (a.GetData? || a.Delete?) && Enabled(s, a)
    && var m := s.consumer[a.c].pc.num; m in s.nodes && !Finds(s.lookup, m)
  }

  lemma DeleteRank(s: State, a: Action)
    requires a.Delete? && Enabled(s, a) && Hit(s, s.consumer[a.c].pc.num)
    ensures Rank(Apply(s, a)) < Rank(s)
  {
    var c, q, m := a.c, s.consumer[a.c], s.consumer[a.c].pc.num;
    var took := q.(pc := Took(m, q.pc.data));
    var moved, n := s.consumer[c := took], |s.consumer|;
    var t := Apply(s, a);
    assert t.consumer == Fire(moved) && t.nodes == s.nodes - {m};
    assert ConsumerRank(took, s.nodes) == ConsumerRank(q, s.nodes) - 1;
    hide Total, ConsumerRank, Enabled, Apply;
    TotalUpdate(s.consumer, s.nodes, c, took);
    TotalDelete(moved, s.nodes, m);
    OneLess(s.nodes, m);
    Distribute(n, |s.nodes|);
  }

  lemma OneLess(nodes: map<nat, seq<int>>, m: nat)
    requires m in nodes
    ensures |nodes - {m}| == |nodes| - 1
  {
    assert (nodes - {m}).Keys == nodes.Keys - {m};
  }

  lemma Distribute(n: nat, k: nat)
    ensures 13 * n * (k - 1) == 13 * n * k - 13 * n
  {
  }

  lemma QuietRank(s: State, a: Action)
    requires Enabled(s, a) && !a.Produce? && !a.Spurious? && !Blind(s, a)
    requires a.Delete? ==> !Hit(s, s.consumer[a.c].pc.num)
    ensures Rank(Apply(s, a)) < Rank(s)
  {
    var t := Apply(s, a);
    QuietConsumerRank(s, a);
    hide Total, ConsumerRank, GetInt;
    assert t.nodes == s.nodes && t.consumer == s.consumer[a.c := t.consumer[a.c]];
    TotalUpdate(s.consumer, s.nodes, a.c, t.consumer[a.c]);
  }

  lemma QuietConsumerRank(s: State, a: Action)
    requires Enabled(s, a) && !a.Produce? && !a.Spurious? && !Blind(s, a)
    requires a.Delete? ==> !Hit(s, s.consumer[a.c].pc.num)
    ensures ConsumerRank(Apply(s, a).consumer[a.c], s.nodes) < ConsumerRank(s.consumer[a.c], s.nodes)
  {
    hide GetInt;
  }

  /** Every action other than a production, a spurious wake-up and a blind look-up lowers the rank. */
  lemma StepRank(s: State, a: Action)
    requires Enabled(s, a) && !a.Produce? && !a.Spurious? && !Blind(s, a)
    ensures Rank(Apply(s, a)) < Rank(s)
  {
    hide Rank, Apply, Finds;
    if a.Delete? && Hit(s, s.consumer[a.c].pc.num) {
      DeleteRank(s, a);
    } else {
      QuietRank(s, a);
    }
  }

  // ---------------------------------------------------------------- calm runs

  predicate Calm(a: Action) {
    !a.Produce? && !a.Spurious?
  }

  ghost predicate CalmNext(s: State, t: State) {
    exists a: Action :: Calm(a) && Enabled(s, a) && t == Apply(s, a)
  }

  /** Nothing is produced, and nobody wakes up spuriously. */
  ghost predicate CalmRun(run: seq<State>) {
    run != [] && forall i, j | 0 <= i < |run| && j == i + 1 < |run| :: CalmNext(run[i], run[j])
  }

  /** Every node has the name that is asked for. */
  predicate NodesFound(s: State) {
    forall m | m in s.nodes :: Finds(s.lookup, m)
  }

  predicate NobodyWants(s: State) {
    forall c | 0 <= c < |s.consumer| :: s.consumer[c].left == 0
  }

  /** No look-up will be blind. */
  predicate Sighted(s: State) {
    NodesFound(s) || NobodyWants(s)
  }

  lemma SightedLooks(s: State, a: Action)
    requires Inv(s) && Sighted(s) && Enabled(s, a)
    ensures !Blind(s, a)
  {
    hide Finds, PutInt;
    if (a.GetData? || a.Delete?) && NobodyWants(s) {
      assert ConsumerInv(s.nodes, s.made, s.consumer[a.c]);
    }
  }

  lemma SightedStays(s: State, a: Action)
    requires Sighted(s) && Enabled(s, a) && Calm(a)
    ensures Sighted(Apply(s, a))
  {
    hide GetInt, Finds;
  }

  lemma SightedStep(s: State, a: Action)
    requires Inv(s) && Sighted(s) && Enabled(s, a) && Calm(a)
    ensures !Blind(s, a) && Sighted(Apply(s, a))
  {
    hide Inv, Sighted, Blind, Apply;
    SightedLooks(s, a);
    SightedStays(s, a);
  }

  /** A run of a sighted queue without productions and spurious wake-ups has at most Rank steps,
      whatever the schedule: nobody retries for ever. */
  lemma {:induction false} RunBounded(run: seq<State>)
    requires CalmRun(run) && Inv(run[0]) && Sighted(run[0])
    ensures |run| - 1 <= Rank(run[0])
    decreases |run|
  {
    hide Rank, Enabled, Apply, Inv, Sighted, Blind;
    if |run| > 1 {
      var s, rest := run[0], run[1..];
      assert CalmNext(s, run[1]);
      var a: Action :| Calm(a) && Enabled(s, a) && run[1] == Apply(s, a);
      SightedStep(s, a);
      StepInv(s, a);
      StepRank(s, a);
      forall i, j | 0 <= i < |rest| && j == i + 1 < |rest| ensures CalmNext(rest[i], rest[j]) {
        assert CalmNext(run[i + 1], run[j + 1]);
      }
      RunBounded(rest);
    }
  }
}
