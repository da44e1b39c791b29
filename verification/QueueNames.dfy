/** What the names that consume rebuilds do to the queue, exactly: the first element that is ever created
    decides whether anything is returned at all, and whether consumers come to rest. */
module QueueNames {
  import opened ElementName
  import opened ElementQueue
  import opened QueueProgress

  // ---------------------------------------------------------------- the first element decides

  predicate IsFirst(m0: nat, made: map<nat, int>) {
    m0 in made && forall m | m in made :: m0 <= m
  }

  /** The first element cannot be looked up: it is still there, and nothing was ever deleted. */
  predicate Stranded(s: State, m0: nat) {
    && IsFirst(m0, s.made) && !Finds(s.lookup, m0)
    && m0 in s.nodes && s.removed == []
  }

  lemma FoundAbove(lookup: Lookup, m: nat, n: nat)
    requires m <= n && Finds(lookup, m)
    ensures Finds(lookup, n)
  {
    FoundIff(m);
    FoundIff(n);
  }

  /** While the first element is stranded no look-up succeeds. */
  lemma StrandedMisses(s: State, m0: nat, c: nat)
    requires Inv(s) && Stranded(s, m0) && c < |s.consumer|
    requires s.consumer[c].pc.Picked? || s.consumer[c].pc.Read?
    ensures !Hit(s, s.consumer[c].pc.num)
  {
    hide Finds, PutInt;
    assert ConsumerInv(s.nodes, s.made, s.consumer[c]);
    assert StillMin(s.nodes, s.made, s.consumer[c].pc.num);
  }

  lemma StrandedStep(s: State, a: Action, m0: nat)
    requires Inv(s) && Stranded(s, m0) && Enabled(s, a)
    ensures Stranded(Apply(s, a), m0)
  {
    hide Finds, PutInt, GetInt;
    if a.Delete? {
      StrandedMisses(s, m0, a.c);
    }
    assert a.Produce? ==> m0 < s.next;
  }

  /** Nobody holds anything when nothing was deleted. */
  lemma StrandedHolds(s: State, m0: nat, c: nat)
    requires Inv(s) && Stranded(s, m0) && c < |s.consumer|
    ensures s.consumer[c].nums == [] && !s.consumer[c].pc.Took?
  {
    var q := s.consumer[c];
    if q.nums != [] {
      assert Holds(q, q.nums[0]);
    } else if q.pc.Took? {
      assert Holds(q, q.pc.num);
    }
  }

  lemma SameLookup(s: State, a: Action)
    requires Enabled(s, a)
    ensures Apply(s, a).lookup == s.lookup
  {
    hide PutInt, GetInt;
  }

  lemma MadeGrows(s: State, a: Action)
    requires Enabled(s, a)
    ensures Apply(s, a).made == if a.Produce? then s.made[a.num := a.value] else s.made
    ensures a.Produce? ==> Apply(s, a).nodes == s.nodes[a.num := PutInt(a.value)] && Apply(s, a).removed == s.removed
  {
    hide PutInt, GetInt;
  }

  /** A production creates the first element or a later one. */
  lemma FirstStays(s: State, a: Action, m0: nat)
    requires Inv(s) && Enabled(s, a) && IsFirst(m0, Apply(s, a).made)
    ensures IsFirst(m0, s.made) || (s.made == map[] && a.Produce? && a.num == m0)
  {
    hide Apply, PutInt, IsFirst;
    MadeGrows(s, a);
    if a.Produce? {
      FirstInMap(s.made, a.num, a.value, m0);
    }
  }

  lemma FirstInMap(made: map<nat, int>, num: nat, value: int, m0: nat)
    requires (forall m | m in made :: m < num) && IsFirst(m0, made[num := value])
    ensures IsFirst(m0, made) || (made == map[] && num == m0)
  {
    var all := made[num := value];
    forall m | m in made ensures m0 <= m < num && m0 in made {
      assert m in all;
    }
  }

  lemma FirstStrands(s: State, a: Action, m0: nat)
    requires Inv(s) && Enabled(s, a) && s.made == map[] && a.Produce? && a.num == m0
    requires IsFirst(m0, Apply(s, a).made) && !Finds(s.lookup, m0)
    ensures Stranded(Apply(s, a), m0)
  {
    hide Apply, Finds, PutInt;
    MadeGrows(s, a);
    SameLookup(s, a);
    assert |s.made| == |s.nodes| + |s.removed|;
  }

  /** The first element of a run, once it cannot be looked up, is stranded in every later state. */
  lemma {:induction false} FirstDecides(run: seq<State>, k: nat, m0: nat)
    requires IsRun(run) && k < |run| && IsFirst(m0, run[k].made) && !Finds(run[k].lookup, m0)
    ensures Stranded(run[k], m0)
  {
    hide Enabled, Apply, Inv, Init, Stranded, IsFirst;
    RunInv(run, k);
    if k == 0 {
      NothingMade(run[0], m0);
      assert false;
    } else {
      var s := run[k - 1];
      RunInv(run, k - 1);
      assert Next(s, run[k - 1 + 1]);
      var a :| Enabled(s, a) && run[k] == Apply(s, a);
      SameLookup(s, a);
      FirstStays(s, a, m0);
      if IsFirst(m0, s.made) {
        FirstDecides(run, k - 1, m0);
        StrandedStep(s, a, m0);
      } else {
        FirstStrands(s, a, m0);
      }
    }
  }

  lemma NothingMade(s: State, m0: nat)
    requires Init(s)
    ensures !IsFirst(m0, s.made)
  {
  }

  // ---------------------------------------------------------------- main results

  /** For the code's own look-up by name: if the first element ever created has at least ten digits, every
      node can be looked up; otherwise it stays, and nothing is ever deleted, held or returned. */
  lemma FirstElementDecides(run: seq<State>, k: nat, m0: nat)
    requires IsRun(run) && k < |run| && run[k].lookup.ByName? && IsFirst(m0, run[k].made)
    ensures m0 >= 1_000_000_000 ==> NodesFound(run[k])
    ensures m0 < 1_000_000_000 ==>
              && m0 in run[k].nodes && run[k].removed == []
              && forall c | 0 <= c < |run[k].consumer| ::
                   run[k].consumer[c].nums == [] && !run[k].consumer[c].pc.Took?
  {
    hide Inv, Found, PutInt;
    var s := run[k];
    RunInv(run, k);
    FoundIff(m0);
    if m0 >= 1_000_000_000 {
      forall m | m in s.nodes ensures Finds(s.lookup, m) {
        NodeWasMade(s, m);
        FoundAbove(s.lookup, m0, m);
      }
    } else {
      FirstDecides(run, k, m0);
      forall c | 0 <= c < |s.consumer| ensures s.consumer[c].nums == [] && !s.consumer[c].pc.Took? {
        StrandedHolds(s, m0, c);
      }
    }
  }

  lemma NodeWasMade(s: State, m: nat)
    requires Inv(s) && m in s.nodes
    ensures m in s.made
  {
    hide PutInt;
  }

  /** A consumer that wants an element, while the first one is stranded. */
  ghost predicate Hungry(s: State, m0: nat, c: nat) {
    Inv(s) && Stranded(s, m0) && c < |s.consumer| && s.consumer[c].left > 0
  }

  /** Such a consumer never comes to rest: there is always something that can be done. */
  lemma HungryMoves(s: State, m0: nat, c: nat) returns (a: Action)
    requires Hungry(s, m0, c)
    ensures Calm(a) && Enabled(s, a) && Hungry(Apply(s, a), m0, c)
  {
    hide Inv, Apply, PutInt, GetInt, Finds;
    ConsumerOf(s, c);
    if Quiescent(s) {
      AtRest(s, c);
      assert false;
    }
    a :| Calm(a) && Enabled(s, a);
    StepInv(s, a);
    StrandedStep(s, a, m0);
    SameConsumers(s, a);
    StillHungry(s, a, m0, c);
  }

  lemma ConsumerOf(s: State, c: nat)
    requires Inv(s) && c < |s.consumer|
    ensures ConsumerInv(s.nodes, s.made, s.consumer[c])
  {
  }

  lemma StillHungry(s: State, a: Action, m0: nat, c: nat)
    requires Hungry(s, m0, c) && Calm(a) && Enabled(s, a)
    ensures |Apply(s, a).consumer| == |s.consumer| && Apply(s, a).consumer[c].left > 0
  {
    hide PutInt, GetInt, Finds, Inv;
    StrandedHolds(s, m0, c);
  }

  /** Nothing but retries, for as long as one likes. */
  lemma {:induction false} RetriesForEver(s: State, m0: nat, c: nat, n: nat) returns (run: seq<State>)
    requires Hungry(s, m0, c)
    ensures CalmRun(run) && run[0] == s && |run| == n + 1
    decreases n
  {
    hide Hungry, Enabled, Apply;
    if n == 0 {
      run := [s];
    } else {
      var a := HungryMoves(s, m0, c);
      var rest := RetriesForEver(Apply(s, a), m0, c, n - 1);
      run := [s] + rest;
      assert CalmNext(s, rest[0]);
      forall i, j | 0 <= i < |run| && j == i + 1 < |run| ensures CalmNext(run[i], run[j]) {
        assert i > 0 ==> CalmNext(rest[i - 1], rest[j - 1]);
      }
    }
  }

  ghost predicate AtMost(s: State, n: nat) {
    forall run | CalmRun(run) && run[0] == s :: |run| <= n + 1
  }

  /** Once the producers have stopped, the consumers come to rest exactly when every node has the name
      that is asked for, or nobody wants an element; otherwise they retry for ever. */
  lemma ComesToRestIff(run: seq<State>, k: nat)
    requires IsRun(run) && k < |run|
    ensures (exists n: nat :: AtMost(run[k], n)) <==> Sighted(run[k])
  {
    hide Inv, Rank, CalmNext, Stranded, Finds, Init;
    var s := run[k];
    RunInv(run, k);
    if Sighted(s) {
      forall calm | CalmRun(calm) && calm[0] == s ensures |calm| <= Rank(s) + 1 {
        RunBounded(calm);
      }
      assert AtMost(s, Rank(s));
    } else {
      var c: nat :| c < |s.consumer| && s.consumer[c].left != 0;
      var m0 := FirstMissed(run, k);
      forall n: nat ensures !AtMost(s, n) {
        LongerStill(s, m0, c, n);
      }
    }
  }

  lemma LongerStill(s: State, m0: nat, c: nat, n: nat)
    requires Hungry(s, m0, c)
    ensures !AtMost(s, n)
  {
    hide Hungry, CalmNext;
    var run := RetriesForEver(s, m0, c, n + 1);
  }

  lemma FirstMissed(run: seq<State>, k: nat) returns (m0: nat)
    requires IsRun(run) && k < |run| && !NodesFound(run[k])
    ensures Stranded(run[k], m0)
  {
    hide Inv, Finds, PutInt, Stranded, Init;
    var s := run[k];
    RunInv(run, k);
    var m :| m in s.nodes && !Finds(s.lookup, m);
    NodeWasMade(s, m);
    m0 := MinExists(s.made.Keys);
    if Finds(s.lookup, m0) {
      FoundAbove(s.lookup, m0, m);
    }
    FirstDecides(run, k, m0);
  }

  /** The same for the code's own look-up, by the numbers of the elements that were ever created. */
  lemma ComesToRestByNumber(run: seq<State>, k: nat)
    requires IsRun(run) && k < |run| && run[k].lookup.ByName?
    ensures (exists n: nat :: AtMost(run[k], n)) <==>
              NobodyWants(run[k]) || forall m | m in run[k].made :: m >= 1_000_000_000
  {
    hide Inv, Found, AtMost, Init, PutInt;
    var s := run[k];
    RunInv(run, k);
    ComesToRestIff(run, k);
    if forall m | m in s.made :: m >= 1_000_000_000 {
      forall m | m in s.nodes ensures Finds(s.lookup, m) {
        NodeWasMade(s, m);
        FoundIff(m);
      }
    } else {
      var m0 := MinExists(s.made.Keys);
      FirstElementDecides(run, k, m0);
      FoundIff(m0);
    }
  }

  /** One element below 1000000000 and one consumer that wants it: the shortest retry for ever. */
  lemma OneElementRetries(value: int) returns (run: seq<State>)
    requires -0x8000_0000 <= value < 0x8000_0000
    ensures IsRun(run) && |run| == 2 && run[1].made == map[0 := value] && |run[1].consumer| == 1
    ensures !exists n: nat :: AtMost(run[1], n)
  {
    var s := State(ByName, map[], 0, map[], [], [Consumer(Ready, 1, [], [], false, 0)]);
    var a := Produce(0, value);
    run := [s, Apply(s, a)];
    assert Next(run[0], run[0 + 1]);
    FoundIff(0);
    assert 0 in run[1].nodes && run[1].consumer[0].left == 1;
    ComesToRestIff(run, 1);
  }
}
