/** How runs of the double barrier end: every run without spurious wake-ups is finite, and every split
    of the participants into some left behind and some ahead is the end of some run. */
module BarrierProgress {
  import opened DoubleBarrier

  // ---------------------------------------------------------------- termination

  function PcRank(pc: Pc): nat {
    match pc
    case Listed(_) => 1
    case Locked(_) => 2
    case Outside(_) => 3
    case Unlocking(_) => 4
    case Woken(_) => 5
    case _ => 0
  }

  function HandlerRank(h: Handler): nat {
    match h
    case Idle => 0
    case Notified => 1
    case Holding => 7
  }

  /** The weight of the creation and the deletion the participant has still to perform; each can
      queue an event for every participant. */
  function ChangesLeft(pc: Pc, size: nat): nat {
    if pc.Start? then 16 * size + 8 else if Present(pc) then 8 * size + 4 else 0
  }

  function PartRank(q: Part, size: nat): nat {
    ChangesLeft(q.pc, size) + 8 * q.pending + HandlerRank(q.handler) + PcRank(q.pc)
  }

  function Rank(part: seq<Part>, size: nat): nat {
    if part == [] then 0 else PartRank(part[0], size) + Rank(part[1..], size)
  }

  lemma {:induction false} RankUpdate(part: seq<Part>, size: nat, i: nat, q: Part)
    requires i < |part|
    ensures Rank(part[i := q], size) == Rank(part, size) - PartRank(part[i], size) + PartRank(q, size)
  {
    if i == 0 {
      assert part[0 := q][1..] == part[1..];
    } else {
      RankUpdate(part[1..], size, i - 1, q);
      assert part[i := q][1..] == part[1..][i - 1 := q];
    }
  }

  lemma {:induction false} RankFire(part: seq<Part>, size: nat)
    ensures Rank(Fire(part), size) <= Rank(part, size) + 8 * |part|
  {
    if part != [] {
      RankFire(part[1..], size);
      assert Fire(part)[1..] == Fire(part[1..]);
    }
  }

  lemma ChangeRank(s: State, a: Action)
    requires Enabled(s, a) && (a.Create? || a.Delete?)
    ensures Rank(Apply(s, a).part, |s.part|) < Rank(s.part, |s.part|)
  {
    var q' := s.part[a.p].(pc := Outside(if a.Create? then Enter else Leave));
    RankUpdate(s.part, |s.part|, a.p, q');
    RankFire(s.part[a.p := q'], |s.part|);
  }

  /** Every step other than a spurious wake-up brings the end of the run nearer. */
  lemma StepRank(s: State, a: Action)
    requires Enabled(s, a) && !a.Spurious?
    ensures Rank(Apply(s, a).part, |s.part|) < Rank(s.part, |s.part|)
  {
    if a.Create? || a.Delete? {
      ChangeRank(s, a);
    } else {
      var q' := Apply(s, a).part[a.p];
      assert Apply(s, a).part == s.part[a.p := q'];
      assert PartRank(q', |s.part|) < PartRank(s.part[a.p], |s.part|);
      RankUpdate(s.part, |s.part|, a.p, q');
    }
  }

  ghost predicate CalmNext(s: State, t: State) {
    exists a: Action :: !a.Spurious? && Enabled(s, a) && t == Apply(s, a)
  }

  ghost predicate CalmRun(run: seq<State>) {
    && |run| > 0
    && forall i | 0 <= i < |run| - 1 :: CalmNext(run[i], run[i + 1])
  }

  lemma CalmStepRank(s: State, t: State)
    requires CalmNext(s, t)
    ensures |t.part| == |s.part| && Rank(t.part, |t.part|) < Rank(s.part, |s.part|)
  {
    var a: Action :| !a.Spurious? && Enabled(s, a) && t == Apply(s, a);
    StepRank(s, a);
  }

  /** A run without spurious wake-ups has at most Rank steps, whatever the schedule. */
  lemma {:induction false} RunBounded(run: seq<State>)
    requires CalmRun(run)
    ensures |run| <= Rank(run[0].part, |run[0].part|) + 1
    decreases |run|
  {
    if |run| > 1 {
      assert CalmNext(run[0], run[0 + 1]);
      CalmStepRank(run[0], run[1]);
      var rest := run[1..];
      forall i | 0 <= i < |rest| - 1 ensures CalmNext(rest[i], rest[i + 1]) {
        assert CalmNext(run[i + 1], run[(i + 1) + 1]);
      }
      RunBounded(rest);
    }
  }

  // ---------------------------------------------------------------- full lists

  lemma {:induction false} AllThere(list: set<nat>, n: nat)
    requires forall j | 0 <= j < n :: j in list
    ensures |list| >= n
  {
    if n > 0 {
      AllThere(list - {n - 1}, n - 1);
    }
  }

  lemma SomeMissing(list: set<nat>, n: nat) returns (j: nat)
    requires |list| < n
    ensures j < n && j !in list
  {
    if forall i | 0 <= i < n :: i in list {
      AllThere(list, n);
    }
    j :| j < n && j !in list;
  }

  // ---------------------------------------------------------------- every split is reached

  lemma ReachRefl(s: State)
    ensures Reaches(s, s)
  {
    assert IsRun([s]);
  }

  lemma ReachStep(s: State, t: State, a: Action) returns (u: State)
    requires Reaches(s, t) && Enabled(t, a)
    ensures u == Apply(t, a) && Reaches(s, u)
  {
    u := Apply(t, a);
    var run :| IsRun(run) && run[0] == s && run[|run| - 1] == t;
    var run' := run + [u];
    forall i | 0 <= i < |run'| - 1 ensures Next(run'[i], run'[i + 1]) {
      if i < |run| - 1 {
        assert Next(run[i], run[i + 1]);
      } else {
        assert run'[i] == t && run'[i + 1] == u;
      }
    }
    assert IsRun(run') && run'[0] == s && run'[|run'| - 1] == u;
  }

  /** No mutex is held and nobody is inside process. */
  predicate Calm(s: State) {
    forall i | 0 <= i < |s.part| :: s.part[i].lock.Free? && s.part[i].handler.Idle?
  }

  /** One participant, outside its mutex, takes the mutex, lists the children and decides. */
  lemma Look(s: State, t: State, i: nat) returns (u: State)
    requires Reaches(s, t) && Calm(t) && i < |t.part| && t.part[i].pc.Outside?
    ensures Reaches(s, u) && Calm(u) && u.children == t.children
    ensures |u.part| == |t.part| && u.part == t.part[i := u.part[i]]
    ensures u.part[i].pending == t.part[i].pending
    ensures u.part[i].pc ==
              if MustWait(t.part[i].pc.phase, t.children, |t.part|) then Waiting(t.part[i].pc.phase)
              else if t.part[i].pc.phase.Enter? then Entered else Done
  {
    u := ReachStep(s, t, Acquire(i));
    u := ReachStep(s, u, GetChildren(i));
    u := ReachStep(s, u, Decide(i));
  }

  /** One event is handled by a participant that is not waiting. */
  lemma {:induction false} Drain(s: State, t: State, i: nat) returns (u: State)
    requires Reaches(s, t) && Calm(t) && i < |t.part| && t.part[i].pc.Outside?
    ensures Reaches(s, u) && Calm(u) && u.children == t.children
    ensures u.part == t.part[i := t.part[i].(pending := 0)]
    decreases t.part[i].pending
  {
    if t.part[i].pending == 0 {
      u := t;
      assert u.part == t.part[i := t.part[i].(pending := 0)];
    } else {
      u := ReachStep(s, t, TakeEvent(i));
      u := ReachStep(s, u, Notify(i));
      u := ReachStep(s, u, Release(i));
      u := Drain(s, u, i);
    }
  }

  lemma {:induction false} CreateAll(s: State, m: nat) returns (t: State)
    requires Init(s) && m <= |s.part|
    ensures Reaches(s, t) && Calm(t) && |t.part| == |s.part|
    ensures forall j: nat :: j in t.children <==> j < m
    ensures forall i | 0 <= i < |s.part| :: t.part[i].pc == if i < m then Outside(Enter) else Start
  {
    if m == 0 {
      t := s;
      ReachRefl(s);
    } else {
      var u := CreateAll(s, m - 1);
      t := ReachStep(s, u, Create(m - 1));
    }
  }

  /** All but the participants in e return from enter. */
  lemma {:induction false} OthersEnter(s: State, e: set<nat>, m: nat) returns (t: State)
    requires Init(s) && m <= |s.part|
    ensures Reaches(s, t) && Calm(t) && |t.part| == |s.part|
    ensures forall j: nat :: j in t.children <==> j < |s.part|
    ensures forall i | 0 <= i < |s.part| ::
              t.part[i].pc == if i < m && i !in e then Entered else Outside(Enter)
  {
    if m == 0 {
      t := CreateAll(s, |s.part|);
    } else {
      t := OthersEnter(s, e, m - 1);
      if m - 1 !in e {
        AllThere(t.children, |t.part|);
        t := Look(s, t, m - 1);
      }
    }
  }

  /** They all delete their nodes before the participants in e look again. */
  lemma {:induction false} OthersDelete(s: State, e: set<nat>, m: nat) returns (t: State)
    requires Init(s) && m <= |s.part|
    ensures Reaches(s, t) && Calm(t) && |t.part| == |s.part|
    ensures forall j: nat :: j in t.children <==> j < |s.part| && (j in e || j >= m)
    ensures forall i | 0 <= i < |s.part| ::
              t.part[i].pc == if i in e then Outside(Enter) else if i < m then Outside(Leave) else Entered
  {
    if m == 0 {
      t := OthersEnter(s, e, |s.part|);
    } else {
      t := OthersDelete(s, e, m - 1);
      if m - 1 !in e {
        t := ReachStep(s, t, Delete(m - 1));
      }
    }
  }

  lemma {:induction false} DrainAll(s: State, e: set<nat>, m: nat) returns (t: State)
    requires Init(s) && m <= |s.part|
    ensures Reaches(s, t) && Calm(t) && |t.part| == |s.part|
    ensures forall j: nat :: j in t.children <==> j < |s.part| && j in e
    ensures forall i | 0 <= i < |s.part| :: t.part[i].pc == Outside(if i in e then Enter else Leave)
    ensures forall i | 0 <= i < m :: t.part[i].pending == 0
  {
    if m == 0 {
      t := OthersDelete(s, e, |s.part|);
    } else {
      t := DrainAll(s, e, m - 1);
      t := Drain(s, t, m - 1);
    }
  }

  lemma {:induction false} AllLook(s: State, e: set<nat>, m: nat) returns (t: State)
    requires Init(s) && m <= |s.part|
    requires (forall i | i in e :: i < |s.part|) && 0 < |e| < |s.part|
    ensures Reaches(s, t) && Calm(t) && |t.part| == |s.part| && t.children == e
    ensures forall i | 0 <= i < |s.part| :: t.part[i].pending == 0
    ensures forall i | 0 <= i < |s.part| ::
              var ph := if i in e then Enter else Leave;
              t.part[i].pc == if i < m then Waiting(ph) else Outside(ph)
  {
    if m == 0 {
      t := DrainAll(s, e, |s.part|);
      assert t.children == e;
    } else {
      t := AllLook(s, e, m - 1);
      t := Look(s, t, m - 1);
    }
  }

  /** From every initial state, and for every non-empty proper subset e of the participants, there
      is a run that ends for good with e waiting in enter and the others waiting in leave. */
  lemma EverySplitHappens(s: State, e: set<nat>) returns (t: State)
    requires Init(s) && (forall i | i in e :: i < |s.part|) && 0 < |e| < |s.part|
    ensures Reaches(s, t) && |t.part| == |s.part| && Split(t, e) && Quiescent(t)
  {
    t := AllLook(s, e, |s.part|);
    assert Reachable(t);
    QuiescentIff(t);
  }
}
