/** The ZooKeeper producer-consumer queue as a step system with any number of producers and
    consumers.  An element node is identified by the sequence number ZooKeeper gave it.  A consumer looks
    it up by the name that consume rebuilds, or, as it means to, by the number itself; what is proved in
    this module holds for both. */
module ElementQueue {
  import opened Bits
  import opened ElementName

  // ---------------------------------------------------------------- node data

  /** ByteBuffer.putInt: four signed bytes, most significant first. */
  function PutInt(v: int): (b: seq<int>)
    ensures |b| == 4
  {
    [ToByte(v / 0x100_0000), ToByte(v / 0x1_0000), ToByte(v / 0x100), ToByte(v)]
  }

  /** ByteBuffer.getInt */
  function GetInt(b: seq<int>): int
    requires |b| == 4
  {
    ToInt((b[0] % 256) * 0x100_0000 + (b[1] % 256) * 0x1_0000 + (b[2] % 256) * 0x100 + b[3] % 256)
  }

  lemma ByteMod(x: int)
    ensures ToByte(x) % 256 == x % 256
  {
  }

  lemma GetPutInt(v: int)
    requires -0x8000_0000 <= v < 0x8000_0000
    ensures GetInt(PutInt(v)) == v
  {
    ByteMod(v / 0x100_0000);
    ByteMod(v / 0x1_0000);
    ByteMod(v / 0x100);
    ByteMod(v);
    var a, b, c := v / 0x100_0000, v / 0x1_0000, v / 0x100;
    assert a == b / 256 && b == c / 256 && c == v / 256;
    assert a % 256 == if v >= 0 then a else a + 256;
  }

  /** The most significant byte comes first and carries the sign. */
  lemma BigEndian(v: int, b: seq<int>)
    requires -0x8000_0000 <= v < 0x8000_0000 && b == PutInt(v)
    ensures forall i | 0 <= i < 4 :: -128 <= b[i] < 128
    ensures v == b[0] * 0x100_0000 + b[1] % 256 * 0x1_0000 + b[2] % 256 * 0x100 + b[3] % 256
  {
    var a, c, d := v / 0x100_0000, v / 0x1_0000, v / 0x100;
    ByteMod(c);
    ByteMod(d);
    ByteMod(v);
    assert a == c / 256 && c == d / 256 && d == v / 256;
    assert -128 <= a < 128;
  }

  // ---------------------------------------------------------------- steps

  datatype Pc =
    | Ready                                // queueTest is about to call consume (again)
    | Locked                               // inside synchronized, before getChildren
    | Listed(list: set<nat>)               // getChildren has returned, watch set
    | Picked(num: nat)                     // the loop has found the minimum
    | Read(num: nat, data: seq<int>)       // getData has returned
    | Took(num: nat, data: seq<int>)       // delete has succeeded, not yet returned
    | Failed                               // getData or delete threw KeeperException
    | Waiting                              // in mutex.wait()

  /** left is max - i of queueTest; nums and values log what consume has returned. */
  datatype Consumer = Consumer(pc: Pc, left: nat, nums: seq<nat>, values: seq<int>, watch: bool, pending: nat)

  /** ByName is what the code does. */
  datatype Lookup = ByName | ByNumber

  predicate Finds(lookup: Lookup, num: nat) {
    lookup.ByName? ==> Found(num)
  }

  /** made and removed are the history of successful creations and deletions. */
  datatype State = State(
    lookup: Lookup,
    nodes: map<nat, seq<int>>,
    next: nat,
    made: map<nat, int>,
    removed: seq<nat>,
    consumer: seq<Consumer>)

  datatype Action =
    | Produce(num: nat, value: int)
    | Lock(c: nat)
    | List(c: nat)
    | GoWait(c: nat)
    | Pick(c: nat, min: nat)
    | GetData(c: nat)
    | Delete(c: nat)
    | Return(c: nat)
    | Retry(c: nat)
    | Notify(c: nat)                       // process takes the mutex, notifies, releases
    | Spurious(c: nat)

  predicate HoldsMutex(pc: Pc) {
    !pc.Ready? && !pc.Waiting?
  }

  function Fire(consumer: seq<Consumer>): (r: seq<Consumer>)
    ensures |r| == |consumer|
  {
    seq(|consumer|, i requires 0 <= i < |consumer| =>
      if consumer[i].watch then consumer[i].(watch := false, pending := consumer[i].pending + 1) else consumer[i])
  }

  predicate Init(s: State) {
    && s.nodes == map[] && s.made == map[] && s.removed == []
    && forall i | 0 <= i < |s.consumer| ::
         s.consumer[i].pc == Ready && s.consumer[i].nums == [] && s.consumer[i].values == [] && !s.consumer[i].watch
  }

  predicate IsMin(m: nat, list: set<nat>) {
    m in list && forall k | k in list :: m <= k
  }

  /** getData and delete succeed for this number. */
  predicate Hit(s: State, num: nat) {
    num in s.nodes && Finds(s.lookup, num)
  }

  predicate Enabled(s: State, a: Action) {
    if a.Produce? then
      a.num >= s.next && -0x8000_0000 <= a.value < 0x8000_0000
    else
      && a.c < |s.consumer|
      && var q := s.consumer[a.c];
         match a
         case Lock(_) => q.pc.Ready? && q.left > 0
         case List(_) => q.pc.Locked?
         case GoWait(_) => q.pc.Listed? && q.pc.list == {}
         case Pick(_, m) => q.pc.Listed? && IsMin(m, q.pc.list)
         case GetData(_) => q.pc.Picked?
         case Delete(_) => q.pc.Read?
         case Return(_) => q.pc.Took? && |q.pc.data| == 4 && q.left > 0
         case Retry(_) => q.pc.Failed?
         case Notify(_) => q.pending > 0 && !HoldsMutex(q.pc)
         case Spurious(_) => q.pc.Waiting?
  }

  function Apply(s: State, a: Action): State
    requires Enabled(s, a)
  {
    if a.Produce? then
      s.(nodes := s.nodes[a.num := PutInt(a.value)], made := s.made[a.num := a.value], next := a.num + 1,
         consumer := Fire(s.consumer))
    else
      var c, q := a.c, s.consumer[a.c];
      match a
      case Lock(_) => s.(consumer := s.consumer[c := q.(pc := Locked)])
      case List(_) => s.(consumer := s.consumer[c := q.(pc := Listed(s.nodes.Keys), watch := true)])
      case GoWait(_) => s.(consumer := s.consumer[c := q.(pc := Waiting)])
      case Pick(_, m) => s.(consumer := s.consumer[c := q.(pc := Picked(m))])
      case GetData(_) =>
        var m := q.pc.num;
        s.(consumer := s.consumer[c := q.(pc := if Hit(s, m) then Read(m, s.nodes[m]) else Failed)])
      case Delete(_) =>
        var m := q.pc.num;
        if Hit(s, m) then
          s.(nodes := s.nodes - {m}, removed := s.removed + [m],
             consumer := Fire(s.consumer[c := q.(pc := Took(m, q.pc.data))]))
        else
          s.(consumer := s.consumer[c := q.(pc := Failed)])
      case Return(_) =>
        s.(consumer := s.consumer[c := q.(pc := Ready, left := q.left - 1,
                                          nums := q.nums + [q.pc.num], values := q.values + [GetInt(q.pc.data)])])
      case Retry(_) => s.(consumer := s.consumer[c := q.(pc := Ready)])
      case Notify(_) =>
        s.(consumer := s.consumer[c := q.(pending := q.pending - 1, pc := if q.pc.Waiting? then Ready else q.pc)])
      case Spurious(_) => s.(consumer := s.consumer[c := q.(pc := Ready)])
  }

  ghost predicate Next(s: State, t: State) {
    exists a :: Enabled(s, a) && t == Apply(s, a)
  }

  ghost predicate IsRun(run: seq<State>) {
    && |run| > 0
    && Init(run[0])
    && forall i | 0 <= i < |run| - 1 :: Next(run[i], run[i + 1])
  }

  // ---------------------------------------------------------------- invariant

  predicate Increasing(r: seq<nat>) {
    forall i, j | 0 <= i < j < |r| :: r[i] < r[j]
  }

  /** The consumer has deleted element k: it has returned it or is about to. */
  predicate Holds(q: Consumer, k: nat) {
    k in q.nums || (q.pc.Took? && q.pc.num == k)
  }

  function HeldCount(q: Consumer): nat {
    |q.nums| + if q.pc.Took? then 1 else 0
  }

  function AllHeld(consumer: seq<Consumer>): nat {
    if consumer == [] then 0 else HeldCount(consumer[0]) + AllHeld(consumer[1..])
  }

  /** While num exists it is the smallest node. */
  predicate StillMin(nodes: map<nat, seq<int>>, made: map<nat, int>, num: nat) {
    && num in made
    && (num in nodes ==> forall k | k in nodes :: num <= k)
  }

  predicate ConsumerInv(nodes: map<nat, seq<int>>, made: map<nat, int>, q: Consumer) {
    && |q.nums| == |q.values|
    && (forall i | 0 <= i < |q.nums| ::
          q.nums[i] in made && made[q.nums[i]] == q.values[i])
    && Increasing(q.nums)
    && (HoldsMutex(q.pc) ==> q.left > 0)
    && (q.pc.Waiting? ==> q.left > 0 && ((q.watch && nodes == map[]) || q.pending > 0))
    && match q.pc
       case Listed(list) =>
         && (forall l | l in list :: l in made)
         && (forall k, l | k in nodes && k !in list && l in list :: l < k)
         && (list == {} ==> (q.watch && nodes == map[]) || q.pending > 0)
       case Picked(m) => StillMin(nodes, made, m)
       case Read(m, data) => StillMin(nodes, made, m) && data == PutInt(made[m])
       case Took(m, data) =>
         && m in made && data == PutInt(made[m])
         && (forall i | 0 <= i < |q.nums| :: q.nums[i] < m)
       case _ => true
  }

  predicate DataInv(s: State) {
    && (forall k | k in s.made :: k < s.next && -0x8000_0000 <= s.made[k] < 0x8000_0000)
    && (forall k | k in s.nodes :: k in s.made && s.nodes[k] == PutInt(s.made[k]))
  }

  /** What was created is either still there or was deleted. */
  predicate PartitionInv(s: State) {
    && (forall k | k in s.made :: k in s.nodes || k in s.removed)
    && (forall r | r in s.removed :: r in s.made && r !in s.nodes)
    && |s.made| == |s.nodes| + |s.removed|
  }

  /** Deletions happen in creation order, and what is left was created after all that is gone. */
  predicate OrderInv(s: State) {
    && Increasing(s.removed)
    && (forall r, k | r in s.removed && k in s.nodes :: r < k)
  }

  predicate NodesInv(s: State) {
    DataInv(s) && PartitionInv(s) && OrderInv(s)
  }

  /** Every deleted element is held by exactly one consumer. */
  ghost predicate OwnerInv(s: State) {
    && (forall c, k | 0 <= c < |s.consumer| && Holds(s.consumer[c], k) :: k in s.removed)
    && (forall c, d, k | 0 <= c < |s.consumer| && 0 <= d < |s.consumer|
                         && Holds(s.consumer[c], k) && Holds(s.consumer[d], k) :: c == d)
    && (forall k | k in s.removed :: exists c :: 0 <= c < |s.consumer| && Holds(s.consumer[c], k))
    && AllHeld(s.consumer) == |s.removed|
  }

  predicate ConsumersInv(s: State) {
    forall i | 0 <= i < |s.consumer| :: ConsumerInv(s.nodes, s.made, s.consumer[i])
  }

  ghost predicate Inv(s: State) {
    NodesInv(s) && OwnerInv(s) && ConsumersInv(s)
  }

  lemma {:induction false} HeldUpdate(consumer: seq<Consumer>, c: nat, q: Consumer)
    requires c < |consumer|
    ensures AllHeld(consumer[c := q]) == AllHeld(consumer) - HeldCount(consumer[c]) + HeldCount(q)
  {
    if c == 0 {
      assert consumer[c := q][1..] == consumer[1..];
    } else {
      HeldUpdate(consumer[1..], c - 1, q);
      assert consumer[c := q][1..] == consumer[1..][c - 1 := q];
    }
  }

  lemma {:induction false} HeldFire(consumer: seq<Consumer>)
    ensures AllHeld(Fire(consumer)) == AllHeld(consumer)
  {
    if consumer != [] {
      HeldFire(consumer[1..]);
      assert Fire(consumer)[1..] == Fire(consumer[1..]);
    }
  }

  lemma {:induction false} EmptyHeld(consumer: seq<Consumer>)
    requires forall i | 0 <= i < |consumer| :: consumer[i].pc == Ready && consumer[i].nums == []
    ensures AllHeld(consumer) == 0
  {
    if consumer != [] {
      assert consumer[0].nums == [];
      EmptyHeld(consumer[1..]);
    }
  }

  lemma InitInv(s: State)
    requires Init(s)
    ensures Inv(s)
  {
    EmptyHeld(s.consumer);
  }

  lemma ProducePartition(s: State, a: Action)
    requires PartitionInv(s) && a.Produce? && Enabled(s, a) && a.num !in s.made && a.num !in s.nodes
    ensures PartitionInv(Apply(s, a))
  {
    var t := Apply(s, a);
    assert t.made.Keys == s.made.Keys + {a.num};
    assert t.nodes.Keys == s.nodes.Keys + {a.num};
  }

  lemma ProduceData(s: State, a: Action)
    requires DataInv(s) && a.Produce? && Enabled(s, a)
    ensures DataInv(Apply(s, a)) && a.num !in s.made && a.num !in s.nodes
  {
    hide PutInt, GetInt, Finds, Fire;
  }

  lemma ProduceOrder(s: State, a: Action)
    requires DataInv(s) && PartitionInv(s) && OrderInv(s) && a.Produce? && Enabled(s, a)
    ensures OrderInv(Apply(s, a))
  {
    hide PutInt, GetInt, Finds, Fire;
    assert forall r | r in s.removed :: r in s.made && r < a.num;
  }

  lemma ProduceNodes(s: State, a: Action)
    requires NodesInv(s) && a.Produce? && Enabled(s, a)
    ensures NodesInv(Apply(s, a))
  {
    hide DataInv, PartitionInv, OrderInv, Enabled, Apply;
    ProduceData(s, a);
    ProducePartition(s, a);
    ProduceOrder(s, a);
  }

  lemma ProduceOwner(s: State, a: Action)
    requires OwnerInv(s) && a.Produce? && Enabled(s, a)
    ensures OwnerInv(Apply(s, a))
  {
    var t := Apply(s, a);
    HeldFire(s.consumer);
    SameOwner(s, t);
  }

  /** The owners are the same when nobody's holdings and no deletion changed. */
  lemma SameOwner(s: State, t: State)
    requires OwnerInv(s) && t.removed == s.removed && |t.consumer| == |s.consumer|
    requires forall c, k | 0 <= c < |s.consumer| :: Holds(t.consumer[c], k) <==> Holds(s.consumer[c], k)
    requires AllHeld(t.consumer) == AllHeld(s.consumer)
    ensures OwnerInv(t)
  {
    forall k | k in s.removed ensures exists c :: 0 <= c < |t.consumer| && Holds(t.consumer[c], k) {
      var c :| 0 <= c < |s.consumer| && Holds(s.consumer[c], k);
      assert Holds(t.consumer[c], k);
    }
  }

  lemma ProduceConsumer(s: State, a: Action, i: nat)
    requires NodesInv(s) && a.Produce? && Enabled(s, a)
    requires i < |s.consumer| && ConsumerInv(s.nodes, s.made, s.consumer[i])
    ensures ConsumerInv(Apply(s, a).nodes, Apply(s, a).made, Apply(s, a).consumer[i])
  {
    hide PutInt, GetInt, Finds;
  }

  lemma DeletePartition(s: State, a: Action)
    requires a.Delete? && Enabled(s, a) && Hit(s, s.consumer[a.c].pc.num)
    requires DataInv(s) && PartitionInv(s)
    ensures PartitionInv(Apply(s, a))
  {
    var m, t := s.consumer[a.c].pc.num, Apply(s, a);
    Appended(s.removed, m);
    assert t.nodes.Keys == s.nodes.Keys - {m};
  }

  lemma DeleteOrder(s: State, a: Action)
    requires a.Delete? && Enabled(s, a) && Hit(s, s.consumer[a.c].pc.num)
    requires OrderInv(s)
    requires forall k | k in s.nodes :: s.consumer[a.c].pc.num <= k
    ensures OrderInv(Apply(s, a))
  {
    var m := s.consumer[a.c].pc.num;
    Appended(s.removed, m);
    forall i | 0 <= i < |s.removed| ensures s.removed[i] < m {
      assert s.removed[i] in s.removed;
    }
  }

  lemma Appended(r: seq<nat>, m: nat)
    ensures forall k :: k in r + [m] <==> k in r || k == m
  {
    assert (r + [m])[|r|] == m;
  }

  lemma DeleteOwner(s: State, a: Action)
    requires a.Delete? && Enabled(s, a) && Hit(s, s.consumer[a.c].pc.num)
    requires OwnerInv(s)
    requires s.consumer[a.c].pc.num !in s.removed
    ensures OwnerInv(Apply(s, a))
  {
    var q, t := s.consumer[a.c], Apply(s, a);
    var m, q' := q.pc.num, q.(pc := Took(q.pc.num, q.pc.data));
    HeldUpdate(s.consumer, a.c, q');
    HeldFire(s.consumer[a.c := q']);
    Appended(s.removed, m);
    forall c, k | 0 <= c < |s.consumer|
      ensures Holds(t.consumer[c], k) <==> Holds(s.consumer[c], k) || (c == a.c && k == m)
    {
    }
    assert Holds(t.consumer[a.c], m);
    forall k | k in s.removed ensures exists c :: 0 <= c < |t.consumer| && Holds(t.consumer[c], k) {
      var c :| 0 <= c < |s.consumer| && Holds(s.consumer[c], k);
      assert Holds(t.consumer[c], k);
    }
  }

  lemma DeleteConsumer(s: State, a: Action, i: nat)
    requires a.Delete? && Enabled(s, a) && Hit(s, s.consumer[a.c].pc.num) && i < |s.consumer|
    requires NodesInv(s) && ConsumerInv(s.nodes, s.made, s.consumer[i])
    requires forall k | Holds(s.consumer[a.c], k) :: k in s.removed
    ensures ConsumerInv(Apply(s, a).nodes, Apply(s, a).made, Apply(s, a).consumer[i])
  {
    hide PutInt, GetInt, Finds;
    if i == a.c {
      var q := s.consumer[i];
      forall j | 0 <= j < |q.nums| ensures q.nums[j] < q.pc.num {
        assert Holds(q, q.nums[j]);
      }
    }
  }

  /** Steps that touch neither the nodes nor what their consumer holds. */
  lemma QuietOwner(s: State, a: Action)
    requires OwnerInv(s) && Enabled(s, a) && !a.Produce?
    requires a.Delete? ==> !Hit(s, s.consumer[a.c].pc.num)
    ensures OwnerInv(Apply(s, a))
  {
    var t := Apply(s, a);
    HeldUpdate(s.consumer, a.c, t.consumer[a.c]);
    forall c, k | 0 <= c < |s.consumer| ensures Holds(t.consumer[c], k) <==> Holds(s.consumer[c], k) {
      if c == a.c && a.Return? {
        Appended(s.consumer[c].nums, s.consumer[c].pc.num);
      }
    }
    SameOwner(s, t);
  }

  lemma ReturnConsumer(s: State, a: Action)
    requires a.Return? && Enabled(s, a) && ConsumerInv(s.nodes, s.made, s.consumer[a.c])
    requires forall k | k in s.made :: -0x8000_0000 <= s.made[k] < 0x8000_0000
    ensures ConsumerInv(s.nodes, s.made, Apply(s, a).consumer[a.c])
  {
    GetPutInt(s.made[s.consumer[a.c].pc.num]);
  }

  lemma QuietConsumer(s: State, a: Action)
    requires Enabled(s, a) && !a.Produce? && !a.Return?
    requires a.Delete? ==> !Hit(s, s.consumer[a.c].pc.num)
    requires NodesInv(s) && ConsumerInv(s.nodes, s.made, s.consumer[a.c])
    ensures ConsumerInv(s.nodes, s.made, Apply(s, a).consumer[a.c])
  {
    hide PutInt, GetInt, Finds;
  }

  lemma ProduceStep(s: State, a: Action)
    requires Inv(s) && a.Produce? && Enabled(s, a)
    ensures Inv(Apply(s, a))
  {
    ProduceNodes(s, a);
    ProduceOwner(s, a);
    forall i | 0 <= i < |s.consumer| ensures ConsumerInv(Apply(s, a).nodes, Apply(s, a).made, Apply(s, a).consumer[i]) {
      ProduceConsumer(s, a, i);
    }
  }

  lemma DeleteConsumers(s: State, a: Action)
    requires a.Delete? && Enabled(s, a) && Hit(s, s.consumer[a.c].pc.num)
    requires NodesInv(s) && ConsumersInv(s)
    requires forall k | Holds(s.consumer[a.c], k) :: k in s.removed
    ensures ConsumersInv(Apply(s, a))
  {
    forall i | 0 <= i < |s.consumer| ensures ConsumerInv(Apply(s, a).nodes, Apply(s, a).made, Apply(s, a).consumer[i]) {
      DeleteConsumer(s, a, i);
    }
  }

  lemma DeleteNodes(s: State, a: Action)
    requires a.Delete? && Enabled(s, a) && Hit(s, s.consumer[a.c].pc.num)
    requires NodesInv(s) && ConsumersInv(s)
    ensures NodesInv(Apply(s, a)) && s.consumer[a.c].pc.num !in s.removed
  {
    hide PutInt, GetInt, Finds;
    assert ConsumerInv(s.nodes, s.made, s.consumer[a.c]);
    DeletePartition(s, a);
    DeleteOrder(s, a);
  }

  lemma DeleteStep(s: State, a: Action)
    requires a.Delete? && Enabled(s, a) && Hit(s, s.consumer[a.c].pc.num)
    requires Inv(s)
    ensures Inv(Apply(s, a))
  {
    DeleteNodes(s, a);
    DeleteOwner(s, a);
    DeleteConsumers(s, a);
  }

  lemma StepInv(s: State, a: Action)
    requires Inv(s) && Enabled(s, a)
    ensures Inv(Apply(s, a))
  {
    if a.Produce? {
      ProduceStep(s, a);
    } else if a.Delete? && Hit(s, s.consumer[a.c].pc.num) {
      DeleteStep(s, a);
    } else {
      QuietStep(s, a);
    }
  }

  lemma QuietNodes(s: State, a: Action)
    requires Enabled(s, a) && !a.Produce?
    requires a.Delete? ==> !Hit(s, s.consumer[a.c].pc.num)
    requires NodesInv(s)
    ensures NodesInv(Apply(s, a))
  {
  }

  lemma QuietConsumers(s: State, a: Action)
    requires Enabled(s, a) && !a.Produce?
    requires a.Delete? ==> !Hit(s, s.consumer[a.c].pc.num)
    requires NodesInv(s) && ConsumersInv(s)
    ensures ConsumersInv(Apply(s, a))
  {
    hide ConsumerInv, PutInt, GetInt;
    var t := Apply(s, a);
    assert ConsumerInv(s.nodes, s.made, s.consumer[a.c]);
    if a.Return? { ReturnConsumer(s, a); } else { QuietConsumer(s, a); }
    forall i | 0 <= i < |t.consumer| ensures ConsumerInv(t.nodes, t.made, t.consumer[i]) {
      assert i != a.c ==> t.consumer[i] == s.consumer[i];
    }
  }

  lemma QuietStep(s: State, a: Action)
    requires Enabled(s, a) && !a.Produce?
    requires a.Delete? ==> !Hit(s, s.consumer[a.c].pc.num)
    requires Inv(s)
    ensures Inv(Apply(s, a))
  {
    hide NodesInv, OwnerInv, ConsumersInv, Finds;
    QuietNodes(s, a);
    QuietOwner(s, a);
    QuietConsumers(s, a);
  }

  lemma {:induction false} RunInv(run: seq<State>, k: nat)
    requires IsRun(run) && k < |run|
    ensures Inv(run[k])
  {
    if k == 0 {
      InitInv(run[0]);
    } else {
      RunInv(run, k - 1);
      assert Next(run[k - 1], run[k - 1 + 1]);
      var a :| Enabled(run[k - 1], a) && run[k] == Apply(run[k - 1], a);
      StepInv(run[k - 1], a);
    }
  }

  // ---------------------------------------------------------------- main results

  /** Successful deletes happen in creation order; everything deleted is older than everything left. */
  lemma DeletesInCreationOrder(run: seq<State>, k: nat)
    requires IsRun(run) && k < |run|
    ensures forall i, j | 0 <= i < j < |run[k].removed| :: run[k].removed[i] < run[k].removed[j]
    ensures forall r, n | r in run[k].removed && n in run[k].nodes :: r < n
  {
    RunInv(run, k);
  }

  /** Each created element is either still a node, or some consumer holds it; no element is lost to
      a race and none is made up. */
  lemma NothingLost(run: seq<State>, k: nat, num: nat)
    requires IsRun(run) && k < |run|
    ensures var s := run[k];
            num in s.made <==> num in s.nodes || exists c :: 0 <= c < |s.consumer| && Holds(s.consumer[c], num)
  {
    RunInv(run, k);
    assert PartitionInv(run[k]) && DataInv(run[k]);
    OwnerExists(run[k], num);
  }

  lemma OwnerExists(s: State, num: nat)
    requires OwnerInv(s)
    ensures num in s.removed <==> exists c :: 0 <= c < |s.consumer| && Holds(s.consumer[c], num)
  {
  }

  /** A held element is no longer a node, nobody else holds it, and its holder holds it once. */
  lemma ReturnedAtMostOnce(run: seq<State>, k: nat, c: nat, num: nat)
    requires IsRun(run) && k < |run| && c < |run[k].consumer| && Holds(run[k].consumer[c], num)
    ensures var s, q := run[k], run[k].consumer[c];
            && num !in s.nodes
            && (forall d | 0 <= d < |s.consumer| && Holds(s.consumer[d], num) :: d == c)
            && (forall i, j | 0 <= i < j < |q.nums| :: q.nums[i] != q.nums[j])
            && (q.pc.Took? && q.pc.num == num ==> num !in q.nums)
  {
    hide PutInt, GetInt, Finds;
    RunInv(run, k);
    OwnerUnique(run[k], c, num);
    assert PartitionInv(run[k]);
    assert ConsumerInv(run[k].nodes, run[k].made, run[k].consumer[c]);
  }

  lemma OwnerUnique(s: State, c: nat, num: nat)
    requires OwnerInv(s) && c < |s.consumer| && Holds(s.consumer[c], num)
    ensures num in s.removed
    ensures forall d | 0 <= d < |s.consumer| && Holds(s.consumer[d], num) :: d == c
  {
  }

  /** What consume returns is what produce was given, and each consumer gets elements in creation order. */
  lemma ReturnsWhatWasProduced(run: seq<State>, k: nat, c: nat, i: nat)
    requires IsRun(run) && k < |run| && c < |run[k].consumer| && i < |run[k].consumer[c].nums|
    ensures var q := run[k].consumer[c];
            && |q.values| == |q.nums|
            && q.nums[i] in run[k].made && q.values[i] == run[k].made[q.nums[i]]
            && forall j | i < j < |q.nums| :: q.nums[i] < q.nums[j]
  {
    hide PutInt, GetInt, Finds;
    RunInv(run, k);
    assert ConsumerInv(run[k].nodes, run[k].made, run[k].consumer[c]);
  }

  function Returned(consumer: seq<Consumer>): nat {
    if consumer == [] then 0 else |consumer[0].nums| + Returned(consumer[1..])
  }

  /** How many consumers have deleted an element and not yet returned it. */
  function InFlight(consumer: seq<Consumer>): nat {
    if consumer == [] then 0 else (if consumer[0].pc.Took? then 1 else 0) + InFlight(consumer[1..])
  }

  lemma {:induction false} HeldSplit(consumer: seq<Consumer>)
    ensures AllHeld(consumer) == Returned(consumer) + InFlight(consumer)
  {
    if consumer != [] {
      HeldSplit(consumer[1..]);
    }
  }

  /** Produced = returned + in flight + still present, at every moment. */
  lemma Conservation(run: seq<State>, k: nat)
    requires IsRun(run) && k < |run|
    ensures var s := run[k];
            |s.made| == Returned(s.consumer) + InFlight(s.consumer) + |s.nodes|
  {
    RunInv(run, k);
    HeldSplit(run[k].consumer);
  }

  // ---------------------------------------------------------------- quiescence

  function Demand(consumer: seq<Consumer>): nat {
    if consumer == [] then 0 else consumer[0].left + |consumer[0].nums| + Demand(consumer[1..])
  }

  lemma {:induction false} DemandKept(consumer: seq<Consumer>, other: seq<Consumer>)
    requires |consumer| == |other|
    requires forall i | 0 <= i < |consumer| ::
               consumer[i].left + |consumer[i].nums| == other[i].left + |other[i].nums|
    ensures Demand(consumer) == Demand(other)
  {
    if consumer != [] {
      assert consumer[0].left + |consumer[0].nums| == other[0].left + |other[0].nums|;
      DemandKept(consumer[1..], other[1..]);
    }
  }

  lemma StepOwes(s: State, a: Action, c: nat)
    requires Enabled(s, a) && c < |s.consumer|
    ensures var q, r := s.consumer[c], Apply(s, a).consumer[c];
            r.left + |r.nums| == q.left + |q.nums|
  {
    hide PutInt, GetInt, Finds;
  }

  lemma SameConsumers(s: State, a: Action)
    requires Enabled(s, a)
    ensures |Apply(s, a).consumer| == |s.consumer|
  {
    hide PutInt, GetInt, Finds;
  }

  /** What a consumer still owes plus what it has returned never changes: a failed attempt is retried,
      not counted. */
  lemma {:induction false} RunOwes(run: seq<State>, k: nat, c: nat)
    requires IsRun(run) && k < |run| && c < |run[0].consumer|
    ensures |run[k].consumer| == |run[0].consumer|
    ensures var q, r := run[0].consumer[c], run[k].consumer[c];
            r.left + |r.nums| == q.left + |q.nums|
  {
    hide Enabled, Apply, Init;
    if k > 0 {
      RunOwes(run, k - 1, c);
      assert Next(run[k - 1], run[k - 1 + 1]);
      var a :| Enabled(run[k - 1], a) && run[k] == Apply(run[k - 1], a);
      SameConsumers(run[k - 1], a);
      StepOwes(run[k - 1], a, c);
    }
  }

  lemma {:induction false} RunDemand(run: seq<State>, k: nat)
    requires IsRun(run) && k < |run|
    ensures Demand(run[k].consumer) == Demand(run[0].consumer)
  {
    hide Demand;
    SameCount(run, k);
    forall c | 0 <= c < |run[0].consumer|
      ensures run[k].consumer[c].left + |run[k].consumer[c].nums| ==
              run[0].consumer[c].left + |run[0].consumer[c].nums|
    {
      RunOwes(run, k, c);
    }
    DemandKept(run[k].consumer, run[0].consumer);
  }

  lemma {:induction false} SameCount(run: seq<State>, k: nat)
    requires IsRun(run) && k < |run|
    ensures |run[k].consumer| == |run[0].consumer|
  {
    hide Enabled, Apply, Init;
    if k > 0 {
      SameCount(run, k - 1);
      assert Next(run[k - 1], run[k - 1 + 1]);
      var a :| Enabled(run[k - 1], a) && run[k] == Apply(run[k - 1], a);
      SameConsumers(run[k - 1], a);
    }
  }

  lemma {:induction false} NoneInFlight(consumer: seq<Consumer>)
    requires forall i | 0 <= i < |consumer| :: !consumer[i].pc.Took?
    ensures InFlight(consumer) == 0
  {
    if consumer != [] {
      assert !consumer[0].pc.Took?;
      NoneInFlight(consumer[1..]);
    }
  }

  lemma {:induction false} ReturnedDemand(consumer: seq<Consumer>)
    ensures Returned(consumer) <= Demand(consumer)
    ensures (forall i | 0 <= i < |consumer| :: consumer[i].left == 0) ==> Returned(consumer) == Demand(consumer)
  {
    if consumer != [] {
      ReturnedDemand(consumer[1..]);
    }
  }

  /** No consumer can go on and no event is to be delivered; producers have stopped. */
  ghost predicate Quiescent(s: State) {
    forall a: Action | !a.Produce? && !a.Spurious? :: !Enabled(s, a)
  }

  lemma {:induction false} MinExists(list: set<nat>) returns (m: nat)
    requires list != {}
    ensures IsMin(m, list)
    decreases |list|
  {
    var x :| x in list;
    if list == {x} {
      m := x;
    } else {
      var rest := list - {x};
      assert rest != {};
      var y := MinExists(rest);
      m := if x < y then x else y;
      forall k | k in list ensures m <= k {
        assert k == x || k in rest;
      }
    }
  }

  lemma AtRest(s: State, c: nat)
    requires Quiescent(s) && c < |s.consumer| && ConsumerInv(s.nodes, s.made, s.consumer[c])
    ensures (s.consumer[c].pc.Ready? && s.consumer[c].left == 0) || (s.consumer[c].pc.Waiting? && s.nodes == map[])
  {
    var q := s.consumer[c];
    assert !Enabled(s, Lock(c)) && !Enabled(s, List(c)) && !Enabled(s, GoWait(c)) && !Enabled(s, GetData(c));
    assert !Enabled(s, Delete(c)) && !Enabled(s, Return(c)) && !Enabled(s, Retry(c)) && !Enabled(s, Notify(c));
    if q.pc.Listed? && q.pc.list != {} {
      var m := MinExists(q.pc.list);
      assert Enabled(s, Pick(c, m));
    }
  }

  /** When the consumers have come to rest, they have returned exactly as many elements as they were
      asked for or as there were, whichever is less: no element waits beside a sleeping consumer. */
  lemma QuiescentDelivers(run: seq<State>)
    requires IsRun(run) && Quiescent(run[|run| - 1])
    ensures var s, demand := run[|run| - 1], Demand(run[0].consumer);
            Returned(s.consumer) == if |s.made| < demand then |s.made| else demand
  {
    var s := run[|run| - 1];
    RunInv(run, |run| - 1);
    RunDemand(run, |run| - 1);
    forall c | 0 <= c < |s.consumer|
      ensures !s.consumer[c].pc.Took? && (s.nodes != map[] ==> s.consumer[c].left == 0)
      ensures s.consumer[c].left == 0 || s.nodes == map[]
    {
      AtRest(s, c);
    }
    NoneInFlight(s.consumer);
    Conservation(run, |run| - 1);
    ReturnedDemand(s.consumer);
  }
}
