/** The files written for the groups of rows, in whatever order the hash maps are walked. */
module GroupFiles {
  import opened Decimal
  import opened Grouping
  import opened Options
  import opened Text

  // ---------------------------------------------------------------- names

  /** key_count.txt */
  function FileName(key: string, count: nat): string {
    key + "_" + Print(count) + ".txt"
  }

  lemma NameParts(key: string, count: nat)
    ensures var s, f := key + "_" + Print(count), FileName(key, count);
            f[..|f| - 4] == s && LastIndex(s, '_') == |key| && s[..|key|] == key && s[|key| + 1..] == Print(count)
  {
    var f := FileName(key, count);
    assert f == key + "_" + Print(count) + ".txt";
    assert forall i | 0 <= i < |Print(count)| :: IsDigit(Print(count)[i]);
    assert key + ['_'] + Print(count) == key + "_" + Print(count);
    LastIndexIs(key, '_', Print(count));
  }

  /** Different keys have different file names, whatever the counts: a count has no underscore. */
  lemma FileNameInjective(k1: string, n1: nat, k2: string, n2: nat)
    ensures FileName(k1, n1) == FileName(k2, n2) <==> k1 == k2 && n1 == n2
  {
    hide Print, FileName;
    NameParts(k1, n1);
    NameParts(k2, n2);
    ParsePrint(n1);
    ParsePrint(n2);
  }

  lemma NameOfTwelve()
    ensures FileName("Y_Z", 12) == "Y_Z_12.txt"
  {
    assert Print(12) == Print(1) + [DigitChar(2)];
    assert Print(12) == "12";
  }

  /** Directory and file name below the work folder. */
  type Path = (string, string)

  // ---------------------------------------------------------------- lines

  predicate HasNumber(row: Row) { row.number.Some? && row.number.value != "" }

  /** The numbers of the rows that have one, in their order. */
  function Lines(rows: seq<Row>): (r: seq<string>)
    ensures |r| <= |rows|
    ensures |r| == |rows| <==> forall i | 0 <= i < |rows| :: HasNumber(rows[i])
  {
    if rows == [] then []
    else Lines(rows[..|rows| - 1]) +
         if HasNumber(rows[|rows| - 1]) then [rows[|rows| - 1].number.value] else []
  }

  lemma LinesSnoc(rows: seq<Row>, row: Row)
    ensures Lines(rows + [row]) == Lines(rows) + if HasNumber(row) then [row.number.value] else []
  {
    assert (rows + [row])[..|rows|] == rows;
  }

  /** lines are the numbers that are neither missing nor empty, and at just the positions of their rows, in
      increasing order. */
  predicate LinesAt(rows: seq<Row>, at: seq<nat>, lines: seq<string>) {
    && |lines| == |at|
    && (forall i | 0 <= i < |at| :: at[i] < |rows| && rows[at[i]].number == Some(lines[i]) && lines[i] != "")
    && (forall i, j | 0 <= i < j < |at| :: at[i] < at[j])
    && (forall i | 0 <= i < |rows| && rows[i].number.Some? && rows[i].number.value != "" :: i in at)
  }

  lemma LinesAtSnoc(rows: seq<Row>, row: Row, at: seq<nat>, lines: seq<string>) returns (all: seq<nat>)
    requires LinesAt(rows, at, lines)
    ensures LinesAt(rows + [row], all, lines + if HasNumber(row) then [row.number.value] else [])
  {
    var longer := rows + [row];
    if HasNumber(row) {
      all := at + [|rows|];
      assert all[|at|] == |rows|;
    } else {
      all := at;
    }
    forall i | 0 <= i < |longer| && longer[i].number.Some? && longer[i].number.value != "" ensures i in all {
      if i < |rows| {
        assert rows[i] == longer[i] && i in at;
      }
    }
  }

  /** What is written for a group, row by row. */
  lemma {:induction false} LinesAre(rows: seq<Row>) returns (at: seq<nat>)
    ensures LinesAt(rows, at, Lines(rows))
  {
    hide LinesAt;
    if rows == [] {
      at := [];
      NoLines(rows);
    } else {
      var init, last := rows[..|rows| - 1], rows[|rows| - 1];
      assert rows == init + [last];
      at := LinesAre(init);
      at := LinesAtSnoc(init, last, at, Lines(init));
      LinesSnoc(init, last);
    }
  }

  lemma NoLines(rows: seq<Row>)
    requires rows == []
    ensures LinesAt(rows, [], Lines(rows))
  {
  }

  /** How many rows have the number x. */
  function RowsWith(rows: seq<Row>, x: string): nat {
    |set i | 0 <= i < |rows| && rows[i].number == Some(x)|
  }

  lemma NoRowsWith(rows: seq<Row>, x: string)
    requires rows == []
    ensures RowsWith(rows, x) == 0
  {
  }

  lemma RowsWithSnoc(rows: seq<Row>, row: Row, x: string)
    ensures RowsWith(rows + [row], x) == RowsWith(rows, x) + if row.number == Some(x) then 1 else 0
  {
    var longer := rows + [row];
    var all := set i | 0 <= i < |rows| && rows[i].number == Some(x);
    var more := set i | 0 <= i < |longer| && longer[i].number == Some(x);
    assert longer[|rows|] == row;
    assert more == all + if row.number == Some(x) then {|rows|} else {};
  }

  /** Every number that is not empty is a line as often as rows have it, and no line is empty. */
  lemma {:induction false} LineCounts(rows: seq<Row>, x: string)
    ensures multiset(Lines(rows))[x] == if x == "" then 0 else RowsWith(rows, x)
  {
    if rows == [] {
      NoRowsWith(rows, x);
    } else {
      var init, last := rows[..|rows| - 1], rows[|rows| - 1];
      assert rows == init + [last];
      LineCounts(init, x);
      LinesSnoc(init, last);
      RowsWithSnoc(init, last, x);
    }
  }

  /** writeFile */
  method WriteFile(beans: seq<Row>) returns (lines: seq<string>)
    ensures lines == Lines(beans)
  {
    lines := [];
    var i := 0;
    while i < |beans|
      invariant 0 <= i <= |beans|
      invariant lines == Lines(beans[..i])
    {
      assert beans[..i + 1][..i] == beans[..i];
      var number := beans[i].number;
      if number.Some? && number.value != "" {
        lines := lines + [number.value];
      }
      i := i + 1;
    }
    assert beans[..i] == beans;
  }

  // ---------------------------------------------------------------- jobs

  /** A file that is to be written. */
  datatype Job = Job(path: Path, lines: seq<string>)

  function JobOf(charge: Option<string>, key: string, beans: seq<Row>): Job {
    Job((ValueOf(charge), FileName(key, |beans|)), Lines(beans))
  }

  type GroupId = (Option<string>, string)

  function GroupJob(list: seq<Row>, g: GroupId): Job {
    JobOf(g.0, g.1, Select(list, GroupOf, g))
  }

  /** The job of a row's group. */
  function RowJob(list: seq<Row>, row: Row): Job {
    GroupJob(list, GroupOf(row))
  }

  function RowJobs(list: seq<Row>): set<Job> {
    set i | 0 <= i < |list| :: RowJob(list, list[i])
  }

  /** A file that exists is not written. */
  function WriteAll(files: map<Path, seq<string>>, jobs: seq<Job>): map<Path, seq<string>> {
    if jobs == [] then files
    else
      var done, j := WriteAll(files, jobs[..|jobs| - 1]), jobs[|jobs| - 1];
      if j.path in done then done else done[j.path := j.lines]
  }

  // ---------------------------------------------------------------- orders

  /** charges is the order in which the charges are walked, and keysOf those in which their keys are. */
  predicate Iteration(list: seq<Row>, charges: seq<Option<string>>, keysOf: map<Option<string>, seq<string>>) {
    && NoRepeats(charges)
    && (forall i | 0 <= i < |charges| :: HasKey(list, ChargeOf, charges[i]) && charges[i] in keysOf)
    && (forall i | 0 <= i < |charges| :: KeysListed(list, charges[i], keysOf[charges[i]]))
    && (forall r | 0 <= r < |list| :: list[r].charge in charges)
  }

  predicate KeysListed(list: seq<Row>, c: Option<string>, keys: seq<string>) {
    && NoRepeats(keys)
    && (forall i | 0 <= i < |keys| :: HasKey(list, GroupOf, (c, keys[i])))
    && (forall r | 0 <= r < |list| && list[r].charge == c :: KeyOf(list[r]) in keys)
  }

  function KeyedBy(c: Option<string>, keys: seq<string>): seq<GroupId> {
    seq(|keys|, i requires 0 <= i < |keys| => (c, keys[i]))
  }

  /** The groups in the order in which their files are written. */
  function Order(charges: seq<Option<string>>, keysOf: map<Option<string>, seq<string>>): seq<GroupId>
    requires forall i | 0 <= i < |charges| :: charges[i] in keysOf
  {
    if charges == [] then []
    else
      var c := charges[|charges| - 1];
      Order(charges[..|charges| - 1], keysOf) + KeyedBy(c, keysOf[c])
  }

  function JobsOf(list: seq<Row>, order: seq<GroupId>): seq<Job> {
    seq(|order|, i requires 0 <= i < |order| => GroupJob(list, order[i]))
  }

  /** The files that are there in the end. */
  function Outcome(list: seq<Row>, before: map<Path, seq<string>>, charges: seq<Option<string>>,
                   keysOf: map<Option<string>, seq<string>>): map<Path, seq<string>>
    requires Iteration(list, charges, keysOf)
  {
    WriteAll(before, JobsOf(list, Order(charges, keysOf)))
  }

  // ---------------------------------------------------------------- the code

  function GroupJobs(g: Group, keys: seq<string>): seq<Job>
    requires forall i | 0 <= i < |keys| :: keys[i] in g.byKey
  {
    seq(|keys|, i requires 0 <= i < |keys| => JobOf(g.charge, keys[i], g.byKey[keys[i]]))
  }

  predicate OrdersKeys(objs: seq<Group>, keysOf: map<Option<string>, seq<string>>) {
    forall i | 0 <= i < |objs| :: objs[i].charge in keysOf && Enumerates(keysOf[objs[i].charge], objs[i].byKey.Keys)
  }

  function ObjJobs(objs: seq<Group>, keysOf: map<Option<string>, seq<string>>): seq<Job>
    requires OrdersKeys(objs, keysOf)
  {
    if objs == [] then []
    else
      var g := objs[|objs| - 1];
      ObjJobs(objs[..|objs| - 1], keysOf) + GroupJobs(g, keysOf[g.charge])
  }

  lemma {:induction false} WriteConcat(files: map<Path, seq<string>>, a: seq<Job>, b: seq<Job>)
    ensures WriteAll(files, a + b) == WriteAll(WriteAll(files, a), b)
  {
    if b == [] {
      assert a + b == a;
    } else {
      WriteConcat(files, a, b[..|b| - 1]);
      assert (a + b)[..|a + b| - 1] == a + b[..|b| - 1];
    }
  }

  class Workspace {
    var files: map<Path, seq<string>>

    constructor ()
      ensures files == map[]
    {
      files := map[];
    }

    /** One file, unless it exists. */
    method Write(charge: Option<string>, key: string, beans: seq<Row>)
      modifies this
      ensures var j := JobOf(charge, key, beans);
              files == if j.path in old(files) then old(files) else old(files)[j.path := j.lines]
    {
      var path := (ValueOf(charge), FileName(key, |beans|));
      if path !in files {
        var lines := WriteFile(beans);
        files := files[path := lines];
      }
    }

    /** The files of one charge; keys is the order in which its keys are walked. */
    method WriteGroup(g: Group, keys: seq<string>)
      requires forall i | 0 <= i < |keys| :: keys[i] in g.byKey
      modifies this
      ensures files == WriteAll(old(files), GroupJobs(g, keys))
    {
      hide JobOf;
      var i := 0;
      while i < |keys|
        invariant 0 <= i <= |keys|
        invariant files == WriteAll(old(files), GroupJobs(g, keys[..i]))
      {
        Write(g.charge, keys[i], g.byKey[keys[i]]);
        assert GroupJobs(g, keys[..i + 1])[..i] == GroupJobs(g, keys[..i]);
        i := i + 1;
      }
      assert keys[..i] == keys;
    }

    method GeneFileByObjs(objs: array<Group>, keysOf: map<Option<string>, seq<string>>)
      requires OrdersKeys(objs[..], keysOf)
      modifies this
      ensures files == WriteAll(old(files), ObjJobs(objs[..], keysOf))
    {
      hide WriteAll, GroupJobs;
      ghost var before := files;
      assert WriteAll(before, []) == before by { WriteNothing(before); }
      var i := 0;
      while i < objs.Length
        invariant 0 <= i <= objs.Length
        invariant files == WriteAll(before, ObjJobs(objs[..i], keysOf))
      {
        assert objs[..i + 1][..i] == objs[..i];
        WriteConcat(before, ObjJobs(objs[..i], keysOf), GroupJobs(objs[i], keysOf[objs[i].charge]));
        WriteGroup(objs[i], keysOf[objs[i].charge]);
        i := i + 1;
      }
      assert objs[..i] == objs[..];
    }

    /** From the rows to the files, for any orders in which the hash maps may be walked. */
    method Resolve(list: seq<Row>, charges: seq<Option<string>>, keysOf: map<Option<string>, seq<string>>)
      requires Iteration(list, charges, keysOf)
      modifies this
      ensures files == Outcome(list, old(files), charges, keysOf)
    {
      hide Groups, Filled, Order, WriteAll, ObjJobs;
      var ret := FilterByPay(list);
      if ret.None? {
        NothingToWrite(list, files, charges, keysOf);
        return;
      }
      EnumeratesCharges(list, ret.value, charges, keysOf);
      var objs := FilterByCityAndPayProp(ret.value, charges);
      ObjJobsAre(list, ret.value, charges, keysOf, objs[..]);
      GeneFileByObjs(objs, keysOf);
    }
  }

  lemma WriteNothing(files: map<Path, seq<string>>)
    ensures WriteAll(files, []) == files
  {
  }

  lemma NothingToWrite(list: seq<Row>, files: map<Path, seq<string>>, charges: seq<Option<string>>,
                       keysOf: map<Option<string>, seq<string>>)
    requires list == [] && Iteration(list, charges, keysOf)
    ensures Outcome(list, files, charges, keysOf) == files
  {
    if charges != [] {
      ChargesNeedRows(list, charges, keysOf);
    }
  }

  lemma ChargesNeedRows(list: seq<Row>, charges: seq<Option<string>>, keysOf: map<Option<string>, seq<string>>)
    requires Iteration(list, charges, keysOf) && charges != []
    ensures list != []
  {
    assert HasKey(list, ChargeOf, charges[0]);
  }

  lemma EnumeratesCharges(list: seq<Row>, m: map<Option<string>, seq<Row>>, charges: seq<Option<string>>,
                          keysOf: map<Option<string>, seq<string>>)
    requires Groups(m, list, ChargeOf) && Iteration(list, charges, keysOf)
    ensures Enumerates(charges, m.Keys)
  {
    forall c | c in m.Keys ensures c in charges {
      assert HasKey(list, ChargeOf, c);
    }
  }

  /** The keys walked for a charge are those of its map, and its jobs those of the groups of the rows. */
  lemma GroupJobsAre(list: seq<Row>, m: map<Option<string>, seq<Row>>, g: Group, keys: seq<string>)
    requires Groups(m, list, ChargeOf) && g.charge in m && Groups(g.byKey, m[g.charge], KeyOf)
    requires KeysListed(list, g.charge, keys)
    ensures Enumerates(keys, g.byKey.Keys)
    ensures GroupJobs(g, keys) == JobsOf(list, KeyedBy(g.charge, keys))
  {
    hide Select, HasKey, JobOf;
    forall k ensures k in g.byKey <==> HasKey(list, GroupOf, (g.charge, k)) {
      SelectTwice(list, g.charge, k);
      SelectNone(list, GroupOf, (g.charge, k));
      SelectNone(m[g.charge], KeyOf, k);
    }
    forall k | k in g.byKey ensures k in keys && g.byKey[k] == Select(list, GroupOf, (g.charge, k)) {
      SelectTwice(list, g.charge, k);
      KeyIsListed(list, g.charge, keys, k);
    }
  }

  lemma KeyIsListed(list: seq<Row>, c: Option<string>, keys: seq<string>, k: string)
    requires KeysListed(list, c, keys) && HasKey(list, GroupOf, (c, k))
    ensures k in keys
  {
  }

  lemma ObjJobsAre(list: seq<Row>, m: map<Option<string>, seq<Row>>, charges: seq<Option<string>>,
                   keysOf: map<Option<string>, seq<string>>, objs: seq<Group>)
    requires Groups(m, list, ChargeOf) && Iteration(list, charges, keysOf) && Filled(objs, m, charges)
    ensures OrdersKeys(objs, keysOf) && ObjJobs(objs, keysOf) == JobsOf(list, Order(charges, keysOf))
  {
    hide Groups, KeysListed, GroupJobs;
    forall i | 0 <= i < |objs|
      ensures Enumerates(keysOf[objs[i].charge], objs[i].byKey.Keys)
    {
      GroupJobsAre(list, m, objs[i], keysOf[charges[i]]);
    }
    FirstObjJobsAre(list, m, charges, keysOf, objs, |objs|);
    assert objs[..|objs|] == objs && charges[..|objs|] == charges;
  }

  lemma {:induction false} FirstObjJobsAre(list: seq<Row>, m: map<Option<string>, seq<Row>>,
                                           charges: seq<Option<string>>, keysOf: map<Option<string>, seq<string>>,
                                           objs: seq<Group>, n: nat)
    requires Groups(m, list, ChargeOf) && Iteration(list, charges, keysOf) && Filled(objs, m, charges)
    requires OrdersKeys(objs, keysOf) && n <= |objs|
    ensures ObjJobs(objs[..n], keysOf) == JobsOf(list, Order(charges[..n], keysOf))
  {
    hide Groups, KeysListed, GroupJobs, KeyedBy;
    if n > 0 {
      var i := n - 1;
      FirstObjJobsAre(list, m, charges, keysOf, objs, i);
      GroupJobsAre(list, m, objs[i], keysOf[charges[i]]);
      assert objs[..n][..i] == objs[..i] && charges[..n][..i] == charges[..i];
      JobsConcat(list, Order(charges[..i], keysOf), KeyedBy(charges[i], keysOf[charges[i]]));
    }
  }

  lemma JobsConcat(list: seq<Row>, a: seq<GroupId>, b: seq<GroupId>)
    ensures JobsOf(list, a + b) == JobsOf(list, a) + JobsOf(list, b)
  {
  }

  // ---------------------------------------------------------------- what every order leaves

  /** Files that were there stay; every other file holds the lines of one of the jobs for its path; and
      every job's path has a file. */
  ghost predicate Written(before: map<Path, seq<string>>, files: map<Path, seq<string>>, jobs: set<Job>) {
    && (forall p :: p in before ==> p in files && files[p] == before[p])
    && (forall p :: p in files && p !in before ==> Job(p, files[p]) in jobs)
    && (forall j :: j in jobs ==> j.path in files)
  }

  lemma {:induction false} WriteAllWritten(before: map<Path, seq<string>>, jobs: seq<Job>)
    ensures Written(before, WriteAll(before, jobs), set j | j in jobs)
  {
    if jobs != [] {
      var init, last := jobs[..|jobs| - 1], jobs[|jobs| - 1];
      WriteAllWritten(before, init);
      assert jobs == init + [last];
    }
  }

  lemma {:induction false} InOrder(charges: seq<Option<string>>, keysOf: map<Option<string>, seq<string>>, g: GroupId)
    requires forall i | 0 <= i < |charges| :: charges[i] in keysOf
    ensures g in Order(charges, keysOf) <==> g.0 in charges && g.1 in keysOf[g.0]
  {
    if charges != [] {
      var init, c := charges[..|charges| - 1], charges[|charges| - 1];
      InOrder(init, keysOf, g);
      assert charges == init + [c];
      InKeyedBy(c, keysOf[c], g);
    }
  }

  lemma InKeyedBy(c: Option<string>, keys: seq<string>, g: GroupId)
    ensures g in KeyedBy(c, keys) <==> g.0 == c && g.1 in keys
  {
    if g.0 == c && g.1 in keys {
      var i :| 0 <= i < |keys| && keys[i] == g.1;
      assert KeyedBy(c, keys)[i] == g;
    }
  }

  /** In whatever order the groups are walked, just the groups of the rows are written. */
  lemma OrderIsGroups(list: seq<Row>, charges: seq<Option<string>>, keysOf: map<Option<string>, seq<string>>,
                      g: GroupId)
    requires Iteration(list, charges, keysOf)
    ensures g in Order(charges, keysOf) <==> HasKey(list, GroupOf, g)
  {
    InOrder(charges, keysOf, g);
    if HasKey(list, GroupOf, g) {
      var r :| 0 <= r < |list| && GroupOf(list[r]) == g;
      var i :| 0 <= i < |charges| && charges[i] == g.0;
      assert KeysListed(list, charges[i], keysOf[charges[i]]);
    } else if g.0 in charges {
      var i :| 0 <= i < |charges| && charges[i] == g.0;
      assert KeysListed(list, charges[i], keysOf[charges[i]]);
    }
  }

  lemma OutcomeWritten(list: seq<Row>, before: map<Path, seq<string>>, charges: seq<Option<string>>,
                       keysOf: map<Option<string>, seq<string>>)
    requires Iteration(list, charges, keysOf)
    ensures Written(before, Outcome(list, before, charges, keysOf), RowJobs(list))
  {
    hide Written, GroupJob, KeysListed, Order, WriteAll;
    var order := Order(charges, keysOf);
    var jobs := JobsOf(list, order);
    WriteAllWritten(before, jobs);
    forall j | j in jobs ensures j in RowJobs(list) {
      var i :| 0 <= i < |order| && j == GroupJob(list, order[i]);
      OrderIsGroups(list, charges, keysOf, order[i]);
      var r :| 0 <= r < |list| && GroupOf(list[r]) == order[i];
      assert j == RowJob(list, list[r]);
    }
    forall j | j in RowJobs(list) ensures j in jobs {
      var r :| 0 <= r < |list| && j == RowJob(list, list[r]);
      HasOwnKey(list, GroupOf, r);
      OrderIsGroups(list, charges, keysOf, GroupOf(list[r]));
      var i :| 0 <= i < |order| && order[i] == GroupOf(list[r]);
      assert j == jobs[i];
    }
    assert (set j | j in jobs) == RowJobs(list);
  }

  /** The first job for a path is the one whose lines its file keeps. */
  lemma {:induction false} FirstJobWins(before: map<Path, seq<string>>, jobs: seq<Job>, m: nat)
    requires m < |jobs| && jobs[m].path !in before
    requires forall n | 0 <= n < m :: jobs[n].path != jobs[m].path
    ensures jobs[m].path in WriteAll(before, jobs) && WriteAll(before, jobs)[jobs[m].path] == jobs[m].lines
    decreases |jobs|
  {
    var init := jobs[..|jobs| - 1];
    if m < |init| {
      FirstJobWins(before, init, m);
    } else {
      WriteAllWritten(before, init);
    }
  }
}
