/** Which lines get lost when groups share a file: none, exactly when groups that share a path have no
    numbers. */
module GroupLosses {
  import opened Grouping
  import opened GroupFiles
  import opened Options

  // ---------------------------------------------------------------- clashes

  /** No two charges of the rows print alike.  A missing charge prints like the text "null". */
  predicate ChargesDiffer(list: seq<Row>) {
    forall i, j | 0 <= i < |list| && 0 <= j < |list| && ValueOf(list[i].charge) == ValueOf(list[j].charge) ::
      list[i].charge == list[j].charge
  }

  function PathIn(list: seq<Row>): Row -> Path {
    row => RowJob(list, row).path
  }

  lemma SamePathSameGroup(list: seq<Row>, i: nat, j: nat)
    requires ChargesDiffer(list) && i < |list| && j < |list|
    ensures PathIn(list)(list[i]) == PathIn(list)(list[j]) <==> GroupOf(list[i]) == GroupOf(list[j])
  {
    hide FileName;
    var x, y := list[i], list[j];
    FileNameInjective(KeyOf(x), |Select(list, GroupOf, GroupOf(x))|, KeyOf(y), |Select(list, GroupOf, GroupOf(y))|);
  }

  /** Groups that share a path have no numbers to lose. */
  predicate NoClash(list: seq<Row>) {
    forall i, j | 0 <= i < |list| && 0 <= j < |list| && Clash(list, list[i], list[j]) ::
      RowJob(list, list[i]).lines == []
  }

  predicate Clash(list: seq<Row>, x: Row, y: Row) {
    GroupOf(x) != GroupOf(y) && PathIn(list)(x) == PathIn(list)(y)
  }

  lemma ChargesDifferNoClash(list: seq<Row>)
    requires ChargesDiffer(list)
    ensures NoClash(list)
  {
    forall i, j | 0 <= i < |list| && 0 <= j < |list| ensures !Clash(list, list[i], list[j]) {
      SamePathSameGroup(list, i, j);
    }
  }

  /** Selections that agree on the rows with numbers have the same lines. */
  lemma {:induction false} SameLines<J, K>(rows: seq<Row>, f: Row -> J, a: J, g: Row -> K, b: K)
    requires forall i | 0 <= i < |rows| && HasNumber(rows[i]) :: f(rows[i]) == a <==> g(rows[i]) == b
    ensures Lines(Select(rows, f, a)) == Lines(Select(rows, g, b))
  {
    if rows != [] {
      var init, row := rows[..|rows| - 1], rows[|rows| - 1];
      SameLines(init, f, a, g, b);
      assert rows == init + [row];
      SelectedSeq(init, row, f, a);
      SelectedSeq(init, row, g, b);
    }
  }

  lemma SelectedSeq<K>(rows: seq<Row>, row: Row, keyOf: Row -> K, k: K)
    ensures Lines(Select(rows + [row], keyOf, k)) ==
              Lines(Select(rows, keyOf, k)) + if keyOf(row) == k && HasNumber(row) then [row.number.value] else []
  {
    SelectSnoc(rows, row, keyOf, k);
    var s := Select(rows, keyOf, k);
    hide Select;
    if keyOf(row) == k {
      LinesSnoc(s, row);
    } else {
      assert s + [] == s;
    }
  }

  /** A row with a number makes the lines of its group non-empty. */
  lemma {:induction false} NumberGivesLine<K>(rows: seq<Row>, keyOf: Row -> K, i: nat)
    requires i < |rows| && HasNumber(rows[i])
    ensures Lines(Select(rows, keyOf, keyOf(rows[i]))) != []
  {
    var init, row := rows[..|rows| - 1], rows[|rows| - 1];
    assert rows == init + [row];
    SelectedSeq(init, row, keyOf, keyOf(rows[i]));
    if i < |init| {
      assert init[i] == rows[i];
      NumberGivesLine(init, keyOf, i);
    }
  }

  /** In a fresh workspace each file holds the numbers of the rows with its path, in their order. */
  lemma FilesAreGroups(list: seq<Row>, files: map<Path, seq<string>>, p: Path)
    requires NoClash(list) && Written(map[], files, RowJobs(list))
    ensures p in files <==> HasKey(list, PathIn(list), p)
    ensures p in files ==> files[p] == Lines(Select(list, PathIn(list), p))
  {
    hide Select, Lines, FileName;
    if p in files {
      var r :| 0 <= r < |list| && Job(p, files[p]) == RowJob(list, list[r]);
      assert PathIn(list)(list[r]) == p;
      forall i | 0 <= i < |list| && HasNumber(list[i])
        ensures GroupOf(list[i]) == GroupOf(list[r]) <==> PathIn(list)(list[i]) == p
      {
        NumberGivesLine(list, GroupOf, i);
        assert !Clash(list, list[i], list[r]);
      }
      SameLines(list, GroupOf, GroupOf(list[r]), PathIn(list), p);
    }
    if HasKey(list, PathIn(list), p) {
      var r :| 0 <= r < |list| && PathIn(list)(list[r]) == p;
      assert RowJob(list, list[r]) in RowJobs(list);
    }
  }

  /** All lines of the files at the given paths. */
  function Total(files: map<Path, seq<string>>, paths: seq<Path>): multiset<string> {
    if paths == [] then multiset{}
    else Total(files, paths[..|paths| - 1]) +
         var p := paths[|paths| - 1]; if p in files then multiset(files[p]) else multiset{}
  }

  function TotalOf<K(==)>(rows: seq<Row>, keyOf: Row -> K, keys: seq<K>): multiset<string> {
    if keys == [] then multiset{}
    else TotalOf(rows, keyOf, keys[..|keys| - 1]) + multiset(Lines(Select(rows, keyOf, keys[|keys| - 1])))
  }

  function LineOf(row: Row): multiset<string> {
    if HasNumber(row) then multiset{row.number.value} else multiset{}
  }

  lemma SelectedLines<K>(rows: seq<Row>, row: Row, keyOf: Row -> K, k: K)
    ensures multiset(Lines(Select(rows + [row], keyOf, k))) ==
              multiset(Lines(Select(rows, keyOf, k))) + if keyOf(row) == k then LineOf(row) else multiset{}
  {
    SelectedSeq(rows, row, keyOf, k);
  }

  /** One more row adds its line to the total once. */
  lemma {:induction false} TotalSnoc<K>(rows: seq<Row>, row: Row, keyOf: Row -> K, keys: seq<K>)
    requires NoRepeats(keys)
    ensures TotalOf(rows + [row], keyOf, keys) ==
              TotalOf(rows, keyOf, keys) + if keyOf(row) in keys then LineOf(row) else multiset{}
  {
    hide Lines, Select, LineOf;
    if keys != [] {
      var init, k := keys[..|keys| - 1], keys[|keys| - 1];
      TotalSnoc(rows, row, keyOf, init);
      SelectedLines(rows, row, keyOf, k);
      assert keys == init + [k];
      assert k !in init;
    }
  }

  lemma {:induction false} TotalIsAll<K>(rows: seq<Row>, keyOf: Row -> K, keys: seq<K>)
    requires NoRepeats(keys) && forall i | 0 <= i < |rows| :: keyOf(rows[i]) in keys
    ensures TotalOf(rows, keyOf, keys) == multiset(Lines(rows))
  {
    if rows == [] {
      TotalOfNone(rows, keyOf, keys);
    } else {
      hide Select;
      var init, row := rows[..|rows| - 1], rows[|rows| - 1];
      assert rows == init + [row];
      TotalIsAll(init, keyOf, keys);
      TotalSnoc(init, row, keyOf, keys);
      LinesSnoc(init, row);
    }
  }

  lemma {:induction false} TotalOfNone<K>(rows: seq<Row>, keyOf: Row -> K, keys: seq<K>)
    requires rows == []
    ensures TotalOf(rows, keyOf, keys) == multiset{}
  {
    if keys != [] {
      TotalOfNone(rows, keyOf, keys[..|keys| - 1]);
    }
  }

  /** paths lists the files, each once. */
  ghost predicate Lists(paths: seq<Path>, files: map<Path, seq<string>>) {
    NoRepeats(paths) && forall p :: p in files <==> p in paths
  }

  // ---------------------------------------------------------------- what an order loses

  /** An earlier job has the path. */
  predicate Late(jobs: seq<Job>, n: nat)
    requires n < |jobs|
  {
    exists m :: 0 <= m < n && jobs[m].path == jobs[n].path
  }

  /** The lines of the jobs that come too late. */
  function Lost(jobs: seq<Job>): multiset<string> {
    if jobs == [] then multiset{}
    else Lost(jobs[..|jobs| - 1]) + if Late(jobs, |jobs| - 1) then multiset(jobs[|jobs| - 1].lines) else multiset{}
  }

  function AllLines(jobs: seq<Job>): multiset<string> {
    if jobs == [] then multiset{} else AllLines(jobs[..|jobs| - 1]) + multiset(jobs[|jobs| - 1].lines)
  }

  lemma {:induction false} SameTotal(files: map<Path, seq<string>>, more: map<Path, seq<string>>, paths: seq<Path>)
    requires forall i | 0 <= i < |paths| :: paths[i] in files && paths[i] in more && more[paths[i]] == files[paths[i]]
    ensures Total(files, paths) == Total(more, paths)
  {
    if paths != [] {
      SameTotal(files, more, paths[..|paths| - 1]);
    }
  }

  lemma {:induction false} TotalWithout(files: map<Path, seq<string>>, paths: seq<Path>, i: nat)
    requires i < |paths| && paths[i] in files
    ensures Total(files, paths) == Total(files, paths[..i] + paths[i + 1..]) + multiset(files[paths[i]])
    decreases |paths|
  {
    var init, last := paths[..|paths| - 1], paths[|paths| - 1];
    if i == |init| {
      assert paths[..i] + paths[i + 1..] == init;
    } else {
      TotalWithout(files, init, i);
      var rest := paths[..i] + paths[i + 1..];
      assert rest[..|rest| - 1] == init[..i] + init[i + 1..] && rest[|rest| - 1] == last;
    }
  }

  /** One more file with its lines. */
  lemma TotalPlus(files: map<Path, seq<string>>, j: Job, paths: seq<Path>) returns (rest: seq<Path>)
    requires j.path !in files && Lists(paths, files[j.path := j.lines])
    ensures Lists(rest, files)
    ensures Total(files[j.path := j.lines], paths) == Total(files, rest) + multiset(j.lines)
  {
    var more := files[j.path := j.lines];
    assert j.path in more;
    var i: nat :| i < |paths| && paths[i] == j.path;
    rest := paths[..i] + paths[i + 1..];
    TotalWithout(more, paths, i);
    ListsRest(files, j, paths, i);
    SameTotal(files, more, rest);
  }

  lemma ListsRest(files: map<Path, seq<string>>, j: Job, paths: seq<Path>, i: nat)
    requires j.path !in files && Lists(paths, files[j.path := j.lines]) && i < |paths| && paths[i] == j.path
    ensures var rest := paths[..i] + paths[i + 1..];
            Lists(rest, files) && forall n | 0 <= n < |rest| :: rest[n] in files && rest[n] != j.path
  {
    var rest := paths[..i] + paths[i + 1..];
    forall n | 0 <= n < |rest| ensures rest[n] in files && rest[n] != j.path {
      var k := if n < i then n else n + 1;
      assert rest[n] == paths[k] && paths[k] in paths;
    }
    var more := files[j.path := j.lines];
    forall p | p in files ensures p in rest {
      assert p in more;
      var k :| 0 <= k < |paths| && paths[k] == p;
      assert rest[if k < i then k else k - 1] == p;
    }
  }

  lemma TakenIsLate(jobs: seq<Job>)
    requires jobs != []
    ensures jobs[|jobs| - 1].path in WriteAll(map[], jobs[..|jobs| - 1]) <==> Late(jobs, |jobs| - 1)
  {
    hide WriteAll;
    var init, j := jobs[..|jobs| - 1], jobs[|jobs| - 1];
    WriteAllWritten(map[], init);
    if j.path in WriteAll(map[], init) {
      var m :| 0 <= m < |init| && init[m] == Job(j.path, WriteAll(map[], init)[j.path]);
      assert jobs[m].path == j.path;
    }
    if Late(jobs, |jobs| - 1) {
      var m :| 0 <= m < |jobs| - 1 && jobs[m].path == j.path;
      assert init[m] in init;
    }
  }

  /** Written lines and lost lines are all lines. */
  lemma {:induction false} WriteConserves(jobs: seq<Job>, paths: seq<Path>)
    requires Lists(paths, WriteAll(map[], jobs))
    ensures Total(WriteAll(map[], jobs), paths) + Lost(jobs) == AllLines(jobs)
    decreases |jobs|
  {
    hide Late, Lists, Total;
    if jobs == [] {
      NoFiles(paths);
    } else {
      var init, j := jobs[..|jobs| - 1], jobs[|jobs| - 1];
      TakenIsLate(jobs);
      if Late(jobs, |jobs| - 1) {
        WriteConserves(init, paths);
      } else {
        var rest := TotalPlus(WriteAll(map[], init), j, paths);
        WriteConserves(init, rest);
      }
    }
  }

  lemma NoFiles(paths: seq<Path>)
    requires Lists(paths, map[])
    ensures Total(map[], paths) == multiset{}
  {
    if paths != [] {
      ListedFile(paths, map[]);
    }
  }

  lemma ListedFile(paths: seq<Path>, files: map<Path, seq<string>>)
    requires Lists(paths, files) && paths != []
    ensures paths[0] in files
  {
    assert paths[0] in paths;
  }

  predicate LateAreEmpty(jobs: seq<Job>) {
    forall n | 0 <= n < |jobs| && Late(jobs, n) :: jobs[n].lines == []
  }

  lemma {:induction false} LostNothingIff(jobs: seq<Job>)
    ensures Lost(jobs) == multiset{} <==> LateAreEmpty(jobs)
  {
    if jobs != [] {
      var init, last := jobs[..|jobs| - 1], |jobs| - 1;
      LostNothingIff(init);
      forall n | 0 <= n < last ensures Late(init, n) <==> Late(jobs, n) {
        SameLate(jobs, n);
      }
      hide Late;
      assert jobs[last].lines == [] <==> multiset(jobs[last].lines) == multiset{} by {
        assert jobs[last].lines != [] ==> jobs[last].lines[0] in multiset(jobs[last].lines);
      }
      assert forall n | 0 <= n < last :: init[n] == jobs[n];
    }
  }

  lemma SameLate(jobs: seq<Job>, n: nat)
    requires n < |jobs| - 1
    ensures Late(jobs[..|jobs| - 1], n) <==> Late(jobs, n)
  {
    var init := jobs[..|jobs| - 1];
    if Late(jobs, n) {
      var m :| 0 <= m < n && jobs[m].path == jobs[n].path;
      assert init[m].path == init[n].path;
    }
  }

  // ---------------------------------------------------------------- all lines are the numbers of the rows

  lemma {:induction false} OrderNoRepeats(list: seq<Row>, charges: seq<Option<string>>,
                                          keysOf: map<Option<string>, seq<string>>)
    requires NoRepeats(charges)
    requires forall i | 0 <= i < |charges| :: charges[i] in keysOf && NoRepeats(keysOf[charges[i]])
    ensures NoRepeats(Order(charges, keysOf))
  {
    if charges != [] {
      var init, c := charges[..|charges| - 1], charges[|charges| - 1];
      OrderNoRepeats(list, init, keysOf);
      var a: seq<GroupId>, b: seq<GroupId> := Order(init, keysOf), KeyedBy(c, keysOf[c]);
      forall i, j | 0 <= i < |a| && 0 <= j < |b| ensures a[i] != b[j] {
        InOrder(init, keysOf, a[i]);
        assert a[i] in a;
      }
      RepeatsConcat(a, b);
    }
  }

  lemma RepeatsConcat<K>(a: seq<K>, b: seq<K>)
    requires NoRepeats(a) && NoRepeats(b)
    requires forall i, j | 0 <= i < |a| && 0 <= j < |b| :: a[i] != b[j]
    ensures NoRepeats(a + b)
  {
  }

  lemma {:induction false} AllLinesOf(list: seq<Row>, order: seq<GroupId>)
    ensures AllLines(JobsOf(list, order)) == TotalOf(list, GroupOf, order)
  {
    hide Lines, Select;
    if order != [] {
      var init := order[..|order| - 1];
      AllLinesOf(list, init);
      assert JobsOf(list, order)[..|order| - 1] == JobsOf(list, init);
    }
  }

  lemma AllLinesAreAll(list: seq<Row>, charges: seq<Option<string>>, keysOf: map<Option<string>, seq<string>>)
    requires Iteration(list, charges, keysOf)
    ensures NoRepeats(Order(charges, keysOf))
    ensures AllLines(JobsOf(list, Order(charges, keysOf))) == multiset(Lines(list))
  {
    hide Lines, Select, Order, TotalOf, AllLines;
    var order := Order(charges, keysOf);
    forall i | 0 <= i < |charges| ensures NoRepeats(keysOf[charges[i]]) {
      assert KeysListed(list, charges[i], keysOf[charges[i]]);
    }
    OrderNoRepeats(list, charges, keysOf);
    forall r | 0 <= r < |list| ensures GroupOf(list[r]) in order {
      HasOwnKey(list, GroupOf, r);
      OrderIsGroups(list, charges, keysOf, GroupOf(list[r]));
    }
    AllLinesOf(list, order);
    TotalIsAll(list, GroupOf, order);
  }

  /** On a fresh workspace, for any given order in which the hash maps are walked: the lines of all files
      and the lines lost are together the non-empty numbers of all rows, and nothing is lost exactly when
      every group whose path an earlier group has carries no number. */
  lemma LostExactly(list: seq<Row>, charges: seq<Option<string>>, keysOf: map<Option<string>, seq<string>>,
                    paths: seq<Path>)
    requires Iteration(list, charges, keysOf) && Lists(paths, Outcome(list, map[], charges, keysOf))
    ensures var jobs := JobsOf(list, Order(charges, keysOf));
            var total := Total(Outcome(list, map[], charges, keysOf), paths);
            && total + Lost(jobs) == multiset(Lines(list))
            && (total == multiset(Lines(list)) <==> LateAreEmpty(jobs))
            && forall x :: (total + Lost(jobs))[x] == if x == "" then 0 else RowsWith(list, x)
  {
    hide KeysListed, Lines, Lists, Total, Lost, LateAreEmpty, AllLines, WriteAll;
    var jobs := JobsOf(list, Order(charges, keysOf));
    AllLinesAreAll(list, charges, keysOf);
    WriteConserves(jobs, paths);
    LostNothingIff(jobs);
    forall x ensures multiset(Lines(list))[x] == if x == "" then 0 else RowsWith(list, x) {
      LineCounts(list, x);
    }
  }

  // ---------------------------------------------------------------- an order that loses them

  lemma {:induction false} ListKeys<K>(keys: set<K>) returns (order: seq<K>)
    ensures Enumerates(order, keys)
  {
    if keys == {} {
      order := [];
    } else {
      var k :| k in keys;
      var rest := ListKeys(keys - {k});
      order := rest + [k];
    }
  }

  function KeysWith(list: seq<Row>, c: Option<string>): set<string> {
    set r | 0 <= r < |list| && list[r].charge == c :: KeyOf(list[r])
  }

  lemma {:induction false} ListKeysOf(list: seq<Row>, charges: seq<Option<string>>)
    returns (keysOf: map<Option<string>, seq<string>>)
    ensures forall i | 0 <= i < |charges| ::
              charges[i] in keysOf && KeysListed(list, charges[i], keysOf[charges[i]])
  {
    if charges == [] {
      keysOf := map[];
    } else {
      var c := charges[|charges| - 1];
      var rest := ListKeysOf(list, charges[..|charges| - 1]);
      var keys := ListKeys(KeysWith(list, c));
      KeysAreListed(list, c, keys);
      keysOf := rest[c := keys];
    }
  }

  lemma KeysAreListed(list: seq<Row>, c: Option<string>, keys: seq<string>)
    requires Enumerates(keys, KeysWith(list, c))
    ensures KeysListed(list, c, keys)
  {
    forall i | 0 <= i < |keys| ensures HasKey(list, GroupOf, (c, keys[i])) {
      assert keys[i] in KeysWith(list, c);
      var r :| 0 <= r < |list| && list[r].charge == c && keys[i] == KeyOf(list[r]);
      assert GroupOf(list[r]) == (c, keys[i]);
    }
  }

  /** The hash maps can be walked so that any given charge comes first. */
  lemma ChargeFirst(list: seq<Row>, j: nat)
    returns (charges: seq<Option<string>>, keysOf: map<Option<string>, seq<string>>)
    requires j < |list|
    ensures Iteration(list, charges, keysOf) && charges != [] && charges[0] == list[j].charge
  {
    var all := set r | 0 <= r < |list| :: list[r].charge;
    var rest := ListKeys(all - {list[j].charge});
    charges := [list[j].charge] + rest;
    keysOf := ListKeysOf(list, charges);
    forall i | 0 <= i < |charges| ensures HasKey(list, ChargeOf, charges[i]) {
      assert charges[i] in all;
      var r :| 0 <= r < |list| && list[r].charge == charges[i];
      assert ChargeOf(list[r]) == charges[i];
    }
    forall r | 0 <= r < |list| ensures list[r].charge in charges {
      if list[r].charge != list[j].charge {
        assert list[r].charge in rest;
      }
    }
  }

  lemma {:induction false} OrderHead(charges: seq<Option<string>>, keysOf: map<Option<string>, seq<string>>)
    requires charges != [] && forall i | 0 <= i < |charges| :: charges[i] in keysOf
    ensures KeyedBy(charges[0], keysOf[charges[0]]) <= Order(charges, keysOf)
  {
    var init := charges[..|charges| - 1];
    if init == [] {
      assert Order(charges, keysOf) == KeyedBy(charges[0], keysOf[charges[0]]);
    } else {
      OrderHead(init, keysOf);
    }
  }

  /** When the charge of row j comes first, a group that clashes with it comes too late. */
  lemma FirstChargeWins(list: seq<Row>, charges: seq<Option<string>>, keysOf: map<Option<string>, seq<string>>,
                        i: nat, j: nat)
    requires Iteration(list, charges, keysOf) && i < |list| && j < |list| && Clash(list, list[i], list[j])
    requires charges != [] && charges[0] == list[j].charge && RowJob(list, list[i]).lines != []
    ensures !LateAreEmpty(JobsOf(list, Order(charges, keysOf)))
  {
    hide FileName, HasKey, Lines, Select, KeysListed;
    var order := Order(charges, keysOf);
    var jobs, first := JobsOf(list, order), KeyedBy(charges[0], keysOf[charges[0]]);
    ClashSameKey(list, list[i], list[j]);
    OrderHead(charges, keysOf);
    HasOwnKey(list, GroupOf, i);
    OrderIsGroups(list, charges, keysOf, GroupOf(list[i]));
    var n :| 0 <= n < |order| && order[n] == GroupOf(list[i]);
    FirstKey(list, charges, keysOf, j);
    InKeyedBy(charges[0], keysOf[charges[0]], GroupOf(list[j]));
    var m :| 0 <= m < |first| && first[m] == GroupOf(list[j]);
    assert forall k | 0 <= k < |first| :: order[k] == first[k] && order[k].0 == charges[0];
    assert order[m] == first[m];
    assert jobs[m].path == jobs[n].path;
    assert Late(jobs, n);
  }

  lemma FirstKey(list: seq<Row>, charges: seq<Option<string>>, keysOf: map<Option<string>, seq<string>>, j: nat)
    requires Iteration(list, charges, keysOf) && j < |list| && charges != [] && charges[0] == list[j].charge
    ensures KeyOf(list[j]) in keysOf[charges[0]]
  {
    assert KeysListed(list, charges[0], keysOf[charges[0]]);
  }

  /** Groups that share a path have the same key, so it is the charges that differ. */
  lemma ClashSameKey(list: seq<Row>, x: Row, y: Row)
    requires Clash(list, x, y)
    ensures KeyOf(x) == KeyOf(y) && x.charge != y.charge
  {
    hide FileName;
    FileNameInjective(KeyOf(x), |Select(list, GroupOf, GroupOf(x))|, KeyOf(y), |Select(list, GroupOf, GroupOf(y))|);
  }

  lemma NoClashNoLoss(list: seq<Row>, charges: seq<Option<string>>, keysOf: map<Option<string>, seq<string>>)
    requires Iteration(list, charges, keysOf) && NoClash(list)
    ensures LateAreEmpty(JobsOf(list, Order(charges, keysOf)))
  {
    hide FileName, Lines, Select, KeysListed, Order;
    var order := Order(charges, keysOf);
    var jobs := JobsOf(list, order);
    AllLinesAreAll(list, charges, keysOf);
    forall n | 0 <= n < |jobs| && Late(jobs, n) ensures jobs[n].lines == [] {
      var m :| 0 <= m < n && jobs[m].path == jobs[n].path;
      var x := RowOf(list, charges, keysOf, m);
      var y := RowOf(list, charges, keysOf, n);
      assert Clash(list, list[y], list[x]);
    }
  }

  lemma RowOf(list: seq<Row>, charges: seq<Option<string>>, keysOf: map<Option<string>, seq<string>>, n: nat)
    returns (r: nat)
    requires Iteration(list, charges, keysOf) && n < |Order(charges, keysOf)|
    ensures r < |list| && GroupOf(list[r]) == Order(charges, keysOf)[n]
  {
    var g := Order(charges, keysOf)[n];
    OrderIsGroups(list, charges, keysOf, g);
    r :| r < |list| && GroupOf(list[r]) == g;
  }

  /** So no order in which the hash maps may be walked loses a line exactly when no group with numbers
      clashes. */
  lemma NothingLostIff(list: seq<Row>)
    ensures NoClash(list) <==>
              forall charges, keysOf, paths ::
                Iteration(list, charges, keysOf) && Lists(paths, Outcome(list, map[], charges, keysOf)) ==>
                Total(Outcome(list, map[], charges, keysOf), paths) == multiset(Lines(list))
  {
    hide Iteration, Outcome, Lines, Clash, Lists, RowJob, Total, LateAreEmpty;
    if NoClash(list) {
      forall charges, keysOf, paths
        | Iteration(list, charges, keysOf) && Lists(paths, Outcome(list, map[], charges, keysOf))
        ensures Total(Outcome(list, map[], charges, keysOf), paths) == multiset(Lines(list))
      {
        NoClashNoLoss(list, charges, keysOf);
        LostExactly(list, charges, keysOf, paths);
      }
    } else {
      var i: nat, j: nat :|
        i < |list| && j < |list| && Clash(list, list[i], list[j]) && RowJob(list, list[i]).lines != [];
      var charges, keysOf := ChargeFirst(list, j);
      var files := Outcome(list, map[], charges, keysOf);
      var paths := ListKeys(files.Keys);
      ListsKeys(files, paths);
      FirstChargeWins(list, charges, keysOf, i, j);
      LostExactly(list, charges, keysOf, paths);
    }
  }

  lemma ListsKeys(files: map<Path, seq<string>>, paths: seq<Path>)
    requires Enumerates(paths, files.Keys)
    ensures Lists(paths, files)
  {
  }

  /** No file that is written has an empty line. */
  lemma NoEmptyLine(list: seq<Row>, before: map<Path, seq<string>>, charges: seq<Option<string>>,
                    keysOf: map<Option<string>, seq<string>>, p: Path)
    requires Iteration(list, charges, keysOf)
    requires p in Outcome(list, before, charges, keysOf) && p !in before
    ensures "" !in Outcome(list, before, charges, keysOf)[p]
  {
    hide Iteration, Outcome, Lines, Select, FileName;
    OutcomeWritten(list, before, charges, keysOf);
    var lines := Outcome(list, before, charges, keysOf)[p];
    var r :| 0 <= r < |list| && Job(p, lines) == RowJob(list, list[r]);
    LineCounts(Select(list, GroupOf, GroupOf(list[r])), "");
    assert multiset(lines)[""] == 0;
  }

  /** A remark: the count in a file's name is the number of its lines exactly when every row of the group
      has a number. */
  lemma CountIsLines(list: seq<Row>, row: Row)
    ensures var group := Select(list, GroupOf, GroupOf(row));
            && RowJob(list, row).path.1 == FileName(KeyOf(row), |group|)
            && (|RowJob(list, row).lines| == |group| <==> forall i | 0 <= i < |group| :: HasNumber(group[i]))
  {
  }

  /** A row without a charge and one with the charge "null", alone in their groups, clash. */
  lemma MissingChargeClashes(x: string, y: string)
    requires x != ""
    ensures !NoClash([Row(Some(x), None, None, None), Row(Some(y), None, None, Some("null"))])
  {
    var a, b := Row(Some(x), None, None, None), Row(Some(y), None, None, Some("null"));
    var list := [a, b];
    SelectedFrom([], a, GroupOf(a));
    SelectedFrom([a], b, GroupOf(a));
    SelectedFrom([], a, GroupOf(b));
    SelectedFrom([a], b, GroupOf(b));
    assert [] + [a] == [a] && [a] + [b] == list && [] + [b] == [b];
    NumberGivesLine(list, GroupOf, 0);
    assert Clash(list, list[0], list[1]);
  }

  lemma SelectedFrom(rows: seq<Row>, row: Row, k: (Option<string>, string))
    ensures Select(rows + [row], GroupOf, k) == Select(rows, GroupOf, k) + if GroupOf(row) == k then [row] else []
  {
    SelectSnoc(rows, row, GroupOf, k);
  }
}
