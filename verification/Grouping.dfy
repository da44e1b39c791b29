/** Grouping spreadsheet rows twice: by charge, and within a charge by city and payment property. */
module Grouping {

  import opened Options

  /** A row's columns that take part; None stands for null. */
  datatype Row = Row(number: Option<string>, payProp: Option<string>, city: Option<string>, charge: Option<string>)

  /** String.valueOf */
  function ValueOf(o: Option<string>): string {
    match o
    case None => "null"
    case Some(s) => s
  }

  function ChargeOf(row: Row): Option<string> { row.charge }

  function KeyOf(row: Row): string { ValueOf(row.city) + "_" + ValueOf(row.payProp) }

  function GroupOf(row: Row): (Option<string>, string) { (ChargeOf(row), KeyOf(row)) }

  // ---------------------------------------------------------------- what a grouping is

  /** The rows whose key is k, in their order. */
  function Select<K(==)>(rows: seq<Row>, keyOf: Row -> K, k: K): (r: seq<Row>)
    ensures |r| <= |rows|
  {
    if rows == [] then []
    else Select(rows[..|rows| - 1], keyOf, k) +
         if keyOf(rows[|rows| - 1]) == k then [rows[|rows| - 1]] else []
  }

  /** Just the positions of the rows whose key is k, in increasing order. */
  predicate PositionsOf<K(==)>(rows: seq<Row>, keyOf: Row -> K, k: K, at: seq<nat>) {
    && (forall i | 0 <= i < |at| :: at[i] < |rows| && keyOf(rows[at[i]]) == k)
    && (forall i, j | 0 <= i < j < |at| :: at[i] < at[j])
    && (forall i | 0 <= i < |rows| && keyOf(rows[i]) == k :: i in at)
  }

  /** Selecting is filtering in order. */
  lemma {:induction false} SelectIs<K>(rows: seq<Row>, keyOf: Row -> K, k: K) returns (at: seq<nat>)
    ensures PositionsOf(rows, keyOf, k, at)
    ensures |Select(rows, keyOf, k)| == |at|
    ensures forall i | 0 <= i < |at| :: Select(rows, keyOf, k)[i] == rows[at[i]]
  {
    if rows == [] {
      at := [];
    } else {
      var init, last := rows[..|rows| - 1], rows[|rows| - 1];
      var before := SelectIs(init, keyOf, k);
      at := before + if keyOf(last) == k then [|rows| - 1] else [];
      forall i | 0 <= i < |rows| && keyOf(rows[i]) == k ensures i in at {
        if i < |init| {
          assert keyOf(init[i]) == k && i in before;
        } else {
          assert at[|before|] == i;
        }
      }
    }
  }

  predicate HasKey<K(==)>(rows: seq<Row>, keyOf: Row -> K, k: K) {
    exists i :: 0 <= i < |rows| && keyOf(rows[i]) == k
  }

  /** m has just the keys of the rows, each with the rows of that key. */
  ghost predicate Groups<K(!new)>(m: map<K, seq<Row>>, rows: seq<Row>, keyOf: Row -> K) {
    && (forall k :: k in m <==> HasKey(rows, keyOf, k))
    && (forall k :: k in m ==> m[k] == Select(rows, keyOf, k))
  }

  lemma SelectSnoc<K>(rows: seq<Row>, row: Row, keyOf: Row -> K, k: K)
    ensures Select(rows + [row], keyOf, k) == Select(rows, keyOf, k) + if keyOf(row) == k then [row] else []
  {
    assert (rows + [row])[..|rows|] == rows;
  }

  lemma HasKeySnoc<K>(rows: seq<Row>, row: Row, keyOf: Row -> K, k: K)
    ensures HasKey(rows + [row], keyOf, k) <==> HasKey(rows, keyOf, k) || keyOf(row) == k
  {
    if HasKey(rows, keyOf, k) {
      var i :| 0 <= i < |rows| && keyOf(rows[i]) == k;
      assert (rows + [row])[i] == rows[i];
    }
    assert (rows + [row])[|rows|] == row;
  }

  lemma {:induction false} SelectNone<K>(rows: seq<Row>, keyOf: Row -> K, k: K)
    ensures Select(rows, keyOf, k) != [] <==> HasKey(rows, keyOf, k)
  {
    if rows != [] {
      var init, last := rows[..|rows| - 1], rows[|rows| - 1];
      assert rows == init + [last];
      SelectNone(init, keyOf, k);
      HasKeySnoc(init, last, keyOf, k);
    }
  }

  /** Appending a row to the list of its key, which is created when it is missing. */
  lemma GroupsStep<K(!new)>(m: map<K, seq<Row>>, rows: seq<Row>, row: Row, keyOf: Row -> K)
    requires Groups(m, rows, keyOf)
    ensures var k := keyOf(row);
            Groups(m[k := (if k in m then m[k] else []) + [row]], rows + [row], keyOf)
  {
    hide Select, HasKey;
    var t := m[keyOf(row) := (if keyOf(row) in m then m[keyOf(row)] else []) + [row]];
    SelectNone(rows, keyOf, keyOf(row));
    forall k ensures k in t <==> HasKey(rows + [row], keyOf, k) {
      HasKeySnoc(rows, row, keyOf, k);
    }
    forall k | k in t ensures t[k] == Select(rows + [row], keyOf, k) {
      SelectSnoc(rows, row, keyOf, k);
    }
  }

  // ---------------------------------------------------------------- the two passes

  /** The rows by charge; None stands for the null returned for an empty list. */
  method FilterByPay(list: seq<Row>) returns (ret: Option<map<Option<string>, seq<Row>>>)
    ensures ret.None? <==> list == []
    ensures ret.Some? ==> Groups(ret.value, list, ChargeOf)
  {
    hide Select, HasKey;
    if list == [] {
      return None;
    }
    var m := map[];
    NoGroups(m, list[..0], ChargeOf);
    var i := 0;
    while i < |list|
      invariant 0 <= i <= |list|
      invariant Groups(m, list[..i], ChargeOf)
    {
      var bean := list[i];
      var pay := bean.charge;
      GroupsStep(m, list[..i], bean, ChargeOf);
      assert list[..i + 1] == list[..i] + [bean];
      if pay !in m {
        m := m[pay := []];
      }
      m := m[pay := m[pay] + [bean]];
      i := i + 1;
    }
    assert list[..i] == list;
    ret := Some(m);
  }

  lemma NoGroups<K(!new)>(m: map<K, seq<Row>>, rows: seq<Row>, keyOf: Row -> K)
    requires m == map[] && rows == []
    ensures Groups(m, rows, keyOf)
  {
  }

  /** The inner loop: the rows of one charge by city and payment property. */
  method GroupByKey(list: seq<Row>) returns (temMap: map<string, seq<Row>>)
    ensures Groups(temMap, list, KeyOf)
  {
    hide Select, HasKey;
    temMap := map[];
    NoGroups(temMap, list[..0], KeyOf);
    var i := 0;
    while i < |list|
      invariant 0 <= i <= |list|
      invariant Groups(temMap, list[..i], KeyOf)
    {
      var bean := list[i];
      var temp := ValueOf(bean.city) + "_" + ValueOf(bean.payProp);
      GroupsStep(temMap, list[..i], bean, KeyOf);
      assert list[..i + 1] == list[..i] + [bean];
      if temp !in temMap {
        temMap := temMap[temp := []];
      }
      temMap := temMap[temp := temMap[temp] + [bean]];
      i := i + 1;
    }
    assert list[..i] == list;
  }

  /** One line of the two-column result. */
  datatype Group = Group(charge: Option<string>, byKey: map<string, seq<Row>>)

  predicate NoRepeats<K(==)>(keys: seq<K>) {
    forall i, j | 0 <= i < j < |keys| :: keys[i] != keys[j]
  }

  /** An order in which a hash map may be walked: its keys, each once. */
  predicate Enumerates<K(==)>(order: seq<K>, keys: set<K>) {
    && NoRepeats(order)
    && (forall i | 0 <= i < |order| :: order[i] in keys)
    && (forall k | k in keys :: k in order)
  }

  lemma {:induction false} EnumerationSize<K>(order: seq<K>, keys: set<K>)
    requires Enumerates(order, keys)
    ensures |order| == |keys|
    decreases |order|
  {
    if order == [] {
      assert keys == {};
    } else {
      var init, last := order[..|order| - 1], order[|order| - 1];
      assert order == init + [last];
      EnumerationSize(init, keys - {last});
    }
  }

  /** One line for each charge, in the order in which they were walked, with its rows grouped by key. */
  ghost predicate Filled(objs: seq<Group>, m: map<Option<string>, seq<Row>>, order: seq<Option<string>>) {
    && |objs| == |order|
    && (forall j | 0 <= j < |objs| ::
          && objs[j].charge == order[j] && order[j] in m
          && Groups(objs[j].byKey, m[order[j]], KeyOf))
  }

  /** order is that in which the key set is walked.  An empty array stands for null, which is treated
      alike. */
  method FilterByCityAndPayProp(m: map<Option<string>, seq<Row>>, order: seq<Option<string>>)
    returns (objs: array<Group>)
    requires Enumerates(order, m.Keys)
    ensures fresh(objs) && Filled(objs[..], m, order)
  {
    hide Groups;
    EnumerationSize(order, m.Keys);
    objs := new Group[|m.Keys|];
    var index := 0;
    while index < |order|
      invariant 0 <= index <= |order| == objs.Length
      invariant Filled(objs[..index], m, order[..index])
    {
      var key := order[index];
      var temMap := GroupByKey(m[key]);
      objs[index] := Group(key, temMap);
      index := index + 1;
    }
    assert objs[..index] == objs[..] && order[..index] == order;
  }

  // ---------------------------------------------------------------- main results

  lemma {:induction false} SelectTwice(rows: seq<Row>, c: Option<string>, k: string)
    ensures Select(Select(rows, ChargeOf, c), KeyOf, k) == Select(rows, GroupOf, (c, k))
  {
    if rows != [] {
      var init, last := rows[..|rows| - 1], rows[|rows| - 1];
      SelectTwice(init, c, k);
      var s := Select(init, ChargeOf, c);
      if ChargeOf(last) == c {
        assert Select(rows, ChargeOf, c) == s + [last];
        SelectSnoc(s, last, KeyOf, k);
        assert GroupOf(last) == (c, k) <==> KeyOf(last) == k;
      } else {
        assert Select(rows, ChargeOf, c) == s;
      }
    }
  }

  predicate HasGroup(objs: seq<Group>, row: Row) {
    exists i :: 0 <= i < |objs| && objs[i].charge == ChargeOf(row) && KeyOf(row) in objs[i].byKey
  }

  /** Both passes: each charge and key of a row appears once, with exactly the rows of that charge and
      key in their order. */
  lemma TwoPasses(list: seq<Row>, m: map<Option<string>, seq<Row>>, order: seq<Option<string>>, objs: seq<Group>)
    requires Groups(m, list, ChargeOf) && Enumerates(order, m.Keys) && Filled(objs, m, order)
    ensures forall i, k | 0 <= i < |objs| && k in objs[i].byKey ::
              objs[i].byKey[k] == Select(list, GroupOf, (objs[i].charge, k)) && objs[i].byKey[k] != []
    ensures forall r | 0 <= r < |list| :: HasGroup(objs, list[r])
  {
    hide Select, HasKey;
    forall i, k | 0 <= i < |objs| && k in objs[i].byKey
      ensures objs[i].byKey[k] == Select(list, GroupOf, (objs[i].charge, k)) && objs[i].byKey[k] != []
    {
      SelectTwice(list, objs[i].charge, k);
      SelectNone(m[objs[i].charge], KeyOf, k);
    }
    forall r | 0 <= r < |list|
      ensures HasGroup(objs, list[r])
    {
      RowHasGroup(list, m, order, objs, r);
    }
  }

  lemma HasOwnKey<K>(list: seq<Row>, keyOf: Row -> K, r: nat)
    requires r < |list|
    ensures HasKey(list, keyOf, keyOf(list[r]))
  {
  }

  lemma RowHasGroup(list: seq<Row>, m: map<Option<string>, seq<Row>>, order: seq<Option<string>>, objs: seq<Group>,
                    r: nat)
    requires Groups(m, list, ChargeOf) && Enumerates(order, m.Keys) && Filled(objs, m, order) && r < |list|
    ensures HasGroup(objs, list[r])
  {
    hide Select, HasKey;
    var c, k := list[r].charge, KeyOf(list[r]);
    HasOwnKey(list, ChargeOf, r);
    HasOwnKey(list, GroupOf, r);
    var i :| 0 <= i < |order| && order[i] == c;
    SelectNone(list, GroupOf, (c, k));
    SelectTwice(list, c, k);
    SelectNone(m[c], KeyOf, k);
  }

  /** The second text begins with the first and an underscore, and what follows there is moved to the
      front of the first one's property. */
  predicate Shifted(a: string, p: string, b: string, q: string) {
    a + "_" <= b && p == b[|a| + 1..] + "_" + q
  }

  lemma ShiftedMeets(a: string, p: string, b: string, q: string)
    requires Shifted(a, p, b, q)
    ensures a + "_" + p == b + "_" + q
  {
    assert b == a + "_" + b[|a| + 1..];
  }

  lemma MeetShorter(a: string, p: string, b: string, q: string)
    requires a + "_" + p == b + "_" + q && |a| <= |b|
    ensures (a == b && p == q) || Shifted(a, p, b, q)
  {
    var s, t := a + "_" + p, b + "_" + q;
    assert s[..|a|] == a && s[|a|] == '_' && s[|a| + 1..] == p;
    assert t[..|b|] == b && t[|b| + 1..] == q;
    if |a| < |b| {
      assert b == t[..|b|] && b[..|a|] == a && b[|a|] == '_';
      assert p == t[|a| + 1..] == b[|a| + 1..] + "_" + q;
    }
  }

  /** Two rows share a key exactly when city and payment property print alike, or one city goes on, after
      the other and an underscore, with the beginning of the other's payment property. */
  lemma SameKeyIff(x: Row, y: Row)
    ensures var a, p, b, q := ValueOf(x.city), ValueOf(x.payProp), ValueOf(y.city), ValueOf(y.payProp);
            KeyOf(x) == KeyOf(y) <==> (a == b && p == q) || Shifted(a, p, b, q) || Shifted(b, q, a, p)
  {
    hide Shifted;
    var a, p, b, q := ValueOf(x.city), ValueOf(x.payProp), ValueOf(y.city), ValueOf(y.payProp);
    if KeyOf(x) == KeyOf(y) {
      if |a| <= |b| {
        MeetShorter(a, p, b, q);
      } else {
        MeetShorter(b, q, a, p);
      }
    }
    if Shifted(a, p, b, q) {
      ShiftedMeets(a, p, b, q);
    }
    if Shifted(b, q, a, p) {
      ShiftedMeets(b, q, a, p);
    }
  }

  lemma ShiftedUnderscore(a: string, p: string, b: string, q: string)
    requires Shifted(a, p, b, q)
    ensures '_' in b
  {
    assert b[|a|] == (a + "_")[|a|] == '_';
  }

  /** So keys tell city and payment property apart when no city has an underscore. */
  lemma KeyTellsApart(x: Row, y: Row)
    requires '_' !in ValueOf(x.city) && '_' !in ValueOf(y.city)
    ensures KeyOf(x) == KeyOf(y) <==> ValueOf(x.city) == ValueOf(y.city) && ValueOf(x.payProp) == ValueOf(y.payProp)
  {
    hide Shifted;
    var a, p, b, q := ValueOf(x.city), ValueOf(x.payProp), ValueOf(y.city), ValueOf(y.payProp);
    SameKeyIff(x, y);
    assert !Shifted(a, p, b, q) by {
      if Shifted(a, p, b, q) { ShiftedUnderscore(a, p, b, q); }
    }
    assert !Shifted(b, q, a, p) by {
      if Shifted(b, q, a, p) { ShiftedUnderscore(b, q, a, p); }
    }
  }

  /** The shortest confusion. */
  lemma KeyConfuses(number: Option<string>, charge: Option<string>)
    ensures KeyOf(Row(number, Some("c"), Some("a_b"), charge)) == KeyOf(Row(number, Some("b_c"), Some("a"), charge))
  {
    assert "a_b" + "_" + "c" == "a_b_c" == "a" + "_" + "b_c";
  }
}
