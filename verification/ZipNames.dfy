/** Flattening a directory tree into archive entries, and rebuilding the tree from them. */
module ZipNames {
  import opened Bits

  datatype Tree = File(content: seq<Byte>) | Dir(children: seq<Child>)
  datatype Child = Child(name: string, tree: Tree)

  /** A directory entry is one whose name ends with '/'; nothing is written to it. */
  datatype Entry = Entry(name: string, content: seq<Byte>)

  predicate GoodName(n: string) {
    n != "" && '/' !in n
  }

  /** Non-empty names without slashes, distinct among siblings, at every level. */
  predicate WellNamed(ch: seq<Child>)
    decreases ch
  {
    ch != [] ==>
      && GoodName(ch[0].name)
      && (forall i | 1 <= i < |ch| :: ch[i].name != ch[0].name)
      && (ch[0].tree.Dir? ==> WellNamed(ch[0].tree.children))
      && WellNamed(ch[1..])
  }

  // ---------------------------------------------------------------- entries, as the code names them

  /** The entries of ZipTest.zip(out, f, base), in order. */
  function Entries(f: Tree, base: string): seq<Entry>
    decreases f, 0
  {
    match f
    case File(content) => [Entry(base, content)]
    case Dir(ch) => [Entry(base + "/", [])] + ForestEntries(ch, if base == "" then "" else base + "/")
  }

  function ForestEntries(ch: seq<Child>, prefix: string): seq<Entry>
    decreases ch, 1
  {
    if ch == [] then []
    else Entries(ch[0].tree, prefix + ch[0].name) + ForestEntries(ch[1..], prefix)
  }

  /** The entries of ZipCompressor.compress(file, out, basedir), in order: files only. */
  function FileEntries(name: string, f: Tree, basedir: string): seq<Entry>
    decreases f, 0
  {
    match f
    case File(content) => [Entry(basedir + name, content)]
    case Dir(ch) => ForestFileEntries(ch, basedir + name + "/")
  }

  function ForestFileEntries(ch: seq<Child>, basedir: string): seq<Entry>
    decreases ch, 1
  {
    if ch == [] then []
    else FileEntries(ch[0].name, ch[0].tree, basedir) + ForestFileEntries(ch[1..], basedir)
  }

  // ---------------------------------------------------------------- items: entries with split names

  datatype Item = Item(path: seq<string>, dir: bool, content: seq<Byte>)

  function Under(n: string, items: seq<Item>): (r: seq<Item>)
    ensures |r| == |items|
    ensures forall i | 0 <= i < |r| :: r[i] == items[i].(path := [n] + items[i].path)
  {
    if items == [] then [] else [items[0].(path := [n] + items[0].path)] + Under(n, items[1..])
  }

  /** The items of a forest, with or without an item for each directory. */
  function Items(ch: seq<Child>, dirs: bool): seq<Item>
    decreases ch, 1
  {
    if ch == [] then [] else ChildItems(ch[0], dirs) + Items(ch[1..], dirs)
  }

  function ChildItems(c: Child, dirs: bool): seq<Item>
    decreases c, 0
  {
    match c.tree
    case File(content) => [Item([c.name], false, content)]
    case Dir(sub) => (if dirs then [Item([c.name], true, [])] else []) + Under(c.name, Items(sub, dirs))
  }

  // ---------------------------------------------------------------- rebuilding

  /** How many leading items lie under n. */
  function RunLength(items: seq<Item>, n: string): (k: nat)
    ensures k <= |items|
  {
    if items != [] && items[0].path != [] && items[0].path[0] == n then 1 + RunLength(items[1..], n) else 0
  }

  function Weight(items: seq<Item>): nat {
    if items == [] then 0 else |items[0].path| + Weight(items[1..])
  }

  /** The items below a directory, without the directory's own item. */
  function Below(items: seq<Item>): seq<Item> {
    if items == [] then [] else BelowOne(items[0]) + Below(items[1..])
  }

  function BelowOne(item: Item): seq<Item> {
    if |item.path| <= 1 then [] else [item.(path := item.path[1..])]
  }

  lemma {:induction false} WeightConcat(a: seq<Item>, b: seq<Item>)
    ensures Weight(a + b) == Weight(a) + Weight(b)
  {
    if a == [] {
      assert a + b == b;
    } else {
      WeightConcat(a[1..], b);
      assert (a + b)[1..] == a[1..] + b;
    }
  }

  lemma {:induction false} WeightBelow(items: seq<Item>)
    ensures Weight(Below(items)) <= Weight(items)
    ensures items != [] && items[0].path != [] ==> Weight(Below(items)) < Weight(items)
  {
    if items != [] {
      WeightBelow(items[1..]);
      WeightConcat(BelowOne(items[0]), Below(items[1..]));
    }
  }

  lemma WeightSplit(items: seq<Item>, k: nat)
    requires k <= |items|
    ensures Weight(items[..k]) + Weight(items[k..]) == Weight(items)
  {
    hide Weight;
    WeightConcat(items[..k], items[k..]);
    assert items == items[..k] + items[k..];
  }

  /** Groups consecutive items by the first component of their paths.  An item without a path is ignored. */
  function Build(items: seq<Item>): seq<Child>
    decreases Weight(items), |items|
  {
    if items == [] then []
    else if items[0].path == [] then Build(items[1..])
    else
      var n := items[0].path[0];
      var k := RunLength(items, n);
      WeightSplit(items, k);
      WeightBelow(items[..k]);
      assert items[..k][0] == items[0];
      var tree := if |items[0].path| == 1 && !items[0].dir then File(items[0].content)
                  else Dir(Build(Below(items[..k])));
      [Child(n, tree)] + Build(items[k..])
  }

  /** The tree without the directories that have no file below them. */
  function Prune(ch: seq<Child>): seq<Child>
    decreases ch
  {
    if ch == [] then []
    else
      var c := ch[0];
      var kept := match c.tree
        case File(_) => [c]
        case Dir(sub) => (var p := Prune(sub); if p == [] then [] else [Child(c.name, Dir(p))]);
      kept + Prune(ch[1..])
  }

  // ---------------------------------------------------------------- items rebuild the tree

  lemma {:induction false} RunLengthConcat(a: seq<Item>, b: seq<Item>, n: string)
    requires forall i | 0 <= i < |a| :: a[i].path != [] && a[i].path[0] == n
    requires b != [] ==> b[0].path != [] && b[0].path[0] != n
    ensures RunLength(a + b, n) == |a|
  {
    if a == [] {
      assert a + b == b;
    } else {
      RunLengthConcat(a[1..], b, n);
      assert (a + b)[1..] == a[1..] + b;
    }
  }

  lemma BelowUnfold(items: seq<Item>)
    ensures Below(items) == if items == [] then [] else BelowOne(items[0]) + Below(items[1..])
  {
  }

  lemma {:induction false} BelowConcat(a: seq<Item>, b: seq<Item>)
    ensures Below(a + b) == Below(a) + Below(b)
  {
    hide Below, BelowOne;
    BelowUnfold(a);
    if a == [] {
      assert a + b == b;
    } else {
      BelowUnfold(a + b);
      assert (a + b)[1..] == a[1..] + b;
      BelowConcat(a[1..], b);
    }
  }

  lemma {:induction false} BelowUnder(n: string, items: seq<Item>)
    requires forall i | 0 <= i < |items| :: items[i].path != []
    ensures Below(Under(n, items)) == items
  {
    if items != [] {
      BelowUnder(n, items[1..]);
      var u := Under(n, items);
      assert u[0].path[1..] == items[0].path;
      assert u[1..] == Under(n, items[1..]);
    }
  }

  /** Every item of a forest has a path that begins with the name of one of its children. */
  lemma {:induction false} ItemPaths(ch: seq<Child>, dirs: bool)
    ensures forall i | 0 <= i < |Items(ch, dirs)| ::
              var p := Items(ch, dirs)[i].path;
              p != [] && exists j :: 0 <= j < |ch| && p[0] == ch[j].name
  {
    if ch != [] {
      ItemPaths(ch[1..], dirs);
      var a: seq<Item>, b: seq<Item> := ChildItems(ch[0], dirs), Items(ch[1..], dirs);
      forall i: int | 0 <= i < |a + b|
        ensures var p: seq<string> := (a + b)[i].path; p != [] && exists j :: 0 <= j < |ch| && p[0] == ch[j].name
      {
        if i < |a| {
          assert a[i].path[0] == ch[0].name;
        } else {
          assert (a + b)[i] == b[i - |a|];
          var j :| 0 <= j < |ch[1..]| && b[i - |a|].path[0] == ch[1..][j].name;
          assert ch[j + 1].name == ch[1..][j].name;
        }
      }
    }
  }

  /** The items of the remaining children do not begin with the first child's name. */
  lemma OtherPaths(ch: seq<Child>, dirs: bool)
    requires ch != [] && WellNamed(ch)
    ensures forall i | 0 <= i < |Items(ch[1..], dirs)| ::
              Items(ch[1..], dirs)[i].path != [] && Items(ch[1..], dirs)[i].path[0] != ch[0].name
  {
    ItemPaths(ch[1..], dirs);
    forall i | 0 <= i < |Items(ch[1..], dirs)|
      ensures Items(ch[1..], dirs)[i].path != [] && Items(ch[1..], dirs)[i].path[0] != ch[0].name
    {
      var j :| 0 <= j < |ch[1..]| && Items(ch[1..], dirs)[i].path[0] == ch[1..][j].name;
      assert ch[j + 1].name == ch[1..][j].name;
    }
  }

  lemma BuildFirst(a: seq<Item>, b: seq<Item>, n: string)
    requires a != [] && forall i | 0 <= i < |a| :: a[i].path != [] && a[i].path[0] == n
    requires b != [] ==> b[0].path != [] && b[0].path[0] != n
    ensures var tree := if |a[0].path| == 1 && !a[0].dir then File(a[0].content) else Dir(Build(Below(a)));
            Build(a + b) == [Child(n, tree)] + Build(b)
  {
    RunLengthConcat(a, b, n);
    assert (a + b)[..|a|] == a && (a + b)[|a|..] == b;
  }

  lemma BelowChild(c: Child, dirs: bool)
    requires c.tree.Dir?
    ensures Below(ChildItems(c, dirs)) == Items(c.tree.children, dirs)
  {
    hide Items;
    var items := Items(c.tree.children, dirs);
    ItemPaths(c.tree.children, dirs);
    BelowUnder(c.name, items);
    if dirs {
      var own := [Item([c.name], true, [])];
      BelowConcat(own, Under(c.name, items));
      assert Below(own) == [];
    } else {
      assert ChildItems(c, dirs) == Under(c.name, items);
    }
  }

  /** What one child contributes to the rebuilt tree. */
  lemma BuildChild(c: Child, b: seq<Item>, dirs: bool, sub: seq<Child>)
    requires b != [] ==> b[0].path != [] && b[0].path[0] != c.name
    requires c.tree.Dir? ==> Build(Items(c.tree.children, dirs)) == sub
    requires c.tree.Dir? && !dirs && Items(c.tree.children, dirs) == [] ==> sub == []
    requires c.tree.Dir? && !dirs && Items(c.tree.children, dirs) != [] ==> sub != []
    ensures Build(ChildItems(c, dirs) + b) ==
              (if c.tree.File? then [c] else if !dirs && sub == [] then [] else [Child(c.name, Dir(sub))]) + Build(b)
  {
    hide Build, Below, Items;
    var a := ChildItems(c, dirs);
    if a == [] {
      assert a + b == b;
      assert [] + Build(b) == Build(b);
    } else {
      if c.tree.Dir? {
        BelowChild(c, dirs);
        ItemPaths(c.tree.children, dirs);
        assert dirs || |a[0].path| > 1;
      }
      BuildFirst(a, b, c.name);
    }
  }

  /** Rebuilding from the items gives the tree back, or without directory items the pruned tree. */
  lemma {:induction false} BuildItems(ch: seq<Child>, dirs: bool)
    requires WellNamed(ch)
    ensures Build(Items(ch, dirs)) == if dirs then ch else Prune(ch)
    decreases ch
  {
    hide Build;
    if ch == [] {
      assert Build([]) == [] by { BuildEmpty(); }
    } else {
      var c := ch[0];
      OtherPaths(ch, dirs);
      BuildItems(ch[1..], dirs);
      if c.tree.Dir? {
        var sub := c.tree.children;
        BuildItems(sub, dirs);
        if Items(sub, dirs) == [] {
          BuildEmpty();
        } else {
          ItemPaths(sub, dirs);
          BuildNonEmpty(Items(sub, dirs));
        }
        BuildChild(c, Items(ch[1..], dirs), dirs, if dirs then sub else Prune(sub));
        assert dirs ==> [Child(c.name, Dir(sub))] + ch[1..] == ch;
      } else {
        BuildChild(c, Items(ch[1..], dirs), dirs, []);
        assert [c] + ch[1..] == ch;
      }
    }
  }

  lemma BuildEmpty()
    ensures Build([]) == []
  {
  }

  lemma BuildNonEmpty(items: seq<Item>)
    requires items != [] && items[0].path != []
    ensures Build(items) != []
  {
  }

  // ---------------------------------------------------------------- what pruning keeps

  /** Every directory has a file somewhere below it. */
  predicate NoBareDirs(ch: seq<Child>)
    decreases ch
  {
    ch != [] ==>
      && (ch[0].tree.Dir? ==> Items(ch[0].tree.children, false) != [] && NoBareDirs(ch[0].tree.children))
      && NoBareDirs(ch[1..])
  }

  lemma ItemsCons(c: Child, ch: seq<Child>, dirs: bool)
    ensures Items([c] + ch, dirs) == ChildItems(c, dirs) + Items(ch, dirs)
  {
    assert ([c] + ch)[1..] == ch;
  }

  /** Pruning keeps every file where it is, and leaves no directory without one. */
  lemma {:induction false} PruneKeepsFiles(ch: seq<Child>)
    ensures Items(Prune(ch), false) == Items(ch, false) && NoBareDirs(Prune(ch))
    decreases ch
  {
    if ch != [] {
      var c, rest := ch[0], Prune(ch[1..]);
      PruneKeepsFiles(ch[1..]);
      match c.tree
      case File(_) =>
        ItemsCons(c, rest, false);
        assert ([c] + rest)[1..] == rest;
      case Dir(sub) =>
        PruneKeepsFiles(sub);
        var p := Prune(sub);
        if p == [] {
          assert Under(c.name, Items(sub, false)) == [];
          assert [] + rest == rest;
        } else {
          var kept := Child(c.name, Dir(p));
          ItemsCons(kept, rest, false);
          NotBare(p);
          assert ([kept] + rest)[1..] == rest;
        }
    }
  }

  lemma NotBare(ch: seq<Child>)
    requires ch != [] && NoBareDirs(ch)
    ensures Items(ch, false) != []
  {
    match ch[0].tree
    case File(_) =>
    case Dir(sub) =>
      assert Under(ch[0].name, Items(sub, false)) != [];
  }

  // ---------------------------------------------------------------- a small tree

  /** d with an empty directory e and a file f. */
  function SmallTree(content: seq<Byte>): seq<Child> {
    [Child("d", Dir([Child("e", Dir([])), Child("f", File(content))]))]
  }

  lemma ForestOne(c: Child, prefix: string)
    ensures ForestEntries([c], prefix) == Entries(c.tree, prefix + c.name)
    ensures ForestFileEntries([c], prefix) == FileEntries(c.name, c.tree, prefix)
  {
    assert [c][1..] == [];
  }

  lemma ForestTwo(c: Child, d: Child, prefix: string)
    ensures ForestEntries([c, d], prefix) == Entries(c.tree, prefix + c.name) + Entries(d.tree, prefix + d.name)
    ensures ForestFileEntries([c, d], prefix) ==
              FileEntries(c.name, c.tree, prefix) + FileEntries(d.name, d.tree, prefix)
  {
    assert [c, d][1..] == [d];
    ForestOne(d, prefix);
  }

  lemma SmallTreeEntries(content: seq<Byte>)
    ensures Entries(Dir(SmallTree(content)), "") ==
              [Entry("/", []), Entry("d/", []), Entry("d/e/", []), Entry("d/f", content)]
  {
    var e, f := Child("e", Dir([])), Child("f", File(content));
    var d := Child("d", Dir([e, f]));
    ForestOne(d, "");
    ForestTwo(e, f, "d/");
    assert "" + "d" == "d" && "d" + "/" == "d/" && "" + "/" == "/";
    assert "d/" + "e" == "d/e" && "d/e" + "/" == "d/e/" && "d/" + "f" == "d/f";
    assert Entries(e.tree, "d/e") == [Entry("d/e/", [])];
    hide ForestEntries;
    assert Entries(d.tree, "d") == [Entry("d/", []), Entry("d/e/", []), Entry("d/f", content)];
  }

  lemma SmallTreeFiles(content: seq<Byte>)
    ensures FileEntries("r", Dir(SmallTree(content)), "") == [Entry("r/d/f", content)]
  {
    var e, f := Child("e", Dir([])), Child("f", File(content));
    var d := Child("d", Dir([e, f]));
    ForestOne(d, "r/");
    ForestTwo(e, f, "r/d/");
    assert "" + "r" + "/" == "r/" && "r/" + "d" + "/" == "r/d/" && "r/d/" + "f" == "r/d/f";
    assert FileEntries("e", e.tree, "r/d/") == [];
    hide ForestFileEntries;
  }
}
