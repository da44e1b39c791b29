/** Entry names as strings: they are pairwise distinct, and the tree can be read back from them. */
module ZipRoundTrip {
  import opened Bits
  import opened ZipNames
  import opened Text

  // ---------------------------------------------------------------- joining and splitting names

  function Join(path: seq<string>): string {
    if path == [] then ""
    else if |path| == 1 then path[0]
    else Join(path[..|path| - 1]) + "/" + path[|path| - 1]
  }

  /** What the code puts before the name of an entry below path. */
  function Prefix(path: seq<string>): string {
    if path == [] then "" else Join(path) + "/"
  }

  function Components(s: string): (r: seq<string>)
    ensures r != []
    decreases |s|
  {
    var k := LastIndex(s, '/');
    if k < 0 then [s] else Components(s[..k]) + [s[k + 1..]]
  }

  predicate SlashFree(path: seq<string>) {
    forall i | 0 <= i < |path| :: '/' !in path[i]
  }

  lemma ComponentsSnoc(a: string, x: string)
    requires '/' !in x
    ensures Components(x) == [x] && Components(a + "/" + x) == Components(a) + [x]
  {
    LastIndexIs(a, '/', x);
    var s := a + ['/'] + x;
    assert s == a + "/" + x;
    assert s[..|a|] == a && s[|a| + 1..] == x;
  }

  lemma {:induction false} ComponentsJoin(path: seq<string>)
    requires path != [] && SlashFree(path)
    ensures Components(Join(path)) == path
    decreases |path|
  {
    hide Components;
    var init, last := path[..|path| - 1], path[|path| - 1];
    assert path == init + [last];
    ComponentsSnoc(Join(init), last);
    if init != [] {
      ComponentsJoin(init);
    }
  }

  lemma JoinSnoc(path: seq<string>, x: string)
    ensures Join(path + [x]) == Prefix(path) + x
  {
    assert (path + [x])[..|path|] == path;
  }

  // ---------------------------------------------------------------- entries are named items

  function FullPath(path: seq<string>, item: Item): seq<string> {
    path + item.path + if item.dir then [""] else []
  }

  function Named(path: seq<string>, items: seq<Item>): (r: seq<Entry>)
    ensures |r| == |items|
    ensures forall i | 0 <= i < |r| :: r[i] == Entry(Join(FullPath(path, items[i])), items[i].content)
  {
    if items == [] then []
    else [Entry(Join(FullPath(path, items[0])), items[0].content)] + Named(path, items[1..])
  }

  lemma {:induction false} NamedConcat(path: seq<string>, a: seq<Item>, b: seq<Item>)
    ensures Named(path, a + b) == Named(path, a) + Named(path, b)
  {
    hide Named, Join, FullPath;
    assert |a + b| == |a| + |b|;
  }

  lemma {:induction false} NamedUnder(path: seq<string>, n: string, items: seq<Item>)
    ensures Named(path, Under(n, items)) == Named(path + [n], items)
  {
    if items != [] {
      NamedUnder(path, n, items[1..]);
      assert Under(n, items)[1..] == Under(n, items[1..]);
      assert FullPath(path, Under(n, items)[0]) == FullPath(path + [n], items[0]);
    }
  }

  lemma NamedOne(path: seq<string>, n: string, dir: bool, content: seq<Byte>)
    ensures Named(path, [Item([n], dir, content)]) ==
              [Entry(if dir then Prefix(path) + n + "/" else Prefix(path) + n, content)]
  {
    JoinSnoc(path, n);
    JoinSnoc(path + [n], "");
    assert FullPath(path, Item([n], dir, content)) == if dir then path + [n] + [""] else path + [n];
    assert Join(path + [n]) + "/" + "" == Join(path + [n]) + "/";
  }

  lemma PrefixSnoc(path: seq<string>, n: string)
    ensures Prefix(path + [n]) == Prefix(path) + n + "/"
  {
    JoinSnoc(path, n);
  }

  /** The entries zip emits for a forest are its items under their joined names. */
  lemma {:induction false} ForestIsNamed(ch: seq<Child>, path: seq<string>)
    requires WellNamed(ch)
    ensures ForestEntries(ch, Prefix(path)) == Named(path, Items(ch, true))
    decreases ch
  {
    hide Join, Prefix, FullPath;
    if ch != [] {
      var c, n := ch[0], ch[0].name;
      ForestIsNamed(ch[1..], path);
      NamedConcat(path, ChildItems(c, true), Items(ch[1..], true));
      var base := Prefix(path) + n;
      assert base != "";
      match c.tree
      case File(content) =>
        NamedOne(path, n, false, content);
      case Dir(sub) =>
        NamedOne(path, n, true, []);
        PrefixSnoc(path, n);
        ForestIsNamed(sub, path + [n]);
        NamedConcat(path, [Item([n], true, [])], Under(n, Items(sub, true)));
        NamedUnder(path, n, Items(sub, true));
    }
  }

  /** The entries compress emits are the items of the files under their joined names. */
  lemma {:induction false} FilesAreNamed(name: string, f: Tree, path: seq<string>)
    ensures FileEntries(name, f, Prefix(path)) == Named(path, ChildItems(Child(name, f), false))
    decreases f, 0
  {
    hide Join, Prefix, FullPath;
    match f
    case File(content) =>
      NamedOne(path, name, false, content);
    case Dir(ch) =>
      PrefixSnoc(path, name);
      ForestFilesAreNamed(ch, path + [name]);
      NamedUnder(path, name, Items(ch, false));
      assert ChildItems(Child(name, f), false) == Under(name, Items(ch, false));
  }

  lemma {:induction false} ForestFilesAreNamed(ch: seq<Child>, path: seq<string>)
    ensures ForestFileEntries(ch, Prefix(path)) == Named(path, Items(ch, false))
    decreases ch, 1
  {
    hide Join, Prefix, FullPath;
    if ch != [] {
      FilesAreNamed(ch[0].name, ch[0].tree, path);
      assert Child(ch[0].name, ch[0].tree) == ch[0];
      ForestFilesAreNamed(ch[1..], path);
      NamedConcat(path, ChildItems(ch[0], false), Items(ch[1..], false));
    }
  }

  // ---------------------------------------------------------------- reading names back

  /** A name that ends with '/' is a directory's. */
  function ReadEntry(e: Entry): Item {
    var c := Components(e.name);
    if c[|c| - 1] == "" then Item(c[..|c| - 1], true, e.content) else Item(c, false, e.content)
  }

  function ReadAll(entries: seq<Entry>): seq<Item> {
    if entries == [] then [] else [ReadEntry(entries[0])] + ReadAll(entries[1..])
  }

  /** A path of proper names; directories carry no content. */
  predicate GoodItem(item: Item) {
    && item.path != []
    && (forall i | 0 <= i < |item.path| :: GoodName(item.path[i]))
    && (item.dir ==> item.content == [])
  }

  lemma ReadNamed(item: Item)
    requires GoodItem(item)
    ensures ReadEntry(Entry(Join(FullPath([], item)), item.content)) == item
  {
    hide Join, Components;
    var p := FullPath([], item);
    assert [] + item.path == item.path;
    assert SlashFree(p);
    ComponentsJoin(p);
    if item.dir {
      assert p[..|p| - 1] == item.path;
    }
  }

  lemma {:induction false} ReadAllNamed(items: seq<Item>)
    requires forall i | 0 <= i < |items| :: GoodItem(items[i])
    ensures ReadAll(Named([], items)) == items
  {
    hide Join, FullPath, ReadEntry;
    if items != [] {
      ReadNamed(items[0]);
      ReadAllNamed(items[1..]);
      assert Named([], items)[1..] == Named([], items[1..]);
    }
  }

  lemma {:induction false} ItemsAreGood(ch: seq<Child>, dirs: bool)
    requires WellNamed(ch)
    ensures forall i | 0 <= i < |Items(ch, dirs)| :: GoodItem(Items(ch, dirs)[i])
    decreases ch
  {
    if ch != [] {
      ItemsAreGood(ch[1..], dirs);
      var c := ch[0];
      if c.tree.Dir? {
        ItemsAreGood(c.tree.children, dirs);
        forall i | 0 <= i < |ChildItems(c, dirs)| ensures GoodItem(ChildItems(c, dirs)[i]) {
          var k := if dirs then i - 1 else i;
          if k >= 0 {
            assert GoodItem(Items(c.tree.children, dirs)[k]);
          }
        }
      }
    }
  }

  // ---------------------------------------------------------------- distinct names

  predicate DistinctPaths(items: seq<Item>) {
    forall i, j | 0 <= i < j < |items| :: items[i].path != items[j].path
  }

  predicate DistinctNames(entries: seq<Entry>) {
    forall i, j | 0 <= i < j < |entries| :: entries[i].name != entries[j].name
  }

  lemma {:induction false} ItemsDistinct(ch: seq<Child>, dirs: bool)
    requires WellNamed(ch)
    ensures DistinctPaths(Items(ch, dirs))
    decreases ch
  {
    if ch != [] {
      var c := ch[0];
      ItemsDistinct(ch[1..], dirs);
      OtherPaths(ch, dirs);
      var a, b := ChildItems(c, dirs), Items(ch[1..], dirs);
      if c.tree.Dir? {
        var sub := Items(c.tree.children, dirs);
        ItemsDistinct(c.tree.children, dirs);
        ItemPaths(c.tree.children, dirs);
        UnderDistinct(c.name, sub, dirs);
      }
      assert forall i | 0 <= i < |a| :: a[i].path != [] && a[i].path[0] == c.name;
      DistinctConcat(a, b);
    }
  }

  lemma UnderDistinct(n: string, sub: seq<Item>, dirs: bool)
    requires DistinctPaths(sub) && forall i | 0 <= i < |sub| :: sub[i].path != []
    ensures DistinctPaths((if dirs then [Item([n], true, [])] else []) + Under(n, sub))
  {
    var own, u := if dirs then [Item([n], true, [])] else [], Under(n, sub);
    forall i, j | 0 <= i < j < |u| ensures u[i].path != u[j].path {
      assert u[i].path[1..] == sub[i].path && u[j].path[1..] == sub[j].path;
    }
    forall i, j | 0 <= i < |own| && 0 <= j < |u| ensures own[i].path != u[j].path {
      assert |u[j].path| > 1;
    }
    DistinctConcat(own, u);
  }

  lemma DistinctConcat(a: seq<Item>, b: seq<Item>)
    requires DistinctPaths(a) && DistinctPaths(b)
    requires forall i, j | 0 <= i < |a| && 0 <= j < |b| :: a[i].path != b[j].path
    ensures DistinctPaths(a + b)
  {
    forall i, j | 0 <= i < j < |a + b| ensures (a + b)[i].path != (a + b)[j].path {
      if i < |a| && j >= |a| {
        assert (a + b)[j] == b[j - |a|];
      }
    }
  }

  lemma NamedDistinct(items: seq<Item>)
    requires DistinctPaths(items) && forall i | 0 <= i < |items| :: GoodItem(items[i])
    ensures DistinctNames(Named([], items))
  {
    hide Join, FullPath;
    var es := Named([], items);
    forall i, j | 0 <= i < j < |items| ensures es[i].name != es[j].name {
      ReadNamed(items[i]);
      ReadNamed(items[j]);
      SameNameSamePath(es[i], es[j]);
    }
  }

  lemma SameNameSamePath(d: Entry, e: Entry)
    ensures d.name == e.name ==> ReadEntry(d).path == ReadEntry(e).path
  {
  }

  // ---------------------------------------------------------------- main results

  predicate WellNamedTree(t: Tree) {
    t.Dir? ==> WellNamed(t.children)
  }

  /** The tree of an archive made by zip: its first entry is "/" for a directory, "" for a file. */
  function Rebuild(entries: seq<Entry>): Tree {
    if entries == [] then Dir([])
    else if entries[0].name == "/" then Dir(Build(ReadAll(entries[1..])))
    else File(entries[0].content)
  }

  lemma TopEntries(ch: seq<Child>)
    requires WellNamed(ch)
    ensures Entries(Dir(ch), "") == [Entry("/", [])] + Named([], Items(ch, true))
  {
    hide Named;
    ForestIsNamed(ch, []);
    assert Prefix([]) == "" && "" + "/" == "/";
  }

  /** Rebuilding what zip wrote gives the original tree, empty directories included. */
  lemma ZipThenRebuild(t: Tree)
    requires WellNamedTree(t)
    ensures Rebuild(Entries(t, "")) == t
  {
    hide Named, ReadAll, Build;
    if t.Dir? {
      var ch := t.children;
      TopEntries(ch);
      ItemsAreGood(ch, true);
      ReadAllNamed(Items(ch, true));
      BuildItems(ch, true);
      assert Entries(t, "")[1..] == Named([], Items(ch, true));
    }
  }

  /** The entry names zip emits are pairwise distinct. */
  lemma ZipNamesDistinct(t: Tree)
    requires WellNamedTree(t)
    ensures DistinctNames(Entries(t, ""))
  {
    if t.Dir? {
      var items := Items(t.children, true);
      var es := Named([], items);
      TopEntries(t.children);
      ItemsAreGood(t.children, true);
      ItemsDistinct(t.children, true);
      NamedDistinct(items);
      forall i | 0 <= i < |items| ensures es[i].name != "/" {
        ReadNamed(items[i]);
        RootPath(es[i]);
      }
      var all := Entries(t, "");
      forall i, j | 0 <= i < j < |all| ensures all[i].name != all[j].name {
        assert all[j] == es[j - 1];
        if i > 0 { assert all[i] == es[i - 1]; }
      }
    }
  }

  lemma RootPath(e: Entry)
    ensures e.name == "/" ==> ReadEntry(e).path == [""]
    ensures GoodItem(ReadEntry(e)) ==> ReadEntry(e).path != [""]
  {
    if e.name == "/" {
      LastIndexIs("", '/', "");
      assert "" + "/" + "" == "/";
      assert "/"[..0] == "" && "/"[1..] == "";
      assert Components("") == [""];
      assert Components("/") == ["", ""];
    }
    if ReadEntry(e).path == [""] {
      assert !GoodName(ReadEntry(e).path[0]);
    }
  }

  /** Rebuilding what compress wrote gives the tree under its root name, without directories that
      hold no file; and its entry names are pairwise distinct. */
  lemma CompressThenRebuild(name: string, t: Tree)
    requires GoodName(name) && WellNamedTree(t)
    ensures Build(ReadAll(FileEntries(name, t, ""))) == Prune([Child(name, t)])
    ensures DistinctNames(FileEntries(name, t, ""))
  {
    hide Named, ReadAll, Build, Prune;
    var root := [Child(name, t)];
    assert root[1..] == [];
    assert WellNamed(root);
    assert Items(root, false) == ChildItems(root[0], false) by {
      assert Items(root[1..], false) == [];
    }
    assert Prefix([]) == "";
    FilesAreNamed(name, t, []);
    ItemsAreGood(root, false);
    ReadAllNamed(Items(root, false));
    BuildItems(root, false);
    ItemsDistinct(root, false);
    NamedDistinct(Items(root, false));
  }
}
