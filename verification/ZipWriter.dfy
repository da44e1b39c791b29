/** The two recursive writers over one shared output stream, and what they leave in it. */
module ZipWriter {
  import opened Bits
  import opened ZipNames
  import opened ZipRoundTrip

  // ---------------------------------------------------------------- entries that meet a duplicate name

  predicate HasName(es: seq<Entry>, name: string) {
    exists i :: 0 <= i < |es| && es[i].name == name
  }

  /** es, then more up to the first entry whose name is already taken. */
  function UntilDuplicate(es: seq<Entry>, more: seq<Entry>): seq<Entry>
    decreases |more|
  {
    if more == [] || HasName(es, more[0].name) then es else UntilDuplicate(es + [more[0]], more[1..])
  }

  /** es, then every entry of more whose name is not taken when its turn comes. */
  function SkipDuplicates(es: seq<Entry>, more: seq<Entry>): seq<Entry>
    decreases |more|
  {
    if more == [] then es
    else SkipDuplicates(if HasName(es, more[0].name) then es else es + [more[0]], more[1..])
  }

  predicate Complete(es: seq<Entry>, more: seq<Entry>) {
    UntilDuplicate(es, more) == es + more
  }

  /** The whole of more is written exactly when all names are distinct; otherwise a prefix of it is. */
  lemma {:induction false} CompleteIff(es: seq<Entry>, more: seq<Entry>)
    requires DistinctNames(es)
    ensures Complete(es, more) <==> DistinctNames(es + more)
    ensures UntilDuplicate(es, more) <= es + more && DistinctNames(UntilDuplicate(es, more))
    ensures Complete(es, more) <==> |UntilDuplicate(es, more)| == |es| + |more|
    decreases |more|
  {
    if more == [] {
      assert es + more == es;
    } else {
      var next := es + [more[0]];
      assert next + more[1..] == es + more;
      if HasName(es, more[0].name) {
        assert (es + more)[|es|] == more[0];
        var i :| 0 <= i < |es| && es[i].name == more[0].name;
        assert (es + more)[i].name == (es + more)[|es|].name;
      } else {
        CompleteIff(next, more[1..]);
      }
    }
  }

  lemma {:induction false} SkipPrefix(es: seq<Entry>, more: seq<Entry>)
    ensures es <= SkipDuplicates(es, more)
    decreases |more|
  {
    if more != [] {
      SkipPrefix(if HasName(es, more[0].name) then es else es + [more[0]], more[1..]);
    }
  }

  /** Skipping loses no name and keeps names distinct. */
  lemma {:induction false} SkipKeepsNames(es: seq<Entry>, more: seq<Entry>)
    requires DistinctNames(es)
    ensures DistinctNames(SkipDuplicates(es, more))
    ensures forall i | 0 <= i < |more| :: HasName(SkipDuplicates(es, more), more[i].name)
    decreases |more|
  {
    if more != [] {
      var first, all := more[0], SkipDuplicates(es, more);
      var next := if HasName(es, first.name) then es else es + [first];
      SkipKeepsNames(next, more[1..]);
      SkipPrefix(next, more[1..]);
      assert HasName(next, first.name) by {
        if !HasName(es, first.name) { assert next[|es|] == first; }
      }
      assert HasName(all, first.name) by {
        var k :| 0 <= k < |next| && next[k].name == first.name;
        assert all[k].name == first.name;
      }
      forall i | 1 <= i < |more| ensures HasName(all, more[i].name) {
        assert more[i] == more[1..][i - 1];
      }
    }
  }

  lemma TakenTwice(es: seq<Entry>, more: seq<Entry>)
    requires more != []
    ensures HasName(es, more[0].name) ==> !DistinctNames(es + more)
  {
    if HasName(es, more[0].name) {
      var k :| 0 <= k < |es| && es[k].name == more[0].name;
      assert (es + more)[k].name == (es + more)[|es|].name;
    }
  }

  /** Nothing is skipped when all names are distinct. */
  lemma {:induction false} SkipNothing(es: seq<Entry>, more: seq<Entry>)
    requires DistinctNames(es + more)
    ensures SkipDuplicates(es, more) == es + more
    decreases |more|
  {
    if more == [] {
      assert es + more == es;
    } else {
      TakenTwice(es, more);
      assert (es + [more[0]]) + more[1..] == es + more;
      SkipNothing(es + [more[0]], more[1..]);
    }
  }

  lemma {:induction false} UntilConcat(es: seq<Entry>, a: seq<Entry>, b: seq<Entry>)
    ensures UntilDuplicate(es, a + b) == if Complete(es, a) then UntilDuplicate(es + a, b) else UntilDuplicate(es, a)
    ensures Complete(es, a + b) <==> Complete(es, a) && Complete(es + a, b)
    decreases |a|
  {
    assert es + (a + b) == (es + a) + b;
    if a == [] {
      assert a + b == b && es + a == es;
    } else {
      UntilPrefix(es, a);
      assert (a + b)[1..] == a[1..] + b;
      if !HasName(es, a[0].name) {
        UntilConcat(es + [a[0]], a[1..], b);
        assert (es + [a[0]]) + a[1..] == es + a;
        assert (es + [a[0]]) + (a[1..] + b) == es + (a + b);
      } else {
        assert |es + (a + b)| > |es|;
        assert |es + a| > |es|;
      }
    }
  }

  lemma {:induction false} UntilPrefix(es: seq<Entry>, more: seq<Entry>)
    ensures es <= UntilDuplicate(es, more)
    decreases |more|
  {
    if more != [] && !HasName(es, more[0].name) {
      UntilPrefix(es + [more[0]], more[1..]);
    }
  }

  lemma {:induction false} SkipConcat(es: seq<Entry>, a: seq<Entry>, b: seq<Entry>)
    ensures SkipDuplicates(es, a + b) == SkipDuplicates(SkipDuplicates(es, a), b)
    decreases |a|
  {
    if a == [] {
      assert a + b == b;
    } else {
      assert (a + b)[1..] == a[1..] + b;
      SkipConcat(if HasName(es, a[0].name) then es else es + [a[0]], a[1..], b);
    }
  }

  // ---------------------------------------------------------------- the stream

  /** The entries written so far; the last one takes the bytes while it is open. */
  class ZipOut {
    var entries: seq<Entry>
    var open: bool

    constructor ()
      ensures entries == [] && !open
    {
      entries, open := [], false;
    }

    /** Closes the entry before, and refuses a name that is already in the archive. */
    method PutNextEntry(name: string) returns (ok: bool)
      modifies this
      ensures ok == open == !HasName(old(entries), name)
      ensures entries == if ok then old(entries) + [Entry(name, [])] else old(entries)
    {
      ok := !HasName(entries, name);
      open := ok;
      if ok {
        entries := entries + [Entry(name, [])];
      }
    }

    method Write(data: seq<Byte>)
      requires open && entries != []
      modifies this`entries
      ensures |entries| == |old(entries)|
      ensures entries[..|entries| - 1] == old(entries[..|entries| - 1])
      ensures entries[|entries| - 1] ==
                Entry(old(entries[|entries| - 1].name), old(entries[|entries| - 1].content) + data)
    {
      var last := entries[|entries| - 1];
      entries := entries[..|entries| - 1] + [Entry(last.name, last.content + data)];
    }
  }

  /** Copies a file to the open entry, one byte a time. */
  method CopyBytes(out: ZipOut, content: seq<Byte>)
    requires out.open && out.entries != [] && out.entries[|out.entries| - 1].content == []
    modifies out`entries
    ensures |out.entries| == |old(out.entries)|
    ensures out.entries[..|out.entries| - 1] == old(out.entries[..|out.entries| - 1])
    ensures out.entries[|out.entries| - 1] == Entry(old(out.entries[|out.entries| - 1].name), content)
  {
    var i := 0;
    while i < |content|
      invariant 0 <= i <= |content| && out.open
      invariant |out.entries| == |old(out.entries)|
      invariant out.entries[..|out.entries| - 1] == old(out.entries[..|out.entries| - 1])
      invariant out.entries[|out.entries| - 1] == Entry(old(out.entries[|out.entries| - 1].name), content[..i])
    {
      out.Write([content[i]]);
      assert content[..i + 1] == content[..i] + [content[i]];
      i := i + 1;
    }
    assert content[..i] == content;
  }

  /** Copies a file to the open entry in chunks; a read may return fewer bytes than the buffer holds. */
  method CopyChunks(out: ZipOut, content: seq<Byte>)
    requires out.open && out.entries != [] && out.entries[|out.entries| - 1].content == []
    modifies out`entries
    ensures |out.entries| == |old(out.entries)|
    ensures out.entries[..|out.entries| - 1] == old(out.entries[..|out.entries| - 1])
    ensures out.entries[|out.entries| - 1] == Entry(old(out.entries[|out.entries| - 1].name), content)
  {
    var i := 0;
    while i < |content|
      invariant 0 <= i <= |content| && out.open
      invariant |out.entries| == |old(out.entries)|
      invariant out.entries[..|out.entries| - 1] == old(out.entries[..|out.entries| - 1])
      invariant out.entries[|out.entries| - 1] == Entry(old(out.entries[|out.entries| - 1].name), content[..i])
    {
      var count: int :| 1 <= count <= BUFFER && i + count <= |content|;
      out.Write(content[i..i + count]);
      assert content[..i + count] == content[..i] + content[i..i + count];
      i := i + count;
    }
    assert content[..i] == content;
  }

  const BUFFER := 8192

  // ---------------------------------------------------------------- ZipTest

  /** ok is false when the exception for a duplicate entry has ended the run. */
  method Zip(out: ZipOut, f: Tree, base: string) returns (ok: bool)
    modifies out
    ensures out.entries == UntilDuplicate(old(out.entries), Entries(f, base))
    ensures ok <==> Complete(old(out.entries), Entries(f, base))
    decreases f
  {
    hide UntilDuplicate, HasName;
    match f {
      case File(content) =>
        ok := out.PutNextEntry(base);
        if ok {
          CopyBytes(out, content);
        }
        OneEntry(old(out.entries), Entry(base, content));
        assert ok ==> out.entries == old(out.entries) + [Entry(base, content)];
      case Dir(fl) =>
        var own := Entry(base + "/", []);
        ok := out.PutNextEntry(base + "/");
        OneEntry(old(out.entries), own);
        var prefix := if base == "" then "" else base + "/";
        ghost var before := old(out.entries);
        UntilConcat(before, [own], ForestEntries(fl, prefix));
        if !ok {
          return;
        }
        var i := 0;
        while i < |fl|
          invariant 0 <= i <= |fl|
          invariant UntilDuplicate(before, Entries(f, base)) ==
                      UntilDuplicate(out.entries, ForestEntries(fl[i..], prefix))
          invariant Complete(before, Entries(f, base)) <==> Complete(out.entries, ForestEntries(fl[i..], prefix))
        {
          assert fl[i..][0] == fl[i] && fl[i..][1..] == fl[i + 1..];
          UntilConcat(out.entries, Entries(fl[i].tree, prefix + fl[i].name), ForestEntries(fl[i + 1..], prefix));
          ok := Zip(out, fl[i].tree, prefix + fl[i].name);
          if !ok {
            return;
          }
          i := i + 1;
        }
        assert ForestEntries(fl[i..], prefix) == [];
        NoEntry(out.entries);
    }
  }

  lemma NoEntry(es: seq<Entry>)
    ensures UntilDuplicate(es, []) == es && Complete(es, [])
  {
  }

  lemma OneEntry(es: seq<Entry>, e: Entry)
    ensures UntilDuplicate(es, [e]) == SkipDuplicates(es, [e]) == if HasName(es, e.name) then es else es + [e]
    ensures Complete(es, [e]) <==> !HasName(es, e.name)
  {
    assert [e][1..] == [];
    assert |es + [e]| > |es|;
  }

  /** A whole run on a tree of a file system: no duplicate, and the archive holds the tree. */
  method ZipAll(t: Tree) returns (out: ZipOut, ok: bool)
    requires WellNamedTree(t)
    ensures fresh(out)
    ensures ok && out.entries == Entries(t, "")
    ensures Rebuild(out.entries) == t
  {
    out := new ZipOut();
    ok := Zip(out, t, "");
    assert [] + Entries(t, "") == Entries(t, "");
    ZipNamesDistinct(t);
    CompleteIff([], Entries(t, ""));
    ZipThenRebuild(t);
  }

  // ---------------------------------------------------------------- ZipCompressor

  method Compress(out: ZipOut, name: string, f: Tree, basedir: string)
    modifies out
    ensures out.entries == SkipDuplicates(old(out.entries), FileEntries(name, f, basedir))
    decreases f, 1
  {
    match f {
      case Dir(files) => CompressDirectory(out, name, f, files, basedir);
      case File(content) => CompressFile(out, name, content, basedir);
    }
  }

  method CompressDirectory(out: ZipOut, name: string, ghost dir: Tree, files: seq<Child>, basedir: string)
    requires dir == Dir(files)
    modifies out
    ensures out.entries == SkipDuplicates(old(out.entries), ForestFileEntries(files, basedir + name + "/"))
    decreases dir, 0
  {
    var i := 0;
    ghost var all := SkipDuplicates(out.entries, ForestFileEntries(files, basedir + name + "/"));
    while i < |files|
      invariant 0 <= i <= |files|
      invariant all == SkipDuplicates(out.entries, ForestFileEntries(files[i..], basedir + name + "/"))
    {
      assert files[i..][0] == files[i] && files[i..][1..] == files[i + 1..];
      SkipConcat(out.entries, FileEntries(files[i].name, files[i].tree, basedir + name + "/"),
                 ForestFileEntries(files[i + 1..], basedir + name + "/"));
      Compress(out, files[i].name, files[i].tree, basedir + name + "/");
      i := i + 1;
    }
  }

  /** The exception for a duplicate entry is caught and logged, so the file is skipped. */
  method CompressFile(out: ZipOut, name: string, content: seq<Byte>, basedir: string)
    modifies out
    ensures out.entries == SkipDuplicates(old(out.entries), [Entry(basedir + name, content)])
  {
    var ok := out.PutNextEntry(basedir + name);
    if ok {
      CopyChunks(out, content);
    }
    OneEntry(old(out.entries), Entry(basedir + name, content));
    assert ok ==> out.entries == old(out.entries) + [Entry(basedir + name, content)];
  }

  /** A whole run: every file is in the archive, and rebuilding gives the tree without empty directories. */
  method CompressAll(name: string, t: Tree) returns (out: ZipOut)
    requires GoodName(name) && WellNamedTree(t)
    ensures fresh(out)
    ensures out.entries == FileEntries(name, t, "")
    ensures Build(ReadAll(out.entries)) == Prune([Child(name, t)])
  {
    hide FileEntries, Build, ReadAll, Prune;
    out := new ZipOut();
    Compress(out, name, t, "");
    assert [] + FileEntries(name, t, "") == FileEntries(name, t, "");
    CompressThenRebuild(name, t);
    SkipNothing([], FileEntries(name, t, ""));
  }
}
