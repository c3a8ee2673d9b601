/** What a USTAR archive means as a file system, without pointers or parsing: paths mapped to
    directories and files. */
module Initrd {
  import opened CStrings
  import opened Vfs

  datatype Info = Dir | File(size: nat, data: nat)

  type Fs = map<Path, Info>

  /** One archive member: its path, its kind, and where its data lies. */
  datatype Entry = Entry(path: Path, isDir: bool, size: nat, data: nat)

  // ---------- what ramfs_parse does with an entry ----------

  /** A directory entry creates every part of its path that is missing. */
  function AddDir(fs: Fs, path: Path): Fs {
    if path == [] then fs else
    var f := AddDir(fs, path[..|path| - 1]);
    if path in f then f else f[path := Dir]
  }

  /** The length of the shortest missing prefix, or one more than the path if nothing is missing. */
  function FirstMissing(fs: Fs, path: Path, i: nat): (n: nat)
    requires i <= |path| + 1
    ensures i <= n <= |path| + 1 && (n <= |path| ==> path[..n] !in fs) && forall k :: i <= k < n ==> path[..k] in fs
    decreases |path| + 1 - i
  {
    if i == |path| + 1 || path[..i] !in fs then i else FirstMissing(fs, path, i + 1)
  }

  /** A file entry creates one file: at the first missing part of its path. */
  function AddFile(fs: Fs, path: Path, size: nat, data: nat): Fs {
    var n := FirstMissing(fs, path, 1);
    if n > |path| then fs else fs[path[..n] := File(size, data)]
  }

  function AddEntry(fs: Fs, e: Entry): Fs {
    if e.isDir then AddDir(fs, e.path) else AddFile(fs, e.path, e.size, e.data)
  }

  function AddAll(fs: Fs, es: seq<Entry>): Fs {
    if es == [] then fs else AddEntry(AddAll(fs, es[..|es| - 1]), es[|es| - 1])
  }

  // ---------- what the archive promises ----------

  /** Directories come before their contents, and no path is listed both as a file and as a directory. */
  ghost predicate WellOrdered(es: seq<Entry>) {
    && (forall i :: 0 <= i < |es| ==> es[i].path != [])
    && (forall i, n :: 0 <= i < |es| && 0 < n < |es[i].path| ==> ListedDir(es, i, es[i].path[..n]))
    && (forall i, j :: 0 <= i < |es| && 0 <= j < |es| && es[i].path == es[j].path ==> es[i].isDir == es[j].isDir)
  }

  ghost predicate ListedDir(es: seq<Entry>, i: nat, path: Path)
    requires i <= |es|
  {
    exists k :: 0 <= k < i && es[k].isDir && es[k].path == path
  }

  /** The first entry that lists a path decides what is found there. */
  ghost predicate FirstListing(es: seq<Entry>, i: nat)
    requires i < |es|
  {
    forall k :: 0 <= k < i ==> es[k].path != es[i].path
  }

  function InfoOfEntry(e: Entry): Info {
    if e.isDir then Dir else File(e.size, e.data)
  }

  ghost predicate Keeps(fs: Fs, fs': Fs) {
    forall p :: p in fs ==> p in fs' && fs'[p] == fs[p]
  }

  lemma {:induction false} AddDirKeeps(fs: Fs, path: Path)
    ensures Keeps(fs, AddDir(fs, path)) && (path != [] ==> path in AddDir(fs, path))
  {
    if path != [] {
      AddDirKeeps(fs, path[..|path| - 1]);
    }
  }

  /** When all its parents are there, a directory entry adds at most itself. */
  lemma {:induction false} AddDirOnly(fs: Fs, path: Path)
    requires path != [] && forall n :: 0 < n < |path| ==> path[..n] in fs
    ensures AddDir(fs, path) == if path in fs then fs else fs[path := Dir]
  {
    var up := path[..|path| - 1];
    if up != [] {
      assert forall n :: 0 < n < |up| ==> up[..n] == path[..n];
      AddDirOnly(fs, up);
      assert up in fs;
    }
  }

  /** When all its parents are there, a file entry adds exactly itself, unless the path exists. */
  lemma AddFileOnly(fs: Fs, path: Path, size: nat, data: nat)
    requires path != [] && forall n :: 0 < n < |path| ==> path[..n] in fs
    ensures AddFile(fs, path, size, data) == if path in fs then fs else fs[path := File(size, data)]
  {
    var n := FirstMissing(fs, path, 1);
    assert path[..|path|] == path;
  }

  /** What the entries so far amount to. */
  ghost predicate Meaning(fs: Fs, es: seq<Entry>) {
    && (forall i :: 0 <= i < |es| && FirstListing(es, i) ==> es[i].path in fs && fs[es[i].path] == InfoOfEntry(es[i]))
    && (forall p :: p in fs && p != [] ==> exists i :: 0 <= i < |es| && es[i].path == p)
  }

  lemma {:induction false} FirstListed(es: seq<Entry>, i: nat) returns (k: nat)
    requires i < |es|
    ensures k <= i && FirstListing(es, k) && es[k].path == es[i].path
    decreases i
  {
    k := i;
    if !FirstListing(es, i) {
      var j :| 0 <= j < i && es[j].path == es[i].path;
      k := FirstListed(es, j);
    }
  }

  lemma Found(fs: Fs, es: seq<Entry>, i: nat)
    requires Meaning(fs, es) && i < |es|
    ensures es[i].path in fs
  {
    var k := FirstListed(es, i);
  }

  /** One more entry, all of whose parents were listed. */
  lemma MeaningStep(fs: Fs, es: seq<Entry>, e: Entry)
    requires Meaning(fs, es) && e.path != []
    requires forall n :: 0 < n < |e.path| ==> e.path[..n] in fs
    ensures Meaning(AddEntry(fs, e), es + [e])
  {
    var fs', es' := AddEntry(fs, e), es + [e];
    if e.isDir { AddDirOnly(fs, e.path); } else { AddFileOnly(fs, e.path, e.size, e.data); }
    assert fs' == if e.path in fs then fs else fs[e.path := InfoOfEntry(e)];
    hide AddEntry;
    forall i | 0 <= i < |es'| && FirstListing(es', i)
      ensures es'[i].path in fs' && fs'[es'[i].path] == InfoOfEntry(es'[i])
    {
      if i < |es| {
        assert FirstListing(es, i) by { assert forall k :: 0 <= k < i ==> es'[k] == es[k]; }
      } else {
        assert e.path !in fs by {
          assert forall k :: 0 <= k < |es| ==> es'[k] == es[k] && es[k].path != e.path;
        }
      }
    }
    forall p | p in fs' && p != []
      ensures exists i :: 0 <= i < |es'| && es'[i].path == p
    {
      if p == e.path {
        assert es'[|es|].path == p;
      } else {
        var i :| 0 <= i < |es| && es[i].path == p;
        assert es'[i].path == p;
      }
    }
  }

  lemma PrefixOrdered(es: seq<Entry>)
    requires WellOrdered(es) && es != []
    ensures WellOrdered(es[..|es| - 1])
  {
    var pre := es[..|es| - 1];
    forall i, n | 0 <= i < |pre| && 0 < n < |pre[i].path|
      ensures ListedDir(pre, i, pre[i].path[..n])
    {
      assert ListedDir(es, i, es[i].path[..n]);
      var k :| 0 <= k < i && es[k].isDir && es[k].path == es[i].path[..n];
      assert pre[k] == es[k];
    }
  }

  lemma {:induction false} AddAllMeaning(es: seq<Entry>)
    requires WellOrdered(es)
    ensures Meaning(AddAll(map[[] := Dir], es), es)
  {
    hide WellOrdered, Meaning, AddEntry, AddAll;
    if es == [] {
      EmptyMeaning();
    } else {
      var pre, e := es[..|es| - 1], es[|es| - 1];
      PrefixOrdered(es);
      AddAllMeaning(pre);
      ParentsFound(AddAll(map[[] := Dir], pre), es);
      MeaningStep(AddAll(map[[] := Dir], pre), pre, e);
      assert es == pre + [e];
      AddAllLast(map[[] := Dir], pre, e);
    }
  }

  lemma EmptyMeaning()
    ensures Meaning(AddAll(map[[] := Dir], []), [])
  {
  }

  lemma AddAllLast(fs: Fs, es: seq<Entry>, e: Entry)
    ensures AddAll(fs, es + [e]) == AddEntry(AddAll(fs, es), e)
  {
    assert (es + [e])[..|es|] == es;
  }

  /** By the time an entry is added, its parents are there. */
  lemma ParentsFound(fs: Fs, es: seq<Entry>)
    requires WellOrdered(es) && es != [] && Meaning(fs, es[..|es| - 1])
    ensures var e := es[|es| - 1]; e.path != [] && forall n :: 0 < n < |e.path| ==> e.path[..n] in fs
  {
    var pre, e := es[..|es| - 1], es[|es| - 1];
    forall n | 0 < n < |e.path| ensures e.path[..n] in fs {
      assert ListedDir(es, |es| - 1, e.path[..n]);
      var k :| 0 <= k < |pre| && es[k].isDir && es[k].path == e.path[..n];
      hide Meaning, WellOrdered;
      assert pre[k] == es[k];
      Found(fs, pre, k);
    }
  }

  /** For every archive that lists directories before their contents: each listed directory is a
      directory, and each listed file is found with the size and data of its first entry. */
  lemma EveryEntryFound(es: seq<Entry>, i: nat)
    requires WellOrdered(es) && i < |es|
    ensures var fs := AddAll(map[[] := Dir], es);
            && es[i].path in fs
            && (es[i].isDir ==> fs[es[i].path] == Dir)
            && (!es[i].isDir && FirstListing(es, i) ==> fs[es[i].path] == File(es[i].size, es[i].data))
  {
    AddAllMeaning(es);
    var k := FirstListed(es, i);
    hide Meaning;
    MeaningAt(AddAll(map[[] := Dir], es), es, k);
    if FirstListing(es, i) {
      MeaningAt(AddAll(map[[] := Dir], es), es, i);
    }
  }

  lemma MeaningAt(fs: Fs, es: seq<Entry>, k: nat)
    requires Meaning(fs, es) && k < |es| && FirstListing(es, k)
    ensures es[k].path in fs && fs[es[k].path] == InfoOfEntry(es[k])
  {
  }

  // ---------- files without their directories ----------

  /** Every directory on the way to a path exists. */
  ghost predicate ParentsIn(fs: Fs, path: Path) {
    forall n :: 0 < n < |path| ==> path[..n] in fs
  }

  /** A file entry for a path that is free puts the file there exactly if all its parents exist; otherwise
      the file takes the place of the first missing one. */
  lemma MisplacedFile(fs: Fs, path: Path, size: nat, data: nat)
    requires path != [] && path !in fs
    ensures path in AddFile(fs, path, size, data) <==> ParentsIn(fs, path)
    ensures var n := FirstMissing(fs, path, 1);
            && 1 <= n <= |path| && (n == |path| <==> ParentsIn(fs, path))
            && AddFile(fs, path, size, data) == fs[path[..n] := File(size, data)]
  {
    var n := FirstMissing(fs, path, 1);
    assert path[..|path|] == path;
    if n == |path| {
      assert forall k :: 0 < k < |path| ==> path[..k] in fs;
    }
  }

  lemma AddEntryKeeps(fs: Fs, e: Entry)
    ensures Keeps(fs, AddEntry(fs, e))
  {
    if e.isDir {
      AddDirKeeps(fs, e.path);
    }
  }

  /** What is found once stays. */
  lemma {:induction false} AddAllKeeps(fs: Fs, es: seq<Entry>, i: nat)
    requires i <= |es|
    ensures Keeps(AddAll(fs, es[..i]), AddAll(fs, es))
  {
    if i < |es| {
      var pre := es[..|es| - 1];
      AddAllKeeps(fs, pre, i);
      assert pre[..i] == es[..i];
      AddEntryKeeps(AddAll(fs, pre), es[|es| - 1]);
    } else {
      assert es[..i] == es;
    }
  }

  /** Entry k put its file at path p. */
  ghost predicate PlacedBy(fs: Fs, es: seq<Entry>, k: nat, p: Path)
    requires k < |es|
  {
    var before := AddAll(fs, es[..k]);
    var n := FirstMissing(before, es[k].path, 1);
    !es[k].isDir && n <= |es[k].path| && p == es[k].path[..n]
  }

  lemma {:induction false} AddDirFiles(fs: Fs, path: Path, p: Path)
    requires p in AddDir(fs, path) && AddDir(fs, path)[p].File?
    ensures p in fs && fs[p] == AddDir(fs, path)[p]
  {
    if path != [] {
      AddDirFiles(fs, path[..|path| - 1], p);
    }
  }

  /** Every file found was put there by some entry. */
  lemma {:induction false} FileOrigin(fs: Fs, es: seq<Entry>, p: Path) returns (k: nat)
    requires p in AddAll(fs, es) && AddAll(fs, es)[p].File? && (p in fs ==> fs[p].Dir?)
    ensures k < |es| && PlacedBy(fs, es, k, p) && AddAll(fs, es)[p] == File(es[k].size, es[k].data)
  {
    if es != [] {
      var n := |es| - 1;
      var pre, e := es[..n], es[n];
      var before := AddAll(fs, pre);
      if e.isDir { AddDirFiles(before, e.path, p); }
      if p in before && before[p] == AddAll(fs, es)[p] {
        k := FileOrigin(fs, pre, p);
        assert pre[..k] == es[..k] && pre[k] == es[k];
      } else {
        k := n;
      }
    }
  }

  /** No two files have their data at the same place. */
  ghost predicate DataDistinct(es: seq<Entry>) {
    forall i, j :: 0 <= i < j < |es| && !es[i].isDir && !es[j].isDir ==> es[i].data != es[j].data
  }

  /** In any archive, ordered or not, a listed file is found at its path with its own size and data if and
      only if, when its turn came, the path was free and all its parents were there. */
  lemma FileFoundExactly(es: seq<Entry>, i: nat)
    requires DataDistinct(es) && i < |es| && !es[i].isDir && es[i].path != []
    ensures var fs, before, e := AddAll(map[[] := Dir], es), AddAll(map[[] := Dir], es[..i]), es[i];
            (e.path in fs && fs[e.path] == File(e.size, e.data)) <==> (e.path !in before && ParentsIn(before, e.path))
  {
    var root: Fs := map[[] := Dir];
    var fs, before, e := AddAll(root, es), AddAll(root, es[..i]), es[i];
    assert es[..i + 1] == es[..i] + [e];
    AddAllLast(root, es[..i], e);
    AddAllKeeps(root, es, i);
    AddAllKeeps(root, es, i + 1);
    hide AddAll;
    if e.path !in before { MisplacedFile(before, e.path, e.size, e.data); }
    if e.path in fs && fs[e.path] == File(e.size, e.data) {
      var k := FileOrigin(root, es, e.path);
      assert k == i;
      assert e.path[..|e.path|] == e.path;
    }
  }

  /** In any archive a listed directory exists, and is a directory if and only if no file was in its place when
      its turn came. */
  lemma DirFoundExactly(es: seq<Entry>, i: nat)
    requires i < |es| && es[i].isDir && es[i].path != []
    ensures var fs, before, p := AddAll(map[[] := Dir], es), AddAll(map[[] := Dir], es[..i]), es[i].path;
            p in fs && (fs[p] == Dir <==> !(p in before && before[p].File?))
  {
    var root: Fs := map[[] := Dir];
    var before, e := AddAll(root, es[..i]), es[i];
    assert es[..i + 1] == es[..i] + [e];
    AddAllLast(root, es[..i], e);
    AddAllKeeps(root, es, i);
    AddAllKeeps(root, es, i + 1);
    AddDirKeeps(before, e.path);
    hide AddAll;
    if AddDir(before, e.path)[e.path].File? { AddDirFiles(before, e.path, e.path); }
  }

  /** A file a/b listed before the directory a: the file is not at a/b, and a is the file. */
  lemma UnorderedArchive()
    ensures var es := [Entry(["a", "b"], false, 1, 512), Entry(["a"], true, 0, 1536)];
            var fs := AddAll(map[[] := Dir], es);
            ["a", "b"] !in fs && ["a"] in fs && fs[["a"]] == File(1, 512)
  {
    var f, d := Entry(["a", "b"], false, 1, 512), Entry(["a"], true, 0, 1536);
    var root: Fs := map[[] := Dir];
    assert [] + [f] == [f] && [f] + [d] == [f, d] && AddAll(root, []) == root;
    AddAllLast(root, [], f);
    AddAllLast(root, [f], d);
    assert ["a", "b"][..1] == ["a"] && ["a"][..0] == [];
    MisplacedFile(root, ["a", "b"], 1, 512);
    var fs := root[["a"] := File(1, 512)];
    assert AddAll(root, [f]) == fs;
    assert AddDir(fs, []) == fs;
    assert AddDir(fs, ["a"]) == fs;
  }

  // ---------- the tree represents the file system ----------

  function InfoOf(v: Vnode): Info {
    if v.isDir then Dir else File(v.size, v.data)
  }

  /** Looking a path up finds a node exactly if the path exists, and the node says what it is. */
  ghost predicate Represents(nodes: Nodes, kids: Kids, root: nat, fs: Fs) {
    forall q: Path :: PathOk(nodes, kids, root, fs, q)
  }

  ghost predicate PathOk(nodes: Nodes, kids: Kids, root: nat, fs: Fs, q: Path) {
    var n := Walk(nodes, kids, root, q);
    && (n != 0 <==> q in fs)
    && (q in fs ==> n in nodes && InfoOf(nodes[n]) == fs[q])
  }

  /** Creating a missing child extends the file system by one path. */
  lemma CreateRepresents(nodes: Nodes, kids: Kids, nodes': Nodes, kids': Kids, depth: map<nat, nat>, root: nat, fs: Fs,
                         parent: nat, node: nat, name: cstring, isDir: bool, p: Path)
    requires TreeOk(nodes, kids, depth, root) && Created(nodes, kids, nodes', kids', parent, node, name, isDir)
    requires Represents(nodes, kids, root, fs) && Walk(nodes, kids, root, p) == parent && p + [name] !in fs
    ensures Represents(nodes', kids', root, fs[p + [name] := if isDir then Dir else File(0, 0)])
    ensures Walk(nodes', kids', root, p + [name]) == node
  {
    hide TreeOk, Walk;
    WalkStep(nodes, kids, root, p, name);
    assert PathOk(nodes, kids, root, fs, p + [name]);
    var fs' := fs[p + [name] := if isDir then Dir else File(0, 0)];
    forall q: Path
      ensures PathOk(nodes', kids', root, fs', q)
    {
      assert PathOk(nodes, kids, root, fs, q);
      CreateWalk(nodes, kids, nodes', kids', depth, root, parent, node, name, isDir, p, q);
    }
    CreateWalk(nodes, kids, nodes', kids', depth, root, parent, node, name, isDir, p, p + [name]);
  }

  /** Recording a file's size and data changes no link. */
  lemma {:induction false} FillWalk(nodes: Nodes, kids: Kids, root: nat, node: nat, size: nat, data: nat, q: Path)
    requires node in nodes
    ensures Walk(nodes[node := nodes[node].(size := size, data := data)], kids, root, q) == Walk(nodes, kids, root, q)
  {
    if q != [] {
      var nodes' := nodes[node := nodes[node].(size := size, data := data)];
      FillWalk(nodes, kids, root, node, size, data, q[..|q| - 1]);
      var m := Walk(nodes, kids, root, q[..|q| - 1]);
      if m in kids {
        FillMatch(nodes, nodes', kids[m], q[|q| - 1]);
      }
    }
  }

  lemma {:induction false} FillMatch(nodes: Nodes, nodes': Nodes, cs: seq<nat>, x: string)
    requires nodes.Keys == nodes'.Keys && forall c :: c in nodes ==> nodes'[c].name == nodes[c].name
    ensures FirstMatch(nodes', cs, x) == FirstMatch(nodes, cs, x)
  {
    if cs != [] {
      FillMatch(nodes, nodes', cs[1..], x);
    }
  }

  lemma FillRepresents(nodes: Nodes, kids: Kids, depth: map<nat, nat>, root: nat, fs: Fs, node: nat, size: nat,
                       data: nat, p: Path)
    requires TreeOk(nodes, kids, depth, root) && Represents(nodes, kids, root, fs)
    requires Walk(nodes, kids, root, p) == node && p in fs && fs[p].File? && node in nodes
    ensures Represents(nodes[node := nodes[node].(size := size, data := data)], kids, root, fs[p := File(size, data)])
  {
    hide TreeOk, Walk;
    var nodes' := nodes[node := nodes[node].(size := size, data := data)];
    assert PathOk(nodes, kids, root, fs, p);
    var fs' := fs[p := File(size, data)];
    forall q: Path
      ensures PathOk(nodes', kids, root, fs', q)
    {
      assert PathOk(nodes, kids, root, fs, q);
      FillWalk(nodes, kids, root, node, size, data, q);
      if Walk(nodes, kids, root, q) == node && node != 0 {
        WalkInjective(nodes, kids, depth, root, p, q);
      }
    }
  }

  lemma FillTree(nodes: Nodes, kids: Kids, depth: map<nat, nat>, root: nat, node: nat, size: nat, data: nat)
    requires TreeOk(nodes, kids, depth, root) && node in nodes
    ensures TreeOk(nodes[node := nodes[node].(size := size, data := data)], kids, depth, root)
  {
    var nodes' := nodes[node := nodes[node].(size := size, data := data)];
    forall n | n in kids ensures NodeOk(nodes', kids, depth, n) {
      assert NodeOk(nodes, kids, depth, n);
      forall i | 0 <= i < |kids[n]| ensures ChildOk(nodes', kids, depth, n, i) {
        assert ChildOk(nodes, kids, depth, n, i);
      }
    }
  }

  /** Emptying the root's child list leaves a file system with the root alone. */
  lemma {:induction false} EmptyWalk(nodes: Nodes, kids: Kids, root: nat, q: Path)
    requires root in kids && kids[root] == [] && 0 !in kids
    ensures Walk(nodes, kids, root, q) == if q == [] then root else 0
  {
    if q != [] {
      EmptyWalk(nodes, kids, root, q[..|q| - 1]);
    }
  }
}
