/** The vnode tree of kernel/src/dev/vfs.c: nodes linked by parent, child and next pointers. A node is
    a record at its address; address 0 is NULL. */
module Vfs {
  import opened CStrings

  datatype Vnode = Vnode(parent: nat, next: nat, child: nat, isDir: bool, name: cstring, size: nat, data: nat)

  type Nodes = map<nat, Vnode>
  /** Each node's children in list order. */
  type Kids = map<nat, seq<nat>>
  type Path = seq<string>

  // ---------- the tree the pointers form ----------

  function At(s: seq<nat>, i: int): nat {
    if 0 <= i < |s| then s[i] else 0
  }

  ghost predicate NodeOk(nodes: Nodes, kids: Kids, depth: map<nat, nat>, n: nat)
    requires n in kids
  {
    && n != 0 && n in nodes && n in depth
    && nodes[n].child == At(kids[n], 0)
    && forall i :: 0 <= i < |kids[n]| ==> ChildOk(nodes, kids, depth, n, i)
  }

  ghost predicate ChildOk(nodes: Nodes, kids: Kids, depth: map<nat, nat>, n: nat, i: nat)
    requires n in kids && i < |kids[n]|
  {
    var c := kids[n][i];
    && c in kids && c in nodes && c != 0
    && nodes[c].next == At(kids[n], i + 1) && nodes[c].parent == n
    && n in depth && c in depth && depth[c] == depth[n] + 1
  }

  /** Sibling lists are what `kids` says and end in NULL, parent pointers are right, no node is on two
      lists or twice on one, and depth grows along every child link, so there is no cycle. */
  ghost predicate TreeOk(nodes: Nodes, kids: Kids, depth: map<nat, nat>, root: nat) {
    && root in kids && root in depth && depth[root] == 0
    && (forall n :: n in kids ==> NodeOk(nodes, kids, depth, n))
    && (forall n, i, j :: n in kids && 0 <= i < j < |kids[n]| ==> kids[n][i] != kids[n][j])
  }

  // ---------- lookup as a walk ----------

  /** The first child of that name, or 0. */
  function FirstMatch(nodes: Nodes, cs: seq<nat>, name: string): (c: nat)
    ensures c != 0 ==> c in cs && c in nodes && nodes[c].name == name
  {
    if cs == [] then 0
    else if cs[0] in nodes && nodes[cs[0]].name == name then cs[0]
    else FirstMatch(nodes, cs[1..], name)
  }

  /** One step of a walk: NULL has no children. */
  function Down(nodes: Nodes, kids: Kids, n: nat, name: string): nat {
    if n in kids then FirstMatch(nodes, kids[n], name) else 0
  }

  /** Folding first-match child search over the names. */
  function Walk(nodes: Nodes, kids: Kids, n: nat, path: Path): nat {
    if path == [] then n else Down(nodes, kids, Walk(nodes, kids, n, path[..|path| - 1]), path[|path| - 1])
  }

  lemma {:induction false} FirstMatchFrom(nodes: Nodes, cs: seq<nat>, name: string, i: nat)
    requires i <= |cs| && forall k :: 0 <= k < i ==> cs[k] in nodes && nodes[cs[k]].name != name
    ensures FirstMatch(nodes, cs, name) == FirstMatch(nodes, cs[i..], name)
  {
    if i > 0 {
      FirstMatchFrom(nodes, cs, name, i - 1);
      assert cs[i - 1..][1..] == cs[i..];
    }
  }

  class FileSystem {
    var nodes: Nodes
    var root: nat
    /** The next address kmalloc hands out, and how many requests it will still grant. */
    var nextAddr: nat
    var budget: nat
    ghost var kids: Kids
    ghost var depth: map<nat, nat>

    ghost predicate Valid()
      reads this
    {
      && TreeOk(nodes, kids, depth, root)
      && (forall n :: n in nodes || n in kids ==> n < nextAddr)
    }

    /** vfs_search_node. */
    method SearchNode(parent: nat, name: cstring) returns (found: nat)
      requires Valid() && (parent == 0 || parent in kids)
      ensures found == Down(nodes, kids, parent, name)
    {
      if parent == 0 {
        RootPositive(nodes, kids, depth, root);
        return 0;
      }
      hide TreeOk, FirstMatch;
      ghost var cs, i := kids[parent], 0;
      NodeFacts(nodes, kids, depth, root, parent);
      var curr := nodes[parent].child;
      while curr != 0
        invariant 0 <= i <= |cs| && curr == At(cs, i)
        invariant forall k :: 0 <= k < i ==> cs[k] in nodes && nodes[cs[k]].name != name
        decreases |cs| - i
      {
        ChildFacts(nodes, kids, depth, root, parent, i);
        var same := SameString(nodes[curr].name, name);
        if same {
          FirstMatchFrom(nodes, cs, name, i);
          HeadMatch(nodes, cs[i..], name);
          return curr;
        }
        curr := nodes[curr].next;
        i := i + 1;
      }
      ListEnd(nodes, kids, depth, root, parent, i);
      FirstMatchFrom(nodes, cs, name, i);
      HeadMatch(nodes, cs[i..], name);
      return 0;
    }

    /** kmalloc: a fresh address, or NULL. */
    method Alloc() returns (a: nat)
      requires Valid()
      modifies this`nextAddr, this`budget
      ensures Valid()
      ensures old(budget) == 0 ==> a == 0 && budget == 0 && nextAddr == old(nextAddr)
      ensures old(budget) > 0 ==> a == old(nextAddr) > 0 && nextAddr == a + 1 && budget == old(budget) - 1
      ensures a != 0 ==> a !in nodes && a !in kids
    {
      RootPositive(nodes, kids, depth, root);
      hide TreeOk;
      if budget == 0 {
        return 0;
      }
      budget := budget - 1;
      a := nextAddr;
      nextAddr := nextAddr + 1;
    }

    /** vfs_create: append a new node to the parent's children. */
    method Create(parent: nat, name: cstring, isDir: bool) returns (err: int, node: nat)
      requires Valid() && (parent == 0 || parent in kids)
      modifies this
      ensures Valid() && root == old(root)
      ensures err == 0 <==> parent != 0 && old(budget) >= 2
      ensures err != 0 ==> nodes == old(nodes) && kids == old(kids) && depth == old(depth)
      ensures err == 0 ==> Created(old(nodes), old(kids), nodes, kids, parent, node, name, isDir)
      ensures budget <= old(budget)
    {
      RootPositive(nodes, kids, depth, root);
      if parent == 0 {
        return 1, 0;
      }
      hide TreeOk, Created;
      node := Alloc();
      if node == 0 {
        return 1, 0;
      }
      var copy := Alloc();
      if copy == 0 {
        return 1, 0;
      }
      LinkChild(parent, node, name, isDir);
      err := 0;
    }

    /** The second half of vfs_create: fill in the node and hang it at the end of the list. */
    method LinkChild(parent: nat, node: nat, name: cstring, isDir: bool)
      requires Valid() && parent in kids && 0 < node < nextAddr && node !in nodes && node !in kids
      modifies this`nodes, this`kids, this`depth
      ensures Valid() && Created(old(nodes), old(kids), nodes, kids, parent, node, name, isDir)
    {
      hide TreeOk, Created, NodeOk;
      ghost var nodes0 := nodes;
      NodeFacts(nodes, kids, depth, root, parent);
      CreateTree(nodes, kids, depth, root, parent, node, name, isDir);
      nodes := nodes[node := Vnode(parent, 0, 0, isDir, name, 0, 0)];
      if nodes[parent].child == 0 {
        ListEnd(nodes0, kids, depth, root, parent, 0);
        nodes := nodes[parent := nodes[parent].(child := node)];
      } else {
        assert kids[parent] != [];
        var last := LastChild(parent, nodes0, node);
        nodes := nodes[last := nodes[last].(next := node)];
      }
      assert nodes == Linked(nodes0, kids[parent], parent, node, name, isDir);
      kids := kids[parent := kids[parent] + [node]][node := []];
      depth := depth[node := depth[parent] + 1];
    }

    /** The loop of vfs_create that finds the end of a sibling list, in the memory that already holds
        the new node. */
    method LastChild(parent: nat, ghost nodes0: Nodes, ghost node: nat) returns (last: nat)
      requires TreeOk(nodes0, kids, depth, root) && parent in kids && node !in nodes0 && kids[parent] != []
      requires forall n :: n in nodes0 ==> n in nodes && nodes[n] == nodes0[n]
      ensures last == kids[parent][|kids[parent]| - 1]
    {
      hide TreeOk;
      ghost var cs, i := kids[parent], 0;
      NodeFacts(nodes0, kids, depth, root, parent);
      ChildFacts(nodes0, kids, depth, root, parent, 0);
      last := nodes[parent].child;
      while nodes[last].next != 0
        invariant 0 <= i < |cs| && last == cs[i] && last in nodes0
        decreases |cs| - i
      {
        ChildFacts(nodes0, kids, depth, root, parent, i);
        ChildFacts(nodes0, kids, depth, root, parent, i + 1);
        last := nodes[last].next;
        i := i + 1;
      }
      ChildFacts(nodes0, kids, depth, root, parent, i);
      ListEnd(nodes0, kids, depth, root, parent, i + 1);
    }

    /** vfs_remove: take a node off its parent's list and free it. Its own children are left behind,
        allocated but on no list. */
    method Remove(parent: nat, node: nat) returns (err: int)
      requires Valid() && (parent == 0 || parent in kids)
      modifies this`nodes, this`kids
      ensures Valid()
      ensures err == 0 <==> parent != 0 && node != 0 && node in old(kids)[parent]
      ensures err != 0 ==> nodes == old(nodes) && kids == old(kids)
      ensures err == 0 ==> Removed(old(nodes), old(kids), nodes, kids, parent, node)
    {
      RootPositive(nodes, kids, depth, root);
      if parent == 0 || node == 0 {
        return 1;
      }
      hide TreeOk, Removed, RemovedKids;
      ghost var cs, i := kids[parent], 0;
      NodeFacts(nodes, kids, depth, root, parent);
      var prev, curr := 0, nodes[parent].child;
      while curr != 0
        invariant 0 <= i <= |cs| && curr == At(cs, i) && prev == At(cs, i - 1) && (i > 0 ==> prev in nodes && prev != 0)
        invariant node !in cs[..i] && nodes == old(nodes) && kids == old(kids)
        decreases |cs| - i
      {
        ChildFacts(nodes, kids, depth, root, parent, i);
        if curr == node {
          RemoveTree(nodes, kids, depth, root, parent, i);
          UnlinkedRemoved(nodes, kids, depth, root, parent, i);
          if prev != 0 {
            nodes := nodes[prev := nodes[prev].(next := nodes[curr].next)];
          } else {
            nodes := nodes[parent := nodes[parent].(child := nodes[curr].next)];
          }
          nodes := nodes - {curr};
          assert nodes == Unlinked(old(nodes), cs, parent, i);
          kids := RemovedKids(kids, parent, node);
          return 0;
        }
        assert cs[..i + 1] == cs[..i] + [cs[i]];
        prev := curr;
        curr := nodes[curr].next;
        i := i + 1;
      }
      ListEnd(nodes, kids, depth, root, parent, i);
      assert cs[..i] == cs;
      return 1;
    }

    /** vfs_lookup: a copy of the path is cut into tokens in place and followed from the root. */
    method Lookup(path: string, tk: Tokenizer) returns (node: nat)
      requires Valid() && tk.Ready() && NUL !in path
      modifies this`nextAddr, this`budget, tk, tk.buf
      ensures Valid() && tk.Ready()
      ensures node == if path != "/" && old(budget) == 0 then 0 else Walk(nodes, kids, root, Segments(path, "/"))
    {
      if path == "/" {
        RootPath();
        return root;
      }
      hide TreeOk, Segments, CStr;
      var copy := Alloc();
      if copy == 0 {
        return 0;
      }
      var buf := new char[|path| + 1](i requires 0 <= i <= |path| => if i < |path| then path[i] else NUL);
      CopyIsString(buf[..], path);
      node := Follow(buf, tk, Segments(path, "/"));
    }

    /** The token loop of vfs_traverse_path. */
    method Follow(buf: array<char>, tk: Tokenizer, ghost segs: Path) returns (node: nat)
      requires Valid() && tk.Ready() && Terminated(buf[..], 0) && Segments(CStr(buf[..], 0), "/") == segs
      modifies tk, tk.buf, buf
      ensures tk.Ready() && node == Walk(nodes, kids, root, segs)
    {
      hide TreeOk, Segments, CStr, Cut, Terminated, Walk, Down, NodeOk;
      RootPositive(nodes, kids, depth, root);
      ghost var n := 0;
      node := root;
      WalkNothing(nodes, kids, root);
      ghost var c := buf[..];
      var found: bool, tok: nat := tk.First(buf, 0, "/");
      if found { NextToken(c, 0, buf[..], tok, tk.last, segs, 0); }
      while found
        invariant Valid() && tk.Ready() && 0 <= n <= |segs| && node == Walk(nodes, kids, root, segs[..n]) && node != 0
        invariant found ==>
                    n < |segs| && tk.buf == buf && tok <= buf.Length && Terminated(buf[..], tok)
                    && CStr(buf[..], tok) == segs[n]
        invariant found ==> tk.last <= buf.Length && Segments(CStr(buf[..], tk.last), "/") == segs[n + 1..]
        invariant !found ==> n == |segs|
        decreases |segs| - n
      {
        WalkIn(nodes, kids, depth, root, segs[..n]);
        var token := ReadString(buf, tok);
        WalkStep(nodes, kids, root, segs[..n], token);
        assert segs[..n + 1] == segs[..n] + [token];
        node := SearchNode(node, token);
        if node == 0 {
          WalkNull(nodes, kids, root, segs, n + 1);
          return;
        }
        n := n + 1;
        c := buf[..];
        ghost var last := tk.last;
        found, tok := tk.Next("/");
        if found { NextToken(c, last, buf[..], tok, tk.last, segs, n); }
      }
      assert segs[..n] == segs;
    }
  }

  /** After a successful strtok the token is the next segment and the cursor stands before the rest. */
  lemma NextToken(c: seq<char>, i: nat, c': seq<char>, tok: nat, last: nat, segs: Path, n: nat)
    requires Cut(c, i, "/", c', tok, last) && n <= |segs| && Segments(CStr(c, i), "/") == segs[n..]
    ensures n < |segs| && tok <= |c'| && Terminated(c', tok) && CStr(c', tok) == segs[n]
    ensures last <= |c'| && Terminated(c', last) && Segments(CStr(c', last), "/") == segs[n + 1..]
  {
    hide Segments, CStr, Terminated, TokenEnd;
    assert segs[n..][1..] == segs[n + 1..];
  }

  lemma HeadMatch(nodes: Nodes, cs: seq<nat>, name: string)
    ensures cs == [] ==> FirstMatch(nodes, cs, name) == 0
    ensures cs != [] && cs[0] in nodes && nodes[cs[0]].name == name ==> FirstMatch(nodes, cs, name) == cs[0]
  {
  }

  lemma RootPositive(nodes: Nodes, kids: Kids, depth: map<nat, nat>, root: nat)
    requires TreeOk(nodes, kids, depth, root)
    ensures 0 !in kids && root != 0
  {
    assert NodeOk(nodes, kids, depth, root);
  }

  lemma NodeFacts(nodes: Nodes, kids: Kids, depth: map<nat, nat>, root: nat, n: nat)
    requires TreeOk(nodes, kids, depth, root) && n in kids
    ensures n in nodes && n != 0 && n in depth && nodes[n].child == At(kids[n], 0)
  {
    assert NodeOk(nodes, kids, depth, n);
  }

  lemma ChildFacts(nodes: Nodes, kids: Kids, depth: map<nat, nat>, root: nat, n: nat, i: nat)
    requires TreeOk(nodes, kids, depth, root) && n in kids && i < |kids[n]|
    ensures ChildOk(nodes, kids, depth, n, i)
  {
    assert NodeOk(nodes, kids, depth, n);
  }

  lemma ListEnd(nodes: Nodes, kids: Kids, depth: map<nat, nat>, root: nat, n: nat, i: nat)
    requires TreeOk(nodes, kids, depth, root) && n in kids && i <= |kids[n]| && At(kids[n], i) == 0
    ensures i == |kids[n]|
  {
    if i < |kids[n]| {
      ChildFacts(nodes, kids, depth, root, n, i);
    }
  }

  // ---------- creating a node ----------

  ghost predicate Created(nodes: Nodes, kids: Kids, nodes': Nodes, kids': Kids, parent: nat, node: nat, name: cstring,
                          isDir: bool) {
    && parent in kids && node !in kids && node !in nodes && node != 0
    && kids' == kids[parent := kids[parent] + [node]][node := []]
    && nodes'.Keys == nodes.Keys + {node}
    && nodes'[node] == Vnode(parent, 0, 0, isDir, name, 0, 0)
    && forall n :: n in nodes ==> SameNode(nodes[n], nodes'[n])
  }

  /** All that a caller can see of a node besides its links. */
  predicate SameNode(a: Vnode, b: Vnode) {
    a.name == b.name && a.isDir == b.isDir && a.size == b.size && a.data == b.data && a.parent == b.parent
  }

  /** The pointer writes of vfs_create. */
  function Linked(nodes: Nodes, cs: seq<nat>, parent: nat, node: nat, name: cstring, isDir: bool): Nodes
    requires parent in nodes && (cs != [] ==> cs[|cs| - 1] in nodes)
  {
    var m := nodes[node := Vnode(parent, 0, 0, isDir, name, 0, 0)];
    if cs == [] then m[parent := nodes[parent].(child := node)]
    else m[cs[|cs| - 1] := nodes[cs[|cs| - 1]].(next := node)]
  }

  lemma CreateTree(nodes: Nodes, kids: Kids, depth: map<nat, nat>, root: nat, parent: nat, node: nat, name: cstring,
                   isDir: bool)
    requires TreeOk(nodes, kids, depth, root) && parent in kids && node != 0 && node !in nodes && node !in kids
    ensures parent in nodes && parent in depth && (kids[parent] != [] ==> kids[parent][|kids[parent]| - 1] in nodes)
    ensures var nodes' := Linked(nodes, kids[parent], parent, node, name, isDir);
            var kids' := kids[parent := kids[parent] + [node]][node := []];
            TreeOk(nodes', kids', depth[node := depth[parent] + 1], root)
            && Created(nodes, kids, nodes', kids', parent, node, name, isDir)
  {
    NodeFacts(nodes, kids, depth, root, parent);
    var cs := kids[parent];
    if cs != [] { ChildFacts(nodes, kids, depth, root, parent, |cs| - 1); }
    var nodes' := Linked(nodes, cs, parent, node, name, isDir);
    var kids' := kids[parent := cs + [node]][node := []];
    var depth' := depth[node := depth[parent] + 1];
    forall n | n in kids' ensures NodeOk(nodes', kids', depth', n) {
      CreatedNode(nodes, kids, depth, root, parent, node, name, isDir, n);
    }
    forall n, i, j | n in kids' && 0 <= i < j < |kids'[n]| ensures kids'[n][i] != kids'[n][j] {
      if n == parent && j == |cs| { ChildFacts(nodes, kids, depth, root, parent, i); }
    }
  }

  lemma CreatedNode(nodes: Nodes, kids: Kids, depth: map<nat, nat>, root: nat, parent: nat, node: nat, name: cstring,
                    isDir: bool, n: nat)
    requires TreeOk(nodes, kids, depth, root) && parent in kids && node != 0 && node !in nodes && node !in kids
    requires parent in nodes && parent in depth && (kids[parent] != [] ==> kids[parent][|kids[parent]| - 1] in nodes)
    requires n in kids || n == node
    ensures var nodes' := Linked(nodes, kids[parent], parent, node, name, isDir);
            var kids' := kids[parent := kids[parent] + [node]][node := []];
            NodeOk(nodes', kids', depth[node := depth[parent] + 1], n)
  {
    hide TreeOk;
    var cs := kids[parent];
    var nodes' := Linked(nodes, cs, parent, node, name, isDir);
    var kids' := kids[parent := cs + [node]][node := []];
    var depth' := depth[node := depth[parent] + 1];
    if n != node {
      NodeFacts(nodes, kids, depth, root, n);
      if cs != [] { ChildFacts(nodes, kids, depth, root, parent, |cs| - 1); }
      forall i | 0 <= i < |kids'[n]| ensures ChildOk(nodes', kids', depth', n, i) {
        if n == parent && i == |cs| {
        } else {
          ChildFacts(nodes, kids, depth, root, n, i);
          if n == parent && i != |cs| - 1 { Distinct(nodes, kids, depth, root, n, i, |cs| - 1); }
        }
      }
    }
  }

  lemma Distinct(nodes: Nodes, kids: Kids, depth: map<nat, nat>, root: nat, n: nat, i: nat, j: nat)
    requires TreeOk(nodes, kids, depth, root) && n in kids && i < |kids[n]| && j < |kids[n]| && i != j
    ensures kids[n][i] != kids[n][j]
  {
    assert i < j ==> kids[n][i] != kids[n][j];
    assert j < i ==> kids[n][j] != kids[n][i];
  }

  // ---------- removing a node ----------

  function Without(cs: seq<nat>, x: nat): seq<nat> {
    if cs == [] then [] else if cs[0] == x then cs[1..] else [cs[0]] + Without(cs[1..], x)
  }

  function RemovedKids(kids: Kids, parent: nat, node: nat): Kids
    requires parent in kids
  {
    kids[parent := Without(kids[parent], node)] - {node}
  }

  lemma {:induction false} WithoutAt(cs: seq<nat>, x: nat, i: nat)
    requires i < |cs| && cs[i] == x && x !in cs[..i]
    ensures Without(cs, x) == cs[..i] + cs[i + 1..]
  {
    if i > 0 {
      assert cs[0] in cs[..i];
      assert cs[1..][..i - 1] == cs[..i][1..];
      WithoutAt(cs[1..], x, i - 1);
      assert cs[1..][i..] == cs[i + 1..];
    }
  }

  /** The pointer writes of vfs_remove on child i. */
  function Unlinked(nodes: Nodes, cs: seq<nat>, parent: nat, i: nat): Nodes
    requires i < |cs| && parent in nodes && cs[i] in nodes && (i > 0 ==> cs[i - 1] in nodes)
  {
    (if i > 0 then nodes[cs[i - 1] := nodes[cs[i - 1]].(next := nodes[cs[i]].next)]
     else nodes[parent := nodes[parent].(child := nodes[cs[i]].next)]) - {cs[i]}
  }

  lemma RemoveTree(nodes: Nodes, kids: Kids, depth: map<nat, nat>, root: nat, parent: nat, i: nat)
    requires TreeOk(nodes, kids, depth, root) && parent in kids && i < |kids[parent]|
    requires kids[parent][i] !in kids[parent][..i]
    ensures parent in nodes && kids[parent][i] in nodes && (i > 0 ==> kids[parent][i - 1] in nodes)
    ensures TreeOk(Unlinked(nodes, kids[parent], parent, i), RemovedKids(kids, parent, kids[parent][i]), depth, root)
    ensures kids[parent][i] != parent && kids[parent][i] != root
  {
    var cs := kids[parent];
    NodeFacts(nodes, kids, depth, root, parent);
    ChildFacts(nodes, kids, depth, root, parent, i);
    if i > 0 { ChildFacts(nodes, kids, depth, root, parent, i - 1); }
    var kids' := RemovedKids(kids, parent, cs[i]);
    WithoutAt(cs, cs[i], i);
    forall n | n in kids' ensures NodeOk(Unlinked(nodes, cs, parent, i), kids', depth, n) {
      RemovedNode(nodes, kids, depth, root, parent, i, n);
    }
    forall n, x, y | n in kids' && 0 <= x < y < |kids'[n]| ensures kids'[n][x] != kids'[n][y] {
      if n == parent {
        assert kids'[n][x] == cs[if x < i then x else x + 1] && kids'[n][y] == cs[if y < i then y else y + 1];
      }
    }
  }

  lemma RemovedNode(nodes: Nodes, kids: Kids, depth: map<nat, nat>, root: nat, parent: nat, i: nat, n: nat)
    requires TreeOk(nodes, kids, depth, root) && parent in kids && i < |kids[parent]|
    requires kids[parent][i] !in kids[parent][..i]
    requires parent in nodes && kids[parent][i] in nodes && (i > 0 ==> kids[parent][i - 1] in nodes)
    requires n in RemovedKids(kids, parent, kids[parent][i])
    ensures NodeOk(Unlinked(nodes, kids[parent], parent, i), RemovedKids(kids, parent, kids[parent][i]), depth, n)
  {
    hide TreeOk;
    var cs := kids[parent];
    var nodes' := Unlinked(nodes, cs, parent, i);
    var kids' := RemovedKids(kids, parent, cs[i]);
    WithoutAt(cs, cs[i], i);
    NodeFacts(nodes, kids, depth, root, n);
    ChildFacts(nodes, kids, depth, root, parent, i);
    if i > 0 { ChildFacts(nodes, kids, depth, root, parent, i - 1); }
    forall x | 0 <= x < |kids'[n]| ensures ChildOk(nodes', kids', depth, n, x) {
      var o := if n == parent && x >= i then x + 1 else x;
      assert kids'[n][x] == kids[n][o];
      ChildFacts(nodes, kids, depth, root, n, o);
      if n == parent {
        Distinct(nodes, kids, depth, root, n, o, i);
        if i > 0 && o != i - 1 { Distinct(nodes, kids, depth, root, n, o, i - 1); }
      }
    }
  }

  // ---------- walks ----------

  lemma RootPath()
    ensures Segments("/", "/") == []
  {
    assert Span("/", "/") == 1;
  }

  lemma CopyIsString(b: seq<char>, path: string)
    requires b == path + [NUL] && NUL !in path
    ensures Terminated(b, 0) && CStr(b, 0) == path
  {
    assert b[|path|] == NUL;
    CStrIs(b, 0, |path|);
    assert b[0..|path|] == path;
  }

  lemma WalkNothing(nodes: Nodes, kids: Kids, root: nat)
    ensures Walk(nodes, kids, root, []) == root
  {
  }

  lemma WalkStep(nodes: Nodes, kids: Kids, root: nat, path: Path, name: string)
    ensures Walk(nodes, kids, root, path + [name]) == Down(nodes, kids, Walk(nodes, kids, root, path), name)
  {
    assert (path + [name])[..|path|] == path;
  }

  /** A walk that succeeds ends at a node of the tree, as deep as the path is long. */
  lemma {:induction false} WalkIn(nodes: Nodes, kids: Kids, depth: map<nat, nat>, root: nat, path: Path)
    requires TreeOk(nodes, kids, depth, root)
    ensures var n := Walk(nodes, kids, root, path); n != 0 ==> n in kids && n in depth && depth[n] == |path|
  {
    if path != [] {
      var up := path[..|path| - 1];
      WalkIn(nodes, kids, depth, root, up);
      var m, n := Walk(nodes, kids, root, up), Walk(nodes, kids, root, path);
      if n != 0 {
        ParentOf(nodes, kids, depth, root, m, n);
      }
    }
  }

  lemma ParentOf(nodes: Nodes, kids: Kids, depth: map<nat, nat>, root: nat, m: nat, n: nat)
    requires TreeOk(nodes, kids, depth, root) && m in kids && n in kids[m]
    ensures n in kids && n in nodes && nodes[n].parent == m && n in depth && m in depth && depth[n] == depth[m] + 1
  {
    var i :| 0 <= i < |kids[m]| && kids[m][i] == n;
    ChildFacts(nodes, kids, depth, root, m, i);
  }

  lemma {:induction false} WalkNull(nodes: Nodes, kids: Kids, root: nat, segs: Path, n: nat)
    requires n <= |segs| && Walk(nodes, kids, root, segs[..n]) == 0 && 0 !in kids
    ensures Walk(nodes, kids, root, segs) == 0
    decreases |segs|
  {
    if n == |segs| {
      assert segs[..n] == segs;
    } else {
      assert segs[..|segs| - 1][..n] == segs[..n];
      WalkNull(nodes, kids, root, segs[..|segs| - 1], n);
    }
  }

  /** Each node is reached by at most one path. */
  lemma {:induction false} WalkInjective(nodes: Nodes, kids: Kids, depth: map<nat, nat>, root: nat, p: Path, q: Path)
    requires TreeOk(nodes, kids, depth, root)
    requires Walk(nodes, kids, root, p) == Walk(nodes, kids, root, q) != 0
    ensures p == q
    decreases |p|
  {
    WalkIn(nodes, kids, depth, root, p);
    WalkIn(nodes, kids, depth, root, q);
    if p != [] {
      var n := Walk(nodes, kids, root, p);
      var p', q' := p[..|p| - 1], q[..|q| - 1];
      var a, b := Walk(nodes, kids, root, p'), Walk(nodes, kids, root, q');
      RootPositive(nodes, kids, depth, root);
      ParentOf(nodes, kids, depth, root, a, n);
      ParentOf(nodes, kids, depth, root, b, n);
      WalkInjective(nodes, kids, depth, root, p', q');
      assert p == p' + [p[|p| - 1]] && q == q' + [q[|q| - 1]];
    }
  }

  lemma {:induction false} FirstMatchSame(nodes: Nodes, nodes': Nodes, cs: seq<nat>, x: string)
    requires forall c :: c in cs ==> c in nodes && c in nodes' && nodes'[c].name == nodes[c].name
    ensures FirstMatch(nodes', cs, x) == FirstMatch(nodes, cs, x)
  {
    if cs != [] {
      FirstMatchSame(nodes, nodes', cs[1..], x);
    }
  }

  lemma {:induction false} FirstMatchAppend(nodes: Nodes, cs: seq<nat>, node: nat, x: string)
    requires node in nodes && 0 !in cs
    ensures FirstMatch(nodes, cs + [node], x) ==
            if FirstMatch(nodes, cs, x) != 0 then FirstMatch(nodes, cs, x)
            else if nodes[node].name == x then node else 0
  {
    if cs == [] {
      assert cs + [node] == [node];
      assert [node][1..] == [];
    } else {
      assert (cs + [node])[1..] == cs[1..] + [node];
      FirstMatchAppend(nodes, cs[1..], node, x);
    }
  }

  lemma KidsInNodes(nodes: Nodes, kids: Kids, depth: map<nat, nat>, root: nat, n: nat)
    requires TreeOk(nodes, kids, depth, root) && n in kids
    ensures forall c :: c in kids[n] ==> c in nodes && c != 0
  {
    forall c | c in kids[n] ensures c in nodes && c != 0 {
      var i :| 0 <= i < |kids[n]| && kids[n][i] == c;
      ChildFacts(nodes, kids, depth, root, n, i);
    }
  }

  lemma CreatedDown(nodes: Nodes, kids: Kids, nodes': Nodes, kids': Kids, depth: map<nat, nat>, root: nat,
                    parent: nat, node: nat, name: cstring, isDir: bool, m: nat, x: string)
    requires TreeOk(nodes, kids, depth, root) && Created(nodes, kids, nodes', kids', parent, node, name, isDir)
    ensures m != node && (m != parent || x != name || Down(nodes, kids, parent, name) != 0) ==>
              Down(nodes', kids', m, x) == Down(nodes, kids, m, x)
    ensures Down(nodes', kids', node, x) == 0
    ensures Down(nodes, kids, parent, name) == 0 ==> Down(nodes', kids', parent, name) == node
  {
    KidsInNodes(nodes, kids, depth, root, parent);
    if m in kids { KidsInNodes(nodes, kids, depth, root, m); }
    hide TreeOk;
    FirstMatchSame(nodes, nodes', kids[parent], x);
    FirstMatchSame(nodes, nodes', kids[parent], name);
    FirstMatchAppend(nodes', kids[parent], node, x);
    FirstMatchAppend(nodes', kids[parent], node, name);
    if m in kids {
      FirstMatchSame(nodes, nodes', kids[m], x);
    }
  }

  /** Creating a node in directory p: if the name was free there, that one path now leads to the new
      node and every other lookup is unchanged; if it was taken, no lookup changes at all. */
  lemma {:induction false} CreateWalk(nodes: Nodes, kids: Kids, nodes': Nodes, kids': Kids, depth: map<nat, nat>,
                                      root: nat,
                                      parent: nat, node: nat, name: cstring, isDir: bool, p: Path, q: Path)
    requires TreeOk(nodes, kids, depth, root) && Created(nodes, kids, nodes', kids', parent, node, name, isDir)
    requires Walk(nodes, kids, root, p) == parent
    ensures Walk(nodes', kids', root, q) ==
            if q == p + [name] && Down(nodes, kids, parent, name) == 0 then node else Walk(nodes, kids, root, q)
    decreases |q|
  {
    RootPositive(nodes, kids, depth, root);
    if q != [] {
      var q0, x := q[..|q| - 1], q[|q| - 1];
      CreateWalk(nodes, kids, nodes', kids', depth, root, parent, node, name, isDir, p, q0);
      var m := Walk(nodes, kids, root, q0);
      CreatedDown(nodes, kids, nodes', kids', depth, root, parent, node, name, isDir, m, x);
      WalkIn(nodes, kids, depth, root, q0);
      if m == parent {
        WalkInjective(nodes, kids, depth, root, p, q0);
      }
      hide TreeOk, Down;
      CreateWalkStep(nodes, kids, nodes', kids', root, parent, node, name, p, q0, x);
      assert q == q0 + [x];
    }
  }

  lemma CreateWalkStep(nodes: Nodes, kids: Kids, nodes': Nodes, kids': Kids, root: nat,
                       parent: nat, node: nat, name: string, p: Path, q0: Path, x: string)
    requires Walk(nodes, kids, root, p) == parent && node !in kids
    requires var m := Walk(nodes, kids, root, q0);
             && (m == 0 || m in kids) && 0 !in kids && node != 0
             && (m == parent ==> p == q0)
             && (m != node && (m != parent || x != name || Down(nodes, kids, parent, name) != 0) ==>
                   Down(nodes', kids', m, x) == Down(nodes, kids, m, x))
             && Down(nodes', kids', node, x) == 0
             && (Down(nodes, kids, parent, name) == 0 ==> Down(nodes', kids', parent, name) == node)
    requires Walk(nodes', kids', root, q0) ==
             if q0 == p + [name] && Down(nodes, kids, parent, name) == 0 then node else Walk(nodes, kids, root, q0)
    ensures Walk(nodes', kids', root, q0 + [x]) ==
            if q0 + [x] == p + [name] && Down(nodes, kids, parent, name) == 0 then node
            else Walk(nodes, kids, root, q0 + [x])
  {
    WalkStep(nodes', kids', root, q0, x);
    WalkStep(nodes, kids, root, q0, x);
    WalkStep(nodes, kids, root, p, name);
    assert q0 + [x] == p + [name] <==> q0 == p && x == name by {
      if q0 + [x] == p + [name] {
        assert (q0 + [x])[..|q0|] == q0 && (p + [name])[..|p|] == p && (q0 + [x])[|q0|] == x;
      }
    }
  }

  /** What is left after a removal: one node gone, every other node as it was apart from its links. */
  ghost predicate Removed(nodes: Nodes, kids: Kids, nodes': Nodes, kids': Kids, parent: nat, node: nat) {
    && parent in kids && node in kids[parent] && kids' == RemovedKids(kids, parent, node)
    && nodes'.Keys == nodes.Keys - {node} && forall n :: n in nodes' ==> SameNode(nodes[n], nodes'[n])
  }

  lemma UnlinkedRemoved(nodes: Nodes, kids: Kids, depth: map<nat, nat>, root: nat, parent: nat, i: nat)
    requires TreeOk(nodes, kids, depth, root) && parent in kids && i < |kids[parent]|
    requires kids[parent][i] !in kids[parent][..i]
    ensures parent in nodes && kids[parent][i] in nodes && (i > 0 ==> kids[parent][i - 1] in nodes)
    ensures Removed(nodes, kids, Unlinked(nodes, kids[parent], parent, i),
                    RemovedKids(kids, parent, kids[parent][i]), parent, kids[parent][i])
  {
    RemoveTree(nodes, kids, depth, root, parent, i);
    hide TreeOk, RemovedKids;
  }

  lemma {:induction false} FirstMatchLess(nodes: Nodes, nodes': Nodes, cs: seq<nat>, node: nat, x: string)
    requires nodes'.Keys == nodes.Keys - {node} && forall n :: n in nodes' ==> nodes'[n].name == nodes[n].name
    requires FirstMatch(nodes, cs, x) != node
    ensures FirstMatch(nodes', cs, x) == FirstMatch(nodes, cs, x)
  {
    if cs != [] && !(cs[0] in nodes && nodes[cs[0]].name == x) {
      FirstMatchLess(nodes, nodes', cs[1..], node, x);
    }
  }

  lemma {:induction false} FirstMatchWithout(nodes: Nodes, cs: seq<nat>, node: nat, x: string)
    requires node !in nodes
    ensures FirstMatch(nodes, Without(cs, node), x) == FirstMatch(nodes, cs, x)
  {
    if cs != [] && cs[0] != node {
      FirstMatchWithout(nodes, cs[1..], node, x);
      assert Without(cs, node)[1..] == Without(cs[1..], node);
    }
  }

  /** Removing a node changes no lookup whose path does not lead through that node. */
  lemma {:induction false} RemoveWalk(nodes: Nodes, kids: Kids, nodes': Nodes, kids': Kids, root: nat, parent: nat,
                                      node: nat, q: Path)
    requires Removed(nodes, kids, nodes', kids', parent, node)
    requires forall n :: 0 <= n <= |q| ==> Walk(nodes, kids, root, q[..n]) != node
    ensures Walk(nodes', kids', root, q) == Walk(nodes, kids, root, q)
    decreases |q|
  {
    if q != [] {
      var q0, x := q[..|q| - 1], q[|q| - 1];
      assert forall n :: 0 <= n <= |q0| ==> q0[..n] == q[..n];
      RemoveWalk(nodes, kids, nodes', kids', root, parent, node, q0);
      var m := Walk(nodes, kids, root, q0);
      assert q[..|q|] == q && q[..|q0|] == q0;
      if m in kids {
        FirstMatchLess(nodes, nodes', kids[m], node, x);
        FirstMatchWithout(nodes', kids[m], node, x);
      }
    }
  }

  /** No path leads to a removed node any more. */
  lemma RemovedGone(nodes: Nodes, kids: Kids, nodes': Nodes, kids': Kids, depth: map<nat, nat>, root: nat,
                    parent: nat, node: nat, q: Path)
    requires TreeOk(nodes, kids, depth, root) && Removed(nodes, kids, nodes', kids', parent, node)
    ensures Walk(nodes', kids', root, q) != node
  {
    var i :| 0 <= i < |kids[parent]| && kids[parent][i] == node;
    ChildFacts(nodes, kids, depth, root, parent, i);
    ParentOf(nodes, kids, depth, root, parent, node);
    WalkNothing(nodes, kids, root);
    WalkIn(nodes, kids, depth, root, []);
    hide TreeOk;
  }

  lemma {:induction false} WithoutIn(cs: seq<nat>, x: nat, m: nat)
    requires m in Without(cs, x)
    ensures m in cs
  {
    if cs != [] && cs[0] != x && m != cs[0] {
      WithoutIn(cs[1..], x, m);
    }
  }

  /** Each node of the chain is a child of the one before it. */
  ghost predicate Descends(kids: Kids, chain: seq<nat>) {
    chain != [] && forall i :: 0 <= i < |chain| - 1 ==> chain[i] in kids && chain[i + 1] in kids[chain[i]]
  }

  /** A step of a walk in the tree that is left was a step from parent to child before. */
  lemma StepWasChild(nodes: Nodes, kids: Kids, nodes': Nodes, kids': Kids, depth: map<nat, nat>, root: nat,
                     parent: nat, node: nat, x: nat, name: string)
    requires TreeOk(nodes, kids, depth, root) && Removed(nodes, kids, nodes', kids', parent, node)
    requires Down(nodes', kids', x, name) != 0
    ensures x in kids && Down(nodes', kids', x, name) in kids[x]
  {
    hide TreeOk;
    var m := Down(nodes', kids', x, name);
    if x == parent { WithoutIn(kids[parent], node, m); }
  }

  /** Removing a directory leaves everything below it allocated, and no path leads there any more. */
  lemma {:induction false} OrphansUnreachable(nodes: Nodes, kids: Kids, nodes': Nodes, kids': Kids,
                                              depth: map<nat, nat>, root: nat, parent: nat, node: nat,
                                              chain: seq<nat>, n: nat, q: Path)
    requires TreeOk(nodes, kids, depth, root) && Removed(nodes, kids, nodes', kids', parent, node)
    requires Descends(kids, chain) && chain[0] == node && n < |chain|
    ensures Walk(nodes', kids', root, q) != chain[n] && (n > 0 ==> chain[n] in nodes' && chain[n] in kids')
    decreases n
  {
    RemovedGone(nodes, kids, nodes', kids', depth, root, parent, node, q);
    if n > 0 {
      var up, m := chain[n - 1], chain[n];
      assert up in kids && m in kids[up];
      ParentOf(nodes, kids, depth, root, up, m);
      RootPositive(nodes, kids, depth, root);
      DeeperThan(nodes, kids, depth, root, parent, node, chain, n);
      WalkIn(nodes, kids, depth, root, []);
      if Walk(nodes', kids', root, q) == m && q != [] {
        var q0, name := q[..|q| - 1], q[|q| - 1];
        var x := Walk(nodes', kids', root, q0);
        StepWasChild(nodes, kids, nodes', kids', depth, root, parent, node, x, name);
        ParentOf(nodes, kids, depth, root, x, m);
        OrphansUnreachable(nodes, kids, nodes', kids', depth, root, parent, node, chain, n - 1, q0);
      }
    }
  }

  /** A node below another is not that node. */
  lemma {:induction false} DeeperThan(nodes: Nodes, kids: Kids, depth: map<nat, nat>, root: nat, parent: nat,
                                      node: nat, chain: seq<nat>, n: nat)
    requires TreeOk(nodes, kids, depth, root) && parent in kids && node in kids[parent]
    requires Descends(kids, chain) && chain[0] == node && n < |chain|
    ensures node in depth && chain[n] in depth && depth[chain[n]] == depth[node] + n && depth[node] > 0
  {
    ParentOf(nodes, kids, depth, root, parent, node);
    if n > 0 {
      DeeperThan(nodes, kids, depth, root, parent, node, chain, n - 1);
      assert chain[n - 1] in kids && chain[n - 1 + 1] in kids[chain[n - 1]];
      ParentOf(nodes, kids, depth, root, chain[n - 1], chain[n]);
    }
  }

  lemma {:induction false} MatchIndex(nodes: Nodes, cs: seq<nat>, name: string) returns (i: nat)
    requires FirstMatch(nodes, cs, name) != 0
    ensures i < |cs| && cs[i] == FirstMatch(nodes, cs, name)
    ensures forall k :: 0 <= k < i ==> !(cs[k] in nodes && nodes[cs[k]].name == name)
  {
    if cs[0] in nodes && nodes[cs[0]].name == name {
      i := 0;
    } else {
      var k := MatchIndex(nodes, cs[1..], name);
      i := k + 1;
    }
  }

  lemma {:induction false} MatchSkips(nodes: Nodes, a: seq<nat>, b: seq<nat>, name: string)
    requires forall k :: 0 <= k < |a| ==> !(a[k] in nodes && nodes[a[k]].name == name)
    ensures FirstMatch(nodes, a + b, name) == FirstMatch(nodes, b, name)
  {
    if a != [] {
      MatchSkips(nodes, a[1..], b, name);
      assert (a + b)[1..] == a[1..] + b;
    } else {
      assert a + b == b;
    }
  }

  /** The path of a removed node then leads to the next sibling of the same name, or nowhere. */
  lemma RemovedPath(nodes: Nodes, kids: Kids, nodes': Nodes, kids': Kids, depth: map<nat, nat>, root: nat,
                    parent: nat, node: nat, p: Path, name: string) returns (i: nat)
    requires TreeOk(nodes, kids, depth, root) && Removed(nodes, kids, nodes', kids', parent, node)
    requires Walk(nodes, kids, root, p) == parent && Walk(nodes, kids, root, p + [name]) == node
    ensures i < |kids[parent]| && kids[parent][i] == node
    ensures Walk(nodes', kids', root, p) == parent
    ensures Walk(nodes', kids', root, p + [name]) == FirstMatch(nodes, kids[parent][i + 1..], name)
  {
    var cs := kids[parent];
    ParentOf(nodes, kids, depth, root, parent, node);
    RootPositive(nodes, kids, depth, root);
    WalkIn(nodes, kids, depth, root, p);
    forall n | 0 <= n <= |p| ensures Walk(nodes, kids, root, p[..n]) != node {
      WalkIn(nodes, kids, depth, root, p[..n]);
    }
    RemoveWalk(nodes, kids, nodes', kids', root, parent, node, p);
    WalkStep(nodes, kids, root, p, name);
    WalkStep(nodes', kids', root, p, name);
    i := MatchIndex(nodes, cs, name);
    forall k | 0 <= k < |cs| && k != i ensures cs[k] != node { Distinct(nodes, kids, depth, root, parent, k, i); }
    hide TreeOk, Walk;
    WithoutAt(cs, node, i);
    MatchSkips(nodes', cs[..i], cs[i + 1..], name);
    assert node !in cs[i + 1..];
    FirstMatchLess(nodes, nodes', cs[i + 1..], node, name);
  }

  method ReadString(b: array<char>, at: nat) returns (s: cstring)
    requires at <= b.Length && Terminated(b[..], at)
    ensures s == CStr(b[..], at)
  {
    CStrFacts(b[..], at);
    var n := 0;
    while b[at + n] != NUL
      invariant n <= |CStr(b[..], at)|
      decreases b.Length - at - n
    {
      CStrTail(b[..], at, n);
      HeadOf(b[..], at + n);
      n := n + 1;
    }
    EndsHere(b[..], at, n);
    s := b[at..at + n];
    assert s == b[..][at..at + n];
  }
}
