/** File system nodes and the operations of src/kernel/ramfs.cpp on the directory structure. */
module Nodes {
  import opened Options
  import opened FileTree
  import opened Paths
  import opened Tokenizing

  const MAX_CHILDREN := 32
  const NAME_SIZE := 64

  class FSNode {
    const name: string
    const isDir: bool
    /** The table of children: `MAX_CHILDREN` entries, or none for a file and for a directory whose
        table could not be allocated. */
    const children: array<FSNode?>
    /** Heap addresses of the node itself and of its table (0 if there is none). */
    ghost const addr: nat
    ghost const table: nat
    var childCount: nat
    var parent: FSNode?
    /** Contents of a file: heap address (0 for none) and size. */
    var data: nat
    var size: nat

    constructor (name: string, isDir: bool, ghost addr: nat, table: nat)
      ensures this.name == name && this.isDir == isDir && this.addr == addr && this.table == table
      ensures childCount == 0 && parent == null && data == 0 && size == 0 && fresh(children)
      ensures children.Length == if table != 0 then MAX_CHILDREN else 0
    {
      this.name, this.isDir, this.addr, this.table := name, isDir, addr, table;
      childCount, parent, data, size := 0, null, 0, 0;
      children := new FSNode?[if table != 0 then MAX_CHILDREN else 0](_ => null);
    }
  }

  /** The table of `n` holds the list `ks`. */
  ghost predicate SpellsKids(n: FSNode, ks: seq<FSNode>)
    reads n`childCount, n.children
  {
    && n.childCount == |ks| <= n.children.Length <= MAX_CHILDREN
    && (!n.isDir ==> ks == [])
    && forall i :: 0 <= i < |ks| ==> n.children[i] == ks[i]
  }

  /** The fields of `n` say what `t` says of it. */
  ghost predicate Spells(n: FSNode, t: Tree<FSNode>)
    reads n`childCount, n`parent, n.children
  {
    && n in t.kids && SpellsKids(n, t.kids[n])
    && n in t.parent && n.parent == match t.parent[n] case None => null case Some(p) => p
  }

  /** The structure as a value, the labels, a bound on all depths, and whose table is whose. */
  datatype Shape = Shape(
    tree: Tree<FSNode>,
    labels: Labels<FSNode>,
    height: nat,
    owner: map<array<FSNode?>, FSNode>)

  /** The unchanging fields of `n`. */
  ghost predicate Constants(s: Shape, n: FSNode) {
    && n in s.labels.name && n.name == s.labels.name[n]
    && n in s.labels.isDir && n.isDir == s.labels.isDir[n]
    && n.children in s.owner && s.owner[n.children] == n
    && n in s.tree.depth && s.tree.depth[n] <= s.height
  }

  ghost predicate Sane(s: Shape) {
    && Labelled(s.tree, s.labels)
    && forall n {:trigger Constants(s, n)} :: n in s.tree.kids ==> Constants(s, n)
  }

  /** The shape after node `n` has been made. */
  ghost function EnteredShape(s: Shape, n: FSNode): Shape {
    Shape(Created(s.tree, n), Paths.Labels.Labels(s.labels.name[n := n.name], s.labels.isDir[n := n.isDir]),
          s.height, s.owner[n.children := n])
  }

  lemma EnteredNodes(s: Shape, n: FSNode)
    ensures EnteredShape(s, n).tree.kids.Keys == s.tree.kids.Keys + {n}
  {
  }

  lemma AppendedNodes(s: Shape, p: FSNode, c: FSNode)
    requires Sane(s) && p in s.tree.kids && c in s.tree.kids
    ensures p in s.tree.depth && AppendedShape(s, p, c).tree.kids.Keys == s.tree.kids.Keys
  {
  }

  lemma RemovedNodes(s: Shape, p: FSNode, c: FSNode)
    requires Sane(s) && p in s.tree.kids && c in s.tree.kids
    ensures FileTree.Valid(s.tree) && Removed(s.tree, p, c).kids.Keys == s.tree.kids.Keys
  {
  }

  lemma EnteredSane(s: Shape, n: FSNode)
    requires Sane(s) && n !in s.tree.kids && n.children !in s.owner
    ensures Sane(EnteredShape(s, n)) && Loose(EnteredShape(s, n).tree, n)
  {
    CreatedLabelled(s.tree, s.labels, n, n.name, n.isDir);
    forall m | m in EnteredShape(s, n).tree.kids ensures Constants(EnteredShape(s, n), m) {
      assert m != n ==> Constants(s, m);
    }
  }

  /** The shape after `c` became the last child of `p`. */
  ghost function AppendedShape(s: Shape, p: FSNode, c: FSNode): Shape
    requires p in s.tree.kids && p in s.tree.depth
  {
    s.(tree := Added(s.tree, p, c), height := s.height + 1)
  }

  lemma AppendedSane(s: Shape, p: FSNode, c: FSNode)
    requires Sane(s) && p in s.tree.kids && p.isDir && Loose(s.tree, c) && p != c
    ensures Sane(AppendedShape(s, p, c))
  {
    assert Constants(s, p);
    AddedLabelled(s.tree, s.labels, p, c);
    forall m | m in s.tree.kids ensures Constants(AppendedShape(s, p, c), m) {
      assert Constants(s, m);
    }
  }

  /** The shape after `n` has been made and put into `p`, if there was room. */
  ghost function PlacedShape(s: Shape, p: FSNode, n: FSNode): Shape {
    var e := EnteredShape(s, n);
    if p in s.tree.kids && p in e.tree.kids && p in e.tree.depth && |s.tree.kids[p]| < MAX_CHILDREN
    then AppendedShape(e, p, n) else e
  }

  lemma PlacedFacts(s: Shape, p: FSNode, n: FSNode)
    requires Sane(s) && p in s.tree.kids && n !in s.tree.kids && n.children !in s.owner
    ensures var e := EnteredShape(s, n);
      && Sane(e) && p in e.tree.kids && e.tree.kids[p] == s.tree.kids[p]
      && e.tree.kids.Keys == s.tree.kids.Keys + {n}
      && PlacedShape(s, p, n) == if |s.tree.kids[p]| < MAX_CHILDREN then AppendedShape(e, p, n) else e
  {
    EnteredSane(s, n);
  }

  lemma PlacedNodes(s: Shape, p: FSNode, n: FSNode)
    ensures PlacedShape(s, p, n).tree.kids.Keys == s.tree.kids.Keys + {n}
  {
  }

  /** Entry `i` carries the name, and no entry before it does. */
  ghost predicate FirstCalled(ks: seq<FSNode>, nm: string, i: int) {
    0 <= i < |ks| && ks[i].name == nm && forall j :: 0 <= j < i ==> ks[j].name != nm
  }

  /** Looking a name up, in terms of the entries themselves. */
  lemma FirstCalledIs(s: Shape, p: FSNode, nm: string)
    requires Sane(s) && p in s.tree.kids
    ensures var r := Paths.FindChild(s.tree, s.labels, Some(p), nm);
      && (r.None? ==> forall x :: x in s.tree.kids[p] ==> x.name != nm)
      && (r.Some? ==> exists i :: FirstCalled(s.tree.kids[p], nm, i) && s.tree.kids[p][i] == r.value)
    ensures forall i :: FirstCalled(s.tree.kids[p], nm, i) ==>
              Paths.FindChild(s.tree, s.labels, Some(p), nm) == Some(s.tree.kids[p][i])
  {
    var ks := s.tree.kids[p];
    assert Constants(s, p);
    forall x | x in ks ensures x in s.labels.name && x.name == s.labels.name[x] {
      assert ChildOk(s.tree, p, x) && Constants(s, x);
    }
    forall i | FirstCalled(ks, nm, i)
      ensures Paths.FindChild(s.tree, s.labels, Some(p), nm) == Some(ks[i])
    {
      FirstNamedAt(ks, s.labels.name, nm, i);
    }
    var r := Paths.FindChild(s.tree, s.labels, Some(p), nm);
    if r.Some? {
      var i := FirstIndex(ks, nm);
    }
  }

  lemma FirstIndex(ks: seq<FSNode>, nm: string) returns (i: nat)
    requires exists x :: x in ks && x.name == nm
    ensures FirstCalled(ks, nm, i)
  {
    i := 0;
    while ks[i].name != nm
      invariant i < |ks| && forall j :: 0 <= j < i ==> ks[j].name != nm
      decreases |ks| - i
    {
      i := i + 1;
    }
  }

  class Directory {
    const root: FSNode
    ghost var shape: Shape

    /** All nodes ever created. */
    ghost function Nodes(): set<FSNode>
      reads `shape
    {
      shape.tree.kids.Keys
    }

    ghost function Tables(): set<array<FSNode?>>
      reads `shape
    {
      set n | n in Nodes() :: n.children
    }

    ghost predicate Matches()
      reads `shape, Nodes()`childCount, Nodes()`parent, Tables()
    {
      forall n {:trigger Spells(n, shape.tree)} :: n in Nodes() ==> Spells(n, shape.tree)
    }

    ghost predicate Valid()
      reads this, Nodes()`childCount, Nodes()`parent, Tables()
    {
      Matches() && Sane(shape) && shape.tree.root == root
    }

    /** `fs_init`, with the root node allocated. */
    constructor (root: FSNode)
      requires root.isDir && root.childCount == 0 && root.parent == null && root.children.Length <= MAX_CHILDREN
      ensures Valid() && this.root == root && shape.tree == Single<FSNode>(root)
    {
      this.root := root;
      shape := Shape(Single<FSNode>(root), Paths.Labels.Labels(map[root := root.name], map[root := true]),
                     0, map[root.children := root]);
      new;
      assert Spells(root, shape.tree) && Constants(shape, root);
    }

    /** Shift the remaining children to the left, within the table. */
    static method ShiftTable(table: array<FSNode?>, i: nat, count: nat)
      requires i < count <= table.Length
      modifies table
      ensures forall k :: 0 <= k < count - 1 ==> table[k] == old(table[if k < i then k else k + 1])
    {
      for j := i to count - 1
        invariant forall k :: 0 <= k < table.Length && !(i <= k < j) ==> table[k] == old(table[k])
        invariant forall k :: i <= k < j ==> table[k] == old(table[k + 1])
      {
        table[j] := table[j + 1];
      }
    }

    /** Drop entry `i` of a directory. */
    static method DropEntry(p: FSNode, i: nat, ghost ks: seq<FSNode>)
      requires SpellsKids(p, ks) && i < |ks|
      modifies p`childCount, p.children
      ensures SpellsKids(p, ks[..i] + ks[i + 1..])
    {
      ShiftTable(p.children, i, p.childCount);
      p.childCount := p.childCount - 1;
    }

    /** Drop entry `i` of a directory; the structure becomes `t`. */
    method CloseGap(p: FSNode, i: nat, ghost t: Tree<FSNode>)
      requires Valid() && p in Nodes() && i < |shape.tree.kids[p]|
      requires t == shape.tree.(kids := shape.tree.kids[p := shape.tree.kids[p][..i] + shape.tree.kids[p][i + 1..]])
      requires Labelled(t, shape.labels)
      modifies `shape, p`childCount, p.children
      ensures Valid() && shape == old(shape).(tree := t)
    {
      hide Labelled, FileTree.Valid;
      ghost var s := shape;
      assert Spells(p, s.tree);
      DropEntry(p, i, s.tree.kids[p]);
      shape := s.(tree := t);
      forall n | n in t.kids ensures Spells(n, t) && Constants(shape, n) {
        assert Constants(s, n) && Constants(s, p) && old(Spells(n, s.tree));
      }
    }

    /** The search loop of `fs_remove_child`. */
    static method IndexOf(p: FSNode, c: FSNode, ghost ks: seq<FSNode>) returns (i: nat)
      requires SpellsKids(p, ks)
      ensures i <= |ks| && (i < |ks| ==> ks[i] == c)
      ensures c in ks <==> i < |ks|
    {
      i := 0;
      while i < p.childCount
        invariant i <= |ks| && forall j :: 0 <= j < i ==> ks[j] != c
      {
        if p.children[i] == c { return; }
        i := i + 1;
      }
    }

    /** How far above the deepest level `n` is. */
    static ghost function Rank(s: Shape, n: FSNode): nat {
      if n in s.tree.depth && s.tree.depth[n] <= s.height then s.height - s.tree.depth[n] else 0
    }

    /** `fs_remove_child`: nothing happens unless `p` lists `c`. */
    method RemoveChild(p: FSNode?, c: FSNode)
      requires Valid() && (p != null ==> p in Nodes()) && c in Nodes()
      modifies `shape, Nodes()`childCount, Tables()
      ensures Valid()
      ensures shape == old(shape).(tree :=
        if p != null && c in old(shape.tree).kids[p] then Removed(old(shape.tree), p, c) else old(shape.tree))
      decreases if p != null then Rank(shape, p) else 0, 1
    {
      if p == null { return; }
      assert Spells(p, shape.tree) && Constants(shape, p);
      if !p.isDir { return; }
      var i := IndexOf(p, c, shape.tree.kids[p]);
      if i < p.childCount {
        RemoveListed(p, c, i);
      }
    }

    /** The child has been found at index `i`: empty it first, then close the gap. */
    method RemoveListed(p: FSNode, c: FSNode, i: nat)
      requires Valid() && p in Nodes() && c in Nodes() && i < |shape.tree.kids[p]| && shape.tree.kids[p][i] == c
      modifies `shape, Nodes()`childCount, Tables()
      ensures Valid() && shape == old(shape).(tree := Removed(old(shape.tree), p, c))
      decreases Rank(shape, p), 0
    {
      ghost var t := shape.tree;
      ListedIff(t, p, c);
      assert Constants(shape, c) && Constants(shape, p);
      RemovedResult(t, shape.labels, p, c, i);
      EmptyChild(c);
      CloseGap(p, i, Removed(t, p, c));
    }

    /** Only directories have children to remove. */
    method EmptyChild(c: FSNode)
      requires Valid() && c in Nodes()
      modifies `shape, Nodes()`childCount, Tables()
      ensures Valid() && shape == old(shape).(tree := Pruned(old(shape.tree), c))
      decreases Rank(shape, c), 4
    {
      assert Constants(shape, c);
      if c.isDir {
        PruneChildren(c);
      } else {
        LeafPruned(shape.tree, c);
      }
    }

    /** The inner loop of `fs_remove_child`: the child list shrinks while the index advances. */
    method PruneChildren(c: FSNode)
      requires Valid() && c in Nodes()
      modifies `shape, Nodes()`childCount, Tables()
      ensures Valid() && shape == old(shape).(tree := Pruned(old(shape.tree), c))
      decreases Rank(shape, c), 3
    {
      hide RoundShape, Pruned;
      ghost var s := shape;
      RoundStart(s, c);
      var j := 0;
      while j < c.childCount
        invariant Valid() && RoundShape(s, c, j, shape) && Nodes() == old(Nodes())
        decreases |s.tree.kids[c]| - 2 * j
      {
        assert Spells(c, shape.tree);
        RoundStep(s, c, j, shape);
        PruneOne(s, c, j);
        j := j + 1;
      }
      assert Spells(c, shape.tree);
      RoundEnd(s, c, j, shape);
    }

    /** One round of that loop. */
    method PruneOne(ghost s: Shape, c: FSNode, j: nat)
      requires Valid() && RoundShape(s, c, j, shape) && c in Nodes() && j < |shape.tree.kids[c]|
      modifies `shape, Nodes()`childCount, Tables()
      ensures Valid() && RoundShape(s, c, j + 1, shape) && Nodes() == old(Nodes())
      decreases Rank(s, c), 2
    {
      hide RoundShape, Removed;
      RoundStep(s, c, j, shape);
      assert Spells(c, shape.tree);
      RemoveChild(c, c.children[j]);
    }

    /** Enter a newly made node: it belongs to no directory yet. */
    ghost method Enter(n: FSNode)
      requires Valid() && n !in Nodes() && n.children !in shape.owner
      requires SpellsKids(n, []) && n.parent == null
      modifies `shape
      ensures Valid() && shape == EnteredShape(old(shape), n) && Loose(shape.tree, n)
    {
      hide Labelled, Constants;
      var s := shape;
      EnteredSane(s, n);
      shape := EnteredShape(s, n);
      assert Spells(n, shape.tree);
      forall m | m in s.tree.kids ensures Spells(m, shape.tree) {
        assert old(Spells(m, s.tree));
      }
    }

    /** `fs_add_child`; callers pass a node that was just created. No name is checked. */
    method AddChild(p: FSNode?, c: FSNode)
      requires Valid() && c in Nodes() && Loose(shape.tree, c) && p != c && (p != null ==> p in Nodes())
      requires p != null && p.isDir && p.childCount < MAX_CHILDREN ==> p.children.Length == MAX_CHILDREN
      modifies `shape, Nodes()`childCount, c`parent, Tables()
      ensures Valid()
      ensures shape == if p != null && p.isDir && |old(shape.tree).kids[p]| < MAX_CHILDREN
                       then AppendedShape(old(shape), p, c) else old(shape)
      ensures if p != null && p.isDir && old(p.childCount) < MAX_CHILDREN
              then p.childCount == old(p.childCount) + 1 <= p.children.Length && c.parent == p
                   && p.children[p.childCount - 1] == c
                   && forall i :: 0 <= i < p.childCount - 1 ==> p.children[i] == old(p.children[i])
              else p != null ==> p.childCount == old(p.childCount)
    {
      if p == null { return; }
      assert Spells(p, shape.tree);
      if !p.isDir || p.childCount >= MAX_CHILDREN { return; }
      Append(p, c);
    }

    method Append(p: FSNode, c: FSNode)
      requires Valid() && c in Nodes() && Loose(shape.tree, c) && p != c && p in Nodes()
      requires p.childCount < p.children.Length && p.isDir
      modifies `shape, p`childCount, p.children, c`parent
      ensures Valid() && shape == AppendedShape(old(shape), p, c)
      ensures p.childCount == old(p.childCount) + 1 <= p.children.Length && c.parent == p
      ensures p.children[p.childCount - 1] == c
      ensures forall i :: 0 <= i < p.childCount - 1 ==> p.children[i] == old(p.children[i])
    {
      hide Labelled, Loose;
      ghost var s := shape;
      AppendedSane(s, p, c);
      AppendedNodes(s, p, c);
      assert Spells(p, s.tree);
      AppendEntry(p, c, s.tree.kids[p]);
      c.parent := p;
      shape := AppendedShape(s, p, c);
      forall n | n in s.tree.kids ensures Spells(n, shape.tree) {
        assert Constants(s, n) && Constants(s, p) && old(Spells(n, s.tree));
      }
    }

    static method AppendEntry(p: FSNode, c: FSNode, ghost ks: seq<FSNode>)
      requires SpellsKids(p, ks) && p.isDir && p.childCount < p.children.Length
      modifies p`childCount, p.children
      ensures SpellsKids(p, ks + [c])
      ensures p.childCount == old(p.childCount) + 1 && p.children[p.childCount - 1] == c
      ensures forall i :: 0 <= i < p.childCount - 1 ==> p.children[i] == old(p.children[i])
    {
      p.children[p.childCount] := c;
      p.childCount := p.childCount + 1;
    }

    /** `fs_find_child`. */
    method FindChild(p: FSNode?, nm: string) returns (r: FSNode?)
      requires Valid() && (p != null ==> p in Nodes())
      ensures r != null ==> r in Nodes()
      ensures Opt(r) == Paths.FindChild(shape.tree, shape.labels, Opt(p), nm)
      ensures if p == null then r == null
              else p in shape.tree.kids &&
                   if r == null then forall x :: x in shape.tree.kids[p] ==> x.name != nm
                   else exists i :: FirstCalled(shape.tree.kids[p], nm, i) && shape.tree.kids[p][i] == r
    {
      if p == null { return null; }
      assert Spells(p, shape.tree) && Constants(shape, p);
      FirstCalledIs(shape, p, nm);
      if !p.isDir { return null; }
      assert forall n :: n in shape.tree.kids[p] ==> n in Nodes() by {
        assert forall n :: n in shape.tree.kids[p] ==> ChildOk(shape.tree, p, n);
      }
      var i := 0;
      while i < p.childCount
        invariant i <= p.childCount
        invariant forall j :: 0 <= j < i ==> shape.labels.name[shape.tree.kids[p][j]] != nm
      {
        assert Constants(shape, shape.tree.kids[p][i]);
        if p.children[i].name == nm {
          FirstNamedAt(shape.tree.kids[p], shape.labels.name, nm, i);
          return p.children[i];
        }
        i := i + 1;
      }
      r := null;
      var found := FirstNamed(shape.tree.kids[p], shape.labels.name, nm);
      assert found.None?;
    }

    // ------------------------------------------------------------- path lookup

    /** `path` is read up to `k`; `temp` holds the `len` characters since the last slash, and
        `current` is where the components closed so far lead. */
    ghost predicate Scanned(path: string, start: FSNode?, temp: array<char>, k: nat, current: FSNode?, len: nat)
      requires Sane(shape)
      reads `shape, temp
    {
      && (current != null ==> current in Nodes())
      && len <= k <= |path| && len < COMPONENT_SIZE == temp.Length
      && temp[..len] == path[k - len..k] && Free(path[k - len..k], SLASH)
      && (k - len > 0 ==> path[k - len - 1] == '/')
      && Opt(current) == Walk(shape.tree, shape.labels, Opt(start), Tokens(path[..k - len], SLASH))
    }

    /** A component ends at the slash at `k`; nothing is found when it is missing. */
    method CloseAt(path: string, start: FSNode?, temp: array<char>, k: nat, current: FSNode?, len: nat)
      returns (next: FSNode?, stop: bool)
      requires Valid() && Scanned(path, start, temp, k, current, len) && k < |path| && path[k] == '/'
      ensures !stop ==> Scanned(path, start, temp, k + 1, next, 0)
      ensures stop ==> NothingFound(path, start)
    {
      hide Labelled, Spells, Tokens, Cut;
      next, stop := current, false;
      CloseComponent(shape.tree, shape.labels, path, k - len, k, Opt(start));
      if len > 0 {
        next := FindChild(current, temp[..len]);
        if next == null {
          WalkStops(shape.tree, shape.labels, path, k + 1, Opt(start));
          stop := true;
        }
      }
    }

    ghost predicate NothingFound(path: string, start: FSNode?)
      requires Sane(shape)
      reads `shape
    {
      && Walk(shape.tree, shape.labels, Opt(start), Tokens(path, SLASH)) == None
      && Walk(shape.tree, shape.labels, Opt(start), Tokens(path[..Cut(path)], SLASH)) == None
    }

    /** Gather one more character of a component. */
    method Gather(path: string, start: FSNode?, temp: array<char>, k: nat, current: FSNode?, len: nat)
      requires Sane(shape) && Scanned(path, start, temp, k, current, len) && k < |path| && path[k] != '/'
      requires ComponentsFit(path)
      modifies temp
      ensures Sane(shape) && Scanned(path, start, temp, k + 1, current, len + 1)
    {
      assert path[k - len..k + 1] == path[k - len..k] + [path[k]];
      temp[len] := path[k];
    }

    /** The loop both walkers share: `current` descends at every slash, through the component
        gathered in `temp` since the last one; `len` characters of an unclosed component remain. */
    method Descend(path: string, start: FSNode?, temp: array<char>) returns (current: FSNode?, len: nat, stop: bool)
      requires Valid() && (start != null ==> start in Nodes()) && temp.Length == COMPONENT_SIZE && ComponentsFit(path)
      modifies temp
      ensures stop ==> NothingFound(path, start)
      ensures !stop ==> Scanned(path, start, temp, |path|, current, len) && len == |path| - Cut(path)
    {
      hide Labelled, Spells, Cut, Tokens, Walk, ComponentsFit, Scanned;
      current, len, stop := start, 0, false;
      ScanStart(path, start, temp);
      var k := 0;
      while k < |path|
        invariant k <= |path| && Valid() && Scanned(path, start, temp, k, current, len)
      {
        if path[k] == '/' {
          current, stop := CloseAt(path, start, temp, k, current, len);
          if stop { return; }
          len := 0;
        } else {
          Gather(path, start, temp, k, current, len);
          len := len + 1;
        }
        k := k + 1;
      }
      ScanEnd(path, start, temp, current, len);
    }

    lemma ScanStart(path: string, start: FSNode?, temp: array<char>)
      requires Sane(shape) && (start != null ==> start in Nodes()) && temp.Length == COMPONENT_SIZE
      ensures Scanned(path, start, temp, 0, start, 0)
    {
      hide Labelled;
      assert path[..0] == "";
    }

    lemma ScanEnd(path: string, start: FSNode?, temp: array<char>, current: FSNode?, len: nat)
      requires Sane(shape) && Scanned(path, start, temp, |path|, current, len)
      ensures len == |path| - Cut(path)
    {
      hide Labelled, Tokens, Walk, Cut;
      assert path[|path| - len..|path|] == path[|path| - len..];
      CutIs(path, |path| - len);
    }

    /** `fs_find_by_path(path)`. */
    method FindByPath(path: string) returns (r: FSNode?)
      requires Valid() && ComponentsFit(path)
      ensures r != null ==> r in Nodes()
      ensures Opt(r) == FindClosed(shape.tree, shape.labels, path)
    {
      if path == "" || path[0] != '/' { return null; }
      var temp := new char[COMPONENT_SIZE];
      var current, len, stop := Descend(path, root, temp);
      r := if stop then null else current;
    }

    lemma RootEntered()
      requires Valid()
      ensures root in Nodes()
    {
    }

    /** `fs_find_by_path(path, current)`. */
    method FindByPathFrom(path: string, current: FSNode?) returns (r: FSNode?)
      requires Valid() && ComponentsFit(path) && (current != null ==> current in Nodes())
      ensures r != null ==> r in Nodes()
      ensures Opt(r) == FindFrom(shape.tree, shape.labels, path, Opt(current))
    {
      hide Labelled, Spells, Tokens, Cut, ComponentsFit;
      RootEntered();
      var temp := new char[COMPONENT_SIZE];
      var start := if path != "" && path[0] == '/' then root else current;
      var len, stop;
      r, len, stop := Descend(path, start, temp);
      if stop { return null; }
      LastComponent(shape.tree, shape.labels, path, Opt(start));
      if len > 0 {
        assert temp[..len] == path[Cut(path)..];
        r := FindChild(r, temp[..len]);
      }
    }
  }

  /** A component that no slash closes is one more step of the walk. */
  lemma LastComponent<T>(t: Tree<T>, lb: Labels<T>, path: string, start: Option<T>)
    requires Labelled(t, lb)
    ensures var q := Walk(t, lb, start, Tokens(path[..Cut(path)], SLASH));
      Walk(t, lb, start, Tokens(path, SLASH)) ==
      if Cut(path) == |path| then q else Paths.FindChild(t, lb, q, path[Cut(path)..])
  {
    var closed := Tokens(path[..Cut(path)], SLASH);
    TokensCut(path);
    if Cut(path) == |path| {
      assert closed + [] == closed;
    } else {
      WalkConcat(t, lb, start, closed, [path[Cut(path)..]]);
      WalkOne(t, lb, Walk(t, lb, start, closed), path[Cut(path)..]);
    }
  }

  /** The shape after `j` rounds of the loop over the children of `c`, from the shape `s`. */
  ghost predicate RoundShape(s: Shape, c: FSNode, j: nat, now: Shape) {
    && FileTree.Valid(s.tree) && c in s.tree.kids && 2 * j <= |s.tree.kids[c]| + 1
    && now == s.(tree := Partial(s.tree, c, j))
  }

  lemma RoundStart(s: Shape, c: FSNode)
    requires Labelled(s.tree, s.labels) && c in s.tree.kids
    ensures RoundShape(s, c, 0, s)
  {
    PartialStart(s.tree, c);
  }

  /** One round: the child at index `j` of the shrunken list is the next even-indexed one. */
  lemma RoundStep(s: Shape, c: FSNode, j: nat, now: Shape)
    requires RoundShape(s, c, j, now) && c in now.tree.kids && j < |now.tree.kids[c]|
    ensures FileTree.Valid(now.tree) && now.tree.kids[c][j] in now.tree.kids && 2 * j < |s.tree.kids[c]|
    ensures now.tree.kids.Keys == s.tree.kids.Keys && now.tree.depth == s.tree.depth && now.height == s.height
    ensures RoundShape(s, c, j + 1, now.(tree := Removed(now.tree, c, now.tree.kids[c][j])))
  {
    PassedAt(s.tree.kids[c], j, j);
    PartialStep(s.tree, c, j);
    ListedIff(now.tree, c, now.tree.kids[c][j]);
  }

  lemma RoundEnd(s: Shape, c: FSNode, j: nat, now: Shape)
    requires RoundShape(s, c, j, now) && c in now.tree.kids && |now.tree.kids[c]| <= j
    ensures now == s.(tree := Pruned(s.tree, c))
  {
    PassedAt(s.tree.kids[c], j, 0);
    PartialEnd(s.tree, c, j);
  }

  const COMPONENT_SIZE := 128

  /** Every component fits the buffer it is gathered in. */
  ghost predicate ComponentsFit(path: string) {
    forall a, b :: 0 <= a <= b <= |path| && Free(path[a..b], SLASH) ==> b - a < COMPONENT_SIZE
  }

  /** A possibly null reference as an option. */
  function Opt(n: FSNode?): Option<FSNode> {
    if n == null then None else Some(n)
  }

  lemma CreatedLabelled<T>(t: Tree<T>, lb: Labels<T>, c: T, nm: string, dir: bool)
    requires Labelled(t, lb) && c !in t.kids
    ensures Labelled(Created(t, c), Paths.Labels.Labels(lb.name[c := nm], lb.isDir[c := dir]))
    ensures Loose(Created(t, c), c)
  {
    CreatedKeepsAttached(t, c, t.root);
    forall x | x in t.kids ensures c !in t.kids[x] {
      if c in t.kids[x] { ListedIff(t, x, c); }
    }
  }

  lemma AddedLabelled<T>(t: Tree<T>, lb: Labels<T>, p: T, c: T)
    requires Labelled(t, lb) && p in t.kids && lb.isDir[p] && Loose(t, c) && p != c
    ensures Labelled(Added(t, p, c), lb)
  {
    AddedValid(t, p, c);
  }

  lemma ShrunkLabelled<T>(t: Tree<T>, t': Tree<T>, lb: Labels<T>)
    requires Labelled(t, lb) && t' == t.(kids := t'.kids) && t'.kids.Keys == t.kids.Keys
    requires forall x :: x in t.kids ==> SubList(t'.kids[x], t.kids[x])
    ensures Labelled(t', lb)
  {
    ShrunkValid(t, t');
    forall x | x in t.kids && !lb.isDir[x] ensures t'.kids[x] == [] {
      EmptySubList(t'.kids[x]);
    }
  }

  lemma EmptySubList<T>(s: seq<T>)
    requires SubList(s, [])
    ensures s == []
  {
    if |s| > 0 { EmptyHasNone(s[0], s); }
  }

  lemma EmptyHasNone<T>(x: T, s: seq<T>)
    requires x in s
    ensures !SubList(s, [])
  {
  }

  /** Closing the gap in the list of the parent completes the removal. */
  lemma RemovedResult<T>(t: Tree<T>, lb: Labels<T>, p: T, c: T, i: nat)
    requires Labelled(t, lb) && p in t.kids && i < |t.kids[p]| && t.kids[p][i] == c
    ensures Pruned(t, c).kids[p] == t.kids[p]
    ensures Removed(t, p, c) ==
            var u := Pruned(t, c);
            u.(kids := u.kids[p := u.kids[p][..i] + u.kids[p][i + 1..]])
    ensures Labelled(Removed(t, p, c), lb)
  {
    WithoutAt(t.kids[p], i);
    PrunedKeepsParent(t, p, c);
    RemovedLabelled(t, lb, p, c);
  }

  lemma RemovedLabelled<T>(t: Tree<T>, lb: Labels<T>, p: T, c: T)
    requires Labelled(t, lb) && p in t.kids
    ensures Labelled(Removed(t, p, c), lb)
  {
    forall x | x in t.kids ensures SubList(Removed(t, p, c).kids[x], t.kids[x]) {
      OddsSubList(t.kids[x]);
      WithoutSubList(t.kids[x], c);
    }
    ShrunkLabelled(t, Removed(t, p, c), lb);
  }

  /** A child without children is pruned already. */
  lemma LeafPruned<T>(t: Tree<T>, c: T)
    requires Valid(t) && c in t.kids && t.kids[c] == []
    ensures Pruned(t, c).kids == t.kids
  {
    PartialStart(t, c);
    PartialEnd(t, c, 0);
  }

  /** Pruning below a child leaves the list of its parent alone. */
  lemma PrunedKeepsParent<T>(t: Tree<T>, p: T, c: T)
    requires Valid(t) && p in t.kids && c in t.kids[p]
    ensures Pruned(t, c).kids[p] == t.kids[p]
  {
    ListedIff(t, p, c);
    if Doomed(t, c, p) { DoomedDepth(t, c, p); }
  }
}
