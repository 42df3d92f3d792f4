/** The directory commands of src/kernel/shell.cpp and the current directory they move in. */
module ShellCommands {
  import opened Options
  import opened HeapLayout
  import opened FileTree
  import opened Paths
  import opened Nodes
  import opened FsSteps
  import opened RamFs
  import opened HeapRoom
  import opened FsBudget
  import Heap

  /** A command line after the command name has been split off: its argument, if any. */
  datatype Command =
    | Cd(args: Option<string>)
    | TouchFile(args: Option<string>)
    | MakeDir(args: Option<string>)
    | Rm(args: Option<string>)
    | Rmdir(args: Option<string>)

  /** `!args || strlen(args) == 0`. */
  predicate NoArgument(args: Option<string>) {
    args.None? || args.value == ""
  }

  /** `name` is the argument, cut after 63 characters. */
  predicate IsCut(arg: string, name: string) {
    name <= arg && |name| == if |arg| < 64 then |arg| else 63
  }

  lemma NameIs(s: FsState, p: FSNode, m: Making, s': FsState, n: FSNode)
    requires MadeBy(s, p, m, s', n)
    ensures n.name == m.name
  {
  }

  // ---------------------------------------------------------------- what keeps a node attached

  /** `x` is a directory reachable from the root. */
  ghost predicate Reachable(s: Shape, x: FSNode) {
    Sane(s) && x in s.tree.kids && x.isDir && Attached(s.tree, x)
  }

  lemma EnteredKeeps(s: Shape, n: FSNode, x: FSNode)
    requires Reachable(s, x) && n !in s.tree.kids && n.children !in s.owner
    ensures Reachable(EnteredShape(s, n), x)
  {
    EnteredSane(s, n);
    CreatedKeepsAttached(s.tree, n, x);
  }

  lemma PlacedKeeps(s: Shape, p: FSNode, n: FSNode, x: FSNode)
    requires Reachable(s, x) && Reachable(s, p) && n !in s.tree.kids && n.children !in s.owner
    ensures Reachable(PlacedShape(s, p, n), x)
  {
    EnteredKeeps(s, n, x);
    PlacedFacts(s, p, n);
    EnteredSane(s, n);
    var e := EnteredShape(s, n);
    if |s.tree.kids[p]| < MAX_CHILDREN {
      AppendedSane(e, p, n);
      AddedKeepsAttached(e.tree, p, n, x);
    }
  }

  /** Removing a child of `x` leaves `x` attached: nothing below `x` is above it. */
  lemma RemovedKeepsParent(s: Shape, x: FSNode, c: FSNode)
    requires Reachable(s, x) && c in s.tree.kids[x] && Sane(s.(tree := Removed(s.tree, x, c)))
    ensures Reachable(s.(tree := Removed(s.tree, x, c)), x)
  {
    ListedIff(s.tree, x, c);
    if Below(s.tree, c, x) { BelowIsDeeper(s.tree, c, x); }
    RemovedKeeps(s.tree, x, c, x);
  }

  lemma RootReachable(s: Shape)
    requires Sane(s)
    ensures Reachable(s, s.tree.root)
  {
    assert Constants(s, s.tree.root);
  }

  lemma ChildReachable(s: Shape, x: FSNode, c: FSNode)
    requires Reachable(s, x) && c in s.tree.kids[x] && c.isDir
    ensures Reachable(s, c)
  {
    ListedIff(s.tree, x, c);
  }

  lemma ParentReachable(s: Shape, x: FSNode)
    requires Reachable(s, x) && x in s.tree.parent && s.tree.parent[x].Some?
    ensures Reachable(s, s.tree.parent[x].value)
  {
    assert Listed(s.tree, x);
    assert Constants(s, s.tree.parent[x].value);
  }

  // ---------------------------------------------------------------- what the commands mean

  /** Where `cd` leads from `here`. */
  ghost function CdTarget(s: Shape, here: FSNode, args: Option<string>): FSNode
    requires Sane(s) && here in s.tree.kids
  {
    if NoArgument(args) then here
    else if args.value == ".." then
      (match s.tree.parent[here] case None => here case Some(p) => p)
    else
      match Paths.FindChild(s.tree, s.labels, Some(here), args.value)
      case None => here
      case Some(c) => if c.isDir then c else here
  }

  /** The child that `rm` (a file) or `rmdir` (a directory) removes. */
  ghost function Victim(s: Shape, here: FSNode, args: Option<string>, isDir: bool): Option<FSNode>
    requires Sane(s) && here in s.tree.kids
  {
    if NoArgument(args) then None
    else
      match Paths.FindChild(s.tree, s.labels, Some(here), args.value)
      case None => None
      case Some(c) => if c.isDir == isDir then Some(c) else None
  }

  /** Where `cd` with a name leads, in terms of the entries: to the first entry of that name, if that is a
      directory. */
  lemma CdTargetIs(s: Shape, here: FSNode, arg: string)
    requires Sane(s) && here in s.tree.kids && arg != "" && arg != ".."
    ensures forall i :: FirstCalled(s.tree.kids[here], arg, i) ==>
              CdTarget(s, here, Some(arg)) == if s.tree.kids[here][i].isDir then s.tree.kids[here][i] else here
    ensures (forall x :: x in s.tree.kids[here] ==> x.name != arg) ==> CdTarget(s, here, Some(arg)) == here
  {
    FirstCalledIs(s, here, arg);
    hide Sane;
  }

  /** What `rm` and `rmdir` pick: the first entry of that name, if it is of the right kind. */
  lemma VictimIs(s: Shape, here: FSNode, arg: string, isDir: bool)
    requires Sane(s) && here in s.tree.kids && arg != ""
    ensures forall i :: FirstCalled(s.tree.kids[here], arg, i) ==>
              Victim(s, here, Some(arg), isDir) ==
              if s.tree.kids[here][i].isDir == isDir then Some(s.tree.kids[here][i]) else None
    ensures (forall x :: x in s.tree.kids[here] ==> x.name != arg) ==> Victim(s, here, Some(arg), isDir) == None
  {
    FirstCalledIs(s, here, arg);
    hide Sane;
  }

  lemma CdReachable(s: Shape, here: FSNode, args: Option<string>)
    requires Reachable(s, here)
    ensures here in s.tree.kids && Reachable(s, CdTarget(s, here, args))
  {
    if !NoArgument(args) {
      if args.value == ".." {
        if s.tree.parent[here].Some? { ParentReachable(s, here); }
      } else {
        var c := Paths.FindChild(s.tree, s.labels, Some(here), args.value);
        if c.Some? && c.value.isDir { ChildReachable(s, here, c.value); }
      }
    }
  }

  /** `cd` with one name after the other. */
  ghost function CdAll(s: Shape, here: FSNode, names: seq<string>): (r: FSNode)
    requires Reachable(s, here)
    ensures Reachable(s, r)
    decreases |names|
  {
    if names == [] then here
    else
      var x := CdAll(s, here, names[..|names| - 1]);
      CdReachable(s, x, Some(names[|names| - 1]));
      CdTarget(s, x, Some(names[|names| - 1]))
  }

  /** The names from below the root down to an attached node. */
  ghost function NamesTo(s: Shape, n: FSNode): seq<string>
    requires Sane(s) && Attached(s.tree, n)
    decreases if n in s.tree.depth then s.tree.depth[n] else 0
  {
    if n == s.tree.root then []
    else
      ListedIff(s.tree, s.tree.parent[n].value, n);
      NamesTo(s, s.tree.parent[n].value) + [n.name]
  }

  /** Names that `cd` does not take for something else. */
  ghost predicate CdNames(names: seq<string>) {
    forall i :: 0 <= i < |names| ==> names[i] != "" && names[i] != ".."
  }

  /** A named step stays or goes one level down, to a child. */
  lemma CdStep(s: Shape, x: FSNode, nm: string)
    requires Reachable(s, x) && nm != "" && nm != ".."
    ensures var r := CdTarget(s, x, Some(nm));
      && r in s.tree.parent && r in s.tree.depth && x in s.tree.depth
      && (r == x || (s.tree.parent[r] == Some(x) && s.tree.depth[r] == s.tree.depth[x] + 1))
  {
    var c := Paths.FindChild(s.tree, s.labels, Some(x), nm);
    if c.Some? { ListedIff(s.tree, x, c.value); }
  }

  lemma {:induction false} CdDepth(s: Shape, here: FSNode, names: seq<string>)
    requires Reachable(s, here) && CdNames(names)
    ensures var r := CdAll(s, here, names);
      r in s.tree.depth && here in s.tree.depth && s.tree.depth[r] <= s.tree.depth[here] + |names|
    decreases |names|
  {
    hide CdTarget, Attached;
    if names != [] {
      var front, nm := names[..|names| - 1], names[|names| - 1];
      CdDepth(s, here, front);
      CdStep(s, CdAll(s, here, front), nm);
    }
  }

  /** `cd` along the names from the root down to a directory leads there exactly when no name on the way is
      shadowed by an earlier entry. */
  lemma {:induction false} CdAllIff(s: Shape, n: FSNode)
    requires Reachable(s, n) && CdNames(NamesTo(s, n))
    ensures n in s.tree.depth && |NamesTo(s, n)| == s.tree.depth[n]
    ensures Reachable(s, s.tree.root)
    ensures CdAll(s, s.tree.root, NamesTo(s, n)) == n <==> Unshadowed(s.tree, s.labels, n)
    decreases if n in s.tree.depth then s.tree.depth[n] else 0
  {
    RootReachable(s);
    if n != s.tree.root {
      ParentReachable(s, n);
      var p := s.tree.parent[n].value;
      ListedIff(s.tree, p, n);
      var front := NamesTo(s, p);
      assert NamesTo(s, n)[..|front|] == front && NamesTo(s, n)[|front|] == n.name;
      assert CdNames(front);
      CdAllIff(s, p);
      CdLast(s, n, CdAll(s, s.tree.root, front), front);
    }
  }

  /** The last step of such a walk. */
  lemma CdLast(s: Shape, n: FSNode, q: FSNode, front: seq<string>)
    requires Reachable(s, n) && n != s.tree.root && Reachable(s, s.tree.root) && CdNames(front)
    requires Listed(s.tree, n) && Reachable(s, s.tree.parent[n].value) && n.name != "" && n.name != ".."
    requires q == CdAll(s, s.tree.root, front) && n in s.tree.depth && s.tree.depth[n] == |front| + 1
    ensures CdTarget(s, q, Some(n.name)) == n <==>
            q == s.tree.parent[n].value && FirstAmongNamesakes(s.tree, s.labels, n)
  {
    CdDepth(s, s.tree.root, front);
    assert q != n;
    assert Constants(s, n);
    FindChildIff(s.tree, s.labels, n);
    CdStep(s, q, n.name);
    hide Sane, Attached, FirstAmongNamesakes;
  }

  /** A directory made by `mkdir` with an argument is found under that argument exactly when the
      argument fits the name buffer and no earlier entry carries it: a longer name is cut when the node
      is made, but not when it is looked up. */
  lemma MadeIsFoundIff(s: Shape, here: FSNode, n: FSNode, args: string)
    requires Reachable(s, here) && n !in s.tree.kids && n.children !in s.owner
    requires n.name == Truncated(args) && |s.tree.kids[here]| < MAX_CHILDREN
    requires forall x :: x in s.tree.kids[here] ==> x in s.labels.name && |s.labels.name[x]| < NAME_SIZE
    ensures var t := PlacedShape(s, here, n);
      && Sane(t)
      && (Paths.FindChild(t.tree, t.labels, Some(here), args) == Some(n) <==>
          |args| < NAME_SIZE && Paths.FindChild(s.tree, s.labels, Some(here), args) == None)
  {
    PlacedFacts(s, here, n);
    EnteredSane(s, n);
    AppendedSane(EnteredShape(s, n), here, n);
    assert Constants(s, here);
    hide Labelled, Constants, Attached;
    LookupAfterAppend(s, PlacedShape(s, here, n), here, n, args);
  }

  lemma LookupAfterAppend(s: Shape, t: Shape, here: FSNode, n: FSNode, nm: string)
    requires Sane(s) && Sane(t) && here in s.tree.kids && here in t.tree.kids && n !in s.tree.kids
    requires t.tree.kids[here] == s.tree.kids[here] + [n] && s.labels.isDir[here] && t.labels.isDir[here]
    requires t.labels.name == s.labels.name[n := n.name]
    ensures var r := Paths.FindChild(s.tree, s.labels, Some(here), nm);
      Paths.FindChild(t.tree, t.labels, Some(here), nm) == if r.Some? then r else if n.name == nm then Some(n) else None
  {
    var ks := s.tree.kids[here];
    assert forall x :: x in ks ==> x in s.tree.kids by {
      assert forall x :: x in ks ==> ChildOk(s.tree, here, x);
    }
    FirstNamedAppend(ks, s.labels.name, t.labels.name, nm, n);
  }

  lemma {:induction false} FirstNamedAppend<T>(ks: seq<T>, name: map<T, string>, name': map<T, string>,
                                               nm: string, c: T)
    requires c in name' && c !in ks && forall x :: x in ks ==> x in name && x in name' && name'[x] == name[x]
    ensures FirstNamed(ks + [c], name', nm) ==
            var r := FirstNamed(ks, name, nm);
            if r.Some? then r else if name'[c] == nm then Some(c) else None
  {
    if ks != [] {
      assert (ks + [c])[1..] == ks[1..] + [c];
      if name[ks[0]] != nm { FirstNamedAppend(ks[1..], name, name', nm, c); }
    }
  }

  class Shell {
    const fs: RamFs
    var currentDir: FSNode?

    constructor (fs: RamFs)
      requires fs.Valid()
      ensures Valid() && this.fs == fs && currentDir == null
    {
      this.fs, currentDir := fs, null;
      new;
      RootReachable(fs.dir.shape);
    }

    /** The current directory, which is the root before the first command. */
    function Here(): FSNode
      reads this, fs, fs.dir
    {
      if currentDir == null then fs.dir.root else currentDir
    }

    ghost predicate Valid()
      reads this, fs, fs.heap, fs.heap.mem, fs.dir, fs.dir.Nodes(), fs.dir.Tables(), fs.fdTable
    {
      fs.Valid() && Reachable(fs.dir.shape, Here())
    }

    ghost function State(): ShellState
      requires fs.AllStored()
      reads this, fs, fs.heap, fs.dir, fs.dir.Nodes(), fs.fdTable
    {
      ShellState(fs.State(), Here())
    }

    /** The line every command starts with. */
    method Enter()
      requires Valid()
      modifies `currentDir
      ensures Valid() && currentDir == old(Here()) && currentDir != null
    {
      if currentDir == null { currentDir := fs.dir.root; }
    }

    /** `cmd_cd`: nowhere without an argument, up for "..", else to the first entry of that name, if that is a
        directory. */
    method CmdCd(args: Option<string>)
      requires Valid()
      modifies `currentDir
      ensures Valid() && Here() == CdTarget(fs.dir.shape, old(Here()), args)
      ensures args == None || args == Some("") ==> Here() == old(Here())
      ensures args == Some("..") ==> Here() == if old(Here()).parent == null then old(Here()) else old(Here()).parent
      ensures args.Some? && args.value != "" && args.value != ".." ==>
        var ks := fs.dir.shape.tree.kids[old(Here())];
        && (forall i :: FirstCalled(ks, args.value, i) ==> Here() == if ks[i].isDir then ks[i] else old(Here()))
        && ((forall x :: x in ks ==> x.name != args.value) ==> Here() == old(Here()))
    {
      hide Sane, Labelled, Spells, Attached, CdTarget, FirstCalled;
      Enter();
      ghost var here := currentDir;
      currentDir := Destination(fs.dir, currentDir, args);
      if args.Some? && args.value != "" && args.value != ".." { CdTargetIs(fs.dir.shape, here, args.value); }
    }

    static method Destination(dir: Directory, here: FSNode, args: Option<string>) returns (r: FSNode)
      requires dir.Valid() && Reachable(dir.shape, here)
      ensures r == CdTarget(dir.shape, here, args) && Reachable(dir.shape, r)
      ensures args == None || args == Some("") ==> r == here
      ensures args == Some("..") ==> r == if here.parent == null then here else here.parent
    {
      if NoArgument(args) { return here; }
      assert Spells(here, dir.shape.tree);
      if args.value == ".." {
        if here.parent == null { return here; }
        ParentReachable(dir.shape, here);
        return here.parent;
      }
      var target := dir.FindChild(here, args.value);
      if target == null || !target.isDir { return here; }
      ChildReachable(dir.shape, here, target);
      r := target;
    }

    /** The state after `rm` or `rmdir` of the child `v` of the current directory, if any. */
    ghost predicate Removes(s: Shape, v: Option<FSNode>)
      requires Sane(s)
      reads this, fs, fs.dir
    {
      match v
      case None => fs.dir.shape == s
      case Some(c) =>
        && Here() in s.tree.kids && c in s.tree.kids[Here()]
        && fs.dir.shape == s.(tree := Removed(s.tree, Here(), c))
    }

    /** `cmd_rm` and `cmd_rmdir`, which differ in the kind they accept. */
    method Remove(args: Option<string>, isDir: bool)
      requires Valid()
      modifies `currentDir, fs.dir`shape, fs.dir.Nodes()`childCount, fs.dir.Tables()
      ensures Valid() && Here() == old(Here()) && fs.Files() == old(fs.Files()) && fs.dir.Nodes() == old(fs.dir.Nodes())
      ensures Removes(old(fs.dir.shape), Victim(old(fs.dir.shape), old(Here()), args, isDir))
      ensures args == None || args == Some("") ==> fs.dir.shape == old(fs.dir.shape)
      ensures args.Some? && args.value != "" ==>
        var s := old(fs.dir.shape);
        var ks := s.tree.kids[Here()];
        && (forall i :: FirstCalled(ks, args.value, i) ==>
              if ks[i].isDir == isDir
              then ks[i] in s.tree.kids[Here()] && fs.dir.shape == s.(tree := Removed(s.tree, Here(), ks[i]))
              else fs.dir.shape == s)
        && ((forall x :: x in ks ==> x.name != args.value) ==> fs.dir.shape == s)
    {
      hide Sane, Labelled, Spells, RamFs.Files, Attached, Removed, Paths.FindChild, Victim, FirstCalled;
      Enter();
      if NoArgument(args) {
        assert Victim(fs.dir.shape, Here(), args, isDir) == None by { NoVictim(fs.dir.shape, Here(), args, isDir); }
        return;
      }
      ghost var s := fs.dir.shape;
      RemoveHere(args, isDir);
      VictimIs(s, Here(), args.value, isDir);
    }

    static lemma NoVictim(s: Shape, here: FSNode, args: Option<string>, isDir: bool)
      requires Sane(s) && here in s.tree.kids && NoArgument(args)
      ensures Victim(s, here, args, isDir) == None
    {
    }

    method RemoveHere(args: Option<string>, isDir: bool)
      requires Valid() && currentDir != null && !NoArgument(args)
      modifies fs.dir`shape, fs.dir.Nodes()`childCount, fs.dir.Tables()
      ensures Valid() && fs.Files() == old(fs.Files()) && fs.dir.Nodes() == old(fs.dir.Nodes())
      ensures Removes(old(fs.dir.shape), Victim(old(fs.dir.shape), Here(), args, isDir))
    {
      hide Sane, Labelled, Spells, RamFs.Files, Attached, Removed;
      var c := fs.dir.FindChild(currentDir, args.value);
      if c != null && c.isDir == isDir {
        ghost var s := fs.dir.shape;
        fs.RemoveChild(currentDir, c);
        RemovedKeepsParent(s, currentDir, c);
      }
    }

    /** `cmd_mkdir`. `made` is the new directory, cut off from the tree if the current one is full. */
    method CmdMkdir(args: Option<string>) returns (made: FSNode?, stuck: bool)
      requires Valid()
      modifies `currentDir, fs`owner, fs.dir`shape, fs.dir.Nodes()`childCount, fs.dir.Tables(),
               fs.heap`blocks, fs.heap`contents, fs.heap.mem
      ensures Valid() && (stuck <==> CommandStuck(old(State()), MakeDir(args)))
      ensures made == null <==> NoArgument(args) || !NodeFits(old(fs.heap.blocks))
      ensures made == null ==> State() == old(State())
      ensures made != null ==> fresh(made) && fresh(made.children)
      ensures Here() == old(Here())
      ensures made != null && !stuck ==>
        MadeBy(old(fs.State()), old(Here()), DirMaking(old(fs.heap.blocks), NameFrom(args)), fs.State(), made)
      ensures made != null && !stuck ==>
        && args.Some? && IsCut(args.value, made.name)
        && NewDirectory(old(fs.State()), old(Here()), made.name, fs.State(), made)
    {
      hide Sane, Labelled, Spells, RamFs.Files, MadeBy, EnteredShape, MallocPtr, AfterMalloc, Attached, Tabled,
           NewDirectory;
      fs.FilesFacts();
      Enter();
      if NoArgument(args) { return null, false; }
      ghost var s := fs.State();
      made, stuck := fs.AddDirectory(currentDir, args.value);
      if made == null { return; }
      if stuck {
        EnteredKeeps(s.shape, made, currentDir);
      } else {
        MadeKeeps(s, currentDir, DirMaking(s.blocks, Truncated(args.value)), fs.State(), made);
        DirectoryMeans(s, currentDir, Truncated(args.value), fs.State(), made);
        NameIs(s, currentDir, DirMaking(s.blocks, Truncated(args.value)), fs.State(), made);
      }
    }

    /** `cmd_touch`: a file of 256 zero bytes. Without a block for them the source would clear memory
        through NULL. */
    method CmdTouch(args: Option<string>) returns (made: FSNode?, stuck: bool)
      requires Valid()
      modifies `currentDir, fs`owner, fs.dir`shape, fs.dir.Nodes()`childCount, fs.dir.Tables(),
               fs.heap`blocks, fs.heap`contents, fs.heap.mem
      ensures Valid() && (stuck <==> CommandStuck(old(State()), TouchFile(args)))
      ensures made == null <==> NoArgument(args) || !NodeFits(old(fs.heap.blocks))
      ensures made == null ==> State() == old(State())
      ensures made != null ==> fresh(made) && fresh(made.children)
      ensures Here() == old(Here())
      ensures made != null && !stuck ==>
        MadeBy(old(fs.State()), old(Here()), FileMaking(old(fs.heap.blocks), NameFrom(args), FILE_SIZE, FILE_SIZE),
               fs.State(), made)
      ensures made != null && !stuck ==>
        && args.Some? && IsCut(args.value, made.name)
        && NewFile(old(fs.State()), old(Here()), made.name, 256, 256, fs.State(), made)
    {
      hide Sane, Labelled, Spells, RamFs.Files, MadeBy, EnteredShape, MallocPtr, AfterMalloc, Attached, Tabled, NewFile;
      fs.FilesFacts();
      Enter();
      if NoArgument(args) { return null, false; }
      ghost var s := fs.State();
      made, stuck := fs.AddFile(currentDir, args.value);
      if made == null { return; }
      if stuck {
        EnteredKeeps(s.shape, made, currentDir);
      } else {
        MadeKeeps(s, currentDir, FileMaking(s.blocks, Truncated(args.value), FILE_SIZE, FILE_SIZE), fs.State(), made);
        FileMeans(s, currentDir, Truncated(args.value), FILE_SIZE, FILE_SIZE, fs.State(), made);
        NameIs(s, currentDir, FileMaking(s.blocks, Truncated(args.value), FILE_SIZE, FILE_SIZE), fs.State(), made);
      }
    }

    /** `cd` with one name after the other. */
    method CdNamed(names: seq<string>)
      requires Valid() && CdNames(names)
      modifies `currentDir
      ensures Valid() && Reachable(fs.dir.shape, old(Here())) && Here() == CdAll(fs.dir.shape, old(Here()), names)
      ensures forall n :: Reachable(fs.dir.shape, n) && names == NamesTo(fs.dir.shape, n) ==>
                old(Here()) == fs.dir.root ==>
                (Here() == n <==> Unshadowed(fs.dir.shape.tree, fs.dir.shape.labels, n))
    {
      hide Labelled, Spells, Attached, CdTarget, NamesTo, Unshadowed;
      ghost var s, start := fs.dir.shape, Here();
      assert names[..0] == [];
      for i := 0 to |names|
        invariant Valid() && Reachable(s, start) && Here() == CdAll(s, start, names[..i])
      {
        assert names[..i + 1][..i] == names[..i];
        CmdCd(Some(names[i]));
      }
      assert names[..|names|] == names;
      forall n | Reachable(s, n) && names == NamesTo(s, n) && start == fs.dir.root
        ensures Here() == n <==> Unshadowed(s.tree, s.labels, n)
      {
        CdAllIff(s, n);
      }
    }

    /** `cd ..`, `n` times over. */
    method CdUp(n: nat)
      requires Valid()
      modifies `currentDir
      ensures Valid() && Here() == Climb(fs.dir.shape.tree, old(Here()), n)
      ensures old(Here()) in fs.dir.shape.tree.depth
      ensures n <= fs.dir.shape.tree.depth[old(Here())] ==>
                (Here() == fs.dir.root <==> n == fs.dir.shape.tree.depth[old(Here())])
    {
      hide Labelled, Spells, Attached;
      ghost var s := fs.dir.shape;
      for i := 0 to n
        invariant Valid() && Here() == Climb(s.tree, old(Here()), i)
      {
        ClimbStep(s, old(Here()), i);
        CmdCd(Some(".."));
      }
      HeightIs(s, old(Here()), n);
    }

    method ExecuteTouch(args: Option<string>) returns (stuck: bool)
      requires Valid()
      modifies `currentDir, fs`owner, fs.dir`shape, fs.dir.Nodes()`childCount, fs.dir.Tables(),
               fs.heap`blocks, fs.heap`contents, fs.heap.mem
      ensures Valid() && (stuck <==> CommandStuck(old(State()), TouchFile(args)))
      ensures !stuck ==> CommandStep(old(State()), TouchFile(args), State())
      ensures !stuck ==> forall n :: n in fs.dir.Nodes() && n !in old(fs.dir.Nodes()) ==> fresh(n) && fresh(n.children)
    {
      hide Sane, Labelled, Spells, RamFs.Files, Attached, MadeBy, FileMaking, CommandStep, CommandStuck;
      fs.FilesFacts();
      ghost var s := State();
      var made;
      made, stuck := CmdTouch(args);
      if !stuck { MadeOrNot(s, args, FileMaking(s.fs.blocks, NameFrom(args), FILE_SIZE, FILE_SIZE), State(), made); }
      if !stuck { IsStep(s, args, State()); }
    }

    method ExecuteMkdir(args: Option<string>) returns (stuck: bool)
      requires Valid()
      modifies `currentDir, fs`owner, fs.dir`shape, fs.dir.Nodes()`childCount, fs.dir.Tables(),
               fs.heap`blocks, fs.heap`contents, fs.heap.mem
      ensures Valid() && (stuck <==> CommandStuck(old(State()), MakeDir(args)))
      ensures !stuck ==> CommandStep(old(State()), MakeDir(args), State())
      ensures !stuck ==> forall n :: n in fs.dir.Nodes() && n !in old(fs.dir.Nodes()) ==> fresh(n) && fresh(n.children)
    {
      hide Sane, Labelled, Spells, RamFs.Files, Attached, MadeBy, DirMaking, CommandStep, CommandStuck;
      fs.FilesFacts();
      ghost var s := State();
      var made;
      made, stuck := CmdMkdir(args);
      if !stuck { MadeOrNot(s, args, DirMaking(s.fs.blocks, NameFrom(args)), State(), made); }
      if !stuck { IsStep(s, args, State()); }
    }

    /** One command; the dispatch of `shell_process_command` is not modelled. */
    method Execute(c: Command) returns (stuck: bool)
      requires Valid()
      modifies `currentDir, fs`owner, fs.dir`shape, fs.dir.Nodes()`childCount, fs.dir.Tables(),
               fs.heap`blocks, fs.heap`contents, fs.heap.mem
      ensures Valid() && (stuck <==> CommandStuck(old(State()), c))
      ensures !stuck ==> CommandStep(old(State()), c, State())
      ensures !stuck ==> forall n :: n in fs.dir.Nodes() && n !in old(fs.dir.Nodes()) ==> fresh(n) && fresh(n.children)
    {
      hide Sane, Labelled, Spells, RamFs.Files, Attached, CdTarget, Victim, Removed, MakingStep, Tabled;
      stuck := false;
      match c {
        case Cd(args) => CmdCd(args);
        case TouchFile(args) => stuck := ExecuteTouch(args);
        case MakeDir(args) => stuck := ExecuteMkdir(args);
        case Rm(args) => Remove(args, false);
        case Rmdir(args) => Remove(args, true);
      }
    }

    /** A session of commands is a trace of the steps below, and the current directory stays a directory
        reachable from the root. It stops early only at a command that goes through a NULL pointer, so
        never while node allocations succeed. */
    method Session(cs: seq<Command>) returns (done: nat, ghost trace: seq<ShellState>)
      requires Valid()
      modifies `currentDir, fs`owner, fs.dir`shape, fs.dir.Nodes(), fs.dir.Tables(),
               fs.heap`blocks, fs.heap`contents, fs.heap.mem
      ensures Valid() && done <= |cs| && IsSession(trace, cs[..done]) && trace[0] == old(State())
      ensures if done == |cs| then trace[done] == State() else CommandStuck(trace[done], cs[done])
      ensures AllTabled(trace[0].fs.shape) && (forall i :: 0 <= i <= done ==> Roomy(trace[i].fs.blocks)) ==>
                done == |cs|
      ensures AllTabled(trace[0].fs.shape) && Affords(trace[0], |cs|) ==> done == |cs|
    {
      hide Sane, Spells, RamFs.Files, Attached, CommandStep, AllTabled, Roomy, Affords;
      done, trace := 0, [State()];
      while done < |cs|
        invariant Valid() && done <= |cs|
        invariant IsSession(trace, cs[..done]) && trace[0] == old(State()) && trace[done] == State()
        invariant forall n :: n in fs.dir.Nodes() && n !in old(fs.dir.Nodes()) ==> fresh(n) && fresh(n.children)
      {
        var stuck := Execute(cs[done]);
        if stuck {
          RoomySessions(trace, cs[..done], cs[done]);
          BudgetedSessions(trace, cs[..done], cs[done], |cs|);
          return;
        }
        SessionGrows(trace, cs, done, State());
        trace := trace + [State()];
        done := done + 1;
      }
    }
  }

  /** From `init_heap` and `fs_init` on, a session of up to 21000 commands goes through to its end. */
  method BootSession(heap: Heap.Heap, cs: seq<Command>)
    returns (shell: Shell, done: nat, ghost trace: seq<ShellState>)
    requires HEAP_END <= heap.mem.Length < 0x1_0000_0000
    modifies heap, heap.mem
    ensures shell.Valid() && done <= |cs| && IsSession(trace, cs[..done])
    ensures trace[0].here == shell.fs.dir.root && AllTabled(trace[0].fs.shape)
    ensures Booted(trace[0].fs, shell.fs.dir.root, [Block(HEAP_SIZE - HEADER, true)])
    ensures if done == |cs| then trace[done] == shell.State() else CommandStuck(trace[done], cs[done])
    ensures |cs| <= 21000 ==> done == |cs|
  {
    hide Sane, Spells, CommandStep, RamFs.Files, AllTabled, Roomy, Spare, CommandStuck, IsSession, AtHome;
    hide Booted, Reachable, Affords, RamFs.Descriptors, RamFs.AllStored, Directory.Valid;
    var fs := Boot(heap);
    shell := new Shell(fs);
    BootAffords(shell.State());
    done, trace := shell.Session(cs);
  }

  lemma BootAffords(s: ShellState)
    requires Spare(s.fs.blocks) >= BOOT_BUDGET + RESERVE
    ensures forall n: nat :: n <= 21000 ==> Affords(s, n)
  {
  }

  // ---------------------------------------------------------------- sessions

  /** At most what a command takes from the heap. */
  const COMMAND_COST := Need(NODE_SIZE) + Need(FILE_SIZE)

  /** The free block at the end of the heap holds what `n` commands can take. */
  predicate Affords(s: ShellState, n: nat) {
    Spare(s.fs.blocks) >= n * COMMAND_COST + RESERVE
  }

  datatype ShellState = ShellState(fs: FsState, here: FSNode)

  ghost predicate AtHome(s: ShellState) {
    Reachable(s.fs.shape, s.here)
  }

  lemma MadeKeeps(s: FsState, p: FSNode, m: Making, s': FsState, n: FSNode)
    requires Reachable(s.shape, p) && MadeBy(s, p, m, s', n) && n !in s.shape.tree.kids && n.children !in s.shape.owner
    ensures Reachable(s'.shape, p)
  {
    PlacedKeeps(s.shape, p, n, p);
  }

  ghost predicate RemovalStep(s: ShellState, v: Option<FSNode>, s': ShellState)
    requires AtHome(s)
  {
    var t := s.fs.shape;
    match v
    case None => s' == s
    case Some(c) =>
      && c in t.tree.kids[s.here]
      && s' == s.(fs := s.fs.(shape := t.(tree := Removed(t.tree, s.here, c))))
  }

  /** What a command makes: nothing without an argument, or without a block for a node. */
  ghost predicate MakingStep(s: ShellState, args: Option<string>, m: Making, s': ShellState) {
    if NoArgument(args) || !NodeFits(s.fs.blocks) then s' == s
    else s'.here == s.here && Makes(s.fs, s.here, m, s'.fs)
  }

  /** The command goes through a NULL pointer. */
  ghost predicate CommandStuck(s: ShellState, c: Command) {
    match c
    case TouchFile(args) =>
      && !NoArgument(args) && NodeFits(s.fs.blocks)
      && (!Tabled(s.fs.shape, s.here) || MallocPtr(AfterMalloc(s.fs.blocks, NODE_SIZE), FILE_SIZE) == 0)
    case MakeDir(args) => !NoArgument(args) && NodeFits(s.fs.blocks) && !Tabled(s.fs.shape, s.here)
    case _ => false
  }

  function NameFrom(args: Option<string>): string {
    if args.None? then "" else Truncated(args.value)
  }

  /** What a command does that goes through no NULL pointer. */
  ghost predicate CommandStep(s: ShellState, c: Command, s': ShellState)
    requires AtHome(s)
  {
    && !CommandStuck(s, c)
    && match c
       case Cd(args) => s' == s.(here := CdTarget(s.fs.shape, s.here, args))
       case Rm(args) => RemovalStep(s, Victim(s.fs.shape, s.here, args, false), s')
       case Rmdir(args) => RemovalStep(s, Victim(s.fs.shape, s.here, args, true), s')
       case TouchFile(args) =>
         MakingStep(s, args, FileMaking(s.fs.blocks, NameFrom(args), FILE_SIZE, FILE_SIZE), s')
       case MakeDir(args) => MakingStep(s, args, DirMaking(s.fs.blocks, NameFrom(args)), s')
  }

  lemma MadeOrNot(s: ShellState, args: Option<string>, m: Making, s': ShellState, n: FSNode?)
    requires n == null <==> NoArgument(args) || !NodeFits(s.fs.blocks)
    requires if n == null then s' == s else s'.here == s.here && MadeBy(s.fs, s.here, m, s'.fs, n)
    ensures MakingStep(s, args, m, s')
    ensures n != null ==> s'.fs.shape.tree.kids.Keys == s.fs.shape.tree.kids.Keys + {n}
  {
    if n != null { MadeIs(s.fs, s.here, m, s'.fs, n); }
  }

  lemma IsStep(s: ShellState, args: Option<string>, s': ShellState)
    requires AtHome(s)
    ensures !CommandStuck(s, TouchFile(args)) &&
            MakingStep(s, args, FileMaking(s.fs.blocks, NameFrom(args), FILE_SIZE, FILE_SIZE), s') ==>
              CommandStep(s, TouchFile(args), s')
    ensures !CommandStuck(s, MakeDir(args)) && MakingStep(s, args, DirMaking(s.fs.blocks, NameFrom(args)), s') ==>
              CommandStep(s, MakeDir(args), s')
  {
    hide Reachable, MakingStep;
  }

  ghost predicate IsSession(trace: seq<ShellState>, cs: seq<Command>) {
    && |trace| == |cs| + 1
    && (forall i :: 0 <= i < |trace| ==> AtHome(trace[i]))
    && (forall i :: 0 <= i < |cs| ==> CommandStep(trace[i], cs[i], trace[i + 1]))
  }

  lemma SessionGrows(trace: seq<ShellState>, cs: seq<Command>, done: nat, s: ShellState)
    requires done < |cs| && IsSession(trace, cs[..done]) && CommandStep(trace[done], cs[done], s) && AtHome(s)
    ensures IsSession(trace + [s], cs[..done + 1])
  {
    hide AtHome, CommandStep;
    var t := trace + [s];
    forall i | 0 <= i < |t| ensures AtHome(t[i]) {
      if i < |trace| { assert t[i] == trace[i]; }
    }
    forall i | 0 <= i < done + 1 ensures CommandStep(t[i], cs[..done + 1][i], t[i + 1]) {
      if i < done {
        assert t[i] == trace[i] && t[i + 1] == trace[i + 1] && cs[..done][i] == cs[i];
        assert CommandStep(trace[i], cs[..done][i], trace[i + 1]);
      }
    }
  }

  /** While node allocations succeed, no command goes through a NULL pointer. */
  lemma {:induction false} RoomySessionsGoOn(trace: seq<ShellState>, cs: seq<Command>, i: nat, c: Command)
    requires IsSession(trace, cs) && i <= |cs| && AllTabled(trace[0].fs.shape)
    requires forall j :: 0 <= j <= i ==> Roomy(trace[j].fs.blocks)
    ensures AllTabled(trace[i].fs.shape) && !CommandStuck(trace[i], c)
    decreases i
  {
    hide CommandStep, Reachable, Roomy, AllTabled;
    if i > 0 {
      RoomySessionsGoOn(trace, cs, i - 1, c);
      assert CommandStep(trace[i - 1], cs[i - 1], trace[i - 1 + 1]);
      CommandKeepsTables(trace[i - 1], cs[i - 1], trace[i]);
    }
    RoomyCommandGoesOn(trace[i], c);
  }

  lemma RoomyCommandGoesOn(s: ShellState, c: Command)
    requires AtHome(s) && AllTabled(s.fs.shape) && Roomy(s.fs.blocks)
    ensures !CommandStuck(s, c)
  {
  }

  lemma CommandKeepsTables(s: ShellState, c: Command, s': ShellState)
    requires AtHome(s) && CommandStep(s, c, s') && AllTabled(s.fs.shape) && Roomy(s.fs.blocks)
    ensures AllTabled(s'.fs.shape)
  {
    hide Sane, Makes, Removed, MallocPtr, AfterMalloc, CdTarget, Victim, Attached;
    match c
    case Cd(_) =>
    case Rm(args) => RemovalKeepsTables(s, Victim(s.fs.shape, s.here, args, false), s');
    case Rmdir(args) => RemovalKeepsTables(s, Victim(s.fs.shape, s.here, args, true), s');
    case TouchFile(args) =>
      if s' != s {
        MakesKeepsTables(s.fs, s.here, FileMaking(s.fs.blocks, NameFrom(args), FILE_SIZE, FILE_SIZE), s'.fs);
      }
    case MakeDir(args) =>
      if s' != s { MakesKeepsTables(s.fs, s.here, DirMaking(s.fs.blocks, NameFrom(args)), s'.fs); }
  }

  lemma RemovalKeepsTables(s: ShellState, v: Option<FSNode>, s': ShellState)
    requires AtHome(s) && RemovalStep(s, v, s') && AllTabled(s.fs.shape)
    ensures AllTabled(s'.fs.shape)
  {
    if v.Some? {
      ListedIff(s.fs.shape.tree, s.here, v.value);
      RemovedNodes(s.fs.shape, s.here, v.value);
    }
  }

  lemma RoomySessions(trace: seq<ShellState>, cs: seq<Command>, c: Command)
    requires IsSession(trace, cs)
    ensures AllTabled(trace[0].fs.shape) && (forall i :: 0 <= i <= |cs| ==> Roomy(trace[i].fs.blocks)) ==>
              !CommandStuck(trace[|cs|], c)
  {
    hide CommandStep, Reachable, Roomy, AllTabled, CommandStuck;
    if AllTabled(trace[0].fs.shape) && forall i :: 0 <= i <= |cs| ==> Roomy(trace[i].fs.blocks) {
      RoomySessionsGoOn(trace, cs, |cs|, c);
    }
  }

  lemma CommandSpare(s: ShellState, c: Command, s': ShellState)
    requires AtHome(s) && CommandStep(s, c, s') && Spare(s.fs.blocks) >= COMMAND_COST + RESERVE
    ensures Spare(s'.fs.blocks) >= Spare(s.fs.blocks) - COMMAND_COST
  {
    hide Spare, Sane, Attached, CdTarget, Victim, AfterMalloc, MallocPtr, PlacedShape, CommandStuck, Removed;
    TwoBlocks(s.fs.blocks, FILE_SIZE);
    TwoBlocks(s.fs.blocks, TABLE_SIZE);
  }

  /** Along a session the free block at the end of the heap shrinks by at most that per command: a session
      that is short enough for it, as its start decides, goes through no NULL pointer. */
  lemma {:induction false} BudgetedSessionsGoOn(trace: seq<ShellState>, cs: seq<Command>, i: nat, c: Command)
    requires IsSession(trace, cs) && i <= |cs| && AllTabled(trace[0].fs.shape)
    requires Affords(trace[0], i + 1)
    ensures Spare(trace[i].fs.blocks) >= Spare(trace[0].fs.blocks) - i * COMMAND_COST
    ensures AllTabled(trace[i].fs.shape) && !CommandStuck(trace[i], c)
    decreases i
  {
    hide CommandStep, Reachable, Roomy, AllTabled, Spare, CommandStuck;
    if i > 0 {
      BudgetedSessionsGoOn(trace, cs, i - 1, c);
      assert CommandStep(trace[i - 1], cs[i - 1], trace[i - 1 + 1]);
      SpareIsRoomy(trace[i - 1].fs.blocks);
      CommandKeepsTables(trace[i - 1], cs[i - 1], trace[i]);
      CommandSpare(trace[i - 1], cs[i - 1], trace[i]);
    }
    SpareIsRoomy(trace[i].fs.blocks);
    RoomyCommandGoesOn(trace[i], c);
  }

  lemma BudgetedSessions(trace: seq<ShellState>, cs: seq<Command>, c: Command, n: nat)
    requires IsSession(trace, cs) && |cs| < n
    ensures AllTabled(trace[0].fs.shape) && Affords(trace[0], n) ==> !CommandStuck(trace[|cs|], c)
  {
    hide CommandStep, Reachable, Spare, AllTabled, CommandStuck;
    if AllTabled(trace[0].fs.shape) && Affords(trace[0], n) {
      BudgetedSessionsGoOn(trace, cs, |cs|, c);
    }
  }

  /** No session changes what a node already there holds, removed or not, or any descriptor. */
  lemma {:induction false} SessionKeepsContents(trace: seq<ShellState>, cs: seq<Command>, i: nat, g: FSNode)
    requires IsSession(trace, cs) && i <= |cs| && g in trace[0].fs.files
    ensures g in trace[i].fs.files && trace[i].fs.files[g] == trace[0].fs.files[g]
    ensures trace[i].fs.fds == trace[0].fs.fds
  {
    hide AtHome, CommandStep;
    if i > 0 {
      SessionKeepsContents(trace, cs, i - 1, g);
      assert CommandStep(trace[i - 1], cs[i - 1], trace[i - 1 + 1]);
      CommandKeepsContents(trace[i - 1], cs[i - 1], trace[i], g);
    }
  }

  lemma CommandKeepsContents(s: ShellState, c: Command, s': ShellState, g: FSNode)
    requires AtHome(s) && CommandStep(s, c, s') && g in s.fs.files
    ensures g in s'.fs.files && s'.fs.files[g] == s.fs.files[g] && s'.fs.fds == s.fs.fds
  {
  }

  lemma {:induction false} ClimbStep(s: Shape, x: FSNode, n: nat)
    requires Reachable(s, x)
    ensures Climb(s.tree, x, n) in s.tree.kids
    ensures Climb(s.tree, x, n + 1) == CdTarget(s, Climb(s.tree, x, n), Some(".."))
  {
    if s.tree.parent[x].Some? {
      ParentReachable(s, x);
      if n > 0 { ClimbStep(s, s.tree.parent[x].value, n - 1); }
    }
  }

  lemma HeightIs(s: Shape, x: FSNode, n: nat)
    requires Reachable(s, x)
    ensures x in s.tree.depth
    ensures n <= s.tree.depth[x] ==> (Climb(s.tree, x, n) == s.tree.root <==> n == s.tree.depth[x])
  {
    if n <= s.tree.depth[x] { ClimbToRoot(s.tree, x, n); }
  }
}
