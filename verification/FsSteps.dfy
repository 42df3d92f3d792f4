/** The state of the file system as a value, and what each operation on it does. */
module FsSteps {
  import opened Machine
  import opened Options
  import opened HeapLayout
  import opened HeapClients
  import opened FileTree
  import opened Tokenizing
  import opened Paths
  import opened Nodes

  const NODE_SIZE: u32 := 88
  const TABLE_SIZE: u32 := 128
  /** What `fs_touch` and what the shell's `touch` ask for. */
  const TOUCH_SIZE: u32 := 1024
  const FILE_SIZE: u32 := 256
  const MAX_OPEN_FILES := 64

  /** What a node has: the address of its contents (0 for none) and the contents. */
  datatype Held = Held(data: nat, bytes: seq<byte>)

  datatype FileDescriptor = FileDescriptor(node: FSNode?, offset: nat, used: bool)

  /** The structure, the contents, the block list of the heap and the descriptor table. */
  datatype FsState = FsState(shape: Shape, files: map<FSNode, Held>, blocks: seq<Block>, fds: seq<FileDescriptor>)

  ghost predicate Consistent(s: FsState) {
    && Sane(s.shape) && s.files.Keys == s.shape.tree.kids.Keys && |s.fds| == MAX_OPEN_FILES
    && forall i :: 0 <= i < |s.fds| && s.fds[i].used ==> s.fds[i].node in s.files && s.fds[i].offset == 0
  }

  // ---------------------------------------------------------------- writing

  /** Bytes the block at `p` holds; none for NULL. */
  function RoomAt(bs: seq<Block>, p: nat): nat {
    if IsLivePtr(bs, p) then SizeAt(bs, p) else 0
  }

  /** A file cannot grow to `n` bytes: neither does its block hold them, nor is there one that does. */
  predicate Refuses(bs: seq<Block>, h: Held, n: u32) {
    n > |h.bytes| && n > RoomAt(bs, h.data) && MallocPtr(bs, n) == 0
  }

  /** Writing up to `n` moves the file to another block. */
  predicate Moves(bs: seq<Block>, h: Held, n: u32) {
    n > |h.bytes| && n > RoomAt(bs, h.data) && MallocPtr(bs, n) != 0
  }

  /** The block list after a write up to `n`. */
  function AfterWrite(bs: seq<Block>, h: Held, n: u32): seq<Block> {
    if Moves(bs, h, n) then AfterFree(AfterMalloc(bs, n), h.data) else bs
  }

  /** `after` is `before` with `d` written at `off`, longer if need be. */
  ghost predicate Written(before: seq<byte>, after: seq<byte>, off: nat, d: seq<byte>) {
    && |after| == (if off + |d| > |before| then off + |d| else |before|)
    && after[off..off + |d|] == d
    && forall k :: 0 <= k < |before| && !(off <= k < off + |d|) ==> after[k] == before[k]
  }

  /** What `fs_write` does to a file that held `h`: the bytes stand at the offset, or nothing happened. */
  ghost predicate FileOutcome(bs: seq<Block>, h: Held, bs': seq<Block>, h': Held, offset: nat, data: seq<byte>, r: int)
    requires offset + |data| <= 0xFFFF_FFF0
  {
    var n := offset + |data|;
    && bs' == AfterWrite(bs, h, n)
    && if Refuses(bs, h, n) then r == -1 && h' == h
       else
         && r == |data| && Written(h.bytes, h'.bytes, offset, data)
         && h'.data == if Moves(bs, h, n) then MallocPtr(bs, n) else h.data
  }

  /** The same on all files: every other node holds what it held. */
  ghost predicate WriteOutcome(bs: seq<Block>, f: map<FSNode, Held>, bs': seq<Block>, f': map<FSNode, Held>,
                               file: FSNode, offset: nat, data: seq<byte>, r: int)
    requires offset + |data| <= 0xFFFF_FFF0
  {
    && file in f && file in f' && f' == f[file := f'[file]]
    && FileOutcome(bs, f[file], bs', f'[file], offset, data, r)
  }

  /** The file got the bytes at the offset, kept all its others, and grew as far as they reach; every other
      file is as it was. */
  ghost predicate BytesStand(f: map<FSNode, Held>, f': map<FSNode, Held>, file: FSNode, offset: nat, data: seq<byte>) {
    && file in f && f'.Keys == f.Keys && (forall g :: g in f && g != file ==> f'[g] == f[g])
    && var b, b' := f[file].bytes, f'[file].bytes;
       && |b'| == (if offset + |data| > |b| then offset + |data| else |b|)
       && (forall i :: 0 <= i < |data| ==> b'[offset + i] == data[i])
       && (forall k :: 0 <= k < |b| && !(offset <= k < offset + |data|) ==> b'[k] == b[k])
  }

  lemma OutcomeMeans(bs: seq<Block>, f: map<FSNode, Held>, bs': seq<Block>, f': map<FSNode, Held>,
                     file: FSNode, offset: nat, data: seq<byte>, r: int)
    requires offset + |data| <= 0xFFFF_FFF0 && WriteOutcome(bs, f, bs', f', file, offset, data, r)
    ensures if r == -1 then f' == f && bs' == bs else r == |data| && BytesStand(f, f', file, offset, data)
  {
    var b' := f'[file].bytes;
    if r != -1 {
      forall i | 0 <= i < |data| ensures b'[offset + i] == data[i] {
        assert b'[offset..offset + |data|][i] == data[i];
      }
    }
  }

  // ---------------------------------------------------------------- making

  /** A name cut to what the name buffer holds besides the terminator. */
  function Truncated(name: string): (r: string)
    ensures r <= name && |r| == if |name| < 64 then |name| else 63
  {
    if |name| < NAME_SIZE then name else name[..NAME_SIZE - 1]
  }

  function Zeros(k: nat): (s: seq<byte>)
    ensures |s| == k && forall i :: 0 <= i < k ==> s[i] == 0
  {
    seq(k, _ => 0)
  }

  /** There is a block for a node. */
  predicate NodeFits(bs: seq<Block>) {
    MallocPtr(bs, NODE_SIZE) != 0
  }

  /** The block list `fs_create_node` leaves. */
  function AfterNode(bs: seq<Block>, isDir: bool): seq<Block> {
    var cs := AfterMalloc(bs, NODE_SIZE);
    if isDir && NodeFits(bs) then AfterMalloc(cs, TABLE_SIZE) else cs
  }

  /** What a new node is to be, and the block list it leaves. */
  datatype Making = Making(name: string, isDir: bool, table: nat, held: Held, blocks: seq<Block>)

  function DirMaking(bs: seq<Block>, name: string): Making {
    Making(name, true, MallocPtr(AfterMalloc(bs, NODE_SIZE), TABLE_SIZE), Held(0, []), AfterNode(bs, true))
  }

  /** A file on a block of `k` bytes, the first `used` of which are zeroed contents. */
  function FileMaking(bs: seq<Block>, name: string, k: u32, used: nat): Making {
    var cs := AfterMalloc(bs, NODE_SIZE);
    Making(name, false, 0, Held(MallocPtr(cs, k), Zeros(used)), AfterMalloc(cs, k))
  }

  /** `n` is new, is what `m` says, and is the last entry of `p` unless that was full. */
  ghost predicate MadeBy(s: FsState, p: FSNode, m: Making, s': FsState, n: FSNode) {
    && n !in s.files && n in s'.files
    && n.name == m.name && n.isDir == m.isDir && n.children.Length == (if m.table != 0 then MAX_CHILDREN else 0)
    && s' == FsState(PlacedShape(s.shape, p, n), s.files[n := m.held], m.blocks, s.fds)
  }

  ghost predicate Makes(s: FsState, p: FSNode, m: Making, s': FsState) {
    exists n :: n in s'.files && MadeBy(s, p, m, s', n)
  }

  lemma MadeIs(s: FsState, p: FSNode, m: Making, s': FsState, n: FSNode)
    requires MadeBy(s, p, m, s', n)
    ensures Makes(s, p, m, s') && s'.shape.tree.kids.Keys == s.shape.tree.kids.Keys + {n}
  {
    PlacedNodes(s.shape, p, n);
  }

  /** What making means for the directory and the node: the node is its last entry, unless it was full, and
      every other node has what it had. */
  lemma MadeMeans(s: FsState, p: FSNode, m: Making, s': FsState, n: FSNode)
    requires MadeBy(s, p, m, s', n) && p in s.shape.tree.kids && Sane(s.shape) && n !in s.shape.tree.kids
    ensures p in s'.shape.tree.kids && n in s'.shape.tree.parent
    ensures if |s.shape.tree.kids[p]| < 32
            then s'.shape.tree.kids[p] == s.shape.tree.kids[p] + [n] && s'.shape.tree.parent[n] == Some(p)
            else s'.shape.tree.kids[p] == s.shape.tree.kids[p] && s'.shape.tree.parent[n] == None
    ensures forall x :: x in s.shape.tree.kids && x != p ==>
              x in s'.shape.tree.kids && s'.shape.tree.kids[x] == s.shape.tree.kids[x]
    ensures n in s'.files && s'.files[n] == m.held && s'.blocks == m.blocks && s'.fds == s.fds
    ensures forall g :: g in s.files && g != n ==> g in s'.files && s'.files[g] == s.files[g]
    ensures n.name == m.name && n.isDir == m.isDir
  {
    assert Constants(s.shape, p);
  }

  /** `n` is the last of the entries, unless there were 32 already. */
  ghost predicate Appended(before: seq<FSNode>, after: seq<FSNode>, n: FSNode) {
    after == if |before| < 32 then before + [n] else before
  }

  /** A new directory of that name, empty, in `p`. */
  ghost predicate NewDirectory(s: FsState, p: FSNode, name: string, s': FsState, n: FSNode) {
    && n.isDir && n.name == name && n in s'.files && s'.files[n] == Held(0, [])
    && p in s.shape.tree.kids && p in s'.shape.tree.kids && n in s'.shape.tree.kids
    && Appended(s.shape.tree.kids[p], s'.shape.tree.kids[p], n)
  }

  /** A new file of that name with `used` zero bytes in `p`, on the second of two new blocks. */
  ghost predicate NewFile(s: FsState, p: FSNode, name: string, k: u32, used: nat, s': FsState, n: FSNode) {
    && !n.isDir && n.name == name && n in s'.files
    && |s'.files[n].bytes| == used && (forall i :: 0 <= i < used ==> s'.files[n].bytes[i] == 0)
    && s'.files[n].data == MallocPtr(AfterMalloc(s.blocks, 88), k)
    && p in s.shape.tree.kids && p in s'.shape.tree.kids && n in s'.shape.tree.kids
    && Appended(s.shape.tree.kids[p], s'.shape.tree.kids[p], n)
  }

  lemma DirectoryMeans(s: FsState, p: FSNode, name: string, s': FsState, n: FSNode)
    requires MadeBy(s, p, DirMaking(s.blocks, name), s', n)
    requires p in s.shape.tree.kids && Sane(s.shape) && n !in s.shape.tree.kids
    ensures NewDirectory(s, p, name, s', n)
  {
    MadeMeans(s, p, DirMaking(s.blocks, name), s', n);
    PlacedNodes(s.shape, p, n);
  }

  lemma FileMeans(s: FsState, p: FSNode, name: string, k: u32, used: nat, s': FsState, n: FSNode)
    requires MadeBy(s, p, FileMaking(s.blocks, name, k, used), s', n)
    requires p in s.shape.tree.kids && Sane(s.shape) && n !in s.shape.tree.kids
    ensures NewFile(s, p, name, k, used, s', n)
  {
    MadeMeans(s, p, FileMaking(s.blocks, name, k, used), s', n);
    PlacedNodes(s.shape, p, n);
  }

  /** A directory that is not full has a table to put children in. */
  ghost predicate Tabled(s: Shape, p: FSNode) {
    p in s.tree.kids && (|s.tree.kids[p]| < MAX_CHILDREN ==> p.children.Length == MAX_CHILDREN)
  }

  /** Every directory has its table. */
  ghost predicate AllTabled(s: Shape) {
    forall p :: p in s.tree.kids && p.isDir ==> p.children.Length == MAX_CHILDREN
  }

  /** There are blocks for a node and for what goes with it. */
  predicate Roomy(bs: seq<Block>) {
    var cs := AfterMalloc(bs, NODE_SIZE);
    NodeFits(bs) && MallocPtr(cs, TABLE_SIZE) != 0 && MallocPtr(cs, FILE_SIZE) != 0
  }

  lemma MakesKeepsTables(s: FsState, p: FSNode, m: Making, s': FsState)
    requires Makes(s, p, m, s') && (m.isDir ==> m.table != 0) && AllTabled(s.shape)
    ensures AllTabled(s'.shape)
  {
    hide PlacedShape;
    var n :| n in s'.files && MadeBy(s, p, m, s', n);
    PlacedNodes(s.shape, p, n);
  }

  /** Just after `fs_init` on a heap with blocks `bs`: the root alone, empty, and no descriptor used. */
  ghost predicate Booted(s: FsState, root: FSNode, bs: seq<Block>) {
    && s.shape.tree == Single<FSNode>(root) && root.name == "/" && root.isDir
    && s.files == map[root := Held(0, [])] && s.blocks == AfterNode(bs, true)
    && |s.fds| == MAX_OPEN_FILES && forall i :: 0 <= i < |s.fds| ==> !s.fds[i].used
  }

  // ---------------------------------------------------------------- operations

  /** `OpAddFile` and `OpAddDirectory` are what the shell does in its current directory. Open, write and
      close go by descriptor. */
  datatype FsOp =
    | OpTouch(path: string)
    | OpMkdir(path: string)
    | OpAddFile(dirPath: string, name: string)
    | OpAddDirectory(dirPath: string, name: string)
    | OpWrite(path: string, offset: nat, data: seq<byte>)
    | OpOpen(path: string)
    | OpSysWrite(fd: int, data: seq<byte>)
    | OpClose(fd: int)
    | OpRemove(parent: string, child: string)

  /** Both parts of the path fit the buffers `fs_mkdir` and `fs_touch` split it into. */
  ghost predicate PathFits(path: string) {
    |Split(path).0| < COMPONENT_SIZE && |Split(path).1| < NAME_SIZE
  }

  /** What callers must keep to: components and names fit their buffers, offsets do not wrap. */
  ghost predicate WellFormedOp(op: FsOp) {
    match op
    case OpTouch(path) => PathFits(path)
    case OpMkdir(path) => PathFits(path)
    case OpAddFile(path, _) => ComponentsFit(path)
    case OpAddDirectory(path, _) => ComponentsFit(path)
    case OpWrite(path, offset, data) => ComponentsFit(path) && offset + |data| <= 0xFFFF_FFF0
    case OpOpen(path) => ComponentsFit(path)
    case OpSysWrite(_, data) => |data| <= 0xFFFF_FFF0
    case OpClose(_) => true
    case OpRemove(parent, child) => ComponentsFit(parent) && ComponentsFit(child)
  }

  /** Where an absolute path leads, by the walker with one argument. */
  ghost function Lookup(s: Shape, path: string): Option<FSNode>
    requires Sane(s)
  {
    FindClosed(s.tree, s.labels, path)
  }

  lemma LookupWithin(s: Shape, path: string)
    requires Sane(s)
    ensures Lookup(s, path).Some? ==> Lookup(s, path).value in s.tree.kids
  {
    WalkWithin(s.tree, s.labels, Some(s.tree.root), Tokens(path[..Cut(path)], SLASH));
  }

  /** The same, if it leads to a directory. */
  ghost function LookupDir(s: Shape, path: string): Option<FSNode>
    requires Sane(s)
  {
    var p := Lookup(s, path);
    if p.Some? && p.value in s.tree.kids && p.value.isDir then p else None
  }

  /** The directory an operation makes a node in. */
  ghost function Place(s: Shape, op: FsOp): (p: Option<FSNode>)
    requires Sane(s)
    ensures p.Some? ==> p.value in s.tree.kids && p.value.isDir
  {
    match op
    case OpTouch(path) => LookupDir(s, Split(path).0)
    case OpMkdir(path) => LookupDir(s, Split(path).0)
    case OpAddFile(path, _) => LookupDir(s, path)
    case OpAddDirectory(path, _) => LookupDir(s, path)
    case _ => None
  }

  /** What it makes there. */
  function Product(bs: seq<Block>, op: FsOp): Making
    requires op.OpTouch? || op.OpMkdir? || op.OpAddFile? || op.OpAddDirectory?
  {
    match op
    case OpTouch(path) => FileMaking(bs, Split(path).1, TOUCH_SIZE, 0)
    case OpMkdir(path) => DirMaking(bs, Split(path).1)
    case OpAddFile(_, name) => FileMaking(bs, Truncated(name), FILE_SIZE, FILE_SIZE)
    case OpAddDirectory(_, name) => DirMaking(bs, Truncated(name))
  }

  /** The source goes through a NULL pointer: a directory that is not full has no table; or there is no
      block for the node, which `fs_touch` never and `fs_mkdir` only notices in a full directory; or
      there is none for the bytes the shell clears. */
  ghost predicate Wedged(s: FsState, op: FsOp)
    requires Sane(s.shape)
  {
    var p := Place(s.shape, op);
    && p.Some?
    && if !NodeFits(s.blocks) then
         op.OpTouch? || (op.OpMkdir? && |s.shape.tree.kids[p.value]| < MAX_CHILDREN)
       else
         || !Tabled(s.shape, p.value)
         || (op.OpAddFile? && MallocPtr(AfterMalloc(s.blocks, NODE_SIZE), FILE_SIZE) == 0)
  }

  /** What `fs_mkdir` and `fs_touch` made, and where: in the directory the part of the path before its last
      slash leads to, under the part behind it. */
  lemma PathMeans(s: FsState, path: string, s': FsState, n: FSNode)
    requires Sane(s.shape) && n !in s.shape.tree.kids
    ensures Place(s.shape, OpMkdir(path)) == Place(s.shape, OpTouch(path))
    ensures var p := Place(s.shape, OpMkdir(path));
      && p == LookupDir(s.shape, Split(path).0)
      && (p.Some? && MadeBy(s, p.value, Product(s.blocks, OpMkdir(path)), s', n) ==>
            NewDirectory(s, p.value, Split(path).1, s', n))
      && (p.Some? && MadeBy(s, p.value, Product(s.blocks, OpTouch(path)), s', n) ==>
            NewFile(s, p.value, Split(path).1, 1024, 0, s', n))
  {
    hide Sane, MadeBy, Split, Lookup, NewDirectory, NewFile;
    var p, name := Place(s.shape, OpMkdir(path)), Split(path).1;
    if p.Some? && MadeBy(s, p.value, Product(s.blocks, OpMkdir(path)), s', n) {
      DirectoryMeans(s, p.value, name, s', n);
    }
    if p.Some? && MadeBy(s, p.value, Product(s.blocks, OpTouch(path)), s', n) {
      FileMeans(s, p.value, name, TOUCH_SIZE, 0, s', n);
    }
  }

  /** An entry of the form g/d/name goes to what g/ leads to, if that is a directory, and one directly under the
      root nowhere. */
  lemma CreationPlace(s: Shape, g: string, d: string, name: string, op: FsOp, current: Option<FSNode>)
    requires Sane(s) && '/' !in d && '/' !in name && g != "" && g[0] == '/'
    requires op == OpMkdir(g + "/" + d + "/" + name) || op == OpTouch(g + "/" + d + "/" + name)
    ensures var p := FindFrom(s.tree, s.labels, g + "/", current);
      Place(s, op) == if p.Some? && p.value.isDir then p else None
    ensures Place(s, OpMkdir("/" + name)) == None && Place(s, OpTouch("/" + name)) == None
  {
    hide Sane, Split, Labelled, FindClosed, FindFrom;
    assert Labelled(s.tree, s.labels) by { SaneLabelled(s); }
    CreationParent(s.tree, s.labels, g, d, name, current);
    SplitOfJoin(g + "/" + d, name);
    LookupWithin(s, g + "/" + d);
  }

  lemma SaneLabelled(s: Shape)
    requires Sane(s)
    ensures Labelled(s.tree, s.labels)
  {
  }

  datatype Attempt = Attempt(file: FSNode, offset: nat, data: seq<byte>)

  /** The write to a file that an operation attempts. */
  ghost function Attempted(s: FsState, op: FsOp): Option<Attempt>
    requires Sane(s.shape)
  {
    match op
    case OpWrite(path, offset, data) =>
      var f := Lookup(s.shape, path);
      if f.Some? && !f.value.isDir then Some(Attempt(f.value, offset, data)) else None
    case OpSysWrite(fd, data) =>
      if 0 <= fd < |s.fds| && s.fds[fd].used && s.fds[fd].node != null && !s.fds[fd].node.isDir
      then Some(Attempt(s.fds[fd].node, 0, data)) else None
    case _ => None
  }

  /** The lowest free descriptor from `i` on, or `|fds|`. */
  function FirstUnused(fds: seq<FileDescriptor>, i: nat): (k: nat)
    requires i <= |fds|
    ensures i <= k <= |fds| && (k < |fds| ==> !fds[k].used)
    ensures forall j :: i <= j < k ==> fds[j].used
    decreases |fds| - i
  {
    if i == |fds| || !fds[i].used then i else FirstUnused(fds, i + 1)
  }

  ghost predicate MakeStep(s: FsState, op: FsOp, s': FsState)
    requires Sane(s.shape) && (op.OpTouch? || op.OpMkdir? || op.OpAddFile? || op.OpAddDirectory?)
  {
    var p := Place(s.shape, op);
    if p.None? || !NodeFits(s.blocks) then s' == s else Makes(s, p.value, Product(s.blocks, op), s')
  }

  ghost predicate WriteStep(s: FsState, op: FsOp, s': FsState)
    requires Sane(s.shape) && WellFormedOp(op)
  {
    match Attempted(s, op)
    case None => s' == s
    case Some(w) =>
      && s' == s.(files := s'.files, blocks := s'.blocks)
      && exists r :: WriteOutcome(s.blocks, s.files, s'.blocks, s'.files, w.file, w.offset, w.data, r)
  }

  ghost predicate RemoveStep(s: FsState, parent: string, child: string, s': FsState)
    requires Sane(s.shape)
  {
    var p, c := Lookup(s.shape, parent), Lookup(s.shape, child);
    if p.Some? && c.Some? && p.value in s.shape.tree.kids && c.value in s.shape.tree.kids[p.value]
    then s' == s.(shape := s.shape.(tree := Removed(s.shape.tree, p.value, c.value)))
    else s' == s
  }

  ghost predicate OpenStep(s: FsState, path: string, s': FsState)
    requires Sane(s.shape)
  {
    var f, i := Lookup(s.shape, path), FirstUnused(s.fds, 0);
    s' == if f.None? || i == |s.fds| then s else s.(fds := s.fds[i := FileDescriptor(f.value, 0, true)])
  }

  /** What an operation does that goes through no NULL pointer. */
  ghost predicate Step(s: FsState, op: FsOp, s': FsState)
    requires Sane(s.shape) && WellFormedOp(op)
  {
    && !Wedged(s, op)
    && match op
       case OpOpen(path) => OpenStep(s, path, s')
       case OpClose(fd) =>
         s' == if 0 <= fd < |s.fds| then s.(fds := s.fds[fd := s.fds[fd].(used := false)]) else s
       case OpRemove(parent, child) => RemoveStep(s, parent, child, s')
       case OpWrite(_, _, _) => WriteStep(s, op, s')
       case OpSysWrite(_, _) => WriteStep(s, op, s')
       case _ => MakeStep(s, op, s')
  }

  /** When the shell's creations are stuck, and that nothing happens where there is no directory. */
  lemma AddWedged(s: FsState, path: string, name: string)
    requires Sane(s.shape)
    ensures var p := LookupDir(s.shape, path);
      Wedged(s, OpAddDirectory(path, name)) <==> p.Some? && NodeFits(s.blocks) && !Tabled(s.shape, p.value)
    ensures var p, q := LookupDir(s.shape, path), MallocPtr(AfterMalloc(s.blocks, NODE_SIZE), FILE_SIZE);
      Wedged(s, OpAddFile(path, name)) <==> p.Some? && NodeFits(s.blocks) && (!Tabled(s.shape, p.value) || q == 0)
    ensures LookupDir(s.shape, path).None? || !NodeFits(s.blocks) ==>
              MakeStep(s, OpAddDirectory(path, name), s) && MakeStep(s, OpAddFile(path, name), s)
  {
  }

  /** A node made as the operation says is its step. */
  lemma MadeSteps(s: FsState, op: FsOp, s': FsState, n: FSNode)
    requires Sane(s.shape) && (op.OpTouch? || op.OpMkdir? || op.OpAddFile? || op.OpAddDirectory?)
    requires Place(s.shape, op).Some? && NodeFits(s.blocks)
    requires MadeBy(s, Place(s.shape, op).value, Product(s.blocks, op), s', n)
    ensures MakeStep(s, op, s') && s'.shape.tree.kids.Keys == s.shape.tree.kids.Keys + {n}
  {
    MadeIs(s, Place(s.shape, op).value, Product(s.blocks, op), s', n);
  }
}
