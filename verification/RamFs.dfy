/** The RAM file system of src/kernel/ramfs.cpp with its files in the kernel heap, and the descriptor
    calls of src/kernel/syscalls.cpp. */
module RamFs {
  import opened Machine
  import opened Options
  import opened HeapLayout
  import opened HeapImage
  import opened FileTree
  import opened Paths
  import opened Tokenizing
  import opened FsSteps
  import opened HeapClients
  import opened Nodes
  import Heap
  import HeapRuns

  /** What a heap block serves: a node itself, its table of children, or the contents of a file. */
  datatype Use = Struct(node: FSNode) | Table(node: FSNode) | Data(node: FSNode)

  /** The blocks of node `n` are its own, and big enough for what they hold. */
  ghost predicate Stored(n: FSNode, data: nat, size: nat, owner: map<nat, Use>, c: map<nat, seq<byte>>) {
    && |n.name| < NAME_SIZE
    && n.addr in owner && owner[n.addr] == Struct(n)
    && (n.table != 0 ==> n.table in owner && owner[n.table] == Table(n))
    && (data == 0 ==> size == 0)
    && (data != 0 ==> !n.isDir && data in owner && owner[data] == Data(n) && data in c && size <= |c[data]|)
  }

  class RamFs {
    const heap: Heap.Heap
    const dir: Directory
    const fdTable: array<FileDescriptor>
    ghost var owner: map<nat, Use>

    /** An empty file system under a new root. */
    constructor Under(heap: Heap.Heap, root: FSNode)
      requires heap.Valid() && NewlyMade(root, "/", true)
      requires Stored(root, 0, 0, Claimed(map[], root), heap.contents)
      requires Claimed(map[], root).Keys <= heap.contents.Keys
      ensures Valid() && this.heap == heap && dir.shape.tree == Single<FSNode>(root) && dir.root == root
      ensures Files() == map[root := Held(0, [])]
      ensures forall i :: 0 <= i < |fdTable[..]| ==> !fdTable[..][i].used
      ensures fresh(dir) && fresh(fdTable) && dir.Nodes() == {root} && dir.Tables() == {root.children}
    {
      hide Sane, Labelled, Spells, Claimed, Files;
      this.heap := heap;
      dir := new Directory(root);
      fdTable := new FileDescriptor[MAX_OPEN_FILES](_ => FileDescriptor(null, 0, false));
      owner := Claimed(map[], root);
      new;
      assert StoredAt(root);
      FilesAre(map[root := Held(0, [])]);
    }

    /** `fs_init`: a root directory named "/", if a block for it can be had. */
    static method Init(heap: Heap.Heap) returns (fs: RamFs?)
      requires heap.Valid()
      modifies heap`blocks, heap`contents, heap.mem
      ensures fs == null <==> MallocPtr(old(heap.blocks), NODE_SIZE) == 0
      ensures heap.blocks == AfterNode(old(heap.blocks), true)
      ensures fs != null ==> fs.Valid() && fs.heap == heap && Booted(fs.State(), fs.dir.root, old(heap.blocks))
      ensures fs != null ==>
        (AllTabled(fs.dir.shape) <==> MallocPtr(AfterMalloc(old(heap.blocks), NODE_SIZE), TABLE_SIZE) != 0)
      ensures fs != null ==> fresh(fs) && fresh(fs.dir) && fresh(fs.fdTable) && fresh(fs.dir.Nodes())
      ensures fs != null ==> fresh(fs.dir.Tables())
    {
      hide MallocPtr, AfterMalloc, AfterNode;
      var root := NewNode(heap, "/", true);
      if root == null { return null; }
      ClaimedPreserves(map[], map[], heap.contents, root);
      fs := new RamFs.Under(heap, root);
    }

    /** The loop of `fs_create_node` over the name. */
    static method CopyName(name: string) returns (copy: string)
      ensures copy == Truncated(name)
    {
      var i := 0;
      copy := "";
      while i < NAME_SIZE - 1 && i < |name|
        invariant i <= NAME_SIZE - 1 && i <= |name| && copy == name[..i]
      {
        copy := copy + [name[i]];
        i := i + 1;
      }
    }

    /** `fs_create_node`: a block for the node and, for a directory, one for its table; a table that
        cannot be allocated is left out, a node that cannot be is NULL. */
    static method NewNode(heap: Heap.Heap, name: string, isDir: bool) returns (n: FSNode?)
      requires heap.Valid()
      modifies heap`blocks, heap`contents, heap.mem
      ensures heap.Valid()
      ensures n == null <==> MallocPtr(old(heap.blocks), NODE_SIZE) == 0
      ensures n == null ==> heap.blocks == old(heap.blocks) && heap.contents == old(heap.contents)
      ensures n != null ==> fresh(n) && fresh(n.children) && NewlyMade(n, name, isDir)
      ensures n != null ==> NewBlocks(n, old(heap.contents), heap.contents)
      ensures heap.blocks == AfterNode(old(heap.blocks), isDir)
      ensures n != null && isDir ==> n.table == MallocPtr(AfterMalloc(old(heap.blocks), NODE_SIZE), TABLE_SIZE)
    {
      var p := heap.Malloc(NODE_SIZE);
      if p == 0 { return null; }
      var copy := CopyName(name);
      ghost var c := heap.contents;
      var table := 0;
      if isDir {
        table := heap.Malloc(TABLE_SIZE);
      }
      n := new FSNode(copy, isDir, p, table);
    }

    ghost predicate StoredAt(n: FSNode)
      reads `owner, n`data, n`size, heap`contents
    {
      Stored(n, n.data, n.size, owner, heap.contents)
    }

    ghost predicate AllStored()
      reads `owner, heap`contents, dir`shape, dir.Nodes()`data, dir.Nodes()`size
    {
      forall n {:trigger StoredAt(n)} :: n in dir.Nodes() ==> StoredAt(n)
    }

    /** Every block in use is live, and every node's blocks are its own. */
    ghost predicate Storage()
      reads `owner, heap, heap.mem, dir`shape, dir.Nodes()`data, dir.Nodes()`size
    {
      heap.Valid() && owner.Keys <= heap.contents.Keys && AllStored()
    }

    ghost predicate Descriptors()
      reads fdTable, dir`shape
    {
      && fdTable.Length == MAX_OPEN_FILES
      && forall i :: 0 <= i < MAX_OPEN_FILES && fdTable[i].used ==>
           fdTable[i].node != null && fdTable[i].node in dir.Nodes() && fdTable[i].offset == 0
    }

    ghost predicate Valid()
      reads this, heap, heap.mem, dir, dir.Nodes(), dir.Tables(), fdTable
    {
      dir.Valid() && Storage() && Descriptors()
    }

    /** The contents of a file. */
    ghost function Bytes(n: FSNode): (s: seq<byte>)
      requires StoredAt(n)
      reads `owner, n`data, n`size, heap`contents
      ensures |s| == n.size
    {
      if n.data == 0 then [] else heap.contents[n.data][..n.size]
    }

    /** The contents of all nodes. */
    ghost function Files(): map<FSNode, Held>
      requires AllStored()
      reads `owner, heap`contents, dir`shape, dir.Nodes()`data, dir.Nodes()`size
    {
      map n | n in dir.Nodes() && StoredAt(n) :: Held(n.data, Bytes(n))
    }

    ghost function State(): FsState
      requires AllStored()
      reads this, heap, dir, dir.Nodes()`data, dir.Nodes()`size, fdTable
    {
      FsState(dir.shape, Files(), heap.blocks, fdTable[..])
    }

    lemma FilesFacts()
      requires AllStored()
      ensures Files().Keys == dir.Nodes()
      ensures forall g {:trigger StoredAt(g)} :: g in Files() ==> StoredAt(g) && Files()[g] == Held(g.data, Bytes(g))
      ensures forall g {:trigger AsHeld(g, owner, heap.contents, Files())} :: g in Files() ==>
                AsHeld(g, owner, heap.contents, Files())
    {
      assert forall g :: g in Files() ==> StoredAt(g);
    }

    lemma FilesAre(f: map<FSNode, Held>)
      requires f.Keys == dir.Nodes()
      requires forall g {:trigger StoredAt(g)} :: g in f ==> StoredAt(g) && f[g] == Held(g.data, Bytes(g))
      ensures AllStored() && Files() == f
    {
      assert forall g :: g in f ==> StoredAt(g);
    }

    /** The contents of different files lie in separate stretches of the heap. */
    lemma OwnBlocks(f: FSNode, g: FSNode)
      requires Storage() && f in dir.Nodes() && g in dir.Nodes() && f != g && f.data != 0 && g.data != 0
      ensures f.data + f.size <= g.data || g.data + g.size <= f.data
      ensures f.data + f.size <= HEAP_END <= heap.mem.Length
      ensures f in Files() && Files()[f].bytes == heap.mem[f.data..f.data + f.size]
    {
      hide Files, Stored, Represents;
      FilesFacts();
      assert StoredAt(f) && StoredAt(g);
      var j := OwnBlock(f);
      var k := OwnBlock(g);
      DifferentData(f, g);
      PayloadsDisjoint(heap.blocks, j, k);
    }

    lemma DifferentData(f: FSNode, g: FSNode)
      requires StoredAt(f) && StoredAt(g) && f != g && f.data != 0
      ensures f.data != g.data
    {
    }

    /** The block that holds a file's contents. */
    lemma OwnBlock(f: FSNode) returns (k: nat)
      requires heap.Valid() && StoredAt(f) && f.data != 0
      ensures k < |heap.blocks| && f.data == Ptr(heap.blocks, k) && f.size <= heap.blocks[k].size
      ensures WellFormed(heap.blocks) && f.data + f.size <= HEAP_END <= heap.mem.Length
      ensures Bytes(f) == heap.mem[f.data..f.data + f.size]
    {
      k := heap.LiveBlock(f.data);
      heap.LiveBytes(f.data, k);
      assert heap.mem[f.data..f.data + heap.blocks[k].size][..f.size] == heap.mem[f.data..f.data + f.size];
    }

    // ------------------------------------------------------------- file contents

    /** What a file holds. */
    ghost function HeldBy(n: FSNode): Held
      requires StoredAt(n)
      reads `owner, n`data, n`size, heap`contents
    {
      Held(n.data, Bytes(n))
    }

    /** The block list knows how much the block of a file can hold. */
    lemma RoomIs(n: FSNode)
      requires heap.Valid() && StoredAt(n)
      ensures RoomAt(heap.blocks, n.data) == if n.data == 0 then 0 else |heap.contents[n.data]|
      ensures n.size <= RoomAt(heap.blocks, n.data)
    {
      LiveIffHeld(heap, n.data);
      heap.NullNotLive();
    }

    /** What `krealloc` asks of a file that grows without wrapping. */
    lemma GrowthFits(n: FSNode, size: u32)
      requires heap.Valid() && StoredAt(n) && size <= 0xFFFF_FFF0
      ensures n.data != 0 ==> n.data in heap.contents && IsLivePtr(heap.blocks, n.data)
      ensures n.data != 0 && size > |heap.contents[n.data]| ==> CopyFits(heap.blocks, n.data, size)
    {
      if n.data != 0 {
        heap.LivePtr(n.data);
        if size > |heap.contents[n.data]| && MallocIndex(heap.blocks, size) < |heap.blocks| {
          HeapRuns.CopyFitsIff(heap.blocks, n.data, size);
        }
      }
    }

    /** Grow a file to `n` bytes, moving its block when needed. */
    method Resize(file: FSNode, n: u32) returns (ok: bool)
      requires heap.Valid() && owner.Keys <= heap.contents.Keys && StoredAt(file) && !file.isDir
      requires file.size < n <= 0xFFFF_FFF0
      modifies `owner, file`data, file`size, heap`blocks, heap`contents, heap.mem
      ensures heap.Valid() && owner.Keys <= heap.contents.Keys && StoredAt(file)
      ensures Preserved(old(owner), old(heap.contents), owner, heap.contents, {Data(file)})
      ensures !ok <==> old(Refuses(heap.blocks, HeldBy(file), n))
      ensures heap.blocks == old(AfterWrite(heap.blocks, HeldBy(file), n))
      ensures !ok ==> HeldBy(file) == old(HeldBy(file))
      ensures ok ==> file.size == n && old(Bytes(file)) <= Bytes(file)
      ensures ok ==> file.data == if old(Moves(heap.blocks, HeldBy(file), n)) then MallocPtr(old(heap.blocks), n)
                                  else old(file.data)
    {
      hide Preserved, Represents, RoomAt, AfterMalloc, AfterFree, MallocPtr, CopyFits, IsLivePtr;
      heap.NullNotLive();
      AlignCovers(n);
      RoomIs(file);
      GrowthFits(file, n);
      ghost var c := heap.contents;
      var p := heap.Realloc(file.data, n);
      GrowthPreserves(owner, c, heap.contents, file, file.data, p);
      if p == 0 { return false; }
      owner := (owner - {file.data})[p := Data(file)];
      file.data := p;
      file.size := n;
      ok := true;
    }

    /** `memcpy` into a file, inside its size. */
    method StoreInFile(file: FSNode, offset: nat, buffer: seq<byte>)
      requires heap.Valid() && owner.Keys <= heap.contents.Keys && StoredAt(file)
      requires file.data != 0 && offset + |buffer| <= file.size
      modifies heap`contents, heap.mem
      ensures heap.Valid() && owner.Keys <= heap.contents.Keys && StoredAt(file)
      ensures Preserved(owner, old(heap.contents), owner, heap.contents, {Data(file)})
      ensures Written(old(Bytes(file)), Bytes(file), offset, buffer)
    {
      PatchedPrefix(heap.contents[file.data], offset, buffer, file.size);
      heap.Store(file.data, offset, buffer);
    }

    /** `fs_write` on a file. When the file has to grow and no block is big enough nothing changes and
        the call fails; else the bytes written stand at the offset, everything else that was in the
        file stays, and a gap between the old end and the offset keeps what its block held. */
    method WriteFile(file: FSNode, offset: nat, buffer: seq<byte>) returns (r: int)
      requires heap.Valid() && owner.Keys <= heap.contents.Keys && StoredAt(file) && !file.isDir
      requires offset + |buffer| <= 0xFFFF_FFF0
      modifies `owner, file`data, file`size, heap`blocks, heap`contents, heap.mem
      ensures heap.Valid() && owner.Keys <= heap.contents.Keys && StoredAt(file)
      ensures Preserved(old(owner), old(heap.contents), owner, heap.contents, {Data(file)})
      ensures FileOutcome(old(heap.blocks), old(HeldBy(file)), heap.blocks, HeldBy(file), offset, buffer, r)
    {
      hide Preserved, Represents, RoomAt, MallocPtr, AfterMalloc, AfterFree, Written;
      ghost var owner0, c0, h := owner, heap.contents, HeldBy(file);
      PreservedSame(owner, c0, {Data(file)});
      if offset + |buffer| > file.size {
        var ok := Resize(file, offset + |buffer|);
        if !ok { return -1; }
      }
      ghost var c1, b := heap.contents, Bytes(file);
      if buffer != [] {
        StoreInFile(file, offset, buffer);
        PreservedFurther(owner0, c0, owner, c1, heap.contents, {Data(file)});
      } else {
        NothingWritten(b, offset);
      }
      WrittenGrown(h.bytes, b, Bytes(file), offset, buffer);
      r := |buffer|;
    }

    /** After a change that left all blocks in use but the exempt ones alone, `g` holds what it held. */
    lemma HoldsStill(g: FSNode, owner0: map<nat, Use>, c0: map<nat, seq<byte>>, f0: map<FSNode, Held>, exempt: set<Use>)
      requires AsHeld(g, owner0, c0, f0)
      requires Preserved(owner0, c0, owner, heap.contents, exempt)
      requires Struct(g) !in exempt && Table(g) !in exempt && Data(g) !in exempt
      ensures StoredAt(g) && Held(g.data, Bytes(g)) == f0[g]
    {
    }

    /** When nothing but `n` and its block changed, or `n` is new, every other node holds what it held. */
    lemma OthersHold(n: FSNode, owner0: map<nat, Use>, c0: map<nat, seq<byte>>, f0: map<FSNode, Held>)
      requires dir.Nodes() == f0.Keys + {n} && StoredAt(n)
      requires Preserved(owner0, c0, owner, heap.contents, {Data(n)})
      requires forall g {:trigger AsHeld(g, owner0, c0, f0)} :: g in f0 && g != n ==> AsHeld(g, owner0, c0, f0)
      ensures AllStored() && Files() == f0[n := Held(n.data, Bytes(n))]
    {
      hide Files, Preserved, AsHeld;
      var f1 := f0[n := Held(n.data, Bytes(n))];
      forall g | g in f1 ensures StoredAt(g) && f1[g] == Held(g.data, Bytes(g)) {
        if g != n {
          assert AsHeld(g, owner0, c0, f0);
          HoldsStill(g, owner0, c0, f0, {Data(n)});
        }
      }
      FilesAre(f1);
    }

    /** `fs_write` on a file: no other node notices. */
    method WriteKeeping(file: FSNode, offset: nat, buffer: seq<byte>) returns (r: int)
      requires Storage() && file in dir.Nodes() && !file.isDir && offset + |buffer| <= 0xFFFF_FFF0
      modifies `owner, file`data, file`size, heap`blocks, heap`contents, heap.mem
      ensures Storage()
      ensures WriteOutcome(old(heap.blocks), old(Files()), heap.blocks, Files(), file, offset, buffer, r)
    {
      hide Files, Preserved, FileOutcome, AsHeld;
      ghost var owner0, c0, f0 := owner, heap.contents, Files();
      FilesFacts();
      assert StoredAt(file);
      r := WriteFile(file, offset, buffer);
      forall g | g in f0 && g != file ensures AsHeld(g, owner0, c0, f0) {
        assert old(AsHeld(g, owner0, c0, f0));
      }
      OthersHold(file, owner0, c0, f0);
    }

    /** `fs_write`. */
    method Write(file: FSNode?, offset: nat, buffer: seq<byte>) returns (r: int)
      requires Valid() && (file != null ==> file in dir.Nodes()) && offset + |buffer| <= 0xFFFF_FFF0
      modifies `owner, dir.Nodes()`data, dir.Nodes()`size, heap`blocks, heap`contents, heap.mem
      ensures Valid()
      ensures if file == null || file.isDir then
                r == -1 && Files() == old(Files()) && heap.blocks == old(heap.blocks)
              else WriteOutcome(old(heap.blocks), old(Files()), heap.blocks, Files(), file, offset, buffer, r)
      ensures r == -1 ==> Files() == old(Files()) && heap.blocks == old(heap.blocks)
      ensures r != -1 ==> file != null && r == |buffer| && BytesStand(old(Files()), Files(), file, offset, buffer)
    {
      hide Sane, Labelled, Spells, Files, WriteOutcome, BytesStand;
      if file == null || file.isDir { return -1; }
      ghost var bs, f := heap.blocks, Files();
      r := WriteKeeping(file, offset, buffer);
      OutcomeMeans(bs, f, heap.blocks, Files(), file, offset, buffer, r);
    }

    /** `fs_read` into a buffer outside the heap, for requests that the bound test cuts right. */
    method Read(file: FSNode?, offset: u32, size: u32, buffer: array<byte>) returns (r: int)
      requires Valid() && (file != null ==> file in dir.Nodes()) && buffer != heap.mem
      requires file != null && !file.isDir && offset <= file.size ==>
                 && offset + CutSize(file.size, offset, size) <= file.size
                 && CutSize(file.size, offset, size) <= buffer.Length
      modifies buffer
      ensures r == -1 <==> file == null || file.isDir || offset > file.size
      ensures r != -1 ==> StoredAt(file) && r == (if offset + size > file.size then file.size - offset else size)
                          && buffer[..r] == Bytes(file)[offset..offset + r]
                          && buffer[r..] == old(buffer[..])[r..]
      ensures r == -1 ==> buffer[..] == old(buffer[..])
    {
      if file == null || file.isDir { return -1; }
      if offset > file.size { return -1; }
      assert StoredAt(file);
      CutIsRightIff(file.size, offset, size);
      var readSize := size;
      if (offset + size) % 0x1_0000_0000 > file.size {
        readSize := file.size - offset;
      }
      if readSize > 0 {
        SliceOfSlice(heap.contents[file.data], 0, file.size, offset, offset + readSize);
        heap.Load(file.data, offset, readSize, buffer);
      }
      r := readSize;
    }

    // ------------------------------------------------------------- making nodes

    /** `fs_create_node`: the new node belongs to no directory, and no other node notices. */
    method CreateNode(name: string, isDir: bool) returns (n: FSNode?)
      requires Valid()
      modifies `owner, dir`shape, heap`blocks, heap`contents, heap.mem
      ensures Valid()
      ensures n == null <==> MallocPtr(old(heap.blocks), 88) == 0
      ensures n == null ==> Files() == old(Files()) && dir.shape == old(dir.shape) && heap.blocks == old(heap.blocks)
      ensures n != null ==> fresh(n) && fresh(n.children) && NewlyMade(n, name, isDir)
      ensures n != null ==> dir.shape == EnteredShape(old(dir.shape), n) && Loose(dir.shape.tree, n)
      ensures n != null ==> Files() == old(Files())[n := Held(0, [])]
      ensures heap.blocks == AfterNode(old(heap.blocks), isDir)
      ensures n != null && isDir ==> n.table == MallocPtr(AfterMalloc(old(heap.blocks), 88), 128)
    {
      hide Sane, Labelled, Spells, Files, Loose, NewBlocks, AsHeld, MallocPtr, AfterMalloc, AfterNode;
      FilesFacts();
      ghost var owner0, c0, f0 := owner, heap.contents, Files();
      n := NewNode(heap, name, isDir);
      forall g | g in f0 ensures AsHeld(g, owner0, c0, f0) {
        assert old(AsHeld(g, owner0, c0, f0));
      }
      if n == null {
        FilesAre(f0);
        return;
      }
      Adopt(n, name, isDir, c0, f0);
    }

    /** Enter a node made over the contents `c`, when `f` says what the nodes hold. */
    ghost method Adopt(n: FSNode, name: string, isDir: bool, c: map<nat, seq<byte>>, f: map<FSNode, Held>)
      requires dir.Valid() && heap.Valid() && Descriptors() && owner.Keys <= c.Keys
      requires NewBlocks(n, c, heap.contents) && NewlyMade(n, name, isDir)
      requires n !in dir.Nodes() && n.children !in dir.shape.owner && f.Keys == dir.Nodes()
      requires forall g {:trigger AsHeld(g, owner, c, f)} :: g in f ==> AsHeld(g, owner, c, f)
      modifies `owner, dir`shape
      ensures Valid() && Files() == f[n := Held(0, [])]
      ensures dir.shape == EnteredShape(old(dir.shape), n) && Loose(dir.shape.tree, n)
    {
      hide Sane, Labelled, Spells, Files, Loose, NewBlocks, Preserved, AsHeld, EnteredShape, Claimed;
      var owner0 := owner;
      EnteredNodes(dir.shape, n);
      ClaimedPreserves(owner, c, heap.contents, n);
      owner := Claimed(owner, n);
      dir.Enter(n);
      OthersHold(n, owner0, c, f);
    }

    /** `data = kmalloc(k)` for a file without contents. */
    method Provide(n: FSNode, k: u32)
      requires Valid() && n in dir.Nodes() && !n.isDir && n.data == 0 && k <= 0xFFFF_FFF0
      modifies `owner, n`data, heap`blocks, heap`contents, heap.mem
      ensures Valid() && n.size == 0
      ensures n.data == MallocPtr(old(heap.blocks), k) && heap.blocks == AfterMalloc(old(heap.blocks), k)
      ensures n.data != 0 ==> n.data in heap.contents && k <= |heap.contents[n.data]|
      ensures Files() == old(Files())[n := Held(n.data, [])]
    {
      hide Sane, Labelled, Spells, Files, AsHeld, MallocPtr, AfterMalloc;
      ProvideStored(n, k);
    }

    /** The new block is the file's own. */
    method Obtain(n: FSNode, k: u32)
      requires heap.Valid() && owner.Keys <= heap.contents.Keys && StoredAt(n)
      requires !n.isDir && n.data == 0 && k <= 0xFFFF_FFF0
      modifies `owner, n`data, heap`blocks, heap`contents, heap.mem
      ensures heap.Valid() && owner.Keys <= heap.contents.Keys && StoredAt(n) && n.size == 0
      ensures n.data == MallocPtr(old(heap.blocks), k) && heap.blocks == AfterMalloc(old(heap.blocks), k)
      ensures n.data != 0 ==> n.data in heap.contents && k <= |heap.contents[n.data]|
      ensures Preserved(old(owner), old(heap.contents), owner, heap.contents, {Data(n)})
    {
      hide MallocPtr, AfterMalloc;
      AlignCovers(k);
      n.data := heap.Malloc(k);
      if n.data != 0 { owner := owner[n.data := Data(n)]; }
    }

    method ProvideStored(n: FSNode, k: u32)
      requires Storage() && n in dir.Nodes() && !n.isDir && n.data == 0 && k <= 0xFFFF_FFF0
      modifies `owner, n`data, heap`blocks, heap`contents, heap.mem
      ensures Storage() && n.size == 0
      ensures n.data == MallocPtr(old(heap.blocks), k) && heap.blocks == AfterMalloc(old(heap.blocks), k)
      ensures n.data != 0 ==> n.data in heap.contents && k <= |heap.contents[n.data]|
      ensures Files() == old(Files())[n := Held(n.data, [])]
    {
      hide Files, AsHeld, MallocPtr, AfterMalloc, Preserved;
      FilesFacts();
      ghost var owner0, c0, f0 := owner, heap.contents, Files();
      assert StoredAt(n);
      Obtain(n, k);
      forall g | g in f0 && g != n ensures AsHeld(g, owner0, c0, f0) {
        assert old(AsHeld(g, owner0, c0, f0));
      }
      OthersHold(n, owner0, c0, f0);
    }

    /** Give a new file `k` zero bytes in the block it has. */
    method Clear(n: FSNode, k: nat)
      requires heap.Valid() && owner.Keys <= heap.contents.Keys && StoredAt(n)
      requires n.data != 0 && n.size == 0 && k <= |heap.contents[n.data]|
      modifies n`size, heap`contents, heap.mem
      ensures heap.Valid() && owner.Keys <= heap.contents.Keys && StoredAt(n)
      ensures Bytes(n) == Zeros(k)
      ensures Preserved(owner, old(heap.contents), owner, heap.contents, {Data(n)})
    {
      n.size := k;
      StoreInFile(n, 0, Zeros(k));
    }

    method ClearStored(n: FSNode, k: nat)
      requires Storage() && n in dir.Nodes() && n.data != 0 && n.size == 0
      requires n.data in heap.contents && k <= |heap.contents[n.data]|
      modifies n`size, heap`contents, heap.mem
      ensures Storage() && Files() == old(Files())[n := Held(n.data, Zeros(k))]
    {
      hide Files, AsHeld, Preserved;
      FilesFacts();
      ghost var c0, f0 := heap.contents, Files();
      assert StoredAt(n);
      Clear(n, k);
      forall g | g in f0 && g != n ensures AsHeld(g, owner, c0, f0) {
        assert old(AsHeld(g, owner, c0, f0));
      }
      OthersHold(n, owner, c0, f0);
    }

    /** The `memset` of `cmd_touch`. */
    method ClearFile(n: FSNode, k: nat)
      requires Valid() && n in dir.Nodes() && n.data != 0 && n.size == 0
      requires n.data in heap.contents && k <= |heap.contents[n.data]|
      modifies n`size, heap`contents, heap.mem
      ensures Valid() && Files() == old(Files())[n := Held(n.data, Zeros(k))]
    {
      hide Sane, Labelled, Spells, Files;
      ClearStored(n, k);
    }

    /** Changes to the structure alone leave the contents. */
    twostate lemma SameFiles()
      requires old(AllStored()) && dir.Nodes() == old(dir.Nodes())
      requires owner == old(owner) && heap.contents == old(heap.contents)
      requires forall g :: g in dir.Nodes() ==> g.data == old(g.data) && g.size == old(g.size)
      ensures AllStored() && Files() == old(Files())
    {
      forall g | g in dir.Nodes() ensures StoredAt(g) {
        assert old(StoredAt(g));
      }
    }

    /** `fs_add_child`, for a node just made. */
    method AddChild(p: FSNode?, c: FSNode)
      requires Valid() && c in dir.Nodes() && Loose(dir.shape.tree, c) && p != c && (p != null ==> p in dir.Nodes())
      requires p != null ==> HasTable(p)
      modifies dir`shape, dir.Nodes()`childCount, c`parent, dir.Tables()
      ensures Valid() && Files() == old(Files())
      ensures dir.shape == if p != null && p.isDir && |old(dir.shape).tree.kids[p]| < MAX_CHILDREN
                           then AppendedShape(old(dir.shape), p, c) else old(dir.shape)
    {
      hide Sane, Labelled, Spells, Loose, AppendedShape, Files;
      if p != null { AppendedNodes(dir.shape, p, c); }
      dir.AddChild(p, c);
      SameFiles();
    }

    /** `fs_remove_child`: the nodes removed stay allocated, with their contents. */
    method RemoveChild(p: FSNode?, c: FSNode)
      requires Valid() && (p != null ==> p in dir.Nodes()) && c in dir.Nodes()
      modifies dir`shape, dir.Nodes()`childCount, dir.Tables()
      ensures Valid() && Files() == old(Files()) && dir.Nodes() == old(dir.Nodes())
      ensures dir.shape == old(dir.shape).(tree :=
        if p != null && c in old(dir.shape.tree).kids[p] then Removed(old(dir.shape.tree), p, c)
        else old(dir.shape.tree))
    {
      hide Sane, Labelled, Spells, Removed, Files;
      if p != null { RemovedNodes(dir.shape, p, c); }
      dir.RemoveChild(p, c);
      SameFiles();
    }

    // ------------------------------------------------------------- making entries

    /** `split_path`, with the search for the last slash. */
    static method SplitPath(path: string) returns (parent: string, name: string)
      ensures (parent, name) == Split(path)
    {
      var n := 0;
      for i := 0 to |path|
        invariant n <= i && Free(path[n..i], SLASH) && (n > 0 ==> path[n - 1] == '/')
      {
        if path[i] == '/' {
          n := i + 1;
        } else {
          assert path[n..i + 1] == path[n..i] + [path[i]];
        }
      }
      assert path[n..|path|] == path[n..];
      CutIs(path, n);
      if n > 0 {
        parent, name := path[..n - 1], path[n..];
      } else {
        parent, name := "", path;
      }
    }

    /** The search both start with, by the walker that ignores an unclosed last component. */
    method FindParent(path: string) returns (p: FSNode?, name: string)
      requires dir.Valid() && |Split(path).0| < COMPONENT_SIZE
      ensures Opt(p) == LookupDir(dir.shape, Split(path).0) && name == Split(path).1
      ensures p != null ==> p in dir.Nodes() && p.isDir && p.childCount == |dir.shape.tree.kids[p]|
    {
      var parent;
      parent, name := SplitPath(path);
      p := dir.FindByPath(parent);
      if p == null || !p.isDir {
        p := null;
      } else {
        assert Spells(p, dir.shape.tree);
      }
    }

    lemma TabledIff(p: FSNode)
      requires dir.Valid() && p in dir.Nodes() && p.isDir
      ensures HasTable(p) <==> Tabled(dir.shape, p)
    {
      assert Spells(p, dir.shape.tree);
    }

    /** A new file with room for `k` bytes, if that can be had. */
    method MakeFile(name: string, k: u32) returns (n: FSNode?)
      requires Valid() && k <= 0xFFFF_FFF0
      modifies `owner, dir`shape, heap`blocks, heap`contents, heap.mem
      ensures Valid()
      ensures n == null <==> !NodeFits(old(heap.blocks))
      ensures n == null ==> Files() == old(Files()) && dir.shape == old(dir.shape) && heap.blocks == old(heap.blocks)
      ensures n != null ==>
        && fresh(n) && fresh(n.children) && !n.isDir && n.name == Truncated(name) && n.size == 0
        && n.children.Length == 0 && n.data == MallocPtr(AfterMalloc(old(heap.blocks), NODE_SIZE), k)
        && heap.blocks == AfterMalloc(AfterMalloc(old(heap.blocks), NODE_SIZE), k)
        && (n.data != 0 ==> n.data in heap.contents && k <= |heap.contents[n.data]|)
        && dir.shape == EnteredShape(old(dir.shape), n) && Loose(dir.shape.tree, n)
        && Files() == old(Files())[n := Held(n.data, [])]
    {
      hide Sane, Labelled, Spells, Files, EnteredShape, MallocPtr, AfterMalloc;
      n := CreateNode(name, false);
      if n != null { Provide(n, k); }
    }

    /** A new file of `k` zero bytes, or with nothing if no block for them can be had. */
    method MakeClearedFile(name: string, k: u32) returns (n: FSNode?)
      requires Valid() && k <= 0xFFFF_FFF0
      modifies `owner, dir`shape, heap`blocks, heap`contents, heap.mem
      ensures Valid()
      ensures n == null <==> !NodeFits(old(heap.blocks))
      ensures n == null ==> Files() == old(Files()) && dir.shape == old(dir.shape) && heap.blocks == old(heap.blocks)
      ensures n != null ==>
        && fresh(n) && fresh(n.children) && !n.isDir && n.name == Truncated(name) && n.children.Length == 0
        && n.data == MallocPtr(AfterMalloc(old(heap.blocks), NODE_SIZE), k)
        && heap.blocks == AfterMalloc(AfterMalloc(old(heap.blocks), NODE_SIZE), k)
        && dir.shape == EnteredShape(old(dir.shape), n) && Loose(dir.shape.tree, n)
        && (n.data != 0 ==> Files() == old(Files())[n := Held(n.data, Zeros(k))])
    {
      hide Sane, Labelled, Spells, Files, EnteredShape, MallocPtr, AfterMalloc;
      n := MakeFile(name, k);
      if n != null && n.data != 0 { ClearFile(n, k); }
    }

    /** Put a node just made, on top of the shape `s`, into directory `p`. */
    method PutNew(p: FSNode, n: FSNode, ghost s: Shape)
      requires Valid() && Sane(s) && dir.shape == EnteredShape(s, n) && Loose(dir.shape.tree, n)
      requires p in s.tree.kids && n !in s.tree.kids && n.children !in s.owner && p.isDir && HasTable(p)
      modifies dir`shape, dir.Nodes()`childCount, n`parent, dir.Tables()
      ensures Valid() && Files() == old(Files()) && dir.shape == PlacedShape(s, p, n)
    {
      hide Sane, Labelled, Spells, Files, Loose, EnteredShape, AppendedShape, PlacedShape;
      PlacedFacts(s, p, n);
      AddChild(p, n);
    }

    /** `n` has been made as `m` says, on top of the state `s`, and belongs to no directory yet. */
    ghost predicate InHand(s: FsState, m: Making, n: FSNode)
      requires AllStored()
      reads this, heap, dir, dir.Nodes()`data, dir.Nodes()`size, fdTable
    {
      && Sane(s.shape) && n !in s.shape.tree.kids && n !in s.files && n.children !in s.shape.owner
      && n.name == m.name && n.isDir == m.isDir && n.children.Length == (if m.table != 0 then MAX_CHILDREN else 0)
      && Loose(dir.shape.tree, n)
      && State() == FsState(EnteredShape(s.shape, n), s.files[n := m.held], m.blocks, s.fds)
    }

    /** The call of `fs_add_child` that ends every creation. */
    method Place(p: FSNode, n: FSNode, ghost s: FsState, ghost m: Making) returns (stuck: bool)
      requires Valid() && InHand(s, m, n) && p in s.shape.tree.kids && p.isDir
      modifies dir`shape, dir.Nodes()`childCount, n`parent, dir.Tables()
      ensures Valid() && (stuck <==> !Tabled(s.shape, p))
      ensures stuck ==> dir.shape == old(dir.shape)
      ensures !stuck ==> MadeBy(s, p, m, State(), n)
    {
      hide Sane, Labelled, Spells, Files, Loose, EnteredShape, AppendedShape, PlacedShape;
      PlacedFacts(s.shape, p, n);
      TabledIff(p);
      if !HasTable(p) { return true; }
      PutNew(p, n, s.shape);
      stuck := false;
    }

    /** A directory, as `fs_mkdir` and the shell make it in directory `p`. */
    method AddDirectory(p: FSNode, name: string) returns (made: FSNode?, stuck: bool)
      requires Valid() && p in dir.Nodes() && p.isDir
      modifies `owner, dir`shape, dir.Nodes()`childCount, dir.Tables(), heap`blocks, heap`contents, heap.mem
      ensures Valid() && (made == null <==> !NodeFits(old(heap.blocks)))
      ensures made == null ==> !stuck && State() == old(State())
      ensures made != null ==> fresh(made) && fresh(made.children) && (stuck <==> !Tabled(old(dir.shape), p))
      ensures stuck ==> dir.shape == EnteredShape(old(dir.shape), made)
      ensures made != null && !stuck ==>
        MadeBy(old(State()), p, DirMaking(old(heap.blocks), Truncated(name)), State(), made)
    {
      hide Sane, Labelled, Spells, Files, EnteredShape, Loose, MadeBy, Tabled, MallocPtr, AfterMalloc;
      FilesFacts();
      ghost var s := State();
      made := CreateNode(name, true);
      if made == null { return null, false; }
      EnteredNodes(s.shape, made);
      stuck := Place(p, made, s, DirMaking(s.blocks, Truncated(name)));
    }

    /** An empty file, as `fs_touch` makes it in directory `p`. */
    method AddEmptyFile(p: FSNode, name: string) returns (made: FSNode?, stuck: bool)
      requires Valid() && p in dir.Nodes() && p.isDir
      modifies `owner, dir`shape, dir.Nodes()`childCount, dir.Tables(), heap`blocks, heap`contents, heap.mem
      ensures Valid() && (made == null <==> !NodeFits(old(heap.blocks)))
      ensures stuck <==> made == null || !Tabled(old(dir.shape), p)
      ensures made != null ==> fresh(made) && fresh(made.children)
      ensures !stuck ==>
        MadeBy(old(State()), p, FileMaking(old(heap.blocks), Truncated(name), TOUCH_SIZE, 0), State(), made)
    {
      hide Sane, Labelled, Spells, Files, EnteredShape, Loose, MadeBy, Tabled, MallocPtr, AfterMalloc;
      FilesFacts();
      ghost var s := State();
      made := MakeFile(name, TOUCH_SIZE);
      if made == null { return null, true; }
      EnteredNodes(s.shape, made);
      assert Zeros(0) == [];
      stuck := Place(p, made, s, FileMaking(s.blocks, Truncated(name), TOUCH_SIZE, 0));
    }

    /** A file of zeros, as the shell makes it in directory `p`. */
    method AddFile(p: FSNode, name: string) returns (made: FSNode?, stuck: bool)
      requires Valid() && p in dir.Nodes() && p.isDir
      modifies `owner, dir`shape, dir.Nodes()`childCount, dir.Tables(), heap`blocks, heap`contents, heap.mem
      ensures Valid() && (made == null <==> !NodeFits(old(heap.blocks)))
      ensures made == null ==> !stuck && State() == old(State())
      ensures made != null ==> fresh(made) && fresh(made.children)
      ensures made != null ==>
        (stuck <==> !Tabled(old(dir.shape), p) || MallocPtr(AfterMalloc(old(heap.blocks), NODE_SIZE), FILE_SIZE) == 0)
      ensures stuck ==> dir.shape == EnteredShape(old(dir.shape), made)
      ensures made != null && !stuck ==>
        MadeBy(old(State()), p, FileMaking(old(heap.blocks), Truncated(name), FILE_SIZE, FILE_SIZE), State(), made)
    {
      hide Sane, Labelled, Spells, Files, EnteredShape, Loose, MadeBy, Tabled, MallocPtr, AfterMalloc;
      FilesFacts();
      ghost var s := State();
      made := MakeClearedFile(name, FILE_SIZE);
      if made == null { return null, false; }
      if made.data == 0 { return made, true; }
      EnteredNodes(s.shape, made);
      stuck := Place(p, made, s, FileMaking(s.blocks, Truncated(name), FILE_SIZE, FILE_SIZE));
    }

    /** `fs_mkdir`. */
    method Mkdir(path: string) returns (r: FSNode?, stuck: bool)
      requires Valid() && PathFits(path)
      modifies `owner, dir`shape, dir.Nodes()`childCount, dir.Tables(), heap`blocks, heap`contents, heap.mem
      ensures Valid() && (stuck <==> Wedged(old(State()), OpMkdir(path)))
      ensures !stuck ==> Created(OpMkdir(path), r)
      ensures !stuck && r != null ==>
        var p := LookupDir(old(dir.shape), Split(path).0);
        p.Some? && NewDirectory(old(State()), p.value, Split(path).1, State(), r)
    {
      hide Sane, Labelled, Spells, Files, MadeBy, Tabled, Split, MallocPtr, AfterMalloc, EnteredShape;
      hide NewDirectory, NewFile;
      var p, name := FindParent(path);
      if p == null { return null, false; }
      var full := p.childCount >= MAX_CHILDREN;
      ghost var s := State();
      r, stuck := AddDirectory(p, name);
      if r == null {
        stuck := !full;
      } else if !stuck {
        PathMeans(s, path, State(), r);
      }
    }

    /** `fs_touch`. */
    method Touch(path: string) returns (r: FSNode?, stuck: bool)
      requires Valid() && PathFits(path)
      modifies `owner, dir`shape, dir.Nodes()`childCount, dir.Tables(), heap`blocks, heap`contents, heap.mem
      ensures Valid() && (stuck <==> Wedged(old(State()), OpTouch(path)))
      ensures !stuck ==> Created(OpTouch(path), r)
      ensures !stuck && r != null ==>
        var p := LookupDir(old(dir.shape), Split(path).0);
        p.Some? && NewFile(old(State()), p.value, Split(path).1, 1024, 0, State(), r)
    {
      hide Sane, Labelled, Spells, Files, MadeBy, Tabled, Split, MallocPtr, AfterMalloc, EnteredShape;
      hide NewDirectory, NewFile;
      var p, name := FindParent(path);
      if p == null { return null, false; }
      ghost var s := State();
      r, stuck := AddEmptyFile(p, name);
      if r != null && !stuck { PathMeans(s, path, State(), r); }
    }

    /** The node `r` is what `op` was to make where it was to be made; NULL, with no change, means that
        the path led to no directory, or that there was no block for a node. */
    twostate predicate Created(op: FsOp, new r: FSNode?)
      requires op.OpTouch? || op.OpMkdir? || op.OpAddFile? || op.OpAddDirectory?
      requires old(AllStored()) && old(Sane(dir.shape)) && AllStored()
      reads this, heap, dir, dir.Nodes()`data, dir.Nodes()`size, fdTable
    {
      var p := FsSteps.Place(old(dir.shape), op);
      && (r == null <==> p.None? || !NodeFits(old(heap.blocks)))
      && (r == null ==> State() == old(State()))
      && (r != null ==> fresh(r) && fresh(r.children) &&
                        MadeBy(old(State()), p.value, Product(old(heap.blocks), op), State(), r))
    }

    // ------------------------------------------------------------- descriptors

    /** `fs_open`: the lowest free descriptor, if there is one. */
    method Open(node: FSNode) returns (fd: int)
      requires Valid() && node in dir.Nodes()
      modifies fdTable
      ensures Valid()
      ensures var k := FirstUnused(old(fdTable[..]), 0);
        if k == MAX_OPEN_FILES then fd == -1 && fdTable[..] == old(fdTable[..])
        else fd == k && fdTable[..] == old(fdTable[..])[k := FileDescriptor(node, 0, true)]
    {
      hide Sane, Labelled, Spells, Storage;
      ghost var fds := fdTable[..];
      for i := 0 to MAX_OPEN_FILES
        invariant fdTable[..] == fds && FirstUnused(fds, 0) == FirstUnused(fds, i)
      {
        if !fdTable[i].used {
          fdTable[i] := FileDescriptor(node, 0, true);
          return i;
        }
      }
      fd := -1;
    }

    /** `fs_close`. */
    method Close(fd: int)
      requires Valid()
      modifies fdTable
      ensures Valid()
      ensures fdTable[..] == if 0 <= fd < MAX_OPEN_FILES then old(fdTable[..])[fd := old(fdTable[fd]).(used := false)]
                             else old(fdTable[..])
    {
      hide Sane, Labelled, Spells, Storage;
      if 0 <= fd < MAX_OPEN_FILES && fdTable[fd].used {
        fdTable[fd] := fdTable[fd].(used := false);
      }
    }

    // ------------------------------------------------------------- system calls

    /** Descriptor `fd` is open. */
    predicate IsOpen(fd: int)
      requires fdTable.Length == MAX_OPEN_FILES
      reads fdTable
    {
      0 <= fd < MAX_OPEN_FILES && fdTable[fd].used
    }

    /** `sys_open`. */
    method SysOpen(path: string) returns (fd: int)
      requires Valid() && ComponentsFit(path)
      modifies fdTable
      ensures Valid() && OpenStep(old(State()), path, State())
      ensures var k := FirstUnused(old(fdTable[..]), 0);
        fd == if Lookup(dir.shape, path) == None || k == MAX_OPEN_FILES then -1 else k
      ensures fd == -1 <==>
              Lookup(dir.shape, path) == None ||
              (fdTable.Length == 64 && forall i :: 0 <= i < 64 ==> old(fdTable[i].used))
      ensures fd == -1 ==> fdTable[..] == old(fdTable[..])
      ensures fd != -1 ==>
        && 0 <= fd < MAX_OPEN_FILES && !old(fdTable[fd].used) && Lookup(dir.shape, path).Some?
        && fdTable[fd] == FileDescriptor(Lookup(dir.shape, path).value, 0, true)
        && forall i :: 0 <= i < MAX_OPEN_FILES && i != fd ==> fdTable[i] == old(fdTable[i])
    {
      hide Sane, Labelled, Spells, FindClosed, Files;
      FilesFacts();
      var node := dir.FindByPath(path);
      if node == null { return -1; }
      fd := Open(node);
    }

    /** `sys_read`: no call ever moves an offset, so every read starts at the front of the file. */
    method SysRead(fd: int, size: nat, buffer: array<byte>) returns (r: int)
      requires Valid() && size < 0x1_0000_0000 && size <= buffer.Length && buffer != heap.mem
      modifies buffer
      ensures Valid()
      ensures r == -1 <==> !IsOpen(fd) || fdTable[fd].node.isDir
      ensures r != -1 ==>
        && fdTable[fd].node in Files()
        && var s := Files()[fdTable[fd].node].bytes;
           r == (if size < |s| then size else |s|) && buffer[..r] == s[..r] && buffer[r..] == old(buffer[..])[r..]
      ensures r == -1 ==> buffer[..] == old(buffer[..])
    {
      hide Sane, Labelled, Spells, Files;
      if fd < 0 || fd >= MAX_OPEN_FILES || !fdTable[fd].used { return -1; }
      FilesFacts();
      r := Read(fdTable[fd].node, fdTable[fd].offset, size, buffer);
    }

    /** `sys_write`: at the front of the file, for the same reason. */
    method SysWrite(fd: int, data: seq<byte>) returns (r: int)
      requires Valid() && |data| <= 0xFFFF_FFF0
      modifies `owner, dir.Nodes()`data, dir.Nodes()`size, heap`blocks, heap`contents, heap.mem
      ensures Valid()
      ensures if !IsOpen(fd) || fdTable[fd].node.isDir then
                r == -1 && Files() == old(Files()) && heap.blocks == old(heap.blocks)
              else WriteOutcome(old(heap.blocks), old(Files()), heap.blocks, Files(), fdTable[fd].node, 0, data, r)
    {
      hide Sane, Labelled, Spells, WriteOutcome, Files;
      if fd < 0 || fd >= MAX_OPEN_FILES || !fdTable[fd].used { return -1; }
      r := Write(fdTable[fd].node, fdTable[fd].offset, data);
    }

    /** What was written through a descriptor is what the same descriptor reads next. */
    method ReadBack(fd: int, data: seq<byte>, buffer: array<byte>) returns (written: int, r: int)
      requires Valid() && |data| <= 0xFFFF_FFF0 && |data| <= buffer.Length && buffer != heap.mem
      modifies `owner, dir.Nodes()`data, dir.Nodes()`size, heap`blocks, heap`contents, heap.mem, buffer
      ensures Valid()
      ensures written == -1 <==> !IsOpen(fd) || fdTable[fd].node.isDir
                                 || (fdTable[fd].node in old(Files()) &&
                                     Refuses(old(heap.blocks), old(Files())[fdTable[fd].node], |data|))
      ensures written != -1 ==> written == |data| && r == |data| && buffer[..r] == data
    {
      hide Sane, Labelled, Spells, Files;
      FilesFacts();
      written := SysWrite(fd, data);
      r := SysRead(fd, |data|, buffer);
    }

    /** `sys_close`. */
    method SysClose(fd: int)
      requires Valid()
      modifies fdTable
      ensures Valid() && !IsOpen(fd)
      ensures fdTable[..] == if 0 <= fd < MAX_OPEN_FILES then old(fdTable[..])[fd := old(fdTable[fd]).(used := false)]
                             else old(fdTable[..])
    {
      Close(fd);
    }
  }

  /** All blocks in use but the exempt ones keep their use and their bytes. */
  ghost predicate Preserved(owner: map<nat, Use>, c: map<nat, seq<byte>>,
                            owner': map<nat, Use>, c': map<nat, seq<byte>>, exempt: set<Use>) {
    && owner.Keys <= c.Keys && owner'.Keys <= c'.Keys
    && forall p :: p in owner && owner[p] !in exempt ==>
         p in owner' && owner'[p] == owner[p] && c'[p] == c[p]
  }

  lemma PreservedSame(owner: map<nat, Use>, c: map<nat, seq<byte>>, exempt: set<Use>)
    requires owner.Keys <= c.Keys
    ensures Preserved(owner, c, owner, c, exempt)
  {
  }

  lemma PreservedFurther(owner: map<nat, Use>, c: map<nat, seq<byte>>, owner': map<nat, Use>, c': map<nat, seq<byte>>,
                         c'': map<nat, seq<byte>>, exempt: set<Use>)
    requires Preserved(owner, c, owner', c', exempt) && Preserved(owner', c', owner', c'', exempt)
    ensures Preserved(owner, c, owner', c'', exempt)
  {
  }

  lemma NothingWritten(b: seq<byte>, offset: nat)
    requires offset <= |b|
    ensures Written(b, b, offset, [])
  {
  }

  /** Growing first and writing then is one write. */
  lemma WrittenGrown(before: seq<byte>, grown: seq<byte>, after: seq<byte>, offset: nat, d: seq<byte>)
    requires before <= grown && Written(grown, after, offset, d)
    requires |grown| == if offset + |d| > |before| then offset + |d| else |before|
    ensures Written(before, after, offset, d)
  {
  }

  /** Growing a file in place or into a new block leaves all other blocks in use. */
  lemma GrowthPreserves(owner: map<nat, Use>, c: map<nat, seq<byte>>, c': map<nat, seq<byte>>, file: FSNode,
                        d: nat, p: nat)
    requires owner.Keys <= c.Keys && 0 !in c && (d != 0 ==> d in owner && owner[d] == Data(file))
    requires if p == 0 || p == d then c' == c else Heap.Moved(c, c', d, p)
    ensures p == 0 ==> Preserved(owner, c, owner, c', {Data(file)})
    ensures p != 0 ==> Preserved(owner, c, (owner - {d})[p := Data(file)], c', {Data(file)})
  {
  }

  /** What `fs_read` copies from an offset inside the file; the bound test adds in 32 bits. */
  function CutSize(fileSize: nat, offset: u32, size: u32): nat
    requires offset <= fileSize
  {
    if (offset + size) % 0x1_0000_0000 > fileSize then fileSize - offset else size
  }

  /** The copy stays inside the file exactly when that sum does not wrap. */
  lemma CutIsRightIff(fileSize: nat, offset: u32, size: u32)
    requires offset <= fileSize
    ensures offset + size < 0x1_0000_0000 ==>
              CutSize(fileSize, offset, size) == if offset + size > fileSize then fileSize - offset else size
    ensures fileSize < 0x1_0000_0000 ==>
              (offset + CutSize(fileSize, offset, size) <= fileSize <==> offset + size < 0x1_0000_0000)
  {
  }

  lemma PatchedPrefix(s: seq<byte>, off: nat, d: seq<byte>, size: nat)
    requires off + |d| <= size <= |s|
    ensures Written(s[..size], Patch(s, off, d)[..size], off, d)
  {
    var r := Patch(s, off, d)[..size];
    assert forall k :: 0 <= k < |d| ==> r[off + k] == d[k];
    assert r[off..off + |d|] == d;
  }

  /** A directory that is not full has a table to put children in. */
  predicate HasTable(p: FSNode)
    reads p`childCount
  {
    p.isDir && p.childCount < MAX_CHILDREN ==> p.children.Length == MAX_CHILDREN
  }

  ghost predicate NewlyMade(n: FSNode, name: string, isDir: bool)
    reads n`childCount, n`parent, n`data, n`size
  {
    && n.name == Truncated(name) && n.isDir == isDir && (!isDir ==> n.table == 0)
    && n.childCount == 0 && n.parent == null && n.data == 0 && n.size == 0
    && n.children.Length == if n.table != 0 then MAX_CHILDREN else 0
  }

  /** `f` says what `g` holds in the blocks of `c`. */
  ghost predicate AsHeld(g: FSNode, owner: map<nat, Use>, c: map<nat, seq<byte>>, f: map<FSNode, Held>)
    reads g`data, g`size
  {
    && g in f && Stored(g, g.data, g.size, owner, c)
    && f[g] == Held(g.data, if g.data == 0 then [] else c[g.data][..g.size])
  }

  /** Nothing that was live changed, and the blocks of `n` are new. */
  ghost predicate NewBlocks(n: FSNode, c: map<nat, seq<byte>>, c': map<nat, seq<byte>>) {
    && (forall p :: p in c ==> p in c' && c'[p] == c[p])
    && n.addr in c' && n.addr !in c
    && (n.table != 0 ==> n.table in c' && n.table !in c && n.table != n.addr)
  }

  /** The owners after `n` has been given its blocks. */
  ghost function Claimed(owner: map<nat, Use>, n: FSNode): map<nat, Use> {
    var o := owner[n.addr := Struct(n)];
    if n.table != 0 then o[n.table := Table(n)] else o
  }

  lemma ClaimedPreserves(owner: map<nat, Use>, c: map<nat, seq<byte>>, c': map<nat, seq<byte>>, n: FSNode)
    requires owner.Keys <= c.Keys && NewBlocks(n, c, c') && |n.name| < NAME_SIZE
    ensures Preserved(owner, c, Claimed(owner, n), c', {Data(n)}) && Stored(n, 0, 0, Claimed(owner, n), c')
  {
  }
}
