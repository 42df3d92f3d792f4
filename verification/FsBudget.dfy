/** What file operations cost in heap memory: a bound that the start of a run decides. */
module FsBudget {
  import opened Machine
  import opened Options
  import opened HeapLayout
  import opened HeapRoom
  import opened FileTree
  import opened Nodes
  import opened FsSteps
  import opened RamFs
  import Heap

  /** Kept free at the end of the heap, a directory or file of the shell can still be made. */
  const RESERVE := 512

  /** At most what the operation takes from the heap. */
  function Cost(op: FsOp): nat {
    match op
    case OpTouch(_) => Need(NODE_SIZE) + Need(TOUCH_SIZE)
    case OpMkdir(_) => Need(NODE_SIZE) + Need(TABLE_SIZE)
    case OpAddFile(_, _) => Need(NODE_SIZE) + Need(FILE_SIZE)
    case OpAddDirectory(_, _) => Need(NODE_SIZE) + Need(TABLE_SIZE)
    case OpWrite(_, offset, data) => Need(offset + |data|)
    case OpSysWrite(_, data) => Need(|data|)
    case _ => 0
  }

  function Budget(ops: seq<FsOp>): nat {
    if ops == [] then 0 else Budget(ops[..|ops| - 1]) + Cost(ops[|ops| - 1])
  }

  lemma {:induction false} BudgetMonotone(ops: seq<FsOp>, i: nat)
    requires i <= |ops|
    ensures Budget(ops[..i]) <= Budget(ops)
  {
    if i == |ops| {
      assert ops[..i] == ops;
    } else {
      BudgetMonotone(ops[..|ops| - 1], i);
      assert ops[..|ops| - 1][..i] == ops[..i];
    }
  }

  lemma BudgetNext(ops: seq<FsOp>, i: nat)
    requires i < |ops|
    ensures Budget(ops[..i + 1]) == Budget(ops[..i]) + Cost(ops[i])
  {
    assert ops[..i + 1][..i] == ops[..i];
  }

  lemma SpareIsRoomy(bs: seq<Block>)
    requires Spare(bs) >= RESERVE
    ensures Roomy(bs)
  {
    hide Spare, AfterMalloc, MallocIndex, MallocPtr;
    MallocSpare(bs, NODE_SIZE);
    MallocSpare(AfterMalloc(bs, NODE_SIZE), TABLE_SIZE);
    MallocSpare(AfterMalloc(bs, NODE_SIZE), FILE_SIZE);
  }

  /** A node and `k` bytes with it. */
  lemma TwoBlocks(bs: seq<Block>, k: u32)
    requires 0 < k && Spare(bs) >= Need(NODE_SIZE) + Need(k) + RESERVE
    ensures NodeFits(bs)
    ensures Spare(AfterMalloc(AfterMalloc(bs, NODE_SIZE), k)) >= Spare(bs) - Need(NODE_SIZE) - Need(k)
  {
    hide Spare, AfterMalloc, MallocIndex, MallocPtr;
    MallocSpare(bs, NODE_SIZE);
    MallocSpare(AfterMalloc(bs, NODE_SIZE), k);
  }

  /** A write that the end of the heap can serve is not refused. */
  lemma WriteSpare(bs: seq<Block>, h: Held, n: u32)
    requires Spare(bs) >= Need(n) + RESERVE
    ensures !Refuses(bs, h, n) && Spare(AfterWrite(bs, h, n)) >= Spare(bs) - Need(n)
  {
    hide Spare, AfterMalloc, AfterFree, MallocIndex, MallocPtr;
    if n > 0 {
      MallocSpare(bs, n);
      FreeSpare(AfterMalloc(bs, n), h.data);
    }
  }

  /** A step takes at most its cost. */
  lemma StepSpare(s: FsState, op: FsOp, s': FsState)
    requires Consistent(s) && WellFormedOp(op) && Step(s, op, s') && Spare(s.blocks) >= Cost(op) + RESERVE
    ensures Spare(s'.blocks) >= Spare(s.blocks) - Cost(op)
  {
    hide Spare, Sane, Wedged, Place, Lookup, AfterMalloc, MallocPtr, Refuses, Need, PlacedShape;
    match op
    case OpWrite(_, _, _) => WriteStepSpare(s, op, s');
    case OpSysWrite(_, _) => WriteStepSpare(s, op, s');
    case OpOpen(_) =>
    case OpClose(_) =>
    case OpRemove(_, _) =>
    case _ => MakeStepSpare(s, op, s');
  }

  lemma WriteStepSpare(s: FsState, op: FsOp, s': FsState)
    requires Sane(s.shape) && WellFormedOp(op) && WriteStep(s, op, s') && Spare(s.blocks) >= Cost(op) + RESERVE
    ensures Spare(s'.blocks) >= Spare(s.blocks) - Cost(op)
  {
    hide Spare, Sane, Lookup, Refuses, Need, AfterWrite;
    var a := Attempted(s, op);
    if a.Some? {
      var w := a.value;
      var r :| WriteOutcome(s.blocks, s.files, s'.blocks, s'.files, w.file, w.offset, w.data, r);
      WriteSpare(s.blocks, s.files[w.file], w.offset + |w.data|);
    }
  }

  lemma MakeStepSpare(s: FsState, op: FsOp, s': FsState)
    requires Sane(s.shape) && (op.OpTouch? || op.OpMkdir? || op.OpAddFile? || op.OpAddDirectory?)
    requires MakeStep(s, op, s') && Spare(s.blocks) >= Cost(op) + RESERVE
    ensures Spare(s'.blocks) >= Spare(s.blocks) - Cost(op)
  {
    hide Spare, Sane, Place, AfterMalloc, MallocPtr, PlacedShape;
    match op
    case OpTouch(_) => TwoBlocks(s.blocks, TOUCH_SIZE);
    case OpMkdir(_) => TwoBlocks(s.blocks, TABLE_SIZE);
    case OpAddFile(_, _) => TwoBlocks(s.blocks, FILE_SIZE);
    case OpAddDirectory(_, _) => TwoBlocks(s.blocks, TABLE_SIZE);
  }

  /** What is left for operations after `fs_init` on a fresh heap. */
  const BOOT_BUDGET := HEAP_SIZE - 1024

  lemma BootSpare()
    ensures var bs := [Block(HEAP_SIZE - HEADER, true)];
      && MallocPtr(bs, NODE_SIZE) != 0 && MallocPtr(AfterMalloc(bs, NODE_SIZE), TABLE_SIZE) != 0
      && Spare(AfterNode(bs, true)) >= BOOT_BUDGET + RESERVE
  {
    var bs := [Block(HEAP_SIZE - HEADER, true)];
    assert Spare(bs) == HEAP_SIZE - HEADER;
    hide Spare, AfterMalloc, MallocIndex, MallocPtr;
    MallocSpare(bs, NODE_SIZE);
    MallocSpare(AfterMalloc(bs, NODE_SIZE), TABLE_SIZE);
  }

  /** `init_heap` and `fs_init`: on a fresh heap the file system always comes up, with a table for the
      root and with room. */
  method Boot(heap: Heap.Heap) returns (fs: RamFs)
    requires HEAP_END <= heap.mem.Length < 0x1_0000_0000
    modifies heap, heap.mem
    ensures fs.Valid() && fs.heap == heap && fresh(fs) && fresh(fs.dir) && fresh(fs.fdTable)
    ensures fresh(fs.dir.Nodes()) && fresh(fs.dir.Tables())
    ensures Booted(fs.State(), fs.dir.root, [Block(HEAP_SIZE - HEADER, true)])
    ensures AllTabled(fs.dir.shape) && Spare(fs.heap.blocks) >= BOOT_BUDGET + RESERVE
  {
    hide MallocPtr, AfterMalloc, AfterNode, Spare, AllTabled, Sane, RamFs.Files;
    heap.Init();
    BootSpare();
    var booted := RamFs.Init(heap);
    fs := booted;
  }
}
