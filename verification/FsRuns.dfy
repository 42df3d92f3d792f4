/** Runs of the RAM file system: files do not interfere. */
module FsRuns {
  import opened Machine
  import opened Options
  import opened HeapLayout
  import opened FileTree
  import opened Paths
  import opened Nodes
  import opened FsSteps
  import opened RamFs
  import opened HeapRoom
  import opened FsBudget
  import Heap

  // ---------------------------------------------------------------- traces

  ghost predicate IsTrace(trace: seq<FsState>, ops: seq<FsOp>) {
    && |trace| == |ops| + 1 && (forall i :: 0 <= i < |ops| ==> WellFormedOp(ops[i]))
    && (forall i :: 0 <= i < |trace| ==> Consistent(trace[i]))
    && (forall i :: 0 <= i < |ops| ==> Step(trace[i], ops[i], trace[i + 1]))
  }

  /** The operation attempts a write to `g`, by path or through a descriptor. */
  ghost predicate Targets(s: FsState, op: FsOp, g: FSNode)
    requires Consistent(s)
  {
    Attempted(s, op).Some? && Attempted(s, op).value.file == g
  }

  /** A node holds the same before and after every step that does not write to it. */
  lemma UntargetedKeeps(s: FsState, op: FsOp, s': FsState, g: FSNode)
    requires Consistent(s) && WellFormedOp(op) && Step(s, op, s') && g in s.files && !Targets(s, op, g)
    ensures g in s'.files && s'.files[g] == s.files[g]
  {
  }

  /** In every run, whatever else is created, written, opened or removed, a node holds to the end what
      it held after the last write that was addressed to it. */
  lemma {:induction false} RunsDoNotInterfere(trace: seq<FsState>, ops: seq<FsOp>, from: nat, g: FSNode)
    requires IsTrace(trace, ops) && from < |trace| && g in trace[from].files
    requires forall i :: from <= i < |ops| ==> !Targets(trace[i], ops[i], g)
    ensures g in trace[|ops|].files && trace[|ops|].files[g] == trace[from].files[g]
    decreases |trace| - from
  {
    hide Consistent, Step, Targets;
    if from < |ops| {
      assert !Targets(trace[from], ops[from], g);
      UntargetedKeeps(trace[from], ops[from], trace[from + 1], g);
      RunsDoNotInterfere(trace, ops, from + 1, g);
    }
  }

  lemma AttemptedWithin(s: FsState, op: FsOp)
    requires Consistent(s) && WellFormedOp(op) && Attempted(s, op).Some?
    ensures var w := Attempted(s, op).value;
      w.file in s.files && w.offset + |w.data| <= 0xFFFF_FFF0 && Cost(op) == Need(w.offset + |w.data|)
  {
    hide Sane, Lookup, Need;
    match op
    case OpWrite(path, _, _) => LookupWithin(s.shape, path);
    case OpSysWrite(_, _) =>
  }

  /** The operation attempts a write that is refused for want of memory. */
  ghost predicate Denied(s: FsState, op: FsOp)
    requires Sane(s.shape)
  {
    match Attempted(s, op)
    case None => false
    case Some(w) =>
      w.file in s.files && w.offset + |w.data| <= 0xFFFF_FFF0 && Refuses(s.blocks, s.files[w.file], w.offset + |w.data|)
  }

  /** A write that is not refused puts its bytes where they belong. */
  lemma WriteStands(s: FsState, op: FsOp, s': FsState)
    requires Consistent(s) && WellFormedOp(op) && Step(s, op, s') && Attempted(s, op).Some?
    ensures var w := Attempted(s, op).value;
      && w.file in s.files && w.file in s'.files
      && if Denied(s, op) then s' == s else Written(s.files[w.file].bytes, s'.files[w.file].bytes, w.offset, w.data)
  {
    hide Consistent, Step, WriteOutcome, Refuses, Written, Attempted, Denied;
    var w, r := StepOutcome(s, op, s');
    OutcomeStands(s.blocks, s.files, s'.blocks, s'.files, w.file, w.offset, w.data, r);
  }

  lemma AttemptsWrite(s: FsState, op: FsOp, s': FsState)
    requires Consistent(s) && WellFormedOp(op) && Step(s, op, s') && Attempted(s, op).Some?
    ensures WriteStep(s, op, s')
  {
    hide Sane, Wedged, WriteStep, MakeStep, RemoveStep, OpenStep;
  }

  lemma StepOutcome(s: FsState, op: FsOp, s': FsState) returns (w: Attempt, r: int)
    requires Consistent(s) && WellFormedOp(op) && Step(s, op, s') && Attempted(s, op).Some?
    ensures Attempted(s, op) == Some(w) && w.file in s.files && w.offset + |w.data| <= 0xFFFF_FFF0
    ensures s' == s.(files := s'.files, blocks := s'.blocks)
    ensures WriteOutcome(s.blocks, s.files, s'.blocks, s'.files, w.file, w.offset, w.data, r)
    ensures Denied(s, op) <==> Refuses(s.blocks, s.files[w.file], w.offset + |w.data|)
  {
    AttemptsWrite(s, op, s');
    AttemptedWithin(s, op);
    hide Consistent, Step, WriteOutcome, Refuses, Sane, Attempted, Cost, Need, WellFormedOp, WriteStep, Denied;
    w := Attempted(s, op).value;
    r := OutcomeOf(s, op, s', w);
    DeniedIs(s, op, w);
  }

  lemma OutcomeOf(s: FsState, op: FsOp, s': FsState, w: Attempt) returns (r: int)
    requires Sane(s.shape) && WellFormedOp(op) && WriteStep(s, op, s') && Attempted(s, op) == Some(w)
    ensures w.offset + |w.data| <= 0xFFFF_FFF0 && s' == s.(files := s'.files, blocks := s'.blocks)
    ensures WriteOutcome(s.blocks, s.files, s'.blocks, s'.files, w.file, w.offset, w.data, r)
  {
    hide Sane, WriteOutcome, Lookup;
    r :| WriteOutcome(s.blocks, s.files, s'.blocks, s'.files, w.file, w.offset, w.data, r);
  }

  lemma DeniedIs(s: FsState, op: FsOp, w: Attempt)
    requires Sane(s.shape) && Attempted(s, op) == Some(w) && w.file in s.files && w.offset + |w.data| <= 0xFFFF_FFF0
    ensures Denied(s, op) <==> Refuses(s.blocks, s.files[w.file], w.offset + |w.data|)
  {
    hide Sane, Attempted, Refuses;
  }

  lemma OutcomeStands(bs: seq<Block>, f: map<FSNode, Held>, bs': seq<Block>, f': map<FSNode, Held>,
                      file: FSNode, offset: nat, data: seq<byte>, r: int)
    requires offset + |data| <= 0xFFFF_FFF0 && WriteOutcome(bs, f, bs', f', file, offset, data, r)
    ensures file in f && file in f'
    ensures if Refuses(bs, f[file], offset + |data|) then bs' == bs && f' == f
            else Written(f[file].bytes, f'[file].bytes, offset, data)
  {
  }

  /** So the bytes of the last write addressed to a node stand there at the end of the run, exactly if
      the write was not refused for want of memory. */
  lemma LastWriteStands(trace: seq<FsState>, ops: seq<FsOp>, k: nat)
    requires IsTrace(trace, ops) && k < |ops| && Attempted(trace[k], ops[k]).Some?
    requires forall i :: k < i < |ops| ==> !Targets(trace[i], ops[i], Attempted(trace[k], ops[k]).value.file)
    ensures var w := Attempted(trace[k], ops[k]).value;
      && w.file in trace[k].files && w.file in trace[|ops|].files
      && if Denied(trace[k], ops[k]) then trace[|ops|].files[w.file] == trace[k].files[w.file]
         else Written(trace[k].files[w.file].bytes, trace[|ops|].files[w.file].bytes, w.offset, w.data)
  {
    hide Sane, Step, Targets, Written, Denied;
    WriteStands(trace[k], ops[k], trace[k + 1]);
    RunsDoNotInterfere(trace, ops, k + 1, Attempted(trace[k], ops[k]).value.file);
  }

  /** The operation asks for `data` at `offset` of `f`: by a path that leads to it, or at the front through a
      descriptor open on it. */
  ghost predicate Addresses(s: FsState, op: FsOp, f: FSNode, offset: nat, data: seq<byte>)
    requires Sane(s.shape)
  {
    match op
    case OpWrite(path, o, d) => o == offset && d == data && Lookup(s.shape, path) == Some(f)
    case OpSysWrite(fd, d) =>
      offset == 0 && d == data && 0 <= fd < |s.fds| && s.fds[fd].used && s.fds[fd].node == f
    case _ => false
  }

  lemma AddressesIff(s: FsState, op: FsOp, w: Attempt)
    requires Sane(s.shape)
    ensures Attempted(s, op) == Some(w) <==> Addresses(s, op, w.file, w.offset, w.data) && !w.file.isDir
  {
    hide Sane, Lookup;
  }

  /** The bytes such an operation asks for stand in the file at the end of the run, and all others are as they
      were, if no later operation writes to the file and the write was not refused. */
  lemma AddressedWriteStands(trace: seq<FsState>, ops: seq<FsOp>, k: nat, f: FSNode, offset: nat, data: seq<byte>)
    requires IsTrace(trace, ops) && k < |ops| && Addresses(trace[k], ops[k], f, offset, data) && !f.isDir
    requires forall i :: k < i < |ops| ==> !Targets(trace[i], ops[i], f)
    requires !Denied(trace[k], ops[k])
    ensures f in trace[k].files && f in trace[|ops|].files
    ensures var b, b' := trace[k].files[f].bytes, trace[|ops|].files[f].bytes;
      && |b'| == (if offset + |data| > |b| then offset + |data| else |b|)
      && (forall i :: 0 <= i < |data| ==> b'[offset + i] == data[i])
      && (forall i :: 0 <= i < |b| && !(offset <= i < offset + |data|) ==> b'[i] == b[i])
  {
    hide Sane, Step, Targets, Denied, Lookup;
    AddressesIff(trace[k], ops[k], Attempt(f, offset, data));
    hide Attempted, Addresses;
    LastWriteStands(trace, ops, k);
    var b' := trace[|ops|].files[f].bytes;
    forall i | 0 <= i < |data| ensures b'[offset + i] == data[i] {
      assert b'[offset..offset + |data|][i] == data[i];
    }
  }

  /** Entry `fd` of the descriptor table. */
  function Entry(s: FsState, fd: nat): FileDescriptor {
    if fd < |s.fds| then s.fds[fd] else FileDescriptor(null, 0, false)
  }

  lemma DescriptorStep(s: FsState, op: FsOp, s': FsState, fd: nat)
    requires Consistent(s) && WellFormedOp(op) && Step(s, op, s') && Entry(s, fd).used && op != OpClose(fd)
    ensures Entry(s', fd) == Entry(s, fd)
  {
    hide Sane, Wedged, WriteOutcome, PlacedShape, FindClosed, Removed;
  }

  /** A descriptor reaches its file until it is closed, whether the file is removed or shadowed by a
      namesake meanwhile. */
  lemma {:induction false} DescriptorOutlives(trace: seq<FsState>, ops: seq<FsOp>, k: nat, j: nat, fd: nat)
    requires IsTrace(trace, ops) && k <= j <= |ops| && Entry(trace[k], fd).used
    requires forall i :: k <= i < j ==> ops[i] != OpClose(fd)
    ensures Entry(trace[j], fd) == Entry(trace[k], fd)
    decreases j
  {
    hide Step, Sane, Entry;
    if k < j {
      DescriptorOutlives(trace, ops, k, j - 1, fd);
      assert Step(trace[j - 1], ops[j - 1], trace[j - 1 + 1]);
      DescriptorStep(trace[j - 1], ops[j - 1], trace[j], fd);
    }
  }

  // ---------------------------------------------------------------- runs that are never stuck

  lemma StepKeepsTables(s: FsState, op: FsOp, s': FsState)
    requires Consistent(s) && WellFormedOp(op) && Step(s, op, s') && AllTabled(s.shape) && Roomy(s.blocks)
    ensures AllTabled(s'.shape)
  {
    hide Sane, Roomy, Wedged, WriteOutcome, PlacedShape, Removed, FindClosed;
    match op
    case OpOpen(_) =>
    case OpClose(_) =>
    case OpWrite(_, _, _) =>
    case OpSysWrite(_, _) =>
    case OpRemove(parent, child) =>
      var p, c := Lookup(s.shape, parent), Lookup(s.shape, child);
      if s' != s {
        LookupWithin(s.shape, child);
        RemovedNodes(s.shape, p.value, c.value);
      }
    case _ =>
      MakingKeepsTables(s, op, s');
  }

  lemma MakingKeepsTables(s: FsState, op: FsOp, s': FsState)
    requires Sane(s.shape) && (op.OpTouch? || op.OpMkdir? || op.OpAddFile? || op.OpAddDirectory?)
    requires MakeStep(s, op, s') && AllTabled(s.shape) && Roomy(s.blocks)
    ensures AllTabled(s'.shape)
  {
    hide Sane, FindClosed, Makes, AllTabled, MallocPtr, AfterMalloc;
    var p, m := FsSteps.Place(s.shape, op), Product(s.blocks, op);
    if p.Some? { MakesKeepsTables(s, p.value, m, s'); }
  }

  /** While node allocations succeed, no operation goes through a NULL pointer. */
  lemma {:induction false} RoomyRunsGoOn(trace: seq<FsState>, ops: seq<FsOp>, i: nat, op: FsOp)
    requires IsTrace(trace, ops) && i <= |ops| && AllTabled(trace[0].shape)
    requires forall j :: 0 <= j <= i ==> Roomy(trace[j].blocks)
    ensures AllTabled(trace[i].shape) && !Wedged(trace[i], op)
    decreases i
  {
    hide Step, Sane, Roomy;
    if i > 0 {
      RoomyRunsGoOn(trace, ops, i - 1, op);
      assert Step(trace[i - 1], ops[i - 1], trace[i - 1 + 1]);
      StepKeepsTables(trace[i - 1], ops[i - 1], trace[i]);
    }
    RoomyStepGoesOn(trace[i], op);
  }

  lemma RoomyStepGoesOn(s: FsState, op: FsOp)
    requires Sane(s.shape) && AllTabled(s.shape) && Roomy(s.blocks)
    ensures !Wedged(s, op)
  {
  }

  // ---------------------------------------------------------------- runs within a budget

  /** Along a run the free block at the end of the heap shrinks by at most what the operations cost. */
  lemma {:induction false} BudgetHolds(trace: seq<FsState>, ops: seq<FsOp>, i: nat)
    requires IsTrace(trace, ops) && i <= |ops| && AllTabled(trace[0].shape)
    requires Spare(trace[0].blocks) >= Budget(ops[..i]) + RESERVE
    ensures Spare(trace[i].blocks) >= Spare(trace[0].blocks) - Budget(ops[..i])
    ensures AllTabled(trace[i].shape)
    decreases i
  {
    hide Step, Sane, AllTabled, Spare, Budget, Roomy, Cost;
    if i == 0 {
      BudgetMonotone(ops, 0);
    } else {
      BudgetNext(ops, i - 1);
      BudgetHolds(trace, ops, i - 1);
      assert Step(trace[i - 1], ops[i - 1], trace[i - 1 + 1]);
      SpareIsRoomy(trace[i - 1].blocks);
      StepSpare(trace[i - 1], ops[i - 1], trace[i]);
      StepKeepsTables(trace[i - 1], ops[i - 1], trace[i]);
    }
  }

  /** What the start of a run decides: while its operations cost no more than the last free block holds,
      none goes through a NULL pointer, and no write is refused. */
  lemma BudgetedRunsGoOn(trace: seq<FsState>, ops: seq<FsOp>, i: nat, op: FsOp)
    requires IsTrace(trace, ops) && i <= |ops| && WellFormedOp(op) && AllTabled(trace[0].shape)
    requires Spare(trace[0].blocks) >= Budget(ops[..i]) + Cost(op) + RESERVE
    ensures !Wedged(trace[i], op) && !Denied(trace[i], op)
  {
    hide Step, Sane, AllTabled, Spare, Budget, Roomy, Wedged, Denied, WellFormedOp, Cost;
    BudgetHolds(trace, ops, i);
    SpareIsRoomy(trace[i].blocks);
    RoomyStepGoesOn(trace[i], op);
    NotDenied(trace[i], op);
  }

  lemma NotDenied(s: FsState, op: FsOp)
    requires Consistent(s) && WellFormedOp(op) && Spare(s.blocks) >= Cost(op) + RESERVE
    ensures !Denied(s, op)
  {
    hide Sane, Lookup, Attempted, Refuses, Need, Spare, Cost;
    var a := Attempted(s, op);
    if a.Some? {
      AttemptedWithin(s, op);
      WriteSpare(s.blocks, s.files[a.value.file], a.value.offset + |a.value.data|);
    }
  }

  /** So in a run within its budget the bytes of the last write addressed to a node stand at the end. */
  lemma BudgetedWriteStands(trace: seq<FsState>, ops: seq<FsOp>, k: nat)
    requires IsTrace(trace, ops) && k < |ops| && Attempted(trace[k], ops[k]).Some?
    requires AllTabled(trace[0].shape) && Spare(trace[0].blocks) >= Budget(ops) + RESERVE
    requires forall i :: k < i < |ops| ==> !Targets(trace[i], ops[i], Attempted(trace[k], ops[k]).value.file)
    ensures var w := Attempted(trace[k], ops[k]).value;
      && w.file in trace[k].files && w.file in trace[|ops|].files
      && Written(trace[k].files[w.file].bytes, trace[|ops|].files[w.file].bytes, w.offset, w.data)
  {
    BudgetNext(ops, k);
    BudgetMonotone(ops, k + 1);
    hide Sane, Step, Targets, Written, Denied, AllTabled, Spare, Budget, Attempted, Wedged, Cost;
    LastWriteStands(trace, ops, k);
    BudgetedRunsGoOn(trace, ops, k, ops[k]);
  }

  // ---------------------------------------------------------------- the real file system

  method ApplyTouch(fs: RamFs, path: string) returns (stuck: bool)
    requires fs.Valid() && PathFits(path)
    modifies fs`owner, fs.dir`shape, fs.dir.Nodes(), fs.dir.Tables(), fs.heap`blocks, fs.heap`contents, fs.heap.mem
    ensures fs.Valid() && (stuck <==> Wedged(old(fs.State()), OpTouch(path)))
    ensures !stuck ==> MakeStep(old(fs.State()), OpTouch(path), fs.State())
    ensures !stuck ==>
      forall n :: n in fs.dir.Nodes() && n !in old(fs.dir.Nodes()) ==> fresh(n) && fresh(n.children)
  {
    hide Sane, Labelled, Spells, FindClosed, Split, RamFs.Files, MadeBy, Tabled, MallocPtr, AfterMalloc;
    fs.FilesFacts();
    ghost var s := fs.State();
    var r;
    r, stuck := fs.Touch(path);
    if r != null && !stuck {
      MadeSteps(s, OpTouch(path), fs.State(), r);
    }
  }

  method ApplyMkdir(fs: RamFs, path: string) returns (stuck: bool)
    requires fs.Valid() && PathFits(path)
    modifies fs`owner, fs.dir`shape, fs.dir.Nodes(), fs.dir.Tables(), fs.heap`blocks, fs.heap`contents, fs.heap.mem
    ensures fs.Valid() && (stuck <==> Wedged(old(fs.State()), OpMkdir(path)))
    ensures !stuck ==> MakeStep(old(fs.State()), OpMkdir(path), fs.State())
    ensures !stuck ==>
      forall n :: n in fs.dir.Nodes() && n !in old(fs.dir.Nodes()) ==> fresh(n) && fresh(n.children)
  {
    hide Sane, Labelled, Spells, FindClosed, Split, RamFs.Files, MadeBy, Tabled, MallocPtr, AfterMalloc;
    fs.FilesFacts();
    ghost var s := fs.State();
    var r;
    r, stuck := fs.Mkdir(path);
    if r != null && !stuck {
      MadeSteps(s, OpMkdir(path), fs.State(), r);
    }
  }

  method FindNode(fs: RamFs, path: string) returns (r: FSNode?)
    requires fs.Valid() && ComponentsFit(path)
    ensures fs.Valid() && fs.State() == old(fs.State())
    ensures Opt(r) == Lookup(fs.dir.shape, path) && (r != null ==> r in fs.dir.Nodes())
  {
    hide Sane, Labelled, Spells, RamFs.Files;
    fs.FilesFacts();
    r := fs.dir.FindByPath(path);
  }

  method FindDirectory(fs: RamFs, path: string) returns (p: FSNode?)
    requires fs.Valid() && ComponentsFit(path)
    ensures fs.Valid() && fs.State() == old(fs.State())
    ensures Opt(p) == LookupDir(fs.dir.shape, path) && (p != null ==> p in fs.dir.Nodes() && p.isDir)
  {
    hide Sane, RamFs.Valid, RamFs.Files, FindClosed;
    p := FindNode(fs, path);
    if p != null && !p.isDir { p := null; }
  }

  method AddFileAt(fs: RamFs, p: FSNode, path: string, name: string) returns (stuck: bool)
    requires fs.Valid() && LookupDir(fs.dir.shape, path) == Some(p) && p in fs.dir.Nodes() && p.isDir
    modifies fs`owner, fs.dir`shape, fs.dir.Nodes(), fs.dir.Tables(), fs.heap`blocks, fs.heap`contents, fs.heap.mem
    ensures fs.Valid() && (stuck <==> Wedged(old(fs.State()), OpAddFile(path, name)))
    ensures !stuck ==> MakeStep(old(fs.State()), OpAddFile(path, name), fs.State())
    ensures !stuck ==>
      forall n :: n in fs.dir.Nodes() && n !in old(fs.dir.Nodes()) ==> fresh(n) && fresh(n.children)
  {
    hide Sane, Labelled, Spells, LookupDir, RamFs.Files, MadeBy, Tabled, MallocPtr, AfterMalloc;
    hide Wedged, MakeStep;
    fs.FilesFacts();
    ghost var s := fs.State();
    AddWedged(s, path, name);
    var r;
    r, stuck := fs.AddFile(p, name);
    if r != null && !stuck { MadeSteps(s, OpAddFile(path, name), fs.State(), r); }
  }

  method ApplyAddFile(fs: RamFs, path: string, name: string) returns (stuck: bool)
    requires fs.Valid() && ComponentsFit(path)
    modifies fs`owner, fs.dir`shape, fs.dir.Nodes(), fs.dir.Tables(), fs.heap`blocks, fs.heap`contents, fs.heap.mem
    ensures fs.Valid() && (stuck <==> Wedged(old(fs.State()), OpAddFile(path, name)))
    ensures !stuck ==> MakeStep(old(fs.State()), OpAddFile(path, name), fs.State())
    ensures !stuck ==>
      forall n :: n in fs.dir.Nodes() && n !in old(fs.dir.Nodes()) ==> fresh(n) && fresh(n.children)
  {
    hide Sane, Labelled, Spells, LookupDir, RamFs.Files, MadeBy, Tabled, MallocPtr, AfterMalloc;
    hide Wedged, MakeStep;
    fs.FilesFacts();
    ghost var s := fs.State();
    AddWedged(s, path, name);
    var p := FindDirectory(fs, path);
    if p == null { return false; }
    stuck := AddFileAt(fs, p, path, name);
  }

  method AddDirectoryAt(fs: RamFs, p: FSNode, path: string, name: string) returns (stuck: bool)
    requires fs.Valid() && LookupDir(fs.dir.shape, path) == Some(p) && p in fs.dir.Nodes() && p.isDir
    modifies fs`owner, fs.dir`shape, fs.dir.Nodes(), fs.dir.Tables(), fs.heap`blocks, fs.heap`contents, fs.heap.mem
    ensures fs.Valid() && (stuck <==> Wedged(old(fs.State()), OpAddDirectory(path, name)))
    ensures !stuck ==> MakeStep(old(fs.State()), OpAddDirectory(path, name), fs.State())
    ensures !stuck ==>
      forall n :: n in fs.dir.Nodes() && n !in old(fs.dir.Nodes()) ==> fresh(n) && fresh(n.children)
  {
    hide Sane, Labelled, Spells, LookupDir, RamFs.Files, MadeBy, Tabled, MallocPtr, AfterMalloc;
    hide Wedged, MakeStep;
    fs.FilesFacts();
    ghost var s := fs.State();
    AddWedged(s, path, name);
    var r;
    r, stuck := fs.AddDirectory(p, name);
    if r != null && !stuck { MadeSteps(s, OpAddDirectory(path, name), fs.State(), r); }
  }

  method ApplyAddDirectory(fs: RamFs, path: string, name: string) returns (stuck: bool)
    requires fs.Valid() && ComponentsFit(path)
    modifies fs`owner, fs.dir`shape, fs.dir.Nodes(), fs.dir.Tables(), fs.heap`blocks, fs.heap`contents, fs.heap.mem
    ensures fs.Valid() && (stuck <==> Wedged(old(fs.State()), OpAddDirectory(path, name)))
    ensures !stuck ==> MakeStep(old(fs.State()), OpAddDirectory(path, name), fs.State())
    ensures !stuck ==>
      forall n :: n in fs.dir.Nodes() && n !in old(fs.dir.Nodes()) ==> fresh(n) && fresh(n.children)
  {
    hide Sane, Labelled, Spells, LookupDir, RamFs.Files, MadeBy, Tabled, MallocPtr, AfterMalloc;
    hide Wedged, MakeStep;
    fs.FilesFacts();
    ghost var s := fs.State();
    AddWedged(s, path, name);
    var p := FindDirectory(fs, path);
    if p == null { return false; }
    stuck := AddDirectoryAt(fs, p, path, name);
  }

  method ApplyWrite(fs: RamFs, path: string, offset: nat, data: seq<byte>)
    requires fs.Valid() && ComponentsFit(path) && offset + |data| <= 0xFFFF_FFF0
    modifies fs`owner, fs.dir.Nodes()`data, fs.dir.Nodes()`size, fs.heap`blocks, fs.heap`contents, fs.heap.mem
    ensures fs.Valid() && fs.dir.Nodes() == old(fs.dir.Nodes())
    ensures WriteStep(old(fs.State()), OpWrite(path, offset, data), fs.State())
  {
    hide Sane, Labelled, Spells, FindClosed, WriteOutcome, RamFs.Files;
    fs.FilesFacts();
    var f := fs.dir.FindByPath(path);
    var r := fs.Write(f, offset, data);
  }

  method ApplySysWrite(fs: RamFs, fd: int, data: seq<byte>)
    requires fs.Valid() && |data| <= 0xFFFF_FFF0
    modifies fs`owner, fs.dir.Nodes()`data, fs.dir.Nodes()`size, fs.heap`blocks, fs.heap`contents, fs.heap.mem
    ensures fs.Valid() && fs.dir.Nodes() == old(fs.dir.Nodes())
    ensures WriteStep(old(fs.State()), OpSysWrite(fd, data), fs.State())
  {
    hide Sane, Labelled, Spells, WriteOutcome, RamFs.Files;
    fs.FilesFacts();
    var r := fs.SysWrite(fd, data);
  }

  method ApplyRemove(fs: RamFs, parent: string, child: string)
    requires fs.Valid() && ComponentsFit(parent) && ComponentsFit(child)
    modifies fs.dir`shape, fs.dir.Nodes()`childCount, fs.dir.Tables()
    ensures fs.Valid() && fs.dir.Nodes() == old(fs.dir.Nodes())
    ensures RemoveStep(old(fs.State()), parent, child, fs.State())
  {
    hide Sane, RamFs.Valid, Lookup, Removed, RamFs.Files;
    var p := FindNode(fs, parent);
    var c := FindNode(fs, child);
    RemoveFound(fs, p, c);
  }

  /** `fs_remove_child` on what the two paths led to; NULL is listed nowhere. */
  method RemoveFound(fs: RamFs, p: FSNode?, c: FSNode?)
    requires fs.Valid() && (p != null ==> p in fs.dir.Nodes()) && (c != null ==> c in fs.dir.Nodes())
    modifies fs.dir`shape, fs.dir.Nodes()`childCount, fs.dir.Tables()
    ensures fs.Valid() && fs.dir.Nodes() == old(fs.dir.Nodes()) && fs.Files() == old(fs.Files())
    ensures fs.dir.shape ==
            if p != null && c != null && c in old(fs.dir.shape).tree.kids[p]
            then old(fs.dir.shape).(tree := Removed(old(fs.dir.shape).tree, p, c)) else old(fs.dir.shape)
  {
    hide Sane, Labelled, Spells, Removed, RamFs.Files;
    if c != null { fs.RemoveChild(p, c); }
  }

  method ApplyClose(fs: RamFs, fd: int)
    requires fs.Valid()
    modifies fs.fdTable
    ensures fs.Valid()
    ensures Step(old(fs.State()), OpClose(fd), fs.State())
  {
    hide Sane, Labelled, Spells, RamFs.Files;
    fs.FilesFacts();
    fs.SysClose(fd);
  }

  /** One operation: it is stuck exactly where the source goes through a NULL pointer. */
  method Apply(fs: RamFs, op: FsOp) returns (stuck: bool)
    requires fs.Valid() && WellFormedOp(op)
    modifies fs`owner, fs.fdTable, fs.dir`shape, fs.dir.Nodes(), fs.dir.Tables()
    modifies fs.heap`blocks, fs.heap`contents, fs.heap.mem
    ensures fs.Valid() && (stuck <==> Wedged(old(fs.State()), op))
    ensures !stuck ==> Step(old(fs.State()), op, fs.State())
    ensures !stuck ==>
      forall n :: n in fs.dir.Nodes() && n !in old(fs.dir.Nodes()) ==> fresh(n) && fresh(n.children)
  {
    hide Sane, Labelled, Spells, RamFs.Files, MakeStep, WriteStep, RemoveStep, OpenStep;
    stuck := false;
    match op {
      case OpTouch(path) => stuck := ApplyTouch(fs, path);
      case OpMkdir(path) => stuck := ApplyMkdir(fs, path);
      case OpAddFile(path, name) => stuck := ApplyAddFile(fs, path, name);
      case OpAddDirectory(path, name) => stuck := ApplyAddDirectory(fs, path, name);
      case OpWrite(path, offset, data) => ApplyWrite(fs, path, offset, data);
      case OpOpen(path) => var fd := fs.SysOpen(path);
      case OpSysWrite(fd, data) => ApplySysWrite(fs, fd, data);
      case OpClose(fd) => ApplyClose(fs, fd);
      case OpRemove(parent, child) => ApplyRemove(fs, parent, child);
    }
  }

  /** A run on the real file system is a trace of the steps above. It stops early only at an operation
      that goes through a NULL pointer, so never while node allocations succeed. */
  method Run(fs: RamFs, ops: seq<FsOp>) returns (done: nat, ghost trace: seq<FsState>)
    requires fs.Valid() && forall i :: 0 <= i < |ops| ==> WellFormedOp(ops[i])
    modifies fs`owner, fs.fdTable, fs.dir`shape, fs.dir.Nodes(), fs.dir.Tables()
    modifies fs.heap`blocks, fs.heap`contents, fs.heap.mem
    ensures fs.Valid() && done <= |ops| && IsTrace(trace, ops[..done]) && trace[0] == old(fs.State())
    ensures if done == |ops| then trace[done] == fs.State() else Wedged(trace[done], ops[done])
    ensures AllTabled(trace[0].shape) && (forall i :: 0 <= i <= done ==> Roomy(trace[i].blocks)) ==> done == |ops|
    ensures AllTabled(trace[0].shape) && Budget(ops) + RESERVE <= Spare(trace[0].blocks) ==> done == |ops|
  {
    hide Sane, Spells, Step, RamFs.Files, AllTabled, Roomy, Budget, Spare;
    fs.FilesFacts();
    done, trace := 0, [fs.State()];
    while done < |ops|
      invariant fs.Valid() && done <= |ops|
      invariant IsTrace(trace, ops[..done]) && trace[0] == old(fs.State()) && trace[done] == fs.State()
      invariant forall n :: n in fs.dir.Nodes() && n !in old(fs.dir.Nodes()) ==> fresh(n) && fresh(n.children)
    {
      var stuck := Apply(fs, ops[done]);
      if stuck {
        RoomyRuns(trace, ops[..done], ops[done]);
        BudgetedRuns(trace, ops, done);
        return;
      }
      fs.FilesFacts();
      TraceGrows(trace, ops, done, fs.State());
      trace := trace + [fs.State()];
      done := done + 1;
    }
  }

  lemma RoomyRuns(trace: seq<FsState>, ops: seq<FsOp>, op: FsOp)
    requires IsTrace(trace, ops)
    ensures AllTabled(trace[0].shape) && (forall i :: 0 <= i <= |ops| ==> Roomy(trace[i].blocks)) ==>
              !Wedged(trace[|ops|], op)
  {
    hide Step, Sane, Roomy, AllTabled, Wedged;
    if AllTabled(trace[0].shape) && forall i :: 0 <= i <= |ops| ==> Roomy(trace[i].blocks) {
      RoomyRunsGoOn(trace, ops, |ops|, op);
    }
  }

  lemma BudgetedRuns(trace: seq<FsState>, ops: seq<FsOp>, i: nat)
    requires i < |ops| && IsTrace(trace, ops[..i]) && WellFormedOp(ops[i])
    ensures AllTabled(trace[0].shape) && Budget(ops) + RESERVE <= Spare(trace[0].blocks) ==> !Wedged(trace[i], ops[i])
  {
    hide Step, Sane, Spare, Budget, AllTabled, Wedged, Denied, Cost;
    if AllTabled(trace[0].shape) && Budget(ops) + RESERVE <= Spare(trace[0].blocks) {
      BudgetNext(ops, i);
      BudgetMonotone(ops, i + 1);
      assert ops[..i][..i] == ops[..i];
      BudgetedRunsGoOn(trace, ops[..i], i, ops[i]);
    }
  }

  /** From `init_heap` and `fs_init` on: the file system comes up, and every run that costs no more than
      the heap holds besides the root goes through to its end. */
  method BootAndRun(heap: Heap.Heap, ops: seq<FsOp>) returns (fs: RamFs, done: nat, ghost trace: seq<FsState>)
    requires HEAP_END <= heap.mem.Length < 0x1_0000_0000 && forall i :: 0 <= i < |ops| ==> WellFormedOp(ops[i])
    modifies heap, heap.mem
    ensures fs.Valid() && done <= |ops| && IsTrace(trace, ops[..done])
    ensures Booted(trace[0], fs.dir.root, [Block(HEAP_SIZE - HEADER, true)]) && AllTabled(trace[0].shape)
    ensures if done == |ops| then trace[done] == fs.State() else Wedged(trace[done], ops[done])
    ensures Budget(ops) <= BOOT_BUDGET ==> done == |ops|
  {
    hide Sane, Spells, Step, RamFs.Files, AllTabled, Roomy, Budget, Spare, IsTrace, Wedged, Booted;
    fs := Boot(heap);
    done, trace := Run(fs, ops);
  }

  lemma TraceGrows(trace: seq<FsState>, ops: seq<FsOp>, done: nat, s: FsState)
    requires done < |ops| && IsTrace(trace, ops[..done]) && Consistent(s)
    requires WellFormedOp(ops[done]) && Step(trace[done], ops[done], s)
    ensures IsTrace(trace + [s], ops[..done + 1])
  {
    hide Sane, Step, WellFormedOp;
    var t, os := trace + [s], ops[..done + 1];
    forall i | 0 <= i < |t| ensures Consistent(t[i]) {
      if i < |trace| { assert t[i] == trace[i]; }
    }
    forall i | 0 <= i < |os| ensures WellFormedOp(os[i]) {
      if i < done { assert os[i] == ops[..done][i]; }
    }
    forall i | 0 <= i < |os| ensures Step(t[i], os[i], t[i + 1]) {
      if i < done {
        assert t[i] == trace[i] && t[i + 1] == trace[i + 1] && ops[..done][i] == os[i];
        assert Step(trace[i], ops[..done][i], trace[i + 1]);
      }
    }
  }
}
