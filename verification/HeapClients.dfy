/** Arbitrary legal sequences of heap calls and client stores over raw memory. */
module HeapClients {
  import opened Machine
  import opened HeapLayout
  import opened HeapImage
  import opened HeapRuns
  import Heap

  datatype Op =
    | OpMalloc(n: u32)
    | OpFree(p: nat)
    | OpRealloc(p: nat, n: u32)
    | OpStore(p: nat, off: nat, data: seq<byte>)

  /** What the code asks of its callers: NULL or live pointers, stores in bounds, and no growth into a
      block too small for the copy. */
  predicate Legal(bs: seq<Block>, op: Op) {
    match op
    case OpMalloc(_) => true
    case OpFree(p) => p == 0 || IsLivePtr(bs, p)
    case OpRealloc(p, n) => p == 0 || (IsLivePtr(bs, p) && (n > SizeAt(bs, p) ==> CopyFits(bs, p, n)))
    case OpStore(p, off, data) => IsLivePtr(bs, p) && off + |data| <= SizeAt(bs, p)
  }

  function AfterRealloc(bs: seq<Block>, p: nat, n: u32): seq<Block>
    requires p == 0 || IsLivePtr(bs, p)
  {
    if n == 0 then AfterFree(bs, p)
    else if p == 0 then AfterMalloc(bs, n)
    else if n <= SizeAt(bs, p) || MallocPtr(bs, n) == 0 then bs
    else AfterFree(AfterMalloc(bs, n), p)
  }

  function AfterOp(bs: seq<Block>, op: Op): seq<Block>
    requires Legal(bs, op)
  {
    match op
    case OpMalloc(n) => AfterMalloc(bs, n)
    case OpFree(p) => AfterFree(bs, p)
    case OpRealloc(p, n) => AfterRealloc(bs, p, n)
    case OpStore(_, _, _) => bs
  }

  predicate LegalRun(bs: seq<Block>, ops: seq<Op>)
    decreases |ops|
  {
    ops == [] || (Legal(bs, ops[0]) && LegalRun(AfterOp(bs, ops[0]), ops[1..]))
  }

  function AfterRun(bs: seq<Block>, ops: seq<Op>): seq<Block>
    requires LegalRun(bs, ops)
    decreases |ops|
  {
    if ops == [] then bs else AfterRun(AfterOp(bs, ops[0]), ops[1..])
  }

  /** `op` frees, moves or writes payload `p`. */
  predicate Names(op: Op, p: nat) {
    match op
    case OpMalloc(_) => false
    case OpFree(q) => q == p
    case OpRealloc(q, _) => q == p
    case OpStore(q, _, _) => q == p
  }

  // ---------------------------------------------------------------- tiling over all runs

  lemma MallocKeepsTiling(bs: seq<Block>, n: u32)
    requires WellFormed(bs)
    ensures WellFormed(AfterMalloc(bs, n))
  {
    var k := MallocIndex(bs, n);
    if k < |bs| {
      if bs[k].size >= Align16(n) + HEADER + 16 {
        var mid, cs := SplitFacts(bs, k, Align16(n));
        assert bs[k].size % 4 == 0 && Align16(n) % 4 == 0;
        WellFormedSplice(bs, k, 1, mid);
      } else {
        var cs := OneFacts(bs, k, Block(bs[k].size, false));
        WellFormedSplice(bs, k, 1, [cs[k]]);
      }
    }
  }

  lemma FreeKeepsTiling(bs: seq<Block>, p: nat)
    requires WellFormed(bs)
    ensures WellFormed(AfterFree(bs, p))
  {
    hide Span, LiveIndex, Addr;
    var k := LiveIndex(bs, p, 0);
    if k < |bs| {
      if k + 1 < |bs| && bs[k + 1].free {
        var cs := MergeFacts(bs, k, Block(bs[k].size + HEADER + bs[k + 1].size, true));
        assert bs[k].size % 4 == 0 && bs[k + 1].size % 4 == 0;
        WellFormedSplice(bs, k, 2, [cs[k]]);
      } else {
        var cs := OneFacts(bs, k, Block(bs[k].size, true));
        WellFormedSplice(bs, k, 1, [cs[k]]);
      }
    }
  }

  /** In every legal run the blocks keep tiling the heap: spans always sum to the heap size. */
  lemma {:induction false} RunKeepsTiling(bs: seq<Block>, ops: seq<Op>)
    requires WellFormed(bs) && LegalRun(bs, ops)
    ensures WellFormed(AfterRun(bs, ops)) && Span(AfterRun(bs, ops)) == HEAP_SIZE
    decreases |ops|
  {
    if ops == [] {
      assert bs[..|bs|] == bs;
    } else {
      match ops[0]
      case OpMalloc(n) => MallocKeepsTiling(bs, n);
      case OpFree(p) => FreeKeepsTiling(bs, p);
      case OpRealloc(p, n) =>
        MallocKeepsTiling(bs, n);
        FreeKeepsTiling(bs, p);
        FreeKeepsTiling(AfterMalloc(bs, n), p);
      case OpStore(_, _, _) =>
    }
    if ops != [] { RunKeepsTiling(AfterOp(bs, ops[0]), ops[1..]); }
  }

  /** Whatever was done before, `kmalloc` returns a multiple of 4; in the first block of the heap it is
      12 beyond a multiple of 16, and behind blocks of rounded sizes it is a multiple of 16 exactly in
      every fourth block. */
  lemma MallocAlignment(bs: seq<Block>, ops: seq<Op>, n: u32)
    requires WellFormed(bs) && LegalRun(bs, ops)
    ensures var cs := AfterRun(bs, ops);
      var p, k := MallocPtr(cs, n), MallocIndex(cs, n);
      && p % 4 == 0
      && (k == 0 < |cs| ==> p % 16 == 12)
      && (k < |cs| && (forall j :: 0 <= j < k ==> cs[j].size % 16 == 0) ==> (p % 16 == 0 <==> k % 4 == 3))
  {
    RunKeepsTiling(bs, ops);
    var cs := AfterRun(bs, ops);
    var k := MallocIndex(cs, n);
    if k < |cs| {
      PayloadsWordAligned(cs, k);
      if forall j :: 0 <= j < k ==> cs[j].size % 16 == 0 { RoundedAlignedIff(cs, k); }
    }
  }

  /** No request is so large that its rounding wraps. */
  predicate Bounded(op: Op) {
    match op
    case OpMalloc(n) => n <= 0xFFFF_FFF0
    case OpRealloc(_, n) => n <= 0xFFFF_FFF0
    case _ => true
  }

  /** In every legal run without such requests all blocks keep at least 16 bytes. */
  lemma {:induction false} RunKeepsMinimumSize(bs: seq<Block>, ops: seq<Op>)
    requires AtLeast16(bs) && LegalRun(bs, ops) && forall i :: 0 <= i < |ops| ==> Bounded(ops[i])
    ensures AtLeast16(AfterRun(bs, ops))
    decreases |ops|
  {
    hide AtLeast16;
    if ops != [] {
      assert Bounded(ops[0]);
      match ops[0] {
        case OpMalloc(n) => MinimumSizeIff(bs, n);
        case OpFree(p) => FreeKeepsMinimumSize(bs, p);
        case OpRealloc(p, n) =>
          MinimumSizeIff(bs, n);
          FreeKeepsMinimumSize(bs, p);
          FreeKeepsMinimumSize(AfterMalloc(bs, n), p);
        case OpStore(_, _, _) =>
      }
      RunKeepsMinimumSize(AfterOp(bs, ops[0]), ops[1..]);
    }
  }

  // ---------------------------------------------------------------- the real heap

  /** The pointers that are live in the list are the keys of the contents map. */
  lemma LiveIffHeld(h: Heap.Heap, p: nat)
    requires h.Valid()
    ensures p in h.contents <==> IsLivePtr(h.blocks, p)
    ensures p in h.contents ==> |h.contents[p]| == SizeAt(h.blocks, p)
  {
    if p in h.contents {
      var k := h.LiveBlock(p);
      LiveIndexUnique(h.blocks, k, p);
      h.LiveBytes(p, k);
    }
    if IsLivePtr(h.blocks, p) {
      h.LiveBytes(p, LiveIndex(h.blocks, p, 0));
    }
  }

  ghost predicate Untouched(c: map<nat, seq<byte>>, c': map<nat, seq<byte>>, op: Op) {
    forall p :: p in c && !Names(op, p) ==> p in c' && c'[p] == c[p]
  }

  method ApplyRealloc(h: Heap.Heap, p: nat, n: u32)
    requires h.Valid() && Legal(h.blocks, OpRealloc(p, n))
    modifies h`blocks, h`contents, h.mem
    ensures h.Valid() && h.blocks == AfterRealloc(old(h.blocks), p, n)
    ensures Untouched(old(h.contents), h.contents, OpRealloc(p, n))
  {
    h.NullNotLive();
    LiveIffHeld(h, p);
    var _ := h.Realloc(p, n);
  }

  method Apply(h: Heap.Heap, op: Op)
    requires h.Valid() && Legal(h.blocks, op)
    modifies h`blocks, h`contents, h.mem
    ensures h.Valid() && h.blocks == AfterOp(old(h.blocks), op)
    ensures Untouched(old(h.contents), h.contents, op)
    ensures op.OpStore? ==> op.p in old(h.contents) && op.off + |op.data| <= |old(h.contents)[op.p]|
                            && h.contents == old(h.contents)[op.p := Patch(old(h.contents)[op.p], op.off, op.data)]
  {
    match op
    case OpMalloc(n) =>
      var _ := h.Malloc(n);
    case OpFree(p) =>
      LiveIffHeld(h, p);
      h.Free(p);
    case OpRealloc(p, n) =>
      ApplyRealloc(h, p, n);
    case OpStore(p, off, data) =>
      LiveIffHeld(h, p);
      h.Store(p, off, data);
  }

  /** Every legal run: memory ends as the image of the block list the run prescribes, and a live
      payload that no call names keeps every byte. */
  method Run(h: Heap.Heap, ops: seq<Op>)
    requires h.Valid() && LegalRun(h.blocks, ops)
    modifies h`blocks, h`contents, h.mem
    ensures h.Valid() && h.blocks == AfterRun(old(h.blocks), ops)
    ensures forall p :: p in old(h.contents) && (forall i :: 0 <= i < |ops| ==> !Names(ops[i], p)) ==>
              p in h.contents && h.contents[p] == old(h.contents)[p]
    decreases |ops|
  {
    if ops != [] {
      Apply(h, ops[0]);
      Run(h, ops[1..]);
    }
  }
}
