/** Whole runs of the allocator: what every sequence of calls keeps, and what nested calls undo. */
module HeapRuns {
  import opened Machine
  import opened HeapLayout
  import opened HeapImage
  import Heap

  // ---------------------------------------------------------------- nested runs

  /** A properly bracketed run: allocate, run what is inside, free, go on. */
  datatype Nested = Done | Bracket(n: u32, inner: Nested, rest: Nested)

  function Exec(bs: seq<Block>, run: Nested): seq<Block>
    decreases run
  {
    match run
    case Done => bs
    case Bracket(n, inner, rest) =>
      var after := Exec(AfterMalloc(bs, n), inner);
      Exec(AfterFree(after, MallocPtr(bs, n)), rest)
  }

  /** The addresses such a run is given, call by call. */
  function Addresses(bs: seq<Block>, run: Nested): seq<nat>
    decreases run
  {
    match run
    case Done => []
    case Bracket(n, inner, rest) =>
      var a := AfterMalloc(bs, n);
      [MallocPtr(bs, n)] + Addresses(a, inner) + Addresses(AfterFree(Exec(a, inner), MallocPtr(bs, n)), rest)
  }

  lemma NullFree(bs: seq<Block>)
    ensures AfterFree(bs, 0) == bs
  {
  }

  lemma SpliceBack(bs: seq<Block>, k: nat, mid: seq<Block>, b: Block)
    requires k < |bs| && bs[k] == b
    ensures Splice(Splice(bs, k, 1, mid), k, |mid|, [b]) == bs
  {
    var cs := Splice(bs, k, 1, mid);
    assert cs[..k] == bs[..k];
    assert cs[k + |mid|..] == bs[k + 1..];
  }



  /** Freeing at once what `kmalloc` returned restores the list exactly when the grant did not
      take a whole block that has a free neighbour behind it. */
  lemma FreeUndoesMalloc(bs: seq<Block>, n: u32)
    ensures var k := MallocIndex(bs, n);
      AfterFree(AfterMalloc(bs, n), MallocPtr(bs, n)) == bs
      <==> !(k + 1 < |bs| && bs[k].size < Align16(n) + HEADER + 16 && bs[k + 1].free)
  {
    var k := MallocIndex(bs, n);
    if k == |bs| {
      NullFree(bs);
    } else {
      var size := Align16(n);
      var cs := AfterMalloc(bs, n);
      var mid := Granted(bs[k], size);
      GrantedIndex(bs, n);
      SpliceBack(bs, k, mid, bs[k]);
      assert cs[k] == mid[0];
      if |mid| == 2 {
        assert cs[k + 1] == mid[1];
      } else {
        assert k + 1 < |bs| ==> cs[k + 1] == bs[k + 1];
      }
    }
  }

  /** `kmalloc` never puts two free blocks side by side. */
  lemma MallocKeepsNoAdjacentFree(bs: seq<Block>, n: u32)
    requires NoAdjacentFree(bs)
    ensures NoAdjacentFree(AfterMalloc(bs, n))
  {
    var k := MallocIndex(bs, n);
    if k < |bs| {
      var mid := Granted(bs[k], Align16(n));
      var cs := AfterMalloc(bs, n);
      forall i | 0 <= i < |cs| - 1 ensures !(cs[i].free && cs[i + 1].free) {
        if i + 1 < k {
          assert cs[i] == bs[i] && cs[i + 1] == bs[i + 1];
        } else if i >= k + |mid| {
          assert cs[i] == bs[i + 1 - |mid|] && cs[i + 1] == bs[i + 2 - |mid|];
        } else if i == k + 1 {
          assert cs[i + 1] == bs[k + 1];
        }
      }
    }
  }

  /** From a list without adjacent free blocks every bracketed run is the identity, failed and
      zero-size allocations included. */
  lemma {:induction false} NestedRunIsIdentity(bs: seq<Block>, run: Nested)
    requires NoAdjacentFree(bs)
    ensures Exec(bs, run) == bs
    decreases run
  {
    match run
    case Done =>
    case Bracket(n, inner, rest) =>
      MallocKeepsNoAdjacentFree(bs, n);
      NestedRunIsIdentity(AfterMalloc(bs, n), inner);
      FreeUndoesMalloc(bs, n);
      assert NoAdjacentFree(bs);
      NestedRunIsIdentity(bs, rest);
  }

  /** The same on the real heap: every call gets the address the run prescribes, and in the end the
      block list and every live payload come back. */
  method RunNested(h: Heap.Heap, run: Nested) returns (given: seq<nat>)
    requires h.Valid() && NoAdjacentFree(h.blocks)
    modifies h`blocks, h`contents, h.mem
    ensures h.Valid() && h.blocks == old(h.blocks) && h.contents == old(h.contents)
    ensures given == Addresses(old(h.blocks), run)
    decreases run
  {
    hide MallocPtr, AfterMalloc, AfterFree, HeapImage.Represents;
    given := [];
    if run.Bracket? {
      ghost var bs := h.blocks;
      MallocKeepsNoAdjacentFree(bs, run.n);
      FreeUndoesMalloc(bs, run.n);
      NestedRunIsIdentity(AfterMalloc(bs, run.n), run.inner);
      assert NoAdjacentFree(bs) && AfterFree(AfterMalloc(bs, run.n), MallocPtr(bs, run.n)) == bs;
      var p := h.Malloc(run.n);
      var inside := RunNested(h, run.inner);
      h.NullNotLive();
      h.Free(p);
      var later := RunNested(h, run.rest);
      given := [p] + inside + later;
    }
  }

  // ---------------------------------------------------------------- what is not promised

  /** `kfree` leaves no adjacent free blocks exactly when the preceding block is in use: it never
      merges backwards. */
  lemma CoalescesIff(bs: seq<Block>, k: nat)
    requires NoAdjacentFree(bs) && k < |bs| && !bs[k].free
    ensures NoAdjacentFree(Release(bs, k)) <==> k == 0 || !bs[k - 1].free
  {
    var cs := Release(bs, k);
    var w := |bs| + 1 - |cs|;
    assert cs[k].free && (k > 0 ==> cs[k - 1] == bs[k - 1]);
    if k > 0 && bs[k - 1].free {
      assert cs[k - 1].free && cs[k - 1 + 1].free;
    } else {
      forall i | 0 <= i < |cs| - 1 ensures !(cs[i].free && cs[i + 1].free) {
        if i + 1 < k {
          assert cs[i] == bs[i] && cs[i + 1] == bs[i + 1];
        } else if i >= k {
          assert cs[i + 1] == bs[i + w];
          assert bs[i + w - 1].free ==> !bs[i + w].free;
          assert i > k ==> cs[i] == bs[i + w - 1];
        }
      }
    }
  }

  ghost predicate AtLeast16(bs: seq<Block>) {
    forall i :: 0 <= i < |bs| ==> bs[i].size >= 16
  }

  /** Blocks of at least 16 bytes stay so, except when a wrapped request of 0 bytes is cut off. */
  lemma MinimumSizeIff(bs: seq<Block>, n: u32)
    requires AtLeast16(bs)
    ensures var k := MallocIndex(bs, n);
      AtLeast16(AfterMalloc(bs, n)) <==> n <= 0xFFFF_FFF0 || k == |bs| || bs[k].size < HEADER + 16
  {
    AlignCovers(n);
    var k := MallocIndex(bs, n);
    var cs := AfterMalloc(bs, n);
    if k < |bs| {
      var mid := Granted(bs[k], Align16(n));
      assert cs[k] == mid[0] && (|mid| == 2 ==> cs[k + 1] == mid[1]);
      if n <= 0xFFFF_FFF0 || |mid| == 1 {
        forall i | 0 <= i < |cs| ensures cs[i].size >= 16 {
          if i < k { assert cs[i] == bs[i]; }
          if i >= k + |mid| { assert cs[i] == bs[i - |mid| + 1]; }
        }
      } else {
        assert cs[k].size == 0;
      }
    }
  }

  lemma FreeKeepsMinimumSize(bs: seq<Block>, p: nat)
    requires AtLeast16(bs)
    ensures AtLeast16(AfterFree(bs, p))
  {
    var k := LiveIndex(bs, p, 0);
    var cs := AfterFree(bs, p);
    if k < |bs| {
      var w := |bs| + 1 - |cs|;
      forall i | 0 <= i < |cs| ensures cs[i].size >= 16 {
        if i < k { assert cs[i] == bs[i]; }
        if i > k { assert cs[i] == bs[i + w - 1]; }
      }
    }
  }

  // ---------------------------------------------------------------- when a grant is big enough

  /** The block granted holds the bytes asked for exactly when the rounding does not wrap. */
  lemma GrantCoversIff(bs: seq<Block>, n: u32)
    requires WellFormed(bs) && MallocIndex(bs, n) < |bs|
    ensures GrantedSize(bs, n) >= n <==> n <= 0xFFFF_FFF0
  {
    AlignCovers(n);
    GrantedSizeIs(bs, n);
    BlockBounds(bs, MallocIndex(bs, n));
  }

  lemma GrantedSizeIs(bs: seq<Block>, n: u32)
    requires MallocIndex(bs, n) < |bs|
    ensures var k := MallocIndex(bs, n);
      GrantedSize(bs, n) == if bs[k].size >= Align16(n) + HEADER + 16 then Align16(n) else bs[k].size
  {
  }

  /** When `krealloc` grows a live block, its copy stays inside the block granted exactly in these cases. */
  lemma CopyFitsIff(bs: seq<Block>, p: nat, n: u32)
    requires IsLivePtr(bs, p) && n > SizeAt(bs, p) && MallocIndex(bs, n) < |bs|
    ensures var k := MallocIndex(bs, n);
      CopyFits(bs, p, n) <==>
      n <= 0xFFFF_FFF0 || SizeAt(bs, p) == 0 || (bs[k].size < HEADER + 16 && SizeAt(bs, p) <= bs[k].size)
  {
    AlignCovers(n);
    GrantedSizeIs(bs, n);
  }

  /** A block of 16 bytes on a fresh heap, grown to 2^32 - 8: an empty block is granted, and the copy
      does not fit. */
  lemma WrappedGrowth()
    ensures var b0 := [Block(HEAP_SIZE - HEADER, true)];
      var p, b1 := MallocPtr(b0, 16), AfterMalloc(b0, 16);
      && IsLivePtr(b1, p) && SizeAt(b1, p) == 16
      && MallocPtr(b1, 0xFFFF_FFF8) != 0 && MallocIndex(b1, 0xFFFF_FFF8) < |b1| && GrantedSize(b1, 0xFFFF_FFF8) == 0
      && !CopyFits(b1, p, 0xFFFF_FFF8)
  {
    var b0 := [Block(HEAP_SIZE - HEADER, true)];
    var b1 := [Block(16, false), Block(HEAP_SIZE - 40, true)];
    FirstFitIs(b0, 16, 0);
    assert b0[..0] == [] && b0[1..] == [] && AfterMalloc(b0, 16) == b1;
    GrantedIndex(b0, 16);
    FirstFitIs(b1, 0, 1);
    GrantedSizeIs(b1, 0xFFFF_FFF8);
  }

  // ---------------------------------------------------------------- alignment

  function Sizes(bs: seq<Block>): nat {
    if bs == [] then 0 else Sizes(bs[..|bs| - 1]) + bs[|bs| - 1].size
  }

  lemma {:induction false} SpanSizes(bs: seq<Block>)
    ensures Span(bs) == HEADER * |bs| + Sizes(bs)
  {
    if bs != [] { SpanSizes(bs[..|bs| - 1]); }
  }

  /** When a payload is aligned to 16 bytes: headers take 12. */
  lemma AlignedIff(bs: seq<Block>, i: nat)
    requires i < |bs|
    ensures Ptr(bs, i) % 16 == 0 <==> (12 * (i + 1) + Sizes(bs[..i])) % 16 == 0
  {
    SpanSizes(bs[..i]);
  }

  lemma {:induction false} SizesDivide(bs: seq<Block>, d: nat)
    requires (d == 4 || d == 16) && forall i :: 0 <= i < |bs| ==> bs[i].size % d == 0
    ensures Sizes(bs) % d == 0
  {
    if bs != [] {
      var front, s := bs[..|bs| - 1], bs[|bs| - 1].size;
      assert forall i :: 0 <= i < |front| ==> front[i] == bs[i];
      SizesDivide(front, d);
      assert if d == 4 then (Sizes(front) + s) % 4 == 0 else (Sizes(front) + s) % 16 == 0;
    }
  }

  /** Where all blocks before it have rounded sizes, every fourth payload is. */
  lemma RoundedAlignedIff(bs: seq<Block>, i: nat)
    requires i < |bs| && forall j :: 0 <= j < i ==> bs[j].size % 16 == 0
    ensures Ptr(bs, i) % 16 == 0 <==> i % 4 == 3
  {
    AlignedIff(bs, i);
    SizesDivide(bs[..i], 16);
  }

  /** Payloads are aligned to 4 bytes, and the first one of a heap never to more. */
  lemma PayloadsWordAligned(bs: seq<Block>, i: nat)
    requires WordSized(bs) && i < |bs|
    ensures Ptr(bs, i) % 4 == 0 && Ptr(bs, 0) % 16 == 12
  {
    SpanSizes(bs[..i]);
    SizesDivide(bs[..i], 4);
  }

  // ---------------------------------------------------------------- the in-tree test

  lemma FirstFitIs(bs: seq<Block>, n: nat, k: nat)
    requires k < |bs| && Fits(bs[k], n)
    requires forall j :: 0 <= j < k ==> !Fits(bs[j], n)
    ensures FirstFit(bs, n, 0) == k
  {
  }

  lemma ReleaseAt(bs: seq<Block>, k: nat, p: nat)
    requires LiveAt(bs, k, p)
    ensures AfterFree(bs, p) == Release(bs, k)
  {
    LiveIndexUnique(bs, k, p);
  }

  lemma AddrOf2(b0: Block, b1: Block, rest: seq<Block>)
    ensures Addr([b0, b1] + rest, 0) == HEAP_START
    ensures Addr([b0, b1] + rest, 1) == HEAP_START + HEADER + b0.size
  {
    var bs := [b0, b1] + rest;
    assert bs[..0] == [] && bs[..1] == [b0];
    SpanOne(b0);
  }

  lemma AddrOf3(b0: Block, b1: Block, b2: Block, rest: seq<Block>)
    ensures Addr([b0, b1, b2] + rest, 2) == HEAP_START + 2 * HEADER + b0.size + b1.size
  {
    assert ([b0, b1, b2] + rest)[..2] == [b0, b1];
    SpanTwo(b0, b1);
  }

  const P1 := HEAP_START + HEADER
  const P2 := P1 + 64 + HEADER
  const P3 := P2 + 128 + HEADER

  /** The three allocations that open the in-tree heap test. */
  lemma HeapTestAllocations(s: nat)
    requires s == HEAP_SIZE - HEADER
    ensures var b0, b1 := [Block(s, true)], [Block(64, false), Block(s - 76, true)];
      && AfterMalloc(b0, 64) == b1 && MallocPtr(b0, 64) == P1
      && AfterMalloc(b1, 128) == [Block(64, false), Block(128, false), Block(s - 216, true)]
      && MallocPtr(b1, 128) == P2
  {
    var b0, b1 := [Block(s, true)], [Block(64, false), Block(s - 76, true)];
    FirstFitIs(b0, 64, 0);
    assert b0[..0] == [] && b0[1..] == [];
    FirstFitIs(b1, 128, 1);
    AddrOf2(b1[0], b1[1], []);
    assert b1 == [b1[0], b1[1]] + [] && b1[..1] == [b1[0]] && b1[2..] == [];
  }

  lemma HeapTestThird(s: nat)
    requires s == HEAP_SIZE - HEADER
    ensures var b2 := [Block(64, false), Block(128, false), Block(s - 216, true)];
      && AfterMalloc(b2, 32) == [Block(64, false), Block(128, false), Block(32, false), Block(s - 260, true)]
      && MallocPtr(b2, 32) == P3
  {
    var b2 := [Block(64, false), Block(128, false), Block(s - 216, true)];
    FirstFitIs(b2, 32, 2);
    AddrOf3(b2[0], b2[1], b2[2], []);
    assert b2 == [b2[0], b2[1], b2[2]] + [] && b2[..2] == [b2[0], b2[1]] && b2[3..] == [];
  }

  /** The second block is freed and 64 bytes are granted at its address. */
  lemma HeapTestReuse(r: nat)
    ensures var u1, u3, tail := Block(64, false), Block(32, false), Block(r, true);
      var b4 := [u1, Block(128, true), u3, tail];
      && AfterFree([u1, Block(128, false), u3, tail], P2) == b4
      && AfterMalloc(b4, 64) == [u1, Block(64, false), Block(52, true), u3, tail] && MallocPtr(b4, 64) == P2
  {
    var u1, u3, tail := Block(64, false), Block(32, false), Block(r, true);
    var b3 := [u1, Block(128, false), u3, tail];
    AddrOf2(u1, Block(128, false), [u3, tail]);
    assert b3 == [u1, Block(128, false)] + [u3, tail];
    ReleaseAt(b3, 1, P2);
    assert b3[..1] == [u1] && b3[2..] == [u3, tail];
    var b4 := [u1, Block(128, true), u3, tail];
    FirstFitIs(b4, 64, 1);
    AddrOf2(u1, Block(128, true), [u3, tail]);
    assert b4 == [u1, Block(128, true)] + [u3, tail];
    assert b4[..1] == [u1] && b4[2..] == [u3, tail];
  }

  /** The first block is freed, alone; the third merges with the tail. */
  lemma HeapTestFirstFrees(r: nat)
    ensures var u3, tail := Block(32, false), Block(r, true);
      var mid := [Block(64, false), Block(52, true)];
      var b6 := [Block(64, true)] + mid + [u3, tail];
      && AfterFree([Block(64, false)] + mid + [u3, tail], P1) == b6
      && AfterFree(b6, P3) == [Block(64, true)] + mid + [Block(32 + HEADER + r, true)]
  {
    var u1, u2, f, u3, tail := Block(64, false), Block(64, false), Block(52, true), Block(32, false), Block(r, true);
    var b5 := [u1] + [u2, f] + [u3, tail];
    AddrOf2(u1, u2, [f, u3, tail]);
    assert b5 == [u1, u2] + [f, u3, tail];
    ReleaseAt(b5, 0, P1);
    assert b5[..0] == [] && b5[1..] == [u2, f, u3, tail];
    var b6 := [Block(64, true)] + [u2, f] + [u3, tail];
    assert b6[..3] == [Block(64, true), u2, f];
    SpanTwo(Block(64, true), u2);
    assert b6[..3][..2] == [Block(64, true), u2];
    ReleaseAt(b6, 3, P3);
    assert b6[5..] == [];
  }

  /** The reused block merges with the 52 bytes left of the old one; 128 bytes then fit there. */
  lemma HeapTestLastFree(t: nat)
    ensures var b8 := [Block(64, true), Block(128, true), Block(t, true)];
      && AfterFree([Block(64, true)] + [Block(64, false), Block(52, true)] + [Block(t, true)], P2) == b8
      && MallocPtr(b8, 128) == P2
  {
    var f1, u2, f, big := Block(64, true), Block(64, false), Block(52, true), Block(t, true);
    var b7 := [f1] + [u2, f] + [big];
    AddrOf2(f1, u2, [f, big]);
    assert b7 == [f1, u2] + [f, big];
    ReleaseAt(b7, 1, P2);
    assert b7[..1] == [f1] && b7[3..] == [big];
    var b8 := [f1, Block(128, true), big];
    FirstFitIs(b8, 128, 1);
    AddrOf2(f1, Block(128, true), [big]);
    assert b8 == [f1, Block(128, true)] + [big];
  }

  function HeapTestBlocks(r: nat): seq<Block> {
    [Block(64, false)] + [Block(64, false), Block(52, true)] + [Block(32, false), Block(r, true)]
  }

  lemma HeapTestFirstHalf()
    ensures var b0 := [Block(HEAP_SIZE - HEADER, true)];
      var p1, b1 := MallocPtr(b0, 64), AfterMalloc(b0, 64);
      var p2, b2 := MallocPtr(b1, 128), AfterMalloc(b1, 128);
      var p3, b3 := MallocPtr(b2, 32), AfterMalloc(b2, 32);
      var b4 := AfterFree(b3, p2);
      var p4, b5 := MallocPtr(b4, 64), AfterMalloc(b4, 64);
      p1 == P1 && p2 == P2 && p3 == P3 && p4 == P2 && b5 == HeapTestBlocks(HEAP_SIZE - HEADER - 260)
  {
    var s := HEAP_SIZE - HEADER;
    HeapTestAllocations(s);
    HeapTestThird(s);
    HeapTestReuse(s - 260);
    assert HeapTestBlocks(s - 260) ==
           [Block(64, false), Block(64, false), Block(52, true), Block(32, false), Block(s - 260, true)];
  }

  lemma HeapTestSecondHalf(r: nat)
    ensures MallocPtr(AfterFree(AfterFree(AfterFree(HeapTestBlocks(r), P1), P3), P2), 128) == P2
  {
    HeapTestFirstFrees(r);
    HeapTestLastFree(32 + HEADER + r);
  }

  /** The in-tree heap test, call by call from a fresh heap. Its check that freed memory is reused
      holds; its last check, that the merged blocks serve 128 bytes at the first address, fails:
      they are granted at the second address, since a freed block never merges backwards. */
  lemma HeapTestExpectationFails()
    ensures var b0 := [Block(HEAP_SIZE - HEADER, true)];
      var p1, b1 := MallocPtr(b0, 64), AfterMalloc(b0, 64);
      var p2, b2 := MallocPtr(b1, 128), AfterMalloc(b1, 128);
      var p3, b3 := MallocPtr(b2, 32), AfterMalloc(b2, 32);
      var b4 := AfterFree(b3, p2);
      var p4, b5 := MallocPtr(b4, 64), AfterMalloc(b4, 64);
      var b8 := AfterFree(AfterFree(AfterFree(b5, p1), p3), p4);
      p4 == p2 && MallocPtr(b8, 128) == p2 && p2 != p1
  {
    HeapTestFirstHalf();
    HeapTestSecondHalf(HEAP_SIZE - HEADER - 260);
  }
}
