/** The block list of the kernel heap as a value: the specification of src/kernel/heap.cpp. */
module HeapLayout {
  import opened Machine

  const HEAP_START := 0x80_0000
  const HEAP_SIZE := 0x80_0000
  const HEAP_END := HEAP_START + HEAP_SIZE
  const HEADER := 12

  datatype Block = Block(size: nat, free: bool)

  /** Round up to a multiple of 16 in 32-bit arithmetic, so the sum may wrap. */
  function Align16(n: u32): u32 {
    var s := (n + 15) % 0x1_0000_0000;
    s - s % 16
  }

  /** The rounded size covers the request exactly up to the last 15 values of the type. */
  lemma AlignCovers(n: u32)
    ensures Align16(n) >= n <==> n <= 0xFFFF_FFF0
    ensures n <= 0xFFFF_FFF0 ==> Align16(n) <= n + 15 && Align16(n) % 16 == 0
    ensures n > 0xFFFF_FFF0 ==> Align16(n) == 0
  {
  }

  /** Bytes taken by blocks, headers included. */
  function Span(bs: seq<Block>): nat {
    if bs == [] then 0 else Span(bs[..|bs| - 1]) + HEADER + bs[|bs| - 1].size
  }

  /** Address of the header of block `i`; `Addr(bs, |bs|)` is the end of the last block. */
  function Addr(bs: seq<Block>, i: nat): nat
    requires i <= |bs|
  {
    HEAP_START + Span(bs[..i])
  }

  /** Address of the payload of block `i`. */
  function Ptr(bs: seq<Block>, i: nat): nat
    requires i < |bs|
  {
    Addr(bs, i) + HEADER
  }

  ghost predicate WordSized(bs: seq<Block>) {
    forall i :: 0 <= i < |bs| ==> bs[i].size % 4 == 0
  }

  /** The blocks tile the heap exactly. */
  ghost predicate WellFormed(bs: seq<Block>) {
    && bs != []
    && Addr(bs, |bs|) == HEAP_END
    && WordSized(bs)
  }

  ghost predicate NoAdjacentFree(bs: seq<Block>) {
    forall i :: 0 <= i < |bs| - 1 ==> !(bs[i].free && bs[i + 1].free)
  }

  predicate Fits(b: Block, n: nat) {
    b.free && b.size >= n
  }

  /** Index of the lowest block that fits from `i` on, or `|bs|`. */
  function FirstFit(bs: seq<Block>, n: nat, i: nat): (k: nat)
    requires i <= |bs|
    ensures i <= k <= |bs|
    ensures k < |bs| ==> Fits(bs[k], n)
    ensures forall j :: i <= j < k ==> !Fits(bs[j], n)
    decreases |bs| - i
  {
    if i == |bs| || Fits(bs[i], n) then i else FirstFit(bs, n, i + 1)
  }

  /** Replace `w` blocks from index `k` on by `mid`. */
  function Splice(bs: seq<Block>, k: nat, w: nat, mid: seq<Block>): seq<Block>
    requires k + w <= |bs|
  {
    bs[..k] + mid + bs[k + w..]
  }

  /** What block `b` becomes when `n` bytes of it are granted. */
  function Granted(b: Block, n: nat): seq<Block>
    requires b.size >= n
  {
    if b.size >= n + HEADER + 16
    then [Block(n, false), Block(b.size - n - HEADER, true)]
    else [Block(b.size, false)]
  }

  function Take(bs: seq<Block>, k: nat, n: nat): seq<Block>
    requires k < |bs| && bs[k].size >= n
  {
    Splice(bs, k, 1, Granted(bs[k], n))
  }

  /** Release block `k`: merge the following block when that is free, never the preceding one. */
  function Release(bs: seq<Block>, k: nat): seq<Block>
    requires k < |bs|
  {
    if k + 1 < |bs| && bs[k + 1].free
    then Splice(bs, k, 2, [Block(bs[k].size + HEADER + bs[k + 1].size, true)])
    else Splice(bs, k, 1, [Block(bs[k].size, true)])
  }

  /** Block `i` is allocated and its payload starts at `p`. */
  predicate LiveAt(bs: seq<Block>, i: nat, p: nat) {
    i < |bs| && !bs[i].free && Ptr(bs, i) == p
  }

  /** Index of the allocated block with payload `p` from `i` on, or `|bs|`. */
  function LiveIndex(bs: seq<Block>, p: nat, i: nat): (k: nat)
    requires i <= |bs|
    ensures i <= k <= |bs|
    ensures k < |bs| ==> LiveAt(bs, k, p)
    ensures forall j :: i <= j < k ==> !LiveAt(bs, j, p)
    decreases |bs| - i
  {
    if i == |bs| || LiveAt(bs, i, p) then i else LiveIndex(bs, p, i + 1)
  }

  /** The block `kmalloc(n)` grants, or `|bs|` when it returns NULL. */
  function MallocIndex(bs: seq<Block>, n: u32): nat {
    if n == 0 then |bs| else FirstFit(bs, Align16(n), 0)
  }

  /** The block granted is the lowest free one with enough bytes for the rounded size; none is exactly for
      an empty request or when there is no such block. */
  lemma MallocMeans(bs: seq<Block>, n: u32)
    ensures var k := MallocIndex(bs, n);
      && 0 <= k <= |bs|
      && (k == |bs| <==> n == 0 || forall i :: 0 <= i < |bs| ==> !bs[i].free || bs[i].size < Align16(n))
      && (k < |bs| ==> bs[k].free && bs[k].size >= Align16(n))
      && forall i :: 0 <= i < k && n > 0 ==> !bs[i].free || bs[i].size < Align16(n)
  {
  }

  /** The address `kmalloc(n)` returns. */
  function MallocPtr(bs: seq<Block>, n: u32): nat {
    var k := MallocIndex(bs, n);
    if k == |bs| then 0 else Ptr(bs, k)
  }

  /** The block list `kmalloc(n)` leaves. */
  function AfterMalloc(bs: seq<Block>, n: u32): seq<Block> {
    var k := MallocIndex(bs, n);
    if k == |bs| then bs else Take(bs, k, Align16(n))
  }

  /** The block list `kfree(p)` leaves, for NULL or a live `p`. */
  function AfterFree(bs: seq<Block>, p: nat): seq<Block> {
    var k := LiveIndex(bs, p, 0);
    if k == |bs| then bs else Release(bs, k)
  }

  /** `p` is the payload of an allocated block. */
  predicate IsLivePtr(bs: seq<Block>, p: nat) {
    LiveIndex(bs, p, 0) < |bs|
  }

  function SizeAt(bs: seq<Block>, p: nat): nat
    requires IsLivePtr(bs, p)
  {
    bs[LiveIndex(bs, p, 0)].size
  }

  /** Size of the block that `kmalloc(n)` grants. */
  function GrantedSize(bs: seq<Block>, n: u32): nat
    requires MallocIndex(bs, n) < |bs|
  {
    AfterMalloc(bs, n)[MallocIndex(bs, n)].size
  }

  /** The old payload fits the block that `krealloc(p, n)` is granted, if any. */
  predicate CopyFits(bs: seq<Block>, p: nat, n: u32)
    requires IsLivePtr(bs, p)
  {
    MallocIndex(bs, n) < |bs| ==> SizeAt(bs, p) <= GrantedSize(bs, n)
  }

  // ---------------------------------------------------------------- addresses

  lemma {:induction false} SpanConcat(xs: seq<Block>, ys: seq<Block>)
    ensures Span(xs + ys) == Span(xs) + Span(ys)
    decreases |ys|
  {
    if ys == [] {
      assert xs + ys == xs;
    } else {
      var front := ys[..|ys| - 1];
      assert (xs + ys)[..|xs + ys| - 1] == xs + front;
      SpanConcat(xs, front);
    }
  }

  lemma AddrNext(bs: seq<Block>, i: nat)
    requires i < |bs|
    ensures Addr(bs, i + 1) == Addr(bs, i) + HEADER + bs[i].size
  {
    assert bs[..i + 1][..i] == bs[..i];
  }

  /** Blocks lie in list order without overlap. */
  lemma AddrOrder(bs: seq<Block>, i: nat, j: nat)
    requires i < j <= |bs|
    ensures Addr(bs, i) + HEADER + bs[i].size <= Addr(bs, j)
  {
    AddrNext(bs, i);
    assert bs[..j] == bs[..i + 1] + bs[i + 1..j];
    SpanConcat(bs[..i + 1], bs[i + 1..j]);
  }

  lemma AddrInjective(bs: seq<Block>, i: nat, j: nat)
    requires i < |bs| && j < |bs| && Addr(bs, i) == Addr(bs, j)
    ensures i == j
  {
    if i < j { AddrOrder(bs, i, j); }
    if j < i { AddrOrder(bs, j, i); }
  }

  lemma SpanConcat3(xs: seq<Block>, ys: seq<Block>, zs: seq<Block>)
    ensures Span(xs + ys + zs) == Span(xs) + Span(ys) + Span(zs)
  {
    SpanConcat(xs, ys);
    SpanConcat(xs + ys, zs);
  }

  lemma AddrBeforeSplice(bs: seq<Block>, k: nat, w: nat, mid: seq<Block>, j: nat)
    requires j <= k && k + w <= |bs|
    ensures Addr(Splice(bs, k, w, mid), j) == Addr(bs, j)
  {
    assert Splice(bs, k, w, mid)[..j] == bs[..j];
  }

  lemma TakeThree<T>(s: seq<T>, k: nat, w: nat, j: nat)
    requires k + w <= j <= |s|
    ensures s[..j] == s[..k] + s[k..k + w] + s[k + w..j]
  {
  }

  lemma TakeSplice(bs: seq<Block>, k: nat, w: nat, mid: seq<Block>, j: nat)
    requires k + w <= j <= |bs|
    ensures Splice(bs, k, w, mid)[..j - w + |mid|] == bs[..k] + mid + bs[k + w..j]
  {
  }

  /** A splice that keeps the span keeps every address after it. */
  lemma AddrAfterSplice(bs: seq<Block>, k: nat, w: nat, mid: seq<Block>, j: nat)
    requires k + w <= j <= |bs| && Span(mid) == Span(bs[k..k + w])
    ensures Addr(Splice(bs, k, w, mid), j - w + |mid|) == Addr(bs, j)
  {
    TakeSplice(bs, k, w, mid, j);
    SpanConcat3(bs[..k], mid, bs[k + w..j]);
    TakeThree(bs, k, w, j);
    SpanConcat3(bs[..k], bs[k..k + w], bs[k + w..j]);
  }

  lemma SpanOne(b: Block)
    ensures Span([b]) == HEADER + b.size
  {
    assert [b][..0] == [];
  }

  lemma SpanTwo(b: Block, c: Block)
    ensures Span([b, c]) == 2 * HEADER + b.size + c.size
  {
    SpanOne(b);
    assert [b, c][..1] == [b];
  }

  lemma LiveIndexUnique(bs: seq<Block>, i: nat, p: nat)
    requires LiveAt(bs, i, p)
    ensures LiveIndex(bs, p, 0) == i
  {
    AddrInjective(bs, LiveIndex(bs, p, 0), i);
  }

  /** The granted block is live at the pointer returned. */
  lemma GrantedIndex(bs: seq<Block>, n: u32)
    requires MallocIndex(bs, n) < |bs|
    ensures LiveIndex(AfterMalloc(bs, n), MallocPtr(bs, n), 0) == MallocIndex(bs, n)
    ensures MallocPtr(bs, n) != 0
  {
    var k := MallocIndex(bs, n);
    AddrBeforeSplice(bs, k, 1, Granted(bs[k], Align16(n)), k);
    LiveIndexUnique(AfterMalloc(bs, n), k, MallocPtr(bs, n));
  }

  lemma BlockBounds(bs: seq<Block>, i: nat)
    requires WellFormed(bs) && i < |bs|
    ensures HEAP_START <= Addr(bs, i) && Ptr(bs, i) + bs[i].size <= HEAP_END
  {
    AddrOrder(bs, i, |bs|);
  }
}
