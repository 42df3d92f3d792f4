/** The physical frame allocator of src/kernel/memory.cpp. */
module Frames {
  import opened Machine
  import opened Bits

  const PAGE_SIZE := 4096
  const NO_FRAME: u32 := 0xFFFF_FFFF

  /** `align_up` to a page. */
  function AlignUp(v: nat): (r: nat)
    ensures v <= r < v + PAGE_SIZE && r % PAGE_SIZE == 0
  {
    v + PAGE_SIZE - 1 - (v + PAGE_SIZE - 1) % PAGE_SIZE
  }

  /** Bitmap words for `n` frames. */
  function Words(n: nat): (w: nat)
    ensures n <= 32 * w < n + 32
  {
    if n % 32 != 0 then n / 32 + 1 else n / 32
  }

  /** The byte count is taken in 32 bits. */
  function FrameCount(memUpper: u32): (n: nat)
    ensures n == (memUpper / 4 + 256) % 0x10_0000
  {
    (memUpper + 1024) * 1024 % 0x1_0000_0000 / PAGE_SIZE
  }

  /** End of the bitmap when it is placed behind the kernel image. */
  function BitmapEnd(memUpper: u32, kernelEnd: nat): nat {
    AlignUp(kernelEnd) + 4 * Words(FrameCount(memUpper))
  }

  class PhysicalMemoryManager {
    var bitmap: array<u32>
    /** The physical address of the bitmap. */
    const bitmapAddr: nat
    var totalFrames: nat
    var usedFrames: u32

    ghost function Used(): set<nat>
      reads this, bitmap
    {
      Marks(bitmap[..])
    }

    /** Bits past the last frame stay clear. */
    ghost predicate Valid()
      reads this, bitmap
    {
      && totalFrames <= 0x10_0000
      && bitmap.Length == Words(totalFrames)
      && Used() <= Below(totalFrames)
    }

    ghost predicate Counted()
      reads this, bitmap
    {
      usedFrames == |Used()|
    }

    /** `initialize`: everything up to the end of the bitmap is in use. The caller vouches that kernel
        and bitmap lie inside the memory counted. */
    constructor Initialize(memUpper: u32, kernelEnd: nat)
      requires BitmapEnd(memUpper, kernelEnd) <= FrameCount(memUpper) * PAGE_SIZE
      ensures Valid() && Counted() && fresh(bitmap)
      ensures totalFrames == (memUpper / 4 + 256) % 0x10_0000
      ensures totalFrames <= 32 * bitmap.Length < totalFrames + 32
      ensures bitmapAddr % PAGE_SIZE == 0 && kernelEnd <= bitmapAddr < kernelEnd + PAGE_SIZE
      ensures forall f: nat :: f in Used() <==> f * PAGE_SIZE < bitmapAddr + 4 * bitmap.Length
    {
      hide Marks;
      bitmapAddr := AlignUp(kernelEnd);
      totalFrames := FrameCount(memUpper);
      bitmap := new u32[Words(FrameCount(memUpper))](_ => 0);
      usedFrames := 0;
      new;
      var end := BitmapEnd(memUpper, kernelEnd);
      NothingMarked(bitmap[..]);
      var addr, n := 0, 0;
      while addr < end
        invariant addr == n * PAGE_SIZE && (n == 0 || (n - 1) * PAGE_SIZE < end)
        invariant totalFrames == FrameCount(memUpper) && bitmap.Length == Words(totalFrames) && fresh(bitmap)
        invariant Used() == Below(n) && usedFrames == n <= totalFrames <= 0x10_0000
      {
        var frame := addr / PAGE_SIZE;
        SetFrame(frame);
        assert Below(n + 1) == Below(n) + {n};
        usedFrames := usedFrames + 1;
        addr, n := addr + PAGE_SIZE, n + 1;
      }
      CountBelow(n);
    }

    static lemma NothingMarked(words: seq<u32>)
      requires forall i :: 0 <= i < |words| ==> words[i] == 0
      ensures Marks(words) == {}
    {
      forall f: nat | f < 32 * |words| ensures !Marked(words, f) {
        ConstantBits(32, f % 32);
      }
    }

    method SetFrame(f: nat)
      requires f < 32 * bitmap.Length
      modifies bitmap
      ensures Used() == old(Used()) + {f}
    {
      MarkAdds(bitmap[..], f);
      bitmap[f / 32] := Or(bitmap[f / 32], f % 32);
      assert bitmap[..] == old(bitmap[..])[f / 32 := Or(old(bitmap[f / 32]), f % 32)];
    }

    method ClearFrame(f: nat)
      requires f < 32 * bitmap.Length
      modifies bitmap
      ensures Used() == old(Used()) - {f}
    {
      ClearRemoves(bitmap[..], f);
      bitmap[f / 32] := AndNot(bitmap[f / 32], f % 32);
      assert bitmap[..] == old(bitmap[..])[f / 32 := AndNot(old(bitmap[f / 32]), f % 32)];
    }

    method TestFrame(f: nat) returns (used: bool)
      requires f < 32 * bitmap.Length
      ensures used <==> f in Used()
    {
      used := Bit(bitmap[f / 32], f % 32);
      assert used <==> Marked(bitmap[..], f);
    }

    /** `first_free`: the least free frame, or `NO_FRAME` exactly when there is none. */
    method FirstFree() returns (r: u32)
      requires Valid()
      ensures r == NO_FRAME <==> Used() == Below(totalFrames)
      ensures r != NO_FRAME ==> r < totalFrames && r !in Used() && Below(r) <= Used()
    {
      for i := 0 to bitmap.Length
        invariant forall f: nat :: f < totalFrames && f < 32 * i ==> f in Used()
      {
        if bitmap[i] != 0xFFFF_FFFF {
          for j := 0 to 32
            invariant forall f: nat :: f < totalFrames && f < 32 * i + j ==> f in Used()
          {
            var f := 32 * i + j;
            IndexParts(i, j);
            assert f in Used() <==> Marked(bitmap[..], f);
            if !Bit(bitmap[i], j) {
              if f < totalFrames {
                return f;
              } else {
                break;
              }
            }
          }
        } else {
          FullWord(i);
        }
      }
      return NO_FRAME;
    }

    static lemma IndexParts(i: nat, j: nat)
      requires j < 32
      ensures (32 * i + j) / 32 == i && (32 * i + j) % 32 == j
    {
    }

    lemma FullWord(i: nat)
      requires i < bitmap.Length && bitmap[i] == 0xFFFF_FFFF
      ensures forall f: nat :: 32 * i <= f < 32 * i + 32 ==> f in Used()
    {
      forall f: nat | 32 * i <= f < 32 * i + 32 ensures f in Used() {
        IndexParts(i, f - 32 * i);
        Pow2Of32();
        ConstantBits(32, f % 32);
        assert Marked(bitmap[..], f);
      }
    }

    /** `allocate_frame`: the address of the least free frame, or NULL. */
    method AllocateFrame() returns (addr: u32)
      requires Valid() && Counted()
      modifies this`usedFrames, bitmap
      ensures Valid() && Counted()
      ensures old(Used()) == Below(totalFrames) ==> addr == 0 && Used() == old(Used())
      ensures old(Used()) != Below(totalFrames) ==>
                var f := addr / PAGE_SIZE;
                addr == f * PAGE_SIZE && f < totalFrames && f !in old(Used()) && Below(f) <= old(Used())
                && Used() == old(Used()) + {f}
    {
      var frame := FirstFree();
      if frame == NO_FRAME { return 0; }
      CountUnmarked(Used(), totalFrames);
      SetFrame(frame);
      assert old(Used()) < Below(totalFrames);
      usedFrames := usedFrames + 1;
      PageNumber(frame);
      addr := frame * PAGE_SIZE;
    }

    static lemma PageNumber(f: nat)
      ensures f * PAGE_SIZE / PAGE_SIZE == f
    {
    }

    /** `free_frame` keeps the counter right exactly when the frame was in use; the counter wraps. */
    method FreeFrame(addr: u32)
      requires Valid() && addr / PAGE_SIZE < 32 * bitmap.Length
      modifies this`usedFrames, bitmap
      ensures Valid() && Used() == old(Used()) - {addr / PAGE_SIZE}
      ensures old(Counted()) ==> (Counted() <==> addr / PAGE_SIZE in old(Used()))
    {
      ghost var used := Used();
      var f := addr / PAGE_SIZE;
      ClearFrame(f);
      WrapDecrement(usedFrames);
      usedFrames := (usedFrames - 1) % 0x1_0000_0000;
      assert f !in used ==> used - {f} == used;
    }

    static lemma WrapDecrement(u: u32)
      ensures (u - 1) % 0x1_0000_0000 == if u == 0 then 0xFFFF_FFFF else u - 1
    {
    }

    /** `get_free_frames` counts the allocatable frames. */
    method GetFreeFrames() returns (n: nat)
      requires Valid() && Counted()
      ensures n == |Below(totalFrames) - Used()|
    {
      CountUnmarked(Used(), totalFrames);
      n := totalFrames - usedFrames;
    }
  }
}

/** Clients that give back only frames they were given. */
module FrameClients {
  import opened Machine
  import opened Bits
  import opened Frames
  import HeapLayout

  datatype FrameOp = Acquire | GiveBack(frame: nat)

  /** Frame `f` lies behind the bitmap, inside memory, and nobody holds it. */
  predicate Available(f: nat, held: set<nat>, end: nat, total: nat) {
    f < total && f * PAGE_SIZE >= end && f !in held
  }

  ghost predicate LeastAvailable(f: nat, held: set<nat>, end: nat, total: nat) {
    Available(f, held, end, total) && forall g: nat :: g < f ==> !Available(g, held, end, total)
  }

  /** What one operation does to the frames held. */
  ghost predicate FrameStep(held: set<nat>, op: FrameOp, held': set<nat>, end: nat, total: nat) {
    match op
    case Acquire =>
      || (exists f: nat :: LeastAvailable(f, held, end, total) && held' == held + {f})
      || (held' == held && forall f: nat :: !Available(f, held, end, total))
    case GiveBack(f) => held' == held - {f}
  }

  lemma LeastIs(f: nat, held: set<nat>, end: nat, total: nat)
    requires Available(f, held, end, total) && forall g: nat :: g < f ==> g in held || g * PAGE_SIZE < end
    ensures FrameStep(held, Acquire, held + {f}, end, total)
  {
    assert LeastAvailable(f, held, end, total);
  }

  lemma NoneLeft(held: set<nat>, end: nat, total: nat)
    requires forall f: nat :: f < total ==> f in held || f * PAGE_SIZE < end
    ensures FrameStep(held, Acquire, held, end, total)
  {
  }

  ghost predicate IsFrameRun(trace: seq<set<nat>>, ops: seq<FrameOp>, end: nat, total: nat) {
    && |trace| == |ops| + 1
    && forall i :: 0 <= i < |ops| ==> FrameStep(trace[i], ops[i], trace[i + 1], end, total)
  }

  lemma StepReserves(held: set<nat>, op: FrameOp, held': set<nat>, end: nat, total: nat)
    requires FrameStep(held, op, held', end, total)
    requires forall f :: f in held ==> f < total && f * PAGE_SIZE >= end
    ensures forall f :: f in held' ==> f < total && f * PAGE_SIZE >= end
  {
  }

  /** In every run all frames held are in memory and behind the bitmap: none is the kernel's. */
  lemma {:induction false} RunsReserve(trace: seq<set<nat>>, ops: seq<FrameOp>, i: nat, end: nat, total: nat)
    requires IsFrameRun(trace, ops, end, total) && i <= |ops|
    requires forall f :: f in trace[0] ==> f < total && f * PAGE_SIZE >= end
    ensures forall f :: f in trace[i] ==> f < total && f * PAGE_SIZE >= end
  {
    hide FrameStep;
    if i > 0 {
      RunsReserve(trace, ops, i - 1, end, total);
      assert FrameStep(trace[i - 1], ops[i - 1], trace[i - 1 + 1], end, total);
      StepReserves(trace[i - 1], ops[i - 1], trace[i], end, total);
    }
  }

  /** A frame handed out stays with its holder until it is given back: no request in between is given
      the same frame. */
  lemma {:induction false} HeldUntilReturned(trace: seq<set<nat>>, ops: seq<FrameOp>, k: nat, j: nat, f: nat,
                                             end: nat, total: nat)
    requires IsFrameRun(trace, ops, end, total) && k <= j <= |ops| && f in trace[k]
    requires forall i :: k <= i < j ==> ops[i] != GiveBack(f)
    ensures f in trace[j]
    ensures j < |ops| && ops[j] == Acquire ==>
              trace[j + 1] == trace[j] || exists g: nat :: g != f && trace[j + 1] == trace[j] + {g}
    decreases j
  {
    if k < j {
      HeldUntilReturned(trace, ops, k, j - 1, f, end, total);
      assert FrameStep(trace[j - 1], ops[j - 1], trace[j - 1 + 1], end, total);
    }
    if j < |ops| { assert FrameStep(trace[j], ops[j], trace[j + 1], end, total); }
  }

  // ---------------------------------------------------------------- the heap is not reserved

  /** Frame `f` belongs to the kernel heap. */
  predicate OfHeap(f: nat) {
    HeapLayout.HEAP_START <= f * PAGE_SIZE < HeapLayout.HEAP_END
  }

  /** The first frame behind the bitmap. */
  function FirstBehind(end: nat): (f: nat)
    ensures f * PAGE_SIZE >= end && (f > 0 ==> (f - 1) * PAGE_SIZE < end)
  {
    AlignUp(end) / PAGE_SIZE
  }

  /** In any run a request is given a frame of the heap exactly when every frame between bitmap and heap is
      held and one of the heap's is not. */
  lemma HeapGrantedIff(trace: seq<set<nat>>, ops: seq<FrameOp>, i: nat, end: nat, total: nat)
    requires IsFrameRun(trace, ops, end, total) && i < |ops| && ops[i] == Acquire && end <= HeapLayout.HEAP_START
    ensures (exists f: nat :: OfHeap(f) && f !in trace[i] && f in trace[i + 1]) <==>
            && (forall f: nat :: f < total && end <= f * PAGE_SIZE < HeapLayout.HEAP_START ==> f in trace[i])
            && (exists f: nat :: OfHeap(f) && f < total && f !in trace[i])
  {
    var held, held' := trace[i], trace[i + 1];
    assert FrameStep(held, ops[i], held', end, total);
    if f: nat :| OfHeap(f) && f < total && f !in held {
      assert Available(f, held, end, total);
      var g: nat :| LeastAvailable(g, held, end, total) && held' == held + {g};
      assert g <= f;
      if OfHeap(g) {
        forall h: nat | h < total && end <= h * PAGE_SIZE < HeapLayout.HEAP_START ensures h in held {
          assert !Available(h, held, end, total);
        }
      } else {
        assert g * PAGE_SIZE < HeapLayout.HEAP_START;
      }
    }
  }

  /** As many requests as frames, in order: after `i` requests of a fresh client the first `i` frames
      behind the bitmap are held, or all there are. */
  lemma {:induction false} RequestsInOrder(trace: seq<set<nat>>, ops: seq<FrameOp>, i: nat, end: nat, total: nat)
    requires IsFrameRun(trace, ops, end, total) && i <= |ops| && trace[0] == {}
    requires forall j :: 0 <= j < i ==> ops[j] == Acquire
    ensures forall f: nat :: f in trace[i] <==> FirstBehind(end) <= f < total && f < FirstBehind(end) + i
    decreases i
  {
    hide FirstBehind;
    if i > 0 {
      RequestsInOrder(trace, ops, i - 1, end, total);
      assert FrameStep(trace[i - 1], ops[i - 1], trace[i - 1 + 1], end, total);
      NextInOrder(trace[i - 1], trace[i], FirstBehind(end), i - 1, end, total);
    }
  }

  lemma NextInOrder(held: set<nat>, held': set<nat>, first: nat, i: nat, end: nat, total: nat)
    requires first * PAGE_SIZE >= end && (first > 0 ==> (first - 1) * PAGE_SIZE < end)
    requires forall f: nat :: f in held <==> first <= f < total && f < first + i
    requires FrameStep(held, Acquire, held', end, total)
    ensures forall f: nat :: f in held' <==> first <= f < total && f < first + i + 1
  {
    assert forall f: nat :: Available(f, held, end, total) <==> first + i <= f < total;
    if first + i < total {
      assert Available(first + i, held, end, total);
      var g: nat :| LeastAvailable(g, held, end, total) && held' == held + {g};
      assert g == first + i;
    }
  }

  /** Nothing reserves the heap: on a machine with memory there, a fresh client holds a frame of the heap
      exactly after more requests than there are frames between bitmap and heap. */
  lemma HeapHandedOutIff(trace: seq<set<nat>>, ops: seq<FrameOp>, i: nat, end: nat, total: nat)
    requires IsFrameRun(trace, ops, end, total) && i <= |ops| && trace[0] == {}
    requires forall j :: 0 <= j < i ==> ops[j] == Acquire
    requires end <= HeapLayout.HEAP_START < total * PAGE_SIZE
    ensures (exists f: nat :: OfHeap(f) && f in trace[i]) <==>
            i > HeapLayout.HEAP_START / PAGE_SIZE - FirstBehind(end)
  {
    RequestsInOrder(trace, ops, i, end, total);
    var h := HeapLayout.HEAP_START / PAGE_SIZE;
    assert OfHeap(h);
    assert h in trace[i] <==> i > h - FirstBehind(end);
  }

  class Client {
    const memory: PhysicalMemoryManager
    /** Frames handed out and not given back. */
    var held: set<nat>
    /** End of the bitmap, which stands behind the kernel image. */
    ghost const end: nat

    ghost predicate Valid()
      reads this, memory, memory.bitmap
    {
      && memory.Valid() && memory.Counted() && end > 0
      && end == memory.bitmapAddr + 4 * memory.bitmap.Length
      && (forall f :: f in held ==> f * PAGE_SIZE >= end)
      && (forall f: nat :: f in memory.Used() <==> f in held || f * PAGE_SIZE < end)
    }

    constructor (memUpper: u32, kernelEnd: nat)
      requires kernelEnd > 0
      requires BitmapEnd(memUpper, kernelEnd) <= FrameCount(memUpper) * PAGE_SIZE
      ensures Valid() && fresh(memory) && fresh(memory.bitmap) && held == {}
      ensures memory.totalFrames == (memUpper / 4 + 256) % 0x10_0000
      ensures memory.bitmapAddr % PAGE_SIZE == 0 && kernelEnd <= memory.bitmapAddr < kernelEnd + PAGE_SIZE
    {
      var m := new PhysicalMemoryManager.Initialize(memUpper, kernelEnd);
      memory := m;
      held := {};
      end := m.bitmapAddr + 4 * m.bitmap.Length;
    }

    /** A frame handed out is whole, unheld, and clear of low memory, kernel image and bitmap; NULL
        means that every frame is reserved or held. */
    method AcquireFrame() returns (addr: u32)
      requires Valid()
      modifies `held, memory`usedFrames, memory.bitmap
      ensures Valid()
      ensures addr == 0 <==> forall f: nat :: f < memory.totalFrames ==> f in old(held) || f * PAGE_SIZE < end
      ensures addr == 0 ==> held == old(held)
      ensures addr != 0 ==>
                addr % PAGE_SIZE == 0 && addr >= memory.bitmapAddr + 4 * memory.bitmap.Length
                && addr + PAGE_SIZE <= memory.totalFrames * PAGE_SIZE
                && addr / PAGE_SIZE !in old(held) && held == old(held) + {addr / PAGE_SIZE}
      ensures FrameStep(old(held), Acquire, held, end, memory.totalFrames)
    {
      hide Marks, FrameStep, LeastAvailable;
      assert memory.Used() != Below(memory.totalFrames) ==> 0 in memory.Used();
      ghost var held0 := held;
      addr := memory.AllocateFrame();
      if addr != 0 {
        var f := addr / PAGE_SIZE;
        assert forall g: nat :: g < f ==> g in Below(f);
        assert Available(f, held0, end, memory.totalFrames) && memory.Used() == old(memory.Used()) + {f};
        assert forall g: nat :: g in memory.Used() <==> g in held0 + {f} || g * PAGE_SIZE < end;
        LeastIs(f, held0, end, memory.totalFrames);
        Hold(f);
      } else {
        NoneLeft(held0, end, memory.totalFrames);
      }
    }

    /** The caller keeps a frame it was given. */
    method Hold(f: nat)
      requires memory.Valid() && memory.Counted() && Available(f, held, end, memory.totalFrames)
      requires end > 0 && end == memory.bitmapAddr + 4 * memory.bitmap.Length
      requires forall g :: g in held ==> g * PAGE_SIZE >= end
      requires forall g: nat :: g in memory.Used() <==> g in held + {f} || g * PAGE_SIZE < end
      modifies `held
      ensures Valid() && held == old(held) + {f}
    {
      hide PhysicalMemoryManager.Used;
      held := held + {f};
    }

    method GiveFrame(frame: nat)
      requires Valid() && frame in held
      modifies `held, memory`usedFrames, memory.bitmap
      ensures Valid() && held == old(held) - {frame}
    {
      assert frame in memory.Used();
      PhysicalMemoryManager.PageNumber(frame);
      memory.FreeFrame(frame * PAGE_SIZE);
      held := held - {frame};
    }

    /** Every run: the bitmap stays exactly reserved plus held, the counter stays right (`Valid`), and
        the frames held evolve by the least available frame for every request and by nothing else. */
    method Run(ops: seq<FrameOp>) returns (ghost trace: seq<set<nat>>)
      requires Valid()
      modifies `held, memory`usedFrames, memory.bitmap
      ensures Valid() && IsFrameRun(trace, ops, end, memory.totalFrames)
      ensures trace[0] == old(held) && trace[|ops|] == held
    {
      trace := [held];
      for i := 0 to |ops|
        invariant Valid() && |trace| == i + 1 && trace[0] == old(held) && trace[i] == held
        invariant forall j :: 0 <= j < i ==> FrameStep(trace[j], ops[j], trace[j + 1], end, memory.totalFrames)
      {
        match ops[i] {
          case Acquire =>
            var addr := AcquireFrame();
          case GiveBack(frame) =>
            if frame in held { GiveFrame(frame); }
        }
        assert FrameStep(trace[i], ops[i], held, end, memory.totalFrames);
        trace := trace + [held];
      }
    }
  }
}
