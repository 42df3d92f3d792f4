/** The allocator of src/kernel/heap.cpp over raw memory. */
module Heap {
  import opened Machine
  import opened HeapLayout
  import opened HeapImage

  class Heap {
    /** Physical memory, indexed by address. */
    const mem: array<byte>
    /** Address of the first header; 0 until `Init`. */
    var freeList: nat
    /** The block list that memory spells, and the bytes of every live payload. */
    ghost var blocks: seq<Block>
    ghost var contents: map<nat, seq<byte>>

    ghost predicate Valid()
      reads this, mem
    {
      && HEAP_END <= mem.Length < 0x1_0000_0000
      && if freeList == 0 then blocks == [] && contents == map[]
         else freeList == HEAP_START && Represents(mem[..], blocks, contents)
    }

    /** Memory before `init_heap`: arbitrary bytes, no list. */
    constructor (ram: array<byte>)
      requires HEAP_END <= ram.Length < 0x1_0000_0000
      ensures Valid() && mem == ram && freeList == 0
    {
      mem := ram;
      freeList := 0;
      blocks, contents := [], map[];
    }

    // ------------------------------------------------------------- header fields

    method SetSize(a: nat, v: u32)
      requires a + HEADER <= mem.Length
      modifies mem
      ensures HeaderAt(mem[..], a) == old(HeaderAt(mem[..], a)).(size := v)
      ensures SameOutside(old(mem[..]), mem[..], a, a + HEADER)
    {
      StoreWord(mem, a, v);
    }

    method SetNext(a: nat, v: u32)
      requires a + HEADER <= mem.Length
      modifies mem
      ensures HeaderAt(mem[..], a) == old(HeaderAt(mem[..], a)).(next := v)
      ensures SameOutside(old(mem[..]), mem[..], a, a + HEADER)
    {
      StoreWord(mem, a + 4, v);
    }

    method SetFree(a: nat, v: bool)
      requires a + HEADER <= mem.Length
      modifies mem
      ensures HeaderAt(mem[..], a) == old(HeaderAt(mem[..], a)).(free := v)
      ensures SameOutside(old(mem[..]), mem[..], a, a + HEADER)
    {
      mem[a + 8] := if v then 1 else 0;
    }

    method GetHeader(a: nat) returns (h: Header)
      requires a + HEADER <= mem.Length
      ensures h == HeaderAt(mem[..], a)
    {
      h := HeaderAt(mem[..], a);
    }

    // ------------------------------------------------------------- operations

    /** `init_heap`: one free block over the whole heap. */
    method Init()
      requires HEAP_END <= mem.Length < 0x1_0000_0000
      modifies this, mem
      ensures Valid() && freeList == HEAP_START
      ensures blocks == [Block(HEAP_SIZE - HEADER, true)] && contents == map[]
      ensures SameOutside(old(mem[..]), mem[..], HEAP_START, HEAP_START + HEADER)
    {
      freeList := HEAP_START;
      SetSize(freeList, HEAP_SIZE - HEADER);
      SetNext(freeList, 0);
      SetFree(freeList, true);
      blocks, contents := [Block(HEAP_SIZE - HEADER, true)], map[];
      InitRepresents(mem[..], blocks[0]);
    }

    /** The search loop of `kmalloc`. */
    method Find(n: nat) returns (current: nat, ghost k: nat)
      requires Valid() && freeList != 0
      ensures k == FirstFit(blocks, n, 0)
      ensures var j := FirstFit(blocks, n, 0); current == if j < |blocks| then Addr(blocks, j) else 0
    {
      current, k := freeList, 0;
      assert blocks[..0] == [];
      while current != 0
        invariant k <= |blocks| && current == if k < |blocks| then Addr(blocks, k) else 0
        invariant FirstFit(blocks, n, 0) == FirstFit(blocks, n, k)
        decreases |blocks| - k
      {
        assert ImageAt(mem[..], blocks, k);
        var h := GetHeader(current);
        if h.free && h.size >= n { break; }
        current, k := h.next, k + 1;
      }
    }

    /** Write the two headers of a split block, in the order of the source. */
    method Split(current: nat, n: nat)
      requires n % 4 == 0 && current + HEADER <= mem.Length
      requires 0 < current && mem.Length < 0x1_0000_0000
      requires HeaderAt(mem[..], current).size >= n + HEADER + 16
      requires current + HEADER + HeaderAt(mem[..], current).size <= mem.Length
      modifies mem
      ensures HeaderAt(mem[..], current) == old(HeaderAt(mem[..], current)).(size := n, next := current + HEADER + n)
      ensures var h := old(HeaderAt(mem[..], current));
        HeaderAt(mem[..], current + HEADER + n) == Header(h.size - n - HEADER, h.next, true)
      ensures SameOutside(old(mem[..]), mem[..], current, current + HEADER + old(HeaderAt(mem[..], current)).size)
    {
      var h := GetHeader(current);
      var newBlock := current + HEADER + n;
      SetSize(newBlock, h.size - n - HEADER);
      SetNext(newBlock, h.next);
      SetFree(newBlock, true);
      SetSize(current, n);
      SetNext(current, newBlock);
    }

    /** Split a block and mark its front as used. */
    method Carve(current: nat, n: nat)
      requires n % 4 == 0 && current + HEADER <= mem.Length
      requires 0 < current && mem.Length < 0x1_0000_0000
      requires HeaderAt(mem[..], current).size >= n + HEADER + 16
      requires current + HEADER + HeaderAt(mem[..], current).size <= mem.Length
      modifies mem
      ensures HeaderAt(mem[..], current) == Header(n, current + HEADER + n, false)
      ensures var h := old(HeaderAt(mem[..], current));
        HeaderAt(mem[..], current + HEADER + n) == Header(h.size - n - HEADER, h.next, true)
      ensures SameOutside(old(mem[..]), mem[..], current, current + HEADER + old(HeaderAt(mem[..], current)).size)
    {
      Split(current, n);
      SetFree(current, false);
    }

    lemma HeaderFacts(k: nat)
      requires Valid() && freeList != 0 && k < |blocks|
      ensures HEAP_START <= Addr(blocks, k) && Ptr(blocks, k) + blocks[k].size <= HEAP_END
      ensures HeaderAt(mem[..], Addr(blocks, k)) == Header(blocks[k].size, Next(blocks, k), blocks[k].free)
      ensures Addr(blocks, k + 1) == Ptr(blocks, k) + blocks[k].size
      ensures blocks[k].size % 4 == 0
    {
      assert ImageAt(mem[..], blocks, k);
      BlockBounds(blocks, k);
      AddrNext(blocks, k);
    }

    /** Use the front of a free block and make a new one of the rest. */
    method GrantPart(current: nat, size: nat, ghost k: nat) returns (ghost v: seq<byte>)
      requires Valid() && freeList != 0 && k < |blocks| && blocks[k].free && size % 16 == 0
      requires current == Addr(blocks, k) && blocks[k].size >= size + HEADER + 16
      modifies mem
      ensures Represents(mem[..], Take(blocks, k, size), contents[current + HEADER := v])
      ensures current + HEADER !in contents && |v| == size
    {
      ghost var m := mem[..];
      HeaderFacts(k);
      hide Represents, Take, HeaderAt, SameOutside, Addr;
      Carve(current, size);
      v := mem[..][Ptr(blocks, k)..Ptr(blocks, k) + size];
      SplitRepresents(m, mem[..], blocks, k, size, contents);
    }

    /** A block too small to cut exceeds a 16-byte multiple by at most 24 bytes. */
    static lemma WholeBound(size: nat, b: nat)
      requires size % 16 == 0 && b % 4 == 0 && b < size + HEADER + 16
      ensures b <= size + 24
    {
    }

    method GrantWhole(current: nat, size: nat, ghost k: nat) returns (ghost v: seq<byte>)
      requires Valid() && freeList != 0 && k < |blocks| && blocks[k].free && size % 16 == 0
      requires current == Addr(blocks, k) && size <= blocks[k].size < size + HEADER + 16
      modifies mem
      ensures Represents(mem[..], Take(blocks, k, size), contents[current + HEADER := v])
      ensures current + HEADER !in contents && size <= |v| <= size + 24
    {
      ghost var m := mem[..];
      HeaderFacts(k);
      WholeBound(size, blocks[k].size);
      SetFree(current, false);
      v := mem[..][Ptr(blocks, k)..Ptr(blocks, k) + blocks[k].size];
      WholeRepresents(m, mem[..], blocks, k, size, contents);
    }

    /** Mark the block found as used, cutting off the tail when it can hold a block of its own. */
    method Grant(current: nat, size: nat, ghost k: nat) returns (ghost v: seq<byte>)
      requires Valid() && freeList != 0 && k < |blocks| && Fits(blocks[k], size) && size % 16 == 0
      requires current == Addr(blocks, k)
      modifies mem
      ensures Represents(mem[..], Take(blocks, k, size), contents[current + HEADER := v])
      ensures current + HEADER !in contents && size <= |v| <= size + 24
    {
      HeaderFacts(k);
      var h := GetHeader(current);
      if h.size >= size + HEADER + 16 {
        v := GrantPart(current, size, k);
      } else {
        v := GrantWhole(current, size, k);
      }
    }

    /** `kmalloc`: exact first fit, or NULL with nothing changed. */
    method Malloc(n: u32) returns (p: nat)
      requires Valid()
      modifies this`blocks, this`contents, mem
      ensures Valid()
      ensures p == MallocPtr(old(blocks), n) && blocks == AfterMalloc(old(blocks), n)
      ensures p == 0 ==> contents == old(contents) && mem[..] == old(mem[..])
      ensures p != 0 ==> p !in old(contents) && p in contents && contents == old(contents)[p := contents[p]]
      ensures p != 0 ==> Align16(n) <= |contents[p]| <= Align16(n) + 24
      ensures p == 0 <==> n == 0 || forall i :: 0 <= i < |old(blocks)| && old(blocks)[i].free ==>
                                      old(blocks)[i].size < Align16(n)
    {
      MallocMeans(blocks, n);
      if n == 0 { return 0; }
      var size := Align16(n);
      if freeList == 0 { return 0; }
      var current, k := Find(size);
      if current == 0 { return 0; }
      ghost var v := Grant(current, size, k);
      p := current + HEADER;
      blocks, contents := Take(blocks, k, size), contents[p := v];
    }

    /** The block of a live payload. */
    lemma LiveBlock(p: nat) returns (k: nat)
      requires Valid() && p in contents
      ensures k < |blocks| && !blocks[k].free && p == Addr(blocks, k) + HEADER
      ensures AfterFree(blocks, p) == Release(blocks, k)
    {
      assert IsLive(blocks, p);
      k :| LiveAt(blocks, k, p);
      LiveIndexUnique(blocks, k, p);
    }

    /** Where the bytes of a live payload are. */
    lemma LiveBytes(p: nat, k: nat)
      requires Valid() && k < |blocks| && !blocks[k].free && p == Ptr(blocks, k)
      ensures p + blocks[k].size <= HEAP_END && p in contents
      ensures contents[p] == mem[p..p + blocks[k].size]
    {
      assert HoldsAt(mem[..], blocks, contents, k);
      BlockBounds(blocks, k);
      assert mem[..][p..p + blocks[k].size] == mem[p..p + blocks[k].size];
    }

    method ReleaseAlone(block: nat, ghost k: nat)
      requires Valid() && freeList != 0 && k < |blocks| && !blocks[k].free && block == Addr(blocks, k)
      requires !(k + 1 < |blocks| && blocks[k + 1].free)
      modifies mem
      ensures Represents(mem[..], Release(blocks, k), contents - {block + HEADER})
    {
      ghost var m := mem[..];
      HeaderFacts(k);
      SetFree(block, true);
      FreeRepresents(m, mem[..], blocks, k, contents);
    }

    method ReleaseMerged(block: nat, ghost k: nat)
      requires Valid() && freeList != 0 && k < |blocks| && !blocks[k].free && block == Addr(blocks, k)
      requires k + 1 < |blocks| && blocks[k + 1].free
      modifies mem
      ensures Represents(mem[..], Release(blocks, k), contents - {block + HEADER})
    {
      ghost var m := mem[..];
      HeaderFacts(k);
      HeaderFacts(k + 1);
      SetFree(block, true);
      var h := GetHeader(block);
      var next := GetHeader(h.next);
      SetSize(block, h.size + HEADER + next.size);
      SetNext(block, next.next);
      MergeRepresents(m, mem[..], blocks, k, contents);
    }

    /** Clear the used flag and absorb the following block when that is free. */
    method ReleaseBlock(block: nat, ghost k: nat)
      requires Valid() && freeList != 0 && k < |blocks| && !blocks[k].free && block == Addr(blocks, k)
      modifies mem
      ensures Represents(mem[..], Release(blocks, k), contents - {block + HEADER})
    {
      HeaderFacts(k);
      if k + 1 < |blocks| { HeaderFacts(k + 1); }
      var h := GetHeader(block);
      var merge := false;
      if h.next != 0 {
        var next := GetHeader(h.next);
        merge := next.free;
      }
      if merge {
        ReleaseMerged(block, k);
      } else {
        ReleaseAlone(block, k);
      }
    }

    method FreeLive(p: nat)
      requires Valid() && p in contents
      modifies this`blocks, this`contents, mem
      ensures Valid()
      ensures blocks == AfterFree(old(blocks), p) && contents == old(contents) - {p}
    {
      hide Represents, Release;
      ghost var k := LiveBlock(p);
      ReleaseBlock(p - HEADER, k);
      blocks, contents := Release(blocks, k), contents - {p};
    }

    /** `kfree`: NULL is ignored; a live payload leaves the map, and nothing else does. */
    method Free(p: nat)
      requires Valid()
      requires p == 0 || p in contents
      modifies this`blocks, this`contents, mem
      ensures Valid()
      ensures blocks == AfterFree(old(blocks), p) && contents == old(contents) - {p}
      ensures p == 0 ==> mem[..] == old(mem[..])
    {
      NullNotLive();
      if p != 0 {
        FreeLive(p);
      }
    }

    lemma NullNotLive()
      requires Valid()
      ensures 0 !in contents && AfterFree(blocks, 0) == blocks
    {
      if 0 in contents {
        var _ := LiveBlock(0);
      }
    }

    // ------------------------------------------------------------- client access

    /** A client store inside a live payload: `data` at offset `off`. */
    method Store(p: nat, off: nat, data: seq<byte>)
      requires Valid() && p in contents && off + |data| <= |contents[p]|
      modifies this`contents, mem
      ensures Valid()
      ensures contents == old(contents)[p := Patch(old(contents[p]), off, data)]
    {
      ghost var m := mem[..];
      ghost var k := LiveBlock(p);
      LiveBytes(p, k);
      WriteBytes(mem, p + off, data);
      StoreRepresents(m, mem[..], blocks, k, contents, off, data);
      contents := contents[p := Patch(contents[p], off, data)];
    }

    /** A client read inside a live payload, into memory of its own. */
    method Load(p: nat, off: nat, n: nat, buffer: array<byte>)
      requires Valid() && p in contents && off + n <= |contents[p]| && n <= buffer.Length && buffer != mem
      modifies buffer
      ensures buffer[..n] == contents[p][off..off + n] && buffer[n..] == old(buffer[..])[n..]
    {
      ghost var k := LiveBlock(p);
      LiveBytes(p, k);
      for i := 0 to n
        invariant mem[..] == old(mem[..])
        invariant forall j :: 0 <= j < i ==> buffer[j] == mem[p + off + j]
        invariant forall j :: i <= j < buffer.Length ==> buffer[j] == old(buffer[j])
      {
        buffer[i] := mem[p + off + i];
      }
      assert forall j :: 0 <= j < n ==> buffer[j] == contents[p][off + j];
    }

    /** `memcpy` of the first `n` bytes of live payload `p` over the start of live payload `q`. */
    method CopyPayload(q: nat, p: nat, n: nat)
      requires Valid() && p in contents && q in contents && p != q
      requires n <= |contents[p]| && n <= |contents[q]|
      modifies this`contents, mem
      ensures Valid()
      ensures contents == old(contents)[q := Patch(old(contents[q]), 0, old(contents[p])[..n])]
    {
      ghost var m := mem[..];
      ghost var j := LiveBlock(p);
      ghost var k := LiveBlock(q);
      CopySource(p, q, j, k, n);
      CopyBytes(mem, q, p, n);
      StoreRepresents(m, mem[..], blocks, k, contents, 0, contents[p][..n]);
      contents := contents[q := Patch(contents[q], 0, contents[p][..n])];
    }

    lemma CopySource(p: nat, q: nat, j: nat, k: nat, n: nat)
      requires Valid() && j < |blocks| && k < |blocks| && !blocks[j].free && !blocks[k].free
      requires p == Ptr(blocks, j) && q == Ptr(blocks, k) && p != q
      requires p in contents && q in contents && n <= |contents[p]| && n <= |contents[q]|
      ensures p + n <= q || q + n <= p
      ensures p + n <= HEAP_END && q + n <= HEAP_END && q + |contents[q]| <= HEAP_END
      ensures mem[p..p + n] == contents[p][..n]
    {
      LiveBytes(p, j);
      LiveBytes(q, k);
      PayloadsDisjoint(blocks, j, k);
    }

    /** The tail of `krealloc`: the old data goes to the new block, and the old block is released. */
    method Relocate(p: nat, q: nat, n: nat)
      requires Valid() && p in contents && q in contents && p != q
      requires n == |contents[p]| <= |contents[q]|
      modifies this`blocks, this`contents, mem
      ensures Valid() && blocks == AfterFree(old(blocks), p)
      ensures q in contents && contents == old(contents)[q := contents[q]] - {p}
      ensures |contents[q]| == |old(contents)[q]| && old(contents)[p] <= contents[q]
    {
      CopyPayload(q, p, n);
      FreeLive(p);
    }

    /** What the block list says of live payloads. */
    lemma LivePtr(p: nat)
      requires Valid() && p in contents
      ensures IsLivePtr(blocks, p) && SizeAt(blocks, p) == |contents[p]|
    {
      var k := LiveBlock(p);
      LiveBytes(p, k);
      LiveIndexUnique(blocks, k, p);
    }

    /** `krealloc` of a live block that is too small. */
    method Grow(p: nat, n: u32, size: nat) returns (q: nat)
      requires Valid() && p in contents && size == |contents[p]| < n
      requires IsLivePtr(blocks, p) && CopyFits(blocks, p, n)
      modifies this`blocks, this`contents, mem
      ensures Valid()
      ensures q == MallocPtr(old(blocks), n)
      ensures q == 0 ==> blocks == old(blocks) && contents == old(contents)
      ensures q != 0 ==> Moved(old(contents), contents, p, q) && |contents[q]| >= Align16(n)
      ensures q != 0 ==> blocks == AfterFree(AfterMalloc(old(blocks), n), p)
    {
      hide Represents, AfterFree;
      ghost var bs := blocks;
      LivePtr(p);
      q := Malloc(n);
      if q != 0 {
        GrantedIndex(bs, n);
        LivePtr(q);
        Relocate(p, q, size);
      }
    }

    /** `krealloc`, whenever the old data fits the block granted. */
    method Realloc(p: nat, n: u32) returns (q: nat)
      requires Valid()
      requires p == 0 || p in contents
      requires p != 0 && n > |contents[p]| ==> IsLivePtr(blocks, p) && CopyFits(blocks, p, n)
      modifies this`blocks, this`contents, mem
      ensures Valid()
      ensures n == 0 ==> q == 0 && blocks == AfterFree(old(blocks), p) && contents == old(contents) - {p}
      ensures n > 0 && p != 0 && n <= |old(contents)[p]| ==>
                q == p && blocks == old(blocks) && contents == old(contents)
      ensures n > 0 && (p == 0 || n > |old(contents)[p]|) ==> q == MallocPtr(old(blocks), n)
      ensures n > 0 && q == 0 ==> blocks == old(blocks) && contents == old(contents)
      ensures n > 0 && (p == 0 || n > |old(contents)[p]|) && q != 0 ==>
                Moved(old(contents), contents, p, q) && |contents[q]| >= Align16(n) &&
                blocks == AfterFree(AfterMalloc(old(blocks), n), p)
    {
      NullNotLive();
      if n == 0 {
        Free(p);
        return 0;
      }
      if p == 0 {
        q := Malloc(n);
        NullNotLive();
        return;
      }
      ghost var k := LiveBlock(p);
      LiveBytes(p, k);
      HeaderFacts(k);
      var h := GetHeader(p - HEADER);
      if h.size >= n { return p; }
      q := Grow(p, n, h.size);
    }
  }

  /** Payload `p` (if any) gave way to a new payload `q` that starts with the same bytes. */
  ghost predicate Moved(c: map<nat, seq<byte>>, c': map<nat, seq<byte>>, p: nat, q: nat) {
    && q !in c && q in c'
    && c' == c[q := c'[q]] - {p}
    && (p in c ==> c[p] <= c'[q])
  }
}
