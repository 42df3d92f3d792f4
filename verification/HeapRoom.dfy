/** How much a heap can still serve: the free block at its end. */
module HeapRoom {
  import opened Machine
  import opened HeapLayout

  /** Size of the last block, if that is free. */
  function Spare(bs: seq<Block>): nat {
    if bs != [] && bs[|bs| - 1].free then bs[|bs| - 1].size else 0
  }

  /** At most what a request for `n` bytes takes, header included. */
  function Need(n: nat): nat {
    n + 15 + HEADER
  }

  /** A request the last block can serve is granted, from there or from an earlier block, and takes no
      more than it needs. */
  lemma MallocSpare(bs: seq<Block>, n: u32)
    requires 0 < n && Spare(bs) >= Need(n) + 16
    ensures MallocIndex(bs, n) < |bs| && MallocPtr(bs, n) != 0
    ensures Spare(AfterMalloc(bs, n)) >= Spare(bs) - Need(n)
  {
    AlignCovers(n);
    var k, last := MallocIndex(bs, n), |bs| - 1;
    assert Fits(bs[last], Align16(n));
    var mid := Granted(bs[k], Align16(n));
    var cs := AfterMalloc(bs, n);
    LastOfSplice(bs, k, 1, mid);
    assert k == last ==> |mid| == 2;
  }

  lemma LastOfSplice(bs: seq<Block>, k: nat, w: nat, mid: seq<Block>)
    requires k + w <= |bs| && mid != []
    ensures var cs := Splice(bs, k, w, mid);
      cs != [] && cs[|cs| - 1] == if k + w < |bs| then bs[|bs| - 1] else mid[|mid| - 1]
  {
  }

  /** Freeing takes nothing from it, also when the block freed merges with the last one. */
  lemma FreeSpare(bs: seq<Block>, p: nat)
    ensures Spare(AfterFree(bs, p)) >= Spare(bs)
  {
    var k := LiveIndex(bs, p, 0);
    if k < |bs| && Spare(bs) > 0 {
      var cs := AfterFree(bs, p);
      assert k < |bs| - 1;
      if k + 1 < |bs| - 1 || !bs[k + 1].free {
        assert cs[|cs| - 1] == bs[|bs| - 1];
      }
    }
  }
}
