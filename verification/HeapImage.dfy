/** How raw memory represents a block list, and the live payloads inside it. */
module HeapImage {
  import opened Machine
  import opened HeapLayout

  datatype Header = Header(size: nat, next: nat, free: bool)

  /** The three fields of the header at `a`: two words and a flag byte. */
  function HeaderAt(m: seq<byte>, a: nat): Header
    requires a + HEADER <= |m|
  {
    Header(Word(m, a), Word(m, a + 4), m[a + 8] != 0)
  }

  function Next(bs: seq<Block>, i: nat): nat
    requires i < |bs|
  {
    if i + 1 < |bs| then Addr(bs, i + 1) else 0
  }

  ghost predicate ImageAt(m: seq<byte>, bs: seq<Block>, i: nat)
    requires i < |bs|
  {
    && Addr(bs, i) + HEADER + bs[i].size <= |m|
    && HeaderAt(m, Addr(bs, i)) == Header(bs[i].size, Next(bs, i), bs[i].free)
  }

  /** Memory holds exactly the headers of `bs`, each linked to the one that follows it. */
  ghost predicate Image(m: seq<byte>, bs: seq<Block>) {
    forall i :: 0 <= i < |bs| ==> ImageAt(m, bs, i)
  }

  /** The bytes of the payload of block `i`. */
  function Payload(m: seq<byte>, bs: seq<Block>, i: nat): seq<byte>
    requires i < |bs| && Ptr(bs, i) + bs[i].size <= |m|
  {
    m[Ptr(bs, i)..Ptr(bs, i) + bs[i].size]
  }

  /** If block `i` is allocated, `c` has its payload. */
  ghost predicate HoldsAt(m: seq<byte>, bs: seq<Block>, c: map<nat, seq<byte>>, i: nat)
    requires i < |bs|
  {
    && Ptr(bs, i) + bs[i].size <= |m|
    && (!bs[i].free ==> Ptr(bs, i) in c && c[Ptr(bs, i)] == Payload(m, bs, i))
  }

  ghost predicate HoldsAll(m: seq<byte>, bs: seq<Block>, c: map<nat, seq<byte>>) {
    forall i :: 0 <= i < |bs| ==> HoldsAt(m, bs, c, i)
  }

  ghost predicate IsLive(bs: seq<Block>, p: nat) {
    exists i: nat :: LiveAt(bs, i, p)
  }

  ghost predicate HoldsOnly(bs: seq<Block>, c: map<nat, seq<byte>>) {
    forall p {:trigger IsLive(bs, p)} :: p in c ==> IsLive(bs, p)
  }

  /** `c` maps exactly the payload addresses of the allocated blocks to their bytes. */
  ghost predicate Holds(m: seq<byte>, bs: seq<Block>, c: map<nat, seq<byte>>) {
    HoldsAll(m, bs, c) && HoldsOnly(bs, c)
  }

  /** The whole heap: tiling, headers and live payloads. */
  ghost predicate Represents(m: seq<byte>, bs: seq<Block>, c: map<nat, seq<byte>>) {
    |m| >= HEAP_END && WellFormed(bs) && Image(m, bs) && Holds(m, bs, c)
  }

  /** A payload address of a block occupying `[lo, hi)`: past its header, and at `hi` when empty. */
  predicate Within(p: nat, lo: nat, hi: nat) {
    lo < p <= hi
  }

  ghost predicate SameMapOutside(c: map<nat, seq<byte>>, c': map<nat, seq<byte>>, lo: nat, hi: nat) {
    && (forall p :: p in c && !Within(p, lo, hi) ==> p in c' && c'[p] == c[p])
    && (forall p :: p in c' && !Within(p, lo, hi) ==> p in c)
  }

  // ---------------------------------------------------------------- splices

  /** Correspondence of an index outside a splice: where it goes, and that its address stays. */
  lemma SpliceIndex(bs: seq<Block>, k: nat, w: nat, mid: seq<Block>, i: nat) returns (i': nat)
    requires k + w <= |bs| && Span(mid) == Span(bs[k..k + w]) && mid != []
    requires i < |bs| && (i < k || k + w <= i)
    ensures i' == if i < k then i else i - w + |mid|
    ensures i' < |Splice(bs, k, w, mid)| && Splice(bs, k, w, mid)[i'] == bs[i]
    ensures Addr(Splice(bs, k, w, mid), i') == Addr(bs, i)
    ensures Next(Splice(bs, k, w, mid), i') == Next(bs, i)
  {
    if i < k {
      i' := i;
      AddrBeforeSplice(bs, k, w, mid, i);
      AddrBeforeSplice(bs, k, w, mid, i + 1);
    } else {
      i' := i - w + |mid|;
      AddrAfterSplice(bs, k, w, mid, i);
      AddrAfterSplice(bs, k, w, mid, i + 1);
    }
  }

  /** A block outside `[k, k + w)` lies outside the bytes of those blocks. */
  lemma OutsideRange(bs: seq<Block>, k: nat, w: nat, i: nat)
    requires k + w <= |bs| && 0 < w && i < |bs| && (i < k || k + w <= i)
    ensures i < k ==> Ptr(bs, i) + bs[i].size <= Addr(bs, k)
    ensures k + w <= i ==> Addr(bs, k + w) <= Addr(bs, i)
    ensures Addr(bs, k) < Addr(bs, k + w)
  {
    AddrOrder(bs, k, k + w);
    if i < k { AddrOrder(bs, i, k); }
    if k + w < i { AddrOrder(bs, k + w, i); }
  }

  lemma SameHeader(m: seq<byte>, m': seq<byte>, lo: nat, hi: nat, a: nat)
    requires SameOutside(m, m', lo, hi) && a + HEADER <= |m|
    requires a + HEADER <= lo || hi <= a
    ensures HeaderAt(m', a) == HeaderAt(m, a)
  {
  }

  lemma ImageOutside(m: seq<byte>, m': seq<byte>, bs: seq<Block>, k: nat, w: nat, mid: seq<Block>, i: nat)
    returns (i': nat)
    requires Image(m, bs) && k + w <= |bs| && 0 < w && mid != [] && Span(mid) == Span(bs[k..k + w])
    requires SameOutside(m, m', Addr(bs, k), Addr(bs, k + w))
    requires i < |bs| && (i < k || k + w <= i)
    ensures i' == if i < k then i else i - w + |mid|
    ensures i' < |Splice(bs, k, w, mid)| && ImageAt(m', Splice(bs, k, w, mid), i')
  {
    i' := SpliceIndex(bs, k, w, mid, i);
    OutsideRange(bs, k, w, i);
    assert ImageAt(m, bs, i);
    SameHeader(m, m', Addr(bs, k), Addr(bs, k + w), Addr(bs, i));
  }

  /** Rewriting the bytes of some blocks into the headers of others of the same span. */
  lemma ImageSplice(m: seq<byte>, m': seq<byte>, bs: seq<Block>, k: nat, w: nat, mid: seq<Block>)
    requires Image(m, bs) && k + w <= |bs| && 0 < w && mid != [] && Span(mid) == Span(bs[k..k + w])
    requires SameOutside(m, m', Addr(bs, k), Addr(bs, k + w))
    requires forall i :: k <= i < k + |mid| ==> ImageAt(m', Splice(bs, k, w, mid), i)
    ensures Image(m', Splice(bs, k, w, mid))
  {
    var cs := Splice(bs, k, w, mid);
    forall i | 0 <= i < |cs| ensures ImageAt(m', cs, i) {
      if i < k {
        var _ := ImageOutside(m, m', bs, k, w, mid, i);
      } else if k + |mid| <= i {
        var _ := ImageOutside(m, m', bs, k, w, mid, i - |mid| + w);
      }
    }
  }

  lemma WellFormedSplice(bs: seq<Block>, k: nat, w: nat, mid: seq<Block>)
    requires WellFormed(bs) && k + w <= |bs| && 0 < w && mid != [] && Span(mid) == Span(bs[k..k + w])
    requires WordSized(mid)
    ensures WellFormed(Splice(bs, k, w, mid))
  {
    AddrAfterSplice(bs, k, w, mid, |bs|);
  }

  lemma SameRange(m: seq<byte>, m': seq<byte>, lo: nat, hi: nat, a: nat, n: nat)
    requires SameOutside(m, m', lo, hi) && a + n <= |m|
    requires a + n <= lo || hi <= a
    ensures m'[a..a + n] == m[a..a + n]
  {
  }

  lemma HoldsOutside(m: seq<byte>, m': seq<byte>, bs: seq<Block>, k: nat, w: nat, mid: seq<Block>,
                     c: map<nat, seq<byte>>, c': map<nat, seq<byte>>, i: nat)
    returns (i': nat)
    requires k + w <= |bs| && 0 < w && mid != [] && Span(mid) == Span(bs[k..k + w])
    requires SameOutside(m, m', Addr(bs, k), Addr(bs, k + w))
    requires SameMapOutside(c, c', Addr(bs, k), Addr(bs, k + w))
    requires i < |bs| && (i < k || k + w <= i) && HoldsAt(m, bs, c, i)
    ensures i' == if i < k then i else i - w + |mid|
    ensures i' < |Splice(bs, k, w, mid)| && HoldsAt(m', Splice(bs, k, w, mid), c', i')
  {
    i' := SpliceIndex(bs, k, w, mid, i);
    OutsideRange(bs, k, w, i);
    SameRange(m, m', Addr(bs, k), Addr(bs, k + w), Ptr(bs, i), bs[i].size);
  }

  /** A live block whose payload address is outside the bytes of `[k, k + w)` is none of those. */
  lemma LiveOutside(bs: seq<Block>, k: nat, w: nat, i: nat)
    requires k + w <= |bs| && i < |bs| && !Within(Ptr(bs, i), Addr(bs, k), Addr(bs, k + w))
    ensures i < k || k + w <= i
  {
    if k <= i < k + w {
      if k < i { AddrOrder(bs, k, i); }
      AddrOrder(bs, i, k + w);
    }
  }

  lemma HoldsAllSplice(m: seq<byte>, m': seq<byte>, bs: seq<Block>, k: nat, w: nat, mid: seq<Block>,
                       c: map<nat, seq<byte>>, c': map<nat, seq<byte>>)
    requires HoldsAll(m, bs, c) && k + w <= |bs| && 0 < w && mid != [] && Span(mid) == Span(bs[k..k + w])
    requires SameOutside(m, m', Addr(bs, k), Addr(bs, k + w))
    requires SameMapOutside(c, c', Addr(bs, k), Addr(bs, k + w))
    requires forall i :: k <= i < k + |mid| ==> HoldsAt(m', Splice(bs, k, w, mid), c', i)
    ensures HoldsAll(m', Splice(bs, k, w, mid), c')
  {
    hide Span, Addr, SameOutside, SameMapOutside, HoldsAt;
    var cs := Splice(bs, k, w, mid);
    forall i | 0 <= i < |cs| ensures HoldsAt(m', cs, c', i) {
      if i < k {
        var _ := HoldsOutside(m, m', bs, k, w, mid, c, c', i);
      } else if k + |mid| <= i {
        var _ := HoldsOutside(m, m', bs, k, w, mid, c, c', i - |mid| + w);
      }
    }
  }

  lemma HoldsOnlySplice(bs: seq<Block>, k: nat, w: nat, mid: seq<Block>,
                        c: map<nat, seq<byte>>, c': map<nat, seq<byte>>)
    requires HoldsOnly(bs, c) && k + w <= |bs| && 0 < w && mid != [] && Span(mid) == Span(bs[k..k + w])
    requires SameMapOutside(c, c', Addr(bs, k), Addr(bs, k + w))
    requires forall p :: p in c' && Within(p, Addr(bs, k), Addr(bs, k + w)) ==> IsLive(Splice(bs, k, w, mid), p)
    ensures HoldsOnly(Splice(bs, k, w, mid), c')
  {
    var cs := Splice(bs, k, w, mid);
    forall p | p in c' && !Within(p, Addr(bs, k), Addr(bs, k + w)) ensures IsLive(cs, p) {
      assert IsLive(bs, p);
      var i: nat :| LiveAt(bs, i, p);
      LiveOutside(bs, k, w, i);
      var i' := SpliceIndex(bs, k, w, mid, i);
      assert LiveAt(cs, i', p);
    }
  }

  /** Rewriting some blocks into others of the same span keeps the rest of the heap. */
  lemma RepresentsSplice(m: seq<byte>, m': seq<byte>, bs: seq<Block>, k: nat, w: nat, mid: seq<Block>, cs: seq<Block>,
                         c: map<nat, seq<byte>>, c': map<nat, seq<byte>>)
    requires Represents(m, bs, c) && k + w <= |bs| && 0 < w && mid != [] && Span(mid) == Span(bs[k..k + w])
    requires cs == Splice(bs, k, w, mid)
    requires SameOutside(m, m', Addr(bs, k), Addr(bs, k + w))
    requires SameMapOutside(c, c', Addr(bs, k), Addr(bs, k + w))
    requires WordSized(mid)
    requires forall i :: k <= i < k + |mid| ==> ImageAt(m', cs, i) && HoldsAt(m', cs, c', i)
    requires forall p :: p in c' && Within(p, Addr(bs, k), Addr(bs, k + w)) ==> IsLive(cs, p)
    ensures Represents(m', cs, c')
  {
    ImageSplice(m, m', bs, k, w, mid);
    WellFormedSplice(bs, k, w, mid);
    HoldsAllSplice(m, m', bs, k, w, mid, c, c');
    HoldsOnlySplice(bs, k, w, mid, c, c');
  }

  /** The addresses inside a splice. */
  lemma SpliceAddrs(bs: seq<Block>, k: nat, w: nat, mid: seq<Block>, cs: seq<Block>)
    requires k + w <= |bs| && 0 < w && mid != [] && Span(mid) == Span(bs[k..k + w])
    requires cs == Splice(bs, k, w, mid)
    ensures |cs| == |bs| - w + |mid|
    ensures Addr(cs, k) == Addr(bs, k)
    ensures Addr(cs, k + |mid|) == Addr(bs, k + w)
    ensures Next(cs, k + |mid| - 1) == Next(bs, k + w - 1)
  {
    AddrBeforeSplice(bs, k, w, mid, k);
    AddrAfterSplice(bs, k, w, mid, k + w);
  }

  lemma FreeNotHeld(bs: seq<Block>, k: nat, c: map<nat, seq<byte>>)
    requires HoldsOnly(bs, c) && k < |bs| && bs[k].free
    ensures Ptr(bs, k) !in c
  {
    if Ptr(bs, k) in c {
      assert IsLive(bs, Ptr(bs, k));
      var i: nat :| LiveAt(bs, i, Ptr(bs, k));
      AddrInjective(bs, i, k);
    }
  }

  /** The only payload address that can lie in the bytes of block `k` is its own. */
  lemma OneHeldInside(bs: seq<Block>, k: nat, c: map<nat, seq<byte>>)
    requires HoldsOnly(bs, c) && k < |bs|
    ensures forall p :: p in c && Within(p, Addr(bs, k), Addr(bs, k + 1)) ==> p == Ptr(bs, k)
  {
    forall p | p in c && Within(p, Addr(bs, k), Addr(bs, k + 1)) ensures p == Ptr(bs, k) {
      assert IsLive(bs, p);
      var i: nat :| LiveAt(bs, i, p);
      if i < k { OutsideRange(bs, k, 1, i); }
      if k + 1 <= i { OutsideRange(bs, k, 1, i); }
    }
  }

  // ---------------------------------------------------------------- the four header rewrites

  lemma SplitFacts(bs: seq<Block>, k: nat, n: nat) returns (mid: seq<Block>, cs: seq<Block>)
    requires k < |bs| && bs[k].size >= n + HEADER + 16
    ensures cs == Take(bs, k, n) == Splice(bs, k, 1, mid)
    ensures bs[k].size % 4 == 0 && n % 4 == 0 ==> WordSized(mid)
    ensures mid == [Block(n, false), Block(bs[k].size - n - HEADER, true)] && Span(mid) == Span(bs[k..k + 1])
    ensures k + 1 < |cs| && cs[k] == mid[0] && cs[k + 1] == mid[1]
    ensures Addr(cs, k) == Addr(bs, k) && Addr(cs, k + 1) == Ptr(bs, k) + n
    ensures Next(cs, k) == Ptr(bs, k) + n && Next(cs, k + 1) == Next(bs, k)
    ensures Addr(bs, k + 1) == Ptr(bs, k) + bs[k].size
  {
    mid := Granted(bs[k], n);
    cs := Take(bs, k, n);
    assert bs[k..k + 1] == [bs[k]];
    SpanOne(bs[k]);
    SpanTwo(mid[0], mid[1]);
    SpliceAddrs(bs, k, 1, mid, cs);
    AddrNext(cs, k);
    AddrNext(bs, k);
  }

  /** The live map after block `k` is granted with bytes `v`. */
  lemma GrantMap(bs: seq<Block>, k: nat, c: map<nat, seq<byte>>, v: seq<byte>, c': map<nat, seq<byte>>)
    requires HoldsOnly(bs, c) && k < |bs| && bs[k].free && c' == c[Ptr(bs, k) := v]
    ensures Ptr(bs, k) !in c
    ensures SameMapOutside(c, c', Addr(bs, k), Addr(bs, k + 1))
    ensures forall p :: p in c' && Within(p, Addr(bs, k), Addr(bs, k + 1)) ==> p == Ptr(bs, k)
  {
    FreeNotHeld(bs, k, c);
    OneHeldInside(bs, k, c);
    AddrNext(bs, k);
  }

  lemma GrantRepresents(m: seq<byte>, m': seq<byte>, bs: seq<Block>, k: nat, mid: seq<Block>, cs: seq<Block>,
                        c: map<nat, seq<byte>>, c': map<nat, seq<byte>>)
    requires Represents(m, bs, c) && k < |bs| && bs[k].free && mid != [] && WordSized(mid)
    requires cs == Splice(bs, k, 1, mid) && Span(mid) == Span(bs[k..k + 1]) && Addr(cs, k) == Addr(bs, k)
    requires SameOutside(m, m', Addr(bs, k), Addr(bs, k + 1))
    requires !cs[k].free
    requires forall i :: k <= i < k + |mid| ==> ImageAt(m', cs, i) && HoldsAt(m', cs, c', i)
    requires Ptr(bs, k) in c' && c' == c[Ptr(bs, k) := c'[Ptr(bs, k)]]
    ensures Ptr(bs, k) !in c
    ensures Represents(m', cs, c')
  {
    assert LiveAt(cs, k, Ptr(bs, k));
    assert IsLive(cs, Ptr(bs, k));
    GrantMap(bs, k, c, c'[Ptr(bs, k)], c');
    RepresentsSplice(m, m', bs, k, 1, mid, cs, c, c');
  }

  /** `kmalloc` cuts a free block in two. */
  lemma SplitRepresents(m: seq<byte>, m': seq<byte>, bs: seq<Block>, k: nat, n: nat, c: map<nat, seq<byte>>)
    requires Represents(m, bs, c) && k < |bs| && n % 4 == 0 && bs[k].size >= n + HEADER + 16
    requires bs[k].free
    requires SameOutside(m, m', Addr(bs, k), Addr(bs, k + 1))
    requires Ptr(bs, k) + n + HEADER <= |m'|
    requires HeaderAt(m', Addr(bs, k)) == Header(n, Ptr(bs, k) + n, false)
    requires HeaderAt(m', Ptr(bs, k) + n) == Header(bs[k].size - n - HEADER, Next(bs, k), true)
    ensures Ptr(bs, k) !in c
    ensures Represents(m', Take(bs, k, n), c[Ptr(bs, k) := m'[Ptr(bs, k)..Ptr(bs, k) + n]])
  {
    var mid, cs := SplitFacts(bs, k, n);
    BlockBounds(bs, k);
    var c' := c[Ptr(bs, k) := m'[Ptr(bs, k)..Ptr(bs, k) + n]];
    assert ImageAt(m', cs, k) && ImageAt(m', cs, k + 1);
    assert HoldsAt(m', cs, c', k) && HoldsAt(m', cs, c', k + 1);
    GrantRepresents(m, m', bs, k, mid, cs, c, c');
  }

  lemma OneFacts(bs: seq<Block>, k: nat, b: Block) returns (cs: seq<Block>)
    requires k < |bs| && b.size == bs[k].size
    ensures cs == Splice(bs, k, 1, [b]) && Span([b]) == Span(bs[k..k + 1])
    ensures |cs| == |bs| && cs[k] == b && Addr(cs, k) == Addr(bs, k) && Next(cs, k) == Next(bs, k)
    ensures Addr(bs, k + 1) == Ptr(bs, k) + bs[k].size
  {
    cs := Splice(bs, k, 1, [b]);
    assert bs[k..k + 1] == [bs[k]];
    SpanOne(bs[k]);
    SpanOne(b);
    SpliceAddrs(bs, k, 1, [b], cs);
    AddrNext(bs, k);
  }

  /** `kmalloc` grants a whole free block. */
  lemma WholeRepresents(m: seq<byte>, m': seq<byte>, bs: seq<Block>, k: nat, n: nat, c: map<nat, seq<byte>>)
    requires Represents(m, bs, c) && k < |bs| && n <= bs[k].size < n + HEADER + 16
    requires bs[k].free
    requires SameOutside(m, m', Addr(bs, k), Addr(bs, k + 1))
    requires Ptr(bs, k) + bs[k].size <= |m'|
    requires HeaderAt(m', Addr(bs, k)) == Header(bs[k].size, Next(bs, k), false)
    ensures Ptr(bs, k) !in c
    ensures Represents(m', Take(bs, k, n), c[Ptr(bs, k) := m'[Ptr(bs, k)..Ptr(bs, k) + bs[k].size]])
  {
    var cs := OneFacts(bs, k, Block(bs[k].size, false));
    BlockBounds(bs, k);
    var c' := c[Ptr(bs, k) := m'[Ptr(bs, k)..Ptr(bs, k) + bs[k].size]];
    assert ImageAt(m', cs, k) && HoldsAt(m', cs, c', k);
    GrantRepresents(m, m', bs, k, [Block(bs[k].size, false)], cs, c, c');
  }

  /** `kfree` of a block that is followed by an allocated block, or by none. */
  lemma FreeRepresents(m: seq<byte>, m': seq<byte>, bs: seq<Block>, k: nat, c: map<nat, seq<byte>>)
    requires Represents(m, bs, c) && k < |bs| && !bs[k].free && !(k + 1 < |bs| && bs[k + 1].free)
    requires SameOutside(m, m', Addr(bs, k), Addr(bs, k + 1))
    requires Addr(bs, k) + HEADER <= |m'|
    requires HeaderAt(m', Addr(bs, k)) == Header(bs[k].size, Next(bs, k), true)
    ensures Represents(m', Release(bs, k), c - {Ptr(bs, k)})
  {
    var mid := [Block(bs[k].size, true)];
    var cs := OneFacts(bs, k, mid[0]);
    BlockBounds(bs, k);
    assert ImageAt(m', cs, k);
    OneHeldInside(bs, k, c);
    RepresentsSplice(m, m', bs, k, 1, mid, cs, c, c - {Ptr(bs, k)});
  }

  lemma MergeFacts(bs: seq<Block>, k: nat, b: Block) returns (cs: seq<Block>)
    requires k + 1 < |bs| && b.size == bs[k].size + HEADER + bs[k + 1].size
    ensures cs == Splice(bs, k, 2, [b]) && Span([b]) == Span(bs[k..k + 2])
    ensures k < |cs| && cs[k] == b && Addr(cs, k) == Addr(bs, k) && Next(cs, k) == Next(bs, k + 1)
    ensures Addr(bs, k + 1) == Ptr(bs, k) + bs[k].size
    ensures Addr(bs, k + 2) == Ptr(bs, k) + b.size
    ensures bs[k].size % 4 == 0 && bs[k + 1].size % 4 == 0 ==> WordSized([b])
  {
    cs := Splice(bs, k, 2, [b]);
    assert bs[k..k + 2] == [bs[k], bs[k + 1]];
    SpanTwo(bs[k], bs[k + 1]);
    SpanOne(b);
    SpliceAddrs(bs, k, 2, [b], cs);
    AddrNext(bs, k);
    AddrNext(bs, k + 1);
  }

  /** A payload address in the bytes of an allocated block and of the free one after it. */
  lemma MergeHeld(bs: seq<Block>, k: nat, c: map<nat, seq<byte>>)
    requires HoldsOnly(bs, c) && k + 1 < |bs| && bs[k + 1].free
    ensures forall p :: p in c && Within(p, Addr(bs, k), Addr(bs, k + 2)) ==> p == Ptr(bs, k)
    ensures Within(Ptr(bs, k), Addr(bs, k), Addr(bs, k + 2))
  {
    OneHeldInside(bs, k, c);
    OneHeldInside(bs, k + 1, c);
    FreeNotHeld(bs, k + 1, c);
    AddrOrder(bs, k, k + 2);
  }

  /** `kfree` that merges the free block following. */
  lemma MergeRepresents(m: seq<byte>, m': seq<byte>, bs: seq<Block>, k: nat, c: map<nat, seq<byte>>)
    requires Represents(m, bs, c) && k + 1 < |bs| && !bs[k].free && bs[k + 1].free
    requires SameOutside(m, m', Addr(bs, k), Addr(bs, k + 2))
    requires Addr(bs, k) + HEADER <= |m'|
    requires HeaderAt(m', Addr(bs, k)) == Header(bs[k].size + HEADER + bs[k + 1].size, Next(bs, k + 1), true)
    ensures Represents(m', Release(bs, k), c - {Ptr(bs, k)})
  {
    var mid := [Block(bs[k].size + HEADER + bs[k + 1].size, true)];
    var cs := MergeFacts(bs, k, mid[0]);
    BlockBounds(bs, k + 1);
    assert bs[k].size % 4 == 0 && bs[k + 1].size % 4 == 0;
    assert ImageAt(m', cs, k) && HoldsAt(m', cs, c, k);
    MergeHeld(bs, k, c);
    RepresentsSplice(m, m', bs, k, 2, mid, cs, c, c - {Ptr(bs, k)});
  }

  /** A client that writes inside one live payload disturbs no header and no other payload. */
  lemma WriteRepresents(m: seq<byte>, m': seq<byte>, bs: seq<Block>, k: nat, c: map<nat, seq<byte>>)
    requires Represents(m, bs, c) && k < |bs| && !bs[k].free
    requires Ptr(bs, k) + bs[k].size <= |m'|
    requires SameOutside(m, m', Ptr(bs, k), Ptr(bs, k) + bs[k].size)
    ensures Represents(m', bs, c[Ptr(bs, k) := m'[Ptr(bs, k)..Ptr(bs, k) + bs[k].size]])
  {
    var cs := OneFacts(bs, k, bs[k]);
    assert cs == bs;
    var c' := c[Ptr(bs, k) := m'[Ptr(bs, k)..Ptr(bs, k) + bs[k].size]];
    assert ImageAt(m, bs, k);
    SameHeader(m, m', Ptr(bs, k), Ptr(bs, k) + bs[k].size, Addr(bs, k));
    assert ImageAt(m', bs, k) && HoldsAt(m', bs, c', k);
    assert LiveAt(bs, k, Ptr(bs, k));
    OneHeldInside(bs, k, c);
    RepresentsSplice(m, m', bs, k, 1, [bs[k]], cs, c, c');
  }

  /** A store of `d` at offset `off` of a live payload. */
  lemma StoreRepresents(m: seq<byte>, m': seq<byte>, bs: seq<Block>, k: nat, c: map<nat, seq<byte>>,
                        off: nat, d: seq<byte>)
    requires Represents(m, bs, c) && k < |bs| && !bs[k].free && Ptr(bs, k) in c
    requires off + |d| <= |c[Ptr(bs, k)]| && Ptr(bs, k) + |c[Ptr(bs, k)]| <= |m|
    requires SameOutside(m, m', Ptr(bs, k) + off, Ptr(bs, k) + off + |d|)
    requires m'[Ptr(bs, k) + off..Ptr(bs, k) + off + |d|] == d
    ensures Represents(m', bs, c[Ptr(bs, k) := Patch(c[Ptr(bs, k)], off, d)])
  {
    assert HoldsAt(m, bs, c, k);
    PatchedRange(m, m', Ptr(bs, k), bs[k].size, off, d);
    WriteRepresents(m, m', bs, k, c);
  }

  lemma TimesFour(x: nat, q: nat)
    requires x == 4 * q
    ensures x % 4 == 0
  {
  }

  lemma InitRepresents(m: seq<byte>, b: Block)
    requires |m| >= HEAP_END && b == Block(HEAP_SIZE - HEADER, true)
    requires HeaderAt(m, HEAP_START) == Header(b.size, 0, true)
    ensures Represents(m, [b], map[])
  {
    var bs := [b];
    SpanOne(b);
    assert bs[..0] == [] && bs[..1] == bs;
    assert Addr(bs, 0) == HEAP_START && Addr(bs, 1) == HEAP_END;
    assert Image(m, bs) by {
      assert ImageAt(m, bs, 0);
    }
    TimesFour(b.size, 0x1F_FFFD);
  }

  // ---------------------------------------------------------------- the header chain

  /** The header reached from `a` by following `next` `n` times. */
  ghost function Hop(m: seq<byte>, a: nat, n: nat): nat {
    if n == 0 then a
    else
      var b := Hop(m, a, n - 1);
      if b + HEADER <= |m| then HeaderAt(m, b).next else 0
  }

  /** The chain from the heap start visits the headers in address order and ends with NULL. */
  lemma {:induction false} ChainVisitsBlocks(m: seq<byte>, bs: seq<Block>, i: nat)
    requires WellFormed(bs) && Image(m, bs) && i <= |bs|
    ensures Hop(m, HEAP_START, i) == if i < |bs| then Addr(bs, i) else 0
  {
    if i == 0 {
      assert bs[..0] == [];
    } else {
      ChainVisitsBlocks(m, bs, i - 1);
      assert ImageAt(m, bs, i - 1);
    }
  }

  lemma {:induction false} ImageSamePrefix(m: seq<byte>, bs: seq<Block>, cs: seq<Block>, i: nat)
    requires Image(m, bs) && Image(m, cs) && i <= |bs| && i <= |cs|
    ensures bs[..i] == cs[..i]
  {
    if i > 0 {
      ImageSamePrefix(m, bs, cs, i - 1);
      assert ImageAt(m, bs, i - 1) && ImageAt(m, cs, i - 1);
      assert bs[..i] == bs[..i - 1] + [bs[i - 1]];
      assert cs[..i] == cs[..i - 1] + [cs[i - 1]];
    }
  }

  lemma ImageNotShorter(m: seq<byte>, bs: seq<Block>, cs: seq<Block>)
    requires WellFormed(bs) && Image(m, bs) && WellFormed(cs) && Image(m, cs)
    ensures |bs| >= |cs|
  {
    ChainVisitsBlocks(m, bs, |bs|);
    if |bs| < |cs| {
      ChainVisitsBlocks(m, cs, |bs|);
    }
  }

  /** Memory determines the block list: the headers alone are the allocator's state. */
  lemma ImageUnique(m: seq<byte>, bs: seq<Block>, cs: seq<Block>)
    requires WellFormed(bs) && Image(m, bs) && WellFormed(cs) && Image(m, cs)
    ensures bs == cs
  {
    ImageNotShorter(m, bs, cs);
    ImageNotShorter(m, cs, bs);
    ImageSamePrefix(m, bs, cs, |bs|);
    assert bs[..|bs|] == bs && cs[..|cs|] == cs;
  }

  /** Live payloads are pairwise disjoint, lie inside the heap, and avoid every header. */
  lemma PayloadsDisjoint(bs: seq<Block>, i: nat, j: nat)
    requires WellFormed(bs) && i < |bs| && j < |bs| && i != j
    ensures HEAP_START + HEADER <= Ptr(bs, i) && Ptr(bs, i) + bs[i].size <= HEAP_END
    ensures Ptr(bs, i) + bs[i].size <= Addr(bs, j) || Ptr(bs, j) + bs[j].size <= Addr(bs, i)
  {
    BlockBounds(bs, i);
    if i < j { AddrOrder(bs, i, j); } else { AddrOrder(bs, j, i); }
  }
}
