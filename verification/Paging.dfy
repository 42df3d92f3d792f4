/** The page tables of src/kernel/paging.cpp and the two-level walk of 32-bit paging (section 4.3 of
    volume 3A of the Intel SDM) that gives them their meaning. */
module Paging {
  import opened Machine
  import opened Options

  const ENTRIES := 1024
  /** Pages below 16 MiB. */
  const LOW_PAGES := 4096
  const ALL_PAGES := 0x10_0000
  const PRESENT := 1
  const PRESENT_RW := 3

  datatype Mapping = Mapping(frame: nat, rw: bool)

  /** Page numbers of the directory and of the four tables. */
  datatype Layout = Layout(pd: nat, tables: seq<nat>) {
    ghost predicate Valid() {
      && |tables| == 4 && pd < LOW_PAGES
      && (forall i :: 0 <= i < 4 ==> tables[i] < LOW_PAGES && tables[i] != pd)
      && (forall i, j :: 0 <= i < j < 4 ==> tables[i] != tables[j])
    }

    ghost predicate IsStructure(page: nat) {
      page == pd || page in tables
    }
  }

  /** A table entry: frame number above twelve flag bits, of which present and writable are set. */
  function EntryWord(frame: nat, flags: nat): u32
    requires frame < ALL_PAGES && flags < 4096
  {
    frame * 4096 + flags
  }

  function IsPresent(w: u32): bool { w % 2 == 1 }
  function IsWritable(w: u32): bool { w / 2 % 2 == 1 }
  function FrameOf(w: u32): (frame: nat)
    ensures frame < ALL_PAGES
  {
    w / 4096
  }

  lemma EntryFields(frame: nat, rw: bool)
    requires frame < ALL_PAGES
    ensures var w := EntryWord(frame, if rw then PRESENT_RW else PRESENT);
      IsPresent(w) && IsWritable(w) == rw && FrameOf(w) == frame
  {
  }

  /** Directory entry `i`. */
  function Pde(m: seq<u32>, pd: nat, i: nat): u32
    requires ENTRIES * pd + ENTRIES <= |m| && i < ENTRIES
  {
    m[ENTRIES * pd + i]
  }

  /** The walk of virtual page `page` over memory words `m` from directory page `pd`. */
  function Walk(m: seq<u32>, pd: nat, page: nat): Option<Mapping>
    requires ENTRIES * pd + ENTRIES <= |m| && page < ALL_PAGES
  {
    var pde := Pde(m, pd, page / ENTRIES);
    if !IsPresent(pde) || ENTRIES * FrameOf(pde) + ENTRIES > |m| then None
    else
      var pte := m[ENTRIES * FrameOf(pde) + page % ENTRIES];
      if IsPresent(pte) then Some(Mapping(FrameOf(pte), IsWritable(pde) && IsWritable(pte))) else None
  }

  // ---------------------------------------------------------------- the kernel's tables

  /** Word index of the table entry for a page below 16 MiB. */
  function Slot(l: Layout, page: nat): nat
    requires |l.tables| == 4 && page < LOW_PAGES
  {
    ENTRIES * l.tables[page / ENTRIES] + page % ENTRIES
  }

  /** The directory names the four tables, and nothing else. */
  ghost predicate Wired(m: seq<u32>, l: Layout) {
    && l.Valid() && ENTRIES * LOW_PAGES <= |m|
    && (forall i :: 0 <= i < 4 ==> Pde(m, l.pd, i) == EntryWord(l.tables[i], PRESENT_RW))
    && (forall i :: 4 <= i < ENTRIES ==> Pde(m, l.pd, i) == 0)
  }

  lemma SlotDistinct(l: Layout, p: nat, q: nat)
    requires l.Valid() && p < LOW_PAGES && q < LOW_PAGES && p != q
    ensures Slot(l, p) != Slot(l, q)
  {
    assert p == ENTRIES * (p / ENTRIES) + p % ENTRIES;
    assert q == ENTRIES * (q / ENTRIES) + q % ENTRIES;
    if p / ENTRIES < q / ENTRIES {
      assert l.tables[p / ENTRIES] != l.tables[q / ENTRIES];
    } else if q / ENTRIES < p / ENTRIES {
      assert l.tables[q / ENTRIES] != l.tables[p / ENTRIES];
    }
  }

  /** What the walk gives on the kernel's tables: the entry of the page, or nothing at 16 MiB and up. */
  lemma WalkWired(m: seq<u32>, l: Layout, page: nat)
    requires Wired(m, l) && page < ALL_PAGES
    ensures page >= LOW_PAGES ==> Walk(m, l.pd, page) == None
    ensures page < LOW_PAGES ==>
              Slot(l, page) < |m| && var w := m[Slot(l, page)];
              Walk(m, l.pd, page) == if IsPresent(w) then Some(Mapping(FrameOf(w), IsWritable(w))) else None
  {
    var i := page / ENTRIES;
    if page < LOW_PAGES {
      assert i < 4;
      EntryFields(l.tables[i], true);
      assert Pde(m, l.pd, i) == EntryWord(l.tables[i], PRESENT_RW);
    } else {
      assert 4 <= i < ENTRIES;
      assert Pde(m, l.pd, i) == 0;
    }
  }

  /** One word changes, outside the directory. */
  lemma WiredUpdate(m: seq<u32>, l: Layout, at: nat, w: u32)
    requires Wired(m, l) && at < |m| && !(ENTRIES * l.pd <= at < ENTRIES * l.pd + ENTRIES)
    ensures Wired(m[at := w], l)
  {
    var m' := m[at := w];
    forall i | 0 <= i < 4 ensures Pde(m', l.pd, i) == EntryWord(l.tables[i], PRESENT_RW) {
      assert Pde(m, l.pd, i) == EntryWord(l.tables[i], PRESENT_RW);
    }
    forall i | 4 <= i < ENTRIES ensures Pde(m', l.pd, i) == 0 {
      assert Pde(m, l.pd, i) == 0;
    }
  }

  // ---------------------------------------------------------------- vmm_map

  /** Word `word` of virtual memory lives at this physical word index; writes ignore the rw flag,
      since the kernel runs in supervisor mode and `vmm_enable` leaves CR0.WP clear. */
  function Locate(m: seq<u32>, pd: nat, word: nat): Option<nat>
    requires ENTRIES * pd + ENTRIES <= |m| && word < ENTRIES * ALL_PAGES
  {
    match Walk(m, pd, word / ENTRIES)
    case None => None
    case Some(Mapping(frame, _)) =>
      if ENTRIES * frame + ENTRIES <= |m| then Some(ENTRIES * frame + word % ENTRIES) else None
  }

  lemma Paged(page: nat, i: nat)
    requires i < ENTRIES
    ensures (ENTRIES * page + i) / ENTRIES == page && (ENTRIES * page + i) % ENTRIES == i
  {
  }

  /** Where `vmm_map` stores the entry for `page`: it follows the directory entry to the table and
      goes through the current mapping of the table's own page. */
  function Target(m: seq<u32>, l: Layout, page: nat): Option<nat>
    requires Wired(m, l) && page < LOW_PAGES
  {
    Locate(m, l.pd, Slot(l, page))
  }

  lemma TargetFrame(m: seq<u32>, l: Layout, page: nat, g: Mapping, at: nat)
    requires Wired(m, l) && page < LOW_PAGES
    requires Walk(m, l.pd, l.tables[page / ENTRIES]) == Some(g) && Target(m, l, page) == Some(at)
    ensures at == ENTRIES * g.frame + page % ENTRIES && at < |m|
    ensures g.frame != l.pd ==> !(ENTRIES * l.pd <= at < ENTRIES * l.pd + ENTRIES)
    ensures g.frame != l.tables[page / ENTRIES] ==> at != Slot(l, page)
  {
    assert l.Valid() && Slot(l, page) < ENTRIES * ALL_PAGES;
    hide Walk, Wired;
    Paged(l.tables[page / ENTRIES], page % ENTRIES);
  }

  datatype Call = Call(virtualAddr: u32, physicalAddr: u32, rw: bool)

  function PageOf(c: Call): nat { c.virtualAddr / 4096 }
  function FrameFor(c: Call): nat { c.physicalAddr / 4096 }

  function WordFor(c: Call): u32 {
    EntryWord(FrameFor(c), if c.rw then PRESENT_RW else PRESENT)
  }

  /** The word stored: the frame asked for, present, writable as asked; no other flag is set, so no page is
      opened to user mode. */
  lemma StoredWord(c: Call)
    ensures WordFor(c) / 4096 == c.physicalAddr / 4096 && WordFor(c) % 4096 == if c.rw then 3 else 1
  {
  }

  /** Memory after `vmm_map`, for any tables: the directory entry is read through the walk, nothing
      happens when it is not present, else the entry is stored through the walk. `None` stands for an
      access to a page that is not mapped, or not to memory. */
  function AfterMap(m: seq<u32>, l: Layout, c: Call): Option<seq<u32>>
    requires ENTRIES * LOW_PAGES <= |m| && l.pd < LOW_PAGES
  {
    match Locate(m, l.pd, ENTRIES * l.pd + PageOf(c) / ENTRIES)
    case None => None
    case Some(a) =>
      if a >= |m| then None
      else if !IsPresent(m[a]) then Some(m)
      else
        match Locate(m, l.pd, ENTRIES * FrameOf(m[a]) + PageOf(c) % ENTRIES)
        case None => None
        case Some(at) => if at < |m| then Some(m[at := WordFor(c)]) else None
  }

  /** The store of `vmm_map` on the kernel's tables. */
  function StoreEntry(m: seq<u32>, at: Option<nat>, w: u32): Option<seq<u32>> {
    if at.Some? && at.value < |m| then Some(m[at.value := w]) else None
  }

  /** On the kernel's tables, while the directory's page is mapped to itself. */
  lemma AfterMapWired(m: seq<u32>, l: Layout, c: Call)
    requires Wired(m, l) && MapsItself(m, l, l.pd)
    ensures AfterMap(m, l, c) == if PageOf(c) >= LOW_PAGES then Some(m)
                                 else StoreEntry(m, Target(m, l, PageOf(c)), WordFor(c))
  {
    hide Locate, Pde, FrameOf, IsPresent, EntryWord, Walk;
    DirectoryRead(m, l, PageOf(c) / ENTRIES);
    DirectoryHolds(m, l, PageOf(c) / ENTRIES);
  }

  /** The directory entries of the kernel's tables. */
  lemma DirectoryHolds(m: seq<u32>, l: Layout, i: nat)
    requires Wired(m, l) && i < ENTRIES
    ensures var pde := m[ENTRIES * l.pd + i];
      && (IsPresent(pde) <==> i < 4)
      && (i < 4 ==> FrameOf(pde) == l.tables[i])
  {
    assert m[ENTRIES * l.pd + i] == Pde(m, l.pd, i);
    if i < 4 {
      assert Pde(m, l.pd, i) == EntryWord(l.tables[i], PRESENT_RW);
      EntryFields(l.tables[i], true);
    } else {
      assert Pde(m, l.pd, i) == 0;
    }
  }

  lemma DirectoryRead(m: seq<u32>, l: Layout, i: nat)
    requires Wired(m, l) && MapsItself(m, l, l.pd) && i < ENTRIES
    ensures Locate(m, l.pd, ENTRIES * l.pd + i) == Some(ENTRIES * l.pd + i)
  {
    hide Walk;
    Paged(l.pd, i);
  }

  ghost predicate MapsItself(m: seq<u32>, l: Layout, page: nat)
    requires ENTRIES * LOW_PAGES <= |m| && l.pd < LOW_PAGES && page < LOW_PAGES
  {
    var g := Walk(m, l.pd, page);
    g.Some? && g.value.frame == page
  }

  /** The entry of the directory that a call overwrites when the table's page is mapped to the
      directory's frame, and whether the walk through it then gives what was asked for. */
  ghost predicate SelfServing(m: seq<u32>, l: Layout, c: Call)
    requires ENTRIES * LOW_PAGES <= |m| && l.pd < LOW_PAGES
  {
    var f := FrameFor(c);
    && ENTRIES * f + ENTRIES <= |m|
    && (f == l.pd ||
        var w := m[ENTRIES * f + PageOf(c) % ENTRIES];
        IsPresent(w) && FrameOf(w) == f && (c.rw ==> IsWritable(w)))
  }

  /** A mapping takes effect exactly when the table's own page is mapped to itself, or the entry said so
      before; and in the one case in which the directory entry of the table itself is overwritten,
      exactly when the new table serves. This covers wherever the page of the table is mapped. */
  lemma MapTakesEffectIff(m: seq<u32>, l: Layout, c: Call, g: Mapping, m': seq<u32>)
    requires Wired(m, l) && MapsItself(m, l, l.pd) && PageOf(c) < LOW_PAGES
    requires Walk(m, l.pd, l.tables[PageOf(c) / ENTRIES]) == Some(g) && AfterMap(m, l, c) == Some(m')
    ensures var page, wanted := PageOf(c), Some(Mapping(FrameFor(c), c.rw));
      Walk(m', l.pd, page) == wanted <==>
      if g.frame == l.pd && page % ENTRIES == page / ENTRIES then SelfServing(m, l, c)
      else g.frame == l.tables[page / ENTRIES] || Walk(m, l.pd, page) == wanted
  {
    AfterMapWired(m, l, c);
    var page := PageOf(c);
    var at := Target(m, l, page).value;
    TargetFrame(m, l, page, g, at);
    if g.frame != l.pd {
      MapReachesFrame(m, l, c, g, m');
    } else if page % ENTRIES != page / ENTRIES {
      DirectoryElsewhere(m, l, page, WordFor(c), at, m');
    } else {
      DirectoryOverwritten(m, l, c, at, m');
    }
  }



  /** What a call does to the walk of every page when the page of its table is mapped to frame `g`: if
      that is the frame of a table, the same entry of that table changes, be it the right table or not;
      if it is no table's, nothing does. */
  lemma MapReachesFrame(m: seq<u32>, l: Layout, c: Call, g: Mapping, m': seq<u32>)
    requires Wired(m, l) && MapsItself(m, l, l.pd) && PageOf(c) < LOW_PAGES && g.frame != l.pd
    requires Walk(m, l.pd, l.tables[PageOf(c) / ENTRIES]) == Some(g) && AfterMap(m, l, c) == Some(m')
    ensures Wired(m', l)
    ensures forall p :: 0 <= p < ALL_PAGES ==>
              Walk(m', l.pd, p) ==
              if p < LOW_PAGES && l.tables[p / ENTRIES] == g.frame && p % ENTRIES == PageOf(c) % ENTRIES
              then Some(Mapping(FrameFor(c), c.rw)) else Walk(m, l.pd, p)
  {
    StoredThrough(m, l, c, g, m');
    WiredUpdate(m, l, ENTRIES * g.frame + PageOf(c) % ENTRIES, WordFor(c));
    assert l.Valid();
    hide Walk, Wired, MapsItself, AfterMap, WordFor;
    forall p: nat | p < ALL_PAGES
      ensures Walk(m', l.pd, p) ==
              if p < LOW_PAGES && l.tables[p / ENTRIES] == g.frame && p % ENTRIES == PageOf(c) % ENTRIES
              then Some(Mapping(FrameFor(c), c.rw)) else Walk(m, l.pd, p)
    {
      EntryReaches(m, l, g.frame, PageOf(c) % ENTRIES, FrameFor(c), c.rw, m', p);
    }
  }

  /** One word changes, outside the directory: what that does to the walk of page `p`. */
  lemma EntryReaches(m: seq<u32>, l: Layout, at: nat, i: nat, frame: nat, rw: bool, m': seq<u32>, p: nat)
    requires Wired(m, l) && Wired(m', l) && i < ENTRIES && ENTRIES * at + i < |m| && frame < ALL_PAGES && p < ALL_PAGES
    requires m' == m[ENTRIES * at + i := EntryWord(frame, if rw then PRESENT_RW else PRESENT)]
    ensures Walk(m', l.pd, p) ==
            if p < LOW_PAGES && l.tables[p / ENTRIES] == at && p % ENTRIES == i
            then Some(Mapping(frame, rw)) else Walk(m, l.pd, p)
  {
    EntryFields(frame, rw);
    assert l.Valid();
    hide Walk, Wired, EntryWord, IsPresent, IsWritable, FrameOf;
    WalkWired(m, l, p);
    WalkWired(m', l, p);
    if p < LOW_PAGES { SlotIs(l, p, at, i); }
  }

  lemma SlotIs(l: Layout, p: nat, frame: nat, i: nat)
    requires |l.tables| == 4 && p < LOW_PAGES && i < ENTRIES
    ensures Slot(l, p) == ENTRIES * frame + i <==> l.tables[p / ENTRIES] == frame && p % ENTRIES == i
  {
  }

  /** The store goes to the frame that the page of the table is mapped to. */
  lemma StoredThrough(m: seq<u32>, l: Layout, c: Call, g: Mapping, m': seq<u32>)
    requires Wired(m, l) && MapsItself(m, l, l.pd) && PageOf(c) < LOW_PAGES
    requires Walk(m, l.pd, l.tables[PageOf(c) / ENTRIES]) == Some(g) && AfterMap(m, l, c) == Some(m')
    ensures var at := ENTRIES * g.frame + PageOf(c) % ENTRIES;
      && at < |m| && m' == m[at := WordFor(c)]
      && (g.frame != l.pd ==> !(ENTRIES * l.pd <= at < ENTRIES * l.pd + ENTRIES))
  {
    hide Walk, MapsItself;
    AfterMapWired(m, l, c);
    TargetFrame(m, l, PageOf(c), g, Target(m, l, PageOf(c)).value);
  }

  /** When the page of the table is mapped to the directory, the call overwrites directory entry
      `PageOf(c) % 1024`: the 1024 pages of that entry are then walked through the frame of the call,
      and no other page changes. */
  lemma MapReachesDirectory(m: seq<u32>, l: Layout, c: Call, g: Mapping, m': seq<u32>)
    requires Wired(m, l) && MapsItself(m, l, l.pd) && PageOf(c) < LOW_PAGES && g.frame == l.pd
    requires Walk(m, l.pd, l.tables[PageOf(c) / ENTRIES]) == Some(g) && AfterMap(m, l, c) == Some(m')
    ensures |m'| == |m|
    ensures forall p :: 0 <= p < ALL_PAGES ==>
              Walk(m', l.pd, p) ==
              if p / ENTRIES != PageOf(c) % ENTRIES then Walk(m, l.pd, p)
              else WalkTable(m', FrameFor(c), c.rw, p % ENTRIES)
  {
    StoredThrough(m, l, c, g, m');
    hide Walk, Wired, MapsItself, AfterMap, WordFor, WalkTable;
    forall p: nat | p < ALL_PAGES
      ensures Walk(m', l.pd, p) ==
              if p / ENTRIES != PageOf(c) % ENTRIES then Walk(m, l.pd, p)
              else WalkTable(m', FrameFor(c), c.rw, p % ENTRIES)
    {
      DirectoryReaches(m, l, PageOf(c) % ENTRIES, FrameFor(c), c.rw, m', p);
    }
  }

  /** Directory entry `i` changes: what that does to the walk of page `p`. */
  lemma DirectoryReaches(m: seq<u32>, l: Layout, i: nat, frame: nat, rw: bool, m': seq<u32>, p: nat)
    requires Wired(m, l) && i < ENTRIES && frame < ALL_PAGES && p < ALL_PAGES
    requires m' == m[ENTRIES * l.pd + i := EntryWord(frame, if rw then PRESENT_RW else PRESENT)]
    ensures Walk(m', l.pd, p) ==
            if p / ENTRIES != i then Walk(m, l.pd, p) else WalkTable(m', frame, rw, p % ENTRIES)
  {
    EntryFields(frame, rw);
    DirectoryHolds(m, l, p / ENTRIES);
    assert l.Valid();
    hide Wired, EntryWord, IsPresent, IsWritable, FrameOf, WalkTable;
    if p / ENTRIES == i {
      WalkAt(m', l.pd, p);
    } else {
      WalkAt(m, l.pd, p);
      WalkAt(m', l.pd, p);
      hide Walk;
      OtherWords(m, l, i, EntryWord(frame, if rw then PRESENT_RW else PRESENT), p / ENTRIES, p % ENTRIES);
    }
  }

  lemma WalkAt(m: seq<u32>, pd: nat, p: nat)
    requires ENTRIES * pd + ENTRIES <= |m| && p < ALL_PAGES
    ensures var pde := m[ENTRIES * pd + p / ENTRIES];
      Walk(m, pd, p) == if IsPresent(pde) then WalkTable(m, FrameOf(pde), IsWritable(pde), p % ENTRIES) else None
  {
  }

  lemma OtherWords(m: seq<u32>, l: Layout, i: nat, w: u32, k: nat, j: nat)
    requires Wired(m, l) && i < ENTRIES && k < ENTRIES && j < ENTRIES && k != i
    ensures var m' := m[ENTRIES * l.pd + i := w];
      && m'[ENTRIES * l.pd + k] == m[ENTRIES * l.pd + k]
      && (k < 4 ==> forall rw :: WalkTable(m', l.tables[k], rw, j) == WalkTable(m, l.tables[k], rw, j))
  {
    assert k < 4 ==> l.tables[k] != l.pd;
  }

  /** Entry `i` of the table in `frame`, under a directory entry with flag `rw`. */
  function WalkTable(m: seq<u32>, frame: nat, rw: bool, i: nat): Option<Mapping>
    requires i < ENTRIES
  {
    if ENTRIES * frame + ENTRIES > |m| then None
    else
      var pte := m[ENTRIES * frame + i];
      if IsPresent(pte) then Some(Mapping(FrameOf(pte), rw && IsWritable(pte))) else None
  }

  /** Another entry of the directory is overwritten: the walk of the page does not notice. */
  lemma DirectoryElsewhere(m: seq<u32>, l: Layout, page: nat, w: u32, at: nat, m': seq<u32>)
    requires Wired(m, l) && page < LOW_PAGES && page % ENTRIES != page / ENTRIES
    requires at == ENTRIES * l.pd + page % ENTRIES && m' == m[at := w]
    ensures Walk(m', l.pd, page) == Walk(m, l.pd, page)
  {
    var i := page / ENTRIES;
    assert Pde(m', l.pd, i) == Pde(m, l.pd, i) == EntryWord(l.tables[i], PRESENT_RW);
    EntryFields(l.tables[i], true);
    assert l.tables[i] != l.pd;
  }

  lemma DirectoryOverwritten(m: seq<u32>, l: Layout, c: Call, at: nat, m': seq<u32>)
    requires Wired(m, l) && PageOf(c) < LOW_PAGES && PageOf(c) % ENTRIES == PageOf(c) / ENTRIES
    requires at == ENTRIES * l.pd + PageOf(c) % ENTRIES && m' == m[at := WordFor(c)]
    ensures Walk(m', l.pd, PageOf(c)) == Some(Mapping(FrameFor(c), c.rw)) <==> SelfServing(m, l, c)
  {
    EntryFields(FrameFor(c), c.rw);
    assert Pde(m', l.pd, PageOf(c) / ENTRIES) == WordFor(c);
  }

  // ---------------------------------------------------------------- the invariant

  /** Every page below 16 MiB has a present entry, and the paging structures map to themselves. */
  ghost predicate Settled(m: seq<u32>, l: Layout) {
    && Wired(m, l)
    && (forall p :: 0 <= p < LOW_PAGES ==> Slot(l, p) < |m| && IsPresent(m[Slot(l, p)]))
    && (forall p :: 0 <= p < LOW_PAGES && l.IsStructure(p) ==> FrameOf(m[Slot(l, p)]) == p)
  }

  /** In a settled memory the stores of `vmm_map` land in the table itself. */
  lemma SettledTarget(m: seq<u32>, l: Layout, page: nat)
    requires Settled(m, l) && page < LOW_PAGES
    ensures Target(m, l, page) == Some(Slot(l, page))
  {
    var t := l.tables[page / ENTRIES];
    assert l.IsStructure(t);
    Paged(t, page % ENTRIES);
    WalkWired(m, l, t);
    assert IsPresent(m[Slot(l, t)]) && FrameOf(m[Slot(l, t)]) == t;
  }

  /** Setting one entry changes the translation of that page only, and keeps the memory settled
      unless it sends a paging structure elsewhere. */
  lemma SettledUpdate(m: seq<u32>, l: Layout, page: nat, frame: nat, rw: bool, m': seq<u32>)
    requires Settled(m, l) && page < LOW_PAGES && frame < ALL_PAGES
    requires l.IsStructure(page) ==> frame == page
    requires m' == m[Slot(l, page) := EntryWord(frame, if rw then PRESENT_RW else PRESENT)]
    ensures Settled(m', l)
    ensures forall p :: 0 <= p < ALL_PAGES ==>
              Walk(m', l.pd, p) == if p == page then Some(Mapping(frame, rw)) else Walk(m, l.pd, p)
  {
    var t := l.tables[page / ENTRIES];
    WiredUpdate(m, l, Slot(l, page), EntryWord(frame, if rw then PRESENT_RW else PRESENT));
    EntryFields(frame, rw);
    forall p: nat | p < LOW_PAGES
      ensures m'[Slot(l, p)] == if p == page then m'[Slot(l, page)] else m[Slot(l, p)]
    {
      if p != page { SlotDistinct(l, p, page); }
    }
    forall p: nat | p < ALL_PAGES
      ensures Walk(m', l.pd, p) == if p == page then Some(Mapping(frame, rw)) else Walk(m, l.pd, p)
    {
      WalkWired(m, l, p);
      WalkWired(m', l, p);
    }
  }

  /** The call moves none of the pages that hold the paging structures. */
  ghost predicate Harmless(l: Layout, c: Call) {
    l.IsStructure(c.virtualAddr / 4096) ==> c.physicalAddr / 4096 == c.virtualAddr / 4096
  }

  /** The mapping of `page` after `calls`: the last call for it, else the identity below 16 MiB. */
  function LastMapping(calls: seq<Call>, page: nat): Option<Mapping> {
    if page >= LOW_PAGES then None
    else if calls == [] then Some(Mapping(page, true))
    else
      var c := calls[|calls| - 1];
      if c.virtualAddr / 4096 == page then Some(Mapping(c.physicalAddr / 4096, c.rw))
      else LastMapping(calls[..|calls| - 1], page)
  }


  /** The mapping of a page below 16 MiB is that of its last call, or the writable identity without one. */
  lemma {:induction false} LastMappingIs(calls: seq<Call>, page: nat, i: nat)
    requires page < LOW_PAGES && i <= |calls|
    requires forall j :: i <= j < |calls| ==> calls[j].virtualAddr / 4096 != page
    requires i > 0 ==> calls[i - 1].virtualAddr / 4096 == page
    ensures LastMapping(calls, page) ==
            Some(if i == 0 then Mapping(page, true) else Mapping(calls[i - 1].physicalAddr / 4096, calls[i - 1].rw))
    decreases |calls|
  {
    if i < |calls| { LastMappingIs(calls[..|calls| - 1], page, i); }
  }

  /** What a harmless call of `vmm_map` does to a settled memory: below 16 MiB the page gets the mapping
      asked for and no other page changes; from 16 MiB on nothing happens. */
  lemma SettledMap(m: seq<u32>, l: Layout, c: Call)
    requires Settled(m, l) && Harmless(l, c)
    ensures AfterMap(m, l, c).Some? && Settled(AfterMap(m, l, c).value, l)
    ensures forall p :: 0 <= p < ALL_PAGES ==>
              Walk(AfterMap(m, l, c).value, l.pd, p) ==
              if p == PageOf(c) && p < LOW_PAGES then Some(Mapping(FrameFor(c), c.rw)) else Walk(m, l.pd, p)
  {
    DirectorySettled(m, l);
    hide Walk, AfterMap, MapsItself;
    AfterMapWired(m, l, c);
    if PageOf(c) < LOW_PAGES {
      SettledTarget(m, l, PageOf(c));
      SettledUpdate(m, l, PageOf(c), FrameFor(c), c.rw, m[Slot(l, PageOf(c)) := WordFor(c)]);
    }
  }

  lemma DirectorySettled(m: seq<u32>, l: Layout)
    requires Settled(m, l)
    ensures MapsItself(m, l, l.pd)
  {
    WalkWired(m, l, l.pd);
    assert l.IsStructure(l.pd) && IsPresent(m[Slot(l, l.pd)]);
  }

  /** After a call that sends a table's page to any frame but the directory's, a call for a page of that
      table gives its mapping to the page with the same entry in the table of that frame, or to no page
      at all, and changes no other translation. */
  lemma RetargetRedirects(m: seq<u32>, l: Layout, bad: Call, m1: seq<u32>, c: Call, m2: seq<u32>)
    requires Settled(m, l) && PageOf(c) < LOW_PAGES && PageOf(bad) == l.tables[PageOf(c) / ENTRIES]
    requires FrameFor(bad) != l.pd
    requires AfterMap(m, l, bad) == Some(m1) && AfterMap(m1, l, c) == Some(m2)
    ensures forall p :: 0 <= p < ALL_PAGES && p != PageOf(bad) ==> Walk(m1, l.pd, p) == Walk(m, l.pd, p)
    ensures forall p :: 0 <= p < ALL_PAGES ==>
              Walk(m2, l.pd, p) ==
              if p < LOW_PAGES && l.tables[p / ENTRIES] == FrameFor(bad) && p % ENTRIES == PageOf(c) % ENTRIES
              then Some(Mapping(FrameFor(c), c.rw)) else Walk(m1, l.pd, p)
  {
    assert l.Valid() && MapsItself(m1, l, l.pd) by {
      DirectorySettled(m, l);
      Retargeted(m, l, bad, m1);
    }
    hide Walk, AfterMap, MapsItself, EntryWord;
    Retargeted(m, l, bad, m1);
    MapReachesFrame(m1, l, c, Mapping(FrameFor(bad), bad.rw), m2);
  }

  /** In particular the page of the call is lost unless the table's page stayed where it was; sent to the
      frame of table `j`, the mapping goes to a page that is not the call's. */
  lemma RetargetMisplaces(m: seq<u32>, l: Layout, bad: Call, m1: seq<u32>, c: Call, m2: seq<u32>, j: nat)
    requires Settled(m, l) && PageOf(c) < LOW_PAGES && PageOf(bad) == l.tables[PageOf(c) / ENTRIES]
    requires j < 4 && j != PageOf(c) / ENTRIES && FrameFor(bad) == l.tables[j]
    requires AfterMap(m, l, bad) == Some(m1) && AfterMap(m1, l, c) == Some(m2)
    ensures var q := ENTRIES * j + PageOf(c) % ENTRIES;
      && q != PageOf(c) && Walk(m2, l.pd, q) == Some(Mapping(FrameFor(c), c.rw))
      && Walk(m2, l.pd, PageOf(c)) == Walk(m1, l.pd, PageOf(c))
  {
    hide Walk, AfterMap;
    RetargetRedirects(m, l, bad, m1, c, m2);
    Paged(j, PageOf(c) % ENTRIES);
    SamePlace(l, j, PageOf(c) / ENTRIES);
  }

  /** In a settled memory any call, one for a table's page included, changes one translation. */
  lemma Retargeted(m: seq<u32>, l: Layout, bad: Call, m1: seq<u32>)
    requires Settled(m, l) && PageOf(bad) < LOW_PAGES && AfterMap(m, l, bad) == Some(m1)
    ensures Wired(m1, l)
    ensures forall p :: 0 <= p < ALL_PAGES ==>
              Walk(m1, l.pd, p) == if p == PageOf(bad) then Some(Mapping(FrameFor(bad), bad.rw)) else Walk(m, l.pd, p)
  {
    var i := PageOf(bad) / ENTRIES;
    assert i < 4;
    DirectorySettled(m, l);
    var g := TableSettled(m, l, i);
    hide Walk, AfterMap, MapsItself, EntryWord, Settled;
    MapReachesFrame(m, l, bad, g, m1);
    forall p: nat | p < ALL_PAGES
      ensures Walk(m1, l.pd, p) == if p == PageOf(bad) then Some(Mapping(FrameFor(bad), bad.rw)) else Walk(m, l.pd, p)
    {
      if p < LOW_PAGES { SameSlot(l, p, PageOf(bad)); }
    }
  }

  lemma SamePlace(l: Layout, i: nat, j: nat)
    requires l.Valid() && i < 4 && j < 4
    ensures l.tables[i] != l.pd && (l.tables[i] == l.tables[j] <==> i == j)
  {
  }

  lemma SameSlot(l: Layout, p: nat, q: nat)
    requires l.Valid() && p < LOW_PAGES && q < LOW_PAGES
    ensures l.tables[p / ENTRIES] == l.tables[q / ENTRIES] && p % ENTRIES == q % ENTRIES <==> p == q
  {
    if p != q { SlotDistinct(l, p, q); }
  }

  lemma TableSettled(m: seq<u32>, l: Layout, i: nat) returns (g: Mapping)
    requires Settled(m, l) && i < 4
    ensures Wired(m, l) && Walk(m, l.pd, l.tables[i]) == Some(g) && g.frame == l.tables[i] != l.pd
  {
    WalkWired(m, l, l.tables[i]);
    assert l.IsStructure(l.tables[i]) && IsPresent(m[Slot(l, l.tables[i])]);
    g := Walk(m, l.pd, l.tables[i]).value;
  }

  /** The first `n` pages are mapped to themselves, writable. */
  ghost predicate IdentityUpTo(m: seq<u32>, l: Layout, n: nat) {
    && l.Valid() && n <= LOW_PAGES
    && forall p :: 0 <= p < n ==> Slot(l, p) < |m| && m[Slot(l, p)] == EntryWord(p, PRESENT_RW)
  }

  ghost predicate EmptyDirectory(m: seq<u32>, l: Layout) {
    && ENTRIES * l.pd + ENTRIES <= |m|
    && forall i :: 0 <= i < ENTRIES ==> Pde(m, l.pd, i) == 0
  }

  /** A slot lies in the page of its table. */
  lemma SlotPage(l: Layout, p: nat)
    requires l.Valid() && p < LOW_PAGES
    ensures p / ENTRIES < 4
    ensures ENTRIES * l.tables[p / ENTRIES] <= Slot(l, p)
    ensures Slot(l, p) < ENTRIES * l.tables[p / ENTRIES] + ENTRIES <= ENTRIES * LOW_PAGES
  {
  }

  lemma InitialWalk(m: seq<u32>, l: Layout)
    requires Wired(m, l) && IdentityUpTo(m, l, LOW_PAGES)
    ensures Settled(m, l)
    ensures forall p :: 0 <= p < ALL_PAGES ==> Walk(m, l.pd, p) == LastMapping([], p)
  {
    forall p: nat | p < ALL_PAGES ensures Walk(m, l.pd, p) == LastMapping([], p) {
      WalkWired(m, l, p);
      EntryFields(p, true);
    }
    forall p: nat | p < LOW_PAGES ensures IsPresent(m[Slot(l, p)]) && FrameOf(m[Slot(l, p)]) == p {
      EntryFields(p, true);
    }
  }

  class Vmm {
    /** Physical memory as 32-bit words. */
    const phys: array<u32>
    const layout: Layout

    ghost predicate Valid()
      reads phys
    {
      Settled(phys[..], layout)
    }

    /** `vmm_init`: clear the directory and the tables, then map the first 16 MiB to themselves. */
    constructor (phys: array<u32>, layout: Layout)
      requires layout.Valid() && ENTRIES * LOW_PAGES <= phys.Length
      modifies phys
      ensures Valid() && this.phys == phys && this.layout == layout
      ensures forall p :: 0 <= p < ALL_PAGES ==>
                Walk(phys[..], layout.pd, p) == if p < LOW_PAGES then Some(Mapping(p, true)) else None
      ensures forall p :: 0 <= p < ALL_PAGES ==> Walk(phys[..], layout.pd, p) == LastMapping([], p)
      ensures forall k :: 0 <= k < ENTRIES ==>
                Pde(phys[..], layout.pd, k) == if k < 4 then 4096 * layout.tables[k] + 3 else 0
      ensures forall p :: 0 <= p < LOW_PAGES ==>
                Slot(layout, p) < phys.Length && phys[Slot(layout, p)] == 4096 * p + 3
    {
      this.phys := phys;
      this.layout := layout;
      new;
      ClearPage(layout.pd);
      for t := 0 to 4
        invariant EmptyDirectory(phys[..], layout)
      {
        ghost var m := phys[..];
        ClearPage(layout.tables[t]);
        forall i | 0 <= i < ENTRIES ensures Pde(phys[..], layout.pd, i) == 0 {
          assert Pde(m, layout.pd, i) == 0;
        }
      }
      FillTables();
      FillDirectory();
      InitialWalk(phys[..], layout);
      InitialWords(phys[..], layout);
    }

    static lemma InitialWords(m: seq<u32>, l: Layout)
      requires Wired(m, l) && IdentityUpTo(m, l, LOW_PAGES)
      ensures forall k :: 0 <= k < ENTRIES ==> Pde(m, l.pd, k) == if k < 4 then 4096 * l.tables[k] + 3 else 0
      ensures forall p :: 0 <= p < LOW_PAGES ==> Slot(l, p) < |m| && m[Slot(l, p)] == 4096 * p + 3
    {
      hide Pde, Slot;
      forall k | 0 <= k < ENTRIES ensures Pde(m, l.pd, k) == if k < 4 then 4096 * l.tables[k] + 3 else 0 {
        assert k < 4 ==> Pde(m, l.pd, k) == EntryWord(l.tables[k], PRESENT_RW);
      }
    }

    method ClearPage(page: nat)
      requires page < LOW_PAGES && ENTRIES * LOW_PAGES <= phys.Length
      modifies phys
      ensures forall k :: 0 <= k < phys.Length ==>
                phys[k] == if ENTRIES * page <= k < ENTRIES * page + ENTRIES then 0 else old(phys[k])
    {
      for i := 0 to ENTRIES
        invariant forall k :: 0 <= k < phys.Length ==>
                    phys[k] == if ENTRIES * page <= k < ENTRIES * page + i then 0 else old(phys[k])
      {
        phys[ENTRIES * page + i] := 0;
      }
    }

    /** One table: entry `i` maps page `1024 * t + i` to itself. */
    method FillTable(t: nat)
      requires t < 4 && layout.Valid() && ENTRIES * LOW_PAGES <= phys.Length
      modifies phys
      ensures forall k :: 0 <= k < phys.Length
                          && !(ENTRIES * layout.tables[t] <= k < ENTRIES * layout.tables[t] + ENTRIES)
                ==> phys[k] == old(phys[k])
      ensures forall p :: ENTRIES * t <= p < ENTRIES * t + ENTRIES ==> phys[Slot(layout, p)] == EntryWord(p, PRESENT_RW)
    {
      var base := ENTRIES * layout.tables[t];
      for i := 0 to ENTRIES
        invariant forall k :: 0 <= k < phys.Length && !(base <= k < base + ENTRIES) ==> phys[k] == old(phys[k])
        invariant forall k :: base <= k < base + i ==> phys[k] == EntryWord(ENTRIES * t + (k - base), PRESENT_RW)
      {
        phys[base + i] := EntryWord(ENTRIES * t + i, PRESENT_RW);
      }
      forall p | ENTRIES * t <= p < ENTRIES * t + ENTRIES
        ensures phys[Slot(layout, p)] == EntryWord(p, PRESENT_RW)
      {
        Paged(t, p - ENTRIES * t);
      }
    }

    method FillTables()
      requires layout.Valid() && ENTRIES * LOW_PAGES <= phys.Length && EmptyDirectory(phys[..], layout)
      modifies phys
      ensures EmptyDirectory(phys[..], layout) && IdentityUpTo(phys[..], layout, LOW_PAGES)
    {
      for t := 0 to 4
        invariant EmptyDirectory(phys[..], layout) && IdentityUpTo(phys[..], layout, ENTRIES * t)
      {
        ghost var m := phys[..];
        FillTable(t);
        forall p: nat | p < ENTRIES * t + ENTRIES
          ensures Slot(layout, p) < phys.Length && phys[Slot(layout, p)] == EntryWord(p, PRESENT_RW)
        {
          SlotPage(layout, p);
          if p < ENTRIES * t {
            assert m[Slot(layout, p)] == EntryWord(p, PRESENT_RW);
            assert layout.tables[p / ENTRIES] != layout.tables[t];
          }
        }
        forall i | 0 <= i < ENTRIES ensures Pde(phys[..], layout.pd, i) == 0 {
          assert Pde(m, layout.pd, i) == 0;
        }
      }
    }

    method FillDirectory()
      requires ENTRIES * LOW_PAGES <= phys.Length
      requires EmptyDirectory(phys[..], layout) && IdentityUpTo(phys[..], layout, LOW_PAGES)
      modifies phys
      ensures Wired(phys[..], layout) && IdentityUpTo(phys[..], layout, LOW_PAGES)
    {
      ghost var m := phys[..];
      var pd := ENTRIES * layout.pd;
      phys[pd] := EntryWord(layout.tables[0], PRESENT_RW);
      phys[pd + 1] := EntryWord(layout.tables[1], PRESENT_RW);
      phys[pd + 2] := EntryWord(layout.tables[2], PRESENT_RW);
      phys[pd + 3] := EntryWord(layout.tables[3], PRESENT_RW);
      DirectoryFilled(m, phys[..], layout);
    }

    static lemma DirectoryFilled(m: seq<u32>, m': seq<u32>, l: Layout)
      requires EmptyDirectory(m, l) && IdentityUpTo(m, l, LOW_PAGES)
      requires |m| == |m'| && ENTRIES * LOW_PAGES <= |m|
      requires forall k :: 0 <= k < |m| && !(ENTRIES * l.pd <= k < ENTRIES * l.pd + 4) ==> m'[k] == m[k]
      requires forall i :: 0 <= i < 4 ==> Pde(m', l.pd, i) == EntryWord(l.tables[i], PRESENT_RW)
      ensures Wired(m', l) && IdentityUpTo(m', l, LOW_PAGES)
    {
      forall i | 4 <= i < ENTRIES ensures Pde(m', l.pd, i) == 0 {
        assert Pde(m, l.pd, i) == 0;
      }
      forall p: nat | p < LOW_PAGES ensures m'[Slot(l, p)] == EntryWord(p, PRESENT_RW) {
        SlotPage(l, p);
        assert m[Slot(l, p)] == EntryWord(p, PRESENT_RW);
      }
    }

    /** A memory access by the kernel with paging on: through the walk, to a mapped page. */
    method Load(word: nat) returns (w: u32)
      requires ENTRIES * layout.pd + ENTRIES <= phys.Length && word < ENTRIES * ALL_PAGES
      requires Locate(phys[..], layout.pd, word).Some?
      ensures w == phys[Locate(phys[..], layout.pd, word).value]
    {
      w := phys[Locate(phys[..], layout.pd, word).value];
    }

    method Store(word: nat, w: u32)
      requires ENTRIES * layout.pd + ENTRIES <= phys.Length && word < ENTRIES * ALL_PAGES
      requires Locate(phys[..], layout.pd, word).Some?
      modifies phys
      ensures phys[..] == old(phys[..])[old(Locate(phys[..], layout.pd, word)).value := w]
    {
      var at := Locate(phys[..], layout.pd, word).value;
      phys[at] := w;
    }

    /** `vmm_map`, on any tables, as long as what it touches is mapped to memory. */
    method Map(c: Call)
      requires ENTRIES * LOW_PAGES <= phys.Length && layout.pd < LOW_PAGES
      requires AfterMap(phys[..], layout, c).Some?
      modifies phys
      ensures phys[..] == AfterMap(old(phys[..]), layout, c).value
      ensures forall k :: 0 <= k < phys.Length && phys[k] != old(phys[k]) ==>
                phys[k] / 4096 == c.physicalAddr / 4096 && phys[k] % 4096 == if c.rw then 3 else 1
    {
      StoredWord(c);
      hide Locate, EntryWord, FrameOf, IsPresent;
      var pdIndex := c.virtualAddr / 0x40_0000;
      var ptIndex := c.virtualAddr / 0x1000 % 0x400;
      IndexSplit(c.virtualAddr);
      var pde := Load(ENTRIES * layout.pd + pdIndex);
      if !IsPresent(pde) { return; }
      Store(ENTRIES * FrameOf(pde) + ptIndex, EntryWord(c.physicalAddr / 4096, if c.rw then PRESENT_RW else PRESENT));
    }

    static lemma IndexSplit(a: u32)
      ensures a / 0x40_0000 == a / 4096 / ENTRIES && a / 0x1000 % 0x400 == a / 4096 % ENTRIES
    {
    }

    /** Every run of harmless calls: the walk of any page gives the last mapping made for it, else
        the identity below 16 MiB, else nothing. */
    method Run(calls: seq<Call>)
      requires Valid()
      requires forall p :: 0 <= p < ALL_PAGES ==> Walk(phys[..], layout.pd, p) == LastMapping([], p)
      requires forall i :: 0 <= i < |calls| ==> Harmless(layout, calls[i])
      modifies phys
      ensures Valid()
      ensures forall p :: 0 <= p < ALL_PAGES ==> Walk(phys[..], layout.pd, p) == LastMapping(calls, p)
    {
      for i := 0 to |calls|
        invariant Valid()
        invariant forall p :: 0 <= p < ALL_PAGES ==> Walk(phys[..], layout.pd, p) == LastMapping(calls[..i], p)
      {
        SettledMap(phys[..], layout, calls[i]);
        Map(calls[i]);
        assert calls[..i + 1][..i] == calls[..i];
      }
      assert calls[..|calls|] == calls;
    }
  }
}
