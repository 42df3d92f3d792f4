/** Binary digits of machine words, and bitmaps as sets of indices. */
module Bits {
  import opened Machine

  function Pow2(n: nat): (p: nat)
    ensures p > 0
  {
    if n == 0 then 1 else 2 * Pow2(n - 1)
  }

  /** `w & (1 << j)` is not zero. */
  predicate Bit(w: nat, j: nat) {
    if j == 0 then w % 2 == 1 else Bit(w / 2, j - 1)
  }

  /** `w | (1 << j)`. */
  function WithBit(w: nat, j: nat): nat {
    if j == 0 then w - w % 2 + 1 else 2 * WithBit(w / 2, j - 1) + w % 2
  }

  /** `w & ~(1 << j)`. */
  function WithoutBit(w: nat, j: nat): nat {
    if j == 0 then w - w % 2 else 2 * WithoutBit(w / 2, j - 1) + w % 2
  }

  /** In numbers: the operations add or take away `2^j`, and only when that changes the digit. */
  lemma {:induction false} BitArithmetic(w: nat, j: nat)
    ensures WithBit(w, j) == if Bit(w, j) then w else w + Pow2(j)
    ensures WithoutBit(w, j) == if Bit(w, j) then w - Pow2(j) else w
  {
    if j > 0 { BitArithmetic(w / 2, j - 1); }
  }

  lemma {:induction false} SetBit(w: nat, a: nat, b: nat)
    ensures Bit(WithBit(w, a), b) <==> a == b || Bit(w, b)
  {
    if a > 0 && b > 0 { SetBit(w / 2, a - 1, b - 1); }
  }

  lemma {:induction false} ClearBit(w: nat, a: nat, b: nat)
    ensures Bit(WithoutBit(w, a), b) <==> a != b && Bit(w, b)
  {
    if a > 0 && b > 0 { ClearBit(w / 2, a - 1, b - 1); }
  }

  lemma {:induction false} WordBounds(w: nat, j: nat, n: nat)
    requires w < Pow2(n) && j < n
    ensures WithBit(w, j) < Pow2(n) && WithoutBit(w, j) <= w
  {
    if j > 0 { WordBounds(w / 2, j - 1, n - 1); }
  }

  lemma {:induction false} ConstantBits(n: nat, j: nat)
    requires j < n
    ensures Bit(Pow2(n) - 1, j) && !Bit(0, j)
  {
    if j > 0 {
      ConstantBits(n - 1, j - 1);
      assert (Pow2(n) - 1) / 2 == Pow2(n - 1) - 1;
    }
  }

  lemma Pow2Of32()
    ensures Pow2(32) == 0x1_0000_0000
  {
    assert Pow2(8) == 0x100;
    assert Pow2(16) == 0x1_0000;
    assert Pow2(24) == 0x100_0000;
  }

  function Or(w: u32, j: nat): u32
    requires j < 32
  {
    Pow2Of32();
    WordBounds(w, j, 32);
    WithBit(w, j)
  }

  function AndNot(w: u32, j: nat): u32
    requires j < 32
  {
    Pow2Of32();
    WordBounds(w, j, 32);
    WithoutBit(w, j)
  }

  predicate Marked(words: seq<u32>, f: nat)
    requires f < 32 * |words|
  {
    Bit(words[f / 32], f % 32)
  }

  /** The indices whose bit is set. */
  ghost function Marks(words: seq<u32>): set<nat> {
    set f: nat | 0 <= f < 32 * |words| && Marked(words, f)
  }

  lemma SameIndex(f: nat, g: nat)
    ensures f == g <==> f / 32 == g / 32 && f % 32 == g % 32
  {
  }

  lemma MarkAdds(words: seq<u32>, f: nat)
    requires f < 32 * |words|
    ensures Marks(words[f / 32 := Or(words[f / 32], f % 32)]) == Marks(words) + {f}
  {
    var words' := words[f / 32 := Or(words[f / 32], f % 32)];
    forall g: nat | g < 32 * |words| ensures Marked(words', g) <==> g == f || Marked(words, g) {
      SameIndex(f, g);
      if g / 32 == f / 32 { SetBit(words[f / 32], f % 32, g % 32); }
    }
  }

  lemma ClearRemoves(words: seq<u32>, f: nat)
    requires f < 32 * |words|
    ensures Marks(words[f / 32 := AndNot(words[f / 32], f % 32)]) == Marks(words) - {f}
  {
    var words' := words[f / 32 := AndNot(words[f / 32], f % 32)];
    forall g: nat | g < 32 * |words| ensures Marked(words', g) <==> g != f && Marked(words, g) {
      SameIndex(f, g);
      if g / 32 == f / 32 { ClearBit(words[f / 32], f % 32, g % 32); }
    }
  }

  function Below(n: nat): (s: set<nat>)
    ensures forall f: nat :: f in s <==> f < n
  {
    if n == 0 then {} else Below(n - 1) + {n - 1}
  }

  lemma {:induction false} CountBelow(n: nat)
    ensures |Below(n)| == n
  {
    if n > 0 {
      CountBelow(n - 1);
      assert Below(n) == Below(n - 1) + {n - 1};
    }
  }

  /** The unmarked indices below `n` are `n` less the marked ones. */
  lemma CountUnmarked(s: set<nat>, n: nat)
    requires s <= Below(n)
    ensures |Below(n) - s| == n - |s|
  {
    CountBelow(n);
    assert Below(n) == s + (Below(n) - s);
  }
}
