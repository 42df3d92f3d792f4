/** Machine integers and byte-addressed memory of the 32-bit target. */
module Machine {

  type byte = b: int | 0 <= b < 0x100
  type u32 = n: int | 0 <= n < 0x1_0000_0000

  function Join(b0: int, b1: int, b2: int, b3: int): int {
    b0 + 0x100 * b1 + 0x1_0000 * b2 + 0x100_0000 * b3
  }

  lemma JoinSplit(v: u32)
    ensures Join(v % 0x100, v / 0x100 % 0x100, v / 0x1_0000 % 0x100, v / 0x100_0000) == v
  {
    assert v / 0x1_0000 == v / 0x100 / 0x100;
    assert v / 0x100_0000 == v / 0x1_0000 / 0x100;
  }

  /** The little-endian 32-bit word stored at address `a`. */
  function Word(m: seq<byte>, a: nat): u32
    requires a + 4 <= |m|
  {
    Join(m[a], m[a + 1], m[a + 2], m[a + 3])
  }

  /** Every address outside `[lo, hi)` holds the same byte in both memories. */
  ghost predicate SameOutside(m: seq<byte>, m': seq<byte>, lo: int, hi: int)
  {
    |m| == |m'| && forall k :: 0 <= k < |m| && !(lo <= k < hi) ==> m'[k] == m[k]
  }

  /** A 32-bit store: the four bytes spell `v`, and nothing else moves. */
  method StoreWord(mem: array<byte>, a: nat, v: u32)
    requires a + 4 <= mem.Length
    modifies mem
    ensures Word(mem[..], a) == v
    ensures SameOutside(old(mem[..]), mem[..], a, a + 4)
  {
    var b0, b1, b2, b3 := v % 0x100, v / 0x100 % 0x100, v / 0x1_0000 % 0x100, v / 0x100_0000;
    mem[a], mem[a + 1], mem[a + 2], mem[a + 3] := b0, b1, b2, b3;
    JoinSplit(v);
  }

  /** `memcpy` (libc/string/string.cpp) between two ranges that do not overlap. */
  method CopyBytes(mem: array<byte>, dst: nat, src: nat, n: nat)
    requires dst + n <= mem.Length && src + n <= mem.Length
    requires dst + n <= src || src + n <= dst
    modifies mem
    ensures mem[dst..dst + n] == old(mem[src..src + n])
    ensures SameOutside(old(mem[..]), mem[..], dst, dst + n)
  {
    for i := 0 to n
      invariant forall k :: 0 <= k < mem.Length && !(dst <= k < dst + i) ==> mem[k] == old(mem[k])
      invariant forall k :: dst <= k < dst + i ==> mem[k] == old(mem[k - dst + src])
    {
      mem[dst + i] := mem[src + i];
    }
  }

  /** Write `data` at address `a`. */
  method WriteBytes(mem: array<byte>, a: nat, data: seq<byte>)
    requires a + |data| <= mem.Length
    modifies mem
    ensures mem[a..a + |data|] == data
    ensures SameOutside(old(mem[..]), mem[..], a, a + |data|)
  {
    for i := 0 to |data|
      invariant forall k :: 0 <= k < mem.Length && !(a <= k < a + i) ==> mem[k] == old(mem[k])
      invariant forall k :: a <= k < a + i ==> mem[k] == data[k - a]
    {
      mem[a + i] := data[i];
    }
  }

  /** `s` with `d` written over it at offset `off`. */
  function Patch(s: seq<byte>, off: nat, d: seq<byte>): seq<byte>
    requires off + |d| <= |s|
  {
    s[..off] + d + s[off + |d|..]
  }

  lemma SliceOfSlice<T>(s: seq<T>, a: nat, b: nat, c: nat, d: nat)
    requires a <= b <= |s| && c <= d <= b - a
    ensures s[a..b][c..d] == s[a + c..a + d]
  {
    var r := s[a..b];
    assert forall i :: 0 <= i < d - c ==> r[c..d][i] == r[c + i];
  }

  lemma PatchedRange(m: seq<byte>, m': seq<byte>, p: nat, size: nat, off: nat, d: seq<byte>)
    requires off + |d| <= size && p + size <= |m|
    requires SameOutside(m, m', p + off, p + off + |d|) && m'[p + off..p + off + |d|] == d
    ensures m'[p..p + size] == Patch(m[p..p + size], off, d)
    ensures SameOutside(m, m', p, p + size)
  {
    var r, r' := m[p..p + size], m'[p..p + size];
    assert r'[..off] == r[..off] && r'[off + |d|..] == r[off + |d|..];
    SliceOfSlice(m', p, p + size, off, off + |d|);
    assert r' == r'[..off] + r'[off..off + |d|] + r'[off + |d|..];
  }
}
