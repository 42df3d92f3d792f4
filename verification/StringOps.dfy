/** Comparing, searching and copying: the other loops of libc/string/string.cpp. */
module StringOps {
  import opened Machine
  import opened Options
  import opened CString

  /** `s` comes before `t` in dictionary order: they agree up to `k`, where `s` ends or is smaller. */
  ghost predicate LessAt(s: seq<byte>, t: seq<byte>, k: nat) {
    && k <= |s| && k < |t| && (forall j :: 0 <= j < k ==> s[j] == t[j])
    && (k == |s| || s[k] < t[k])
  }

  ghost predicate Less(s: seq<byte>, t: seq<byte>) {
    exists k: nat :: LessAt(s, t, k)
  }

  /** Two texts that agree up to `i`, where one ends or they differ, are compared there. */
  lemma DecidedAt(s: seq<byte>, t: seq<byte>, i: nat)
    requires i <= |s| && i <= |t| && (forall j :: 0 <= j < i ==> s[j] == t[j])
    requires i == |s| || i == |t| || s[i] != t[i]
    ensures s == t <==> i == |s| == |t|
    ensures Less(s, t) <==> LessAt(s, t, i)
  {
    if Less(s, t) {
      var k: nat :| LessAt(s, t, k);
      assert k == i;
    }
  }

  /** `strcmp`: the sign of the result orders the texts. */
  method Compare(mem: array<byte>, p: nat, q: nat) returns (r: int)
    requires IsString(mem[..], p) && IsString(mem[..], q)
    ensures r == 0 <==> Text(mem[..], p) == Text(mem[..], q)
    ensures r < 0 <==> Less(Text(mem[..], p), Text(mem[..], q))
    ensures r > 0 ==> Less(Text(mem[..], q), Text(mem[..], p))
  {
    ghost var s, t := Text(mem[..], p), Text(mem[..], q);
    var i := 0;
    while mem[p + i] != 0 && mem[p + i] == mem[q + i]
      invariant i <= |s| && i <= |t| && (forall j :: 0 <= j < i ==> s[j] == t[j])
      decreases |s| - i
    {
      assert s[i] == mem[p + i] && (i < |t| ==> t[i] == mem[q + i]);
      i := i + 1;
    }
    DecidedAt(s, t, i);
    DecidedAt(t, s, i);
    assert i < |s| ==> s[i] == mem[p + i];
    assert i < |t| ==> t[i] == mem[q + i];
    r := mem[p + i] as int - mem[q + i] as int;
    if r > 0 { assert LessAt(t, s, i); }
  }

  /** `strchr`: the first occurrence. */
  method FindFirst(mem: array<byte>, p: nat, c: byte) returns (r: Option<nat>)
    requires IsString(mem[..], p)
    ensures r == None <==> c !in Text(mem[..], p)
    ensures r.Some? ==> p <= r.value < StrEnd(mem[..], p) && mem[r.value] == c && c !in mem[p..r.value]
  {
    var i := p;
    while mem[i] != 0
      invariant p <= i <= StrEnd(mem[..], p) && c !in mem[p..i]
      decreases StrEnd(mem[..], p) - i
    {
      if mem[i] == c {
        assert Text(mem[..], p)[i - p] == c;
        return Some(i);
      }
      i := i + 1;
    }
    assert mem[p..i] == Text(mem[..], p);
    return None;
  }

  /** `strrchr`: the last occurrence. */
  method FindLast(mem: array<byte>, p: nat, c: byte) returns (last: Option<nat>)
    requires IsString(mem[..], p)
    ensures last == None <==> c !in Text(mem[..], p)
    ensures last.Some? ==> p <= last.value < StrEnd(mem[..], p) && mem[last.value] == c
                           && c !in mem[last.value + 1..StrEnd(mem[..], p)]
  {
    last := None;
    var i := p;
    while mem[i] != 0
      invariant p <= i <= StrEnd(mem[..], p)
      invariant last == None ==> c !in mem[p..i]
      invariant last.Some? ==> p <= last.value < i && mem[last.value] == c && c !in mem[last.value + 1..i]
      decreases StrEnd(mem[..], p) - i
    {
      if mem[i] == c {
        last := Some(i);
      }
      i := i + 1;
    }
    assert mem[p..i] == Text(mem[..], p);
    if last.Some? {
      assert Text(mem[..], p)[last.value - p] == c;
    }
  }

  /** `memmove`: the destination gets the source as it was, however the ranges overlap. */
  method Move(mem: array<byte>, dst: nat, src: nat, size: nat)
    requires dst + size <= mem.Length && src + size <= mem.Length
    modifies mem
    ensures mem[dst..dst + size] == old(mem[src..src + size])
    ensures SameOutside(old(mem[..]), mem[..], dst, dst + size)
  {
    if dst < src {
      for i := 0 to size
        invariant forall k :: dst <= k < dst + i ==> mem[k] == old(mem[k - dst + src])
        invariant forall k :: 0 <= k < mem.Length && !(dst <= k < dst + i) ==> mem[k] == old(mem[k])
      {
        mem[dst + i] := mem[src + i];
      }
    } else {
      for i := size downto 0
        invariant forall k :: dst + i <= k < dst + size ==> mem[k] == old(mem[k - dst + src])
        invariant forall k :: 0 <= k < mem.Length && !(dst + i <= k < dst + size) ==> mem[k] == old(mem[k])
      {
        mem[dst + i] := mem[src + i];
      }
    }
  }

  lemma WrittenText(m: seq<byte>, dst: nat, s: seq<byte>)
    requires dst + |s| < |m| && m[dst + |s|] == 0 && 0 !in s
    requires forall k :: 0 <= k < |s| ==> m[dst + k] == s[k]
    ensures IsString(m, dst) && Text(m, dst) == s
  {
    forall i | dst <= i < dst + |s| ensures m[i] != 0 {
      assert m[dst + (i - dst)] == s[i - dst];
    }
    StrEndIs(m, dst, dst + |s|);
  }

  /** `strncpy` between separate ranges: at most `n` characters, then NULs up to `n`; there is no
      terminator when the source is not shorter than `n`. */
  method CopyAtMost(mem: array<byte>, dst: nat, src: nat, n: nat)
    requires IsString(mem[..], src) && dst + n <= mem.Length
    requires dst + n <= src || StrEnd(mem[..], src) < dst
    modifies mem
    ensures SameOutside(old(mem[..]), mem[..], dst, dst + n)
    ensures var s := old(Text(mem[..], src));
      if |s| < n then
        IsString(mem[..], dst) && Text(mem[..], dst) == s && forall k :: dst + |s| <= k < dst + n ==> mem[k] == 0
      else mem[dst..dst + n] == s[..n]
  {
    hide StrEnd;
    ghost var s := Text(mem[..], src);
    var i := CopyPrefix(mem, dst, src, n);
    PadWithNuls(mem, dst, i, n);
    if i < n { WrittenText(mem[..], dst, s); }
  }

  /** The first loop of `strncpy`. */
  method CopyPrefix(mem: array<byte>, dst: nat, src: nat, n: nat) returns (i: nat)
    requires IsString(mem[..], src) && dst + n <= mem.Length
    requires dst + n <= src || StrEnd(mem[..], src) < dst
    modifies mem
    ensures var s := old(Text(mem[..], src)); i == (if |s| < n then |s| else n) && mem[dst..dst + i] == s[..i]
    ensures SameOutside(old(mem[..]), mem[..], dst, dst + i)
  {
    hide StrEnd;
    ghost var m := mem[..];
    ghost var s := Text(m, src);
    i := 0;
    while i < n && mem[src + i] != 0
      invariant i <= n && i <= |s|
      invariant SameOutside(m, mem[..], dst, dst + i)
      invariant forall k :: 0 <= k < i ==> mem[dst + k] == s[k]
    {
      assert mem[src + i] == m[src + i];
      mem[dst + i] := mem[src + i];
      i := i + 1;
    }
  }

  /** The second loop of `strncpy`. */
  method PadWithNuls(mem: array<byte>, dst: nat, len: nat, n: nat)
    requires len <= n && dst + n <= mem.Length
    modifies mem
    ensures SameOutside(old(mem[..]), mem[..], dst + len, dst + n)
    ensures forall k :: dst + len <= k < dst + n ==> mem[k] == 0
  {
    var i := len;
    while i < n
      invariant len <= i <= n && SameOutside(old(mem[..]), mem[..], dst + len, dst + i)
      invariant forall k :: dst + len <= k < dst + i ==> mem[k] == 0
    {
      mem[dst + i] := 0;
      i := i + 1;
    }
  }

  /** `strcpy` between separate ranges. */
  method Copy(mem: array<byte>, dst: nat, src: nat)
    requires IsString(mem[..], src) && dst + |Text(mem[..], src)| < mem.Length
    requires dst + |Text(mem[..], src)| < src || StrEnd(mem[..], src) < dst
    modifies mem
    ensures IsString(mem[..], dst) && Text(mem[..], dst) == old(Text(mem[..], src))
    ensures SameOutside(old(mem[..]), mem[..], dst, dst + |old(Text(mem[..], src))| + 1)
  {
    ghost var m := mem[..];
    ghost var s := Text(m, src);
    var i := 0;
    while mem[src + i] != 0
      invariant i <= |s| && SameOutside(m, mem[..], dst, dst + i)
      invariant forall k :: 0 <= k < i ==> mem[dst + k] == s[k]
      decreases |s| - i
    {
      assert mem[src + i] == m[src + i];
      mem[dst + i] := mem[src + i];
      i := i + 1;
    }
    mem[dst + i] := 0;
    WrittenText(mem[..], dst, s);
  }
}
