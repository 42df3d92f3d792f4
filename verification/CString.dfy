/** NUL-terminated strings in memory, and the string functions of libc/string/string.cpp with
    loops. */
module CString {
  import opened Machine
  import opened Options
  import opened Tokenizing

  /** First NUL from `p` on, or the end of memory. */
  function StrEnd(m: seq<byte>, p: nat): (e: nat)
    requires p <= |m|
    ensures p <= e <= |m|
    ensures e < |m| ==> m[e] == 0
    ensures forall i :: p <= i < e ==> m[i] != 0
    decreases |m| - p
  {
    if p == |m| || m[p] == 0 then p else StrEnd(m, p + 1)
  }

  predicate IsString(m: seq<byte>, p: nat) {
    p <= |m| && StrEnd(m, p) < |m|
  }

  /** The characters of the string at `p`. */
  function Text(m: seq<byte>, p: nat): (s: seq<byte>)
    requires IsString(m, p)
    ensures 0 !in s
  {
    m[p..StrEnd(m, p)]
  }

  lemma StrEndIs(m: seq<byte>, p: nat, e: nat)
    requires p <= e < |m| && m[e] == 0 && forall i :: p <= i < e ==> m[i] != 0
    ensures StrEnd(m, p) == e
  {
  }

  // ---------------------------------------------------------------- strtok

  class Tokenizer {
    const mem: array<byte>
    /** The static `last`: where the next call goes on. */
    var last: Option<nat>

    constructor (mem: array<byte>)
      ensures this.mem == mem && last == None
    {
      this.mem := mem;
      last := None;
    }

    /** Where a call with argument `str` starts scanning. */
    function Start(str: Option<nat>): Option<nat>
      reads this
    {
      if str.Some? then str else last
    }

    /** `strtok`: the first token of what is left, cut off in place, or NULL when no token is left. */
    method Next(str: Option<nat>, delim: seq<byte>) returns (r: Option<nat>)
      requires 0 !in delim
      requires Start(str).Some? ==> IsString(mem[..], Start(str).value)
      modifies this, mem
      ensures old(Start(str)).None? ==> r.None? && last == old(last) && mem[..] == old(mem[..])
      ensures old(Start(str)).Some? ==>
                Advanced(old(mem[..]), mem[..], old(Start(str)).value, delim, r, last)
    {
      if str.Some? {
        last := str;
      } else if last.None? {
        return None;
      }
      ghost var m, from := mem[..], last.value;
      var start := Skip(last.value, delim);
      if mem[start] == 0 {
        NoToken(m, from, start, delim);
        last := Some(start);
        return None;
      }
      var cur := Scan(start, delim);
      if mem[cur] != 0 {
        mem[cur] := 0;
        last := Some(cur + 1);
      } else {
        last := Some(cur);
      }
      CutToken(m, mem[..], from, start, cur, delim);
      return Some(start);
    }

    /** Any number of calls, with whatever delimiters, when nothing of the string is left: all return NULL
        and nothing changes. */
    method Exhausted(delims: seq<seq<byte>>) returns (rs: seq<Option<nat>>)
      requires last.Some? && IsString(mem[..], last.value) && Text(mem[..], last.value) == []
      requires forall i :: 0 <= i < |delims| ==> 0 !in delims[i]
      modifies this, mem
      ensures |rs| == |delims| && forall i :: 0 <= i < |rs| ==> rs[i] == None
      ensures mem[..] == old(mem[..]) && last == old(last)
    {
      rs := [];
      for k := 0 to |delims|
        invariant |rs| == k && forall i :: 0 <= i < k ==> rs[i] == None
        invariant mem[..] == old(mem[..]) && last == old(last)
      {
        assert Tokens([], delims[k]) == [];
        var r := Next(None, delims[k]);
        rs := rs + [r];
      }
    }

    /** Repeated calls: the tokens of the string, left to right, all intact at the end; what is
        left then has no token, so further calls get nothing (`Exhausted`). */
    method All(str: nat, delim: seq<byte>) returns (starts: seq<nat>)
      requires 0 !in delim && IsString(mem[..], str)
      modifies this, mem
      ensures last.Some? && Progress(old(mem[..]), mem[..], str, delim, starts, last.value)
      ensures |starts| == |Tokens(Text(old(mem[..]), str), delim)| && Text(mem[..], last.value) == []
      ensures var rs := Runs(Text(old(mem[..]), str), delim, 0);
        |starts| == |rs| && forall i :: 0 <= i < |rs| ==> starts[i] == str + rs[i].0
    {
      ghost var m0 := mem[..];
      starts := [];
      ghost var m := mem[..];
      ghost var from := str;
      var r := Next(Some(str), delim);
      while r.Some?
        invariant mem.Length == |m0| && last.Some? && Progress(m0, m, str, delim, starts, from)
        invariant Advanced(m, mem[..], from, delim, r, last)
        decreases |Tokens(Text(m, from), delim)|
      {
        ProgressStep(m0, m, mem[..], str, delim, starts, from, r.value, last.value);
        starts := starts + [r.value];
        m, from := mem[..], last.value;
        r := Next(None, delim);
      }
      ProgressEnd(m0, m, str, delim, starts, from, last.value);
    }

    /** Skip leading delimiters; `strchr(delim, c)` is membership, as `c` is not NUL. */
    method Skip(from: nat, delim: seq<byte>) returns (cur: nat)
      requires IsString(mem[..], from) && 0 !in delim
      ensures from <= cur <= StrEnd(mem[..], from) && StrEnd(mem[..], cur) == StrEnd(mem[..], from)
      ensures mem[cur] != 0 ==> mem[cur] !in delim
      ensures forall i :: from <= i < cur ==> mem[i] in delim
    {
      cur := from;
      while mem[cur] != 0 && mem[cur] in delim
        invariant from <= cur <= StrEnd(mem[..], from)
        invariant forall i :: from <= i < cur ==> mem[i] in delim
        decreases StrEnd(mem[..], from) - cur
      {
        cur := cur + 1;
      }
      StrEndIs(mem[..], cur, StrEnd(mem[..], from));
    }

    /** Find the end of the token at `start`. */
    method Scan(start: nat, delim: seq<byte>) returns (cur: nat)
      requires IsString(mem[..], start)
      ensures start <= cur <= StrEnd(mem[..], start)
      ensures mem[cur] != 0 ==> mem[cur] in delim
      ensures forall i :: start <= i < cur ==> mem[i] !in delim
    {
      cur := start;
      while mem[cur] != 0 && mem[cur] !in delim
        invariant start <= cur <= StrEnd(mem[..], start)
        invariant forall i :: start <= i < cur ==> mem[i] !in delim
        decreases StrEnd(mem[..], start) - cur
      {
        cur := cur + 1;
      }
    }
  }

  /** A scan from `from` that found token `r` (or none) and left off at `last`. */
  ghost predicate Advanced(m: seq<byte>, m': seq<byte>, from: nat, delim: seq<byte>, r: Option<nat>, last: Option<nat>)
    requires IsString(m, from)
  {
    var todo := Tokens(Text(m, from), delim);
    && last.Some? && IsString(m', last.value)
    && from <= last.value <= StrEnd(m, from) == StrEnd(m', last.value)
    && match r
       case None =>
         && todo == [] && m' == m && Text(m', last.value) == []
         && (forall i :: from <= i < last.value ==> m[i] in delim)
       case Some(p) =>
         && from <= p < last.value && IsString(m', p)
         && (forall i :: from <= i < p ==> m[i] in delim)
         && todo == [Text(m', p)] + Tokens(Text(m', last.value), delim)
         && EndedAt(m, m', p, StrEnd(m', p), StrEnd(m, from), delim, last.value)
  }

  /** The token at `p` was cut off at `q`: by a NUL over the delimiter there, or by the end `e` of the
      string; the next call goes on at `last`. */
  ghost predicate EndedAt(m: seq<byte>, m': seq<byte>, p: nat, q: nat, e: nat, delim: seq<byte>, last: nat) {
    && p < q <= e < |m| && (forall i :: p <= i < q ==> m[i] !in delim)
    && if q < e then m[q] in delim && m' == m[q := 0] && last == q + 1 else m' == m && last == q
  }

  /** After some calls on the string at `str`: the tokens found so far stand at `starts`, the rest
      of them are in the string at `last`, and the only bytes changed are the delimiters right
      behind the tokens found. */
  ghost predicate Progress(m0: seq<byte>, m: seq<byte>, str: nat, delim: seq<byte>, starts: seq<nat>, last: nat)
    requires IsString(m0, str)
  {
    var all := Tokens(Text(m0, str), delim);
    && |m| == |m0| && IsString(m, last) && |starts| <= |all|
    && Tokens(Text(m, last), delim) == all[|starts|..]
    && Found(m, all, starts, last)
    && Cuts(m0, m, delim, starts)
    && Placed(m0, m, str, delim, starts, last)
  }

  /** The tokens found stand where the first runs of the string begin, and what is left of it from
      `last` on, untouched so far, holds the other runs. */
  ghost predicate Placed(m0: seq<byte>, m: seq<byte>, str: nat, delim: seq<byte>, starts: seq<nat>, last: nat)
    requires IsString(m0, str)
  {
    var text := Text(m0, str);
    var rs := Runs(text, delim, 0);
    && |m| == |m0| && str <= last <= StrEnd(m0, str) && IsString(m, last) && StrEnd(m, last) == StrEnd(m0, str)
    && (forall k :: last <= k < |m| ==> m[k] == m0[k])
    && |starts| <= |rs| && (forall i :: 0 <= i < |starts| ==> starts[i] == str + rs[i].0)
    && Runs(text, delim, last - str) == rs[|starts|..]
  }

  lemma PlacedStep(m0: seq<byte>, m: seq<byte>, m': seq<byte>, str: nat, delim: seq<byte>, starts: seq<nat>,
                   from: nat, p: nat, last: nat)
    requires IsString(m0, str) && Placed(m0, m, str, delim, starts, from) && |m'| == |m|
    requires Advanced(m, m', from, delim, Some(p), Some(last))
    ensures Placed(m0, m', str, delim, starts + [p], last)
  {
    hide StrEnd, Tokens, Runs;
    var text := Text(m0, str);
    var rs := Runs(text, delim, 0);
    var q := StrEnd(m', p);
    assert forall i :: from - str <= i < |text| ==> text[i] == m[i + str];
    FirstOfRuns(text, delim, from - str, p - str, q - str);
    assert rs[|starts|..][0] == rs[|starts|] && rs[|starts|..][1..] == rs[|starts| + 1..];
  }

  ghost predicate Found(m: seq<byte>, all: seq<seq<byte>>, starts: seq<nat>, last: nat) {
    |starts| <= |all| && forall i :: 0 <= i < |starts| ==> FoundAt(m, starts[i], all[i], last)
  }

  ghost predicate FoundAt(m: seq<byte>, p: nat, token: seq<byte>, last: nat) {
    IsString(m, p) && StrEnd(m, p) <= last && Text(m, p) == token
  }

  ghost predicate Cuts(m0: seq<byte>, m: seq<byte>, delim: seq<byte>, starts: seq<nat>)
    requires |m0| == |m|
  {
    forall k :: 0 <= k < |m| && m[k] != m0[k] ==> m0[k] in delim && m[k] == 0 && EndsToken(m, starts, k)
  }

  ghost predicate EndsToken(m: seq<byte>, starts: seq<nat>, k: nat) {
    exists i :: 0 <= i < |starts| && EndsAt(m, starts[i], k)
  }

  ghost predicate EndsAt(m: seq<byte>, p: nat, k: nat) {
    IsString(m, p) && StrEnd(m, p) == k
  }

  lemma KeepsString(m: seq<byte>, m': seq<byte>, p: nat, q: nat)
    requires IsString(m, p) && StrEnd(m, p) < q
    requires m' == m || (q < |m| && m' == m[q := 0])
    ensures IsString(m', p) && StrEnd(m', p) == StrEnd(m, p) && Text(m', p) == Text(m, p)
  {
    StrEndIs(m', p, StrEnd(m, p));
  }

  lemma FoundStep(m: seq<byte>, m': seq<byte>, all: seq<seq<byte>>, starts: seq<nat>, from: nat, p: nat, last: nat)
    requires Found(m, all, starts, from) && |starts| < |all| && IsString(m', p) && from <= p
    requires Text(m', p) == all[|starts|] && p < StrEnd(m', p) <= last
    requires m' == m || (StrEnd(m', p) < |m| && m' == m[StrEnd(m', p) := 0])
    ensures Found(m', all, starts + [p], last)
  {
    var starts' := starts + [p];
    forall i | 0 <= i < |starts'| ensures FoundAt(m', starts'[i], all[i], last) {
      if i < |starts| {
        assert FoundAt(m, starts[i], all[i], from);
        KeepsString(m, m', starts[i], StrEnd(m', p));
      }
    }
  }

  lemma CutsStep(m0: seq<byte>, m: seq<byte>, m': seq<byte>, delim: seq<byte>, all: seq<seq<byte>>, starts: seq<nat>,
                 from: nat, p: nat)
    requires |m0| == |m| && Cuts(m0, m, delim, starts) && Found(m, all, starts, from)
    requires IsString(m', p) && from <= p < StrEnd(m', p)
    requires m' == m || (StrEnd(m', p) < |m| && m[StrEnd(m', p)] in delim && m' == m[StrEnd(m', p) := 0])
    requires 0 !in delim
    ensures Cuts(m0, m', delim, starts + [p])
  {
    var starts' := starts + [p];
    var q := StrEnd(m', p);
    assert EndsAt(m', starts'[|starts|], q);
    forall k | 0 <= k < |m'| && m'[k] != m0[k]
      ensures m0[k] in delim && m'[k] == 0 && EndsToken(m', starts', k)
    {
      if k != q {
        assert m[k] != m0[k];
        assert EndsToken(m, starts, k);
        var i :| 0 <= i < |starts| && EndsAt(m, starts[i], k);
        assert FoundAt(m, starts[i], all[i], from);
        KeepsString(m, m', starts[i], q);
        assert EndsAt(m', starts'[i], k);
      }
    }
  }

  lemma ProgressStep(m0: seq<byte>, m: seq<byte>, m': seq<byte>, str: nat, delim: seq<byte>, starts: seq<nat>,
                     from: nat, p: nat, last: nat)
    requires IsString(m0, str) && Progress(m0, m, str, delim, starts, from) && |m'| == |m| && 0 !in delim
    requires Advanced(m, m', from, delim, Some(p), Some(last))
    ensures Progress(m0, m', str, delim, starts + [p], last)
    ensures |Tokens(Text(m', last), delim)| < |Tokens(Text(m, from), delim)|
  {
    hide Tokens, Cuts, Placed;
    PlacedStep(m0, m, m', str, delim, starts, from, p, last);
    var all := Tokens(Text(m0, str), delim);
    var rest := Tokens(Text(m', last), delim);
    assert all[|starts|..] == [Text(m', p)] + rest;
    assert all[|starts|] == all[|starts|..][0];
    assert all[|starts| + 1..] == all[|starts|..][1..];
    FoundStep(m, m', all, starts, from, p, last);
    CutsStep(m0, m, m', delim, all, starts, from, p);
  }

  lemma ProgressEnd(m0: seq<byte>, m: seq<byte>, str: nat, delim: seq<byte>, starts: seq<nat>, from: nat, last: nat)
    requires IsString(m0, str) && Progress(m0, m, str, delim, starts, from)
    requires Advanced(m, m, from, delim, None, Some(last))
    ensures Progress(m0, m, str, delim, starts, last) && |starts| == |Tokens(Text(m0, str), delim)|
    ensures |starts| == |Runs(Text(m0, str), delim, 0)|
  {
    var text := Text(m0, str);
    assert forall i :: from - str <= i < |text| ==> text[i] == m[i + str];
    RunsSkip(text, delim, from - str, last - str);
    TokensAreRuns(text, delim, 0);
    assert text[0..] == text;
  }

  lemma SkippedTokens(m: seq<byte>, from: nat, start: nat, delim: seq<byte>)
    requires IsString(m, from) && from <= start <= StrEnd(m, from)
    requires forall i :: from <= i < start ==> m[i] in delim
    ensures IsString(m, start) && StrEnd(m, start) == StrEnd(m, from)
    ensures Tokens(Text(m, from), delim) == Tokens(Text(m, start), delim)
  {
    var e := StrEnd(m, from);
    StrEndIs(m, start, e);
    assert m[from..e] == m[from..start] + m[start..e];
    TokensOfDelimiters(m[from..start], m[start..e], delim);
  }

  /** The string at `start` begins with a token that ends at `cur`. */
  lemma FirstToken(m: seq<byte>, start: nat, cur: nat, e: nat, delim: seq<byte>)
    requires start < cur <= e <= |m| && (forall i :: start <= i < cur ==> m[i] !in delim)
    requires cur < e ==> m[cur] in delim
    ensures Tokens(m[start..e], delim) == [m[start..cur]] + Tokens(m[if cur < e then cur + 1 else cur..e], delim)
  {
    var s := m[start..e];
    assert s[..cur - start] == m[start..cur] && s[cur - start..] == m[cur..e];
    WordLenIs(s, delim, cur - start);
    if cur < e {
      assert m[cur..e][1..] == m[cur + 1..e];
    }
  }

  /** Writing NUL behind the token splits the string in two. */
  lemma CutToken(m: seq<byte>, m': seq<byte>, from: nat, start: nat, cur: nat, delim: seq<byte>)
    requires 0 !in delim && IsString(m, from) && from <= start < cur <= StrEnd(m, from)
    requires forall i :: from <= i < start ==> m[i] in delim
    requires forall i :: start <= i < cur ==> m[i] !in delim
    requires m[cur] != 0 ==> m[cur] in delim
    requires m' == if m[cur] != 0 then m[cur := 0] else m
    ensures Advanced(m, m', from, delim, Some(start), Some(if m[cur] != 0 then cur + 1 else cur))
  {
    hide Tokens;
    var e := StrEnd(m, from);
    var next := if cur < e then cur + 1 else cur;
    SkippedTokens(m, from, start, delim);
    FirstToken(m, start, cur, e, delim);
    StrEndIs(m', start, cur);
    StrEndIs(m', next, e);
    assert m'[start..cur] == m[start..cur] && m'[next..e] == m[next..e];
  }

  /** No token is left. */
  lemma NoToken(m: seq<byte>, from: nat, start: nat, delim: seq<byte>)
    requires IsString(m, from) && from <= start <= StrEnd(m, from) && m[start] == 0
    requires forall i :: from <= i < start ==> m[i] in delim
    ensures Advanced(m, m, from, delim, None, Some(start))
  {
    SkippedTokens(m, from, start, delim);
  }
}
