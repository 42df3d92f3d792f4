/** Maximal delimiter-free runs: what `strtok` returns and what path walking descends along. */
module Tokenizing {

  ghost predicate Free<T>(s: seq<T>, d: seq<T>) {
    forall i :: 0 <= i < |s| ==> s[i] !in d
  }

  /** Length of the longest delimiter-free prefix. */
  function WordLen<T(==)>(s: seq<T>, d: seq<T>): (n: nat)
    ensures n <= |s| && Free(s[..n], d)
    ensures n < |s| ==> s[n] in d
    decreases |s|
  {
    if s == [] || s[0] in d then 0
    else
      assert forall n :: 0 <= n <= |s| - 1 ==> s[..n + 1] == [s[0]] + s[1..][..n];
      1 + WordLen(s[1..], d)
  }

  function Tokens<T(==)>(s: seq<T>, d: seq<T>): seq<seq<T>>
    decreases |s|
  {
    if s == [] then []
    else if s[0] in d then Tokens(s[1..], d)
    else
      var n := WordLen(s, d);
      [s[..n]] + Tokens(s[n..], d)
  }

  lemma WordLenIs<T>(s: seq<T>, d: seq<T>, n: nat)
    requires n <= |s| && Free(s[..n], d) && (n < |s| ==> s[n] in d)
    ensures WordLen(s, d) == n
  {
  }

  /** A delimiter splits the tokens of a sequence. */
  lemma {:induction false} TokensConcat<T>(x: seq<T>, c: T, y: seq<T>, d: seq<T>)
    requires c in d
    ensures Tokens(x + [c] + y, d) == Tokens(x, d) + Tokens(y, d)
    decreases |x|
  {
    var s := x + [c] + y;
    if x == [] {
      assert s[1..] == y;
    } else if x[0] in d {
      assert s[1..] == x[1..] + [c] + y;
      TokensConcat(x[1..], c, y, d);
    } else {
      var n := WordLen(x, d);
      assert s[..n] == x[..n];
      WordLenIs(s, d, n);
      assert s[n..] == x[n..] + [c] + y;
      assert n > 0;
      TokensConcat(x[n..], c, y, d);
    }
  }

  /** A non-empty delimiter-free sequence is one token. */
  lemma TokensOfWord<T>(w: seq<T>, d: seq<T>)
    requires Free(w, d)
    ensures Tokens(w, d) == if w == [] then [] else [w]
  {
    if w != [] {
      WordLenIs(w, d, |w|);
      assert w[..|w|] == w && w[|w|..] == [];
    }
  }

  lemma {:induction false} TokensOfDelimiters<T>(x: seq<T>, y: seq<T>, d: seq<T>)
    requires forall i :: 0 <= i < |x| ==> x[i] in d
    ensures Tokens(x + y, d) == Tokens(y, d)
    decreases |x|
  {
    if x == [] {
      assert x + y == y;
    } else {
      assert (x + y)[1..] == x[1..] + y;
      TokensOfDelimiters(x[1..], y, d);
    }
  }

  /** `[a, b)` is a maximal delimiter-free run of `s`. */
  ghost predicate MaximalRun<T>(s: seq<T>, d: seq<T>, a: nat, b: nat) {
    && a < b <= |s|
    && (forall i :: a <= i < b ==> s[i] !in d)
    && (a > 0 ==> s[a - 1] in d)
    && (b < |s| ==> s[b] in d)
  }

  /** The runs of `s` from index `k` on, left to right. */
  function Runs<T(==)>(s: seq<T>, d: seq<T>, k: nat): seq<(nat, nat)>
    requires k <= |s|
    decreases |s| - k
  {
    if k == |s| then []
    else if s[k] in d then Runs(s, d, k + 1)
    else
      var e := k + WordLen(s[k..], d);
      [(k, e)] + Runs(s, d, e)
  }

  /** Delimiters begin no run. */
  lemma {:induction false} RunsSkip<T>(s: seq<T>, d: seq<T>, a: nat, b: nat)
    requires a <= b <= |s| && forall i :: a <= i < b ==> s[i] in d
    ensures Runs(s, d, a) == Runs(s, d, b)
    decreases b - a
  {
    if a < b { RunsSkip(s, d, a + 1, b); }
  }

  /** The first of the runs listed from `a` on. */
  lemma FirstOfRuns<T>(s: seq<T>, d: seq<T>, a: nat, k: nat, e: nat)
    requires a <= k < e <= |s| && (forall i :: a <= i < k ==> s[i] in d) && (forall i :: k <= i < e ==> s[i] !in d)
    requires e < |s| ==> s[e] in d
    ensures Runs(s, d, a) == [(k, e)] + Runs(s, d, if e < |s| then e + 1 else e)
  {
    RunsSkip(s, d, a, k);
    WordLenIs(s[k..], d, e - k);
  }

  /** The run that starts at `k`. */
  lemma FirstRun<T>(s: seq<T>, d: seq<T>, k: nat) returns (e: nat)
    requires k < |s| && s[k] !in d
    ensures e == k + WordLen(s[k..], d) && k < e <= |s| && (e < |s| ==> s[e] in d)
    ensures forall i :: k <= i < e ==> s[i] !in d
    ensures Tokens(s[k..], d) == [s[k..e]] + Tokens(s[e..], d)
  {
    var n := WordLen(s[k..], d);
    e := k + n;
    assert s[k..e] == s[k..][..n] && s[k..][n..] == s[e..];
    assert forall i :: k <= i < e ==> s[i] == s[k..][..n][i - k];
  }

  ghost predicate TextsOf<T>(ts: seq<seq<T>>, rs: seq<(nat, nat)>, s: seq<T>, k: nat) {
    && |ts| == |rs|
    && (forall i :: 0 <= i < |rs| ==> k <= rs[i].0 < rs[i].1 <= |s| && ts[i] == s[rs[i].0..rs[i].1])
    && (forall i, j :: 0 <= i < j < |rs| ==> rs[i].1 <= rs[j].0)
  }

  lemma TextsOfCons<T>(ts: seq<seq<T>>, rs: seq<(nat, nat)>, s: seq<T>, k: nat, e: nat)
    requires k < e <= |s| && TextsOf(ts, rs, s, e)
    ensures TextsOf([s[k..e]] + ts, [(k, e)] + rs, s, k)
  {
  }

  /** The tokens of a sequence are the texts of its runs, left to right. */
  lemma {:induction false} TokensAreRuns<T>(s: seq<T>, d: seq<T>, k: nat)
    requires k <= |s|
    ensures TextsOf(Tokens(s[k..], d), Runs(s, d, k), s, k)
    decreases |s| - k
  {
    if k == |s| {
    } else if s[k] in d {
      assert s[k..][1..] == s[k + 1..];
      TokensAreRuns(s, d, k + 1);
    } else {
      var e := FirstRun(s, d, k);
      TokensAreRuns(s, d, e);
      TextsOfCons(Tokens(s[e..], d), Runs(s, d, e), s, k, e);
    }
  }

  /** The runs listed are exactly the maximal ones. */
  lemma {:induction false} RunsAreMaximal<T>(s: seq<T>, d: seq<T>, k: nat, a: nat, b: nat)
    requires k <= |s| && (0 < k < |s| ==> s[k - 1] in d || s[k] in d)
    ensures (a, b) in Runs(s, d, k) <==> k <= a && MaximalRun(s, d, a, b)
    decreases |s| - k
  {
    if k == |s| {
    } else if s[k] in d {
      if MaximalRun(s, d, a, b) { NoRunAt(s, d, k, a, b); }
      hide MaximalRun, Tokens;
      RunsAreMaximal(s, d, k + 1, a, b);
    } else {
      var e := FirstRun(s, d, k);
      hide MaximalRun, Tokens;
      RunsAreMaximal(s, d, e, a, b);
      RunStart(s, d, k, e, a, b);
      assert Runs(s, d, k) == [(k, e)] + Runs(s, d, e);
    }
  }

  lemma NoRunAt<T>(s: seq<T>, d: seq<T>, k: nat, a: nat, b: nat)
    requires k < |s| && s[k] in d && MaximalRun(s, d, a, b)
    ensures a != k
  {
  }

  lemma RunStart<T>(s: seq<T>, d: seq<T>, k: nat, e: nat, a: nat, b: nat)
    requires k < e <= |s| && (forall i :: k <= i < e ==> s[i] !in d) && (e < |s| ==> s[e] in d)
    requires k > 0 ==> s[k - 1] in d
    ensures k <= a && MaximalRun(s, d, a, b) <==> (a, b) == (k, e) || (e <= a && MaximalRun(s, d, a, b))
  {
  }
}
