/** The directory structure as a value: ordered child lists, parent links, and what removal does. */
module FileTree {
  import opened Options

  /** The nodes are the keys of all maps; `depth` counts links down from the root, and is 0 for a
      node that was never listed. */
  datatype Tree<T> = Tree(
    root: T,
    kids: map<T, seq<T>>,
    parent: map<T, Option<T>>,
    depth: map<T, nat>)

  ghost predicate NoDups<T>(s: seq<T>) {
    forall i, j :: 0 <= i < j < |s| ==> s[i] != s[j]
  }

  /** A listed child is a node, points back at the directory that lists it, and is one level down. */
  ghost predicate ChildOk<T>(t: Tree<T>, x: T, c: T)
    requires t.depth.Keys == t.kids.Keys == t.parent.Keys && x in t.kids
  {
    c in t.kids && t.parent[c] == Some(x) && t.depth[c] == t.depth[x] + 1
  }

  ghost predicate Valid<T>(t: Tree<T>) {
    && t.depth.Keys == t.kids.Keys == t.parent.Keys
    && t.root in t.kids && t.depth[t.root] == 0 && t.parent[t.root] == None
    && (forall x :: x in t.kids ==> NoDups(t.kids[x]))
    && (forall x, c :: x in t.kids && c in t.kids[x] ==> ChildOk(t, x, c))
  }

  /** A root without children. */
  function Single<T>(root: T): Tree<T> {
    Tree(root, map[root := []], map[root := None], map[root := 0])
  }

  /** The parent of `x` lists it. */
  ghost predicate Listed<T>(t: Tree<T>, x: T) {
    && x in t.parent && t.parent[x].Some?
    && t.parent[x].value in t.kids && x in t.kids[t.parent[x].value]
  }

  /** `n` hangs, link by link, from the root. */
  ghost predicate Attached<T>(t: Tree<T>, n: T)
    requires Valid(t)
    decreases if n in t.depth then t.depth[n] else 0
  {
    n == t.root ||
    (Listed(t, n) && (assert ChildOk(t, t.parent[n].value, n); Attached(t, t.parent[n].value)))
  }

  /** `x` is `c` or hangs below it. */
  ghost predicate Below<T>(t: Tree<T>, c: T, x: T)
    requires Valid(t)
    decreases if x in t.depth then t.depth[x] else 0
  {
    x == c ||
    (Listed(t, x) && (assert ChildOk(t, t.parent[x].value, x); Below(t, c, t.parent[x].value)))
  }

  /** `x` stands at an even position of the list. */
  ghost predicate AtEven<T>(s: seq<T>, x: T) {
    exists i :: 0 <= i < |s| && i % 2 == 0 && s[i] == x
  }

  /** The nodes `fs_remove_child` visits below `c`: from each directory, its children at even
      positions, since the list shrinks under the loop index. */
  ghost predicate Doomed<T>(t: Tree<T>, c: T, x: T)
    requires Valid(t)
    decreases if x in t.depth then t.depth[x] else 0
  {
    x == c ||
    (Listed(t, x) && AtEven(t.kids[t.parent[x].value], x)
     && (assert ChildOk(t, t.parent[x].value, x); Doomed(t, c, t.parent[x].value)))
  }

  /** The elements at odd positions, in order. */
  function Odds<T>(s: seq<T>): seq<T> {
    if |s| < 2 then [] else [s[1]] + Odds(s[2..])
  }

  /** `s` without its first occurrence of `c`. */
  function Without<T(==)>(s: seq<T>, c: T): seq<T> {
    if s == [] then [] else if s[0] == c then s[1..] else [s[0]] + Without(s[1..], c)
  }

  /** What the recursion leaves below `c`: every visited directory keeps its odd-indexed children. */
  ghost function Pruned<T>(t: Tree<T>, c: T): Tree<T>
    requires Valid(t)
  {
    t.(kids := map x | x in t.kids :: if Doomed(t, c, x) then Odds(t.kids[x]) else t.kids[x])
  }

  /** `fs_remove_child(p, c)` for a child that `p` lists. */
  ghost function Removed<T>(t: Tree<T>, p: T, c: T): Tree<T>
    requires Valid(t) && p in t.kids
  {
    Pruned(t, c).(kids := Pruned(t, c).kids[p := Without(t.kids[p], c)])
  }

  // ---------------------------------------------------------------- lists

  lemma {:induction false} OddsAt<T>(s: seq<T>, i: nat)
    ensures |Odds(s)| == |s| / 2
    ensures i < |s| / 2 ==> Odds(s)[i] == s[2 * i + 1]
    decreases |s|
  {
    if |s| >= 2 {
      OddsAt(s[2..], if i > 0 then i - 1 else 0);
    }
  }

  lemma {:induction false} OddsSplit<T>(s: seq<T>, u: seq<T>)
    requires |s| % 2 == 0
    ensures Odds(s + u) == Odds(s) + Odds(u)
    decreases |s|
  {
    if s == [] {
      assert s + u == u;
    } else {
      assert (s + u)[2..] == s[2..] + u;
      OddsSplit(s[2..], u);
    }
  }

  lemma {:induction false} WithoutAt<T>(s: seq<T>, i: nat)
    requires NoDups(s) && i < |s|
    ensures Without(s, s[i]) == s[..i] + s[i + 1..]
    decreases |s|
  {
    if i > 0 {
      assert s[1..][i - 1] == s[i];
      WithoutAt(s[1..], i - 1);
      assert s[..i] + s[i + 1..] == [s[0]] + (s[1..][..i - 1] + s[1..][i..]);
    }
  }

  /** `s'` keeps some elements of `s`, once each. */
  ghost predicate SubList<T>(s': seq<T>, s: seq<T>) {
    (forall x :: x in s' ==> x in s) && (NoDups(s) ==> NoDups(s'))
  }

  lemma OddsSubList<T>(s: seq<T>)
    ensures SubList(Odds(s), s)
  {
    forall i | 0 <= i < |Odds(s)| ensures |Odds(s)| == |s| / 2 && Odds(s)[i] == s[2 * i + 1] {
      OddsAt(s, i);
    }
  }

  lemma {:induction false} WithoutSubList<T>(s: seq<T>, c: T)
    ensures SubList(Without(s, c), s)
    ensures forall x :: x in s && x != c ==> x in Without(s, c)
    ensures NoDups(s) ==> c !in Without(s, c)
    decreases |s|
  {
    if s != [] {
      WithoutSubList(s[1..], c);
      if NoDups(s) {
        forall i, j | 0 <= i < j < |s[1..]| ensures s[1..][i] != s[1..][j] {
          assert s[i + 1] != s[j + 1];
        }
        assert s[0] !in s[1..];
      }
    }
  }

  // ---------------------------------------------------------------- shape

  /** Shrinking child lists keeps the tree valid. */
  lemma ShrunkValid<T>(t: Tree<T>, t': Tree<T>)
    requires Valid(t) && t' == t.(kids := t'.kids) && t'.kids.Keys == t.kids.Keys
    requires forall x :: x in t.kids ==> SubList(t'.kids[x], t.kids[x])
    ensures Valid(t')
  {
    forall x, c | x in t'.kids && c in t'.kids[x] ensures ChildOk(t', x, c) {
      assert c in t.kids[x];
      assert ChildOk(t, x, c);
    }
  }

  lemma RemovedValid<T>(t: Tree<T>, p: T, c: T)
    requires Valid(t) && p in t.kids
    ensures Valid(Removed(t, p, c))
  {
    forall x | x in t.kids ensures SubList(Removed(t, p, c).kids[x], t.kids[x]) {
      OddsSubList(t.kids[x]);
      WithoutSubList(t.kids[x], c);
    }
    ShrunkValid(t, Removed(t, p, c));
  }

  // ---------------------------------------------------------------- ancestors

  lemma ListedIff<T>(t: Tree<T>, p: T, x: T)
    requires Valid(t) && p in t.kids
    ensures x in t.kids[p] <==> Listed(t, x) && t.parent[x].value == p
    ensures x in t.kids[p] ==> t.depth[x] == t.depth[p] + 1 && x in t.kids
  {
    if x in t.kids[p] {
      assert ChildOk(t, p, x);
    }
  }

  lemma {:induction false} DoomedDepth<T>(t: Tree<T>, c: T, x: T)
    requires Valid(t) && c in t.kids && Doomed(t, c, x)
    ensures x in t.kids && t.depth[x] >= t.depth[c]
    ensures x != c ==> t.depth[x] > t.depth[c]
    decreases if x in t.depth then t.depth[x] else 0
  {
    if x != c {
      var p := t.parent[x].value;
      ListedIff(t, p, x);
      DoomedDepth(t, c, p);
    }
  }

  lemma {:induction false} DoomedBelow<T>(t: Tree<T>, c: T, x: T)
    requires Valid(t) && Doomed(t, c, x)
    ensures Below(t, c, x)
    decreases if x in t.depth then t.depth[x] else 0
  {
    if x != c {
      ListedIff(t, t.parent[x].value, x);
      DoomedBelow(t, c, t.parent[x].value);
    }
  }

  /** Nodes of the same depth have no visited node in common. */
  lemma {:induction false} DoomedApart<T>(t: Tree<T>, a: T, b: T, x: T)
    requires Valid(t) && a in t.kids && b in t.kids && t.depth[a] == t.depth[b]
    requires Doomed(t, a, x) && Doomed(t, b, x)
    ensures a == b
    decreases if x in t.depth then t.depth[x] else 0
  {
    DoomedDepth(t, a, x);
    DoomedDepth(t, b, x);
    if x != a && x != b {
      ListedIff(t, t.parent[x].value, x);
      DoomedApart(t, a, b, t.parent[x].value);
    }
  }

  /** Below a directory, the nodes visited are those visited below its even-indexed children. */
  lemma {:induction false} DoomedChildren<T>(t: Tree<T>, c: T, x: T)
    requires Valid(t) && c in t.kids && x != c
    ensures Doomed(t, c, x) <==> exists i :: 0 <= i < |t.kids[c]| && i % 2 == 0 && Doomed(t, t.kids[c][i], x)
    decreases if x in t.depth then t.depth[x] else 0
  {
    if Listed(t, x) {
      var p := t.parent[x].value;
      ListedIff(t, p, x);
      if p != c { DoomedChildren(t, c, p); }
      DoomedChildrenStep(t, c, x, p);
    } else if i :| 0 <= i < |t.kids[c]| && x == t.kids[c][i] {
      ListedIff(t, c, x);
    }
  }

  lemma DoomedChildrenStep<T>(t: Tree<T>, c: T, x: T, p: T)
    requires Valid(t) && c in t.kids && x != c && Listed(t, x) && t.parent[x].value == p
    requires p != c ==>
               (Doomed(t, c, p) <==> exists i :: 0 <= i < |t.kids[c]| && i % 2 == 0 && Doomed(t, t.kids[c][i], p))
    ensures Doomed(t, c, x) <==> exists i :: 0 <= i < |t.kids[c]| && i % 2 == 0 && Doomed(t, t.kids[c][i], x)
  {
    var l := t.kids[c];
    ListedIff(t, p, x);
    if Doomed(t, c, x) {
      assert AtEven(t.kids[p], x);
      if p == c {
        var i :| 0 <= i < |l| && i % 2 == 0 && l[i] == x;
        assert Doomed(t, l[i], x);
      } else {
        var i :| 0 <= i < |l| && i % 2 == 0 && Doomed(t, l[i], p);
        assert Doomed(t, l[i], x);
      }
    }
    if i :| 0 <= i < |l| && i % 2 == 0 && Doomed(t, l[i], x) {
      ListedIff(t, c, l[i]);
      if x == l[i] {
        assert AtEven(t.kids[c], x);
      } else if p == c {
        DoomedDepth(t, l[i], p);
        assert false;
      } else {
        assert Doomed(t, l[i], p);
      }
    }
  }

  // ---------------------------------------------------------------- the loop of fs_remove_child

  /** `x` is visited below one of the first `j` even-indexed children of `c`. */
  ghost predicate DoomedSoFar<T>(t: Tree<T>, c: T, j: nat, x: T)
    requires Valid(t) && c in t.kids
  {
    exists i :: 0 <= i < |t.kids[c]| && i % 2 == 0 && i < 2 * j && Doomed(t, t.kids[c][i], x)
  }

  /** The list of `c` after `j` rounds: the odd-indexed part of what was passed, then the rest. */
  function Passed<T>(l: seq<T>, j: nat): seq<T> {
    if 2 * j <= |l| then Odds(l[..2 * j]) + l[2 * j..] else Odds(l)
  }

  /** The tree after `j` rounds of the loop over the children of `c`. */
  ghost function Partial<T>(t: Tree<T>, c: T, j: nat): Tree<T>
    requires Valid(t) && c in t.kids
  {
    t.(kids := map x | x in t.kids ::
      if x == c then Passed(t.kids[c], j)
      else if DoomedSoFar(t, c, j, x) then Odds(t.kids[x])
      else t.kids[x])
  }

  lemma PassedAt<T>(l: seq<T>, j: nat, i: nat)
    requires 2 * j <= |l| + 1
    ensures |Passed(l, j)| == |l| - j
    ensures i < |l| - j ==> Passed(l, j)[i] == if i < j then l[2 * i + 1] else l[i + j]
  {
    if 2 * j <= |l| {
      OddsAt(l[..2 * j], i);
    } else {
      OddsAt(l, i);
    }
  }

  lemma PassedSubList<T>(l: seq<T>, j: nat)
    ensures SubList(Passed(l, j), l)
  {
    OddsSubList(l);
    if 2 * j <= |l| {
      forall i | 0 <= i < |l| - j
        ensures |Passed(l, j)| == |l| - j && Passed(l, j)[i] == l[if i < j then 2 * i + 1 else i + j]
      {
        PassedAt(l, j, i);
      }
      PassedAt(l, j, 0);
    }
  }

  lemma PartialValid<T>(t: Tree<T>, c: T, j: nat)
    requires Valid(t) && c in t.kids
    ensures Valid(Partial(t, c, j))
  {
    forall x | x in t.kids ensures SubList(Partial(t, c, j).kids[x], t.kids[x]) {
      PassedSubList(t.kids[c], j);
      OddsSubList(t.kids[x]);
    }
    ShrunkValid(t, Partial(t, c, j));
  }

  /** Earlier rounds leave everything below the next child as it was. */
  lemma {:induction false} DoomedStable<T>(t: Tree<T>, c: T, j: nat, x: T)
    requires Valid(t) && c in t.kids && 2 * j < |t.kids[c]| && Valid(Partial(t, c, j))
    ensures Doomed(Partial(t, c, j), t.kids[c][2 * j], x) <==> Doomed(t, t.kids[c][2 * j], x)
    decreases if x in t.depth then t.depth[x] else 0
  {
    var t', e := Partial(t, c, j), t.kids[c][2 * j];
    ListedIff(t, c, e);
    if x != e && x in t.parent && t.parent[x].Some? {
      var p := t.parent[x].value;
      if Listed(t, x) {
        ListedIff(t, p, x);
        DoomedStable(t, c, j, p);
        if Doomed(t, e, p) { UntouchedSoFar(t, c, j, p); }
      } else if Listed(t', x) {
        PassedSubList(t.kids[c], j);
        OddsSubList(t.kids[p]);
      }
    }
  }

  lemma UntouchedSoFar<T>(t: Tree<T>, c: T, j: nat, p: T)
    requires Valid(t) && c in t.kids && 2 * j < |t.kids[c]| && Doomed(t, t.kids[c][2 * j], p)
    ensures p in t.kids && p != c && !DoomedSoFar(t, c, j, p)
    ensures Partial(t, c, j).kids[p] == t.kids[p]
  {
    var l := t.kids[c];
    var e := l[2 * j];
    ListedIff(t, c, e);
    DoomedDepth(t, e, p);
    if i :| 0 <= i < |l| && i % 2 == 0 && i < 2 * j && Doomed(t, l[i], p) {
      ListedIff(t, c, l[i]);
      DoomedApart(t, l[i], e, p);
    }
  }

  /** One round: the recursive call on the child at index `j` of the shrunken list. */
  lemma PartialStep<T>(t: Tree<T>, c: T, j: nat)
    requires Valid(t) && c in t.kids && 2 * j < |t.kids[c]|
    ensures Valid(Partial(t, c, j))
    ensures Removed(Partial(t, c, j), c, t.kids[c][2 * j]) == Partial(t, c, j + 1)
  {
    PartialValid(t, c, j);
    PassedNext(t.kids[c], j);
    PartialStepKids(t, c, j);
  }

  lemma PartialStepKids<T>(t: Tree<T>, c: T, j: nat)
    requires Valid(t) && c in t.kids && 2 * j < |t.kids[c]| && Valid(Partial(t, c, j))
    ensures Pruned(Partial(t, c, j), t.kids[c][2 * j]).kids[c := Passed(t.kids[c], j + 1)]
            == Partial(t, c, j + 1).kids
  {
    var before, after := Pruned(Partial(t, c, j), t.kids[c][2 * j]).kids, Partial(t, c, j + 1).kids;
    assert before.Keys == t.kids.Keys == after.Keys;
    assert after[c] == Passed(t.kids[c], j + 1);
    forall x | x in before && x != c ensures before[x] == after[x] {
      PartialStepAt(t, c, j, x);
    }
    UpdateEqual(before, after, c);
  }

  lemma UpdateEqual<K, V>(m: map<K, V>, m': map<K, V>, k: K)
    requires m.Keys == m'.Keys && k in m && forall x :: x in m && x != k ==> m[x] == m'[x]
    ensures m[k := m'[k]] == m'
  {
  }

  lemma PartialStepAt<T>(t: Tree<T>, c: T, j: nat, x: T)
    requires Valid(t) && c in t.kids && 2 * j < |t.kids[c]| && Valid(Partial(t, c, j))
    requires x in t.kids && x != c
    ensures Pruned(Partial(t, c, j), t.kids[c][2 * j]).kids[x] == Partial(t, c, j + 1).kids[x]
  {
    hide Doomed, DoomedSoFar, Valid;
    var e := t.kids[c][2 * j];
    DoomedStable(t, c, j, x);
    SoFarStep(t, c, j, x);
    if Doomed(t, e, x) { UntouchedSoFar(t, c, j, x); }
  }

  lemma SoFarStep<T>(t: Tree<T>, c: T, j: nat, x: T)
    requires Valid(t) && c in t.kids && 2 * j < |t.kids[c]|
    ensures DoomedSoFar(t, c, j + 1, x) <==> DoomedSoFar(t, c, j, x) || Doomed(t, t.kids[c][2 * j], x)
  {
    hide Doomed, Valid;
  }

  lemma PassedNext<T>(l: seq<T>, j: nat)
    requires NoDups(l) && 2 * j < |l|
    ensures Without(Passed(l, j), l[2 * j]) == Passed(l, j + 1)
  {
    hide Passed, Without, Odds, SubList;
    var s := Passed(l, j);
    PassedAt(l, j, j);
    PassedDistinct(l, j);
    WithoutAt(s, j);
    PassedAt(l, j + 1, 0);
    var r := s[..j] + s[j + 1..];
    forall i | 0 <= i < |l| - j - 1 ensures Passed(l, j + 1)[i] == r[i] {
      PassedAt(l, j + 1, i);
      PassedAt(l, j, if i < j then i else i + 1);
    }
  }

  lemma PassedDistinct<T>(l: seq<T>, j: nat)
    requires NoDups(l) && 2 * j < |l|
    ensures NoDups(Passed(l, j))
  {
    PassedSubList(l, j);
  }

  lemma PartialStart<T>(t: Tree<T>, c: T)
    requires Valid(t) && c in t.kids
    ensures Partial(t, c, 0) == t
  {
    assert t.kids[c][..0] == [] && t.kids[c][0..] == t.kids[c];
    assert Passed(t.kids[c], 0) == t.kids[c];
    assert Partial(t, c, 0).kids == t.kids;
  }

  /** When the loop ends, everything below `c` is pruned. */
  lemma PartialEnd<T>(t: Tree<T>, c: T, j: nat)
    requires Valid(t) && c in t.kids && |t.kids[c]| <= 2 * j
    ensures Partial(t, c, j) == Pruned(t, c)
  {
    var l := t.kids[c];
    assert 2 * j == |l| ==> l[..2 * j] == l && l[2 * j..] == [];
    forall x | x in t.kids ensures Partial(t, c, j).kids[x] == Pruned(t, c).kids[x] {
      if x != c { DoomedChildren(t, c, x); }
    }
  }

  // ---------------------------------------------------------------- what removal means

  /** Only lists of the parent and of visited nodes below `c` change. */
  lemma RemovedElsewhere<T>(t: Tree<T>, p: T, c: T, x: T)
    requires Valid(t) && p in t.kids && x in t.kids && x != p && !Below(t, c, x)
    ensures Removed(t, p, c).kids[x] == t.kids[x]
  {
    if Doomed(t, c, x) { DoomedBelow(t, c, x); }
  }

  lemma BelowStep<T>(t: Tree<T>, c: T, x: T, n: T)
    requires Valid(t) && x in t.kids && n in t.kids[x]
    ensures Listed(t, n) && t.parent[n].value == x
    ensures Below(t, c, n) <==> n == c || Below(t, c, x)
    ensures Attached(t, n) <==> n == t.root || Attached(t, x)
  {
    ListedIff(t, x, n);
  }

  /** Whatever is still attached after the removal was attached before, and not below `c`. */
  lemma {:induction false} RemovedDetaches<T>(t: Tree<T>, p: T, c: T, n: T)
    requires Valid(t) && p in t.kids && c in t.kids[p] && Valid(Removed(t, p, c))
    requires Attached(Removed(t, p, c), n)
    ensures Attached(t, n) && !Below(t, c, n)
    decreases if n in t.depth then t.depth[n] else 0
  {
    var t' := Removed(t, p, c);
    ListedIff(t, p, c);
    if n != t.root {
      var x := t.parent[n].value;
      ListedIff(t', x, n);
      StillListed(t, p, c, x, n);
      RemovedDetaches(t, p, c, x);
      BelowStep(t, c, x, n);
    }
  }

  lemma StillListed<T>(t: Tree<T>, p: T, c: T, x: T, n: T)
    requires Valid(t) && p in t.kids && x in t.kids && n in Removed(t, p, c).kids[x]
    ensures n in t.kids[x] && (x == p ==> n != c)
  {
    OddsSubList(t.kids[x]);
    WithoutSubList(t.kids[x], c);
  }

  /** Removing `c` detaches `c` and everything below it, and nothing else. */
  lemma {:induction false} RemovedKeeps<T>(t: Tree<T>, p: T, c: T, n: T)
    requires Valid(t) && p in t.kids && c in t.kids[p] && Valid(Removed(t, p, c))
    requires Attached(t, n) && !Below(t, c, n)
    ensures Attached(Removed(t, p, c), n)
    decreases if n in t.depth then t.depth[n] else 0
  {
    var t' := Removed(t, p, c);
    if n != t.root {
      var x := t.parent[n].value;
      BelowStep(t, c, x, n);
      RemovedKeeps(t, p, c, x);
      if x == p {
        WithoutSubList(t.kids[p], c);
      } else {
        RemovedElsewhere(t, p, c, x);
      }
      ListedIff(t', x, n);
    }
  }

  /** `fs_remove_child` on a listed child: the tree stays valid, exactly the nodes below `c` leave it,
      the parent keeps its other children in order, and nothing outside changes. */
  lemma RemovalTheorem<T>(t: Tree<T>, p: T, c: T)
    requires Valid(t) && p in t.kids && c in t.kids[p]
    ensures Valid(Removed(t, p, c))
    ensures forall n :: n in t.kids ==>
              (Attached(Removed(t, p, c), n) <==> Attached(t, n) && !Below(t, c, n))
    ensures forall x :: x in t.kids && x != p && !Below(t, c, x) ==> Removed(t, p, c).kids[x] == t.kids[x]
    ensures Removed(t, p, c).kids[p] == Without(t.kids[p], c)
    ensures Removed(t, p, c).kids[c] == Odds(t.kids[c])
  {
    RemovedValid(t, p, c);
    forall n | n in t.kids
      ensures Attached(Removed(t, p, c), n) <==> Attached(t, n) && !Below(t, c, n)
    {
      if Attached(Removed(t, p, c), n) { RemovedDetaches(t, p, c, n); }
      if Attached(t, n) && !Below(t, c, n) { RemovedKeeps(t, p, c, n); }
    }
    forall x | x in t.kids && x != p && !Below(t, c, x) ensures Removed(t, p, c).kids[x] == t.kids[x] {
      RemovedElsewhere(t, p, c, x);
    }
    ListedIff(t, p, c);
  }

  /** Link by link from `c` down to the last node. */
  ghost predicate Chain<T>(t: Tree<T>, c: T, chain: seq<T>) {
    && chain != [] && chain[0] == c
    && forall i :: 0 <= i < |chain| - 1 ==> chain[i] in t.kids && chain[i + 1] in t.kids[chain[i]]
  }

  /** Every link leads to a child at an even position. */
  ghost predicate AllEven<T>(t: Tree<T>, chain: seq<T>) {
    forall i :: 0 <= i < |chain| - 1 ==> chain[i] in t.kids && AtEven(t.kids[chain[i]], chain[i + 1])
  }

  lemma {:induction false} DoomedAlong<T>(t: Tree<T>, c: T, chain: seq<T>)
    requires Valid(t) && c in t.kids && Chain(t, c, chain)
    ensures var x := chain[|chain| - 1];
      x in t.kids && t.depth[x] == t.depth[c] + |chain| - 1 && (Doomed(t, c, x) <==> AllEven(t, chain))
    decreases |chain|
  {
    if |chain| > 1 {
      var n := |chain| - 1;
      var front, y, x := chain[..n], chain[n - 1], chain[n];
      DoomedAlong(t, c, front);
      assert chain[n - 1 + 1] in t.kids[chain[n - 1]];
      ListedIff(t, y, x);
      assert AllEven(t, chain) <==> AllEven(t, front) && AtEven(t.kids[y], x) by {
        if AllEven(t, chain) { assert AtEven(t.kids[chain[n - 1]], chain[n - 1 + 1]); }
      }
    }
  }

  /** What removal does at every depth below the child: a node reached from it through even positions only
      keeps its odd-indexed children, and one behind an odd position keeps all. */
  lemma RemovalAlong<T>(t: Tree<T>, p: T, c: T, chain: seq<T>)
    requires Valid(t) && p in t.kids && c in t.kids[p] && Chain(t, c, chain)
    ensures var x := chain[|chain| - 1];
      x in t.kids && Removed(t, p, c).kids[x] == if AllEven(t, chain) then Odds(t.kids[x]) else t.kids[x]
  {
    ListedIff(t, p, c);
    DoomedAlong(t, c, chain);
  }

  /** No node lies below a node that is deeper: a directory survives removals among its descendants. */
  lemma {:induction false} BelowIsDeeper<T>(t: Tree<T>, c: T, x: T)
    requires Valid(t) && c in t.kids && Below(t, c, x)
    ensures x in t.kids && t.depth[c] <= t.depth[x]
    decreases if x in t.depth then t.depth[x] else 0
  {
    if x != c {
      ListedIff(t, t.parent[x].value, x);
      BelowIsDeeper(t, c, t.parent[x].value);
    }
  }

  // ---------------------------------------------------------------- adding and climbing

  /** A node that is not part of the tree becomes one, without children and listed nowhere. */
  function Created<T>(t: Tree<T>, c: T): Tree<T> {
    t.(kids := t.kids[c := []], parent := t.parent[c := None], depth := t.depth[c := 0])
  }

  /** `c` becomes the last child of `p`. */
  function Added<T>(t: Tree<T>, p: T, c: T): Tree<T>
    requires p in t.kids && p in t.depth
  {
    t.(kids := t.kids[p := t.kids[p] + [c]], parent := t.parent[c := Some(p)],
       depth := t.depth[c := t.depth[p] + 1])
  }

  lemma {:induction false} CreatedKeepsAttached<T>(t: Tree<T>, c: T, n: T)
    requires Valid(t) && c !in t.kids
    ensures Valid(Created(t, c))
    ensures Attached(Created(t, c), n) <==> Attached(t, n)
    decreases if n in t.depth then t.depth[n] else 0
  {
    var t' := Created(t, c);
    forall x, n | x in t'.kids && n in t'.kids[x] ensures ChildOk(t', x, n) {
      assert ChildOk(t, x, n);
    }
    if n != t.root && n in t.parent && t.parent[n].Some? && Listed(t, n) {
      ListedIff(t, t.parent[n].value, n);
      CreatedKeepsAttached(t, c, t.parent[n].value);
    }
  }

  /** `c` has no children and is listed nowhere. */
  ghost predicate Loose<T>(t: Tree<T>, c: T) {
    c in t.kids && t.kids[c] == [] && c != t.root && forall x :: x in t.kids ==> c !in t.kids[x]
  }

  lemma AddedValid<T>(t: Tree<T>, p: T, c: T)
    requires Valid(t) && p in t.kids && Loose(t, c) && p != c
    ensures Valid(Added(t, p, c))
  {
    var t' := Added(t, p, c);
    forall x, n | x in t'.kids && n in t'.kids[x] ensures ChildOk(t', x, n) {
      if n != c { assert ChildOk(t, x, n); }
    }
  }

  lemma {:induction false} AddedKeepsAttached<T>(t: Tree<T>, p: T, c: T, n: T)
    requires Valid(t) && p in t.kids && Loose(t, c) && p != c && Valid(Added(t, p, c)) && n != c
    ensures Attached(Added(t, p, c), n) <==> Attached(t, n)
    decreases if n in t.depth then t.depth[n] else 0
  {
    var t' := Added(t, p, c);
    if n != t.root && n in t.parent && t.parent[n].Some? {
      var x := t.parent[n].value;
      if x in t.kids && n in t.kids[x] {
        ListedIff(t, x, n);
        AddedKeepsAttached(t, p, c, x);
      }
    }
  }

  /** `n` parent links up from `x`. */
  function Climb<T>(t: Tree<T>, x: T, n: nat): T {
    if n == 0 || x !in t.parent || t.parent[x].None? then x else Climb(t, t.parent[x].value, n - 1)
  }

  /** From an attached node, as many steps up as it is deep lead to the root, and no fewer do. */
  lemma {:induction false} ClimbToRoot<T>(t: Tree<T>, x: T, n: nat)
    requires Valid(t) && Attached(t, x) && x in t.kids && n <= t.depth[x]
    ensures Climb(t, x, n) == t.root <==> n == t.depth[x]
    decreases n
  {
    if x != t.root {
      ListedIff(t, t.parent[x].value, x);
      if n > 0 { ClimbToRoot(t, t.parent[x].value, n - 1); }
    }
  }
}
