/** Path lookup over the directory structure: the specification of the walkers of
    src/kernel/ramfs.cpp. */
module Paths {
  import opened Options
  import opened FileTree
  import opened Tokenizing

  const SLASH := ['/']

  /** Names and kinds, which never change. */
  datatype Labels<T> = Labels(name: map<T, string>, isDir: map<T, bool>)

  ghost predicate Labelled<T>(t: Tree<T>, lb: Labels<T>) {
    && Valid(t) && lb.name.Keys == t.kids.Keys && lb.isDir.Keys == t.kids.Keys
    && lb.isDir[t.root]
    && (forall x :: x in t.kids && !lb.isDir[x] ==> t.kids[x] == [])
  }

  /** The first element of `s` that carries the name. */
  function FirstNamed<T>(s: seq<T>, name: map<T, string>, nm: string): (r: Option<T>)
    requires forall x :: x in s ==> x in name
    ensures r.Some? ==> r.value in s && name[r.value] == nm
    ensures r.None? ==> forall x :: x in s ==> name[x] != nm
  {
    if s == [] then None
    else if name[s[0]] == nm then Some(s[0])
    else FirstNamed(s[1..], name, nm)
  }

  lemma {:induction false} FirstNamedAt<T>(s: seq<T>, name: map<T, string>, nm: string, i: nat)
    requires forall x :: x in s ==> x in name
    requires i < |s| && name[s[i]] == nm && forall j :: 0 <= j < i ==> name[s[j]] != nm
    ensures FirstNamed(s, name, nm) == Some(s[i])
    decreases i
  {
    if i > 0 { FirstNamedAt(s[1..], name, nm, i - 1); }
  }

  /** `fs_find_child`. */
  ghost function FindChild<T>(t: Tree<T>, lb: Labels<T>, p: Option<T>, nm: string): (r: Option<T>)
    requires Labelled(t, lb)
    ensures r.Some? ==> p.Some? && p.value in t.kids && r.value in t.kids[p.value] && lb.name[r.value] == nm
  {
    match p
    case None => None
    case Some(x) =>
      if x !in t.kids || !lb.isDir[x] then None
      else
        assert forall c :: c in t.kids[x] ==> ChildOk(t, x, c);
        FirstNamed(t.kids[x], lb.name, nm)
  }

  /** Descend along the names, one after the other. */
  ghost function Walk<T>(t: Tree<T>, lb: Labels<T>, from: Option<T>, names: seq<string>): Option<T>
    requires Labelled(t, lb)
    decreases |names|
  {
    if names == [] then from else Walk(t, lb, FindChild(t, lb, from, names[0]), names[1..])
  }

  lemma {:induction false} WalkConcat<T>(t: Tree<T>, lb: Labels<T>, from: Option<T>, xs: seq<string>, ys: seq<string>)
    requires Labelled(t, lb)
    ensures Walk(t, lb, from, xs + ys) == Walk(t, lb, Walk(t, lb, from, xs), ys)
    decreases |xs|
  {
    if xs == [] {
      assert xs + ys == ys;
    } else {
      assert (xs + ys)[1..] == xs[1..] + ys;
      WalkConcat(t, lb, FindChild(t, lb, from, xs[0]), xs[1..], ys);
    }
  }

  /** A walk from a node leads to a node, if anywhere. */
  lemma {:induction false} WalkWithin<T>(t: Tree<T>, lb: Labels<T>, from: Option<T>, names: seq<string>)
    requires Labelled(t, lb) && (from.Some? ==> from.value in t.kids)
    ensures var r := Walk(t, lb, from, names); r.Some? ==> r.value in t.kids
    decreases |names|
  {
    if names != [] {
      var next := FindChild(t, lb, from, names[0]);
      if next.Some? { ListedIff(t, from.value, next.value); }
      WalkWithin(t, lb, next, names[1..]);
    }
  }

  lemma WalkOne<T>(t: Tree<T>, lb: Labels<T>, from: Option<T>, nm: string)
    requires Labelled(t, lb)
    ensures Walk(t, lb, from, [nm]) == FindChild(t, lb, from, nm)
  {
    assert [nm][1..] == [];
  }

  lemma {:induction false} WalkFromNowhere<T>(t: Tree<T>, lb: Labels<T>, names: seq<string>)
    requires Labelled(t, lb)
    ensures Walk(t, lb, None, names) == None
    decreases |names|
  {
    if names != [] { WalkFromNowhere(t, lb, names[1..]); }
  }

  predicate IsAbsolute(path: string) {
    path != "" && path[0] == '/'
  }

  /** Length of `path` up to and with its last slash. */
  function Cut(path: string): (n: nat)
    ensures n <= |path| && Free(path[n..], SLASH)
    ensures forall i :: n <= i < |path| ==> path[i] != '/'
    ensures n > 0 ==> path[n - 1] == '/'
  {
    if path == "" then 0
    else if path[|path| - 1] == '/' then |path|
    else
      var n := Cut(path[..|path| - 1]);
      assert path[n..] == path[..|path| - 1][n..] + [path[|path| - 1]];
      n
  }

  lemma CutIs(path: string, n: nat)
    requires n <= |path| && Free(path[n..], SLASH) && (n > 0 ==> path[n - 1] == '/')
    ensures Cut(path) == n
  {
    assert forall i :: n <= i < |path| ==> path[i] == path[n..][i - n];
  }

  /** The one-argument `fs_find_by_path`: only components closed by a slash are resolved, since the
      test for the end of the string stands inside a loop that stops there. */
  ghost function FindClosed<T>(t: Tree<T>, lb: Labels<T>, path: string): Option<T>
    requires Labelled(t, lb)
  {
    if IsAbsolute(path) then Walk(t, lb, Some(t.root), Tokens(path[..Cut(path)], SLASH)) else None
  }

  /** The two-argument `fs_find_by_path`, from the root for an absolute path, else from `current`. */
  ghost function FindFrom<T>(t: Tree<T>, lb: Labels<T>, path: string, current: Option<T>): Option<T>
    requires Labelled(t, lb)
  {
    Walk(t, lb, if IsAbsolute(path) then Some(t.root) else current, Tokens(path, SLASH))
  }

  /** What follows the last slash is one more token, if it is not empty. */
  lemma TokensCut(path: string)
    ensures Tokens(path, SLASH) ==
            Tokens(path[..Cut(path)], SLASH) + if Cut(path) == |path| then [] else [path[Cut(path)..]]
  {
    hide Tokens, Cut;
    TokensAppendWord(path[..Cut(path)], path[Cut(path)..]);
    assert path[..Cut(path)] + path[Cut(path)..] == path;
  }

  /** A slash-free word after a slash, or at the start. */
  lemma TokensAppendWord(s: string, w: string)
    requires Free(w, SLASH) && (s == "" || s[|s| - 1] == '/')
    ensures Tokens(s + w, SLASH) == Tokens(s, SLASH) + if w == "" then [] else [w]
  {
    TokensOfWord(w, SLASH);
    assert Tokens("", SLASH) == [];
    hide Tokens;
    if s == "" {
      assert s + w == w;
    } else {
      var x := s[..|s| - 1];
      assert s == x + ['/'];
      TokensConcat(x, '/', w, SLASH);
      TokensCloseSlash(x);
      assert s == x + "/";
    }
  }

  lemma TokensCloseSlash(s: string)
    ensures Tokens(s + "/", SLASH) == Tokens(s, SLASH)
  {
    TokensConcat(s, '/', "", SLASH);
    assert s + ['/'] + "" == s + "/";
  }

  /** A component closed by a slash is one more step of the walk. */
  lemma CloseComponent<T>(t: Tree<T>, lb: Labels<T>, path: string, b: nat, k: nat, start: Option<T>)
    requires Labelled(t, lb) && b <= k < |path| && Free(path[b..k], SLASH)
    requires (b > 0 ==> path[b - 1] == '/') && path[k] == '/'
    ensures Walk(t, lb, start, Tokens(path[..k + 1], SLASH)) ==
            var q := Walk(t, lb, start, Tokens(path[..b], SLASH));
            if b == k then q else FindChild(t, lb, q, path[b..k])
  {
    var closed := Tokens(path[..b], SLASH);
    TokensAppendWord(path[..b], path[b..k]);
    assert path[..b] + path[b..k] == path[..k];
    TokensCloseSlash(path[..k]);
    assert path[..k + 1] == path[..k] + "/";
    if b == k {
      assert closed + [] == closed;
    } else {
      WalkConcat(t, lb, start, closed, [path[b..k]]);
      WalkOne(t, lb, Walk(t, lb, start, closed), path[b..k]);
    }
  }

  /** Once a closed component is missing, nothing is found for the path or for its closed part. */
  lemma WalkStops<T>(t: Tree<T>, lb: Labels<T>, path: string, n: nat, start: Option<T>)
    requires Labelled(t, lb) && 0 < n <= |path| && path[n - 1] == '/'
    requires Walk(t, lb, start, Tokens(path[..n], SLASH)) == None
    ensures Walk(t, lb, start, Tokens(path, SLASH)) == None
    ensures Walk(t, lb, start, Tokens(path[..Cut(path)], SLASH)) == None
  {
    WalkStopsAt(t, lb, path, n, start);
    assert Cut(path) >= n;
    var cut := path[..Cut(path)];
    assert cut[..n] == path[..n];
    WalkStopsAt(t, lb, cut, n, start);
  }

  lemma WalkStopsAt<T>(t: Tree<T>, lb: Labels<T>, path: string, n: nat, start: Option<T>)
    requires Labelled(t, lb) && 0 < n <= |path| && path[n - 1] == '/'
    requires Walk(t, lb, start, Tokens(path[..n], SLASH)) == None
    ensures Walk(t, lb, start, Tokens(path, SLASH)) == None
  {
    var x, y := path[..n - 1], path[n..];
    assert path == x + ['/'] + y && path[..n] == x + "/";
    TokensConcat(x, '/', y, SLASH);
    TokensCloseSlash(x);
    WalkConcat(t, lb, start, Tokens(x, SLASH), Tokens(y, SLASH));
    WalkFromNowhere(t, lb, Tokens(y, SLASH));
  }

  // ---------------------------------------------------------------- the two walkers

  /** Closing the path with a slash makes the one-argument walker agree with the other. */
  lemma ClosedPathAgrees<T>(t: Tree<T>, lb: Labels<T>, path: string, current: Option<T>)
    requires Labelled(t, lb) && IsAbsolute(path)
    ensures FindClosed(t, lb, path + "/") == FindFrom(t, lb, path, current)
  {
    CutIs(path + "/", |path| + 1);
    assert (path + "/")[..|path| + 1] == path + "/";
    TokensCloseSlash(path);
  }

  /** The one-argument walker finds what the other finds for the path cut behind its last slash. */
  lemma ClosedIsCut<T>(t: Tree<T>, lb: Labels<T>, path: string, current: Option<T>)
    requires Labelled(t, lb) && IsAbsolute(path)
    ensures FindClosed(t, lb, path) == FindFrom(t, lb, path[..Cut(path)], current)
  {
    assert Cut(path) > 0;
  }

  /** A path that does not begin with a slash: the one-argument walker finds nothing, the other starts at the
      current directory, where a plain name leads to the child of that name. */
  lemma RelativePaths<T>(t: Tree<T>, lb: Labels<T>, path: string, current: Option<T>)
    requires Labelled(t, lb) && (path == "" || path[0] != '/')
    ensures FindClosed(t, lb, path) == None
    ensures path == "" ==> FindFrom(t, lb, path, current) == current
    ensures path != "" && '/' !in path ==> FindFrom(t, lb, path, current) == FindChild(t, lb, current, path)
  {
    if '/' !in path {
      TokensOfWord(path, SLASH);
      if path != "" { WalkOne(t, lb, current, path); }
    }
  }

  /** Exactly when the two walkers agree on an absolute path: it ends with a slash, or even the part
      before the last slash leads nowhere. */
  lemma WalkersAgreeIff<T>(t: Tree<T>, lb: Labels<T>, path: string, current: Option<T>)
    requires Labelled(t, lb) && IsAbsolute(path)
    ensures FindClosed(t, lb, path) == FindFrom(t, lb, path, current)
            <==> path[|path| - 1] == '/' || FindFrom(t, lb, path[..Cut(path)], current) == None
  {
    ClosedIsCut(t, lb, path, current);
    var n := Cut(path);
    var q := FindClosed(t, lb, path);
    var closed := Tokens(path[..n], SLASH);
    TokensCut(path);
    if path[|path| - 1] == '/' {
      assert n == |path|;
      assert closed + [] == closed;
    } else {
      assert n < |path|;
      WalkConcat(t, lb, Some(t.root), closed, [path[n..]]);
      WalkOne(t, lb, q, path[n..]);
      var r := FindChild(t, lb, q, path[n..]);
      if r.Some? { ListedIff(t, q.value, r.value); }
    }
  }

  // ---------------------------------------------------------------- split_path

  /** `split_path`: at the last slash, or an empty parent when there is none. */
  function Split(path: string): (r: (string, string))
    ensures '/' !in r.1
  {
    var n := Cut(path);
    if n == 0 then ("", path) else (path[..n - 1], path[n..])
  }

  /** Splitting undoes joining, for a slash-free name. */
  lemma SplitOfJoin(parent: string, nm: string)
    requires '/' !in nm
    ensures Split(parent + "/" + nm) == (parent, nm)
  {
    var path := parent + "/" + nm;
    assert path[|parent| + 1..] == nm;
    CutIs(path, |parent| + 1);
    assert path[..|parent|] == parent;
  }

  lemma JoinOfSplit(path: string)
    requires '/' in path
    ensures Split(path).0 + "/" + Split(path).1 == path
  {
    var n := Cut(path);
    assert n > 0;
    assert path == path[..n - 1] + [path[n - 1]] + path[n..];
  }

  /** Where `fs_mkdir` and `fs_touch` put a new entry: the parent part is looked up by the walker that
      ignores an unclosed last component, so a path of the form g/d/name is served in g, not in g/d,
      and an entry directly under the root is refused. */
  lemma CreationParent<T>(t: Tree<T>, lb: Labels<T>, g: string, d: string, nm: string, current: Option<T>)
    requires Labelled(t, lb) && '/' !in d && '/' !in nm && IsAbsolute(g + "/")
    ensures FindClosed(t, lb, Split(g + "/" + d + "/" + nm).0) == FindFrom(t, lb, g + "/", current)
    ensures FindClosed(t, lb, Split("/" + nm).0) == None
  {
    SplitOfJoin(g + "/" + d, nm);
    var path := g + "/" + d;
    assert path[|g| + 1..] == d && path[..|g| + 1] == g + "/";
    CutIs(path, |g| + 1);
    assert path[0] == (g + "/")[0];
    SplitOfJoin("", nm);
    assert "" + "/" + nm == "/" + nm;
  }

  // ---------------------------------------------------------------- absolute names

  /** The path of an attached node: the names from below the root down to it, each after a slash. */
  ghost function PathOf<T>(t: Tree<T>, lb: Labels<T>, n: T): string
    requires Labelled(t, lb) && Attached(t, n)
    decreases if n in t.depth then t.depth[n] else 0
  {
    if n == t.root then ""
    else
      ListedIff(t, t.parent[n].value, n);
      PathOf(t, lb, t.parent[n].value) + "/" + lb.name[n]
  }

  /** Every name from the root down to `n` is non-empty and slash-free. */
  ghost predicate PlainNames<T>(t: Tree<T>, lb: Labels<T>, n: T)
    requires Labelled(t, lb) && Attached(t, n)
    decreases if n in t.depth then t.depth[n] else 0
  {
    n == t.root ||
    (ListedIff(t, t.parent[n].value, n);
     lb.name[n] != "" && '/' !in lb.name[n] && PlainNames(t, lb, t.parent[n].value))
  }

  /** No name from the root down to `n` is carried by an earlier sibling. */
  ghost predicate Unshadowed<T>(t: Tree<T>, lb: Labels<T>, n: T)
    requires Labelled(t, lb) && Attached(t, n)
    decreases if n in t.depth then t.depth[n] else 0
  {
    n == t.root ||
    (ListedIff(t, t.parent[n].value, n);
     && FirstAmongNamesakes(t, lb, n)
     && Unshadowed(t, lb, t.parent[n].value))
  }

  ghost predicate FirstAmongNamesakes<T>(t: Tree<T>, lb: Labels<T>, n: T)
    requires Labelled(t, lb) && Listed(t, n)
  {
    var s := t.kids[t.parent[n].value];
    forall i, j :: 0 <= i < j < |s| && s[j] == n ==> s[i] in lb.name && n in lb.name && lb.name[s[i]] != lb.name[n]
  }

  /** A child is found by its name exactly when no earlier sibling carries that name. */
  lemma FindChildIff<T>(t: Tree<T>, lb: Labels<T>, n: T)
    requires Labelled(t, lb) && Listed(t, n)
    ensures n in lb.name
    ensures FindChild(t, lb, t.parent[n], lb.name[n]) == Some(n) <==> FirstAmongNamesakes(t, lb, n)
  {
    var p := t.parent[n].value;
    var s := t.kids[p];
    ListedIff(t, p, n);
    var j :| 0 <= j < |s| && s[j] == n;
    forall i | 0 <= i < |s| ensures s[i] in lb.name {
      assert ChildOk(t, p, s[i]);
    }
    if FirstAmongNamesakes(t, lb, n) {
      FirstNamedAt(s, lb.name, lb.name[n], j);
    } else {
      var i, k :| 0 <= i < k < |s| && s[k] == n && lb.name[s[i]] == lb.name[n];
      NotTheLater(s, lb.name, i, k);
    }
  }

  lemma {:induction false} NotTheLater<T>(s: seq<T>, name: map<T, string>, i: nat, k: nat)
    requires i < k < |s| && NoDups(s) && (forall x :: x in s ==> x in name) && name[s[i]] == name[s[k]]
    ensures FirstNamed(s, name, name[s[k]]) != Some(s[k])
    decreases i
  {
    if i > 0 && name[s[0]] != name[s[k]] { NotTheLater(s[1..], name, i - 1, k - 1); }
  }

  /** The path of a node leads back to it exactly when no node on it is shadowed. */
  lemma {:induction false} PathResolvesIff<T>(t: Tree<T>, lb: Labels<T>, n: T)
    requires Labelled(t, lb) && Attached(t, n) && PlainNames(t, lb, n)
    ensures Walk(t, lb, Some(t.root), Tokens(PathOf(t, lb, n), SLASH)) == Some(n) <==> Unshadowed(t, lb, n)
    decreases if n in t.depth then t.depth[n] else 0
  {
    if n != t.root {
      var p := t.parent[n].value;
      ListedIff(t, p, n);
      PathResolvesIff(t, lb, p);
      var s, nm := PathOf(t, lb, p), lb.name[n];
      assert Free(nm, SLASH);
      TokensAppendWord(s + "/", nm);
      TokensCloseSlash(s);
      WalkConcat(t, lb, Some(t.root), Tokens(s, SLASH), [nm]);
      var q := Walk(t, lb, Some(t.root), Tokens(s, SLASH));
      WalkOne(t, lb, q, nm);
      FindChildIff(t, lb, n);
      if FindChild(t, lb, q, nm) == Some(n) {
        ListedIff(t, q.value, n);
      }
    }
  }

  /** The same for both walkers of the file system. */
  lemma PathRoundTrip<T>(t: Tree<T>, lb: Labels<T>, n: T, current: Option<T>)
    requires Labelled(t, lb) && Attached(t, n) && PlainNames(t, lb, n) && n != t.root
    ensures FindFrom(t, lb, PathOf(t, lb, n), current) == Some(n) <==> Unshadowed(t, lb, n)
    ensures FindClosed(t, lb, PathOf(t, lb, n) + "/") == Some(n) <==> Unshadowed(t, lb, n)
  {
    PathResolvesIff(t, lb, n);
    PathAbsolute(t, lb, n);
    ClosedPathAgrees(t, lb, PathOf(t, lb, n), current);
  }

  lemma {:induction false} PathAbsolute<T>(t: Tree<T>, lb: Labels<T>, n: T)
    requires Labelled(t, lb) && Attached(t, n) && n != t.root
    ensures IsAbsolute(PathOf(t, lb, n))
    decreases if n in t.depth then t.depth[n] else 0
  {
    var p := t.parent[n].value;
    ListedIff(t, p, n);
    if p != t.root { PathAbsolute(t, lb, p); }
  }
}
