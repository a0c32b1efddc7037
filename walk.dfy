/**
 * What the rows of `getTree` say about the store: which asset each row is,
 * the order of the rows (container before content, each listing contiguous
 * and in listing order), how many rows there are, and the destination ID of
 * each row.
 */
module WalkProperties {
  import opened Strings
  import opened AssetPaths
  import opened AssetTree

  /** The assets whose rows `Level` produces, in the same order. */
  function Visit(node: Node): seq<Node>
    decreases Size(node), 0
  {
    node.children + VisitAll(node.children)
  }

  function VisitAll(cs: seq<Node>): seq<Node>
    decreases SizeAll(cs), 1
  {
    if cs == [] then []
    else
      var c := cs[|cs| - 1];
      VisitAll(cs[..|cs| - 1]) + (if IsContainer(c.kind) then Visit(c) else [])
  }

  /** `rows` are the rows of `assets`, one for one: the asset's type and its name as source ID. */
  predicate RowsOf(rows: seq<Entry>, assets: seq<Node>) {
    && |rows| == |assets|
    && forall k :: 0 <= k < |rows| ==> rows[k].kind == assets[k].kind && rows[k].fromId == assets[k].name
  }

  lemma RowsOfConcat(r1: seq<Entry>, a1: seq<Node>, r2: seq<Entry>, a2: seq<Node>)
    requires RowsOf(r1, a1) && RowsOf(r2, a2)
    ensures RowsOf(r1 + r2, a1 + a2)
  {
    forall k | 0 <= k < |r1 + r2|
      ensures (r1 + r2)[k].kind == (a1 + a2)[k].kind && (r1 + r2)[k].fromId == (a1 + a2)[k].name
    {
      if k >= |r1| {
        assert (r1 + r2)[k] == r2[k - |r1|];
        assert (a1 + a2)[k] == a2[k - |a1|];
      }
    }
  }

  lemma {:induction false} ChildEntriesRows(cs: seq<Node>, f: string, t: string)
    requires |f| > 0
    ensures RowsOf(ChildEntries(cs, f, t), cs)
  {
    if cs != [] {
      var init := cs[..|cs| - 1];
      ChildEntriesRows(init, f, t);
      RowsOfConcat(ChildEntries(init, f, t), init, [ChildEntry(cs[|cs| - 1], f, t)], [cs[|cs| - 1]]);
      assert init + [cs[|cs| - 1]] == cs;
    }
  }

  /** Each row of `Level` is the row of the matching asset of `Visit`. */
  lemma {:induction false} LevelRows(node: Node, fromRoot: string, toRoot: string)
    ensures RowsOf(Level(node, fromRoot, toRoot), Visit(node))
    decreases Size(node), 0
  {
    FixNonEmpty(fromRoot);
    FixNonEmpty(toRoot);
    var f := WithSlash(Fix(fromRoot));
    var t := WithSlash(Fix(toRoot));
    ChildEntriesRows(node.children, f, t);
    DescendRows(node.children, f, t);
    RowsOfConcat(ChildEntries(node.children, f, t), node.children, Descend(node.children, f, t), VisitAll(node.children));
  }

  lemma {:induction false} DescendRows(cs: seq<Node>, f: string, t: string)
    requires |f| > 0
    ensures RowsOf(Descend(cs, f, t), VisitAll(cs))
    decreases SizeAll(cs), 1
  {
    if cs != [] {
      var init, c := cs[..|cs| - 1], cs[|cs| - 1];
      DescendRows(init, f, t);
      if IsContainer(c.kind) {
        LevelRows(c, c.name, ReplaceAll(c.name, f, t));
        RowsOfConcat(Descend(init, f, t), VisitAll(init), Level(c, c.name, ReplaceAll(c.name, f, t)), Visit(c));
      }
    }
  }

  /** Some earlier asset of `vs` is a container that lists `vs[j]`. */
  ghost predicate EarlierParent(vs: seq<Node>, j: int)
    requires 0 <= j < |vs|
  {
    exists i :: 0 <= i < j && IsContainer(vs[i].kind) && vs[j] in vs[i].children
  }

  /** Some container of `cs` lists `v`. */
  ghost predicate ParentAmong(v: Node, cs: seq<Node>) {
    exists m :: 0 <= m < |cs| && IsContainer(cs[m].kind) && v in cs[m].children
  }

  /** Every visited asset is listed by the root or by a container visited before it. */
  lemma {:induction false} VisitParentsFirst(node: Node)
    ensures forall j :: 0 <= j < |Visit(node)| ==> Visit(node)[j] in node.children || EarlierParent(Visit(node), j)
    decreases Size(node), 0
  {
    var cs := node.children;
    var va := VisitAll(cs);
    var v := Visit(node);
    VisitAllParentsFirst(cs);
    forall j | 0 <= j < |v|
      ensures v[j] in cs || EarlierParent(v, j)
    {
      if j < |cs| {
        assert v[j] == cs[j];
      } else {
        var p := j - |cs|;
        assert v[j] == va[p];
        if ParentAmong(va[p], cs) {
          var m :| 0 <= m < |cs| && IsContainer(cs[m].kind) && va[p] in cs[m].children;
          assert v[m] == cs[m];
        } else {
          var i :| 0 <= i < p && IsContainer(va[i].kind) && va[p] in va[i].children;
          assert v[|cs| + i] == va[i];
        }
      }
    }
  }

  lemma {:induction false} VisitAllParentsFirst(cs: seq<Node>)
    ensures forall j :: 0 <= j < |VisitAll(cs)| ==> ParentAmong(VisitAll(cs)[j], cs) || EarlierParent(VisitAll(cs), j)
    decreases SizeAll(cs), 1
  {
    if cs != [] {
      var init, c := cs[..|cs| - 1], cs[|cs| - 1];
      var vi := VisitAll(init);
      var va := VisitAll(cs);
      VisitAllParentsFirst(init);
      if IsContainer(c.kind) {
        VisitParentsFirst(c);
      }
      forall j | 0 <= j < |va|
        ensures ParentAmong(va[j], cs) || EarlierParent(va, j)
      {
        if j < |vi| {
          assert va[j] == vi[j];
          if ParentAmong(vi[j], init) {
            var m :| 0 <= m < |init| && IsContainer(init[m].kind) && vi[j] in init[m].children;
            assert cs[m] == init[m];
          } else {
            var i :| 0 <= i < j && IsContainer(vi[i].kind) && vi[j] in vi[i].children;
            assert va[i] == vi[i];
          }
        } else {
          var s := Visit(c);
          var q := j - |vi|;
          assert va[j] == s[q];
          if s[q] in c.children {
            assert cs[|cs| - 1] == c;
          } else {
            var i :| 0 <= i < q && IsContainer(s[i].kind) && s[q] in s[i].children;
            assert va[|vi| + i] == s[i];
          }
        }
      }
    }
  }

  /** The listing of `c` occupies `vs[k..k + |c.children|]`. */
  predicate ListingAt(vs: seq<Node>, k: int, c: Node) {
    0 <= k <= |vs| - |c.children| && vs[k..k + |c.children|] == c.children
  }

  lemma ListingAtPrefix(vs: seq<Node>, ws: seq<Node>, k: int, c: Node)
    requires ListingAt(vs, k, c)
    ensures ListingAt(vs + ws, k, c)
  {
    assert (vs + ws)[k..k + |c.children|] == vs[k..k + |c.children|];
  }

  lemma ListingAtSuffix(vs: seq<Node>, ws: seq<Node>, k: int, c: Node)
    requires ListingAt(ws, k, c)
    ensures ListingAt(vs + ws, |vs| + k, c)
  {
    assert (vs + ws)[|vs| + k..|vs| + k + |c.children|] == ws[k..k + |c.children|];
  }

  /** The listing of `c` occurs somewhere in `vs`. */
  ghost predicate ListedIn(vs: seq<Node>, c: Node) {
    exists k :: ListingAt(vs, k, c)
  }

  /** The listing of `vs[i]` occurs in `vs` after position `i`. */
  ghost predicate ListedAfter(vs: seq<Node>, i: int)
    requires 0 <= i < |vs|
  {
    exists k :: i < k && ListingAt(vs, k, vs[i])
  }

  lemma ListedAfterPrefix(vs: seq<Node>, ws: seq<Node>, i: int)
    requires 0 <= i < |vs| && ListedAfter(vs, i)
    ensures ListedAfter(vs + ws, i)
  {
    var k :| i < k && ListingAt(vs, k, vs[i]);
    ListingAtPrefix(vs, ws, k, vs[i]);
    assert (vs + ws)[i] == vs[i];
  }

  lemma ListedAfterSuffix(vs: seq<Node>, ws: seq<Node>, i: int)
    requires 0 <= i < |ws| && ListedAfter(ws, i)
    ensures ListedAfter(vs + ws, |vs| + i)
  {
    var k :| i < k && ListingAt(ws, k, ws[i]);
    ListingAtSuffix(vs, ws, k, ws[i]);
    assert (vs + ws)[|vs| + i] == ws[i];
  }

  /**
   * The listing of the root comes first, and the listing of every visited
   * container comes after it, contiguous and in listing order.
   */
  lemma {:induction false} VisitListingsContiguous(node: Node)
    ensures Visit(node)[..|node.children|] == node.children
    ensures forall i :: 0 <= i < |Visit(node)| && IsContainer(Visit(node)[i].kind) ==> ListedAfter(Visit(node), i)
    decreases Size(node), 0
  {
    var cs := node.children;
    var va := VisitAll(cs);
    var v := Visit(node);
    assert v == cs + va;
    VisitAllListsEach(cs);
    VisitAllListingsAfter(cs);
    forall i | 0 <= i < |v| && IsContainer(v[i].kind)
      ensures ListedAfter(v, i)
    {
      if i < |cs| {
        assert v[i] == cs[i];
        var k :| ListingAt(va, k, cs[i]);
        ListingAtSuffix(cs, va, k, cs[i]);
      } else {
        assert v[i] == va[i - |cs|];
        ListedAfterSuffix(cs, va, i - |cs|);
      }
    }
  }

  /** The walk below a listing holds the listing of each of its containers. */
  lemma {:induction false} VisitAllListsEach(cs: seq<Node>)
    ensures forall m :: 0 <= m < |cs| && IsContainer(cs[m].kind) ==> ListedIn(VisitAll(cs), cs[m])
    decreases |cs|
  {
    if cs != [] {
      var init, c := cs[..|cs| - 1], cs[|cs| - 1];
      var vi := VisitAll(init);
      var s := if IsContainer(c.kind) then Visit(c) else [];
      var va := VisitAll(cs);
      assert va == vi + s;
      VisitAllListsEach(init);
      forall m | 0 <= m < |cs| && IsContainer(cs[m].kind)
        ensures ListedIn(va, cs[m])
      {
        if m < |init| {
          assert cs[m] == init[m];
          var k :| ListingAt(vi, k, init[m]);
          ListingAtPrefix(vi, s, k, init[m]);
        } else {
          assert s[..|c.children|] == c.children;
          ListingAtSuffix(vi, s, 0, c);
        }
      }
    }
  }

  lemma {:induction false} VisitAllListingsAfter(cs: seq<Node>)
    ensures forall i :: 0 <= i < |VisitAll(cs)| && IsContainer(VisitAll(cs)[i].kind) ==> ListedAfter(VisitAll(cs), i)
    decreases SizeAll(cs), 1
  {
    if cs != [] {
      var init, c := cs[..|cs| - 1], cs[|cs| - 1];
      var vi := VisitAll(init);
      var s := if IsContainer(c.kind) then Visit(c) else [];
      var va := VisitAll(cs);
      assert va == vi + s;
      VisitAllListingsAfter(init);
      if IsContainer(c.kind) {
        VisitListingsContiguous(c);
      }
      forall i | 0 <= i < |va| && IsContainer(va[i].kind)
        ensures ListedAfter(va, i)
      {
        if i < |vi| {
          assert va[i] == vi[i];
          ListedAfterPrefix(vi, s, i);
        } else {
          assert va[i] == s[i - |vi|];
          ListedAfterSuffix(vi, s, i - |vi|);
        }
      }
    }
  }

  /**
   * The rows of `getTree`: the root row, then one row per visited asset, each
   * listed by the root or by a container whose row comes earlier, the root's
   * listing first.
   */
  lemma TreeOrder(store: Node, fromRoot: string, toRoot: string)
    ensures var rows := Tree(store, fromRoot, toRoot);
            var v := Visit(store);
            && rows[0] == Entry(store.kind, Fix(fromRoot), Fix(toRoot))
            && RowsOf(rows[1..], v)
            && v[..|store.children|] == store.children
            && forall j :: 0 <= j < |v| ==>
                 v[j] in store.children
                 || exists i :: 0 <= i < j && IsContainer(rows[1..][i].kind) && v[j] in v[i].children
  {
    var rows := Tree(store, fromRoot, toRoot);
    var v := Visit(store);
    LevelRows(store, fromRoot, toRoot);
    assert rows[1..] == Level(store, fromRoot, toRoot);
    VisitParentsFirst(store);
    VisitListingsContiguous(store);
  }

  /** The standard pre-order enumeration of all assets below `node`. */
  function Preorder(node: Node): seq<Node>
    decreases Size(node), 0
  {
    PreorderAll(node.children)
  }

  function PreorderAll(cs: seq<Node>): seq<Node>
    decreases SizeAll(cs), 1
  {
    if cs == [] then []
    else
      var c := cs[|cs| - 1];
      PreorderAll(cs[..|cs| - 1]) + [c] + Preorder(c)
  }

  /** Only containers list anything (folders and image collections). */
  ghost predicate LeavesAreLeaves(n: Node) {
    forall k :: 0 <= k < |n.children| ==>
      (!IsContainer(n.children[k].kind) ==> n.children[k].children == []) && LeavesAreLeaves(n.children[k])
  }

  /** The pre-order enumeration names every asset below `node` once. */
  lemma {:induction false} PreorderSize(node: Node)
    ensures |Preorder(node)| == Size(node) - 1
    decreases Size(node), 0
  {
    PreorderAllSize(node.children);
  }

  lemma {:induction false} PreorderAllSize(cs: seq<Node>)
    ensures |PreorderAll(cs)| == SizeAll(cs)
    decreases SizeAll(cs), 1
  {
    if cs != [] {
      PreorderAllSize(cs[..|cs| - 1]);
      PreorderSize(cs[|cs| - 1]);
    }
  }

  /** When only containers list anything, the walk visits the same assets as pre-order. */
  lemma {:induction false} VisitIsPermutationOfPreorder(node: Node)
    requires LeavesAreLeaves(node)
    ensures multiset(Visit(node)) == multiset(Preorder(node))
    decreases Size(node), 0
  {
    VisitAllPermutation(node.children);
  }

  lemma Regroup<T>(a: multiset<T>, b: multiset<T>, ab: multiset<T>, c: multiset<T>, d: multiset<T>, e: multiset<T>)
    requires a + b == ab && d == e
    ensures (a + c) + (b + d) == ab + c + e
  {
  }

  lemma {:induction false} VisitAllPermutation(cs: seq<Node>)
    requires forall k :: 0 <= k < |cs| ==> (!IsContainer(cs[k].kind) ==> cs[k].children == []) && LeavesAreLeaves(cs[k])
    ensures multiset(cs) + multiset(VisitAll(cs)) == multiset(PreorderAll(cs))
    decreases SizeAll(cs), 1
  {
    if cs != [] {
      var init, c := cs[..|cs| - 1], cs[|cs| - 1];
      assert forall k :: 0 <= k < |init| ==> init[k] == cs[k];
      VisitAllPermutation(init);
      assert cs == init + [c];
      var below := if IsContainer(c.kind) then Visit(c) else [];
      if IsContainer(c.kind) {
        VisitIsPermutationOfPreorder(c);
      } else {
        assert Preorder(c) == PreorderAll([]) == [];
      }
      assert multiset(below) == multiset(Preorder(c));
      assert VisitAll(cs) == VisitAll(init) + below;
      assert PreorderAll(cs) == PreorderAll(init) + [c] + Preorder(c);
      assert multiset(cs) == multiset(init) + multiset{c};
      assert multiset(VisitAll(cs)) == multiset(VisitAll(init)) + multiset(below);
      assert multiset(PreorderAll(cs)) == multiset(PreorderAll(init)) + multiset{c} + multiset(Preorder(c));
      Regroup(multiset(init), multiset(VisitAll(init)), multiset(PreorderAll(init)), multiset{c},
              multiset(below), multiset(Preorder(c)));
    }
  }

  /**
   * When only containers list anything, `getTree` returns one row per asset
   * of the store: the root row, then each asset below it as often as the
   * pre-order enumeration names it.
   */
  lemma TreeCoversStore(store: Node, fromRoot: string, toRoot: string)
    requires LeavesAreLeaves(store)
    ensures |Tree(store, fromRoot, toRoot)| == Size(store)
    ensures RowsOf(Tree(store, fromRoot, toRoot)[1..], Visit(store))
    ensures multiset(Visit(store)) == multiset(Preorder(store))
  {
    LevelRows(store, fromRoot, toRoot);
    VisitIsPermutationOfPreorder(store);
    PreorderSize(store);
    assert |multiset(Visit(store))| == |Visit(store)|;
    assert Tree(store, fromRoot, toRoot)[1..] == Level(store, fromRoot, toRoot);
  }

  /** No '/' and no newline: one component of an asset name. */
  predicate IsSegment(s: string) {
    |s| > 0 && forall i :: 0 <= i < |s| ==> s[i] != '/' && s[i] != '\n'
  }

  /** `child` is `parent`, a '/', and one segment. */
  predicate IsChildPath(parent: string, child: string) {
    |child| > |parent| + 1 && child[..|parent| + 1] == parent + "/" && IsSegment(child[|parent| + 1..])
  }

  /** Every asset is named by its container's name, a '/', and one segment. */
  ghost predicate Hierarchical(n: Node) {
    forall k :: 0 <= k < |n.children| ==> IsChildPath(n.name, n.children[k].name) && Hierarchical(n.children[k])
  }

  /** An absolute asset name without newline or trailing '/'. */
  predicate CanonicalName(name: string) {
    MatchesAssetPattern(name) && NoNewline(name) && |name| > 0 && name[|name| - 1] != '/'
  }

  /** A canonical name extended by one segment is canonical again. */
  lemma ChildCanonical(parent: string, child: string)
    requires CanonicalName(parent) && IsChildPath(parent, child)
    ensures CanonicalName(child)
  {
    var seg := child[|parent| + 1..];
    assert child == parent + ("/" + seg);
    MatchesExtended(parent, "/" + seg);
    assert child[|child| - 1] == seg[|seg| - 1];
  }

  /** The row of a listed asset names the old parent's destination followed by the asset's segment. */
  lemma ChildDestination(parent: string, child: string, t: string)
    requires IsChildPath(parent, child)
    ensures ReplaceAll(child, parent + "/", t) == t + child[|parent| + 1..]
  {
    var seg := child[|parent| + 1..];
    assert child == (parent + "/") + seg;
    assert (parent + "/")[|parent|] == '/';
    NoOccurrenceWithoutChar(seg, parent + "/", '/');
    ReplaceAllLeading(seg, parent + "/", t);
  }

  /** A row's destination: `t` followed by what comes after `parent/` in its source ID. */
  predicate MappedUnder(e: Entry, parent: string, t: string) {
    StartsWith(e.fromId, parent + "/") && e.toId == t + e.fromId[|parent| + 1..]
  }

  lemma {:induction false} ChildEntriesMapped(cs: seq<Node>, parent: string, t: string)
    requires forall k :: 0 <= k < |cs| ==> IsChildPath(parent, cs[k].name)
    ensures forall k :: 0 <= k < |ChildEntries(cs, parent + "/", t)| ==>
              MappedUnder(ChildEntries(cs, parent + "/", t)[k], parent, t)
  {
    if cs != [] {
      var init, c := cs[..|cs| - 1], cs[|cs| - 1];
      ChildEntriesMapped(init, parent, t);
      ChildDestination(parent, c.name, t);
      assert StartsWith(c.name, parent + "/");
    }
  }

  /**
   * In a hierarchical store every destination ID is the fixed destination
   * root, a '/', and the rest of the source ID after the source root: the
   * replacement of all occurrences acts as a prefix substitution.
   */
  lemma {:induction false} LevelDestinations(node: Node, fromRoot: string, toRoot: string)
    requires CanonicalName(node.name) && Hierarchical(node)
    requires Fix(fromRoot) == node.name
    requires NoNewline(toRoot)
    ensures forall k :: 0 <= k < |Level(node, fromRoot, toRoot)| ==>
              MappedUnder(Level(node, fromRoot, toRoot)[k], node.name, CheckEnd(Fix(toRoot), "/"))
    decreases Size(node), 0
  {
    FixNonEmpty(fromRoot);
    FixNonEmpty(toRoot);
    var f := WithSlash(Fix(fromRoot));
    var t := WithSlash(Fix(toRoot));
    assert f == node.name + "/";
    FixAssetPathNoNewline(toRoot);
    if t != Fix(toRoot) {
      MatchesExtended(Fix(toRoot), "/");
    }
    assert t == CheckEnd(Fix(toRoot), "/");
    var cs := node.children;
    ListingMapped(cs, node.name, t);
    assert Level(node, fromRoot, toRoot) == ChildEntries(cs, f, t) + Descend(cs, f, t);
  }

  /** The rows of one call: its listing, then its descents, all mapped below `parent`. */
  lemma {:induction false} ListingMapped(cs: seq<Node>, parent: string, t: string)
    requires CanonicalName(parent)
    requires forall k :: 0 <= k < |cs| ==> IsChildPath(parent, cs[k].name) && Hierarchical(cs[k])
    requires MatchesAssetPattern(t) && NoNewline(t) && EndsWith(t, "/")
    ensures forall k :: 0 <= k < |ChildEntries(cs, parent + "/", t) + Descend(cs, parent + "/", t)| ==>
              MappedUnder((ChildEntries(cs, parent + "/", t) + Descend(cs, parent + "/", t))[k], parent, t)
    decreases SizeAll(cs), 2
  {
    ChildEntriesMapped(cs, parent, t);
    DescendMapped(cs, parent, t);
    MappedConcat(ChildEntries(cs, parent + "/", t), Descend(cs, parent + "/", t), parent, t);
  }

  /** The destination a listed container is walked with: canonical, below `t`, without newline. */
  lemma ContainerDestination(parent: string, name: string, t: string)
    requires CanonicalName(parent) && IsChildPath(parent, name)
    requires MatchesAssetPattern(t) && NoNewline(t) && EndsWith(t, "/")
    ensures ReplaceAll(name, parent + "/", t) == t + name[|parent| + 1..]
    ensures CanonicalName(name) && Fix(name) == name
    ensures NoNewline(ReplaceAll(name, parent + "/", t))
    ensures CheckEnd(Fix(ReplaceAll(name, parent + "/", t)), "/") == ReplaceAll(name, parent + "/", t) + "/"
  {
    var seg := name[|parent| + 1..];
    var toc := t + seg;
    ChildDestination(parent, name, t);
    ChildCanonical(parent, name);
    MatchesExtended(t, seg);
    forall i | 0 <= i < |toc|
      ensures toc[i] != '\n'
    {
      if i >= |t| {
        assert toc[i] == seg[i - |t|];
      }
    }
    assert toc[|toc| - 1] == seg[|seg| - 1];
  }

  /** A row mapped below a listed container is mapped below its parent. */
  lemma NestedMapped(e: Entry, parent: string, name: string, t: string)
    requires IsChildPath(parent, name)
    requires MappedUnder(e, name, t + name[|parent| + 1..] + "/")
    ensures MappedUnder(e, parent, t)
  {
    var seg := name[|parent| + 1..];
    var rest := e.fromId[|name| + 1..];
    assert e.fromId == name + "/" + rest by {
      assert e.fromId[..|name| + 1] == name + "/";
    }
    assert name == parent + "/" + seg by {
      assert name[..|parent| + 1] == parent + "/";
    }
    assert e.fromId == (parent + "/") + (seg + "/" + rest);
    assert e.fromId[|parent| + 1..] == seg + "/" + rest;
  }

  lemma MappedConcat(a: seq<Entry>, b: seq<Entry>, parent: string, t: string)
    requires forall k :: 0 <= k < |a| ==> MappedUnder(a[k], parent, t)
    requires forall k :: 0 <= k < |b| ==> MappedUnder(b[k], parent, t)
    ensures forall k :: 0 <= k < |a + b| ==> MappedUnder((a + b)[k], parent, t)
  {
    forall k | 0 <= k < |a + b|
      ensures MappedUnder((a + b)[k], parent, t)
    {
      if k >= |a| {
        assert (a + b)[k] == b[k - |a|];
      }
    }
  }

  lemma {:induction false} DescendMapped(cs: seq<Node>, parent: string, t: string)
    requires CanonicalName(parent)
    requires forall k :: 0 <= k < |cs| ==> IsChildPath(parent, cs[k].name) && Hierarchical(cs[k])
    requires MatchesAssetPattern(t) && NoNewline(t) && EndsWith(t, "/")
    ensures forall k :: 0 <= k < |Descend(cs, parent + "/", t)| ==>
              MappedUnder(Descend(cs, parent + "/", t)[k], parent, t)
    decreases SizeAll(cs), 1
  {
    if cs != [] {
      var f := parent + "/";
      var init, c := cs[..|cs| - 1], cs[|cs| - 1];
      DescendMapped(init, parent, t);
      if IsContainer(c.kind) {
        var toc := ReplaceAll(c.name, f, t);
        ContainerDestination(parent, c.name, t);
        LevelDestinations(c, c.name, toc);
        var b := Level(c, c.name, toc);
        forall k | 0 <= k < |b|
          ensures MappedUnder(b[k], parent, t)
        {
          NestedMapped(b[k], parent, c.name, t);
        }
        MappedConcat(Descend(init, f, t), b, parent, t);
      }
    }
  }

  lemma MappedBehindRoot(root: Entry, level: seq<Entry>, parent: string, t: string)
    requires forall k :: 0 <= k < |level| ==> MappedUnder(level[k], parent, t)
    ensures forall k :: 1 <= k < |[root] + level| ==> MappedUnder(([root] + level)[k], parent, t)
  {
    forall k | 1 <= k < |[root] + level|
      ensures MappedUnder(([root] + level)[k], parent, t)
    {
      assert ([root] + level)[k] == level[k - 1];
    }
  }

  /**
   * `getTree(fromRoot, toRoot)` on a hierarchical store: the root row maps
   * the fixed roots, every other row lies below the source root and its
   * destination is the rest of its source ID placed below the destination
   * root.
   */
  lemma TreeDestinations(store: Node, fromRoot: string, toRoot: string)
    requires CanonicalName(store.name) && Hierarchical(store)
    requires Fix(fromRoot) == store.name
    requires NoNewline(toRoot)
    ensures Tree(store, fromRoot, toRoot)[0] == Entry(store.kind, store.name, Fix(toRoot))
    ensures forall k :: 1 <= k < |Tree(store, fromRoot, toRoot)| ==>
              MappedUnder(Tree(store, fromRoot, toRoot)[k], store.name, CheckEnd(Fix(toRoot), "/"))
  {
    LevelDestinations(store, fromRoot, toRoot);
    MappedBehindRoot(RootEntry(store, fromRoot, toRoot), Level(store, fromRoot, toRoot), store.name, CheckEnd(Fix(toRoot), "/"));
  }
}
