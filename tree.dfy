/**
 * The recursive walk `getTree` over the remote asset store.  The store is a
 * finite tree of assets; listing the assets under a parent path
 * (`ee.data.listAssets`) yields the children of the node the walk stands on,
 * in listing order, and `ee.data.getAsset(root)['type']` is the root's kind.
 */
module AssetTree {
  import opened Strings
  import opened AssetPaths

  /** An asset of the remote store: its full name, its type and its listing. */
  datatype Node = Node(name: string, kind: string, children: seq<Node>)

  /** One row `[type, fromID, toID]` of the walk's output. */
  datatype Entry = Entry(kind: string, fromId: string, toId: string)

  /** A pending descent `[fromID, toID]` of `nextLevels`, with the node listed at `fromID`. */
  datatype Pending = Pending(node: Node, fromId: string, toId: string)

  /** The types the walk descends into. */
  predicate IsContainer(kind: string) {
    kind == "FOLDER" || kind == "IMAGE_COLLECTION"
  }

  /** Number of assets in a subtree, its root included. */
  function Size(n: Node): (size: nat)
    ensures size >= 1
  {
    1 + SizeAll(n.children)
  }

  function SizeAll(cs: seq<Node>): nat {
    if cs == [] then 0 else SizeAll(cs[..|cs| - 1]) + Size(cs[|cs| - 1])
  }

  lemma {:induction false} ChildSmaller(cs: seq<Node>, k: nat)
    requires k < |cs|
    ensures Size(cs[k]) <= SizeAll(cs)
  {
    if k < |cs| - 1 {
      ChildSmaller(cs[..|cs| - 1], k);
    }
  }

  /** The fixing of a path by the walk, with the default legacy prefix. */
  function Fix(path: string): string {
    FixAssetPath(path, LegacyPrefix)
  }

  /** `if(p[-1] != '/'): p += '/'` on a non-empty path (lines 130-131). */
  function WithSlash(p: string): (r: string)
    requires |p| > 0
    ensures EndsWith(r, "/")
    ensures r == CheckEnd(p, "/")
  {
    if p[|p| - 1] != '/' then p + "/" else p
  }

  lemma FixNonEmpty(path: string)
    ensures |Fix(path)| > 0
  {
    if MatchesAssetPattern(path) {
      assert StartsWith(path, ProjectsPrefix);
    }
  }

  /** The row of one listed asset: its destination replaces every `f` by `t`. */
  function ChildEntry(c: Node, f: string, t: string): Entry
    requires |f| > 0
  {
    Entry(c.kind, c.name, ReplaceAll(c.name, f, t))
  }

  /** The rows the listing loop appends, in listing order. */
  function ChildEntries(cs: seq<Node>, f: string, t: string): seq<Entry>
    requires |f| > 0
  {
    if cs == [] then [] else ChildEntries(cs[..|cs| - 1], f, t) + [ChildEntry(cs[|cs| - 1], f, t)]
  }

  /** The `nextLevels` the listing loop collects: its container assets, in listing order. */
  function PendingOf(cs: seq<Node>, f: string, t: string): seq<Pending>
    requires |f| > 0
  {
    if cs == [] then []
    else
      var c := cs[|cs| - 1];
      PendingOf(cs[..|cs| - 1], f, t)
      + (if IsContainer(c.kind) then [Pending(c, c.name, ReplaceAll(c.name, f, t))] else [])
  }

  lemma ListingStep(cs: seq<Node>, i: nat, f: string, t: string)
    requires i < |cs| && |f| > 0
    ensures ChildEntries(cs[..i + 1], f, t) == ChildEntries(cs[..i], f, t) + [ChildEntry(cs[i], f, t)]
    ensures PendingOf(cs[..i + 1], f, t)
            == PendingOf(cs[..i], f, t)
               + (if IsContainer(cs[i].kind) then [Pending(cs[i], cs[i].name, ReplaceAll(cs[i].name, f, t))] else [])
  {
    assert cs[..i + 1][..i] == cs[..i];
  }

  lemma Assoc<T>(a: seq<T>, b: seq<T>, c: seq<T>)
    ensures a + b + c == a + (b + c)
  {
  }

  lemma ExpandStep(ps: seq<Pending>, j: nat)
    requires j < |ps|
    ensures Expand(ps[..j + 1]) == Expand(ps[..j]) + Level(ps[j].node, ps[j].fromId, ps[j].toId)
  {
    assert ps[..j + 1][..j] == ps[..j];
  }

  /**
   * What a call `getTree(fromRoot, toRoot, treeList)` appends to a given
   * `treeList`: the rows of the listing of `node`, then, for each container
   * among them, what the recursive call on it appends.
   */
  function Level(node: Node, fromRoot: string, toRoot: string): seq<Entry>
    decreases Size(node), 0
  {
    FixNonEmpty(fromRoot);
    FixNonEmpty(toRoot);
    var f := WithSlash(Fix(fromRoot));
    var t := WithSlash(Fix(toRoot));
    ChildEntries(node.children, f, t) + Descend(node.children, f, t)
  }

  /** The recursive calls on the containers of a listing, in listing order. */
  function Descend(cs: seq<Node>, f: string, t: string): seq<Entry>
    requires |f| > 0
    decreases SizeAll(cs), 1
  {
    if cs == [] then []
    else
      var c := cs[|cs| - 1];
      Descend(cs[..|cs| - 1], f, t)
      + (if IsContainer(c.kind) then Level(c, c.name, ReplaceAll(c.name, f, t)) else [])
  }

  /** What the loop over `nextLevels` appends. */
  function Expand(ps: seq<Pending>): seq<Entry> {
    if ps == [] then []
    else
      var p := ps[|ps| - 1];
      Expand(ps[..|ps| - 1]) + Level(p.node, p.fromId, p.toId)
  }

  lemma {:induction false} DescendIsExpand(cs: seq<Node>, f: string, t: string)
    requires |f| > 0
    ensures Descend(cs, f, t) == Expand(PendingOf(cs, f, t))
  {
    if cs != [] {
      var init, c := cs[..|cs| - 1], cs[|cs| - 1];
      DescendIsExpand(init, f, t);
      var ps := PendingOf(init, f, t);
      if IsContainer(c.kind) {
        var p := Pending(c, c.name, ReplaceAll(c.name, f, t));
        var sub := Level(c, c.name, ReplaceAll(c.name, f, t));
        assert Descend(cs, f, t) == Descend(init, f, t) + sub;
        assert PendingOf(cs, f, t) == ps + [p];
        assert (ps + [p])[..|ps + [p]| - 1] == ps;
        assert Expand(ps + [p]) == Expand(ps) + sub;
      } else {
        assert Descend(cs, f, t) == Descend(init, f, t);
        assert PendingOf(cs, f, t) == ps;
      }
    }
  }

  /** The first row of the top-level call: the root's type and both fixed roots. */
  function RootEntry(store: Node, fromRoot: string, toRoot: string): Entry {
    Entry(store.kind, Fix(fromRoot), Fix(toRoot))
  }

  /** The list `getTree(fromRoot, toRoot)` returns on the top-level call. */
  function Tree(store: Node, fromRoot: string, toRoot: string): seq<Entry> {
    [RootEntry(store, fromRoot, toRoot)] + Level(store, fromRoot, toRoot)
  }

  /** The shared, mutable `treeList` of the walk. */
  class TreeList {
    var entries: seq<Entry>

    constructor (entries: seq<Entry>)
      ensures this.entries == entries
    {
      this.entries := entries;
    }

    /** `treeList.reverse()`. */
    method Reverse()
      modifies this
      ensures entries == Reversed(old(entries))
    {
      entries := Reversed(entries);
    }
  }

  function Reversed<T>(s: seq<T>): seq<T> {
    if s == [] then [] else [s[|s| - 1]] + Reversed(s[..|s| - 1])
  }

  lemma {:induction false} ReversedAt<T>(s: seq<T>, k: nat)
    requires k < |s|
    ensures |Reversed(s)| == |s| && Reversed(s)[k] == s[|s| - 1 - k]
  {
    ReversedLength(s);
    if k > 0 {
      ReversedAt(s[..|s| - 1], k - 1);
    }
  }

  lemma {:induction false} ReversedLength<T>(s: seq<T>)
    ensures |Reversed(s)| == |s|
  {
    if s != [] {
      ReversedLength(s[..|s| - 1]);
    }
  }

  /**
   * `getTree(fromRoot, toRoot, treeList)`.  On the top-level call
   * (`treeList` is None) the root must exist: its type is looked up with no
   * fallback.  The call appends `Level(store, fromRoot, toRoot)` to the list
   * it was given, or to a new list holding the root row.
   */
  method GetTree(store: Node, fromRoot: string, toRoot: string, treeList: TreeList?) returns (result: TreeList)
    requires treeList == null ==> store.name == Fix(fromRoot)
    modifies treeList
    ensures treeList != null ==> result == treeList
    ensures treeList == null ==> fresh(result)
    ensures result.entries
            == (if treeList == null then [RootEntry(store, fromRoot, toRoot)] else old(treeList.entries))
               + Level(store, fromRoot, toRoot)
    decreases Size(store), 2
  {
    var from := Fix(fromRoot);
    var to := Fix(toRoot);
    FixNonEmpty(fromRoot);
    FixNonEmpty(toRoot);
    if treeList == null {
      var rootType := store.kind;
      result := new TreeList([Entry(rootType, from, to)]);
    } else {
      result := treeList;
    }
    from := WithSlash(from);
    to := WithSlash(to);

    var assets := store.children;
    ghost var start := result.entries;
    var nextLevels := AppendListing(assets, from, to, result);
    WalkPending(store, nextLevels, result);
    DescendIsExpand(assets, from, to);
    assert Level(store, fromRoot, toRoot) == ChildEntries(assets, from, to) + Descend(assets, from, to);
    Assoc(start, ChildEntries(assets, from, to), Descend(assets, from, to));
  }

  /** The loop over the listing: append each asset's row, collect the containers. */
  method AppendListing(assets: seq<Node>, from: string, to: string, treeList: TreeList) returns (nextLevels: seq<Pending>)
    requires |from| > 0
    modifies treeList
    ensures treeList.entries == old(treeList.entries) + ChildEntries(assets, from, to)
    ensures nextLevels == PendingOf(assets, from, to)
    ensures forall k :: 0 <= k < |nextLevels| ==> nextLevels[k].node in assets
  {
    nextLevels := [];
    ghost var start := treeList.entries;
    for i := 0 to |assets|
      invariant treeList.entries == start + ChildEntries(assets[..i], from, to)
      invariant nextLevels == PendingOf(assets[..i], from, to)
      invariant forall k :: 0 <= k < |nextLevels| ==> nextLevels[k].node in assets
    {
      var asset := assets[i];
      var fromId := asset.name;
      var fromType := asset.kind;
      var toId := ReplaceAll(fromId, from, to);
      ListingStep(assets, i, from, to);
      if IsContainer(fromType) {
        nextLevels := nextLevels + [Pending(asset, fromId, toId)];
      }
      treeList.entries := treeList.entries + [Entry(fromType, fromId, toId)];
    }
    assert assets[..|assets|] == assets;
  }

  lemma ListedSmaller(parent: Node, n: Node)
    requires n in parent.children
    ensures Size(n) < Size(parent)
  {
    var k :| 0 <= k < |parent.children| && parent.children[k] == n;
    ChildSmaller(parent.children, k);
  }

  lemma PendingStep(start: seq<Entry>, ps: seq<Pending>, j: nat)
    requires j < |ps|
    ensures start + Expand(ps[..j + 1]) == start + Expand(ps[..j]) + Level(ps[j].node, ps[j].fromId, ps[j].toId)
  {
    ExpandStep(ps, j);
    Assoc(start, Expand(ps[..j]), Level(ps[j].node, ps[j].fromId, ps[j].toId));
  }

  /** The loop over `nextLevels`: walk each container in turn into the same list. */
  method WalkPending(parent: Node, nextLevels: seq<Pending>, treeList: TreeList)
    requires forall k :: 0 <= k < |nextLevels| ==> nextLevels[k].node in parent.children
    modifies treeList
    ensures treeList.entries == old(treeList.entries) + Expand(nextLevels)
    decreases Size(parent), 1
  {
    ghost var start := treeList.entries;
    for j := 0 to |nextLevels|
      invariant treeList.entries == start + Expand(nextLevels[..j])
    {
      var next := nextLevels[j];
      ListedSmaller(parent, next.node);
      PendingStep(start, nextLevels, j);
      var _ := GetTree(next.node, next.fromId, next.toId, treeList);
    }
    assert nextLevels[..|nextLevels|] == nextLevels;
  }
}
