/**
 * A worked example: a folder listing a folder `sub` and then an image
 * `img1`, copied from one relative root (such as `users/a/demo`) to another
 * (such as `users/b/demo2`).
 */
module Scenario {
  import opened Strings
  import opened AssetPaths
  import opened AssetTree
  import opened WalkProperties
  import opened Remote
  import opened Migrator

  /** The source folder, named `from`, with its two assets. */
  function DemoStore(from: string): Node {
    Node(from, "FOLDER", [Node(from + "/" + "sub", "FOLDER", []), Node(from + "/" + "img1", "IMAGE", [])])
  }

  /** A relative root without trailing '/': the fix prefixes it and the walk appends one '/'. */
  predicate RelativeRoot(root: string) {
    |root| > 0 && root[|root| - 1] != '/' && !MatchesAssetPattern(root)
  }

  lemma RelativeRootFixed(root: string)
    requires RelativeRoot(root)
    ensures Fix(root) == LegacyPrefix + root
    ensures WithSlash(Fix(root)) == LegacyPrefix + root + "/"
  {
    assert (LegacyPrefix + root)[|LegacyPrefix + root| - 1] == root[|root| - 1];
  }

  /** An asset `from/seg` listed under `from` is placed at `t` followed by `seg`. */
  lemma DemoChild(from: string, seg: string, t: string)
    requires IsSegment(seg)
    ensures ReplaceAll(from + "/" + seg, from + "/", t) == t + seg
  {
    var child := from + "/" + seg;
    assert child[..|from| + 1] == from + "/";
    assert child[|from| + 1..] == seg;
    ChildDestination(from, child, t);
  }

  /** The listing loop: `sub` and `img1`, each placed below `t`. */
  lemma DemoListing(from: string, t: string)
    ensures ChildEntries(DemoStore(from).children, from + "/", t)
            == [Entry("FOLDER", from + "/" + "sub", t + "sub"), Entry("IMAGE", from + "/" + "img1", t + "img1")]
  {
    var cs := DemoStore(from).children;
    DemoChild(from, "sub", t);
    DemoChild(from, "img1", t);
    assert cs[..1] == [cs[0]];
    assert ChildEntries(cs[..1], from + "/", t) == [ChildEntry(cs[0], from + "/", t)];
  }

  /** A call on an asset with an empty listing appends nothing. */
  lemma EmptyListingLevel(n: Node, fromRoot: string, toRoot: string)
    requires n.children == []
    ensures Level(n, fromRoot, toRoot) == []
  {
  }

  /** Descending past an asset that is not a container appends nothing. */
  lemma DescendSkipsOther(cs: seq<Node>, c: Node, f: string, t: string)
    requires |f| > 0 && !IsContainer(c.kind)
    ensures Descend(cs + [c], f, t) == Descend(cs, f, t)
  {
    assert (cs + [c])[..|cs|] == cs;
  }

  /** Descending into one asset with an empty listing appends nothing. */
  lemma DescendEmptyListing(a: Node, f: string, t: string)
    requires |f| > 0 && a.children == []
    ensures Descend([a], f, t) == []
  {
    assert [a][..0] == [];
    EmptyListingLevel(a, a.name, ReplaceAll(a.name, f, t));
    assert Descend([a], f, t)
           == Descend([], f, t) + (if IsContainer(a.kind) then Level(a, a.name, ReplaceAll(a.name, f, t)) else []);
  }

  /** The descent: `sub` lists nothing and `img1` is not descended into. */
  lemma DemoDescent(from: string, t: string)
    ensures Descend(DemoStore(from).children, from + "/", t) == []
  {
    var cs := DemoStore(from).children;
    DescendEmptyListing(cs[0], from + "/", t);
    DescendSkipsOther([cs[0]], cs[1], from + "/", t);
    assert cs == [cs[0]] + [cs[1]];
  }

  /** The walk lists `sub` and `img1` below the destination root and finds nothing inside `sub`. */
  lemma DemoLevel(a: string, b: string)
    requires RelativeRoot(a) && RelativeRoot(b)
    ensures var from, to := LegacyPrefix + a, LegacyPrefix + b;
            Level(DemoStore(from), a, b)
            == [ Entry("FOLDER", from + "/" + "sub", to + "/" + "sub"),
                 Entry("IMAGE", from + "/" + "img1", to + "/" + "img1") ]
  {
    var from, to := LegacyPrefix + a, LegacyPrefix + b;
    RelativeRootFixed(a);
    RelativeRootFixed(b);
    DemoListing(from, to + "/");
    DemoDescent(from, to + "/");
  }

  /**
   * Copying the folder creates the destination root, then the folder `sub`
   * below it, then copies the image below it, without overwrite.
   */
  lemma DemoCopy(a: string, b: string)
    requires RelativeRoot(a) && RelativeRoot(b)
    ensures var from, to := LegacyPrefix + a, LegacyPrefix + b;
            CopyPlan(Tree(DemoStore(from), a, b))
            == [ CreateAsset("Image_Collection", to),
                 CreateAsset("Image_Collection", to + "/" + "sub"),
                 CopyAsset(from + "/" + "img1", to + "/" + "img1", false) ]
  {
    var from, to := LegacyPrefix + a, LegacyPrefix + b;
    RelativeRootFixed(a);
    RelativeRootFixed(b);
    DemoLevel(a, b);
    var rows := Tree(DemoStore(from), a, b);
    assert rows == [Entry("FOLDER", from, to)] + Level(DemoStore(from), a, b);
    CopyPlanAt(rows);
  }

  /** The roots of the example are relative. */
  lemma DemoRootsRelative()
    ensures RelativeRoot("users/a/demo") && RelativeRoot("users/b/demo2")
  {
    assert "users/a/demo"[..9][0] != ProjectsPrefix[0];
    assert "users/b/demo2"[..9][0] != ProjectsPrefix[0];
  }
}
