/**
 * The tree operations of the migrator: `batchChangePermissions`,
 * `copyAssetTree` and `deleteAssetTree`.  Each walks the rows of `getTree`
 * and makes one remote call per row; a call that raises is caught, so the
 * rest of the rows are still processed.
 */
module Migrator {
  import opened Strings
  import opened AssetPaths
  import opened AssetTree
  import opened WalkProperties
  import opened Remote

  datatype Option<T> = None | Some(value: T)

  /** `[i[1] for i in treeList]`: the source IDs of the rows. */
  function SourceIds(rows: seq<Entry>): seq<string> {
    seq(|rows|, k requires 0 <= k < |rows| => rows[k].fromId)
  }

  /**
   * The IDs `batchChangePermissions` sets an ACL on: the given asset list, or
   * else `[i[1] for i in getTree(root, root)]`.
   */
  function PermissionTargets(store: Node, assetList: Option<seq<string>>, root: Option<string>): seq<string>
    requires assetList.None? ==> root.Some?
  {
    if assetList.Some? then assetList.value else SourceIds(Tree(store, root.value, root.value))
  }

  /** `[i[2] for i in treeList]`: the destination IDs of the rows. */
  function DestinationIds(rows: seq<Entry>): seq<string> {
    seq(|rows|, k requires 0 <= k < |rows| => rows[k].toId)
  }

  // ---------------------------------------------------------------- permissions

  /** The calls of the permission loop: one ACL setting per asset ID, in list order. */
  function AclPlan(ids: seq<string>, acl: Acl): seq<Action> {
    if ids == [] then [] else AclPlan(ids[..|ids| - 1], acl) + [SetAssetAcl(ids[|ids| - 1], acl)]
  }

  lemma {:induction false} AclPlanAt(ids: seq<string>, acl: Acl)
    ensures |AclPlan(ids, acl)| == |ids|
    ensures forall k :: 0 <= k < |ids| ==> AclPlan(ids, acl)[k] == SetAssetAcl(ids[k], acl)
  {
    if ids != [] {
      AclPlanAt(ids[..|ids| - 1], acl);
    }
  }

  /**
   * `batchChangePermissions(assetList, root, readers, writers, all_users_can_read)`.
   * Without an asset list the IDs are the source IDs of `getTree(root, root)`,
   * whose root must then exist.
   */
  method BatchChangePermissions(ee: Service, store: Node, assetList: Option<seq<string>>, root: Option<string>,
                                readers: seq<string>, writers: seq<string>, allUsersCanRead: bool)
    requires assetList.None? ==> root.Some? && store.name == Fix(root.value)
    modifies ee
    ensures ee.log
            == old(ee.log)
               + Outcomes(ee.outcome, |old(ee.log)|,
                          AclPlan(PermissionTargets(store, assetList, root), Acl(readers, writers, allUsersCanRead)))
  {
    var ids: seq<string>;
    if assetList.None? {
      var treeList := GetTree(store, root.value, root.value, null);
      ids := SourceIds(treeList.entries);
    } else {
      ids := assetList.value;
    }
    assert ids == PermissionTargets(store, assetList, root);
    SetAcls(ee, ids, Acl(readers, writers, allUsersCanRead));
  }

  /** The loop of `batchChangePermissions`: one `setAssetAcl` per ID, in order. */
  method SetAcls(ee: Service, ids: seq<string>, acl: Acl)
    modifies ee
    ensures ee.log == old(ee.log) + Outcomes(ee.outcome, |old(ee.log)|, AclPlan(ids, acl))
  {
    ghost var start := ee.log;
    ghost var plan := AclPlan(ids, acl);
    AclPlanAt(ids, acl);
    for i := 0 to |ids|
      invariant ee.log == start + Outcomes(ee.outcome, |start|, plan[..i])
    {
      var assetId := ids[i];
      assert plan[i] == SetAssetAcl(assetId, acl);
      LogStep(ee.outcome, start, plan, i);
      var _ := ee.Perform(SetAssetAcl(assetId, acl));
    }
    assert plan[..|ids|] == plan;
  }

  // ----------------------------------------------------------------------- copy

  /** The call `copyAssetTree` makes for one row: create a container, copy anything else. */
  function CopyAction(e: Entry): Action {
    if IsContainer(e.kind) then CreateAsset("Image_Collection", e.toId) else CopyAsset(e.fromId, e.toId, false)
  }

  /** The calls of the copy loop, one per row, in row order. */
  function CopyPlan(rows: seq<Entry>): seq<Action> {
    if rows == [] then [] else CopyPlan(rows[..|rows| - 1]) + [CopyAction(rows[|rows| - 1])]
  }

  lemma {:induction false} CopyPlanAt(rows: seq<Entry>)
    ensures |CopyPlan(rows)| == |rows|
    ensures forall k :: 0 <= k < |rows| ==> CopyPlan(rows)[k] == CopyAction(rows[k])
  {
    if rows != [] {
      CopyPlanAt(rows[..|rows| - 1]);
    }
  }

  /** The copy loop over the rows. */
  method CopyRows(ee: Service, rows: seq<Entry>)
    modifies ee
    ensures ee.log == old(ee.log) + Outcomes(ee.outcome, |old(ee.log)|, CopyPlan(rows))
  {
    ghost var start := ee.log;
    ghost var plan := CopyPlan(rows);
    CopyPlanAt(rows);
    for i := 0 to |rows|
      invariant ee.log == start + Outcomes(ee.outcome, |start|, plan[..i])
    {
      var fromType, fromId, toId := rows[i].kind, rows[i].fromId, rows[i].toId;
      LogStep(ee.outcome, start, plan, i);
      if IsContainer(fromType) {
        var _ := ee.Perform(CreateAsset("Image_Collection", toId));
      } else {
        var _ := ee.Perform(CopyAsset(fromId, toId, false));
      }
    }
    assert plan[..|rows|] == plan;
  }

  /** The ACL calls `copyAssetTree` should make: the requested ACL on every destination. */
  function PermissionPlan(rows: seq<Entry>, readers: seq<string>, writers: seq<string>, allUsersCanRead: bool): seq<Action> {
    AclPlan(DestinationIds(rows), Acl(readers, writers, allUsersCanRead))
  }

  /** The ACL calls `copyAssetTree` makes as written: its own ACL arguments are not passed on. */
  function PermissionPlanAsWritten(rows: seq<Entry>, readers: seq<string>, writers: seq<string>, allUsersCanRead: bool): seq<Action> {
    AclPlan(DestinationIds(rows), Acl([], [], false))
  }

  /** Corrected: every destination receives the ACL the caller asked for, in row order. */
  lemma PermissionPlanApplies(rows: seq<Entry>, readers: seq<string>, writers: seq<string>, allUsersCanRead: bool)
    ensures |PermissionPlan(rows, readers, writers, allUsersCanRead)| == |rows|
    ensures forall k :: 0 <= k < |rows| ==>
              PermissionPlan(rows, readers, writers, allUsersCanRead)[k]
              == SetAssetAcl(rows[k].toId, Acl(readers, writers, allUsersCanRead))
  {
    AclPlanAt(DestinationIds(rows), Acl(readers, writers, allUsersCanRead));
  }

  /** As written: every destination is made private, whatever ACL the caller asked for. */
  lemma PermissionPlanAsWrittenIgnoresArguments(rows: seq<Entry>, readers: seq<string>, writers: seq<string>, allUsersCanRead: bool)
    ensures |PermissionPlanAsWritten(rows, readers, writers, allUsersCanRead)| == |rows|
    ensures forall k :: 0 <= k < |rows| ==>
              PermissionPlanAsWritten(rows, readers, writers, allUsersCanRead)[k] == SetAssetAcl(rows[k].toId, Acl([], [], false))
  {
    AclPlanAt(DestinationIds(rows), Acl([], [], false));
  }

  /** A copy of one image with one reader requested: as written the reader is not granted. */
  lemma PermissionPlanAsWrittenCounterexample()
    ensures var rows := [Entry("IMAGE", "projects/a/assets/x", "projects/b/assets/x")];
            PermissionPlanAsWritten(rows, ["user:reader@example.com"], [], false)
            != PermissionPlan(rows, ["user:reader@example.com"], [], false)
  {
    var rows := [Entry("IMAGE", "projects/a/assets/x", "projects/b/assets/x")];
    PermissionPlanApplies(rows, ["user:reader@example.com"], [], false);
    PermissionPlanAsWrittenIgnoresArguments(rows, ["user:reader@example.com"], [], false);
  }

  /**
   * The calls `copyAssetTree` makes for its rows: the copy loop, then, when
   * permissions are to be changed, one ACL setting per destination.
   */
  function CopyCalls(outcome: nat -> bool, start: nat, rows: seq<Entry>, changePermissions: bool, acl: Acl): seq<Call> {
    Outcomes(outcome, start, CopyPlan(rows))
    + (if changePermissions then Outcomes(outcome, start + |rows|, AclPlan(DestinationIds(rows), acl)) else [])
  }

  lemma CopyCallsWith(outcome: nat -> bool, start: seq<Call>, rows: seq<Entry>, acl: Acl)
    ensures start + Outcomes(outcome, |start|, CopyPlan(rows)) + Outcomes(outcome, |start| + |rows|, AclPlan(DestinationIds(rows), acl))
            == start + CopyCalls(outcome, |start|, rows, true, acl)
  {
    Assoc(start, Outcomes(outcome, |start|, CopyPlan(rows)), Outcomes(outcome, |start| + |rows|, AclPlan(DestinationIds(rows), acl)));
  }

  lemma CopyCallsWithout(outcome: nat -> bool, start: seq<Call>, rows: seq<Entry>, acl: Acl)
    ensures start + Outcomes(outcome, |start|, CopyPlan(rows)) == start + CopyCalls(outcome, |start|, rows, false, acl)
  {
    assert Outcomes(outcome, |start|, CopyPlan(rows)) + [] == Outcomes(outcome, |start|, CopyPlan(rows));
  }

  /** The body of `copyAssetTree` after the walk: the copy loop, then the ACL step if asked for. */
  method CopyRowsThenPermissions(ee: Service, store: Node, rows: seq<Entry>, changePermissions: bool, acl: Acl)
    modifies ee
    ensures ee.log == old(ee.log) + CopyCalls(ee.outcome, |old(ee.log)|, rows, changePermissions, acl)
  {
    ghost var start := ee.log;
    CopyRows(ee, rows);
    ghost var copies := Outcomes(ee.outcome, |start|, CopyPlan(rows));
    if changePermissions {
      ghost var mid := ee.log;
      CopyPlanAt(rows);
      OutcomesAttemptEvery(ee.outcome, |start|, CopyPlan(rows));
      assert |mid| == |start| + |rows|;
      assert Acl(acl.readers, acl.writers, acl.allUsersCanRead) == acl;
      BatchChangePermissions(ee, store, Some(DestinationIds(rows)), None, acl.readers, acl.writers, acl.allUsersCanRead);
      ghost var acls := Outcomes(ee.outcome, |start| + |rows|, AclPlan(DestinationIds(rows), acl));
      assert ee.log == mid + acls;
      CopyCallsWith(ee.outcome, start, rows, acl);
    } else {
      CopyCallsWithout(ee.outcome, start, rows, acl);
    }
  }

  /**
   * `copyAssetTree(fromRoot, toRoot, changePermissions, readers, writers,
   * all_users_can_read)` with the permission step corrected to pass on the
   * requested ACL.
   */
  method CopyAssetTree(ee: Service, store: Node, fromRoot: string, toRoot: string, changePermissions: bool,
                       readers: seq<string>, writers: seq<string>, allUsersCanRead: bool)
    requires store.name == Fix(fromRoot)
    modifies ee
    ensures ee.log
            == old(ee.log)
               + CopyCalls(ee.outcome, |old(ee.log)|, Tree(store, fromRoot, toRoot), changePermissions,
                           Acl(readers, writers, allUsersCanRead))
  {
    var treeList := GetTree(store, fromRoot, toRoot, null);
    CopyRowsThenPermissions(ee, store, treeList.entries, changePermissions, Acl(readers, writers, allUsersCanRead));
  }

  /** `copyAssetTree` as written: the permission step sets empty readers and writers, not public. */
  method CopyAssetTreeAsWritten(ee: Service, store: Node, fromRoot: string, toRoot: string, changePermissions: bool,
                                readers: seq<string>, writers: seq<string>, allUsersCanRead: bool)
    requires store.name == Fix(fromRoot)
    modifies ee
    ensures ee.log
            == old(ee.log) + CopyCalls(ee.outcome, |old(ee.log)|, Tree(store, fromRoot, toRoot), changePermissions, Acl([], [], false))
  {
    var treeList := GetTree(store, fromRoot, toRoot, null);
    CopyRowsThenPermissions(ee, store, treeList.entries, changePermissions, Acl([], [], false));
  }

  /**
   * The copy calls follow the walk: one per row, the root's first; a container
   * is created and anything else copied without overwrite; and every asset
   * below the root is listed by the root or by a container created earlier.
   */
  lemma CopyFollowsTree(store: Node, fromRoot: string, toRoot: string)
    ensures var rows := Tree(store, fromRoot, toRoot);
            var plan := CopyPlan(rows);
            var v := Visit(store);
            && |plan| == |rows| == 1 + |v|
            && plan[0] == (if IsContainer(store.kind) then CreateAsset("Image_Collection", Fix(toRoot))
                           else CopyAsset(Fix(fromRoot), Fix(toRoot), false))
            && (forall j :: 0 <= j < |v| ==>
                  plan[1..][j] == (if IsContainer(v[j].kind) then CreateAsset("Image_Collection", rows[1..][j].toId)
                                   else CopyAsset(v[j].name, rows[1..][j].toId, false)))
            && forall j :: 0 <= j < |v| ==>
                 v[j] in store.children
                 || exists i :: 0 <= i < j && plan[1..][i] == CreateAsset("Image_Collection", rows[1..][i].toId)
                                && v[j] in v[i].children
  {
    var rows := Tree(store, fromRoot, toRoot);
    var plan := CopyPlan(rows);
    var v := Visit(store);
    CopyPlanAt(rows);
    TreeOrder(store, fromRoot, toRoot);
    var body, tail := plan[1..], rows[1..];
    assert |tail| == |v|;
    forall j | 0 <= j < |v|
      ensures body[j] == CopyAction(tail[j])
    {
      assert body[j] == plan[j + 1] && tail[j] == rows[j + 1];
    }
    forall j | 0 <= j < |v| && v[j] !in store.children
      ensures exists i :: 0 <= i < j && body[i] == CreateAsset("Image_Collection", tail[i].toId) && v[j] in v[i].children
    {
      var i :| 0 <= i < j && IsContainer(tail[i].kind) && v[j] in v[i].children;
      assert body[i] == CopyAction(tail[i]);
    }
  }

  // --------------------------------------------------------------------- delete

  /** Where the two confirmation prompts of `deleteAssetTree` stand. */
  datatype Prompt = FirstPrompt | SecondPrompt | Confirmed | Declined

  /** `answer.lower() == 'y'`. */
  predicate IsYes(answer: string) {
    Lower(answer) == "y"
  }

  /** One answer typed at a prompt. */
  function Answer(at: Prompt, answer: string): Prompt {
    match at
    case FirstPrompt => if IsYes(answer) then SecondPrompt else Declined
    case SecondPrompt => if IsYes(answer) then Confirmed else Declined
    case _ => at
  }

  /** The second prompt is shown exactly after a first "y" or "Y"; any other answer ends the dialogue. */
  lemma SecondPromptOnlyAfterYes(first: string)
    ensures Answer(FirstPrompt, first) == SecondPrompt <==> first == "y" || first == "Y"
    ensures Answer(FirstPrompt, first) != SecondPrompt ==> Answer(FirstPrompt, first) == Declined
  {
    LowerIsY(first);
  }

  /** The deletion is confirmed exactly when both answers are "y" or "Y". */
  lemma ConfirmedExactly(first: string, second: string)
    ensures Answer(Answer(FirstPrompt, first), second) == Confirmed
            <==> (first == "y" || first == "Y") && (second == "y" || second == "Y")
  {
    LowerIsY(first);
    LowerIsY(second);
  }

  /** The calls of the delete loop: one deletion of the source ID per row, in row order. */
  function DeletePlan(rows: seq<Entry>): seq<Action> {
    if rows == [] then [] else DeletePlan(rows[..|rows| - 1]) + [DeleteAsset(rows[|rows| - 1].fromId)]
  }

  lemma {:induction false} DeletePlanAt(rows: seq<Entry>)
    ensures |DeletePlan(rows)| == |rows|
    ensures forall k :: 0 <= k < |rows| ==> DeletePlan(rows)[k] == DeleteAsset(rows[k].fromId)
  {
    if rows != [] {
      DeletePlanAt(rows[..|rows| - 1]);
    }
  }

  /** The rows `deleteAssetTree` walks: `getTree(root, root)[1:]`, reversed. */
  function DeletionRows(store: Node, root: string): seq<Entry> {
    Reversed(Tree(store, root, root)[1..])
  }

  /** The delete loop over the rows. */
  method DeleteRows(ee: Service, rows: seq<Entry>)
    modifies ee
    ensures ee.log == old(ee.log) + Outcomes(ee.outcome, |old(ee.log)|, DeletePlan(rows))
  {
    ghost var start := ee.log;
    ghost var plan := DeletePlan(rows);
    DeletePlanAt(rows);
    for i := 0 to |rows|
      invariant ee.log == start + Outcomes(ee.outcome, |start|, plan[..i])
    {
      var id1 := rows[i].fromId;
      assert plan[i] == DeleteAsset(id1);
      LogStep(ee.outcome, start, plan, i);
      var _ := ee.Perform(DeleteAsset(id1));
    }
    assert plan[..|rows|] == plan;
  }

  /**
   * `deleteAssetTree(root)`, with the two answers typed at its prompts.  It
   * returns how many prompts were shown; the second answer is read only
   * after the first prompt was answered yes.
   */
  method DeleteAssetTree(ee: Service, store: Node, root: string, firstAnswer: string, secondAnswer: string)
    returns (prompts: nat)
    requires IsYes(firstAnswer) && IsYes(secondAnswer) ==> store.name == Fix(root)
    modifies ee
    ensures prompts == if IsYes(firstAnswer) then 2 else 1
    ensures Answer(Answer(FirstPrompt, firstAnswer), secondAnswer) == Confirmed ==>
              ee.log == old(ee.log) + Outcomes(ee.outcome, |old(ee.log)|, DeletePlan(DeletionRows(store, root)))
    ensures Answer(Answer(FirstPrompt, firstAnswer), secondAnswer) != Confirmed ==> ee.log == old(ee.log)
  {
    var stage := Answer(FirstPrompt, firstAnswer);
    prompts := 1;
    if stage == SecondPrompt {
      prompts := 2;
      stage := Answer(stage, secondAnswer);
      if stage == Confirmed {
        var full := GetTree(store, root, root, null);
        assert full.entries == Tree(store, root, root);
        var treeList := new TreeList(full.entries[1..]);
        treeList.Reverse();
        assert treeList.entries == DeletionRows(store, root);
        DeleteRows(ee, treeList.entries);
      }
    }
  }

  /** Reversing a list that names every container before its contents names it after them. */
  lemma ReversedParentsLater(v: seq<Node>, top: seq<Node>)
    requires forall j :: 0 <= j < |v| ==> v[j] in top || EarlierParent(v, j)
    ensures |Reversed(v)| == |v|
    ensures forall p :: 0 <= p < |Reversed(v)| ==>
              Reversed(v)[p] in top
              || exists q :: p < q < |Reversed(v)| && IsContainer(Reversed(v)[q].kind) && Reversed(v)[p] in Reversed(v)[q].children
  {
    var w := Reversed(v);
    var n := |v|;
    ReversedLength(v);
    forall p | 0 <= p < n && w[p] !in top
      ensures exists q :: p < q < n && IsContainer(w[q].kind) && w[p] in w[q].children
    {
      ReversedAt(v, p);
      var j := n - 1 - p;
      var i :| 0 <= i < j && IsContainer(v[i].kind) && v[j] in v[i].children;
      ReversedAt(v, n - 1 - i);
    }
  }

  /**
   * The deletions follow the walk backwards: one per asset below the root,
   * and every asset is deleted before the container that lists it.
   */
  lemma DeleteOrder(store: Node, root: string)
    ensures var del := DeletePlan(DeletionRows(store, root));
            var w := Reversed(Visit(store));
            && |del| == |w| == |Visit(store)|
            && (forall p :: 0 <= p < |del| ==> del[p] == DeleteAsset(w[p].name))
            && forall p :: 0 <= p < |w| ==>
                 w[p] in store.children
                 || exists q :: p < q < |w| && IsContainer(w[q].kind) && w[p] in w[q].children
  {
    var rows := Tree(store, root, root)[1..];
    var v := Visit(store);
    LevelRows(store, root, root);
    assert rows == Level(store, root, root);
    VisitParentsFirst(store);
    ReversedParentsLater(v, store.children);
    DeletePlanAt(Reversed(rows));
    ReversedNames(rows, v);
  }

  /** The reversal keeps the rows of the visited assets aligned with them. */
  lemma ReversedNames(rows: seq<Entry>, v: seq<Node>)
    requires RowsOf(rows, v)
    ensures |Reversed(rows)| == |Reversed(v)| == |v|
    ensures forall p :: 0 <= p < |v| ==> Reversed(rows)[p].fromId == Reversed(v)[p].name
  {
    ReversedLength(rows);
    ReversedLength(v);
    forall p | 0 <= p < |v|
      ensures Reversed(rows)[p].fromId == Reversed(v)[p].name
    {
      ReversedAt(rows, p);
      ReversedAt(v, p);
    }
  }

  lemma {:induction false} ReversedMultiset<T>(s: seq<T>)
    ensures multiset(Reversed(s)) == multiset(s)
  {
    if s != [] {
      ReversedMultiset(s[..|s| - 1]);
      assert s == s[..|s| - 1] + [s[|s| - 1]];
    }
  }

  /** When only containers list anything, every asset below the root is deleted, once. */
  lemma DeleteCoversDescendants(store: Node, root: string)
    requires LeavesAreLeaves(store)
    ensures |DeletePlan(DeletionRows(store, root))| == Size(store) - 1
    ensures multiset(Reversed(Visit(store))) == multiset(Preorder(store))
  {
    DeleteOrder(store, root);
    TreeCoversStore(store, root, root);
    ReversedMultiset(Visit(store));
  }

  /** A newline-free fixed path comes from a newline-free path. */
  lemma FixedWithoutNewline(path: string)
    requires NoNewline(Fix(path))
    ensures NoNewline(path)
  {
    if Fix(path) != path {
      forall i | 0 <= i < |path|
        ensures path[i] != '\n'
      {
        assert Fix(path)[|LegacyPrefix| + i] == path[i];
      }
    }
  }

  /** In a hierarchical store the root itself is never deleted: every deleted ID lies below it. */
  lemma DeleteSparesRoot(store: Node, root: string)
    requires CanonicalName(store.name) && Hierarchical(store)
    requires Fix(root) == store.name
    ensures forall p :: 0 <= p < |DeletionRows(store, root)| ==>
              StartsWith(DeletionRows(store, root)[p].fromId, store.name + "/")
              && DeletionRows(store, root)[p].fromId != store.name
  {
    FixedWithoutNewline(root);
    var level := Level(store, root, root);
    LevelDestinations(store, root, root);
    assert Tree(store, root, root)[1..] == level;
    ReversedBelow(level, store.name, CheckEnd(Fix(root), "/"));
  }

  lemma ReversedBelow(rows: seq<Entry>, parent: string, t: string)
    requires forall k :: 0 <= k < |rows| ==> MappedUnder(rows[k], parent, t)
    ensures forall p :: 0 <= p < |Reversed(rows)| ==>
              StartsWith(Reversed(rows)[p].fromId, parent + "/") && Reversed(rows)[p].fromId != parent
  {
    ReversedLength(rows);
    forall p | 0 <= p < |rows|
      ensures StartsWith(Reversed(rows)[p].fromId, parent + "/") && Reversed(rows)[p].fromId != parent
    {
      ReversedAt(rows, p);
      assert MappedUnder(rows[|rows| - 1 - p], parent, t);
    }
  }
}
