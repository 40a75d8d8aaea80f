/** Deleting a folder, alone or with everything below it, and whole runs of folder operations. */
module FolderDeletes {
  import opened Common
  import opened Folders
  import opened FolderUpdates

  /** The columns of `geometry.features` that folders touch. */
  datatype FeatureRow = FeatureRow(folderId: Option<Id>, isDeleted: bool)

  type FeatureTable = map<string, FeatureRow>

  /** `pinned` holds the folders that an import or export job row references (ON DELETE RESTRICT). */
  datatype Store = Store(folders: Table, features: FeatureTable, pinned: set<Id>)

  function FeatureIdsIn(fs: FeatureTable, folderId: Id): set<string> {
    set f | f in fs && fs[f].folderId == Some(folderId) && !fs[f].isDeleted
  }

  /** `UPDATE features SET folder_id = NULL WHERE id = $1 AND is_deleted = false` */
  function Detach(fs: FeatureTable, f: string): FeatureTable {
    if f in fs && !fs[f].isDeleted then fs[f := fs[f].(folderId := None)] else fs
  }

  function DetachAll(fs: FeatureTable, gone: set<string>): FeatureTable {
    map f | f in fs :: if f in gone && !fs[f].isDeleted then fs[f].(folderId := None) else fs[f]
  }

  function DetachFolder(fs: FeatureTable, folderId: Id): FeatureTable {
    DetachAll(fs, FeatureIdsIn(fs, folderId))
  }

  /** One DELETE statement; it fails on a referenced folder. */
  function TryDelete(s: Store, id: Id): (Store, bool) {
    if id in s.folders && id in s.pinned then (s, false)
    else (s.(folders := DeleteRow(s.folders, id)), true)
  }

  /** The loop over descendants: detach, delete, stop at the first failure. */
  function DeleteEach(s: Store, ids: seq<Id>): (Store, bool)
    decreases |ids|
  {
    if ids == [] then (s, true)
    else
      var (s1, ok) := TryDelete(s.(features := DetachFolder(s.features, ids[0])), ids[0]);
      if ok then DeleteEach(s1, ids[1..]) else (s1, false)
  }

  /** `order` is the order in which the database lists the descendants. */
  function Delete(s: Store, id: Id, recursive: bool, order: seq<Id>): (Store, Result<nat, FolderError>) {
    if id !in s.folders then (s, Failure(FolderNotFound))
    else if HasChildren(s.folders, id) && !recursive then (s, Failure(HasSubfolders))
    else
      var count := |FeatureIdsIn(s.features, id)|;
      var s1 := s.(features := DetachFolder(s.features, id));
      var (s2, ok2) := if recursive then DeleteEach(s1, order) else (s1, true);
      if !ok2 then (s2, Failure(ForeignKeyViolation))
      else
        var (s3, ok3) := TryDelete(s2, id);
        if ok3 then (s3, Success(count)) else (s3, Failure(ForeignKeyViolation))
  }

  /** A SELECT of primary keys: every matching id once, in any order. */
  ghost predicate Lists(order: seq<Id>, ids: set<Id>) {
    && (forall j :: j in order <==> j in ids)
    && (forall a, b | 0 <= a < b < |order| :: order[a] != order[b])
  }

  // ---- the loop deletes a set, whatever its order ----

  function DeleteSet(t: Table, gone: set<Id>): Table {
    map j | j in t && j !in gone ::
      if t[j].parentId.Some? && t[j].parentId.value in gone then t[j].(parentId := None) else t[j]
  }

  function DetachFolders(fs: FeatureTable, gone: set<Id>): FeatureTable {
    map f | f in fs ::
      if !fs[f].isDeleted && fs[f].folderId.Some? && fs[f].folderId.value in gone
      then fs[f].(folderId := None) else fs[f]
  }

  function Elements(ids: seq<Id>): set<Id> {
    set j | j in ids
  }

  lemma DeleteSetStep(t: Table, fs: FeatureTable, a: Id, gone: set<Id>)
    ensures DeleteSet(DeleteRow(t, a), gone) == DeleteSet(t, {a} + gone)
    ensures DetachFolders(DetachFolder(fs, a), gone) == DetachFolders(fs, {a} + gone)
  {
  }

  lemma {:induction false} DeleteEachIsDeleteSet(s: Store, ids: seq<Id>)
    requires Elements(ids) !! s.pinned
    ensures DeleteEach(s, ids) ==
            (Store(DeleteSet(s.folders, Elements(ids)), DetachFolders(s.features, Elements(ids)), s.pinned), true)
    decreases |ids|
  {
    if ids == [] {
      assert Elements(ids) == {};
      assert DeleteSet(s.folders, {}) == s.folders && DetachFolders(s.features, {}) == s.features;
    } else {
      var s1 := Store(DeleteRow(s.folders, ids[0]), DetachFolder(s.features, ids[0]), s.pinned);
      assert ids[0] in Elements(ids);
      assert Elements(ids) == {ids[0]} + Elements(ids[1..]);
      DeleteEachIsDeleteSet(s1, ids[1..]);
      DeleteSetStep(s.folders, s.features, ids[0], Elements(ids[1..]));
    }
  }

  lemma {:induction false} DeleteEachStopsAtPinned(s: Store, ids: seq<Id>, j: Id)
    requires j in ids && j in s.folders && j in s.pinned
    ensures !DeleteEach(s, ids).1
    decreases |ids|
  {
    var (s1, ok) := TryDelete(s.(features := DetachFolder(s.features, ids[0])), ids[0]);
    if ok {
      assert ids[0] != j;
      assert j in ids[1..];
      DeleteEachStopsAtPinned(s1, ids[1..], j);
    }
  }

  /** Deleting a set of folders keeps paths in step exactly when no survivor loses its parent. */
  lemma DeletionKeepsPathsExactly(t: Table, gone: set<Id>)
    requires PathInv(t)
    ensures PathInv(DeleteSet(t, gone)) <==>
            (forall j | j in t && t[j].parentId.Some? && t[j].parentId.value in gone :: j in gone)
  {
    var u := DeleteSet(t, gone);
    if j :| j in t && j !in gone && t[j].parentId.Some? && t[j].parentId.value in gone {
      OrphanDisagrees(t, gone, j);
    } else {
      forall j | j in u ensures RowAgrees(u, j) {
        assert RowAgrees(t, j);
      }
    }
  }

  lemma OrphanDisagrees(t: Table, gone: set<Id>, j: Id)
    requires PathInv(t) && j in t && j !in gone && t[j].parentId.Some? && t[j].parentId.value in gone
    ensures !PathInv(DeleteSet(t, gone))
  {
    assert RowAgrees(t, j);
    PathIsClean(t, t[j].parentId.value);
    assert "root/" + j == "root" + "/" + j;
    assert |t[t[j].parentId.value].path + "/" + j| > |"root/" + j|;
    assert !RowAgrees(DeleteSet(t, gone), j);
  }

  lemma DeletionKeepsNames(t: Table, gone: set<Id>)
    requires KeyInv(t)
    ensures KeyInv(DeleteSet(t, gone))
  {
    var u := DeleteSet(t, gone);
    forall i, j | i in u && j in u ensures DistinctNames(u, i, j) {
      assert DistinctNames(t, i, j);
    }
  }

  ghost function Subtree(t: Table, id: Id): (s: set<Id>)
    ensures forall j :: j in s <==> j in t && InSubtree(t, j, id)
  {
    set j | j in t && InSubtree(t, j, id)
  }

  lemma SubtreeIsListed(t: Table, id: Id, recursive: bool, order: seq<Id>)
    requires PathInv(t) && id in t && (recursive || !HasChildren(t, id))
    requires recursive ==> Lists(order, PathMatches(t, t[id].path))
    ensures Subtree(t, id) == (if recursive then Elements(order) else {}) + {id}
  {
    forall j ensures j in Subtree(t, id) <==> j in (if recursive then Elements(order) else {}) + {id} {
      LikeSelectsDescendants(t, id, j);
      if Descends(t, j, id) {
        DescendantMeansChild(t, j, id);
      }
    }
  }

  lemma SubtreeIsClosed(t: Table, id: Id)
    requires PathInv(t)
    ensures forall j | j in t && t[j].parentId.Some? && t[j].parentId.value in Subtree(t, id) :: j in Subtree(t, id)
  {
    forall j | j in t && t[j].parentId.Some? && t[j].parentId.value in Subtree(t, id) ensures j in Subtree(t, id) {
      DescendsStep(t, j, t[j].parentId.value, id);
    }
  }

  lemma DeletesWholeSubtree(s: Store, id: Id, recursive: bool, order: seq<Id>)
    requires PathInv(s.folders) && id in s.folders && (recursive || !HasChildren(s.folders, id))
    requires recursive ==> Lists(order, PathMatches(s.folders, s.folders[id].path))
    requires Subtree(s.folders, id) !! s.pinned
    ensures var gone := Subtree(s.folders, id);
            Delete(s, id, recursive, order) ==
              (Store(DeleteSet(s.folders, gone), DetachFolders(s.features, gone), s.pinned),
               Success(|FeatureIdsIn(s.features, id)|))
  {
    SubtreeIsListed(s.folders, id, recursive, order);
    var ids := if recursive then order else [];
    var s1 := s.(features := DetachFolder(s.features, id));
    DeleteEachIsDeleteSet(s1, ids);
    DeleteEachIsDeleteSet(s, [id] + ids);
    assert Elements([id] + ids) == Subtree(s.folders, id) == Elements(ids) + {id};
    DetachCommutes(s.features, id, Elements(ids));
    DeleteRowLast(s.folders, id, Elements(ids));
  }

  lemma DetachCommutes(fs: FeatureTable, a: Id, gone: set<Id>)
    ensures DetachFolders(DetachFolder(fs, a), gone) == DetachFolders(fs, gone + {a})
  {
  }

  lemma DeleteRowLast(t: Table, a: Id, gone: set<Id>)
    ensures DeleteRow(DeleteSet(t, gone), a) == DeleteSet(t, gone + {a})
  {
  }

  lemma PinnedBlocks(s: Store, id: Id, recursive: bool, order: seq<Id>, j: Id)
    requires PathInv(s.folders) && id in s.folders && (recursive || !HasChildren(s.folders, id))
    requires recursive ==> Lists(order, PathMatches(s.folders, s.folders[id].path))
    requires j in Subtree(s.folders, id) && j in s.pinned
    ensures Delete(s, id, recursive, order).1 == Failure(ForeignKeyViolation)
  {
    SubtreeIsListed(s.folders, id, recursive, order);
    var s1 := s.(features := DetachFolder(s.features, id));
    if j != id {
      DeleteEachStopsAtPinned(s1, order, j);
    } else if recursive {
      Acyclic(s.folders, id);
      LikeSelectsDescendants(s.folders, id, id);
      DeleteEachKeepsOthers(s1, order, id);
    }
  }

  lemma {:induction false} DeleteEachKeepsOthers(s: Store, ids: seq<Id>, id: Id)
    requires id !in ids && id in s.folders
    ensures id in DeleteEach(s, ids).0.folders && DeleteEach(s, ids).0.pinned == s.pinned
    decreases |ids|
  {
    if ids != [] {
      var (s1, ok) := TryDelete(s.(features := DetachFolder(s.features, ids[0])), ids[0]);
      if ok {
        DeleteEachKeepsOthers(s1, ids[1..], id);
      }
    }
  }

  /** An allowed delete succeeds exactly when no job references the subtree. It then removes exactly
      the folder and its descendants, detaches exactly their live features, leaves every other row
      unchanged and keeps the invariant, in whatever order the descendants were listed. */
  lemma DeleteRemovesExactlySubtree(s: Store, id: Id, recursive: bool, order: seq<Id>)
    requires TableInv(s.folders) && id in s.folders && (recursive || !HasChildren(s.folders, id))
    requires recursive ==> Lists(order, PathMatches(s.folders, s.folders[id].path))
    ensures var (s', r) := Delete(s, id, recursive, order);
            && (r.Success? <==> forall j | j in s.folders && InSubtree(s.folders, j, id) :: j !in s.pinned)
            && (r.Success? ==>
                  && TableInv(s'.folders)
                  && (forall j :: j in s'.folders <==> j in s.folders && !InSubtree(s.folders, j, id))
                  && (forall j | j in s'.folders :: s'.folders[j] == s.folders[j])
                  && s'.features.Keys == s.features.Keys
                  && (forall f | f in s.features :: s'.features[f] ==
                        if !s.features[f].isDeleted && s.features[f].folderId.Some?
                           && s.features[f].folderId.value in Subtree(s.folders, id)
                        then s.features[f].(folderId := None) else s.features[f]))
  {
    var gone := Subtree(s.folders, id);
    SubtreeIsClosed(s.folders, id);
    if gone !! s.pinned {
      DeletesWholeSubtree(s, id, recursive, order);
      DeletionKeepsPathsExactly(s.folders, gone);
      DeletionKeepsNames(s.folders, gone);
    } else {
      var j :| j in gone && j in s.pinned;
      PinnedBlocks(s, id, recursive, order, j);
    }
  }

  /** A delete of a missing folder, or of one with children that is not asked to be recursive, is refused
      and changes nothing; any other delete answers how many live features the folder itself held, or
      that a job reference stopped it. */
  lemma DeleteAnswersExactly(s: Store, id: Id, recursive: bool, order: seq<Id>)
    ensures var (s', r) := Delete(s, id, recursive, order);
            && (r == Failure(FolderNotFound) <==> id !in s.folders)
            && (r == Failure(HasSubfolders) <==>
                  id in s.folders && !recursive && exists c | c in s.folders :: s.folders[c].parentId == Some(id))
            && (r.Failure? && r.error != ForeignKeyViolation ==> s' == s && r.error in {FolderNotFound, HasSubfolders})
            && (r.Success? ==> r.value == |set f | f in s.features && s.features[f].folderId == Some(id)
                                                   && !s.features[f].isDeleted|)
            && s'.pinned == s.pinned
  {
    if id in s.folders && (recursive || !HasChildren(s.folders, id)) {
      DeleteEachKeepsPinned(s.(features := DetachFolder(s.features, id)), order);
    }
  }

  lemma {:induction false} DeleteEachKeepsPinned(s: Store, ids: seq<Id>)
    ensures DeleteEach(s, ids).0.pinned == s.pinned
    decreases |ids|
  {
    if ids != [] {
      var (s1, ok) := TryDelete(s.(features := DetachFolder(s.features, ids[0])), ids[0]);
      if ok {
        DeleteEachKeepsPinned(s1, ids[1..]);
      }
    }
  }

  // ---- a delete that is stopped half way ----

  lemma {:induction false} DeleteEachStopsAt(s: Store, ids: seq<Id>, k: nat)
    requires k < |ids| && ids[k] in s.folders && ids[k] in s.pinned && Elements(ids[..k]) !! s.pinned
    ensures DeleteEach(s, ids).0.folders == DeleteSet(s.folders, Elements(ids[..k]))
    decreases k
  {
    if k == 0 {
      assert Elements(ids[..0]) == {};
      assert DeleteSet(s.folders, {}) == s.folders;
    } else {
      var s1 := Store(DeleteRow(s.folders, ids[0]), DetachFolder(s.features, ids[0]), s.pinned);
      var rest := ids[1..];
      assert ids[..k][0] == ids[0] && ids[0] in Elements(ids[..k]);
      assert rest[..k - 1] == ids[..k][1..];
      assert Elements(ids[..k]) == {ids[0]} + Elements(rest[..k - 1]);
      DeleteEachStopsAt(s1, rest, k - 1);
      DeleteSetStep(s.folders, s.features, ids[0], Elements(rest[..k - 1]));
    }
  }

  lemma {:induction false} DeleteEachDetaches(s: Store, ids: seq<Id>, k: nat)
    requires k < |ids| && ids[k] in s.folders && ids[k] in s.pinned && Elements(ids[..k]) !! s.pinned
    ensures DeleteEach(s, ids).0.features == DetachFolders(s.features, Elements(ids[..k + 1]))
    decreases k
  {
    if k == 0 {
      assert Elements(ids[..1]) == {ids[0]};
      assert DetachFolders(s.features, {ids[0]}) == DetachFolder(s.features, ids[0]);
    } else {
      var s1 := Store(DeleteRow(s.folders, ids[0]), DetachFolder(s.features, ids[0]), s.pinned);
      var rest := ids[1..];
      assert ids[..k][0] == ids[0] && ids[0] in Elements(ids[..k]);
      assert rest[..k - 1] == ids[..k][1..] && rest[..k] == ids[..k + 1][1..];
      assert Elements(ids[..k]) == {ids[0]} + Elements(rest[..k - 1]);
      assert Elements(ids[..k + 1]) == {ids[0]} + Elements(rest[..k]) by {
        assert ids[..k + 1][0] == ids[0];
      }
      DeleteEachDetaches(s1, rest, k - 1);
      DeleteSetStep(s.folders, s.features, ids[0], Elements(rest[..k]));
    }
  }

  /** When descendant number `k` is the first with a job reference, the ones listed before it are gone
      and the rest stay, while features were already detached from it and from the folder itself: the
      statements are not one transaction. */
  lemma StoppedDelete(s: Store, id: Id, order: seq<Id>, k: nat)
    requires PathInv(s.folders) && id in s.folders && Lists(order, PathMatches(s.folders, s.folders[id].path))
    requires k < |order| && order[k] in s.pinned && Elements(order[..k]) !! s.pinned
    ensures var (s', r) := Delete(s, id, true, order);
            && r == Failure(ForeignKeyViolation)
            && s'.folders == DeleteSet(s.folders, Elements(order[..k]))
            && s'.features == DetachFolders(s.features, Elements(order[..k + 1]) + {id})
  {
    var s1 := s.(features := DetachFolder(s.features, id));
    assert order[k] in order;
    DeleteEachStopsAt(s1, order, k);
    DeleteEachDetaches(s1, order, k);
    DeleteEachStopsAtPinned(s1, order, order[k]);
    DetachCommutes(s.features, id, Elements(order[..k + 1]));
  }

  /** What the caller can see before a recursive delete: some folder below is referenced by a job, and
      some folder below that is not referenced has children. */
  ghost predicate MayStrand(s: Store, id: Id) {
    && (exists p :: Descends(s.folders, p, id) && p in s.pinned)
    && (exists q :: Descends(s.folders, q, id) && q !in s.pinned && HasChildren(s.folders, q))
  }

  /** The folders that the delete removed when it ended: nobody whose parent is among them survives. */
  ghost predicate LeavesNoOrphan(s: Store, id: Id, order: seq<Id>, gone: set<Id>) {
    && Delete(s, id, true, order).0.folders == DeleteSet(s.folders, gone)
    && forall j | j in s.folders && s.folders[j].parentId.Some? && s.folders[j].parentId.value in gone :: j in gone
  }

  lemma {:induction false} FirstPinned(ids: seq<Id>, pinned: set<Id>) returns (k: nat)
    ensures k <= |ids| && Elements(ids[..k]) !! pinned && (k < |ids| ==> ids[k] in pinned)
  {
    k := 0;
    while k < |ids| && ids[k] !in pinned
      invariant k <= |ids| && Elements(ids[..k]) !! pinned
    {
      k := k + 1;
    }
  }

  lemma DescendantsAreListed(t: Table, id: Id, order: seq<Id>)
    requires PathInv(t) && id in t && Lists(order, PathMatches(t, t[id].path))
    ensures forall j :: j in order <==> Descends(t, j, id)
    ensures id !in order
  {
    forall j ensures j in order <==> Descends(t, j, id) {
      LikeSelectsDescendants(t, id, j);
    }
    Acyclic(t, id);
  }

  /** Without a strandable folder below, every listing order removes a set that orphans nobody. */
  lemma SafeDeleteOrphansNobody(s: Store, id: Id, order: seq<Id>) returns (gone: set<Id>)
    requires PathInv(s.folders) && id in s.folders && Lists(order, PathMatches(s.folders, s.folders[id].path))
    requires !MayStrand(s, id)
    ensures LeavesNoOrphan(s, id, order, gone)
  {
    DescendantsAreListed(s.folders, id, order);
    SubtreeIsListed(s.folders, id, true, order);
    var k := FirstPinned(order, s.pinned);
    if k < |order| {
      gone := Elements(order[..k]);
      StoppedDelete(s, id, order, k);
      assert order[k] in order;
      if j :| j in s.folders && s.folders[j].parentId.Some? && s.folders[j].parentId.value in gone {
        assert s.folders[j].parentId.value in order && HasChildren(s.folders, s.folders[j].parentId.value);
        assert false;
      }
    } else {
      assert order[..k] == order;
      if id in s.pinned {
        gone := Elements(order);
        DeleteEachIsDeleteSet(s.(features := DetachFolder(s.features, id)), order);
        forall j | j in s.folders && s.folders[j].parentId.Some? && s.folders[j].parentId.value in gone
          ensures j in gone
        {
          DescendsStep(s.folders, j, s.folders[j].parentId.value, id);
        }
      } else {
        gone := Subtree(s.folders, id);
        SubtreeIsClosed(s.folders, id);
        DeletesWholeSubtree(s, id, true, order);
      }
    }
  }

  /** A listing that names a folder with children just before a referenced folder orphans a child. */
  lemma StrandingOrder(s: Store, id: Id, p: Id, q: Id) returns (order: seq<Id>)
    requires PathInv(s.folders) && id in s.folders
    requires Descends(s.folders, p, id) && p in s.pinned
    requires Descends(s.folders, q, id) && q !in s.pinned && HasChildren(s.folders, q)
    ensures Lists(order, PathMatches(s.folders, s.folders[id].path))
    ensures !PathInv(Delete(s, id, true, order).0.folders)
  {
    var rest := Listing(PathMatches(s.folders, s.folders[id].path) - {p, q});
    order := [q, p] + rest;
    LikeSelectsDescendants(s.folders, id, p);
    LikeSelectsDescendants(s.folders, id, q);
    assert order[..1] == [q] && Elements(order[..1]) == {q};
    StoppedDelete(s, id, order, 1);
    DeletionKeepsPathsExactly(s.folders, {q});
    var c :| c in s.folders && s.folders[c].parentId == Some(q);
    DescendsStep(s.folders, c, q, q);
    Acyclic(s.folders, q);
  }

  lemma {:induction false} Listing(ids: set<Id>) returns (order: seq<Id>)
    ensures Lists(order, ids)
  {
    if ids == {} {
      order := [];
    } else {
      var j :| j in ids;
      order := Listing(ids - {j});
      order := [j] + order;
    }
  }

  /** A recursive delete keeps every path in step, whatever order the database lists the descendants
      in, exactly if no folder below is referenced by a job or every folder below that has children
      is. A reference to the folder itself does no harm. */
  lemma RecursiveDeleteSafeExactly(s: Store, id: Id)
    requires TableInv(s.folders) && id in s.folders
    ensures (forall order | Lists(order, PathMatches(s.folders, s.folders[id].path)) ::
               PathInv(Delete(s, id, true, order).0.folders)) <==> !MayStrand(s, id)
  {
    if MayStrand(s, id) {
      var p :| Descends(s.folders, p, id) && p in s.pinned;
      var q :| Descends(s.folders, q, id) && q !in s.pinned && HasChildren(s.folders, q);
      var order := StrandingOrder(s, id, p, q);
    } else {
      forall order | Lists(order, PathMatches(s.folders, s.folders[id].path))
        ensures PathInv(Delete(s, id, true, order).0.folders)
      {
        SafeDeleteKeepsInv(s, id, order);
      }
    }
  }

  lemma SafeDeleteKeepsInv(s: Store, id: Id, order: seq<Id>)
    requires TableInv(s.folders) && id in s.folders && Lists(order, PathMatches(s.folders, s.folders[id].path))
    requires !MayStrand(s, id)
    ensures TableInv(Delete(s, id, true, order).0.folders)
  {
    var gone := SafeDeleteOrphansNobody(s, id, order);
    DeletionKeepsPathsExactly(s.folders, gone);
    DeletionKeepsNames(s.folders, gone);
  }

  /** Listing a middle folder before its referenced child strands the child. */
  lemma StoppedDeleteStrandsChild()
    ensures var a := CreateRoot("a", "a", "u", None, 0);
            var b := CreateChild("b", "b", "a", a.path, 0, "u", None, 0);
            var c := CreateChild("c", "c", "b", b.path, 1, "u", None, 0);
            var s := Store(map["a" := a, "b" := b, "c" := c], map[], {"c"});
            && TableInv(s.folders) && Lists(["b", "c"], PathMatches(s.folders, a.path))
            && !PathInv(Delete(s, "a", true, ["b", "c"]).0.folders)
  {
    var a := CreateRoot("a", "a", "u", None, 0);
    var b := CreateChild("b", "b", "a", a.path, 0, "u", None, 0);
    var c := CreateChild("c", "c", "b", b.path, 1, "u", None, 0);
    var s := Store(map["a" := a, "b" := b, "c" := c], map[], {"c"});
    assert PathInv(s.folders) && KeyInv(s.folders);
    DescendsStep(s.folders, "b", "a", "a");
    DescendsStep(s.folders, "c", "b", "a");
    Acyclic(s.folders, "a");
    forall j ensures j in ["b", "c"] <==> j in PathMatches(s.folders, a.path) {
      LikeSelectsDescendants(s.folders, "a", j);
    }
    assert ["b", "c"][..1] == ["b"] && Elements(["b"]) == {"b"};
    assert s.folders["c"].parentId == Some("b");
    StoppedDelete(s, "a", ["b", "c"], 1);
    DeletionKeepsPathsExactly(s.folders, {"b"});
  }

  // ---- whole runs ----

  datatype Op =
    | CreateOp(newId: Id, create: CreateDto, userId: string)
    | UpdateOp(id: Id, update: UpdateDto, userId: string)
    | DeleteOp(id: Id, recursive: bool, order: seq<Id>)
    | JobsOp(jobs: set<Id>)  // import and export jobs come to reference other folders

  function Apply(s: Store, op: Op): Store {
    match op
    case CreateOp(newId, dto, userId) => s.(folders := Create(s.folders, newId, dto, userId).0)
    case UpdateOp(id, dto, userId) => s.(folders := Update(s.folders, id, dto, userId).0)
    case DeleteOp(id, recursive, order) => Delete(s, id, recursive, order).0
    case JobsOp(jobs) => s.(pinned := jobs)
  }

  /** A run is made of the operations proved above, and of jobs coming and going. */
  lemma OperationsApply(s: Store, op: Op)
    ensures op.CreateOp? ==> Apply(s, op) == s.(folders := Create(s.folders, op.newId, op.create, op.userId).0)
    ensures op.UpdateOp? ==> Apply(s, op) == s.(folders := Update(s.folders, op.id, op.update, op.userId).0)
    ensures op.DeleteOp? ==> Apply(s, op) == Delete(s, op.id, op.recursive, op.order).0
    ensures op.JobsOp? ==> Apply(s, op) == Store(s.folders, s.features, op.jobs)
  {
  }

  /** UUIDs are well formed, moves are safe, and recursive deletes list the descendants and cannot
      strand any. */
  ghost predicate Safe(s: Store, op: Op) {
    match op
    case CreateOp(newId, _, _) => ValidId(newId)
    case UpdateOp(id, dto, userId) => !UnsafeMove(s.folders, id, dto, userId)
    case DeleteOp(id, recursive, order) =>
      id in s.folders && recursive ==>
        && Lists(order, PathMatches(s.folders, s.folders[id].path))
        && !MayStrand(s, id)
    case JobsOp(_) => true
  }

  function Run(s: Store, ops: seq<Op>): Store
    decreases |ops|
  {
    if ops == [] then s else Run(Apply(s, ops[0]), ops[1..])
  }

  ghost predicate SafeRun(s: Store, ops: seq<Op>)
    decreases |ops|
  {
    ops == [] || (Safe(s, ops[0]) && SafeRun(Apply(s, ops[0]), ops[1..]))
  }

  lemma ApplyKeepsInv(s: Store, op: Op)
    requires TableInv(s.folders) && Safe(s, op)
    ensures TableInv(Apply(s, op).folders)
  {
    match op
    case CreateOp(newId, dto, userId) => CreateKeepsInv(s.folders, newId, dto, userId);
    case UpdateOp(id, dto, userId) => UpdateKeepsPathsExactly(s.folders, id, dto, userId);
    case DeleteOp(id, recursive, order) =>
      if id in s.folders && recursive {
        SafeDeleteKeepsInv(s, id, order);
      } else if id in s.folders && !HasChildren(s.folders, id) {
        SingleDeleteKeepsInv(s, id, order);
      }
    case JobsOp(_) =>
  }

  /** A folder without children is deleted, or stays because of a job reference. */
  lemma SingleDeleteKeepsInv(s: Store, id: Id, order: seq<Id>)
    requires TableInv(s.folders) && id in s.folders && !HasChildren(s.folders, id)
    ensures TableInv(Delete(s, id, false, order).0.folders)
  {
    if id !in s.pinned {
      LoneSubtree(s.folders, id);
      DeleteRemovesExactlySubtree(s, id, false, order);
    }
  }

  lemma LoneSubtree(t: Table, id: Id)
    requires !HasChildren(t, id)
    ensures forall j :: !Descends(t, j, id)
  {
    forall j ensures !Descends(t, j, id) {
      if Descends(t, j, id) {
        DescendantMeansChild(t, j, id);
      }
    }
  }

  /** After every safe run from the empty catalogue, each folder's path and level are what its chain
      of parents says, names are unique under each parent, and no folder is its own ancestor. */
  lemma {:induction false} RunKeepsInv(s: Store, ops: seq<Op>)
    requires TableInv(s.folders) && SafeRun(s, ops)
    ensures TableInv(Run(s, ops).folders)
    ensures forall j :: !Descends(Run(s, ops).folders, j, j)
    decreases |ops|
  {
    if ops == [] {
      forall j ensures !Descends(s.folders, j, j) {
        Acyclic(s.folders, j);
      }
    } else {
      ApplyKeepsInv(s, ops[0]);
      RunKeepsInv(Apply(s, ops[0]), ops[1..]);
    }
  }
}
