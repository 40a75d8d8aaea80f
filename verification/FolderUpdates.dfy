/** Create, rename and move as functions on the folder table, and what they do to the tree. */
module FolderUpdates {
  import opened Common
  import opened Folders

  datatype FolderError =
    | FolderNotFound | VersionConflict | DuplicateName | IntoDescendant | TargetNotFound | DepthReached
    | HasSubfolders | UniqueViolation | ForeignKeyViolation

  const MAX_LEVEL := 10

  /** Fields left `undefined` by the client are `None`; a null parent is `Some(None)`. A parent is spelled
      as the client spells it. */
  datatype UpdateDto = UpdateDto(version: int, name: Option<string>, parentId: Option<Option<string>>,
                                 description: Option<Option<string>>, sortOrder: Option<int>)

  datatype CreateDto = CreateDto(name: string, parentId: Option<string>, description: Option<string>, sortOrder: int)

  // ---- update ----

  predicate Renames(f: Folder, dto: UpdateDto) {
    dto.name.Some? && dto.name.value != f.name
  }

  predicate Moves(f: Folder, dto: UpdateDto) {
    dto.parentId.Some? && dto.parentId.value != f.parentId
  }

  /** The first check that refuses the request, if any. The cycle check looks the target's spelling up
      among the descendants; the target itself is found by value. */
  function Refusal(t: Table, id: Id, dto: UpdateDto, userId: string): Option<FolderError> {
    if id !in t then Some(FolderNotFound)
    else if t[id].version != dto.version then Some(VersionConflict)
    else if Renames(t[id], dto) && SameNameRows(t, dto.name.value, t[id].parentId, userId) - {id} != {} then
      Some(DuplicateName)
    else if Moves(t[id], dto) && Truthy(dto.parentId.value) then
      var p := dto.parentId.value.value;
      if p in PathMatches(t, t[id].path) then Some(IntoDescendant)
      else if Uuid(p) !in t then Some(TargetNotFound)
      else if t[Uuid(p)].level >= MAX_LEVEL then Some(DepthReached)
      else None
    else None
  }

  /** The row that the request asks for. */
  function Edited(t: Table, f: Folder, dto: UpdateDto): Folder
    requires Moves(f, dto) && Truthy(dto.parentId.value) ==> Uuid(dto.parentId.value.value) in t
  {
    var g := f.WithIncrementedVersion();
    var g := if Renames(f, dto) then g.WithName(dto.name.value) else g;
    var g := if !Moves(f, dto) then g
             else if Truthy(dto.parentId.value) then
               var p := t[Uuid(dto.parentId.value.value)];
               g.WithParent(Value(dto.parentId.value), Some(p.path), p.level)
             else g.WithParent(None, None, 0);
    var g := if dto.description.Some? then g.(description := dto.description.value) else g;
    if dto.sortOrder.Some? then g.(sortOrder := dto.sortOrder.value) else g
  }

  /** The subtree rewrite runs first and on its own; the row update may then hit the unique key. */
  function Update(t: Table, id: Id, dto: UpdateDto, userId: string): (Table, Result<Folder, FolderError>) {
    var refusal := Refusal(t, id, dto, userId);
    if refusal.Some? then (t, Failure(refusal.value))
    else
      var g := Edited(t, t[id], dto);
      var t1 := if Moves(t[id], dto) then RewriteSubtree(t, t[id].path, g.path, g.level - t[id].level) else t;
      if UniqueClash(t1, g.id, g.name, g.parentId) then (t1, Failure(UniqueViolation))
      else (UpdateRow(t1, g), Success(g))
  }

  // ---- create ----

  /** `newId` is the UUID drawn for the folder. */
  function Create(t: Table, newId: Id, dto: CreateDto, userId: string): (Table, Result<Folder, FolderError>) {
    var parentId := Value(dto.parentId);
    if parentId.Some? && parentId.value !in t then (t, Failure(TargetNotFound))
    else if parentId.Some? && t[parentId.value].level >= MAX_LEVEL then (t, Failure(DepthReached))
    else
      if SameNameRows(t, dto.name, parentId, userId) != {} then (t, Failure(DuplicateName))
      else
        var f := if parentId.Some?
                 then CreateChild(newId, dto.name, parentId.value, t[parentId.value].path, t[parentId.value].level,
                                  userId, dto.description, dto.sortOrder)
                 else CreateRoot(newId, dto.name, userId, dto.description, dto.sortOrder);
        if newId in t || UniqueClash(t, newId, f.name, f.parentId) then (t, Failure(UniqueViolation))
        else (t[newId := f], Success(f))
  }

  // ---- what keeps the invariant ----

  ghost predicate TableInv(t: Table) {
    PathInv(t) && KeyInv(t)
  }

  predicate Attaches(t: Table, g: Folder) {
    && (g.parentId.Some? ==> g.parentId.value in t)
    && g.path == BasePath(t, g.parentId) + "/" + g.id
    && g.level == if g.parentId.Some? then t[g.parentId.value].level + 1 else 0
  }

  lemma EditedAttaches(t: Table, id: Id, dto: UpdateDto, userId: string)
    requires PathInv(t) && Refusal(t, id, dto, userId) == None
    ensures var g := Edited(t, t[id], dto);
            && g.id == id && Attaches(t, g)
            && g.name == (if dto.name.Some? then dto.name.value else t[id].name)
            && g.version == t[id].version + 1
            && g.parentId == (if !Moves(t[id], dto) then t[id].parentId
                              else Value(dto.parentId.value))
            && (!Moves(t[id], dto) ==> g.path == t[id].path && g.level == t[id].level)
            && g.description == (if dto.description.Some? then dto.description.value else t[id].description)
            && g.sortOrder == (if dto.sortOrder.Some? then dto.sortOrder.value else t[id].sortOrder)
            && g.ownerId == t[id].ownerId && g.featureCount == t[id].featureCount
  {
    PathSplits(t, id);
    assert RowAgrees(t, id);
    assert "root/" + id == "root" + "/" + id;
    if Moves(t[id], dto) && Truthy(dto.parentId.value) {
      PathIsClean(t, Uuid(dto.parentId.value.value));
    }
  }

  /** The table after an accepted move: rewrite the subtree, then write the row. */
  function MoveTo(t: Table, g: Folder): Table
    requires g.id in t
  {
    UpdateRow(RewriteSubtree(t, t[g.id].path, g.path, g.level - t[g.id].level), g)
  }

  lemma MoveToRow(t: Table, g: Folder, j: Id)
    requires PathInv(t) && g.id in t && j in t
    ensures j != g.id && Descends(t, j, g.id) ==> t[g.id].path + "/" <= t[j].path
    ensures MoveTo(t, g)[j] ==
            if j == g.id then g.(ownerId := t[j].ownerId, featureCount := t[j].featureCount)
            else if Descends(t, j, g.id) then Moved(t[j], t[g.id].path, g.path, g.level - t[g.id].level)
            else t[j]
  {
    RewriteChangesPrefixOnly(t, g.id, g.path, g.level - t[g.id].level, j);
    RewriteChangesPrefixOnly(t, g.id, g.path, g.level - t[g.id].level, g.id);
    Acyclic(t, g.id);
  }

  lemma ReplacedPrefix(path: string, base: string, id: Id, n: nat, newPrefix: string)
    requires path == base + "/" + id && n <= |base|
    ensures newPrefix + path[n..] == (newPrefix + base[n..]) + "/" + id
  {
  }

  lemma MovedDescendantAgrees(t: Table, g: Folder, j: Id)
    requires PathInv(t) && g.id in t && Attaches(t, g) && j in t && j != g.id && Descends(t, j, g.id)
    ensures RowAgrees(MoveTo(t, g), j)
  {
    var id := g.id;
    DescendsFirst(t, j, id);
    var p := t[j].parentId.value;
    assert RowAgrees(t, j);
    MoveToRow(t, g, j);
    MoveToRow(t, g, p);
    ReplacedPrefix(t[j].path, t[p].path, j, |t[id].path|, g.path);
    assert p == id ==> g.path + t[p].path[|t[id].path|..] == g.path;
  }

  lemma MovedRowAgrees(t: Table, g: Folder, j: Id)
    requires PathInv(t) && g.id in t && Attaches(t, g) && j in t
    requires g.parentId.Some? ==> !InSubtree(t, g.parentId.value, g.id)
    ensures RowAgrees(MoveTo(t, g), j)
  {
    var id := g.id;
    assert RowAgrees(t, j);
    if j != id && Descends(t, j, id) {
      MovedDescendantAgrees(t, g, j);
    } else {
      var parentId := if j == id then g.parentId else t[j].parentId;
      MoveToRow(t, g, j);
      assert "root/" + id == "root" + "/" + id;
      if parentId.Some? {
        MoveToRow(t, g, parentId.value);
        if j != id && InSubtree(t, parentId.value, id) {
          DescendsStep(t, j, parentId.value, id);
        }
      }
    }
  }

  lemma MoveKeepsPaths(t: Table, g: Folder)
    requires PathInv(t) && g.id in t && Attaches(t, g)
    requires g.parentId.Some? ==> !InSubtree(t, g.parentId.value, g.id)
    ensures PathInv(MoveTo(t, g))
  {
    forall j | j in t ensures RowAgrees(MoveTo(t, g), j) {
      MovedRowAgrees(t, g, j);
    }
  }

  lemma EditInPlaceKeepsPaths(t: Table, g: Folder)
    requires PathInv(t) && g.id in t
    requires g.parentId == t[g.id].parentId && g.path == t[g.id].path && g.level == t[g.id].level
    ensures PathInv(UpdateRow(t, g))
  {
    forall j | j in t ensures RowAgrees(UpdateRow(t, g), j) {
      assert RowAgrees(t, j);
    }
  }

  /** A folder put under itself or under a descendant closes a cycle of parent links. */
  lemma OwnSubtreeBreaks(t: Table, g: Folder)
    requires PathInv(t) && g.id in t && Attaches(t, g) && g.parentId.Some? && InSubtree(t, g.parentId.value, g.id)
    ensures !PathInv(MoveTo(t, g))
  {
    var u, p := MoveTo(t, g), g.parentId.value;
    if PathInv(u) {
      ParentLinksAfterMove(t, g);
      if p != g.id {
        var c :| ChainFrom(t, c, p, g.id);
        ChainSurvives(t, u, g.id, c);
        assert ChainFrom(u, c, p, g.id);
      }
      DescendsStep(u, g.id, p, g.id);
      Acyclic(u, g.id);
      assert false;
    }
  }

  lemma ParentLinksAfterMove(t: Table, g: Folder)
    requires PathInv(t) && g.id in t
    ensures MoveTo(t, g)[g.id].parentId == g.parentId
    ensures forall j | j in t && j != g.id :: MoveTo(t, g)[j].parentId == t[j].parentId
  {
    forall j | j in t && j != g.id ensures MoveTo(t, g)[j].parentId == t[j].parentId {
      MoveToRow(t, g, j);
    }
    MoveToRow(t, g, g.id);
  }

  lemma NewParentNewPath(t: Table, g: Folder)
    requires PathInv(t) && g.id in t && Attaches(t, g) && g.parentId != t[g.id].parentId
    ensures g.path != t[g.id].path
  {
    PathSplits(t, g.id);
    DifferentParentsDifferentBases(t, g.parentId, t[g.id].parentId);
    if g.path == t[g.id].path {
      SegmentsUnique(BasePath(t, g.parentId), g.id, BasePath(t, t[g.id].parentId), g.id);
    }
  }

  lemma RewrittenChild(t: Table, id: Id, c: Id, newPath: string, delta: int)
    requires PathInv(t) && id in t && c in t && t[c].parentId == Some(id)
    ensures var r := RewriteSubtree(t, t[id].path, newPath, delta);
            r[id] == t[id] && r[c].parentId == Some(id) && r[c].path == newPath + "/" + c && ValidId(c)
  {
    DescendsStep(t, c, id, id);
    RewriteChangesPrefixOnly(t, id, newPath, delta, c);
    RewriteChangesPrefixOnly(t, id, newPath, delta, id);
    Acyclic(t, id);
    assert RowAgrees(t, c);
    assert t[c].path[|t[id].path|..] == "/" + c;
  }

  /** Rewriting the subtree while the folder itself stays put strands its children. */
  lemma StrandedChildrenBreak(t: Table, g: Folder)
    requires PathInv(t) && g.id in t && Attaches(t, g) && g.parentId != t[g.id].parentId
    requires HasChildren(t, g.id)
    ensures !PathInv(RewriteSubtree(t, t[g.id].path, g.path, g.level - t[g.id].level))
  {
    var r := RewriteSubtree(t, t[g.id].path, g.path, g.level - t[g.id].level);
    var c :| c in t && t[c].parentId == Some(g.id);
    NewParentNewPath(t, g);
    RewrittenChild(t, g.id, c, g.path, g.level - t[g.id].level);
    if RowAgrees(r, c) {
      SegmentsUnique(g.path, c, t[g.id].path, c);
    }
  }

  lemma DifferentParentsDifferentBases(t: Table, p: Option<Id>, q: Option<Id>)
    requires PathInv(t) && p != q && (p.Some? ==> p.value in t) && (q.Some? ==> q.value in t)
    ensures BasePath(t, p) != BasePath(t, q)
  {
    if p.Some? { PathIsClean(t, p.value); }
    if q.Some? { PathIsClean(t, q.value); }
    if p.Some? && q.Some? && t[p.value].path == t[q.value].path {
      SamePathSameFolder(t, p.value, q.value);
    }
  }

  // ---- the exact condition ----

  /** What the checks of an update let through although the tree cannot absorb it: a folder moved under
      itself or, its id spelled otherwise than in the table, under a descendant; or a folder with
      children moved to where its name is already taken. */
  ghost predicate UnsafeMove(t: Table, id: Id, dto: UpdateDto, userId: string) {
    && Refusal(t, id, dto, userId).None?
    && Moves(t[id], dto) && Truthy(dto.parentId.value)
    && (|| InSubtree(t, Uuid(dto.parentId.value.value), id)
        || (HasChildren(t, id)
            && UniqueClash(t, id, if dto.name.Some? then dto.name.value else t[id].name, Value(dto.parentId.value))))
  }

  lemma RewriteKeepsNames(t: Table, oldPath: string, newPath: string, delta: int, id: Id, name: string, p: Option<Id>)
    requires KeyInv(t)
    ensures KeyInv(RewriteSubtree(t, oldPath, newPath, delta))
    ensures UniqueClash(RewriteSubtree(t, oldPath, newPath, delta), id, name, p) <==> UniqueClash(t, id, name, p)
  {
    var r := RewriteSubtree(t, oldPath, newPath, delta);
    assert forall j | j in t :: r[j].parentId == t[j].parentId && r[j].name == t[j].name;
    forall i, j | i in r && j in r ensures DistinctNames(r, i, j) {
      assert DistinctNames(t, i, j);
    }
    if UniqueClash(t, id, name, p) {
      var j :| j in t && j != id && t[j].parentId == p && t[j].name == name;
      assert j in r;
    }
  }

  lemma NoClashWithoutMove(t: Table, id: Id, dto: UpdateDto, userId: string)
    requires TableInv(t) && Refusal(t, id, dto, userId).None? && Edited(t, t[id], dto).parentId == t[id].parentId
    ensures var g := Edited(t, t[id], dto); !UniqueClash(t, id, g.name, g.parentId)
  {
    EditedAttaches(t, id, dto, userId);
    var g := Edited(t, t[id], dto);
    assert RowAgrees(t, id) && (g.parentId.Some? ==> RowAgrees(t, g.parentId.value));
    if Renames(t[id], dto) {
      SiblingsAreSameNameRows(t, id, g.name, g.parentId, userId);
      assert !SiblingNamed(t, id, g.name, g.parentId, userId);
    } else {
      assert forall j | j in t :: DistinctNames(t, id, j);
    }
  }

  /** An update keeps every path and level in step with the parent links if and only if it is not an
      unsafe move. */
  lemma UpdateKeepsPathsExactly(t: Table, id: Id, dto: UpdateDto, userId: string)
    requires TableInv(t)
    ensures PathInv(Update(t, id, dto, userId).0) <==> !UnsafeMove(t, id, dto, userId)
    ensures KeyInv(Update(t, id, dto, userId).0)
  {
    if Refusal(t, id, dto, userId).None? {
      if Moves(t[id], dto) {
        MoveOutcome(t, id, dto, userId);
        MoveKeepsNames(t, id, dto, userId);
      } else {
        EditOutcome(t, id, dto, userId);
      }
    }
  }

  lemma EditOutcome(t: Table, id: Id, dto: UpdateDto, userId: string)
    requires TableInv(t) && Refusal(t, id, dto, userId).None? && !Moves(t[id], dto)
    ensures TableInv(Update(t, id, dto, userId).0)
  {
    var g := Edited(t, t[id], dto);
    EditedAttaches(t, id, dto, userId);
    NoClashWithoutMove(t, id, dto, userId);
    EditInPlaceKeepsPaths(t, g);
    WriteKeepsNames(t, g);
  }

  function WriteIfFree(t: Table, g: Folder): Table {
    if UniqueClash(t, g.id, g.name, g.parentId) then t else UpdateRow(t, g)
  }

  lemma WriteKeepsNames(t: Table, g: Folder)
    requires KeyInv(t)
    ensures KeyInv(WriteIfFree(t, g))
  {
    var u := WriteIfFree(t, g);
    forall i, j | i in u && j in u ensures DistinctNames(u, i, j) {
      assert DistinctNames(t, i, j);
    }
  }

  lemma MoveIsRewriteThenWrite(t: Table, id: Id, dto: UpdateDto, userId: string)
    requires Refusal(t, id, dto, userId).None? && Moves(t[id], dto)
    ensures var f, g := t[id], Edited(t, t[id], dto);
            Update(t, id, dto, userId).0 == WriteIfFree(RewriteSubtree(t, f.path, g.path, g.level - f.level), g)
  {
  }

  lemma RewriteThenWriteKeepsNames(t: Table, oldPath: string, delta: int, g: Folder)
    requires KeyInv(t)
    ensures KeyInv(WriteIfFree(RewriteSubtree(t, oldPath, g.path, delta), g))
  {
    RewriteKeepsNames(t, oldPath, g.path, delta, g.id, g.name, g.parentId);
    WriteKeepsNames(RewriteSubtree(t, oldPath, g.path, delta), g);
  }

  lemma MoveKeepsNames(t: Table, id: Id, dto: UpdateDto, userId: string)
    requires KeyInv(t) && Refusal(t, id, dto, userId).None? && Moves(t[id], dto)
    ensures KeyInv(Update(t, id, dto, userId).0)
  {
    var g := Edited(t, t[id], dto);
    MoveIsRewriteThenWrite(t, id, dto, userId);
    RewriteThenWriteKeepsNames(t, t[id].path, g.level - t[id].level, g);
  }

  lemma ClashingMove(t: Table, g: Folder)
    requires PathInv(t) && g.id in t && Attaches(t, g) && g.parentId != t[g.id].parentId
    requires UniqueClash(t, g.id, g.name, g.parentId)
    ensures PathInv(RewriteSubtree(t, t[g.id].path, g.path, g.level - t[g.id].level)) <==> !HasChildren(t, g.id)
  {
    if HasChildren(t, g.id) {
      StrandedChildrenBreak(t, g);
    } else {
      NoChildrenNoRewrite(t, g.id, g.path, g.level - t[g.id].level);
    }
  }

  lemma MoveOutcome(t: Table, id: Id, dto: UpdateDto, userId: string)
    requires TableInv(t) && Refusal(t, id, dto, userId).None? && Moves(t[id], dto)
    ensures PathInv(Update(t, id, dto, userId).0) <==> !UnsafeMove(t, id, dto, userId)
  {
    var f, g := t[id], Edited(t, t[id], dto);
    EditedAttaches(t, id, dto, userId);
    RewriteKeepsNames(t, f.path, g.path, g.level - f.level, id, g.name, g.parentId);
    if g.parentId == f.parentId {
      NoClashWithoutMove(t, id, dto, userId);
    }
    if UniqueClash(t, id, g.name, g.parentId) {
      ClashingMove(t, g);
      SelfClashMeansChild(t, id, g.name, g.parentId);
      if Descends(t, g.parentId.value, id) {
        DescendantMeansChild(t, g.parentId.value, id);
      }
    } else if g.parentId.Some? && InSubtree(t, g.parentId.value, id) {
      OwnSubtreeBreaks(t, g);
    } else {
      MoveKeepsPaths(t, g);
    }
  }

  lemma SelfClashMeansChild(t: Table, id: Id, name: string, parentId: Option<Id>)
    requires UniqueClash(t, id, name, parentId)
    ensures parentId == Some(id) ==> HasChildren(t, id)
  {
  }

  lemma NoChildrenNoRewrite(t: Table, id: Id, newPath: string, delta: int)
    requires PathInv(t) && id in t && !HasChildren(t, id)
    ensures RewriteSubtree(t, t[id].path, newPath, delta) == t
  {
    forall j | j in t ensures RewriteSubtree(t, t[id].path, newPath, delta)[j] == t[j] {
      RewriteChangesPrefixOnly(t, id, newPath, delta, j);
      if Descends(t, j, id) {
        DescendantMeansChild(t, j, id);
      }
    }
  }

  // ---- what is accepted, told by the tree ----

  /** Another folder stands where a folder of this name would go: under the same parent, or among the
      roots of the same owner. */
  ghost predicate SiblingNamed(t: Table, id: Id, name: string, parentId: Option<Id>, userId: string) {
    exists j | j in t ::
      j != id && t[j].name == name && t[j].parentId == parentId && (parentId.None? ==> t[j].ownerId == userId)
  }

  lemma SiblingsAreSameNameRows(t: Table, id: Id, name: string, parentId: Option<Id>, userId: string)
    requires PathInv(t) && (parentId.Some? ==> parentId.value in t)
    ensures SiblingNamed(t, id, name, parentId, userId) <==> SameNameRows(t, name, parentId, userId) - {id} != {}
  {
    assert parentId.Some? ==> RowAgrees(t, parentId.value);
    if SiblingNamed(t, id, name, parentId, userId) {
      var j :| j in t && j != id && t[j].name == name && t[j].parentId == parentId
               && (parentId.None? ==> t[j].ownerId == userId);
      assert j in SameNameRows(t, name, parentId, userId) - {id};
    }
    if j :| j in SameNameRows(t, name, parentId, userId) - {id} {
      assert j != id && t[j].name == name && t[j].parentId == parentId;
    }
  }

  /** The target exists, is not spelled like a folder below, and is not too deep. The folder itself is a
      target that passes, and so is a descendant that is spelled in another way than in the table. */
  ghost predicate TargetAllowed(t: Table, id: Id, target: Option<string>) {
    Truthy(target) ==>
      Uuid(target.value) in t && !Descends(t, target.value, id) && t[Uuid(target.value)].level < MAX_LEVEL
  }

  lemma TargetAllowedExactly(t: Table, id: Id, dto: UpdateDto, userId: string)
    requires TableInv(t) && id in t && t[id].version == dto.version
    requires !(Renames(t[id], dto) && SiblingNamed(t, id, dto.name.value, t[id].parentId, userId))
    ensures Refusal(t, id, dto, userId).None? <==> (Moves(t[id], dto) ==> TargetAllowed(t, id, dto.parentId.value))
  {
    assert RowAgrees(t, id);
    if Renames(t[id], dto) {
      SiblingsAreSameNameRows(t, id, dto.name.value, t[id].parentId, userId);
    }
    if Moves(t[id], dto) && Truthy(dto.parentId.value) {
      LikeSelectsDescendants(t, id, dto.parentId.value.value);
    }
  }

  /** An update goes through exactly if the folder exists at the version the client saw, no sibling
      has the new name, the target is allowed, and the unique key is free there. */
  lemma UpdateAcceptedExactly(t: Table, id: Id, dto: UpdateDto, userId: string)
    requires TableInv(t)
    ensures Update(t, id, dto, userId).1.Success? <==>
            && id in t && t[id].version == dto.version
            && !(dto.name.Some? && dto.name.value != t[id].name
                 && SiblingNamed(t, id, dto.name.value, t[id].parentId, userId))
            && (dto.parentId.Some? && dto.parentId.value != t[id].parentId ==>
                  && TargetAllowed(t, id, dto.parentId.value)
                  && !(Truthy(dto.parentId.value) &&
                       UniqueClash(t, id, if dto.name.Some? then dto.name.value else t[id].name,
                                   Value(dto.parentId.value))))
  {
    if id in t && t[id].version == dto.version {
      assert RowAgrees(t, id);
      if Renames(t[id], dto) {
        SiblingsAreSameNameRows(t, id, dto.name.value, t[id].parentId, userId);
      }
      if !(Renames(t[id], dto) && SiblingNamed(t, id, dto.name.value, t[id].parentId, userId)) {
        TargetAllowedExactly(t, id, dto, userId);
        if Refusal(t, id, dto, userId).None? {
          KeyDecides(t, id, dto, userId);
        }
      }
    }
  }

  /** Why an update is refused, in the order of the checks, told by the tree. Nothing has been written
      then, unless the unique key refuses a move whose subtree has been rewritten. */
  lemma UpdateRefusedExactly(t: Table, id: Id, dto: UpdateDto, userId: string)
    requires TableInv(t) && Update(t, id, dto, userId).1.Failure?
    ensures var (t', r) := Update(t, id, dto, userId);
            && r.error == (if id !in t then FolderNotFound
                           else if t[id].version != dto.version then VersionConflict
                           else if dto.name.Some? && dto.name.value != t[id].name
                                   && SiblingNamed(t, id, dto.name.value, t[id].parentId, userId) then DuplicateName
                           else if dto.parentId.None? || !Truthy(dto.parentId.value) then UniqueViolation
                           else if Descends(t, dto.parentId.value.value, id) then IntoDescendant
                           else if Uuid(dto.parentId.value.value) !in t then TargetNotFound
                           else if t[Uuid(dto.parentId.value.value)].level >= 10 then DepthReached
                           else UniqueViolation)
            && (r.error != UniqueViolation ==> t' == t)
  {
    if id in t && t[id].version == dto.version {
      assert RowAgrees(t, id);
      if Renames(t[id], dto) {
        SiblingsAreSameNameRows(t, id, dto.name.value, t[id].parentId, userId);
      }
      if Moves(t[id], dto) && Truthy(dto.parentId.value) {
        LikeSelectsDescendants(t, id, dto.parentId.value.value);
      } else if Refusal(t, id, dto, userId).None? {
        KeyDecides(t, id, dto, userId);
      }
      if !Moves(t[id], dto) {
        KeepingParent(t, id, dto, userId);
      }
    }
  }

  /** A request that names the parent the folder has is not looked at as a move. */
  lemma KeepingParent(t: Table, id: Id, dto: UpdateDto, userId: string)
    requires TableInv(t) && id in t && !Moves(t[id], dto)
    ensures Refusal(t, id, dto, userId).None? ==> Update(t, id, dto, userId).1.Success?
  {
    if Refusal(t, id, dto, userId).None? {
      EditedAttaches(t, id, dto, userId);
      NoClashWithoutMove(t, id, dto, userId);
    }
  }

  /** What an accepted update writes. Without a move one row changes, and in it only the version, which
      goes up by one, and the fields that the request gives. With a move that row also hangs below the
      target, and of the other rows only paths and levels can change. The caller gets the row back. */
  lemma UpdateWritesExactly(t: Table, id: Id, dto: UpdateDto, userId: string)
    requires TableInv(t) && Update(t, id, dto, userId).1.Success?
    ensures id in t
    ensures var (t', r), f := Update(t, id, dto, userId), t[id];
            var g := f.(version := f.version + 1, name := if dto.name.Some? then dto.name.value else f.name,
                        description := if dto.description.Some? then dto.description.value else f.description,
                        sortOrder := if dto.sortOrder.Some? then dto.sortOrder.value else f.sortOrder);
            && t'.Keys == t.Keys && r.value == t'[id]
            && (dto.parentId.None? || dto.parentId.value == f.parentId ==> t' == t[id := g])
            && (dto.parentId.Some? && dto.parentId.value != f.parentId ==>
                  var p := Value(dto.parentId.value);
                  && (p.Some? ==> p.value in t)
                  && t'[id] == g.(parentId := p,
                                  path := if p.Some? then t[p.value].path + "/" + id else "root/" + id,
                                  level := if p.Some? then t[p.value].level + 1 else 0)
                  && forall j | j in t && j != id :: t'[j] == t[j].(path := t'[j].path, level := t'[j].level))
  {
    var g := Edited(t, t[id], dto);
    EditedAttaches(t, id, dto, userId);
    assert "root/" + id == "root" + "/" + id;
    if Moves(t[id], dto) {
      assert Update(t, id, dto, userId).0 == MoveTo(t, g);
      forall j | j in t ensures j != id ==> MoveTo(t, g)[j] == t[j].(path := MoveTo(t, g)[j].path,
                                                                     level := MoveTo(t, g)[j].level) {
        MoveToRow(t, g, j);
      }
      MoveToRow(t, g, id);
    }
  }

  lemma KeyDecides(t: Table, id: Id, dto: UpdateDto, userId: string)
    requires TableInv(t) && Refusal(t, id, dto, userId).None?
    ensures Update(t, id, dto, userId).1.Success? <==>
            !(Moves(t[id], dto) && Truthy(dto.parentId.value) &&
              UniqueClash(t, id, if dto.name.Some? then dto.name.value else t[id].name, Value(dto.parentId.value)))
  {
    var f, g := t[id], Edited(t, t[id], dto);
    EditedAttaches(t, id, dto, userId);
    if Moves(f, dto) {
      RewriteKeepsNames(t, f.path, g.path, g.level - f.level, id, g.name, g.parentId);
    } else {
      NoClashWithoutMove(t, id, dto, userId);
    }
  }

  /** A create goes through exactly if the parent exists and is not too deep, no sibling has the name
      and the id is new; it adds that one folder below that parent, at most at the limit, with the fields
      of the request and nothing in it yet. */
  lemma CreateAcceptedExactly(t: Table, newId: Id, dto: CreateDto, userId: string)
    requires TableInv(t)
    ensures var (t', r) := Create(t, newId, dto, userId);
            var parentId := Value(dto.parentId);
            && (r.Success? <==>
                  && newId !in t && (parentId.Some? ==> parentId.value in t && t[parentId.value].level < MAX_LEVEL)
                  && !SiblingNamed(t, newId, dto.name, parentId, userId))
            && (r.Failure? ==> t' == t)
            && (r.Failure? && newId !in t ==>
                  r.error == if parentId.Some? && parentId.value !in t then TargetNotFound
                             else if parentId.Some? && t[parentId.value].level >= 10 then DepthReached
                             else if SiblingNamed(t, newId, dto.name, parentId, userId) then DuplicateName
                             else UniqueViolation)
            && (r.Success? ==>
                  && t' == t[newId := r.value] && r.value.level <= 10
                  && r.value == Folder(newId, dto.name, parentId, userId, dto.description,
                                       (if parentId.Some? then t[parentId.value].path else "root") + "/" + newId,
                                       if parentId.Some? then t[parentId.value].level + 1 else 0,
                                       dto.sortOrder, 1, 0))
  {
    var parentId := Value(dto.parentId);
    assert "root/" + newId == "root" + "/" + newId;
    if newId !in t && (parentId.Some? ==> parentId.value in t) {
      SiblingsAreSameNameRows(t, newId, dto.name, parentId, userId);
      assert newId !in SameNameRows(t, dto.name, parentId, userId);
      assert SameNameRows(t, dto.name, parentId, userId) - {newId} == SameNameRows(t, dto.name, parentId, userId);
    }
  }

  lemma InsertKeepsInv(t: Table, f: Folder)
    requires TableInv(t) && ValidId(f.id) && f.id !in t && Attaches(t, f) && !UniqueClash(t, f.id, f.name, f.parentId)
    ensures TableInv(t[f.id := f])
  {
    assert "root/" + f.id == "root" + "/" + f.id;
    var u := t[f.id := f];
    forall j | j in u ensures RowAgrees(u, j) {
      assert j in t ==> RowAgrees(t, j);
    }
    forall i, j | i in u && j in u ensures DistinctNames(u, i, j) {
      assert i in t && j in t ==> DistinctNames(t, i, j);
    }
  }

  lemma CreateKeepsInv(t: Table, newId: Id, dto: CreateDto, userId: string)
    requires TableInv(t) && ValidId(newId)
    ensures TableInv(Create(t, newId, dto, userId).0)
  {
    var (t', r) := Create(t, newId, dto, userId);
    if r.Success? {
      assert "root/" + newId == "root" + "/" + newId;
      InsertKeepsInv(t, r.value);
    }
  }
}
