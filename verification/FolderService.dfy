/** The folder repository and the three use cases that write through it, statement by statement. */
module FolderService {
  import opened Common
  import opened Folders
  import opened FolderUpdates
  import opened FolderDeletes

  /** The order in which a query without ORDER BY returns its rows is any order. */
  method ListRows(ids: set<string>) returns (rows: seq<string>)
    ensures forall j :: j in rows <==> j in ids
    ensures forall a, b | 0 <= a < b < |rows| :: rows[a] != rows[b]
    ensures |rows| == |ids|
  {
    rows := [];
    var rest := ids;
    while rest != {}
      invariant forall a, b | 0 <= a < b < |rows| :: rows[a] != rows[b]
      invariant rest <= ids && |rows| + |rest| == |ids|
      invariant forall j :: j in rows <==> j in ids - rest
      decreases rest
    {
      var j :| j in rest;
      assert j !in rows;
      rows := rows + [j];
      rest := rest - {j};
    }
  }

  class FolderPrismaRepository {
    var folders: Table
    var features: FeatureTable
    var pinned: set<Id>

    ghost function State(): Store
      reads this
    {
      Store(folders, features, pinned)
    }

    method FindById(id: Id) returns (f: Option<Folder>)
      ensures f == if id in folders then Some(folders[id]) else None
    {
      if id in folders {
        return Some(folders[id]);
      }
      f := None;
    }

    method HasSubfolders(id: Id) returns (found: bool)
      ensures found == HasChildren(folders, id)
    {
      found := HasChildren(folders, id);
    }

    /** Looks the folder up again, then matches on its path. */
    method FindDescendantIds(id: Id) returns (ids: seq<Id>)
      ensures id in folders ==> Lists(ids, PathMatches(folders, folders[id].path))
      ensures id !in folders ==> ids == []
    {
      var folder := FindById(id);
      if folder.None? {
        return [];
      }
      ids := ListRows(PathMatches(folders, folder.value.path));
    }

    /** Returns the first of the matching rows, whichever the database lists first. */
    method FindByNameAndParent(name: string, parentId: Option<Id>, ownerId: string) returns (f: Option<Id>)
      ensures f.Some? ==> f.value in SameNameRows(folders, name, parentId, ownerId)
      ensures f.None? ==> SameNameRows(folders, name, parentId, ownerId) == {}
    {
      var rows := ListRows(SameNameRows(folders, name, parentId, ownerId));
      if |rows| > 0 {
        return Some(rows[0]);
      }
      f := None;
    }

    method Insert(f: Folder) returns (ok: bool)
      modifies this`folders
      ensures ok == !(f.id in old(folders) || UniqueClash(old(folders), f.id, f.name, f.parentId))
      ensures folders == if ok then old(folders)[f.id := f] else old(folders)
    {
      ok := !(f.id in folders || UniqueClash(folders, f.id, f.name, f.parentId));
      if ok {
        folders := folders[f.id := f];
      }
    }

    method UpdateFolder(f: Folder) returns (ok: bool)
      modifies this`folders
      ensures ok == !UniqueClash(old(folders), f.id, f.name, f.parentId)
      ensures folders == if ok then UpdateRow(old(folders), f) else old(folders)
    {
      ok := !UniqueClash(folders, f.id, f.name, f.parentId);
      if ok {
        folders := UpdateRow(folders, f);
      }
    }

    method UpdateSubtreePaths(oldPrefix: string, newPrefix: string, delta: int)
      modifies this`folders
      ensures folders == RewriteSubtree(old(folders), oldPrefix, newPrefix, delta)
    {
      folders := RewriteSubtree(folders, oldPrefix, newPrefix, delta);
    }

    method DeleteFolder(id: Id) returns (ok: bool)
      modifies this`folders
      ensures (State(), ok) == TryDelete(old(State()), id)
    {
      ok := !(id in folders && id in pinned);
      if ok {
        folders := DeleteRow(folders, id);
      }
    }

    method GetFeatureIdsInFolder(folderId: Id) returns (ids: seq<string>)
      ensures forall f :: f in ids <==> f in FeatureIdsIn(features, folderId)
      ensures |ids| == |FeatureIdsIn(features, folderId)|
    {
      ids := ListRows(FeatureIdsIn(features, folderId));
    }

    method RemoveFeatureFromFolder(featureId: string)
      modifies this`features
      ensures features == Detach(old(features), featureId)
    {
      features := Detach(features, featureId);
    }

    /** The loop over a folder's features: one UPDATE per id returned by the SELECT. */
    method RemoveAllFeatures(folderId: Id) returns (count: nat)
      modifies this`features
      ensures features == DetachFolder(old(features), folderId)
      ensures count == |FeatureIdsIn(old(features), folderId)|
    {
      var ids := GetFeatureIdsInFolder(folderId);
      count := |ids|;
      for n := 0 to |ids|
        invariant features == DetachAll(old(features), Elements(ids[..n]))
      {
        RemoveFeatureFromFolder(ids[n]);
        assert ids[..n + 1] == ids[..n] + [ids[n]];
        DetachNext(old(features), Elements(ids[..n]), ids[n]);
        assert Elements(ids[..n + 1]) == Elements(ids[..n]) + {ids[n]};
      }
      assert ids[..|ids|] == ids;
      assert Elements(ids) == FeatureIdsIn(old(features), folderId);
    }
  }

  lemma DetachNext(fs: FeatureTable, done: set<string>, f: string)
    ensures DetachAll(fs, done + {f}) == Detach(DetachAll(fs, done), f)
  {
  }

  class CreateFolderUseCase {
    const folderRepo: FolderPrismaRepository

    constructor (folderRepo: FolderPrismaRepository)
      ensures this.folderRepo == folderRepo
    {
      this.folderRepo := folderRepo;
    }

    method Execute(newId: Id, dto: CreateDto, userId: string) returns (r: Result<Folder, FolderError>)
      modifies folderRepo`folders
      ensures (folderRepo.folders, r) == Create(old(folderRepo.folders), newId, dto, userId)
    {
      var folder;
      if Truthy(dto.parentId) {
        var parentId := Uuid(dto.parentId.value);
        var parent := folderRepo.FindById(parentId);
        if parent.None? {
          return Failure(TargetNotFound);
        }
        if parent.value.level >= MAX_LEVEL {
          return Failure(DepthReached);
        }
        var existing := folderRepo.FindByNameAndParent(dto.name, Some(parentId), userId);
        if existing.Some? {
          return Failure(DuplicateName);
        }
        folder := CreateChild(newId, dto.name, parentId, parent.value.path, parent.value.level,
                              userId, dto.description, dto.sortOrder);
      } else {
        var existing := folderRepo.FindByNameAndParent(dto.name, None, userId);
        if existing.Some? {
          return Failure(DuplicateName);
        }
        folder := CreateRoot(newId, dto.name, userId, dto.description, dto.sortOrder);
      }
      var ok := folderRepo.Insert(folder);
      r := if ok then Success(folder) else Failure(UniqueViolation);
    }
  }

  class UpdateFolderUseCase {
    const folderRepo: FolderPrismaRepository

    constructor (folderRepo: FolderPrismaRepository)
      ensures this.folderRepo == folderRepo
    {
      this.folderRepo := folderRepo;
    }

    method Execute(id: Id, dto: UpdateDto, userId: string) returns (r: Result<Folder, FolderError>)
      modifies folderRepo`folders
      ensures (folderRepo.folders, r) == Update(old(folderRepo.folders), id, dto, userId)
    {
      var found := folderRepo.FindById(id);
      if found.None? {
        return Failure(FolderNotFound);
      }
      var folder := found.value;
      if folder.version != dto.version {
        return Failure(VersionConflict);
      }
      var updated := folder.WithIncrementedVersion();
      if dto.name.Some? && dto.name.value != folder.name {
        var existing := folderRepo.FindByNameAndParent(dto.name.value, folder.parentId, userId);
        if existing.Some? && existing.value != id {
          return Failure(DuplicateName);
        }
        updated := updated.WithName(dto.name.value);
      }
      if dto.parentId.Some? && dto.parentId.value != folder.parentId {
        var newParentId := dto.parentId.value;
        if Truthy(newParentId) {
          var descendants := folderRepo.FindDescendantIds(id);
          if newParentId.value in descendants {
            return Failure(IntoDescendant);
          }
          var newParent := folderRepo.FindById(Uuid(newParentId.value));
          if newParent.None? {
            return Failure(TargetNotFound);
          }
          if newParent.value.level >= MAX_LEVEL {
            return Failure(DepthReached);
          }
          var oldPath := updated.path;
          updated := updated.WithParent(Value(newParentId), Some(newParent.value.path), newParent.value.level);
          folderRepo.UpdateSubtreePaths(oldPath, updated.path, updated.level - folder.level);
        } else {
          var oldPath := updated.path;
          updated := updated.WithParent(None, None, 0);
          folderRepo.UpdateSubtreePaths(oldPath, updated.path, -folder.level);
        }
      }
      if dto.description.Some? {
        updated := updated.(description := dto.description.value);
      }
      if dto.sortOrder.Some? {
        updated := updated.(sortOrder := dto.sortOrder.value);
      }
      var ok := folderRepo.UpdateFolder(updated);
      r := if ok then Success(updated) else Failure(UniqueViolation);
    }
  }

  class DeleteFolderUseCase {
    const folderRepo: FolderPrismaRepository

    constructor (folderRepo: FolderPrismaRepository)
      ensures this.folderRepo == folderRepo
    {
      this.folderRepo := folderRepo;
    }

    /** `order` reports the order in which the descendants came back from the database. */
    method Execute(id: Id, recursive: bool) returns (r: Result<nat, FolderError>, ghost order: seq<Id>)
      modifies folderRepo`folders, folderRepo`features
      ensures id in old(folderRepo.folders) && recursive ==>
                Lists(order, PathMatches(old(folderRepo.folders), old(folderRepo.folders)[id].path))
      ensures (folderRepo.State(), r) == Delete(old(folderRepo.State()), id, recursive, order)
    {
      order := [];
      var folder := folderRepo.FindById(id);
      if folder.None? {
        return Failure(FolderNotFound), order;
      }
      var hasChildren := folderRepo.HasSubfolders(id);
      if hasChildren && !recursive {
        return Failure(HasSubfolders), order;
      }
      var count := folderRepo.RemoveAllFeatures(id);
      if recursive {
        var descendants := folderRepo.FindDescendantIds(id);
        order := descendants;
        ghost var start := folderRepo.State();
        for n := 0 to |descendants|
          invariant DeleteEach(start, descendants) == DeleteEach(folderRepo.State(), descendants[n..])
        {
          var _ := folderRepo.RemoveAllFeatures(descendants[n]);
          var deleted := folderRepo.DeleteFolder(descendants[n]);
          assert descendants[n..][1..] == descendants[n + 1..];
          if !deleted {
            return Failure(ForeignKeyViolation), order;
          }
        }
      }
      var ok := folderRepo.DeleteFolder(id);
      r := if ok then Success(count) else Failure(ForeignKeyViolation);
    }
  }
}
