/** The `versioning.versions` table: recording versions from events, and reverting a feature. */
module Versions {
  import opened Common
  import opened Outbox
  import opened Features

  datatype ChangeType = Created | Updated | Deleted | Reverted

  datatype VersionRow = VersionRow(changeType: ChangeType, snapshot: Snapshot, authorId: string)

  /** Keyed by the unique pair (feature id, version number). */
  type Versions = map<(string, int), VersionRow>

  /** One handler's INSERT: `None` when it throws. The update handler reads `versionNumber` and
      `name`, which the payload does not carry, so it inserts NULL into NOT NULL columns. */
  function Record(vs: Versions, p: Payload): Option<Versions> {
    match p
    case FeatureCreated(f, snapshot, author) =>
      if (f, 1) in vs then None else Some(vs[(f, 1) := VersionRow(Created, snapshot, author)])
    case FeatureUpdated(_, _, _, _, _) => None
    case FeatureDeleted(f, last, author) =>
      if (f, last) !in vs then Some(vs)
      else if (f, last + 1) in vs then None
      else Some(vs[(f, last + 1) := VersionRow(Deleted, vs[(f, last)].snapshot, author)])
  }

  class CreateVersionUseCase {
    var versions: Versions

    constructor ()
      ensures versions == map[]
    {
      versions := map[];
    }

    method CreateInitialVersion(featureId: string, snapshot: Snapshot, authorId: string) returns (ok: bool)
      modifies this
      ensures var r := Record(old(versions), FeatureCreated(featureId, snapshot, authorId));
              ok == r.Some? && versions == if ok then r.value else old(versions)
      ensures ok == ((featureId, 1) !in old(versions))
      ensures ok ==> versions == old(versions)[(featureId, 1) := VersionRow(Created, snapshot, authorId)]
    {
      ok := (featureId, 1) !in versions;
      if ok {
        versions := versions[(featureId, 1) := VersionRow(Created, snapshot, authorId)];
      }
    }

    /** Either missing argument violates a NOT NULL column. */
    method CreateVersionSnapshot(featureId: string, versionNumber: Option<int>, geometry: Geometry,
                                 properties: string, name: Option<string>, authorId: string) returns (ok: bool)
      modifies this
      ensures ok == (versionNumber.Some? && name.Some? && (featureId, versionNumber.value) !in old(versions))
      ensures versions == if ok then old(versions)[(featureId, versionNumber.value) :=
                                       VersionRow(Updated, Snapshot(geometry, properties, name.value), authorId)]
                          else old(versions)
    {
      if versionNumber.None? || name.None? {
        return false;
      }
      var key := (featureId, versionNumber.value);
      if key in versions {
        return false;
      }
      versions := versions[key := VersionRow(Updated, Snapshot(geometry, properties, name.value), authorId)];
      ok := true;
    }

    method CreateDeletionVersion(featureId: string, lastVersion: int, authorId: string) returns (ok: bool)
      modifies this
      ensures var r := Record(old(versions), FeatureDeleted(featureId, lastVersion, authorId));
              ok == r.Some? && versions == if ok then r.value else old(versions)
      ensures (featureId, lastVersion) !in old(versions) ==> ok && versions == old(versions)
      ensures (featureId, lastVersion) in old(versions) ==>
                && ok == ((featureId, lastVersion + 1) !in old(versions))
                && (ok ==> versions == old(versions)[(featureId, lastVersion + 1) :=
                             VersionRow(Deleted, old(versions)[(featureId, lastVersion)].snapshot, authorId)])
    {
      if (featureId, lastVersion) !in versions {
        return true;
      }
      ok := (featureId, lastVersion + 1) !in versions;
      if ok {
        versions := versions[(featureId, lastVersion + 1) :=
                      VersionRow(Deleted, versions[(featureId, lastVersion)].snapshot, authorId)];
      }
    }
  }

  // ---- revert ----

  /** The revert transaction: update the feature, then copy the target version under the new number.
      `None` when the unique key is taken and everything is rolled back. Neither the version nor the
      deletion mark of the feature is looked at. */
  function RevertTx(rows: map<string, FeatureRow>, vs: Versions, f: string, target: int, read: Snapshot,
                    newNumber: int, userId: string): Option<(map<string, FeatureRow>, Versions)>
    requires (f, target) in vs
  {
    if (f, newNumber) in vs then None
    else
      Some((if f in rows
            then rows[f := rows[f].(geometry := vs[(f, target)].snapshot.geometry, name := read.name,
                                    properties := read.properties, version := newNumber, updatedBy := userId)]
            else rows,
            vs[(f, newNumber) := VersionRow(Reverted, vs[(f, target)].snapshot, userId)]))
  }

  datatype RevertError = VersionNotFound | FeatureNotFound | VersionTaken

  class PrismaFeatureVersionRepository {
    var features: map<string, FeatureRow>
    var versions: Versions

    method GetVersion(f: string, number: int) returns (v: Option<VersionRow>)
      ensures v == if (f, number) in versions then Some(versions[(f, number)]) else None
    {
      v := if (f, number) in versions then Some(versions[(f, number)]) else None;
    }

    method ExecuteRevertTransaction(f: string, target: int, read: Snapshot, newNumber: int, userId: string)
      returns (ok: bool)
      requires (f, target) in versions
      modifies this
      ensures var r := RevertTx(old(features), old(versions), f, target, read, newNumber, userId);
              ok == r.Some? && (features, versions) == if ok then r.value else (old(features), old(versions))
    {
      var before := features;
      if f in features {
        features := features[f := features[f].(
                      geometry := versions[(f, target)].snapshot.geometry, name := read.name,
                      properties := read.properties, version := newNumber, updatedBy := userId)];
      }
      if (f, newNumber) in versions {
        features := before;
        return false;
      }
      versions := versions[(f, newNumber) := VersionRow(Reverted, versions[(f, target)].snapshot, userId)];
      ok := true;
    }
  }

  class RevertFeatureUseCase {
    const versionRepository: PrismaFeatureVersionRepository

    constructor (versionRepository: PrismaFeatureVersionRepository)
      ensures this.versionRepository == versionRepository
    {
      this.versionRepository := versionRepository;
    }

    /** Undisturbed, a revert puts the target snapshot into the feature and into one new version
        numbered one above the feature's, and touches nothing else. */
    method Execute(f: string, toVersion: int, userId: string) returns (r: Result<int, RevertError>)
      modifies versionRepository
      ensures var rows, vs := old(versionRepository.features), old(versionRepository.versions);
              r == if (f, toVersion) !in vs then Failure(VersionNotFound)
                   else if f !in rows || rows[f].isDeleted then Failure(FeatureNotFound)
                   else if (f, rows[f].version + 1) in vs then Failure(VersionTaken)
                   else Success(rows[f].version + 1)
      ensures r.Failure? ==> versionRepository.features == old(versionRepository.features)
                             && versionRepository.versions == old(versionRepository.versions)
      ensures r.Success? ==>
                var rows, vs := old(versionRepository.features), old(versionRepository.versions);
                var snapshot := vs[(f, toVersion)].snapshot;
                && versionRepository.features ==
                     rows[f := rows[f].(geometry := snapshot.geometry, name := snapshot.name,
                                        properties := snapshot.properties, version := r.value, updatedBy := userId)]
                && versionRepository.versions == vs[(f, r.value) := VersionRow(Reverted, snapshot, userId)]
    {
      var target := versionRepository.GetVersion(f, toVersion);
      if target.None? {
        return Failure(VersionNotFound);
      }
      if f !in versionRepository.features || versionRepository.features[f].isDeleted {
        return Failure(FeatureNotFound);
      }
      var newNumber := versionRepository.features[f].version + 1;
      var ok := versionRepository.ExecuteRevertTransaction(f, toVersion, target.value.snapshot, newNumber, userId);
      r := if ok then Success(newNumber) else Failure(VersionTaken);
    }
  }
}
