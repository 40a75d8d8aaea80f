/** The feature entity, its repository and the update use case, one undisturbed call at a time. */
module Features {
  import opened Common
  import opened Outbox

  datatype FeatureError = NotFound | Conflict | InvalidGeometry

  datatype FeatureRow = FeatureRow(name: string, description: Option<string>, geometryType: string,
                                   geometry: Geometry, properties: string, tags: seq<string>, version: int,
                                   createdBy: string, updatedBy: string, isDeleted: bool)

  /** A client's update; fields left out are `None`. */
  datatype Patch = Patch(expectedVersion: int, name: Option<string>, description: Option<string>,
                         tags: Option<seq<string>>, properties: Option<string>, geometry: Option<Geometry>,
                         userId: string)

  function Or<T>(o: Option<T>, otherwise: T): T {
    if o.Some? then o.value else otherwise
  }

  /** The version after `base` that a patch asks for; `None` if its geometry has another type. */
  function Patched(base: FeatureRow, p: Patch): Option<FeatureRow> {
    if p.geometry.Some? && p.geometry.value.kind != base.geometryType then None
    else Some(base.(name := Or(p.name, base.name),
                    description := if p.description.Some? then p.description else base.description,
                    tags := Or(p.tags, base.tags), properties := Or(p.properties, base.properties),
                    geometry := Or(p.geometry, base.geometry), updatedBy := p.userId, version := base.version + 1))
  }

  function CreatedEvent(f: string, r: FeatureRow): Payload {
    FeatureCreated(f, Snapshot(r.geometry, r.properties, r.name), r.createdBy)
  }

  function UpdatedEvent(f: string, r: FeatureRow): Payload {
    FeatureUpdated(f, r.version, r.geometry, r.properties, r.updatedBy)
  }

  function DeletedEvent(f: string, r: FeatureRow, deletedBy: string): Payload {
    FeatureDeleted(f, r.version, deletedBy)
  }

  class Feature {
    const id: string
    var name: string
    var description: Option<string>
    const geometryType: string
    var geometry: Geometry
    var properties: string
    var tags: seq<string>
    var currentVersion: int
    const createdBy: string
    var updatedBy: string
    var isDeleted: bool

    ghost function Row(): FeatureRow
      reads this
    {
      FeatureRow(name, description, geometryType, geometry, properties, tags, currentVersion,
                 createdBy, updatedBy, isDeleted)
    }

    constructor Restore(id: string, row: FeatureRow)
      requires row.geometry.kind == row.geometryType
      ensures this.id == id && Row() == row
    {
      this.id := id;
      name, description := row.name, row.description;
      geometryType, geometry := row.geometryType, row.geometry;
      properties, tags, currentVersion := row.properties, row.tags, row.version;
      createdBy, updatedBy, isDeleted := row.createdBy, row.updatedBy, row.isDeleted;
    }

    method UpdateInfo(p: Patch)
      modifies this
      ensures Row() == old(Row()).(name := if p.name.Some? then p.name.value else old(name),
                                   description := if p.description.Some? then p.description else old(description),
                                   tags := if p.tags.Some? then p.tags.value else old(tags),
                                   properties := if p.properties.Some? then p.properties.value else old(properties),
                                   updatedBy := p.userId)
    {
      if p.name.Some? { name := p.name.value; }
      if p.description.Some? { description := p.description; }
      if p.tags.Some? { tags := p.tags.value; }
      if p.properties.Some? { properties := p.properties.value; }
      updatedBy := p.userId;
    }

    /** Assigns first and validates afterwards. */
    method UpdateGeometry(g: Geometry, userId: string) returns (valid: bool)
      modifies this
      ensures valid == (g.kind == geometryType)
      ensures valid ==> Row() == old(Row()).(geometry := g, updatedBy := userId)
    {
      geometry := g;
      if geometry.kind != geometryType {
        return false;
      }
      updatedBy := userId;
      valid := true;
    }

    method IncrementVersion()
      modifies this`currentVersion
      ensures currentVersion == old(currentVersion) + 1
    {
      currentVersion := currentVersion + 1;
    }
  }

  /** The declared type always matches the stored geometry. */
  predicate TypesMatch(rows: map<string, FeatureRow>) {
    forall f | f in rows :: rows[f].geometry.kind == rows[f].geometryType
  }

  class PrismaFeatureRepository {
    var features: map<string, FeatureRow>
    /** Events in the order of their outbox ids. */
    var outbox: seq<Payload>

    method FindById(id: string) returns (r: Option<Feature>)
      requires TypesMatch(features)
      ensures r.Some? <==> id in features && !features[id].isDeleted
      ensures r.Some? ==> fresh(r.value) && r.value.id == id && r.value.Row() == features[id]
    {
      if id in features && !features[id].isDeleted {
        var feature := new Feature.Restore(id, features[id]);
        return Some(feature);
      }
      r := None;
    }

    /** `newId` is drawn by the database; the entity has already validated the geometry. */
    method Create(row: FeatureRow, newId: string) returns (saved: FeatureRow)
      requires TypesMatch(features) && row.geometry.kind == row.geometryType
      modifies this
      ensures TypesMatch(features)
      ensures saved == row.(version := 1, updatedBy := row.createdBy, isDeleted := false)
      ensures features == old(features)[newId := saved]
      ensures outbox == old(outbox)
              + [FeatureCreated(newId, Snapshot(row.geometry, row.properties, row.name), row.createdBy)]
    {
      saved := row.(version := 1, updatedBy := row.createdBy, isDeleted := false);
      features := features[newId := saved];
      outbox := outbox + [CreatedEvent(newId, saved)];
    }

    /** UPDATE ... WHERE current_version = the entity's version - 1 AND is_deleted = FALSE */
    method Save(feature: Feature) returns (ok: bool)
      modifies this
      ensures ok == (feature.id in old(features) && !old(features)[feature.id].isDeleted
                     && old(features)[feature.id].version == feature.currentVersion - 1)
      ensures !ok ==> features == old(features) && outbox == old(outbox)
      ensures ok ==>
                var row := feature.Row().(geometryType := old(features)[feature.id].geometryType,
                                          createdBy := old(features)[feature.id].createdBy, isDeleted := false);
                && features == old(features)[feature.id := row]
                && outbox == old(outbox) + [FeatureUpdated(feature.id, feature.currentVersion, feature.geometry,
                                                           feature.properties, feature.updatedBy)]
    {
      var id := feature.id;
      ok := id in features && !features[id].isDeleted && features[id].version == feature.currentVersion - 1;
      if ok {
        var row := features[id].(version := feature.currentVersion, updatedBy := feature.updatedBy,
                                 name := feature.name, description := feature.description,
                                 properties := feature.properties, tags := feature.tags, geometry := feature.geometry);
        features := features[id := row];
        outbox := outbox + [UpdatedEvent(id, row)];
      }
    }

    method Delete(id: string, expectedVersion: int, deletedBy: string) returns (r: Result<(), FeatureError>)
      modifies this
      ensures r == if id !in old(features) || old(features)[id].isDeleted then Failure(NotFound)
                   else if old(features)[id].version != expectedVersion then Failure(Conflict) else Success(())
      ensures r.Failure? ==> features == old(features) && outbox == old(outbox)
      ensures r.Success? ==>
                features == old(features)[id := old(features)[id].(isDeleted := true, updatedBy := deletedBy)]
                             && outbox == old(outbox) + [FeatureDeleted(id, expectedVersion, deletedBy)]
    {
      if id !in features || features[id].isDeleted {
        return Failure(NotFound);
      }
      if features[id].version != expectedVersion {
        return Failure(Conflict);
      }
      outbox := outbox + [DeletedEvent(id, features[id], deletedBy)];
      features := features[id := features[id].(isDeleted := true, updatedBy := deletedBy)];
      r := Success(());
    }
  }

  class UpdateFeatureUseCase {
    const featureRepository: PrismaFeatureRepository

    constructor (featureRepository: PrismaFeatureRepository)
      ensures this.featureRepository == featureRepository
    {
      this.featureRepository := featureRepository;
    }

    /** Read, check the version, mutate the entity, save: undisturbed, the patch is applied to the
        stored row and announced. */
    method Execute(id: string, p: Patch) returns (r: Result<(), FeatureError>)
      requires TypesMatch(featureRepository.features)
      modifies featureRepository
      ensures TypesMatch(featureRepository.features)
      ensures var rows := old(featureRepository.features);
              r == if id !in rows || rows[id].isDeleted then Failure(NotFound)
                   else if rows[id].version != p.expectedVersion then Failure(Conflict)
                   else if p.geometry.Some? && p.geometry.value.kind != rows[id].geometryType
                   then Failure(InvalidGeometry) else Success(())
      ensures r.Failure? ==> featureRepository.features == old(featureRepository.features)
                             && featureRepository.outbox == old(featureRepository.outbox)
      ensures r.Success? ==>
                var row := old(featureRepository.features)[id];
                var next := row.(version := row.version + 1, updatedBy := p.userId,
                                 name := if p.name.Some? then p.name.value else row.name,
                                 description := if p.description.Some? then p.description else row.description,
                                 tags := if p.tags.Some? then p.tags.value else row.tags,
                                 properties := if p.properties.Some? then p.properties.value else row.properties,
                                 geometry := if p.geometry.Some? then p.geometry.value else row.geometry);
                && Patched(row, p) == Some(next)
                && featureRepository.features == old(featureRepository.features)[id := next]
                && featureRepository.outbox == old(featureRepository.outbox)
                   + [FeatureUpdated(id, row.version + 1, next.geometry, next.properties, p.userId)]
    {
      var found := featureRepository.FindById(id);
      if found.None? {
        return Failure(NotFound);
      }
      var feature := found.value;
      if feature.currentVersion != p.expectedVersion {
        return Failure(Conflict);
      }
      feature.UpdateInfo(p);
      if p.geometry.Some? {
        var valid := feature.UpdateGeometry(p.geometry.value, p.userId);
        if !valid {
          return Failure(InvalidGeometry);
        }
      }
      feature.IncrementVersion();
      var ok := featureRepository.Save(feature);
      r := if ok then Success(()) else Failure(Conflict);
    }
  }
}
