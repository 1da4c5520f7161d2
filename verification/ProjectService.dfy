/** The project service as it runs: one request at a time over the tables (services/project_service.py). */
module ProjectService {
  import opened Prelude
  import opened Database
  import KeyCodec

  class ProjectDesk {
    var db: Db

    constructor (db: Db)
      ensures this.db == db
    {
      this.db := db;
    }

    /** `create_project`: keys are unique within the organization, and only owners and admins write. */
    method CreateProject(org: nat, role: string, payload: NewProject) returns (r: Result<nat, Error>)
      modifies this
      ensures (db, r) == Database.CreateProject(old(db), org, role, payload)
      ensures r.Ok? ==> r.value in db.projects && db.projects[r.value].org == org && CanWrite(role)
      ensures r.Err? ==> db == old(db)
    {
      if !CanWrite(role) {
        return Err(Forbidden);
      }
      if exists id :: id in db.projects && db.projects[id].org == org && db.projects[id].key == payload.key {
        return Err(Conflict);
      }
      if db.nextProject >= KeyCodec.ID_LIMIT || org >= KeyCodec.ID_LIMIT {
        return Err(DatabaseError);
      }
      var row := Project(org, payload.key, payload.name, payload.description, payload.primaryService, payload.repositoryUrl);
      r := Ok(db.nextProject);
      db := db.(projects := db.projects[db.nextProject := row], nextProject := db.nextProject + 1);
    }

    /** `update_project`: the attributes are set one by one; a null name fails the commit. */
    method UpdateProject(org: nat, role: string, id: nat, changes: seq<ProjectChange>) returns (r: Result<(), Error>)
      modifies this
      ensures (db, r) == Database.UpdateProject(old(db), org, role, id, changes)
      ensures r.Err? ==> db == old(db)
      ensures db.incidents == old(db).incidents
    {
      if !CanWrite(role) {
        return Err(Forbidden);
      }
      var found := GetProject(db, org, id);
      if found.Err? {
        return Err(found.error);
      }
      var row, name := found.value, Some(found.value.name);
      for i := 0 to |changes|
        invariant db == old(db)
        invariant (row, name) == SetProjectAttrs(found.value, Some(found.value.name), changes[..i])
      {
        assert changes[..i + 1][..i] == changes[..i];
        var (row', name') := SetProjectAttr(row, name, changes[i]);
        row, name := row', name';
      }
      assert changes[..|changes|] == changes;
      if name.None? {
        return Err(DatabaseError);
      }
      db := db.(projects := db.projects[id := row.(name := name.value)]);
      return Ok(());
    }
  }
}
