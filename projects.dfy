/** The server actions on projects (`src/app/actions/projects.ts`). */
module ProjectActions {
  import opened Wrappers
  import opened Text
  import opened Tables
  import opened Entities
  import opened Schema

  const MaxName: nat := 100
  const NameRequired := "Project name is required"
  const NameTooLong := "Project name must be less than 100 characters"
  const CreateLoginRequired := "You must be logged in to create a project"
  const CreateFailed := "Failed to create project. Please try again."
  const UpdateFailed := "Failed to update project. Please try again."
  const DeleteFailed := "Failed to delete project. Please try again."

  /** `createProjectSchema.parse({ name })`, shared by create and update. */
  function ValidateProjectName(name: string): (r: Result<string>)
    ensures r.Success? <==> 1 <= |name| <= MaxName
    ensures |name| == 0 ==> r == Failure(Message(NameRequired))
    ensures |name| > MaxName ==> r == Failure(Message(NameTooLong))
    ensures r.Success? ==> r.value == Trim(name) && |r.value| <= MaxName
  {
    BoundedText(name, MaxName, NameRequired, NameTooLong)
  }

  /** `createProject(name)`: validation, then the sign-in check, then the
      insert; the new row is owned by the signed-in user. It logs no
      activity. */
  method CreateProject(db: Database, user: Option<Id>, name: string, insertOk: bool, newId: Id, now: Time)
    returns (res: Result<Project>)
    modifies db`projects
    ensures ValidateProjectName(name).Failure? ==>
      res == Failure(ValidateProjectName(name).error) && db.projects == old(db.projects)
    ensures ValidateProjectName(name).Success? && user.None? ==>
      res == Failure(Message(CreateLoginRequired)) && db.projects == old(db.projects)
    ensures ValidateProjectName(name).Success? && user.Some? && !(insertOk && newId !in old(db.projects)) ==>
      res == Failure(Message(CreateFailed)) && db.projects == old(db.projects)
    ensures ValidateProjectName(name).Success? && user.Some? && insertOk && newId !in old(db.projects) ==>
      && res == Success(Project(newId, user.value, ValidateProjectName(name).value, now))
      && db.projects == old(db.projects)[newId := res.value]
  {
    var v := ValidateProjectName(name);
    if v.Failure? {
      return Failure(v.error);
    }
    if user.None? {
      return Failure(Message(CreateLoginRequired));
    }
    if !insertOk || newId in db.projects {
      return Failure(Message(CreateFailed));
    }
    var row := Project(newId, user.value, v.value, now);
    db.projects := db.projects[newId := row];
    res := Success(row);
  }

  /** `updateProject(id, name)`: the same schema, then a single-row update
      of the name alone. */
  method UpdateProject(db: Database, id: Id, name: string, writeOk: bool)
    returns (res: Result<Project>)
    modifies db`projects
    ensures ValidateProjectName(name).Failure? ==>
      res == Failure(ValidateProjectName(name).error) && db.projects == old(db.projects)
    ensures ValidateProjectName(name).Success? && !(writeOk && id in old(db.projects)) ==>
      res == Failure(Message(UpdateFailed)) && db.projects == old(db.projects)
    ensures ValidateProjectName(name).Success? && writeOk && id in old(db.projects) ==>
      && res == Success(old(db.projects)[id].(name := ValidateProjectName(name).value))
      && db.projects == old(db.projects)[id := res.value]
  {
    var v := ValidateProjectName(name);
    if v.Failure? {
      return Failure(v.error);
    }
    if !writeOk || id !in db.projects {
      return Failure(Message(UpdateFailed));
    }
    var row := db.projects[id].(name := v.value);
    db.projects := db.projects[id := row];
    res := Success(row);
  }

  /** `deleteProject(id)`: deleting an id that matches no row still succeeds. */
  method DeleteProject(db: Database, id: Id, deleteOk: bool) returns (res: Outcome)
    modifies db`projects
    ensures !deleteOk ==> res == Refused(Message(DeleteFailed)) && db.projects == old(db.projects)
    ensures deleteOk ==> res == Completed && db.projects == old(db.projects) - {id}
  {
    if !deleteOk {
      return Refused(Message(DeleteFailed));
    }
    db.projects := db.projects - {id};
    res := Completed;
  }

  predicate AnyProject(p: Project) {
    true
  }

  function NewestProjectFirst(p: Project): int {
    -p.createdAt
  }

  /** Every project, newest first. */
  ghost function ProjectsByNewest(projects: map<Id, Project>): (r: seq<Project>)
    ensures forall p :: p in r <==> p in projects.Values
    ensures |r| == |projects|
    ensures forall i, j :: 0 <= i < j < |r| ==> r[i].createdAt >= r[j].createdAt
  {
    var r := Query(projects, AnyProject, NewestProjectFirst);
    forall i, j | 0 <= i < j < |r| ensures r[i].createdAt >= r[j].createdAt {
      assert NewestProjectFirst(r[i]) <= NewestProjectFirst(r[j]);
    }
    r
  }

  /** `getProjects()`: `[]` when the query fails. */
  ghost function GetProjects(db: Database, readOk: bool): (r: seq<Project>)
    reads db
    ensures !readOk ==> r == []
    ensures readOk ==> r == ProjectsByNewest(db.projects)
  {
    if readOk then ProjectsByNewest(db.projects) else []
  }

  /** `getProjectById(id)`: `null` when no row matches or the query fails. */
  function GetProjectById(db: Database, id: Id, readOk: bool): (r: Option<Project>)
    reads db
    ensures r.Some? <==> readOk && id in db.projects
    ensures r.Some? ==> r.value == db.projects[id]
  {
    if readOk && id in db.projects then Some(db.projects[id]) else None
  }

  /** A created project is listed, one more than before; deleting it again
      restores the number listed. */
  lemma {:induction false} ListedAfterCreateAndDelete(projects: map<Id, Project>, p: Project)
    requires p.id !in projects
    ensures p in ProjectsByNewest(projects[p.id := p])
    ensures |ProjectsByNewest(projects[p.id := p])| == |projects| + 1
    ensures |ProjectsByNewest(projects[p.id := p] - {p.id})| == |projects|
  {
    var after := projects[p.id := p];
    assert p.id in after && after[p.id] == p;
    assert after - {p.id} == projects;
  }

  /** After a successful rename the row stored under the id, which
      `getProjectById` reads back, is the old row with the trimmed name: identity,
      owner and creation time are kept, and the listing holds the renamed
      row with no change in length. */
  lemma RenamedProjectListed(projects: map<Id, Project>, id: Id, name: string)
    requires id in projects && ValidateProjectName(name).Success?
    ensures var p := projects[id].(name := ValidateProjectName(name).value);
      && p.name == Trim(name) && |p.name| <= MaxName
      && p.id == projects[id].id && p.ownerId == projects[id].ownerId && p.createdAt == projects[id].createdAt
      && projects[id := p][id] == p
      && p in ProjectsByNewest(projects[id := p])
      && |ProjectsByNewest(projects[id := p])| == |projects|
  {
    var p := projects[id].(name := ValidateProjectName(name).value);
    var after := projects[id := p];
    assert id in after && after[id] == p;
  }
}
