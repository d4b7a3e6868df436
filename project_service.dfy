/** Projects and the authorization policy over the membership table. */
module ProjectService {
  import opened Wrappers
  import opened Model
  import opened Repositories

  /** Membership row `m` is the one for (projectId, userId). */
  predicate IsRowOf(m: ProjectMember, projectId: ProjectId, userId: UserId) {
    m.projectId == projectId && m.userId == userId
  }

  /** `getUserRole`: the role on the caller's membership row for the project, or
      none when there is no row. The unique constraint makes the row, if any, unique. */
  function RoleOf(members: map<MemberId, ProjectMember>, projectId: ProjectId, userId: UserId)
    : (r: Option<UserRole>)
    requires UniqueMemberships(members)
    ensures r.Some? <==> exists id :: id in members && IsRowOf(members[id], projectId, userId)
    ensures forall id :: id in members && IsRowOf(members[id], projectId, userId) ==>
              r == Some(members[id].role)
  {
    if exists id :: id in members && IsRowOf(members[id], projectId, userId) then
      var id :| id in members && IsRowOf(members[id], projectId, userId);
      Some(members[id].role)
    else
      None
  }

  /** `hasAccess`: a membership row exists, whatever its role. */
  function HasAccess(members: map<MemberId, ProjectMember>, projectId: ProjectId, userId: UserId)
    : (b: bool)
    ensures UniqueMemberships(members) ==> (b <==> RoleOf(members, projectId, userId).Some?)
  {
    exists id :: id in members && IsRowOf(members[id], projectId, userId)
  }

  /** `isOwner`: the caller's row carries OWNER; no row means not an owner. */
  function IsOwner(members: map<MemberId, ProjectMember>, projectId: ProjectId, userId: UserId)
    : (b: bool)
    requires UniqueMemberships(members)
    ensures b <==> RoleOf(members, projectId, userId) == Some(OWNER)
    ensures b ==> HasAccess(members, projectId, userId)
  {
    match RoleOf(members, projectId, userId)
    case Some(role) => role == OWNER
    case None => false
  }

  /** A role, if any, at or above `tier` in the order OWNER > MAINTAINER > REPORTER. */
  predicate AtLeast(role: Option<UserRole>, tier: UserRole) {
    role.Some? && role.value.Rank() >= tier.Rank()
  }

  /** The membership checks are the bottom and top tiers of the role order. */
  lemma AccessTiers(members: map<MemberId, ProjectMember>, projectId: ProjectId, userId: UserId)
    requires UniqueMemberships(members)
    ensures HasAccess(members, projectId, userId) <==> AtLeast(RoleOf(members, projectId, userId), REPORTER)
    ensures IsOwner(members, projectId, userId) <==> AtLeast(RoleOf(members, projectId, userId), OWNER)
  {
  }

  /** `mapToResponse`: the project's columns and, when the owner's user row
      exists, the owner's name; a missing owner leaves the name out. */
  function ProjectResponseOf(users: map<UserId, User>, project: Project): (r: ProjectResponse)
    ensures r.id == project.id && r.name == project.name && r.ownerId == project.ownerId
    ensures r.createdAt == project.createdAt
    ensures r.ownerName.Some? <==> project.ownerId in users
    ensures r.ownerName.Some? ==> r.ownerName.value == users[project.ownerId].name
  {
    ProjectResponse(project.id, project.name, project.ownerId,
                    if project.ownerId in users then Some(users[project.ownerId].name) else None,
                    project.createdAt)
  }

  /** `createProject`: a project owned by the caller and, in the same
      transaction, the caller's OWNER membership; the caller is then the
      project's only member. */
  method CreateProject(db: Database, name: string, userId: UserId) returns (r: ProjectResponse)
    requires db.Valid()
    modifies db`projects, db`nextProjectId, db`members, db`nextMemberId, db`clock
    ensures db.Valid()
    ensures var pid, mid := old(db.nextProjectId), old(db.nextMemberId);
            && pid !in old(db.projects) && mid !in old(db.members)
            && db.projects == old(db.projects)[pid := Project(pid, name, userId, old(db.clock))]
            && db.members == old(db.members)[mid := ProjectMember(mid, pid, userId, OWNER, old(db.clock) + 1)]
            && RoleOf(db.members, pid, userId) == Some(OWNER)
            && (forall u :: u != userId ==> !HasAccess(db.members, pid, u))
            && r == ProjectResponseOf(db.users, db.projects[pid])
  {
    var project := db.InsertProject(name, userId);
    assert forall id :: id in db.members ==> db.members[id].projectId != project.id;
    var member := db.InsertMember(project.id, userId, OWNER);
    assert IsRowOf(db.members[member.id], project.id, userId);
    r := ProjectResponseOf(db.users, project);
  }

  /** `getUserProjects`: every existing project the caller has a membership row on. */
  function GetUserProjects(db: Database, userId: UserId): (r: set<ProjectResponse>)
    reads db
    requires db.Valid()
    ensures forall resp :: resp in r ==>
              && resp.id in db.projects && HasAccess(db.members, resp.id, userId)
              && resp == ProjectResponseOf(db.users, db.projects[resp.id])
    ensures forall p :: p in db.projects && HasAccess(db.members, p, userId) ==>
              ProjectResponseOf(db.users, db.projects[p]) in r
  {
    set id | id in db.members && db.members[id].userId == userId
                              && db.members[id].projectId in db.projects
      :: ProjectResponseOf(db.users, db.projects[db.members[id].projectId])
  }

  /** `getProject`: existence is checked first, so a missing project is "not
      found" for everyone; an existing one is denied exactly to non-members. */
  function GetProject(db: Database, projectId: ProjectId, userId: UserId)
    : (r: Result<ProjectResponse, Error>)
    reads db
    requires db.Valid()
    ensures projectId !in db.projects ==> r == Err(ProjectNotFound)
    ensures projectId in db.projects ==> (r.Ok? <==> HasAccess(db.members, projectId, userId))
    ensures projectId in db.projects && !HasAccess(db.members, projectId, userId) ==>
              r == Err(AccessDenied)
    ensures r.Ok? ==> r.value == ProjectResponseOf(db.users, db.projects[projectId])
  {
    if projectId !in db.projects then Err(ProjectNotFound)
    else if !HasAccess(db.members, projectId, userId) then Err(AccessDenied)
    else Ok(ProjectResponseOf(db.users, db.projects[projectId]))
  }

  /** `updateProject`: existence before ownership; only an OWNER renames, and
      only the name changes. */
  method UpdateProject(db: Database, projectId: ProjectId, name: string, userId: UserId)
    returns (r: Result<ProjectResponse, Error>)
    requires db.Valid()
    modifies db`projects
    ensures db.Valid()
    ensures projectId !in old(db.projects) ==> r == Err(ProjectNotFound)
    ensures projectId in old(db.projects) && !IsOwner(db.members, projectId, userId) ==>
              r == Err(OnlyOwnerCanUpdate)
    ensures r.Ok? <==> projectId in old(db.projects) && IsOwner(db.members, projectId, userId)
    ensures r.Err? ==> db.projects == old(db.projects)
    ensures r.Ok? ==> && db.projects == old(db.projects)[projectId := old(db.projects[projectId]).(name := name)]
                      && r.value == ProjectResponseOf(db.users, db.projects[projectId])
  {
    if projectId !in db.projects {
      return Err(ProjectNotFound);
    }
    var project := db.projects[projectId];
    if !IsOwner(db.members, projectId, userId) {
      return Err(OnlyOwnerCanUpdate);
    }
    project := project.(name := name);
    project := db.SaveProject(project);
    r := Ok(ProjectResponseOf(db.users, project));
  }

  /** `deleteProject`: only the caller's OWNER membership decides, with no
      existence check. A non-owner, and so a project id that was never
      created, gets "Only owner can delete project". An owner succeeds and
      the project row (and nothing else) is removed; since the OWNER row
      survives, deleting the already deleted project again succeeds as a
      no-op. */
  method DeleteProject(db: Database, projectId: ProjectId, userId: UserId) returns (r: Outcome<Error>)
    requires db.Valid()
    modifies db`projects
    ensures db.Valid()
    ensures r.Pass? <==> IsOwner(db.members, projectId, userId)
    ensures r.Fail? ==> r.error == OnlyOwnerCanDelete && db.projects == old(db.projects)
    ensures r.Pass? ==> db.projects == old(db.projects) - {projectId}
  {
    if !IsOwner(db.members, projectId, userId) {
      return Fail(OnlyOwnerCanDelete);
    }
    db.DeleteProjectRow(projectId);
    r := Pass;
  }
}
