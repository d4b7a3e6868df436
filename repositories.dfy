/** The relational store: the four tables, the identity sequences, the clock
    that the entity lifecycle hooks read, and the broadcaster's log. Each method
    of `Database` is one repository call together with the hooks and the
    version handling the persistence layer runs around it. */
module Repositories {
  import opened Wrappers
  import opened Model

  /** The columns a client can set on an issue, as opposed to the ones the store
      manages (timestamps and version). */
  predicate SameContent(a: Issue, b: Issue) {
    && a.id == b.id && a.projectId == b.projectId && a.title == b.title
    && a.description == b.description && a.status == b.status && a.priority == b.priority
    && a.assigneeId == b.assigneeId && a.tags == b.tags
  }

  /** A stored issue row that respects the column constraints and the hooks:
      keyed by its own id, a non-blank title, and `updatedAt` never before `createdAt`. */
  predicate IssueRowValid(id: IssueId, row: Issue) {
    row.id == id && !IsBlank(row.title) && row.createdAt <= row.updatedAt
  }

  /** Saving an issue that was read earlier: the UPDATE is conditional on the
      version the row was read at (`@Version`); a row that changed or vanished
      since is a conflict. On success `@PreUpdate` stamps `updatedAt`, the
      version moves on by one and `createdAt` (not updatable) keeps its stored value. */
  function VersionedSave(issues: map<IssueId, Issue>, row: Issue, now: Time)
    : (r: Result<map<IssueId, Issue>, Error>)
    ensures r.Ok? <==> row.id in issues && issues[row.id].version == row.version
    ensures r.Err? ==> r.error == Conflict
    ensures r.Ok? ==> r.value.Keys == issues.Keys
    ensures r.Ok? ==> forall id :: id in issues && id != row.id ==> r.value[id] == issues[id]
    ensures r.Ok? ==> SameContent(r.value[row.id], row)
    ensures r.Ok? ==> r.value[row.id].version == issues[row.id].version + 1
    ensures r.Ok? ==> r.value[row.id].createdAt == issues[row.id].createdAt
    ensures r.Ok? ==> r.value[row.id].updatedAt == now
  {
    if row.id !in issues || issues[row.id].version != row.version then Err(Conflict)
    else
      var stored := issues[row.id];
      Ok(issues[row.id := row.(createdAt := stored.createdAt, updatedAt := now,
                               version := stored.version + 1)])
  }

  /** Two writers read the same issue at the same version; the first one's save
      succeeds, the second one's is refused, and the first one's content stays. */
  lemma LostUpdateRejected(issues: map<IssueId, Issue>, first: Issue, second: Issue,
                           t1: Time, t2: Time)
    requires first.id in issues && first.version == issues[first.id].version
    requires second.id == first.id && second.version == first.version
    ensures VersionedSave(issues, first, t1).Ok?
    ensures var after := VersionedSave(issues, first, t1).value;
            && VersionedSave(after, second, t2) == Err(Conflict)
            && SameContent(after[first.id], first)
  {
  }

  class Database {
    var users: map<UserId, User>
    var projects: map<ProjectId, Project>
    var members: map<MemberId, ProjectMember>
    var issues: map<IssueId, Issue>
    /** Every message pushed to the broadcaster, oldest first. */
    var events: seq<Event>
    // Identity sequences: the next id each table hands out; ids are never reused.
    var nextUserId: UserId
    var nextProjectId: ProjectId
    var nextMemberId: MemberId
    var nextIssueId: IssueId
    /** The next reading of the clock; every stored timestamp is before it. */
    var clock: Time

    ghost predicate Valid(): (b: bool)
      reads this
      ensures b ==> nextUserId !in users && nextProjectId !in projects
      ensures b ==> nextMemberId !in members && nextIssueId !in issues
    {
      && (forall id :: id in users ==> users[id].id == id && id < nextUserId)
      && UniqueEmails(users)
      && (forall id :: id in projects ==>
            projects[id].id == id && id < nextProjectId && projects[id].createdAt < clock)
      && (forall id :: id in members ==>
            members[id].id == id && id < nextMemberId && members[id].projectId < nextProjectId
            && members[id].createdAt < clock)
      && UniqueMemberships(members)
      && (forall id :: id in issues ==>
            IssueRowValid(id, issues[id]) && id < nextIssueId && issues[id].updatedAt < clock)
    }

    /** An empty store. */
    constructor ()
      ensures Valid()
      ensures users == map[] && projects == map[] && members == map[] && issues == map[]
      ensures events == []
    {
      users, projects, members, issues := map[], map[], map[], map[];
      events := [];
      nextUserId, nextProjectId, nextMemberId, nextIssueId := 1, 1, 1, 1;
      clock := 0;
    }

    /** `LocalDateTime.now()`: read the clock, which then moves on. */
    method Now() returns (t: Time)
      modifies this`clock
      ensures t == old(clock) && clock == t + 1
    {
      t := clock;
      clock := clock + 1;
    }

    /** `issueRepository.save` of a new issue: the store assigns the identity,
        `@PrePersist` stamps both timestamps and the version starts at 0. */
    method InsertIssue(draft: Issue) returns (saved: Issue)
      requires Valid() && !IsBlank(draft.title)
      modifies this`issues, this`nextIssueId, this`clock
      ensures Valid()
      ensures saved.id == old(nextIssueId) && saved.id !in old(issues)
      ensures SameContent(saved, draft.(id := saved.id))
      ensures saved.createdAt == saved.updatedAt == old(clock) && saved.version == 0
      ensures issues == old(issues)[saved.id := saved]
      ensures nextIssueId == old(nextIssueId) + 1 && clock == old(clock) + 1
    {
      var now := Now();
      saved := draft.(id := nextIssueId, createdAt := now, updatedAt := now, version := 0);
      issues := issues[saved.id := saved];
      nextIssueId := nextIssueId + 1;
    }

    /** The write of a changed issue when its transaction commits (the entity
        was read in the transaction, so `save` itself defers it): checked
        against the version that was read, with `@PreUpdate` run just before. */
    method UpdateIssueRow(row: Issue) returns (r: Result<Issue, Error>)
      requires Valid() && !IsBlank(row.title)
      modifies this`issues, this`clock
      ensures Valid()
      ensures var expected := VersionedSave(old(issues), row, old(clock));
              && (r.Ok? <==> expected.Ok?)
              && (r.Ok? ==> issues == expected.value && r.value == issues[row.id]
                            && clock == old(clock) + 1)
              && (r.Err? ==> r == Err(Conflict) && issues == old(issues) && clock == old(clock))
    {
      if row.id !in issues || issues[row.id].version != row.version {
        r := Err(Conflict);
        return;
      }
      var now := Now();
      var next := VersionedSave(issues, row, now);
      issues := next.value;
      r := Ok(issues[row.id]);
    }

    /** `issueRepository.deleteById`. */
    method DeleteIssueRow(id: IssueId)
      requires Valid()
      modifies this`issues
      ensures Valid()
      ensures issues == old(issues) - {id}
    {
      issues := issues - {id};
    }

    /** `projectRepository.save` of a new project: identity from the sequence,
        `@PrePersist` stamps `createdAt`. */
    method InsertProject(name: string, ownerId: UserId) returns (saved: Project)
      requires Valid()
      modifies this`projects, this`nextProjectId, this`clock
      ensures Valid()
      ensures saved == Project(old(nextProjectId), name, ownerId, old(clock))
      ensures saved.id !in old(projects)
      ensures projects == old(projects)[saved.id := saved]
      ensures nextProjectId == old(nextProjectId) + 1 && clock == old(clock) + 1
    {
      var now := Now();
      saved := Project(nextProjectId, name, ownerId, now);
      projects := projects[saved.id := saved];
      nextProjectId := nextProjectId + 1;
    }

    /** `projectRepository.save` of a project read earlier; `createdAt` is not
        updatable, so the stored value stays. */
    method SaveProject(p: Project) returns (saved: Project)
      requires Valid() && p.id in projects
      modifies this`projects
      ensures Valid()
      ensures saved == p.(createdAt := old(projects[p.id].createdAt))
      ensures projects == old(projects)[p.id := saved]
    {
      saved := p.(createdAt := projects[p.id].createdAt);
      projects := projects[p.id := saved];
    }

    /** `projectRepository.deleteById`: the project row only; an absent id is a no-op. */
    method DeleteProjectRow(id: ProjectId)
      requires Valid()
      modifies this`projects
      ensures Valid()
      ensures projects == old(projects) - {id}
    {
      projects := projects - {id};
    }

    /** `projectMemberRepository.save` of a new membership; the unique constraint
        on (projectId, userId) admits it only when no such row exists. */
    method InsertMember(projectId: ProjectId, userId: UserId, role: UserRole)
      returns (saved: ProjectMember)
      requires Valid() && projectId < nextProjectId
      requires forall id :: id in members ==>
                 !(members[id].projectId == projectId && members[id].userId == userId)
      modifies this`members, this`nextMemberId, this`clock
      ensures Valid()
      ensures saved == ProjectMember(old(nextMemberId), projectId, userId, role, old(clock))
      ensures saved.id !in old(members)
      ensures members == old(members)[saved.id := saved]
      ensures nextMemberId == old(nextMemberId) + 1 && clock == old(clock) + 1
    {
      var now := Now();
      saved := ProjectMember(nextMemberId, projectId, userId, role, now);
      members := members[saved.id := saved];
      nextMemberId := nextMemberId + 1;
    }

    /** `userRepository.save` of a new user; emails are unique. */
    method InsertUser(email: string, passwordHash: string, name: string) returns (saved: User)
      requires Valid()
      requires forall id :: id in users ==> users[id].email != email
      modifies this`users, this`nextUserId
      ensures Valid()
      ensures saved == User(old(nextUserId), email, passwordHash, name)
      ensures saved.id !in old(users)
      ensures users == old(users)[saved.id := saved]
      ensures nextUserId == old(nextUserId) + 1
    {
      saved := User(nextUserId, email, passwordHash, name);
      users := users[saved.id := saved];
      nextUserId := nextUserId + 1;
    }

    /** `messagingTemplate.convertAndSend(topic, payload)`. */
    method Publish(e: Event)
      modifies this`events
      ensures events == old(events) + [e]
    {
      events := events + [e];
    }
  }
}
