/** The persistent entities, their enums, the request and response records and
    the errors the services throw. */
module Model {
  import opened Wrappers

  // Identity columns and clock readings.
  type UserId = nat
  type ProjectId = nat
  type IssueId = nat
  type MemberId = nat
  /** A reading of `LocalDateTime.now()`, abstracted to a monotone counter. */
  type Time = nat

  /** A member's permission tier on a project, stored by name. */
  datatype UserRole = OWNER | MAINTAINER | REPORTER {
    /** The escalating order of the tiers: OWNER > MAINTAINER > REPORTER. */
    function Rank(): nat {
      match this
      case OWNER => 3
      case MAINTAINER => 2
      case REPORTER => 1
    }
  }

  datatype IssueStatus = OPEN | IN_PROGRESS | CLOSED
  datatype IssuePriority = LOW | MEDIUM | HIGH | CRITICAL

  /** A row of the users table; `passwordHash` is what the password encoder produced. */
  datatype User = User(id: UserId, email: string, passwordHash: string, name: string)

  /** A row of the projects table. */
  datatype Project = Project(id: ProjectId, name: string, ownerId: UserId, createdAt: Time)

  /** A row of the project_members table. */
  datatype ProjectMember = ProjectMember(id: MemberId, projectId: ProjectId, userId: UserId,
                                         role: UserRole, createdAt: Time)

  /** A row of the issues table. `projectId`, `title`, `status` and `priority` are
      NOT NULL columns and so are plain values; the nullable ones are options. */
  datatype Issue = Issue(id: IssueId, projectId: ProjectId, title: string,
                         description: Option<string>, status: IssueStatus,
                         priority: IssuePriority, assigneeId: Option<UserId>,
                         tags: Option<seq<string>>, createdAt: Time, updatedAt: Time,
                         version: nat)

  /** The field initialisers of a freshly constructed issue entity. The identity,
      timestamps and version are null in Java until the store assigns them; here
      they hold 0 and are overwritten when the row is persisted. */
  function NewIssue(projectId: ProjectId, title: string): (i: Issue)
    ensures i.status == OPEN && i.priority == MEDIUM && i.tags == Some([])
    ensures i.projectId == projectId && i.title == title
    ensures i.description.None? && i.assigneeId.None?
  {
    Issue(0, projectId, title, None, OPEN, MEDIUM, None, Some([]), 0, 0, 0)
  }

  /** Bean Validation's `@NotBlank` on a string: after trimming the characters
      at or below U+0020 nothing is left. */
  predicate IsBlank(s: string) {
    forall i :: 0 <= i < |s| ==> s[i] <= ' '
  }

  /** The issue request body; every field is nullable in Java. */
  datatype IssueRequest = IssueRequest(projectId: Option<ProjectId>, title: Option<string>,
                                       description: Option<string>,
                                       status: Option<IssueStatus>,
                                       priority: Option<IssuePriority>,
                                       assigneeId: Option<UserId>,
                                       tags: Option<seq<string>>)
  {
    /** The request's validation constraints: `projectId` is required and
        `title` is not blank; every other field may be absent. */
    predicate Valid(): (b: bool)
      ensures b ==> projectId.Some? && title.Some? && |title.value| > 0
    {
      projectId.Some? && title.Some? && !IsBlank(title.value)
    }
  }

  /** The issue representation returned to clients and broadcast. */
  datatype IssueResponse = IssueResponse(id: IssueId, projectId: ProjectId,
                                         projectName: Option<string>, title: string,
                                         description: Option<string>,
                                         status: IssueStatus, priority: IssuePriority,
                                         assigneeId: Option<UserId>,
                                         assigneeName: Option<string>,
                                         tags: Option<seq<string>>, createdAt: Time,
                                         updatedAt: Time, version: nat)
  {
    /** The stored issue whose fields the response copies. */
    function Row(): Issue {
      Issue(id, projectId, title, description, status, priority, assigneeId, tags,
            createdAt, updatedAt, version)
    }
  }

  datatype ProjectResponse = ProjectResponse(id: ProjectId, name: string, ownerId: UserId,
                                             ownerName: Option<string>, createdAt: Time)

  datatype AuthResponse = AuthResponse(token: string, userId: UserId, email: string, name: string)

  /** What is pushed to the broadcaster: an enriched issue, or a deleted issue's id. */
  datatype Payload = IssuePayload(issue: IssueResponse) | DeletedIssue(issueId: IssueId)
  datatype Event = Event(topic: string, payload: Payload)

  /** The exceptions the services throw (`BadCredentials` is the authentication
      manager's, `Conflict` the store's optimistic-locking failure). */
  datatype Error =
    | ProjectNotFound | IssueNotFound | AccessDenied | OnlyOwnerCanUpdate
    | OnlyOwnerCanDelete | EmailAlreadyExists | UserNotFound | BadCredentials | Conflict

  /** The message of the exception each Error case stands for. The services
      throw the first seven texts themselves; the texts for BadCredentials and
      Conflict stand in for the messages of the library exceptions. */
  function Message(e: Error): string {
    match e
    case ProjectNotFound => "Project not found"
    case IssueNotFound => "Issue not found"
    case AccessDenied => "Access denied"
    case OnlyOwnerCanUpdate => "Only owner can update project"
    case OnlyOwnerCanDelete => "Only owner can delete project"
    case EmailAlreadyExists => "Email already exists"
    case UserNotFound => "User not found"
    case BadCredentials => "Bad credentials"
    case Conflict => "Row was updated or deleted by another transaction (or unsaved-value mapping was incorrect)"
  }

  /** Each Error case is the exception with that message: no two cases share
      one. */
  lemma MessageIdentifiesError(e1: Error, e2: Error)
    requires Message(e1) == Message(e2)
    ensures e1 == e2
  {
  }

  /** The table constraint on project_members: one row per (projectId, userId). */
  predicate UniqueMemberships(members: map<MemberId, ProjectMember>) {
    forall i, j ::
      (i in members && j in members && members[i].projectId == members[j].projectId &&
       members[i].userId == members[j].userId) ==> i == j
  }

  /** No two users share an email (signup refuses a registered one). */
  predicate UniqueEmails(users: map<UserId, User>) {
    forall i, j :: i in users && j in users && users[i].email == users[j].email ==> i == j
  }
}
