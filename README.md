# Issue tracker backend: access control and mutation model

A Dafny model of the service layer of a multi-tenant issue tracker. Users sign
up and log in; a user creates projects and becomes their OWNER member; members
create, read, update and delete the project's issues. The issue operations,
updateProject and deleteProject check the caller's membership row before
they change the store. Every successful
issue mutation pushes one message to a per-project broadcast topic.

The model has these parts:

- `Model` (model.dfy): the rows of the users, projects, project_members and
  issues tables; the role, status and priority enums; the issue request; the
  issue, project and auth responses; the errors the services throw. A Java
  `null` is `None`.
- `Repositories` (repositories.dfy): the class `Database`. It holds the four
  tables as maps, the identity sequences, an abstract clock and the log of
  broadcast events. Its methods are the repository calls the services make.
  Each one also does what the persistence layer does for that call. An insert
  assigns the id and runs the `@PrePersist` timestamp hook, and for an issue
  it also sets the version to 0; with identity-generated ids this happens at the `save` call itself.
  An update of an issue is the write the transaction makes at commit: it
  checks and increments `@Version` and runs the `@PreUpdate` hook.
  `IssueService.UpdateIssue` calls it after the response is built and sent,
  which is when the commit happens in the program. `Valid()` states the
  invariants the services and hooks maintain. Ids are keys and are never
  reused. There is one membership row per (project, user); this is the only
  one of them that is a table constraint. Emails are unique, issue titles are
  non-blank, and `createdAt <= updatedAt`, with every timestamp before the
  clock.
- `IssueRepository` (issue_repository.dfy): the issue search query as the
  predicate `Matches`, plus lemmas on filter soundness, completeness and
  narrowing, and on the case-insensitive substring search.
- `ProjectService` (project_service.dfy): the role lookup and the two access
  checks, and the project operations.
- `IssueService` (issue_service.dfy): the issue operations, response
  enrichment, broadcast topics and the partial-update rule.
- `AuthService` (auth_service.dfy): signup and login.
- `Scenarios` (scenarios.dfy): client methods that chain calls. One is the
  integration test's workflow: signup, project, issue, then the project's
  issue list. Another closes an issue and reads it again; that step is not
  in the test.

The repository calls are methods of the class `Database`. The service
operations that change the store are module-level methods that take the
`Database` as a parameter. Each of them names the fields it may change with
``modifies db`field``, so every other table is
unchanged by the frame. Read-only operations are functions that read the
database. In these places the model follows the code as written:

- `deleteProject` has no existence check; only the caller's OWNER row
  decides. A project id that was never created gives "Only owner can delete
  project", not "not found". A project that was deleted while its OWNER row
  survives is deleted again without error, as a no-op.
- `deleteProject` deletes only the project row; the service removes no
  membership or issue. In the model these rows stay. In the program, a
  foreign key from the issue's project column may make the delete fail at
  commit instead. That depends on the schema, which is not modelled (see
  "## Left out").
- An issue request carries no version. So within one sequential call
  `updateIssue` always saves against the version it just read, and it never
  reports a conflict. Its response and broadcast are built before the commit.
  So they carry the version and `updatedAt` that were read, not the
  incremented ones. The store's version check is modelled and proved on its
  own (`VersionedSave`, `LostUpdateRejected`).
- `login` reports "User not found" only when the authentication manager
  accepts an email that has no user row.

## Model

| member | source | states |
|---|---|---|
| `Model.NewIssue` | issue-tracker-deliverable/backend/src/main/java/com/issuetracker/model/Issue.java:32-44 | a freshly constructed issue is OPEN, MEDIUM, with an empty tag list and no description or assignee |
| `Model.IssueRequest.Valid` | backend/src/main/java/com/issuetracker/dto/IssueRequest.java:10-18 | a valid request has a project id and a non-empty (non-blank) title; the other fields are optional |
| `Model.MessageIdentifiesError` | issue-tracker-deliverable/backend/src/main/java/com/issuetracker/service/IssueService.java:40-44 | distinct errors carry distinct exception messages |
| `Repositories.VersionedSave` | issue-tracker-deliverable/backend/src/main/java/com/issuetracker/model/Issue.java:45-61 | an update saves only when the stored version equals the version read (else Conflict); it bumps the version by one, stamps updatedAt, keeps createdAt and the other rows |
| `Repositories.LostUpdateRejected` | issue-tracker-deliverable/backend/src/main/java/com/issuetracker/model/Issue.java:49-50 | of two writers that read the same version, the second save is refused and the first one's content stays |
| `Repositories.Database.Now` | issue-tracker-deliverable/backend/src/main/java/com/issuetracker/model/Issue.java:52-61 | a clock reading is the current clock, which then advances (monotone time for the hooks) |
| `Repositories.Database.InsertIssue` | issue-tracker-deliverable/backend/src/main/java/com/issuetracker/model/Issue.java:45-56 | persisting a new issue assigns a fresh id, sets createdAt = updatedAt = now and version 0, and adds just that row |
| `Repositories.Database.UpdateIssueRow` | issue-tracker-deliverable/backend/src/main/java/com/issuetracker/model/Issue.java:45-61 | the write at commit of an issue changed in the transaction is the versioned save; on conflict nothing changes |
| `Repositories.Database.DeleteIssueRow` | issue-tracker-deliverable/backend/src/main/java/com/issuetracker/service/IssueService.java:140 | deleteById removes exactly that issue |
| `Repositories.Database.InsertProject` | backend/src/main/java/com/issuetracker/model/Project.java:11-27 | the store assigns a fresh, never reused project id and sets createdAt at persist |
| `Repositories.Database.SaveProject` | issue-tracker-deliverable/backend/src/main/java/com/issuetracker/service/ProjectService.java:81-82 | saving a project keeps its stored createdAt (not updatable) |
| `Repositories.Database.DeleteProjectRow` | issue-tracker-deliverable/backend/src/main/java/com/issuetracker/service/ProjectService.java:93 | deleteById removes the project row only; an absent id changes nothing |
| `Repositories.Database.InsertMember` | issue-tracker-deliverable/backend/src/main/java/com/issuetracker/model/ProjectMember.java:8-31 | a new membership gets a fresh id and createdAt at persist, and keeps one row per (projectId, userId) |
| `Repositories.Database.InsertUser` | issue-tracker-deliverable/backend/src/main/java/com/issuetracker/service/AuthService.java:35-40 | a new user gets a fresh id and emails stay unique |
| `Repositories.Database.Publish` | issue-tracker-deliverable/backend/src/main/java/com/issuetracker/service/IssueService.java:61 | a broadcast appends exactly one event to the log |
| `Repositories.Database.Valid` | issue-tracker-deliverable/backend/src/main/java/com/issuetracker/model/ProjectMember.java:8-9 | the invariants the services and hooks maintain: ids are keys, one membership per project and user (the table's unique constraint), unique emails, non-blank titles, ordered timestamps; the next id of each table is unused |
| `IssueRepository.Lower` | issue-tracker-deliverable/backend/src/main/java/com/issuetracker/repository/IssueRepository.java:21 | LOWER keeps the length and lower-cases each character |
| `IssueRepository.Contains` | issue-tracker-deliverable/backend/src/main/java/com/issuetracker/repository/IssueRepository.java:21 | the LIKE '%text%' test: it holds whenever the text is a prefix, and only if the text is no longer than the title |
| `IssueRepository.LowerIdempotent` | issue-tracker-deliverable/backend/src/main/java/com/issuetracker/repository/IssueRepository.java:21 | lower-casing twice is lower-casing once |
| `IssueRepository.ContainsIffOccurs` | issue-tracker-deliverable/backend/src/main/java/com/issuetracker/repository/IssueRepository.java:21 | the LIKE '%text%' test holds iff the text occurs at some position of the title |
| `IssueRepository.EmptySearchMatchesAll` | issue-tracker-deliverable/backend/src/main/java/com/issuetracker/repository/IssueRepository.java:21 | an empty search text matches every title |
| `IssueRepository.Matches` | issue-tracker-deliverable/backend/src/main/java/com/issuetracker/repository/IssueRepository.java:16-21 | the WHERE clause for one issue: an assignee filter never matches an unassigned issue, and a search text longer than the title never matches |
| `IssueRepository.FindByFilters` | issue-tracker-deliverable/backend/src/main/java/com/issuetracker/repository/IssueRepository.java:16-29 | the result is exactly the stored issues that satisfy every supplied filter (sound and complete), all in the filtered project |
| `IssueRepository.NoFiltersKeepAll` | issue-tracker-deliverable/backend/src/main/java/com/issuetracker/repository/IssueRepository.java:16-21 | with every filter null, every issue is returned |
| `IssueRepository.NarrowingShrinks` | issue-tracker-deliverable/backend/src/main/java/com/issuetracker/repository/IssueRepository.java:16-21 | supplying more filters never enlarges the result |
| `IssueRepository.StatusFilterIsConjunct` | issue-tracker-deliverable/backend/src/main/java/com/issuetracker/repository/IssueRepository.java:18 | adding a status filter is AND with status equality |
| `IssueRepository.SearchIgnoresCase` | issue-tracker-deliverable/backend/src/main/java/com/issuetracker/repository/IssueRepository.java:21 | the search result does not depend on the case of the search text |
| `IssueRepository.SearchIsSubstring` | issue-tracker-deliverable/backend/src/main/java/com/issuetracker/repository/IssueRepository.java:21 | a search matches iff the lower-cased text occurs in the lower-cased title |
| `ProjectService.RoleOf` | issue-tracker-deliverable/backend/src/main/java/com/issuetracker/service/ProjectService.java:96-100 | the role is present iff the caller has a membership row on the project, and then it is that row's role |
| `ProjectService.HasAccess` | issue-tracker-deliverable/backend/src/main/java/com/issuetracker/service/ProjectService.java:102-104 | access holds iff a role is present |
| `ProjectService.IsOwner` | issue-tracker-deliverable/backend/src/main/java/com/issuetracker/service/ProjectService.java:106-110 | owner iff the role is OWNER; owners have access |
| `ProjectService.AccessTiers` | issue-tracker-deliverable/backend/src/main/java/com/issuetracker/service/ProjectService.java:96-110 | the access and owner checks are the REPORTER and OWNER thresholds of the role order |
| `ProjectService.ProjectResponseOf` | issue-tracker-deliverable/backend/src/main/java/com/issuetracker/service/ProjectService.java:112-123 | the response copies the project's columns; ownerName is present iff the owner's user row exists |
| `ProjectService.CreateProject` | issue-tracker-deliverable/backend/src/main/java/com/issuetracker/service/ProjectService.java:31-46 | inserts the project owned by the caller and one OWNER membership for it; the caller is its only member |
| `ProjectService.GetUserProjects` | issue-tracker-deliverable/backend/src/main/java/com/issuetracker/service/ProjectService.java:48-57 | returns exactly the existing projects the caller has a membership row on |
| `ProjectService.GetProject` | issue-tracker-deliverable/backend/src/main/java/com/issuetracker/service/ProjectService.java:59-69 | "Project not found" for a missing project whatever the membership; for an existing one, "Access denied" iff the caller is no member; otherwise the full project response, owner name included |
| `ProjectService.UpdateProject` | issue-tracker-deliverable/backend/src/main/java/com/issuetracker/service/ProjectService.java:72-85 | existence before ownership; only an OWNER renames, only the name changes; failures change nothing |
| `ProjectService.DeleteProject` | issue-tracker-deliverable/backend/src/main/java/com/issuetracker/service/ProjectService.java:88-94 | succeeds iff the caller is OWNER (even for a missing project); else "Only owner can delete project"; removes the project row only |
| `IssueService.NatToString` | issue-tracker-deliverable/backend/src/main/java/com/issuetracker/service/IssueService.java:61 | an id prints as decimal digits that read back as the id, with no leading zero except for zero itself |
| `IssueService.NatToStringInjective` | issue-tracker-deliverable/backend/src/main/java/com/issuetracker/service/IssueService.java:61 | distinct ids print differently |
| `IssueService.Topic` | issue-tracker-deliverable/backend/src/main/java/com/issuetracker/service/IssueService.java:61 | the issue topic is "/topic/projects/", the project id in decimal digits that read back as the id, then "/issues" |
| `IssueService.DeletedTopic` | issue-tracker-deliverable/backend/src/main/java/com/issuetracker/service/IssueService.java:143 | the deletion topic ends in "/deleted" and is no project's issue topic |
| `IssueService.TopicInjective` | issue-tracker-deliverable/backend/src/main/java/com/issuetracker/service/IssueService.java:61 | distinct projects have distinct issue topics |
| `IssueService.SaveAndDeleteTopicsDiffer` | issue-tracker-deliverable/backend/src/main/java/com/issuetracker/service/IssueService.java:143 | no issue topic equals an issue topic with "/deleted" appended |
| `IssueService.MayDelete` | issue-tracker-deliverable/backend/src/main/java/com/issuetracker/service/IssueService.java:134-138 | deleting is allowed iff the role is at least MAINTAINER (OWNER or MAINTAINER) |
| `IssueService.IssueResponseOf` | issue-tracker-deliverable/backend/src/main/java/com/issuetracker/service/IssueService.java:146-169 | the response carries every column of the issue; projectName iff the project exists, assigneeName iff there is an assignee whose user exists; never fails |
| `IssueService.IssueFromRequest` | issue-tracker-deliverable/backend/src/main/java/com/issuetracker/service/IssueService.java:47-54 | status defaults to OPEN and priority to MEDIUM; projectId, title, description, assignee and tags are copied verbatim |
| `IssueService.ApplyUpdate` | issue-tracker-deliverable/backend/src/main/java/com/issuetracker/service/IssueService.java:103-117 | title and description always overwritten; status, priority, assignee and tags only when supplied; id, project, timestamps and version untouched |
| `IssueService.SetFields` | issue-tracker-deliverable/backend/src/main/java/com/issuetracker/service/IssueService.java:103-117 | the setter calls on the entity that was read give exactly the partial update |
| `IssueService.ApplyUpdateIdempotent` | issue-tracker-deliverable/backend/src/main/java/com/issuetracker/service/IssueService.java:103-117 | applying the same update twice equals applying it once |
| `IssueService.AssigneeNeverCleared` | issue-tracker-deliverable/backend/src/main/java/com/issuetracker/service/IssueService.java:112-114 | an update cannot unassign an issue |
| `IssueService.GetIssue` | issue-tracker-deliverable/backend/src/main/java/com/issuetracker/service/IssueService.java:79-90 | "Issue not found" first; then "Access denied" iff no role on the issue's project; otherwise the full response of the stored row, project and assignee names included |
| `IssueService.GetIssues` | issue-tracker-deliverable/backend/src/main/java/com/issuetracker/service/IssueService.java:66-77 | "Access denied" iff no role on the project; otherwise exactly the full responses of the project's issues that match the filters, each enriched from the stored rows |
| `IssueService.CreateIssue` | issue-tracker-deliverable/backend/src/main/java/com/issuetracker/service/IssueService.java:37-64 | "Project not found" before "Access denied"; on success one new row built from the request with defaults, version 0, and exactly one event to the project topic; on failure nothing stored or sent |
| `IssueService.UpdateIssue` | issue-tracker-deliverable/backend/src/main/java/com/issuetracker/service/IssueService.java:93-127 | "Issue not found" before access; any role may update; the response and the one event carry the partially updated entity with the version and updatedAt that were read; the commit then stores it with version + 1, a new updatedAt, createdAt and project kept; on failure nothing changes |
| `IssueService.DeleteIssue` | issue-tracker-deliverable/backend/src/main/java/com/issuetracker/service/IssueService.java:130-144 | "Issue not found" first; only OWNER or MAINTAINER delete; one event with the id to the deletion topic; afterwards getIssue is "Issue not found" |
| `AuthService.FindByEmail` | issue-tracker-deliverable/backend/src/main/java/com/issuetracker/service/AuthService.java:52-53 | finds the user with that email, present iff one exists |
| `AuthService.ExistsByEmail` | issue-tracker-deliverable/backend/src/main/java/com/issuetracker/service/AuthService.java:31 | an email exists iff it is the email of some stored user |
| `AuthService.Signup` | issue-tracker-deliverable/backend/src/main/java/com/issuetracker/service/AuthService.java:30-45 | a registered email fails "Email already exists" and saves nothing; otherwise saves the encoded password and returns id, email, name and the token for (email, id) |
| `AuthService.Login` | issue-tracker-deliverable/backend/src/main/java/com/issuetracker/service/AuthService.java:47-58 | rejected credentials fail first, then "User not found"; on success the user's id, email, name and token |
| `AuthService.LoginChecksStoredHash` | issue-tracker-deliverable/backend/src/main/java/com/issuetracker/service/AuthService.java:48-50 | with a manager that checks the stored hash, login succeeds iff the password matches and never reports "User not found" |
| `Scenarios.SecondSignupRejected` | issue-tracker-deliverable/backend/src/main/java/com/issuetracker/service/AuthService.java:31-40 | a second signup with the same email always fails |
| `Scenarios.FullWorkflow` | backend/src/test/java/com/issuetracker/integration/IssueTrackerIntegrationTest.java:36-107 | signup, then a project with the requested name, then a HIGH issue that comes back OPEN with the requested title at version 0, and the project's issue list holds it |
| `Scenarios.SignupAndCreateProject` | backend/src/test/java/com/issuetracker/integration/IssueTrackerIntegrationTest.java:36-73 | on an empty store, signup then project creation gives a project with the requested name that the new user may access |
| `Scenarios.CloseThenRead` | issue-tracker-deliverable/backend/src/main/java/com/issuetracker/service/IssueService.java:93-127 | closing an issue that is not yet CLOSED returns CLOSED with the version that was read; a read after the commit shows CLOSED, the same title and the version + 1 |
| `Scenarios.DeletedProjectKeepsMembership` | issue-tracker-deliverable/backend/src/main/java/com/issuetracker/service/ProjectService.java:88-94 | for a project with no issues: after deletion the project is not found, yet listing its issues still succeeds (empty) and its owner can delete it again |

Properties that hold by the types rather than by a member:

- Stored issues never have a null projectId, title, status or priority, and
  memberships never have a null projectId, userId or role. These are
  non-optional fields of `Issue` and `ProjectMember`.
- A project's name and ownerId are never null, for the same reason.
- Roles come from the closed `UserRole` datatype.
- `IssueRequest` has no version field. An update therefore cannot be made
  conditional on a version the client supplies.

## Left out

- HTTP controllers, bearer-token parsing and Bean Validation wiring. The
  caller's user id is an input. Requests are assumed to have passed
  `@Valid`, hence `requires request.Valid()`.
- Paging and sorting. `GetIssues` and `GetUserProjects` return sets,
  because the order is decided by the library and is not specified.
- SQL `LIKE` wildcards: a `%` or `_` inside the search text is taken
  literally. `LOWER` maps only the letters A-Z; full Unicode case mapping is
  not modelled.
- Password hashing, JWT generation and the authentication manager are foreign
  code. They are function parameters (`encode`, `generateToken`,
  `authenticate`).
- Message transport. Only an append-only log of (topic, payload) is kept.
- `LocalDateTime.now()` is a counter. The two readings in the issue's
  `@PrePersist` hook are one reading.
- Transactions and real concurrency. Each service call is atomic here.
  Concurrent updates appear only as the store-level `VersionedSave` lemmas.
- Foreign keys and cascades. None of the issue-to-project, issue-to-assignee
  or project-to-owner references is enforced, and no dependent row is deleted
  with its project. In the program, with a generated schema, createIssue
  would fail at its insert when the assignee names no user. updateIssue would
  fail at commit, after its event was sent. In the model both succeed.
- IssueService.UpdateIssue: every successful save increments the version and
  stamps updatedAt. Hibernate skips the UPDATE, and with it both of these,
  when no column actually changed.
- Scenarios.DeletedProjectKeepsMembership: it requires a project with no
  issues. With issues, the program's delete would fail at commit on the
  issue's project foreign key, which the model does not enforce (see the
  foreign-key line above).
- Scenarios.CloseThenRead: it requires an issue that is not yet CLOSED. For
  that issue the update changes a column, so the program writes it too. An
  issue that is already CLOSED falls under the UpdateIssue line above.
- Repositories.Database.InsertMember: the (projectId, userId) unique
  constraint is a precondition, not a modelled constraint-violation error. No
  service can violate it.
- Repositories.Database.InsertUser: email uniqueness is a precondition for the
  same reason. signup checks it first.
- Ids and versions are unbounded; 64-bit `Long` overflow is not modelled.
- Entities are values in the tables, not managed objects changed through
  setters. Persistence-context aliasing is therefore not captured.
- The null tag list that `createIssue` may store is kept as `None`. The
  empty list it would read back as in a later session is not modelled.
- User.java is not part of this model. The user row's fields are those that
  AuthService reads and writes.
- The Java enum classes are not part of this model. Status and priority
  values follow frontend/src/app/models/models.ts:39-40; roles are OWNER,
  MAINTAINER and REPORTER.
- The project request's `@NotBlank` name is not enforced. Project names are
  any string.
