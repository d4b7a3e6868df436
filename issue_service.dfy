/** Issue create, read, update and delete, each gated by the caller's role on
    the issue's project, and the broadcast that follows every mutation. */
module IssueService {
  import opened Wrappers
  import opened Model
  import opened Repositories
  import opened IssueRepository
  import opened ProjectService

  function Digit(d: nat): char
    requires d < 10
  {
    ('0' as int + d) as char
  }

  predicate IsDigits(s: string) {
    forall i :: 0 <= i < |s| ==> '0' <= s[i] <= '9'
  }

  /** The number a string of decimal digits denotes, most significant first. */
  function DigitsValue(s: string): nat
    requires IsDigits(s)
  {
    if s == [] then 0 else DigitsValue(s[..|s| - 1]) * 10 + (s[|s| - 1] as int - '0' as int)
  }

  /** `Long.toString` of a non-negative id: decimal digits that read back as
      the id, with a leading zero only for zero itself. */
  function NatToString(n: nat): (s: string)
    ensures |s| >= 1 && IsDigits(s)
    ensures DigitsValue(s) == n
    ensures s[0] == '0' <==> n == 0
    ensures n >= 10 ==> |s| >= 2
    decreases n
  {
    if n < 10 then [Digit(n)]
    else
      var s := NatToString(n / 10) + [Digit(n % 10)];
      assert s[..|s| - 1] == NatToString(n / 10);
      s
  }

  /** Distinct ids print differently. */
  lemma NatToStringInjective(a: nat, b: nat)
    requires NatToString(a) == NatToString(b)
    ensures a == b
  {
  }

  /** The topic the project's issue saves are broadcast on: the fixed prefix,
      the project id in decimal, and the "/issues" suffix. */
  function Topic(projectId: ProjectId): (t: string)
    ensures |t| > 23 && t[..16] == "/topic/projects/" && t[|t| - 7..] == "/issues"
    ensures IsDigits(t[16..|t| - 7]) && DigitsValue(t[16..|t| - 7]) == projectId
  {
    var t := "/topic/projects/" + NatToString(projectId) + "/issues";
    assert t[16..|t| - 7] == NatToString(projectId);
    t
  }

  /** The topic the project's issue deletions are broadcast on: the issue topic
      with "/deleted" appended, which is no project's issue topic. */
  function DeletedTopic(projectId: ProjectId): (t: string)
    ensures |t| > 8 && t[|t| - 8..] == "/deleted"
    ensures forall q :: t != Topic(q)
  {
    var t := Topic(projectId) + "/deleted";
    assert forall q :: t != Topic(q) by {
      forall q ensures t != Topic(q) {
        SaveAndDeleteTopicsDiffer(q, projectId);
      }
    }
    t
  }

  /** A subscriber to one project's topic hears no other project's issues. */
  lemma TopicInjective(p: ProjectId, q: ProjectId)
    requires Topic(p) == Topic(q)
    ensures p == q
  {
  }

  /** Save events and deletion events never share a topic. */
  lemma SaveAndDeleteTopicsDiffer(p: ProjectId, q: ProjectId)
    ensures Topic(p) != Topic(q) + "/deleted"
  {
    var tp, tq := Topic(p), Topic(q) + "/deleted";
    assert tp[|tp| - 1] == tp[|tp| - 7..][6] == 's';
    assert tq[|tq| - 1] == 'd';
  }

  /** The check `deleteIssue` makes inline: the role is OWNER or MAINTAINER. */
  function MayDelete(role: Option<UserRole>): (b: bool)
    ensures b <==> AtLeast(role, MAINTAINER)
    ensures b ==> role.Some?
  {
    role == Some(OWNER) || role == Some(MAINTAINER)
  }

  /** `mapToResponse`: every column of the issue, plus the project's name when
      the project row exists and the assignee's name when there is an assignee
      whose user row exists. A missing row leaves the name out. */
  function IssueResponseOf(projects: map<ProjectId, Project>, users: map<UserId, User>, issue: Issue)
    : (r: IssueResponse)
    ensures r.Row() == issue
    ensures r.projectName.Some? <==> issue.projectId in projects
    ensures r.projectName.Some? ==> r.projectName.value == projects[issue.projectId].name
    ensures r.assigneeName.Some? <==> issue.assigneeId.Some? && issue.assigneeId.value in users
    ensures r.assigneeName.Some? ==> r.assigneeName.value == users[issue.assigneeId.value].name
  {
    IssueResponse(issue.id, issue.projectId,
                  if issue.projectId in projects then Some(projects[issue.projectId].name) else None,
                  issue.title, issue.description, issue.status, issue.priority, issue.assigneeId,
                  if issue.assigneeId.Some? && issue.assigneeId.value in users
                  then Some(users[issue.assigneeId.value].name) else None,
                  issue.tags, issue.createdAt, issue.updatedAt, issue.version)
  }

  /** The issue `createIssue` builds from a request: status and priority fall
      back to OPEN and MEDIUM, everything else is copied as it came (tags and
      description even when absent). */
  function IssueFromRequest(request: IssueRequest): (i: Issue)
    requires request.Valid()
    ensures i.projectId == request.projectId.value && i.title == request.title.value
    ensures i.description == request.description
    ensures request.status.None? ==> i.status == OPEN
    ensures request.status.Some? ==> i.status == request.status.value
    ensures request.priority.None? ==> i.priority == MEDIUM
    ensures request.priority.Some? ==> i.priority == request.priority.value
    ensures i.assigneeId == request.assigneeId && i.tags == request.tags
  {
    NewIssue(request.projectId.value, request.title.value).(
      description := request.description,
      status := request.status.GetOr(OPEN),
      priority := request.priority.GetOr(MEDIUM),
      assigneeId := request.assigneeId,
      tags := request.tags)
  }

  /** The partial update `updateIssue` applies: title and description are
      always overwritten (description even to absent); status, priority,
      assignee and tags only when the request supplies them. */
  function ApplyUpdate(issue: Issue, request: IssueRequest): (r: Issue)
    requires request.Valid()
    ensures r.title == request.title.value && r.description == request.description
    ensures r.status == (if request.status.Some? then request.status.value else issue.status)
    ensures r.priority == (if request.priority.Some? then request.priority.value else issue.priority)
    ensures r.assigneeId == (if request.assigneeId.Some? then request.assigneeId else issue.assigneeId)
    ensures r.tags == (if request.tags.Some? then request.tags else issue.tags)
    ensures r.id == issue.id && r.projectId == issue.projectId
    ensures r.createdAt == issue.createdAt && r.updatedAt == issue.updatedAt && r.version == issue.version
  {
    issue.(title := request.title.value,
           description := request.description,
           status := request.status.GetOr(issue.status),
           priority := request.priority.GetOr(issue.priority),
           assigneeId := if request.assigneeId.Some? then request.assigneeId else issue.assigneeId,
           tags := if request.tags.Some? then request.tags else issue.tags)
  }

  /** Applying the same request twice changes nothing the first time did not. */
  lemma ApplyUpdateIdempotent(issue: Issue, request: IssueRequest)
    requires request.Valid()
    ensures ApplyUpdate(ApplyUpdate(issue, request), request) == ApplyUpdate(issue, request)
  {
  }

  /** An update can set an assignee but never clear one. */
  lemma AssigneeNeverCleared(issue: Issue, request: IssueRequest)
    requires request.Valid() && issue.assigneeId.Some?
    ensures ApplyUpdate(issue, request).assigneeId.Some?
  {
  }

  /** `getIssue`: existence first, then any role on the issue's project. */
  function GetIssue(db: Database, issueId: IssueId, userId: UserId): (r: Result<IssueResponse, Error>)
    reads db
    requires db.Valid()
    ensures issueId !in db.issues ==> r == Err(IssueNotFound)
    ensures issueId in db.issues ==>
              (r.Ok? <==> HasAccess(db.members, db.issues[issueId].projectId, userId))
    ensures issueId in db.issues && !HasAccess(db.members, db.issues[issueId].projectId, userId) ==>
              r == Err(AccessDenied)
    ensures r.Ok? ==> r.value == IssueResponseOf(db.projects, db.users, db.issues[issueId])
  {
    if issueId !in db.issues then Err(IssueNotFound)
    else
      var issue := db.issues[issueId];
      if RoleOf(db.members, issue.projectId, userId).None? then Err(AccessDenied)
      else Ok(IssueResponseOf(db.projects, db.users, issue))
  }

  /** The filters `getIssues` passes to the search query; the project is always given. */
  function IssueFilters(projectId: ProjectId, status: Option<IssueStatus>,
                        priority: Option<IssuePriority>, assigneeId: Option<UserId>,
                        searchText: Option<string>): Filters
  {
    Filters(Some(projectId), status, priority, assigneeId, searchText)
  }

  /** `getIssues` without paging or sorting: any role on the project, then every
      issue of that project the filters keep. */
  function GetIssues(db: Database, projectId: ProjectId, status: Option<IssueStatus>,
                     priority: Option<IssuePriority>, assigneeId: Option<UserId>,
                     searchText: Option<string>, userId: UserId)
    : (r: Result<set<IssueResponse>, Error>)
    reads db
    requires db.Valid()
    ensures r.Err? <==> !HasAccess(db.members, projectId, userId)
    ensures r.Err? ==> r.error == AccessDenied
    ensures r.Ok? ==> forall resp :: resp in r.value ==>
              && resp.projectId == projectId && resp.id in db.issues
              && resp == IssueResponseOf(db.projects, db.users, db.issues[resp.id])
              && Matches(resp.Row(), IssueFilters(projectId, status, priority, assigneeId, searchText))
    ensures r.Ok? ==> forall id ::
              (id in db.issues &&
               Matches(db.issues[id], IssueFilters(projectId, status, priority, assigneeId, searchText)))
              ==> IssueResponseOf(db.projects, db.users, db.issues[id]) in r.value
  {
    if RoleOf(db.members, projectId, userId).None? then Err(AccessDenied)
    else
      var found := FindByFilters(db.issues, IssueFilters(projectId, status, priority, assigneeId, searchText));
      Ok(set id | id in found :: IssueResponseOf(db.projects, db.users, found[id]))
  }

  /** `createIssue`: the project must exist (checked first) and the caller must
      hold any role on it; the stored issue takes the request's fields with the
      OPEN / MEDIUM defaults, and exactly one event carrying the response goes
      to the project's topic. A failure stores and broadcasts nothing. */
  method CreateIssue(db: Database, request: IssueRequest, userId: UserId)
    returns (r: Result<IssueResponse, Error>)
    requires db.Valid() && request.Valid()
    modifies db`issues, db`nextIssueId, db`clock, db`events
    ensures db.Valid()
    ensures request.projectId.value !in db.projects ==> r == Err(ProjectNotFound)
    ensures (request.projectId.value in db.projects &&
             !HasAccess(db.members, request.projectId.value, userId)) ==> r == Err(AccessDenied)
    ensures r.Ok? <==> request.projectId.value in db.projects
                       && HasAccess(db.members, request.projectId.value, userId)
    ensures r.Err? ==> && db.issues == old(db.issues) && db.events == old(db.events)
                       && db.nextIssueId == old(db.nextIssueId) && db.clock == old(db.clock)
    ensures r.Ok? ==> var id := old(db.nextIssueId);
            && id !in old(db.issues) && id in db.issues
            && db.issues == old(db.issues)[id := db.issues[id]]
            && SameContent(db.issues[id], IssueFromRequest(request).(id := id))
            && db.issues[id].createdAt == db.issues[id].updatedAt == old(db.clock)
            && db.issues[id].version == 0
            && r.value == IssueResponseOf(db.projects, db.users, db.issues[id])
            && db.events == old(db.events) + [Event(Topic(request.projectId.value), IssuePayload(r.value))]
  {
    var projectId := request.projectId.value;
    if projectId !in db.projects {
      return Err(ProjectNotFound);
    }
    var role := RoleOf(db.members, projectId, userId);
    if role.None? {
      return Err(AccessDenied);
    }
    var issue := NewIssue(projectId, request.title.value);
    issue := issue.(description := request.description);
    issue := issue.(status := if request.status.Some? then request.status.value else OPEN);
    issue := issue.(priority := if request.priority.Some? then request.priority.value else MEDIUM);
    issue := issue.(assigneeId := request.assigneeId);
    issue := issue.(tags := request.tags);
    issue := db.InsertIssue(issue);
    var response := IssueResponseOf(db.projects, db.users, issue);
    db.Publish(Event(Topic(issue.projectId), IssuePayload(response)));
    r := Ok(response);
  }

  /** The setter calls of `updateIssue` on the entity it read: title and
      description unconditionally, the other fields only when supplied. */
  method SetFields(before: Issue, request: IssueRequest) returns (issue: Issue)
    requires request.Valid()
    ensures issue == ApplyUpdate(before, request)
  {
    issue := before.(title := request.title.value);
    issue := issue.(description := request.description);
    if request.status.Some? {
      issue := issue.(status := request.status.value);
    }
    if request.priority.Some? {
      issue := issue.(priority := request.priority.value);
    }
    if request.assigneeId.Some? {
      issue := issue.(assigneeId := request.assigneeId);
    }
    if request.tags.Some? {
      issue := issue.(tags := request.tags);
    }
  }

  /** `updateIssue`: existence first, then any role (REPORTER suffices). The
      partial update is applied to the entity read in this transaction; the
      response and the one event on the project's topic are built from that
      entity before the transaction commits, so they carry the version and
      `updatedAt` that were read. The commit then writes the row against that
      version, which moves the version on by one and stamps `updatedAt`. The
      project never changes. */
  method UpdateIssue(db: Database, issueId: IssueId, request: IssueRequest, userId: UserId)
    returns (r: Result<IssueResponse, Error>)
    requires db.Valid() && request.Valid()
    modifies db`issues, db`clock, db`events
    ensures db.Valid()
    ensures issueId !in old(db.issues) ==> r == Err(IssueNotFound)
    ensures (issueId in old(db.issues) &&
             !HasAccess(db.members, old(db.issues[issueId]).projectId, userId)) ==> r == Err(AccessDenied)
    ensures r.Ok? <==> issueId in old(db.issues)
                       && HasAccess(db.members, old(db.issues[issueId]).projectId, userId)
    ensures r.Err? ==> db.issues == old(db.issues) && db.events == old(db.events) && db.clock == old(db.clock)
    ensures r.Ok? ==> issueId in db.issues
    ensures r.Ok? ==> var before, after := old(db.issues[issueId]), db.issues[issueId];
            && r.value == IssueResponseOf(db.projects, db.users, ApplyUpdate(before, request))
            && r.value.version == before.version && r.value.updatedAt == before.updatedAt
            && db.events == old(db.events) + [Event(Topic(before.projectId), IssuePayload(r.value))]
            && db.issues == old(db.issues)[issueId := after]
            && SameContent(after, ApplyUpdate(before, request))
            && after.projectId == before.projectId
            && after.createdAt == before.createdAt && after.updatedAt == old(db.clock)
            && after.version == before.version + 1
  {
    if issueId !in db.issues {
      return Err(IssueNotFound);
    }
    var before := db.issues[issueId];
    var role := RoleOf(db.members, before.projectId, userId);
    if role.None? {
      return Err(AccessDenied);
    }
    var issue := SetFields(before, request);
    var response := IssueResponseOf(db.projects, db.users, issue);
    db.Publish(Event(Topic(issue.projectId), IssuePayload(response)));
    // The flush at commit: the row was read in this transaction, so its
    // version is still current.
    ghost var expected := VersionedSave(db.issues, issue, db.clock);
    assert expected.Ok?;
    var saved := db.UpdateIssueRow(issue);
    assert db.issues == expected.value;
    r := Ok(response);
  }

  /** `deleteIssue`: existence first, then OWNER or MAINTAINER; the row is
      removed, one event carrying the id goes to the project's deletion topic,
      and the issue can no longer be read. */
  method DeleteIssue(db: Database, issueId: IssueId, userId: UserId) returns (r: Outcome<Error>)
    requires db.Valid()
    modifies db`issues, db`events
    ensures db.Valid()
    ensures issueId !in old(db.issues) ==> r == Fail(IssueNotFound)
    ensures (issueId in old(db.issues) &&
             !MayDelete(RoleOf(db.members, old(db.issues[issueId]).projectId, userId))) ==>
              r == Fail(AccessDenied)
    ensures r.Pass? <==> issueId in old(db.issues)
                         && MayDelete(RoleOf(db.members, old(db.issues[issueId]).projectId, userId))
    ensures r.Fail? ==> db.issues == old(db.issues) && db.events == old(db.events)
    ensures r.Pass? ==> && db.issues == old(db.issues) - {issueId}
                        && db.events == old(db.events) +
                             [Event(DeletedTopic(old(db.issues[issueId]).projectId), DeletedIssue(issueId))]
                        && GetIssue(db, issueId, userId) == Err(IssueNotFound)
  {
    if issueId !in db.issues {
      return Fail(IssueNotFound);
    }
    var issue := db.issues[issueId];
    var role := RoleOf(db.members, issue.projectId, userId);
    if role != Some(OWNER) && role != Some(MAINTAINER) {
      return Fail(AccessDenied);
    }
    db.DeleteIssueRow(issueId);
    db.Publish(Event(DeletedTopic(issue.projectId), DeletedIssue(issueId)));
    r := Pass;
  }
}
