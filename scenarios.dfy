/** Clients of the services that chain several calls, showing what their
    contracts give together. */
module Scenarios {
  import opened Wrappers
  import opened Model
  import opened Repositories
  import opened ProjectService
  import opened IssueService
  import opened AuthService
  import opened IssueRepository

  /** Whatever happened to the first signup, a second one with the same email
      is refused. */
  method SecondSignupRejected(db: Database, encode: string -> string,
                              generateToken: (string, UserId) -> string,
                              email: string, password1: string, name1: string,
                              password2: string, name2: string)
    returns (first: Result<AuthResponse, Error>, second: Result<AuthResponse, Error>)
    requires db.Valid()
    modifies db`users, db`nextUserId
    ensures second == Err(EmailAlreadyExists)
    ensures first.Ok? ==> first.value.userId in db.users &&
                          db.users[first.value.userId].passwordHash == encode(password1)
  {
    first := Signup(db, encode, generateToken, email, password1, name1);
    second := Signup(db, encode, generateToken, email, password2, name2);
  }

  /** The first two steps of the workflow on an empty store: sign up, then
      create a project, which the new user may then access. */
  method SignupAndCreateProject(encode: string -> string, generateToken: (string, UserId) -> string)
    returns (db: Database, userId: UserId, project: ProjectResponse)
    ensures fresh(db) && db.Valid()
    ensures project.name == "Integration Test Project"
    ensures project.id in db.projects && HasAccess(db.members, project.id, userId)
  {
    db := new Database();
    var auth := Signup(db, encode, generateToken, "integration@test.com", "password123",
                       "Integration Test User");
    assert auth.Ok?;
    userId := auth.value.userId;
    project := CreateProject(db, "Integration Test Project", userId);
  }

  /** Sign up, create a project, file a HIGH issue with a description, then
      list the project's issues: the project has the requested name, the issue
      comes back OPEN and HIGH with the requested title, and the listing holds
      it. */
  method FullWorkflow(encode: string -> string, generateToken: (string, UserId) -> string)
    returns (project: ProjectResponse, created: IssueResponse, listed: Result<set<IssueResponse>, Error>)
    ensures project.name == "Integration Test Project"
    ensures created.projectId == project.id && created.title == "Integration Test Issue"
    ensures created.status == OPEN && created.priority == HIGH && created.version == 0
    ensures listed.Ok? && created in listed.value
  {
    var db, userId;
    db, userId, project := SignupAndCreateProject(encode, generateToken);
    assert "Integration Test Issue"[0] == 'I';
    var request := IssueRequest(Some(project.id), Some("Integration Test Issue"),
                                Some("This is a test issue created during integration testing"),
                                None, Some(HIGH), None, None);
    var r := CreateIssue(db, request, userId);
    assert r.Ok?;
    created := r.value;
    listed := GetIssues(db, project.id, None, None, None, None, userId);
    assert created.id in db.issues &&
           Matches(db.issues[created.id], IssueFilters(project.id, None, None, None, None));
  }

  /** Close an open or in-progress issue, then read it again: the update's response still carries
      the version it read, and only the read after the commit shows the version
      moved on by one, with the status CLOSED and the title unchanged. */
  method CloseThenRead(db: Database, issueId: IssueId, userId: UserId)
    returns (closed: Result<IssueResponse, Error>, reread: Result<IssueResponse, Error>)
    requires db.Valid() && issueId in db.issues
    requires HasAccess(db.members, db.issues[issueId].projectId, userId)
    requires db.issues[issueId].status != CLOSED
    modifies db`issues, db`clock, db`events
    ensures closed.Ok? && reread.Ok?
    ensures closed.value.status == CLOSED && closed.value.version == old(db.issues[issueId]).version
    ensures reread.value.status == CLOSED && reread.value.title == closed.value.title
    ensures reread.value.version == closed.value.version + 1
  {
    var issue := db.issues[issueId];
    assert !IsBlank(issue.title);
    var request := IssueRequest(Some(issue.projectId), Some(issue.title), issue.description,
                                Some(CLOSED), None, None, None);
    closed := UpdateIssue(db, issueId, request, userId);
    reread := GetIssue(db, issueId, userId);
  }

  /** Deleting a project that has no issues removes only its row: reading the
      project is then "not found", yet listing its issues still succeeds (with
      none), and its former owner may delete it again, since the membership
      row is still there. */
  method DeletedProjectKeepsMembership(db: Database, projectId: ProjectId, userId: UserId)
    returns (first: Outcome<Error>, second: Outcome<Error>)
    requires db.Valid() && IsOwner(db.members, projectId, userId)
    requires forall id :: id in db.issues ==> db.issues[id].projectId != projectId
    modifies db`projects
    ensures db.Valid()
    ensures first == Pass && second == Pass
    ensures GetProject(db, projectId, userId) == Err(ProjectNotFound)
    ensures GetIssues(db, projectId, None, None, None, None, userId) == Ok({})
  {
    first := DeleteProject(db, projectId, userId);
    second := DeleteProject(db, projectId, userId);
    var listed := GetIssues(db, projectId, None, None, None, None, userId);
    assert db.issues == old(db.issues) && listed.Ok?;
    assert forall resp :: resp in listed.value ==> db.issues[resp.id].projectId == projectId;
    assert listed.value == {};
  }
}
