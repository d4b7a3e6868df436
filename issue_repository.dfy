/** The issue search query: optional equality filters and a case-insensitive
    title search, all combined with AND. */
module IssueRepository {
  import opened Wrappers
  import opened Model

  /** The query's parameters; an absent parameter is SQL NULL. */
  datatype Filters = Filters(projectId: Option<ProjectId>, status: Option<IssueStatus>,
                             priority: Option<IssuePriority>, assigneeId: Option<UserId>,
                             searchText: Option<string>)

  const NoFilters := Filters(None, None, None, None, None)

  /** SQL `LOWER` on one character, for the Latin letters. */
  function LowerChar(c: char): char {
    if 'A' <= c <= 'Z' then (c as int - 'A' as int + 'a' as int) as char else c
  }

  /** SQL `LOWER` on a string. */
  function Lower(s: string): (r: string)
    ensures |r| == |s|
    ensures forall i :: 0 <= i < |s| ==> r[i] == LowerChar(s[i])
  {
    if s == [] then [] else [LowerChar(s[0])] + Lower(s[1..])
  }

  lemma LowerIdempotent(s: string)
    ensures Lower(Lower(s)) == Lower(s)
  {
  }

  predicate IsPrefix(p: string, s: string) {
    |p| <= |s| && s[..|p|] == p
  }

  /** `s LIKE CONCAT('%', t, '%')` for a pattern without wildcards: `t` occurs in `s`. */
  predicate Contains(s: string, t: string): (b: bool)
    ensures IsPrefix(t, s) ==> b
    ensures b ==> |t| <= |s|
    decreases |s|
  {
    IsPrefix(t, s) || (|s| > 0 && Contains(s[1..], t))
  }

  /** `t` occurs in `s` starting at position `k`. */
  predicate OccursAt(s: string, t: string, k: int) {
    0 <= k && k + |t| <= |s| && s[k..k + |t|] == t
  }

  /** `Contains` finds `t` exactly when it occurs at some position of `s`. */
  lemma {:induction false} ContainsIffOccurs(s: string, t: string)
    ensures Contains(s, t) <==> exists k :: OccursAt(s, t, k)
    decreases |s|
  {
    if IsPrefix(t, s) {
      assert OccursAt(s, t, 0);
    } else if |s| > 0 {
      ContainsIffOccurs(s[1..], t);
      if Contains(s[1..], t) {
        var k :| OccursAt(s[1..], t, k);
        assert s[k + 1..k + 1 + |t|] == s[1..][k..k + |t|];
        assert OccursAt(s, t, k + 1);
      }
      if exists k :: OccursAt(s, t, k) {
        var k :| OccursAt(s, t, k);
        assert k != 0;
        assert s[1..][k - 1..k - 1 + |t|] == s[k..k + |t|];
        assert OccursAt(s[1..], t, k - 1);
      }
    }
  }

  /** The empty search text is `LIKE '%%'`, which every title matches. */
  lemma EmptySearchMatchesAll(s: string)
    ensures Contains(s, "")
  {
    assert IsPrefix("", s);
  }

  /** The WHERE clause of the search query, for one issue. A NULL parameter
      matches everything; `i.assigneeId = :assigneeId` is not true for an
      unassigned issue. */
  predicate Matches(issue: Issue, f: Filters): (b: bool)
    ensures b && f.assigneeId.Some? ==> issue.assigneeId.Some?
    ensures b && f.searchText.Some? ==> |f.searchText.value| <= |issue.title|
  {
    && (f.projectId.None? || issue.projectId == f.projectId.value)
    && (f.status.None? || issue.status == f.status.value)
    && (f.priority.None? || issue.priority == f.priority.value)
    && (f.assigneeId.None? || issue.assigneeId == Some(f.assigneeId.value))
    && (f.searchText.None? || Contains(Lower(issue.title), Lower(f.searchText.value)))
  }

  /** `f` supplies every filter `g` supplies, with the same value (and perhaps more). */
  predicate Narrows(f: Filters, g: Filters) {
    && (g.projectId.Some? ==> f.projectId == g.projectId)
    && (g.status.Some? ==> f.status == g.status)
    && (g.priority.Some? ==> f.priority == g.priority)
    && (g.assigneeId.Some? ==> f.assigneeId == g.assigneeId)
    && (g.searchText.Some? ==> f.searchText == g.searchText)
  }

  /** `findByFilters` without paging: the issues the WHERE clause keeps. */
  function FindByFilters(issues: map<IssueId, Issue>, f: Filters): (r: map<IssueId, Issue>)
    ensures forall id :: id in r ==> id in issues && r[id] == issues[id] && Matches(issues[id], f)
    ensures forall id :: id in issues && Matches(issues[id], f) ==> id in r
    ensures f.projectId.Some? ==> forall id :: id in r ==> r[id].projectId == f.projectId.value
  {
    map id | id in issues && Matches(issues[id], f) :: issues[id]
  }

  /** With every parameter NULL the query returns every issue. */
  lemma NoFiltersKeepAll(issues: map<IssueId, Issue>)
    ensures FindByFilters(issues, NoFilters) == issues
  {
  }

  /** Supplying more filters never enlarges the result. */
  lemma NarrowingShrinks(issues: map<IssueId, Issue>, f: Filters, g: Filters)
    requires Narrows(f, g)
    ensures FindByFilters(issues, f).Keys <= FindByFilters(issues, g).Keys
  {
  }

  /** Each supplied filter is one conjunct: an issue matches `f` plus a status
      filter exactly when it matches `f` and has that status. */
  lemma StatusFilterIsConjunct(issue: Issue, f: Filters, s: IssueStatus)
    requires f.status.None?
    ensures Matches(issue, f.(status := Some(s))) <==> Matches(issue, f) && issue.status == s
  {
  }

  /** The title search ignores the case of the search text. */
  lemma SearchIgnoresCase(issue: Issue, f: Filters, text: string)
    ensures Matches(issue, f.(searchText := Some(text)))
        <==> Matches(issue, f.(searchText := Some(Lower(text))))
  {
    LowerIdempotent(text);
  }

  /** The title search in terms of positions: some window of the lower-cased
      title equals the lower-cased search text. */
  lemma SearchIsSubstring(issue: Issue, text: string)
    ensures Matches(issue, NoFilters.(searchText := Some(text)))
        <==> exists k :: OccursAt(Lower(issue.title), Lower(text), k)
  {
    var f := NoFilters.(searchText := Some(text));
    assert Matches(issue, f) <==> Contains(Lower(issue.title), Lower(text));
    ContainsIffOccurs(Lower(issue.title), Lower(text));
  }
}
