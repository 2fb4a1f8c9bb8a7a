/** find_issue_in_jira_sprint: pages through the tracker's search for the
    completed issues of a sprint, resolves each issue's parent (its epic),
    and collects one record per issue key, in insertion order, together
    with the sprint goal. The tracker is an abstract input: a search that
    maps a query and a start offset to a page of issues, and a fetch that
    maps an issue key to that issue. */
module SprintAggregator {
  import opened Wrappers

  /** One entry of an issue's sprint field: a sprint name and its goal. */
  datatype Membership = Membership(name: string, goal: string)

  /** An issue as the tracker returns it. `parent` is the key of the parent
      issue when the issue has one; `status` is the workflow state as text. */
  datatype Issue = Issue(
    key: string,
    summary: string,
    typeName: string,
    status: string,
    parent: Option<string>,
    sprints: seq<Membership>)

  /** The per-issue entry of the result: key, type, epic (the parent's
      summary), epic status and summary. */
  datatype Record = Record(
    key: string,
    typeName: string,
    epic: string,
    epicStatus: string,
    summary: string)

  /** The tracker client: search(query, startAt) returns one page of
      results; fetch(key) returns one issue. */
  datatype Tracker = Tracker(search: (string, nat) -> seq<Issue>, fetch: string -> Issue)

  /** Issues requested per search call. */
  const BatchSize: nat := 50

  /** Epic and epic status of an issue without a parent. */
  const NoEpic: string := "Other"

  /** The search query for the sprint's completed, non-subtask issues. */
  function Request(project: string, sprint: string): string
  {
    "project = " + project + " AND sprint = \"" + sprint + "\" "
    + "AND status = Done AND issueType != Sub-task ORDER BY 'Epic Link'"
  }

  /** The k-th page of results: the search started at offset k * 50. */
  function Page(t: Tracker, query: string, k: nat): seq<Issue>
  {
    t.search(query, k * BatchSize)
  }

  /** Pages 0 to n - 1, one after the other. */
  function Pages(t: Tracker, query: string, n: nat): seq<Issue>
  {
    if n == 0 then [] else Pages(t, query, n - 1) + Page(t, query, n - 1)
  }

  /** Some page is empty, so the paging loop stops. */
  ghost predicate SomePageEmpty(t: Tracker, query: string)
  {
    exists k: nat :: |Page(t, query, k)| == 0
  }

  /** The record built for one issue; the parent is fetched when there is one. */
  function ToRecord(fetch: string -> Issue, issue: Issue): (r: Record)
    ensures r.key == issue.key && r.typeName == issue.typeName && r.summary == issue.summary
    ensures issue.parent.None? ==> r.epic == NoEpic && r.epicStatus == NoEpic
    ensures issue.parent.Some? ==>
      r.epic == fetch(issue.parent.value).summary && r.epicStatus == fetch(issue.parent.value).status
  {
    match issue.parent
    case None => Record(issue.key, issue.typeName, NoEpic, NoEpic, issue.summary)
    case Some(parentKey) =>
      var epic := fetch(parentKey);
      Record(issue.key, issue.typeName, epic.summary, epic.status, issue.summary)
  }

  // ---------------------------------------------------------------------
  // The result dictionary: records in insertion order, one per key.

  predicate UniqueKeys(m: seq<Record>)
  {
    forall i, j :: 0 <= i < j < |m| ==> m[i].key != m[j].key
  }

  function KeySet(m: seq<Record>): set<string>
  {
    set i | 0 <= i < |m| :: m[i].key
  }

  /** Position of the entry with the given key. */
  function IndexOf(m: seq<Record>, key: string): (r: Option<nat>)
    ensures r.Some? ==> r.value < |m| && m[r.value].key == key
    ensures r.None? ==> forall i :: 0 <= i < |m| ==> m[i].key != key
  {
    if |m| == 0 then None
    else if m[|m| - 1].key == key then Some(|m| - 1)
    else IndexOf(m[..|m| - 1], key)
  }

  /** `d[key]` when the key is present. */
  function Lookup(m: seq<Record>, key: string): Option<Record>
  {
    match IndexOf(m, key)
    case None => None
    case Some(i) => Some(m[i])
  }

  lemma LookupAt(m: seq<Record>, i: nat)
    requires UniqueKeys(m) && i < |m|
    ensures Lookup(m, m[i].key) == Some(m[i])
  {
  }

  /** `d[r.key] = r`: an existing key keeps its position and takes the new
      record; a new key goes at the end. */
  function Put(m: seq<Record>, r: Record): seq<Record>
  {
    match IndexOf(m, r.key)
    case None => m + [r]
    case Some(i) => m[i := r]
  }

  /** Assignment keeps the keys unique. */
  lemma PutUnique(m: seq<Record>, r: Record)
    requires UniqueKeys(m)
    ensures UniqueKeys(Put(m, r))
  {
  }

  /** Assignment adds the key to the key set. */
  lemma PutKeys(m: seq<Record>, r: Record)
    ensures KeySet(Put(m, r)) == KeySet(m) + {r.key}
  {
    var m' := Put(m, r);
    forall k | k in KeySet(m') ensures k in KeySet(m) + {r.key} {
      var i :| 0 <= i < |m'| && m'[i].key == k;
      if i < |m| && m'[i] != r { assert m[i].key == k; }
    }
    forall k | k in KeySet(m) ensures k in KeySet(m') {
      var i :| 0 <= i < |m| && m[i].key == k;
      assert m'[i].key == k;
    }
    if IndexOf(m, r.key).None? {
      assert m'[|m|].key == r.key;
    } else {
      assert m'[IndexOf(m, r.key).value].key == r.key;
    }
  }

  /** Assignment keeps every existing key in its position, and appends
      exactly when the key is new. */
  lemma PutShape(m: seq<Record>, r: Record)
    ensures r.key !in KeySet(m) ==> Put(m, r) == m + [r]
    ensures r.key in KeySet(m) ==> |Put(m, r)| == |m|
    ensures forall i :: 0 <= i < |m| ==> Put(m, r)[i].key == m[i].key
  {
    if r.key in KeySet(m) {
      var i :| 0 <= i < |m| && m[i].key == r.key;
      assert IndexOf(m, r.key).Some?;
    }
  }

  /** After `d[r.key] = r`, looking up r.key gives r, and every other key
      gives what it gave before. */
  lemma PutLookup(m: seq<Record>, r: Record, k: string)
    requires UniqueKeys(m)
    ensures Lookup(Put(m, r), r.key) == Some(r)
    ensures k != r.key ==> Lookup(Put(m, r), k) == Lookup(m, k)
  {
    match IndexOf(m, r.key)
    case None => LookupPut(m, r, |m|, k);
    case Some(i) => LookupPut(m, r, i, k);
  }

  /** PutLookup, once the position i that r takes is known. */
  lemma LookupPut(m: seq<Record>, r: Record, i: nat, k: string)
    requires UniqueKeys(m)
    requires i <= |m| && |Put(m, r)| > i && Put(m, r)[i] == r
    requires forall j :: 0 <= j < |m| && j != i ==> Put(m, r)[j] == m[j]
    ensures Lookup(Put(m, r), r.key) == Some(r)
    ensures k != r.key ==> Lookup(Put(m, r), k) == Lookup(m, k)
  {
    var m' := Put(m, r);
    LookupAt(m', i);
    if k != r.key {
      match IndexOf(m, k)
      case None =>
        assert forall j :: 0 <= j < |m'| ==> m'[j].key != k;
      case Some(j) =>
        LookupAt(m', j);
    }
  }

  // ---------------------------------------------------------------------
  // What the loop computes, stated over the issues it has seen.

  /** The keys of a sequence of issues. */
  function IssueKeys(issues: seq<Issue>): set<string>
  {
    set i | 0 <= i < |issues| :: issues[i].key
  }

  /** The dictionary after inserting the record of each issue in turn. */
  function Collect(fetch: string -> Issue, issues: seq<Issue>): seq<Record>
  {
    if |issues| == 0 then []
    else Put(Collect(fetch, issues[..|issues| - 1]), ToRecord(fetch, issues[|issues| - 1]))
  }

  /** The dictionary holds one record per key, and its keys are the keys
      of the issues. */
  lemma {:induction false} CollectKeys(fetch: string -> Issue, issues: seq<Issue>)
    ensures UniqueKeys(Collect(fetch, issues))
    ensures KeySet(Collect(fetch, issues)) == IssueKeys(issues)
    decreases |issues|
  {
    if |issues| > 0 {
      var init := issues[..|issues| - 1];
      var last := issues[|issues| - 1];
      CollectKeys(fetch, init);
      PutUnique(Collect(fetch, init), ToRecord(fetch, last));
      PutKeys(Collect(fetch, init), ToRecord(fetch, last));
      forall k | k in IssueKeys(issues) ensures k in IssueKeys(init) + {last.key} {
        var i :| 0 <= i < |issues| && issues[i].key == k;
        if i < |init| { assert init[i].key == k; }
      }
      forall k | k in IssueKeys(init) ensures k in IssueKeys(issues) {
        var i :| 0 <= i < |init| && init[i].key == k;
        assert issues[i].key == k;
      }
    }
  }

  /** The sprint goal after scanning memberships in order: the goal of the
      last one named `sprint`, or `goal` when none is. */
  function LastGoal(goal: string, ms: seq<Membership>, sprint: string): string
  {
    if |ms| == 0 then goal
    else if ms[|ms| - 1].name == sprint then ms[|ms| - 1].goal
    else LastGoal(goal, ms[..|ms| - 1], sprint)
  }

  /** The sprint goal after scanning the memberships of each issue in turn,
      starting from "". */
  function GoalOver(issues: seq<Issue>, sprint: string): string
  {
    if |issues| == 0 then ""
    else LastGoal(GoalOver(issues[..|issues| - 1], sprint), issues[|issues| - 1].sprints, sprint)
  }

  /** All sprint memberships of a sequence of issues, in order. */
  function Memberships(issues: seq<Issue>): seq<Membership>
  {
    if |issues| == 0 then [] else Memberships(issues[..|issues| - 1]) + issues[|issues| - 1].sprints
  }

  /** One step of the issue loop: the issue's record is stored under its
      key and its memberships update the sprint goal. */
  function Absorb(fetch: string -> Issue, sprint: string, acc: (seq<Record>, string), issue: Issue)
    : (seq<Record>, string)
  {
    (Put(acc.0, ToRecord(fetch, issue)), LastGoal(acc.1, issue.sprints, sprint))
  }

  /** The dictionary and sprint goal after the first n pages. */
  function Harvest(t: Tracker, query: string, sprint: string, n: nat): (seq<Record>, string)
    decreases n, 0
  {
    if n == 0 then ([], "") else AfterPage(t, query, sprint, n - 1)
  }

  /** The dictionary and sprint goal once every issue of page p is read. */
  function AfterPage(t: Tracker, query: string, sprint: string, p: nat): (seq<Record>, string)
    decreases p, |Page(t, query, p)| + 2
  {
    Partial(t, query, sprint, p, |Page(t, query, p)|)
  }

  /** The dictionary and sprint goal after the first p pages and the first i
      issues of page p. */
  function Partial(t: Tracker, query: string, sprint: string, p: nat, i: nat): (seq<Record>, string)
    requires i <= |Page(t, query, p)|
    decreases p, i + 1
  {
    if i == 0 then Harvest(t, query, sprint, p)
    else Absorb(t.fetch, sprint, Partial(t, query, sprint, p, i - 1), Page(t, query, p)[i - 1])
  }

  /** The state after i issues of page p is the dictionary and goal over all
      issues read so far. */
  lemma {:induction false} PartialIsCollect(t: Tracker, query: string, sprint: string, p: nat, i: nat,
                                            seen: seq<Issue>)
    requires i <= |Page(t, query, p)|
    requires seen == Pages(t, query, p) + Page(t, query, p)[..i]
    ensures Partial(t, query, sprint, p, i) == (Collect(t.fetch, seen), GoalOver(seen, sprint))
    decreases p, i + 1, 1
  {
    if i == 0 {
      assert seen == Pages(t, query, p);
      HarvestIsCollect(t, query, sprint, p);
    } else {
      PartialStep(t, query, sprint, p, i, seen);
    }
  }

  /** PartialIsCollect for i > 0: the last issue read is issue i - 1 of
      page p. */
  lemma PartialStep(t: Tracker, query: string, sprint: string, p: nat, i: nat, seen: seq<Issue>)
    requires 0 < i <= |Page(t, query, p)|
    requires seen == Pages(t, query, p) + Page(t, query, p)[..i]
    ensures Partial(t, query, sprint, p, i) == (Collect(t.fetch, seen), GoalOver(seen, sprint))
    decreases p, i + 1, 0
  {
    var page := Page(t, query, p);
    var done := seen[..|seen| - 1];
    assert done == Pages(t, query, p) + page[..i - 1];
    assert seen[|seen| - 1] == page[i - 1];
    PartialIsCollect(t, query, sprint, p, i - 1, done);
  }

  /** The state after n pages is the dictionary and goal over the issues of
      those pages. */
  lemma {:induction false} HarvestIsCollect(t: Tracker, query: string, sprint: string, n: nat)
    ensures Harvest(t, query, sprint, n)
         == (Collect(t.fetch, Pages(t, query, n)), GoalOver(Pages(t, query, n), sprint))
    decreases n, 0, 0
  {
    if n > 0 {
      var page := Page(t, query, n - 1);
      assert page[..|page|] == page;
      PartialIsCollect(t, query, sprint, n - 1, |page|, Pages(t, query, n));
    }
  }

  // ---------------------------------------------------------------------
  // The operation.

  /** find_issue_in_jira_sprint. `api` is None for a falsy client. The
      result is the dictionary of records and the sprint goal it reports
      (None when it returns early and reports nothing). The ghost outputs
      record the start offset of every search call and the number of
      non-empty pages. */
  method FindIssuesInSprint(api: Option<Tracker>, project: string, sprint: string)
    returns (found: seq<Record>, goal: Option<string>, ghost requests: seq<nat>, ghost pages: nat)
    requires api.Some? && |project| > 0 ==> SomePageEmpty(api.value, Request(project, sprint))
    ensures api.None? || |project| == 0 ==> found == [] && goal == None && requests == []
    ensures api.Some? && |project| > 0 ==>
      var t, q := api.value, Request(project, sprint);
      && (forall k: nat :: k < pages ==> |Page(t, q, k)| > 0)
      && |Page(t, q, pages)| == 0
      && |requests| == pages + 1
      && (forall k :: 0 <= k < |requests| ==> requests[k] == k * BatchSize)
      && found == Collect(t.fetch, Pages(t, q, pages))
      && goal == Some(GoalOver(Pages(t, q, pages), sprint))
  {
    if api.None? || |project| == 0 {
      return [], None, [], 0;
    }
    var sprintGoal;
    found, sprintGoal, requests, pages := Paginate(api.value, Request(project, sprint), sprint);
    HarvestIsCollect(api.value, Request(project, sprint), sprint, pages);
    goal := Some(sprintGoal);
  }

  /** The paging loop of find_issue_in_jira_sprint: search from offset
      issueIndex * 50 until a page comes back empty. */
  method Paginate(t: Tracker, q: string, sprint: string)
    returns (found: seq<Record>, sprintGoal: string, ghost requests: seq<nat>, ghost pages: nat)
    requires SomePageEmpty(t, q)
    ensures forall k: nat :: k < pages ==> |Page(t, q, k)| > 0
    ensures |Page(t, q, pages)| == 0
    ensures |requests| == pages + 1
    ensures forall k :: 0 <= k < |requests| ==> requests[k] == k * BatchSize
    ensures (found, sprintGoal) == Harvest(t, q, sprint, pages)
  {
    ghost var bound: nat :| |Page(t, q, bound)| == 0;
    requests := [];
    var issueIndex: nat := 0;
    found := [];
    sprintGoal := "";
    while true
      invariant issueIndex <= bound
      invariant forall k: nat :: k < issueIndex ==> |Page(t, q, k)| > 0
      invariant |requests| == issueIndex
      invariant forall k :: 0 <= k < |requests| ==> requests[k] == k * BatchSize
      invariant (found, sprintGoal) == Harvest(t, q, sprint, issueIndex)
      decreases bound - issueIndex
    {
      var startIndex := issueIndex * BatchSize;
      var issues := t.search(q, startIndex);
      requests := requests + [startIndex];
      if |issues| == 0 {
        break;
      }
      found, sprintGoal := ScanPage(t, q, issueIndex, sprint, found, sprintGoal, issues);
      issueIndex := issueIndex + 1;
    }
    pages := issueIndex;
  }

  /** The loop over the issues of one page (page n of the query). */
  method ScanPage(t: Tracker, ghost q: string, ghost n: nat, sprint: string,
                  found0: seq<Record>, goal0: string, issues: seq<Issue>)
    returns (found: seq<Record>, sprintGoal: string)
    requires issues == Page(t, q, n)
    requires (found0, goal0) == Harvest(t, q, sprint, n)
    ensures (found, sprintGoal) == Harvest(t, q, sprint, n + 1)
  {
    found, sprintGoal := found0, goal0;
    var i := 0;
    while i < |issues|
      invariant 0 <= i <= |issues|
      invariant (found, sprintGoal) == Partial(t, q, sprint, n, i)
    {
      var issue := issues[i];
      sprintGoal := ScanSprints(sprintGoal, issue.sprints, sprint);

      var summary := issue.summary;
      var issueType := issue.typeName;
      var epicSummary, epicStatus;
      if issue.parent.Some? {
        var epic := t.fetch(issue.parent.value);
        epicSummary := epic.summary;
        epicStatus := epic.status;
      } else {
        epicSummary := NoEpic;
        epicStatus := NoEpic;
      }
      assert Record(issue.key, issueType, epicSummary, epicStatus, summary) == ToRecord(t.fetch, issue);
      found := Put(found, Record(issue.key, issueType, epicSummary, epicStatus, summary));
      i := i + 1;
    }
  }

  /** The loop over one issue's sprint memberships: a membership named
      after the sprint sets the goal. */
  method ScanSprints(goal0: string, ms: seq<Membership>, sprint: string) returns (goal: string)
    ensures goal == LastGoal(goal0, ms, sprint)
  {
    goal := goal0;
    var j := 0;
    while j < |ms|
      invariant 0 <= j <= |ms|
      invariant goal == LastGoal(goal0, ms[..j], sprint)
    {
      var pulse := ms[j];
      assert ms[..j + 1][..j] == ms[..j];
      if pulse.name == sprint {
        goal := pulse.goal;
      }
      j := j + 1;
    }
    assert ms[..j] == ms;
  }

  // ---------------------------------------------------------------------
  // Properties of the result.

  /** An issue is on the first n pages exactly when it is on one of them. */
  lemma {:induction false} PagesContents(t: Tracker, query: string, n: nat, x: Issue)
    ensures x in Pages(t, query, n) <==> exists p: nat :: p < n && x in Page(t, query, p)
  {
    if n > 0 {
      PagesContents(t, query, n - 1, x);
    }
  }

  /** The keys of the result are exactly the keys of the issues on the
      pages read before the first empty one. */
  lemma FoundKeys(t: Tracker, query: string, n: nat, key: string)
    ensures key in KeySet(Collect(t.fetch, Pages(t, query, n)))
        <==> exists p: nat, x :: p < n && x in Page(t, query, p) && x.key == key
  {
    var all := Pages(t, query, n);
    CollectKeys(t.fetch, all);
    if key in IssueKeys(all) {
      var i :| 0 <= i < |all| && all[i].key == key;
      PagesContents(t, query, n, all[i]);
    }
    if exists p: nat, x :: p < n && x in Page(t, query, p) && x.key == key {
      var p: nat, x :| p < n && x in Page(t, query, p) && x.key == key;
      PagesContents(t, query, n, x);
      var i :| 0 <= i < |all| && all[i] == x;
      assert key in IssueKeys(all);
    }
  }

  /** The record kept for a key is built from the LAST issue with that key
      (a later issue overwrites an earlier one): key, type and summary are
      copied; epic and epic status are "Other" without a parent and the
      fetched parent's summary and status with one. */
  lemma {:induction false} CollectLastWins(fetch: string -> Issue, issues: seq<Issue>, j: nat)
    requires j < |issues|
    requires forall i :: j < i < |issues| ==> issues[i].key != issues[j].key
    ensures var x, rec := issues[j], Lookup(Collect(fetch, issues), issues[j].key);
      && rec.Some?
      && rec.value.key == x.key && rec.value.typeName == x.typeName && rec.value.summary == x.summary
      && (x.parent.None? ==> rec.value.epic == NoEpic && rec.value.epicStatus == NoEpic)
      && (x.parent.Some? ==>
            rec.value.epic == fetch(x.parent.value).summary
            && rec.value.epicStatus == fetch(x.parent.value).status)
    decreases |issues|
  {
    var init := issues[..|issues| - 1];
    var last := issues[|issues| - 1];
    CollectKeys(fetch, init);
    PutLookup(Collect(fetch, init), ToRecord(fetch, last), issues[j].key);
    if j < |issues| - 1 {
      assert init[j] == issues[j];
      CollectLastWins(fetch, init, j);
    }
  }

  /** The first position in `issues` holding the key. */
  function FirstWith(issues: seq<Issue>, key: string, from: nat): (r: Option<nat>)
    requires from <= |issues|
    ensures r.Some? ==> from <= r.value < |issues| && issues[r.value].key == key
    ensures r.Some? ==> forall i :: from <= i < r.value ==> issues[i].key != key
    ensures r.None? ==> forall i :: from <= i < |issues| ==> issues[i].key != key
    decreases |issues| - from
  {
    if from == |issues| then None
    else if issues[from].key == key then Some(from)
    else FirstWith(issues, key, from + 1)
  }

  lemma FirstWithIs(issues: seq<Issue>, key: string, i: nat)
    requires i < |issues| && issues[i].key == key
    requires forall j :: 0 <= j < i ==> issues[j].key != key
    ensures FirstWith(issues, key, 0) == Some(i)
  {
  }

  /** Appending an issue leaves the first position of the earlier keys. */
  lemma FirstWithSnoc(issues: seq<Issue>, x: Issue, key: string)
    ensures key in IssueKeys(issues) ==> FirstWith(issues + [x], key, 0) == FirstWith(issues, key, 0)
    ensures key !in IssueKeys(issues) && key == x.key ==> FirstWith(issues + [x], key, 0) == Some(|issues|)
  {
    var s := issues + [x];
    if key in IssueKeys(issues) {
      var j :| 0 <= j < |issues| && issues[j].key == key;
      var i := FirstWith(issues, key, 0).value;
      FirstWithIs(s, key, i);
    } else if key == x.key {
      forall j | 0 <= j < |issues| ensures s[j].key != key {
        assert issues[j].key in IssueKeys(issues);
      }
      FirstWithIs(s, key, |issues|);
    }
  }

  /** Appending an issue keeps every earlier record's key in its position
      and adds at most one record, whose key is the new issue's and was not
      seen before. */
  lemma CollectSnoc(fetch: string -> Issue, init: seq<Issue>, x: Issue)
    ensures var m0, m := Collect(fetch, init), Collect(fetch, init + [x]);
      && KeySet(m0) == IssueKeys(init)
      && |m0| <= |m| <= |m0| + 1
      && (forall i :: 0 <= i < |m0| ==> m[i].key == m0[i].key)
      && (|m| > |m0| ==> m[|m0|].key == x.key && x.key !in IssueKeys(init))
  {
    CollectKeys(fetch, init);
    assert (init + [x])[..|init|] == init;
    PutShape(Collect(fetch, init), ToRecord(fetch, x));
  }

  /** Records come in the order in which their keys first appear among
      the issues (dictionary insertion order). */
  lemma {:induction false} CollectOrder(fetch: string -> Issue, issues: seq<Issue>, a: nat, b: nat)
    requires a < b < |Collect(fetch, issues)|
    ensures var m := Collect(fetch, issues);
      && FirstWith(issues, m[a].key, 0).Some?
      && FirstWith(issues, m[b].key, 0).Some?
      && FirstWith(issues, m[a].key, 0).value < FirstWith(issues, m[b].key, 0).value
    decreases |issues|
  {
    var init, x := issues[..|issues| - 1], issues[|issues| - 1];
    assert issues == init + [x];
    var m0 := Collect(fetch, init);
    CollectSnoc(fetch, init, x);
    var ka, kb := Collect(fetch, issues)[a].key, Collect(fetch, issues)[b].key;
    assert ka in KeySet(m0) by { assert ka == m0[a].key; }
    FirstWithSnoc(init, x, ka);
    FirstWithSnoc(init, x, kb);
    if b < |m0| {
      assert kb == m0[b].key;
      CollectOrder(fetch, init, a, b);
    } else {
      // the last record holds the key that is new with x
      var fa := FirstWith(init, ka, 0);
      assert fa.Some? by {
        var j :| 0 <= j < |init| && init[j].key == ka;
      }
    }
  }

  /** Scanning a + b is scanning a, then b from where a left off. */
  lemma {:induction false} LastGoalAppend(goal: string, a: seq<Membership>, b: seq<Membership>, sprint: string)
    ensures LastGoal(goal, a + b, sprint) == LastGoal(LastGoal(goal, a, sprint), b, sprint)
    decreases |b|
  {
    if |b| == 0 {
      assert a + b == a;
    } else {
      assert (a + b)[..|a + b| - 1] == a + b[..|b| - 1];
      LastGoalAppend(goal, a, b[..|b| - 1], sprint);
    }
  }

  lemma {:induction false} GoalOverMemberships(issues: seq<Issue>, sprint: string)
    ensures GoalOver(issues, sprint) == LastGoal("", Memberships(issues), sprint)
    decreases |issues|
  {
    if |issues| > 0 {
      var init := issues[..|issues| - 1];
      GoalOverMemberships(init, sprint);
      LastGoalAppend("", Memberships(init), issues[|issues| - 1].sprints, sprint);
    }
  }

  lemma {:induction false} LastGoalNoMatch(goal: string, ms: seq<Membership>, sprint: string)
    requires forall i :: 0 <= i < |ms| ==> ms[i].name != sprint
    ensures LastGoal(goal, ms, sprint) == goal
    decreases |ms|
  {
    if |ms| > 0 {
      LastGoalNoMatch(goal, ms[..|ms| - 1], sprint);
    }
  }

  lemma {:induction false} LastGoalAtMatch(goal: string, ms: seq<Membership>, sprint: string, j: nat)
    requires j < |ms| && ms[j].name == sprint
    requires forall i :: j < i < |ms| ==> ms[i].name != sprint
    ensures LastGoal(goal, ms, sprint) == ms[j].goal
    decreases |ms|
  {
    if j < |ms| - 1 {
      LastGoalAtMatch(goal, ms[..|ms| - 1], sprint, j);
    }
  }

  /** With no membership named after the sprint, the reported goal is "". */
  lemma SprintGoalNoMatch(issues: seq<Issue>, sprint: string)
    requires forall i :: 0 <= i < |Memberships(issues)| ==> Memberships(issues)[i].name != sprint
    ensures GoalOver(issues, sprint) == ""
  {
    GoalOverMemberships(issues, sprint);
    LastGoalNoMatch("", Memberships(issues), sprint);
  }

  /** Otherwise the reported goal is that of the last membership named
      after the sprint, across all issues (last match wins). */
  lemma SprintGoalLastMatch(issues: seq<Issue>, sprint: string, j: nat)
    requires j < |Memberships(issues)| && Memberships(issues)[j].name == sprint
    requires forall i :: j < i < |Memberships(issues)| ==> Memberships(issues)[i].name != sprint
    ensures GoalOver(issues, sprint) == Memberships(issues)[j].goal
  {
    GoalOverMemberships(issues, sprint);
    LastGoalAtMatch("", Memberships(issues), sprint, j);
  }
}
