# Sprint report: a verified model

SprintReport turns a Jira sprint into a Markdown report. This project models
the report's core in Dafny and proves what that core promises:

- `find_issue_in_jira_sprint` pages through the tracker's search for the
  sprint's completed issues. It resolves each issue's parent (its epic),
  collects one record per issue key and picks up the sprint goal.
- `print_jira_report` walks the records twice. The first walk writes the
  Completed Epics section; the second writes the Completed Tasks section,
  with a header per run of equal epics.
- `print_jira_issue` writes one bullet per issue. A summary that holds
  "LP#" is linkified by `insert_bug_link`, using `get_bug_id` for the
  Launchpad bug number, and printed without the key link. This includes a
  summary such as "fix LP#abc", whose bug number is empty. Every other
  summary follows the issue key's link from `key_to_md`.

Files:

- `wrappers.dfy`: `Option`.
- `text.dfy` (module `Text`): the string operations taken from Python.
  - `in` and `str.find`.
  - The replace-all that `re.sub` performs for a pattern without regular
    expression metacharacters.
  - Two independent readings of that replace-all, each proved equal to it:
    find-and-splice, and `r.join(s.split(p))`.
- `text_transforms.dfy` (module `TextTransforms`): `get_bug_id`, `key_to_md`
  and `insert_bug_link`.
- `sprint_aggregator.dfy` (module `SprintAggregator`): the tracker as an
  abstract input, and `find_issue_in_jira_sprint`.
  - The tracker is a search function from a query and a start offset to a
    page of issues, plus a fetch function from an issue key to an issue.
  - `find_issue_in_jira_sprint` is modelled as four methods
    (`FindIssuesInSprint`, `Paginate`, `ScanPage`, `ScanSprints`) with loops
    proved against specification functions.
- `report_renderer.dfy` (module `ReportRenderer`): `print_jira_issue` and
  `print_jira_report`. The output is a returned sequence of lines, one per
  `print` call.

Modelling choices:

- The Python dictionary is a sequence of records with unique keys, in
  insertion order.
  - Assigning to a key already present replaces that record in place.
  - Assigning to a new key appends a record.
  - The report iterates the records in that order.
- A falsy client is `None`; an empty project name is the empty string.
- Python's `find` returning -1 is `None`.
- The tracker server URL (the global `jira_server`) is a parameter.

## Model

| member | source | states |
|---|---|---|
| `TextTransforms.BugId` | SprintReport/sprint_report.py:10-21 | no "LP#" gives ""; the result is all digits; "LP#" followed by the result occurs at the first "LP#"; the character after it, if any, is not a digit (the run of digits is the longest one) |
| `TextTransforms.GetBugId` | SprintReport/sprint_report.py:10-21 | the character loop after the first "LP#" returns exactly `BugId(summary)` |
| `TextTransforms.DigitRun` | SprintReport/sprint_report.py:15-19 | the result is a prefix of its input, all digits, and is followed by a non-digit or the end |
| `TextTransforms.BugIdOfReference` | SprintReport/sprint_report.py:14-19 | the bug number of pre + "LP#" + digits + post is those digits, when pre holds no "LP#" and post does not start with a digit |
| `TextTransforms.MdLinkRoundTrip` | SprintReport/sprint_report.py:74-76 | the "[{}]({})" link parses back to its text and URL when the text holds no ']' |
| `TextTransforms.KeyToMdRoundTrip` | SprintReport/sprint_report.py:72-76 | the key link shows the key and points at server + "/browse/" + key |
| `TextTransforms.BugLinkRoundTrip` | SprintReport/sprint_report.py:80-83 | the bug link shows "LP#<id>" and points at "https://pad.lv/<id>" |
| `TextTransforms.InsertBugLinkNoMarker` | SprintReport/sprint_report.py:79-85 | a text without "LP#" comes back unchanged |
| `TextTransforms.InsertBugLinkFirstReference` | SprintReport/sprint_report.py:79-85 | the text before the first "LP#" is kept, the first reference becomes the link, and the scan resumes right after it |
| `TextTransforms.InsertBugLinkOutsideLinks` | SprintReport/sprint_report.py:79-85 | the result is the text cut at every occurrence of "LP#<id>" with the link between the pieces, and no piece holds "LP#<id>": no reference is left unreplaced outside a link |
| `TextTransforms.InsertBugLinkContainsLink` | SprintReport/sprint_report.py:79-85 | when the text holds "LP#", the result contains "[LP#<id>](https://pad.lv/<id>)" |
| `TextTransforms.KeyToMd` | SprintReport/sprint_report.py:72-76 | key_to_md with the server URL as a parameter: the link is exactly "[" + key + "](" + server + "/browse/" + key + ")" |
| `TextTransforms.InsertBugLink` | SprintReport/sprint_report.py:79-85 | insert_bug_link: every non-overlapping occurrence of "LP#" + the bug number, left to right, replaced by the bug link (its properties are the InsertBugLink lemmas above) |
| `Text.FindFrom` | SprintReport/sprint_report.py:14-15 | the result is an occurrence at or after the start with none before it, or None when there is no occurrence |
| `Text.Find` | SprintReport/sprint_report.py:15 | `s.find(p)`: the first occurrence of p, or None when p occurs nowhere |
| `Text.Contains` | SprintReport/sprint_report.py:14 | `p in s` holds exactly when p occurs somewhere in s |
| `Text.ReplaceAll` | SprintReport/sprint_report.py:85 | `re.sub(p, r, s)` for a literal pattern: a left-to-right scan replacing non-overlapping occurrences (its properties are the ReplaceAll lemmas below) |
| `Text.FindIs` | SprintReport/sprint_report.py:15 | `find` returns i exactly when i is the first occurrence |
| `Text.ReplaceAllAbsent` | SprintReport/sprint_report.py:85 | replace-all without an occurrence is the identity |
| `Text.ReplaceAllSplice` | SprintReport/sprint_report.py:85 | replace-all keeps the text before the first occurrence, substitutes it, and resumes after it |
| `Text.ReplaceAllFirst` | SprintReport/sprint_report.py:85 | the same, when the first occurrence of a prefix of the pattern is an occurrence of the whole pattern |
| `Text.ReplaceAllIsSpliceAll` | SprintReport/sprint_report.py:85 | the scanning replace-all equals the find-and-splice reference on every input |
| `Text.ReplaceAllIsJoin` | SprintReport/sprint_report.py:85 | replace-all equals `r.join(s.split(p))`; joining the pieces with p restores s; no piece contains p |
| `Text.ReplaceAllInserts` | SprintReport/sprint_report.py:85 | when the pattern occurs, the replacement occurs in the result |
| `SprintAggregator.Request` | SprintReport/sprint_report.py:37-39 | the search query for the sprint's completed issues that are not sub-tasks, ordered by epic link |
| `SprintAggregator.ToRecord` | SprintReport/sprint_report.py:52-66 | the record of an issue copies key, type and summary; epic and epic status are "Other" without a parent, else the fetched parent's summary and status |
| `SprintAggregator.Put` | SprintReport/sprint_report.py:61 | `d[r.key] = r`: an existing key keeps its position and takes the new record; a new key goes at the end (see PutShape, PutLookup) |
| `SprintAggregator.FindIssuesInSprint` | SprintReport/sprint_report.py:24-69 | a falsy client or empty project gives an empty dictionary, no goal and no search call; otherwise page k is requested at offset 50k, every page before the first empty one is non-empty, the dictionary is the records of all their issues and the goal is the last matching membership's |
| `SprintAggregator.Paginate` | SprintReport/sprint_report.py:28-66 | the `while True` loop stops at the first empty page, requests offsets 0, 50, 100, … and leaves the dictionary and goal of all pages read |
| `SprintAggregator.ScanPage` | SprintReport/sprint_report.py:48-66 | one page's issue loop takes the state after n pages to the state after n + 1 |
| `SprintAggregator.ScanSprints` | SprintReport/sprint_report.py:49-51 | the membership loop returns the goal of the last membership named after the sprint, or the goal it started with |
| `SprintAggregator.HarvestIsCollect` | SprintReport/sprint_report.py:35-66 | the state after n pages is the dictionary built from, and the goal scanned over, the concatenation of those pages |
| `SprintAggregator.PartialIsCollect` | SprintReport/sprint_report.py:48-66 | the state in the middle of a page is the dictionary and goal over every issue read so far |
| `SprintAggregator.IndexOf` | SprintReport/sprint_report.py:61 | finds the position holding a key, or None when no record has it |
| `SprintAggregator.PutShape` | SprintReport/sprint_report.py:61 | dictionary assignment appends exactly for a new key and keeps every existing key in its position |
| `SprintAggregator.PutLookup` | SprintReport/sprint_report.py:61 | after `d[k] = r`, `d[k]` is r and every other key maps to what it mapped to before |
| `SprintAggregator.CollectKeys` | SprintReport/sprint_report.py:61 | the dictionary holds one record per key, and its keys are the issues' keys |
| `SprintAggregator.FoundKeys` | SprintReport/sprint_report.py:35-61 | a key is in the result exactly when it is the key of an issue on a page before the first empty one |
| `SprintAggregator.PagesContents` | SprintReport/sprint_report.py:35-45 | an issue is among the pages read exactly when it is on one of them |
| `SprintAggregator.CollectLastWins` | SprintReport/sprint_report.py:52-66 | the record kept for a key comes from the last issue with that key: key, type and summary copied; epic and epic status "Other" without a parent, else the fetched parent's summary and status |
| `SprintAggregator.CollectSnoc` | SprintReport/sprint_report.py:61-66 | one more issue keeps every earlier key in its position and adds at most one record, for a key not seen before |
| `SprintAggregator.CollectOrder` | SprintReport/sprint_report.py:61-66 | records come in the order in which their keys first appear among the issues |
| `SprintAggregator.FirstWith` | SprintReport/sprint_report.py:61 | the first position of a key among the issues, or None when it is absent |
| `SprintAggregator.FirstWithSnoc` | SprintReport/sprint_report.py:61 | appending an issue keeps the first positions of keys already present, and puts a new key at the end |
| `SprintAggregator.LastGoalAppend` | SprintReport/sprint_report.py:49-51 | scanning memberships a + b is scanning a, then b from where a ended |
| `SprintAggregator.GoalOverMemberships` | SprintReport/sprint_report.py:48-51 | the goal over all issues is one scan over all their memberships in order |
| `SprintAggregator.SprintGoalNoMatch` | SprintReport/sprint_report.py:34-51 | without a membership named after the sprint the goal is "" |
| `SprintAggregator.SprintGoalLastMatch` | SprintReport/sprint_report.py:49-51 | otherwise the goal is that of the last such membership across all issues |
| `ReportRenderer.IssueLine` | SprintReport/sprint_report.py:88-95 | print_jira_issue: "   - " and the linkified summary when it holds "LP#", else "   - " + the key link + " : " + the summary (see IssueLineShape) |
| `ReportRenderer.IssueLineShape` | SprintReport/sprint_report.py:88-95 | every issue line starts with "   - "; when the summary holds "LP#" it contains the bug link; otherwise it is the key link, " : " and the summary |
| `ReportRenderer.EpicsSection` | SprintReport/sprint_report.py:102-107 | the specification of the first loop: a bullet for each Done epic that differs from the last Done epic listed (see the Epics lemmas) |
| `ReportRenderer.TaskLines` | SprintReport/sprint_report.py:109-115 | the specification of the second loop: per record, a group header when its epic differs from the previous record's, then its issue line (see the Task lemmas) |
| `ReportRenderer.RenderReport` | SprintReport/sprint_report.py:98-115 | an empty dictionary prints nothing; otherwise the Completed Epics header and bullets, then the Completed Tasks header and lines |
| `ReportRenderer.RenderEpics` | SprintReport/sprint_report.py:102-107 | the first loop prints exactly the Completed Epics section |
| `ReportRenderer.RenderTasks` | SprintReport/sprint_report.py:109-115 | the second loop prints exactly the Completed Tasks lines |
| `ReportRenderer.EpicsStep` | SprintReport/sprint_report.py:104-107 | a record adds its epic's bullet exactly when its epic status is Done and its epic differs from the last Done epic listed |
| `ReportRenderer.TasksStep` | SprintReport/sprint_report.py:111-115 | a record adds a group header exactly when its epic differs from the previous record's, then its issue line |
| `ReportRenderer.EpicsOnlyDone` | SprintReport/sprint_report.py:104-107 | every Completed Epics bullet names the epic of some record whose epic status is Done |
| `ReportRenderer.EpicsCoverDone` | SprintReport/sprint_report.py:104-107 | every non-empty Done epic gets a bullet |
| `ReportRenderer.EpicsNoRepeat` | SprintReport/sprint_report.py:104-107 | no epic is listed twice in a row, and the empty epic is never listed first |
| `ReportRenderer.CollapseClusteredDistinct` | SprintReport/sprint_report.py:111-114 | collapsing runs of a sequence whose equal values are adjacent leaves each value at most once |
| `ReportRenderer.GroupLines` | SprintReport/sprint_report.py:114 | one group header per record, in order, each " - " + epic + " " + epic status |
| `ReportRenderer.TaskHeaders` | SprintReport/sprint_report.py:111-115 | the group headers printed in Completed Tasks are exactly the headers of the records that open a run of equal epics, in order |
| `ReportRenderer.TaskHeadersSnoc` | SprintReport/sprint_report.py:111-115 | the last record adds its own group header when its epic differs from the previous record's, and no other header |
| `ReportRenderer.RunHeadsEpics` | SprintReport/sprint_report.py:111-113 | the epics of the records that open a run are the records' epics with each run collapsed to one |
| `ReportRenderer.TaskHeadersOncePerEpic` | SprintReport/sprint_report.py:111-114 | when records with equal epics are adjacent (the query orders by epic link, line 39), the printed group headers belong to records with pairwise different epics: each epic gets a header at most once |
| `ReportRenderer.TaskIssueLines` | SprintReport/sprint_report.py:111-115 | Completed Tasks holds exactly one issue line per record, in record order |
| `ReportRenderer.TaskLinesSnoc` | SprintReport/sprint_report.py:111-115 | the last record adds its issue line, and only that, to the issue lines of Completed Tasks |
| `ReportRenderer.TaskHeaderCount` | SprintReport/sprint_report.py:111-114 | Completed Tasks has one line per record plus one header per run of equal epics |

## Left out

- `main` and its argument parsing, credential loading and the construction of the Jira client: command-line and connection plumbing. The client enters the model as the abstract `Tracker`.
- Printing to standard output. The report is a returned sequence of lines, one per `print` call, without the newline `print` adds. The "Pulse Goal" line is not printed; the goal is returned instead (no goal on the early return, which prints nothing).
- `re.sub` as a regular-expression engine. The pattern "LP#<digits>" holds no metacharacters, and the replacement holds no backslashes, so only a literal, non-overlapping, left-to-right replace-all is modelled.
- `TextTransforms.IsDigit`: only ASCII '0'–'9'. Python's `str.isdigit` also accepts other Unicode digits, such as superscripts.
- `SprintAggregator.FindIssuesInSprint`: requires that some page of the search is empty, because the `while True` loop never ends otherwise. The number of pages and the offsets requested are reported as ghost outputs, not as a call log.
- Exceptions raised by the Jira client (`JIRAError`) and attribute errors on malformed issues: they only propagate, and there is no logic to model.
- The analytics that the test file expects (`print_analytics` and a second return value) do not exist in `sprint_report.py`; the model follows the code, whose early return is a bare empty dictionary.
- `str(epic.fields.status)` is taken to be the status name held by the fetched issue.
