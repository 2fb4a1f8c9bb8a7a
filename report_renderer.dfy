/** print_jira_report and print_jira_issue: the Markdown report of the
    completed issues. Each element of a returned line sequence is the text
    of one print call (print adds the newline). The records come in
    dictionary order; the tracker server URL is a parameter. */
module ReportRenderer {
  import opened Text
  import opened TextTransforms
  import opened SprintAggregator

  const EpicsHeader: string := "---\nCompleted Epics:\n"
  const TasksHeader: string := "\n---\nCompleted Tasks:\n"

  /** The epic status that puts an epic in the Completed Epics section. */
  const Done: string := "Done"

  const IssuePrefix: string := "   - "

  /** One bullet of the Completed Epics section. */
  function EpicLine(epic: string): string
  {
    " - " + epic
  }

  /** The group header of the Completed Tasks section. */
  function GroupLine(r: Record): string
  {
    " - " + r.epic + " " + r.epicStatus
  }

  /** Lines printed for one issue (they start with three blanks). */
  predicate IsIssueLine(line: string)
  {
    |line| >= |IssuePrefix| && line[..|IssuePrefix|] == IssuePrefix
  }

  /** print_jira_issue: a summary with a bug reference is printed alone,
      linkified; any other summary follows the issue's key link. */
  function IssueLine(server: string, r: Record): string
  {
    if Contains(r.summary, Marker) then IssuePrefix + InsertBugLink(r.summary)
    else IssuePrefix + KeyToMd(server, r.key) + " : " + r.summary
  }

  /** Every issue line is a second-level bullet; with a bug reference it
      carries the bug link, otherwise it is the key link, " : " and the
      summary. */
  lemma IssueLineShape(server: string, r: Record)
    ensures IsIssueLine(IssueLine(server, r))
    ensures Contains(r.summary, Marker) ==> Contains(IssueLine(server, r), BugLink(BugId(r.summary)))
    ensures !Contains(r.summary, Marker) ==>
      IssueLine(server, r)[|IssuePrefix|..] == KeyToMd(server, r.key) + " : " + r.summary
  {
    if Contains(r.summary, Marker) {
      InsertBugLinkContainsLink(r.summary);
      ContainsWithin(IssuePrefix, InsertBugLink(r.summary), BugLink(BugId(r.summary)));
    }
  }

  // ---------------------------------------------------------------------
  // The Completed Epics section.

  /** The epics of the records whose epic status is Done, in order. */
  function DoneEpics(s: seq<Record>): seq<string>
  {
    if s == [] then []
    else
      var last := s[|s| - 1];
      DoneEpics(s[..|s| - 1]) + (if last.epicStatus == Done then [last.epic] else [])
  }

  /** The last element of xs, or `prev` when xs is empty. */
  function Last(prev: string, xs: seq<string>): string
  {
    if xs == [] then prev else xs[|xs| - 1]
  }

  /** The elements of xs that differ from the element before them (the
      first one is compared with `prev`): runs of equal neighbours
      collapse to one. */
  function Collapse(prev: string, xs: seq<string>): seq<string>
  {
    if xs == [] then []
    else
      var init := xs[..|xs| - 1];
      Collapse(prev, init) + (if xs[|xs| - 1] != Last(prev, init) then [xs[|xs| - 1]] else [])
  }

  function EpicLines(epics: seq<string>): (lines: seq<string>)
    ensures |lines| == |epics|
    ensures forall k :: 0 <= k < |epics| ==> lines[k] == EpicLine(epics[k])
  {
    if epics == [] then [] else EpicLines(epics[..|epics| - 1]) + [EpicLine(epics[|epics| - 1])]
  }

  /** The Completed Epics bullets: the Done epics, each listed unless it
      equals the Done epic listed just before it. */
  function EpicsSection(s: seq<Record>): seq<string>
  {
    EpicLines(Collapse("", DoneEpics(s)))
  }

  // ---------------------------------------------------------------------
  // The Completed Tasks section.

  /** The epic of the last record, or "" when there is none. */
  function PrevEpic(s: seq<Record>): string
  {
    if s == [] then "" else s[|s| - 1].epic
  }

  /** The Completed Tasks lines: each record gets a group header when its
      epic differs from the previous record's (the first is compared with
      ""), then its issue line. */
  function TaskLines(server: string, s: seq<Record>): seq<string>
  {
    if s == [] then []
    else
      var init := s[..|s| - 1];
      var r := s[|s| - 1];
      TaskLines(server, init) + (if r.epic != PrevEpic(init) then [GroupLine(r)] else []) + [IssueLine(server, r)]
  }

  // ---------------------------------------------------------------------
  // The operation.

  /** print_jira_report: nothing for an empty dictionary; otherwise the
      Completed Epics header and bullets, then the Completed Tasks header,
      group headers and issue lines. */
  method RenderReport(server: string, issues: seq<Record>) returns (out: seq<string>)
    ensures issues == [] ==> out == []
    ensures issues != [] ==>
      out == [EpicsHeader] + EpicsSection(issues) + [TasksHeader] + TaskLines(server, issues)
  {
    if issues == [] {
      return [];
    }
    var epicLines := RenderEpics(issues);
    var taskLines := RenderTasks(server, issues);
    out := [EpicsHeader] + epicLines + [TasksHeader] + taskLines;
  }

  /** The first loop of print_jira_report: a bullet for each Done epic
      that differs from the last one printed. */
  method RenderEpics(issues: seq<Record>) returns (epicLines: seq<string>)
    ensures epicLines == EpicsSection(issues)
  {
    var epic := "";
    epicLines := [];
    var i := 0;
    assert issues[..0] == [];
    while i < |issues|
      invariant 0 <= i <= |issues|
      invariant epic == Last("", DoneEpics(issues[..i]))
      invariant epicLines == EpicsSection(issues[..i])
    {
      EpicsStep(issues, i);
      if epic != issues[i].epic && issues[i].epicStatus == Done {
        epic := issues[i].epic;
        epicLines := epicLines + [EpicLine(issues[i].epic)];
      }
      i := i + 1;
    }
    assert issues[..i] == issues;
  }

  /** The second loop of print_jira_report: a group header whenever the
      epic changes, then print_jira_issue for the record. */
  method RenderTasks(server: string, issues: seq<Record>) returns (taskLines: seq<string>)
    ensures taskLines == TaskLines(server, issues)
  {
    var epic := "";
    taskLines := [];
    var i := 0;
    assert PrevEpic(issues[..0]) == "" && TaskLines(server, issues[..0]) == [];
    while i < |issues|
      invariant 0 <= i <= |issues|
      invariant epic == PrevEpic(issues[..i])
      invariant taskLines == TaskLines(server, issues[..i])
    {
      var r := issues[i];
      TasksStep(server, issues, i);
      if epic != r.epic {
        epic := r.epic;
        taskLines := taskLines + [GroupLine(r)];
      }
      taskLines := taskLines + [IssueLine(server, r)];
      i := i + 1;
      assert epic == PrevEpic(issues[..i]);
    }
    assert issues[..i] == issues;
  }

  /** One record of the Completed Epics loop: it extends the section by
      the record's epic when that is Done and differs from the last Done
      epic. */
  lemma EpicsStep(s: seq<Record>, i: nat)
    requires i < |s|
    ensures var prev, r := Last("", DoneEpics(s[..i])), s[i];
      && EpicsSection(s[..i + 1])
         == EpicsSection(s[..i]) + (if prev != r.epic && r.epicStatus == Done then [EpicLine(r.epic)] else [])
      && Last("", DoneEpics(s[..i + 1])) == (if r.epicStatus == Done then r.epic else prev)
  {
    var r := s[i];
    assert s[..i + 1][..i] == s[..i];
    var done := DoneEpics(s[..i]);
    var done' := DoneEpics(s[..i + 1]);
    assert done' == done + (if r.epicStatus == Done then [r.epic] else []);
    if r.epicStatus == Done {
      assert done'[..|done'| - 1] == done;
      var c := Collapse("", done);
      var c' := Collapse("", done');
      assert c' == c + (if r.epic != Last("", done) then [r.epic] else []);
      if r.epic != Last("", done) {
        assert EpicLines(c')[..|c|] == EpicLines(c);
        assert EpicLines(c') == EpicLines(c) + [EpicLine(r.epic)];
      } else {
        assert EpicLines(c') == EpicLines(c);
      }
      assert Last("", done') == r.epic;
    } else {
      assert done' == done;
    }
  }

  /** One record of the Completed Tasks loop. */
  lemma TasksStep(server: string, s: seq<Record>, i: nat)
    requires i < |s|
    ensures TaskLines(server, s[..i + 1])
            == TaskLines(server, s[..i])
               + (if s[i].epic != PrevEpic(s[..i]) then [GroupLine(s[i])] else [])
               + [IssueLine(server, s[i])]
    ensures PrevEpic(s[..i + 1]) == s[i].epic
  {
    assert s[..i + 1][..i] == s[..i];
  }

  // ---------------------------------------------------------------------
  // Properties of the sections.

  /** Collapse keeps only elements of xs. */
  lemma {:induction false} CollapseFrom(prev: string, xs: seq<string>, k: nat)
    requires k < |Collapse(prev, xs)|
    ensures Collapse(prev, xs)[k] in xs
    decreases |xs|
  {
    var init := xs[..|xs| - 1];
    if k < |Collapse(prev, init)| {
      CollapseFrom(prev, init, k);
    }
  }

  /** The last element kept is the last element of xs (or prev). */
  lemma {:induction false} CollapseLast(prev: string, xs: seq<string>)
    ensures Last(prev, Collapse(prev, xs)) == Last(prev, xs)
    decreases |xs|
  {
    if xs != [] {
      CollapseLast(prev, xs[..|xs| - 1]);
    }
  }

  /** No two neighbours of Collapse are equal, and its first element
      differs from prev. */
  lemma {:induction false} CollapseNoRepeat(prev: string, xs: seq<string>)
    ensures var c := Collapse(prev, xs);
      && (c != [] ==> c[0] != prev)
      && forall k :: 0 < k < |c| ==> c[k - 1] != c[k]
    decreases |xs|
  {
    if xs != [] {
      var init := xs[..|xs| - 1];
      CollapseNoRepeat(prev, init);
      CollapseLast(prev, init);
    }
  }

  /** Every element of xs is kept by Collapse, unless it equals prev. */
  lemma {:induction false} CollapseCovers(prev: string, xs: seq<string>, k: nat)
    requires k < |xs| && xs[k] != prev
    ensures xs[k] in Collapse(prev, xs)
    decreases |xs|
  {
    var init := xs[..|xs| - 1];
    if k < |xs| - 1 {
      CollapseCovers(prev, init, k);
    } else if xs[k] == Last(prev, init) {
      // the same value ends init: it was kept there
      assert init != [];
      CollapseCovers(prev, init, |init| - 1);
    }
  }

  /** The records whose Done epics are listed. */
  lemma {:induction false} DoneEpicsFrom(s: seq<Record>, k: nat)
    requires k < |DoneEpics(s)|
    ensures exists j :: 0 <= j < |s| && s[j].epicStatus == Done && s[j].epic == DoneEpics(s)[k]
    decreases |s|
  {
    var init := s[..|s| - 1];
    if k < |DoneEpics(init)| {
      DoneEpicsFrom(init, k);
      var j :| 0 <= j < |init| && init[j].epicStatus == Done && init[j].epic == DoneEpics(init)[k];
      assert s[j] == init[j];
    } else {
      assert s[|s| - 1].epicStatus == Done;
    }
  }

  lemma {:induction false} DoneEpicsHas(s: seq<Record>, j: nat)
    requires j < |s| && s[j].epicStatus == Done
    ensures s[j].epic in DoneEpics(s)
    decreases |s|
  {
    var init := s[..|s| - 1];
    if j < |s| - 1 {
      assert init[j] == s[j];
      DoneEpicsHas(init, j);
    }
  }

  /** Completed Epics lists only epics whose status is Done. */
  lemma EpicsOnlyDone(s: seq<Record>, k: nat)
    requires k < |EpicsSection(s)|
    ensures exists j :: 0 <= j < |s| && s[j].epicStatus == Done && EpicsSection(s)[k] == EpicLine(s[j].epic)
  {
    var c := Collapse("", DoneEpics(s));
    CollapseFrom("", DoneEpics(s), k);
    var d :| 0 <= d < |DoneEpics(s)| && DoneEpics(s)[d] == c[k];
    DoneEpicsFrom(s, d);
  }

  /** Completed Epics lists every non-empty Done epic. (An empty Done epic
      is skipped only while no other Done epic precedes it, since the
      last listed epic starts as "".) */
  lemma EpicsCoverDone(s: seq<Record>, j: nat)
    requires j < |s| && s[j].epicStatus == Done && s[j].epic != ""
    ensures EpicLine(s[j].epic) in EpicsSection(s)
  {
    var xs := DoneEpics(s);
    DoneEpicsHas(s, j);
    var d :| 0 <= d < |xs| && xs[d] == s[j].epic;
    CollapseCovers("", xs, d);
    var c := Collapse("", xs);
    var e :| 0 <= e < |c| && c[e] == s[j].epic;
    assert EpicsSection(s)[e] == EpicLine(s[j].epic);
  }

  /** No epic is listed twice in a row, and the empty epic is never
      listed first. */
  lemma EpicsNoRepeat(s: seq<Record>)
    ensures var c := Collapse("", DoneEpics(s));
      && EpicsSection(s) == EpicLines(c)
      && (c != [] ==> c[0] != "")
      && forall k :: 0 < k < |c| ==> c[k - 1] != c[k]
  {
    CollapseNoRepeat("", DoneEpics(s));
  }

  /** Entries with equal values are next to each other. */
  predicate Clustered(xs: seq<string>)
  {
    forall a, b, c :: 0 <= a < b < c < |xs| && xs[a] == xs[c] ==> xs[b] == xs[a]
  }

  /** When equal values are adjacent (the search orders issues by parent),
      Collapse keeps every value at most once. */
  lemma {:induction false} CollapseClusteredDistinct(prev: string, xs: seq<string>)
    requires Clustered(xs)
    ensures var c := Collapse(prev, xs); forall a, b :: 0 <= a < b < |c| ==> c[a] != c[b]
    decreases |xs|
  {
    if xs != [] {
      var init := xs[..|xs| - 1];
      var x := xs[|xs| - 1];
      assert Clustered(init);
      CollapseClusteredDistinct(prev, init);
      var c0 := Collapse(prev, init);
      if x != Last(prev, init) {
        // an earlier x would force the last value of init to be x as well
        forall j | 0 <= j < |init| ensures init[j] != x {
          var before := xs[|xs| - 2];
          assert init[j] == xs[j] && Last(prev, init) == before;
          assert xs[j] == x ==> before == x;
        }
        forall a | 0 <= a < |c0| ensures c0[a] != x {
          CollapseFrom(prev, init, a);
        }
      }
    }
  }

  /** The epics of a sequence of records. */
  function Epics(s: seq<Record>): (e: seq<string>)
    ensures |e| == |s|
    ensures forall k :: 0 <= k < |s| ==> e[k] == s[k].epic
  {
    if s == [] then [] else Epics(s[..|s| - 1]) + [s[|s| - 1].epic]
  }

  /** The issue lines among a sequence of lines. */
  function IssueLines(lines: seq<string>): seq<string>
  {
    if lines == [] then []
    else
      var last := lines[|lines| - 1];
      IssueLines(lines[..|lines| - 1]) + (if IsIssueLine(last) then [last] else [])
  }

  lemma {:induction false} IssueLinesAppend(a: seq<string>, b: seq<string>)
    ensures IssueLines(a + b) == IssueLines(a) + IssueLines(b)
    decreases |b|
  {
    if b == [] {
      assert a + b == a;
    } else {
      assert (a + b)[..|a + b| - 1] == a + b[..|b| - 1];
      IssueLinesAppend(a, b[..|b| - 1]);
    }
  }

  /** The issue lines of a sequence of records, in order. */
  function IssueLinesOf(server: string, s: seq<Record>): seq<string>
  {
    if s == [] then [] else IssueLinesOf(server, s[..|s| - 1]) + [IssueLine(server, s[|s| - 1])]
  }

  /** Completed Tasks holds exactly one issue line per record, in record
      order; the group headers are not issue lines. */
  lemma {:induction false} TaskIssueLines(server: string, s: seq<Record>)
    ensures IssueLines(TaskLines(server, s)) == IssueLinesOf(server, s)
    decreases |s|
  {
    if s != [] {
      TaskIssueLines(server, s[..|s| - 1]);
      TaskLinesSnoc(server, s);
    }
  }

  /** The last record adds its issue line, and only that, to the issue
      lines of Completed Tasks. */
  lemma TaskLinesSnoc(server: string, s: seq<Record>)
    requires s != []
    ensures IssueLines(TaskLines(server, s))
      == IssueLines(TaskLines(server, s[..|s| - 1])) + [IssueLine(server, s[|s| - 1])]
  {
    var init, r := s[..|s| - 1], s[|s| - 1];
    var header := if r.epic != PrevEpic(init) then [GroupLine(r)] else [];
    if header != [] {
      GroupLineNotIssue(r);
    }
    IssueLineShape(server, r);
    IssueLinesSkip(TaskLines(server, init), header, IssueLine(server, r));
  }

  /** Lines that are not issue lines drop out; an issue line is kept. */
  lemma IssueLinesSkip(pre: seq<string>, header: seq<string>, line: string)
    requires forall k :: 0 <= k < |header| ==> !IsIssueLine(header[k])
    requires |header| <= 1 && IsIssueLine(line)
    ensures IssueLines(pre + header + [line]) == IssueLines(pre) + [line]
  {
    var all := pre + header + [line];
    assert all[..|all| - 1] == pre + header;
    IssueLinesAppend(pre, header);
    if header != [] {
      assert header[..0] == [];
    }
  }

  /** A group header is not an issue line: its second character is '-'. */
  lemma GroupLineNotIssue(r: Record)
    ensures !IsIssueLine(GroupLine(r))
  {
    var g := GroupLine(r);
    assert g[1] == '-';
    if |g| >= |IssuePrefix| {
      assert g[..|IssuePrefix|][1] == '-';
      assert IssuePrefix[1] == ' ';
    }
  }

  /** Completed Tasks holds one group header per run of records with the
      same epic: its length is the number of records plus the number of
      runs (a leading run with the empty epic gets no header). */
  lemma {:induction false} TaskHeaderCount(server: string, s: seq<Record>)
    ensures |TaskLines(server, s)| == |s| + |Collapse("", Epics(s))|
    decreases |s|
  {
    if s != [] {
      var init := s[..|s| - 1];
      TaskHeaderCount(server, init);
      assert Epics(s)[..|Epics(s)| - 1] == Epics(init);
      assert Last("", Epics(init)) == PrevEpic(init);
    }
  }

  /** The group headers among a sequence of lines: the lines that are not
      issue lines. */
  function Headers(lines: seq<string>): seq<string>
  {
    if lines == [] then []
    else
      var last := lines[|lines| - 1];
      Headers(lines[..|lines| - 1]) + (if IsIssueLine(last) then [] else [last])
  }

  lemma {:induction false} HeadersAppend(a: seq<string>, b: seq<string>)
    ensures Headers(a + b) == Headers(a) + Headers(b)
    decreases |b|
  {
    if b == [] {
      assert a + b == a;
    } else {
      assert (a + b)[..|a + b| - 1] == a + b[..|b| - 1];
      HeadersAppend(a, b[..|b| - 1]);
    }
  }

  /** A header line is kept and an issue line dropped. */
  lemma HeadersSkip(pre: seq<string>, header: seq<string>, line: string)
    requires forall k :: 0 <= k < |header| ==> !IsIssueLine(header[k])
    requires |header| <= 1 && IsIssueLine(line)
    ensures Headers(pre + header + [line]) == Headers(pre) + header
  {
    var all := pre + header + [line];
    assert all[..|all| - 1] == pre + header && all[|all| - 1] == line;
    assert Headers(all) == Headers(pre + header);
    HeadersAppend(pre, header);
    if header != [] {
      assert header[..0] == [];
      assert Headers(header) == header;
    }
  }

  /** The records that open a run of equal epics: those whose epic differs
      from the previous record's (the first is compared with ""). */
  function RunHeads(s: seq<Record>): seq<Record>
  {
    if s == [] then []
    else
      var init := s[..|s| - 1];
      RunHeads(init) + (if s[|s| - 1].epic != PrevEpic(init) then [s[|s| - 1]] else [])
  }

  /** The group headers of a sequence of records. */
  function GroupLines(rs: seq<Record>): (lines: seq<string>)
    ensures |lines| == |rs|
    ensures forall k :: 0 <= k < |rs| ==> lines[k] == GroupLine(rs[k])
  {
    if rs == [] then [] else GroupLines(rs[..|rs| - 1]) + [GroupLine(rs[|rs| - 1])]
  }

  /** The group headers printed in Completed Tasks are those of the run
      heads, in order. */
  lemma {:induction false} TaskHeaders(server: string, s: seq<Record>)
    ensures Headers(TaskLines(server, s)) == GroupLines(RunHeads(s))
    decreases |s|
  {
    if s != [] {
      var init, r := s[..|s| - 1], s[|s| - 1];
      TaskHeaders(server, init);
      TaskHeadersSnoc(server, s);
      if r.epic != PrevEpic(init) {
        var x := RunHeads(init) + [r];
        assert x[..|x| - 1] == RunHeads(init);
      }
    }
  }

  /** The last record adds its group header, if it gets one, and no other
      header. */
  lemma TaskHeadersSnoc(server: string, s: seq<Record>)
    requires s != []
    ensures var init, r := s[..|s| - 1], s[|s| - 1];
      Headers(TaskLines(server, s))
      == Headers(TaskLines(server, init)) + (if r.epic != PrevEpic(init) then [GroupLine(r)] else [])
  {
    var init, r := s[..|s| - 1], s[|s| - 1];
    var header := if r.epic != PrevEpic(init) then [GroupLine(r)] else [];
    if header != [] {
      GroupLineNotIssue(r);
    }
    IssueLineShape(server, r);
    HeadersSkip(TaskLines(server, init), header, IssueLine(server, r));
  }

  /** The epics of the run heads are the epics of the records with each run
      collapsed to one. */
  lemma {:induction false} RunHeadsEpics(s: seq<Record>)
    ensures Epics(RunHeads(s)) == Collapse("", Epics(s))
    decreases |s|
  {
    if s != [] {
      var init, r := s[..|s| - 1], s[|s| - 1];
      RunHeadsEpics(init);
      assert Epics(s)[..|Epics(s)| - 1] == Epics(init);
      assert Last("", Epics(init)) == PrevEpic(init);
      if r.epic != PrevEpic(init) {
        var x := RunHeads(init) + [r];
        assert x[..|x| - 1] == RunHeads(init);
      }
    }
  }

  /** When the records are clustered by epic (the search orders them by
      epic link), the group headers of Completed Tasks belong to records
      with pairwise different epics: each epic gets a header at most once. */
  lemma TaskHeadersOncePerEpic(server: string, s: seq<Record>)
    requires Clustered(Epics(s))
    ensures Headers(TaskLines(server, s)) == GroupLines(RunHeads(s))
    ensures forall a, b :: 0 <= a < b < |RunHeads(s)| ==> RunHeads(s)[a].epic != RunHeads(s)[b].epic
  {
    TaskHeaders(server, s);
    RunHeadsEpics(s);
    CollapseClusteredDistinct("", Epics(s));
  }
}
