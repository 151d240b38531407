/** The data side of `internal/report/report.go`: grouping completed tasks by
    type, naming one sheet per type, and placing the header, the data rows and
    the table on it. The workbook itself (styles, widths, the file buffer) is
    not modelled; a sheet is the record of what would be written to it. */
module Report {
  import opened Wrappers
  import opened Text

  const ErrNoTasks := "failed to generate report, 0 task were provided"
  const RepoErrorPrefix := "failed to get tasks from repo: "

  /** The longest sheet name the workbook accepts, in runes. */
  const MaxSheetNameLength := 31

  /** The column titles go on row 1 (`SetSheetRow` at cell A1). */
  const HeaderRow := 1

  /** Data rows start below the header row. */
  const HeaderIndex := 2

  const Headers: seq<string> := ["Task ID", "Creation Date", "Description", "Address", "Customer"]

  /** What the report reads of a `models.TaskDetails`; the creation date comes
      already formatted. */
  datatype ReportTask = ReportTask(
    id: int,
    taskType: string,
    created: string,
    description: string,
    address: string,
    customerName: string)

  // ---------------------------------------------------------------------
  // Sheet names

  /** `truncateSheetName`: the first 31 runes of the name. A string here is a
      sequence of runes. */
  function TruncateSheetName(name: string): (r: string)
    ensures r <= name
    ensures |r| == if |name| <= MaxSheetNameLength then |name| else MaxSheetNameLength
  {
    if |name| > MaxSheetNameLength then name[..MaxSheetNameLength] else name
  }

  /** `strings.ReplaceAll(s, " ", "")`. */
  function WithoutSpaces(s: string): (r: string)
    ensures |r| <= |s|
    ensures forall c :: c in r <==> c in s && c != ' '
    decreases |s|
  {
    if |s| == 0 then ""
    else
      var init := WithoutSpaces(s[..|s| - 1]);
      var last := s[|s| - 1];
      assert s == s[..|s| - 1] + [last];
      if last == ' ' then init else init + [last]
  }

  /** Removing the spaces distributes over concatenation: order and multiplicity are kept. */
  lemma {:induction false} WithoutSpacesAppend(a: string, b: string)
    ensures WithoutSpaces(a + b) == WithoutSpaces(a) + WithoutSpaces(b)
    decreases |b|
  {
    if |b| == 0 {
      assert a + b == a;
    } else {
      var init := b[..|b| - 1];
      WithoutSpacesAppend(a, init);
      assert (a + b)[..|a + b| - 1] == a + init;
      assert (a + b)[|a + b| - 1] == b[|b| - 1];
    }
  }

  /** Removing the spaces keeps every other character, in order. */
  lemma {:induction false} WithoutSpacesKeepsOthers(s: string)
    requires forall i :: 0 <= i < |s| ==> s[i] != ' '
    ensures WithoutSpaces(s) == s
    decreases |s|
  {
    if |s| > 0 {
      WithoutSpacesKeepsOthers(s[..|s| - 1]);
      assert s == s[..|s| - 1] + [s[|s| - 1]];
    }
  }

  // ---------------------------------------------------------------------
  // Grouping by type

  /** The tasks of one type, in input order. */
  function OfType(tasks: seq<ReportTask>, t: string): (r: seq<ReportTask>)
    ensures |r| <= |tasks|
    decreases |tasks|
  {
    if |tasks| == 0 then []
    else
      var init := OfType(tasks[..|tasks| - 1], t);
      var last := tasks[|tasks| - 1];
      assert tasks == tasks[..|tasks| - 1] + [last];
      if last.taskType == t then init + [last] else init
  }

  /** A type that no task has gets an empty bucket. */
  lemma {:induction false} OfTypeAbsent(tasks: seq<ReportTask>, t: string)
    requires forall i :: 0 <= i < |tasks| ==> tasks[i].taskType != t
    ensures OfType(tasks, t) == []
    decreases |tasks|
  {
    if |tasks| > 0 {
      OfTypeAbsent(tasks[..|tasks| - 1], t);
    }
  }

  /** Taking one more task extends its own type's bucket by it and leaves
      every other bucket as it was. */
  lemma {:induction false} OfTypeSnoc(tasks: seq<ReportTask>, i: nat, t: string)
    requires i < |tasks|
    ensures OfType(tasks[..i + 1], t) ==
            if tasks[i].taskType == t then OfType(tasks[..i], t) + [tasks[i]] else OfType(tasks[..i], t)
  {
    assert tasks[..i + 1][..i] == tasks[..i];
  }

  /** A bucket holds exactly the tasks of its type. */
  lemma {:induction false} OfTypeMembers(tasks: seq<ReportTask>, t: string)
    ensures forall x :: x in OfType(tasks, t) <==> x in tasks && x.taskType == t
    decreases |tasks|
  {
    if |tasks| > 0 {
      var init := tasks[..|tasks| - 1];
      OfTypeMembers(init, t);
      assert tasks == init + [tasks[|tasks| - 1]];
    }
  }

  /** Every task is in exactly one bucket: the buckets of two different types
      share no task, and a task's own bucket holds it. */
  lemma {:induction false} BucketsPartition(tasks: seq<ReportTask>, t: string, u: string)
    ensures t != u ==> forall x :: x in OfType(tasks, t) ==> x !in OfType(tasks, u)
    ensures forall i :: 0 <= i < |tasks| && tasks[i].taskType == t ==> tasks[i] in OfType(tasks, t)
  {
    OfTypeMembers(tasks, t);
    OfTypeMembers(tasks, u);
  }

  /** The types the tasks have. */
  function TypesOf(tasks: seq<ReportTask>): set<string> {
    set i | 0 <= i < |tasks| :: tasks[i].taskType
  }

  lemma {:induction false} TypesOfSnoc(tasks: seq<ReportTask>, i: nat)
    requires i < |tasks|
    ensures TypesOf(tasks[..i + 1]) == TypesOf(tasks[..i]) + {tasks[i].taskType}
  {
    var prefix := tasks[..i + 1];
    assert prefix[i] == tasks[i];
    forall t | t in TypesOf(tasks[..i])
      ensures t in TypesOf(prefix)
    {
      var j :| 0 <= j < i && tasks[..i][j].taskType == t;
      assert prefix[j] == tasks[..i][j];
    }
    forall t | t in TypesOf(prefix)
      ensures t in TypesOf(tasks[..i]) + {tasks[i].taskType}
    {
      var j :| 0 <= j < i + 1 && prefix[j].taskType == t;
      if j < i {
        assert tasks[..i][j] == prefix[j];
      }
    }
  }

  /** One step of the grouping loop: appending task i to its bucket turns
      the grouping of the first i tasks into that of the first i + 1. */
  lemma {:induction false} GroupStep(tasks: seq<ReportTask>, i: nat, before: map<string, seq<ReportTask>>,
                                     after: map<string, seq<ReportTask>>)
    requires i < |tasks|
    requires before.Keys == TypesOf(tasks[..i])
    requires forall t :: t in before ==> before[t] == OfType(tasks[..i], t)
    requires var key := tasks[i].taskType;
             after == before[key := (if key in before then before[key] else []) + [tasks[i]]]
    ensures after.Keys == TypesOf(tasks[..i + 1])
    ensures forall t :: t in after ==> after[t] == OfType(tasks[..i + 1], t)
  {
    var key := tasks[i].taskType;
    if key !in before {
      OfTypeAbsent(tasks[..i], key);
    }
    forall t | t in after
      ensures after[t] == OfType(tasks[..i + 1], t)
    {
      OfTypeSnoc(tasks, i, t);
      if t != key {
        assert t in before && after[t] == before[t];
      }
    }
    TypesOfSnoc(tasks, i);
  }

  /** The grouping loop of `GenerateExcelReport`: each task is appended to the
      bucket of its type. */
  method GroupByType(tasks: seq<ReportTask>) returns (groups: map<string, seq<ReportTask>>)
    ensures groups.Keys == TypesOf(tasks)
    ensures forall t :: t in groups ==> groups[t] == OfType(tasks, t)
  {
    groups := map[];
    for i := 0 to |tasks|
      invariant groups.Keys == TypesOf(tasks[..i])
      invariant forall t :: t in groups ==> groups[t] == OfType(tasks[..i], t)
    {
      var task := tasks[i];
      var bucket := if task.taskType in groups then groups[task.taskType] else [];
      ghost var before := groups;
      groups := groups[task.taskType := bucket + [task]];
      GroupStep(tasks, i, before, groups);
    }
    assert tasks[..|tasks|] == tasks;
  }

  // ---------------------------------------------------------------------
  // Sheets

  /** One data row: its row number and the task written there. */
  datatype SheetRow = SheetRow(rowNum: int, task: ReportTask)

  /** What `setupSheet` and `addRow` write on a sheet. */
  datatype Sheet = Sheet(
    name: string,
    headerRow: int,
    header: seq<string>,
    tableRange: string,
    tableName: string,
    rows: seq<SheetRow>)

  /** `setupSheet`: the header row and a table spanning it and `taskCount`
      data rows, named after the sheet without its spaces. */
  function SetupSheet(sheetName: string, taskCount: nat): Sheet {
    Sheet(sheetName, HeaderRow, Headers, "A1:E" + DecimalString(taskCount + 1), "table_" + WithoutSpaces(sheetName), [])
  }

  function DataRows(tasks: seq<ReportTask>): seq<SheetRow> {
    seq(|tasks|, i requires 0 <= i < |tasks| => SheetRow(i + HeaderIndex, tasks[i]))
  }

  /** The sheet of one task type. */
  function SheetOf(taskType: string, tasks: seq<ReportTask>): (sheet: Sheet)
    ensures sheet.name <= taskType && |sheet.name| <= MaxSheetNameLength
    ensures sheet.headerRow == HeaderRow && |sheet.rows| == |tasks|
  {
    SetupSheet(TruncateSheetName(taskType), |tasks|).(rows := DataRows(tasks))
  }

  /** The layout of a sheet: row 1 holds the five column titles, and the
      i-th task of the type sits on row i + 2, below it; the table's range is `A1:E` followed by a
      number that reads back as the last data row (the header row when there
      are no tasks); and the table's name has no spaces. */
  lemma {:induction false} SheetLayout(taskType: string, tasks: seq<ReportTask>)
    ensures var sheet := SheetOf(taskType, tasks);
            sheet.headerRow == 1 &&
            sheet.header == ["Task ID", "Creation Date", "Description", "Address", "Customer"] &&
            |sheet.rows| == |tasks| &&
            (forall i :: 0 <= i < |tasks| ==> sheet.rows[i].rowNum > sheet.headerRow) &&
            (forall i :: 0 <= i < |tasks| ==> sheet.rows[i].rowNum == i + 2 && sheet.rows[i].task == tasks[i]) &&
            "A1:E" <= sheet.tableRange &&
            ParseDecimal(sheet.tableRange[4..]) == Some(|tasks| + 1) &&
            (|tasks| > 0 ==> |tasks| + 1 == sheet.rows[|tasks| - 1].rowNum) &&
            sheet.tableName == "table_" + WithoutSpaces(sheet.name) &&
            "table_" <= sheet.tableName && ' ' !in sheet.tableName[6..] &&
            |sheet.name| <= MaxSheetNameLength
  {
    var sheet := SheetOf(taskType, tasks);
    assert sheet.tableRange[4..] == DecimalString(|tasks| + 1);
    ParseDecimalRoundTrip(|tasks| + 1);
    assert sheet.tableName[6..] == WithoutSpaces(sheet.name);
  }

  /** `setupSheet` followed by the row loop of `addSheets` for one type. */
  method AddSheet(taskType: string, tasksInType: seq<ReportTask>) returns (sheet: Sheet)
    ensures sheet == SheetOf(taskType, tasksInType)
  {
    var sheetName := TruncateSheetName(taskType);
    sheet := SetupSheet(sheetName, |tasksInType|);
    for i := 0 to |tasksInType|
      invariant sheet == SetupSheet(sheetName, |tasksInType|).(rows := DataRows(tasksInType[..i]))
    {
      assert DataRows(tasksInType[..i + 1]) == DataRows(tasksInType[..i]) + [SheetRow(i + HeaderIndex, tasksInType[i])];
      sheet := sheet.(rows := sheet.rows + [SheetRow(i + HeaderIndex, tasksInType[i])]);
    }
    assert tasksInType[..|tasksInType|] == tasksInType;
  }

  /** `addSheets`: one sheet per group. The source visits the groups in map
      order, which is unspecified; here any order may be taken. */
  method AddSheets(groups: map<string, seq<ReportTask>>) returns (sheets: map<string, Sheet>)
    ensures sheets.Keys == groups.Keys
    ensures forall t :: t in groups ==> sheets[t] == SheetOf(t, groups[t])
  {
    sheets := map[];
    var remaining := groups.Keys;
    while remaining != {}
      invariant remaining <= groups.Keys
      invariant sheets.Keys == groups.Keys - remaining
      invariant forall t :: t in sheets ==> sheets[t] == SheetOf(t, groups[t])
      decreases |remaining|
    {
      var t :| t in remaining;
      var sheet := AddSheet(t, groups[t]);
      sheets := sheets[t := sheet];
      remaining := remaining - {t};
    }
  }

  /** `GenerateExcelReport` with the repository's answer as input: a wrapped
      error when the lookup fails, `ErrNoTasks` when there is nothing to
      report, and otherwise one sheet for each task type present, holding that
      type's tasks in order. */
  method GenerateExcelReport(fetched: Result<seq<ReportTask>, string>) returns (r: Result<map<string, Sheet>, string>)
    ensures fetched.Failure? ==> r == Failure(RepoErrorPrefix + fetched.error)
    ensures fetched.Success? && |fetched.value| == 0 ==> r == Failure(ErrNoTasks)
    ensures fetched.Success? && |fetched.value| > 0 ==>
              r.Success? &&
              r.value.Keys == TypesOf(fetched.value) &&
              (forall t :: t in r.value ==> r.value[t] == SheetOf(t, OfType(fetched.value, t)))
  {
    if fetched.Failure? {
      return Failure(RepoErrorPrefix + fetched.error);
    }
    var tasks := fetched.value;
    if |tasks| == 0 {
      return Failure(ErrNoTasks);
    }
    var tasksByType := GroupByType(tasks);
    var sheets := AddSheets(tasksByType);
    return Success(sheets);
  }
}
