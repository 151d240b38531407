/** The inline keyboards of `internal/bot/auth_handlers.go` (the active-task
    list and the task-details keyboard) and the text of the task-details
    message. The repository calls are inputs: a `Result` holding the tasks or
    the repository's error. */
module TaskKeyboards {
  import opened Wrappers
  import opened Text
  import opened Slices

  /** `models.ActiveTask`. */
  datatype ActiveTask = ActiveTask(id: int, description: string)

  /** A `telebot.InlineButton`: callback name, label and callback data. */
  datatype InlineButton = InlineButton(unique: string, text: string, data: string)

  type InlineRow = seq<InlineButton>

  const TaskDetailsUnique := "task_details"
  const LeaveCommentUnique := "leave_comment"
  const LeaveCommentText := "💬 Leave a comment"
  const ErrInternal := "🚫 Internal server error, please try again later"
  const NoActiveTasksText := "🎉 You have no active tasks!"
  const ActiveTasksText := "Here is a list of your active tasks:"
  const KeyboardErrorPrefix := "failed to get active tasks for keyboard: "

  /** Task buttons per row. */
  const RowWidth := 3

  /** The button for one task: labelled `#<id>`, carrying the id as its data. */
  function TaskButton(t: ActiveTask): (b: InlineButton)
    ensures b.unique == TaskDetailsUnique && b.text == "#" + b.data
    ensures ParseDecimal(b.data) == Some(t.id)
  {
    ParseDecimalRoundTrip(t.id);
    InlineButton(TaskDetailsUnique, "#" + DecimalString(t.id), DecimalString(t.id))
  }

  function TaskButtons(tasks: seq<ActiveTask>): seq<InlineButton> {
    seq(|tasks|, i requires 0 <= i < |tasks| => TaskButton(tasks[i]))
  }

  /** Buttons cut into consecutive rows of `RowWidth`, the last row holding
      what is left. */
  function Chunks(bs: seq<InlineButton>): (rows: seq<InlineRow>)
    ensures forall k :: 0 <= k < |rows| ==> 0 < |rows[k]| <= RowWidth
    decreases |bs|
  {
    if |bs| == 0 then []
    else if |bs| <= RowWidth then [bs]
    else [bs[..RowWidth]] + Chunks(bs[RowWidth..])
  }

  function FlattenRows(rows: seq<InlineRow>): seq<InlineButton>
    decreases |rows|
  {
    if |rows| == 0 then [] else rows[0] + FlattenRows(rows[1..])
  }

  /** The rows of task buttons both handlers build. */
  function TaskRows(tasks: seq<ActiveTask>): seq<InlineRow> {
    Chunks(TaskButtons(tasks))
  }

  /** Chunking loses, duplicates and reorders nothing; every row holds one to
      `RowWidth` buttons, every row but the last is full, and there are
      ceil(n / 3) rows. */
  lemma {:induction false} ChunksShape(bs: seq<InlineButton>)
    ensures var rows := Chunks(bs);
            FlattenRows(rows) == bs &&
            |rows| == (|bs| + RowWidth - 1) / RowWidth &&
            (forall k :: 0 <= k < |rows| ==> 1 <= |rows[k]| <= RowWidth) &&
            (forall k :: 0 <= k < |rows| - 1 ==> |rows[k]| == RowWidth)
    decreases |bs|
  {
    if |bs| > RowWidth {
      var rest := Chunks(bs[RowWidth..]);
      ChunksShape(bs[RowWidth..]);
      var rows := Chunks(bs);
      assert rows == [bs[..RowWidth]] + rest;
      assert rows[1..] == rest;
      assert FlattenRows(rows) == bs[..RowWidth] + bs[RowWidth..];
      forall k | 1 <= k < |rows|
        ensures 1 <= |rows[k]| <= RowWidth && (k < |rows| - 1 ==> |rows[k]| == RowWidth)
      {
        assert rows[k] == rest[k - 1];
      }
    } else if |bs| > 0 {
      assert FlattenRows([bs]) == bs + FlattenRows([]);
    }
  }

  /** Each task gets one button, in task order. */
  lemma {:induction false} TaskRowsButtons(tasks: seq<ActiveTask>)
    ensures var flat := FlattenRows(TaskRows(tasks));
            |flat| == |tasks| && forall i :: 0 <= i < |tasks| ==> flat[i] == TaskButton(tasks[i])
  {
    ChunksShape(TaskButtons(tasks));
  }

  /** Chunks of a prefix that fills `r` whole rows are followed by the chunks
      of the rest. */
  lemma {:induction false} ChunksAppend(a: seq<InlineButton>, b: seq<InlineButton>, r: nat)
    requires |a| == RowWidth * r
    ensures Chunks(a + b) == Chunks(a) + Chunks(b)
    decreases r
  {
    if r == 0 {
      assert a + b == b;
    } else {
      ChunksAppend(a[RowWidth..], b, r - 1);
      assert Chunks(a) == [a[..RowWidth]] + Chunks(a[RowWidth..]) by {
        if |a| == RowWidth {
          assert a[RowWidth..] == [] && a[..RowWidth] == a;
        }
      }
      if |b| == 0 {
        assert a + b == a;
      } else {
        assert (a + b)[..RowWidth] == a[..RowWidth];
        assert (a + b)[RowWidth..] == a[RowWidth..] + b;
      }
    }
  }

  /** Closing the pending row, which starts after `r` full rows, extends the
      chunks by that row. */
  lemma {:induction false} ChunkStep(bs: seq<InlineButton>, q: nat, r: nat, idx: nat)
    requires q == RowWidth * r && q <= idx < |bs| && idx - q < RowWidth
    ensures Chunks(bs[..q]) + [bs[q..idx + 1]] == Chunks(bs[..idx + 1])
  {
    var pending := bs[q..idx + 1];
    assert bs[..idx + 1] == bs[..q] + pending;
    ChunksAppend(bs[..q], pending, r);
    assert Chunks(pending) == [pending];
  }

  /** Within the row that starts after `r` full rows, the position after
      `idx` is a row boundary exactly when it ends that row. */
  lemma {:induction false} RowBoundary(q: nat, r: nat, idx: nat)
    requires q == RowWidth * r && q <= idx && idx - q < RowWidth
    ensures (idx + 1) % RowWidth == 0 <==> idx + 1 == RowWidth * (r + 1)
  {
    if idx == q {
      assert idx + 1 == RowWidth * r + 1;
    } else if idx == q + 1 {
      assert idx + 1 == RowWidth * r + 2;
    } else {
      assert idx + 1 == RowWidth * (r + 1);
    }
  }

  /** One task of the chunking loop: its button joins the pending row, and a
      row closed here is the next chunk. */
  lemma {:induction false} ChunkLoopStep(bs: seq<InlineButton>, q: nat, r: nat, idx: nat, close: bool,
                                         rows: seq<InlineRow>, pending: InlineRow, btn: InlineButton)
    requires q == RowWidth * r && q <= idx < |bs| && idx - q < RowWidth
    requires close == ((idx + 1) % RowWidth == 0 || idx == |bs| - 1)
    requires rows == Chunks(bs[..q]) && pending == bs[q..idx] && btn == bs[idx]
    ensures close ==> rows + [pending + [btn]] == Chunks(bs[..idx + 1])
    ensures close ==> idx + 1 == RowWidth * (r + 1) || idx + 1 == |bs|
    ensures !close ==> pending + [btn] == bs[q..idx + 1] && idx + 1 - q < RowWidth && idx + 1 < |bs|
  {
    SliceSnoc(bs, q, idx);
    RowBoundary(q, r, idx);
    if close {
      ChunkStep(bs, q, r, idx);
    }
  }

  /** The loop of `activeTasksHandler` and of `buildTaskKeyboard`: append each
      task's button to the pending row, and close the row after every third
      task and after the last one. */
  method ChunkTaskButtons(tasks: seq<ActiveTask>) returns (rows: seq<InlineRow>)
    ensures rows == TaskRows(tasks)
  {
    ghost var bs := TaskButtons(tasks);
    ghost var q: nat := 0;
    ghost var r: nat := 0;
    rows := [];
    var buttons: InlineRow := [];
    for idx := 0 to |tasks|
      invariant q <= idx && idx - q < RowWidth
      invariant idx < |tasks| ==> q == RowWidth * r
      invariant idx == |tasks| ==> q == idx
      invariant rows == Chunks(bs[..q])
      invariant buttons == bs[q..idx]
    {
      var btn := TaskButton(tasks[idx]);
      var close := (idx + 1) % RowWidth == 0 || idx == |tasks| - 1;
      ChunkLoopStep(bs, q, r, idx, close, rows, buttons, btn);
      buttons := buttons + [btn];
      if close {
        rows := rows + [buttons];
        buttons := [];
        q, r := idx + 1, r + 1;
      }
    }
    assert bs[..|tasks|] == bs;
  }

  /** `activeTasksHandler`: the internal-error text when the lookup fails, the
      no-tasks text and no keyboard when there are none, and otherwise the
      list text with the task rows. */
  method ActiveTasksReply(fetched: Result<seq<ActiveTask>, string>) returns (text: string, keyboard: Option<seq<InlineRow>>)
    ensures fetched.Failure? ==> text == ErrInternal && keyboard == None
    ensures fetched.Success? && |fetched.value| == 0 ==> text == NoActiveTasksText && keyboard == None
    ensures fetched.Success? && |fetched.value| > 0 ==>
              text == ActiveTasksText && keyboard == Some(TaskRows(fetched.value))
  {
    if fetched.Failure? {
      return ErrInternal, None;
    }
    var tasks := fetched.value;
    if |tasks| == 0 {
      return NoActiveTasksText, None;
    }
    var rows := ChunkTaskButtons(tasks);
    return ActiveTasksText, Some(rows);
  }

  /** The button that starts a comment on the task being shown. */
  function CommentButton(currentTaskId: int): (b: InlineButton)
    ensures b.unique == LeaveCommentUnique && b.text == LeaveCommentText
    ensures ParseDecimal(b.data) == Some(currentTaskId)
  {
    ParseDecimalRoundTrip(currentTaskId);
    InlineButton(LeaveCommentUnique, LeaveCommentText, DecimalString(currentTaskId))
  }

  /** `buildTaskKeyboard`: a wrapped error when the lookup fails; otherwise a
      first row holding only the comment button for the current task,
      followed by the task rows. */
  method BuildTaskKeyboard(fetched: Result<seq<ActiveTask>, string>, currentTaskId: int)
    returns (r: Result<seq<InlineRow>, string>)
    ensures fetched.Failure? ==> r == Failure(KeyboardErrorPrefix + fetched.error)
    ensures fetched.Success? ==> r.Success? && |r.value| >= 1 &&
                                 r.value[0] == [CommentButton(currentTaskId)] &&
                                 r.value[1..] == TaskRows(fetched.value)
  {
    if fetched.Failure? {
      return Failure(KeyboardErrorPrefix + fetched.error);
    }
    var rows: seq<InlineRow> := [[CommentButton(currentTaskId)]];
    var taskRows := ChunkTaskButtons(fetched.value);
    rows := rows + taskRows;
    return Success(rows);
  }

  // ---------------------------------------------------------------------
  // The task-details message

  /** What `formatTaskDetails` reads of a task. The creation date comes
      already formatted as `dd.mm.yyyy`, and the map link, present when the
      task has both coordinates, already built. */
  datatype TaskCard = TaskCard(
    id: int,
    taskType: string,
    created: string,
    customerNames: seq<string>,
    address: string,
    description: string,
    executors: seq<string>,
    comments: seq<string>,
    mapUrl: Option<string>)

  const ClientHeading := "\n*Client Name:* "
  const AddressHeading := "\n*Address:* "
  const CommentsHeading := "\n*Comments:*\n- "
  const NoLocationLine := "\n\n📍 *Location not added yet*"

  function DetailsHeader(d: TaskCard): string {
    "*Task details #" + DecimalString(d.id) + "*\n\n*Type:* " + d.taskType + "\n*Created:* " + d.created
  }

  function ClientLine(d: TaskCard): string {
    if |d.customerNames| > 0 then ClientHeading + Join(d.customerNames, ", ") else ""
  }

  function DetailsBody(d: TaskCard): string {
    AddressHeading + (d.address + "\n*Description:* " + d.description + "\n*Assigned to:* " + Join(d.executors, ", "))
  }

  function CommentsSection(d: TaskCard): string {
    if |d.comments| > 0 then CommentsHeading + Join(d.comments, ";\n- ") else ""
  }

  function LocationLine(d: TaskCard): string {
    if d.mapUrl.Some? then "\n\n[📍 Open on map](" + d.mapUrl.value + ")" else NoLocationLine
  }

  /** `formatTaskDetails`. */
  function FormatTaskDetails(d: TaskCard): (text: string)
    ensures DetailsHeader(d) <= text
    ensures |LocationLine(d)| <= |text| && text[|text| - |LocationLine(d)|..] == LocationLine(d)
  {
    var text := DetailsHeader(d) + (ClientLine(d) + (DetailsBody(d) + (CommentsSection(d) + LocationLine(d))));
    FirstAndLast(DetailsHeader(d), ClientLine(d), DetailsBody(d), CommentsSection(d), LocationLine(d));
    text
  }

  /** Five pieces joined: the first opens the text and the last closes it. */
  lemma {:induction false} FirstAndLast(a: string, b: string, c: string, e: string, z: string)
    ensures var text := a + (b + (c + (e + z)));
            a <= text && |z| <= |text| && text[|text| - |z|..] == z
  {
    var text := a + (b + (c + (e + z)));
    assert text == (a + b + c + e) + z;
    assert text[..|a|] == a;
    EndsWith(a + b + c + e, z);
  }

  /** The header comes first, and right after it comes the client line if and
      only if the task has customer names; with none, the address line follows
      the header directly. */
  lemma {:induction false} ClientLineIffCustomers(d: TaskCard)
    ensures var text := FormatTaskDetails(d);
            var header := DetailsHeader(d);
            header <= text &&
            ((|d.customerNames| > 0) <==> header + ClientHeading <= text) &&
            (|d.customerNames| == 0 ==> header + AddressHeading <= text)
  {
    var header := DetailsHeader(d);
    var rest := ClientLine(d) + (DetailsBody(d) + (CommentsSection(d) + LocationLine(d)));
    assert FormatTaskDetails(d) == header + rest;
    ClientRestIff(d);
    PrefixShift(header, ClientHeading, rest);
    PrefixShift(header, AddressHeading, rest);
  }

  /** What follows the header opens with the client heading exactly when there
      are customer names, and otherwise with the address heading. */
  lemma {:induction false} ClientRestIff(d: TaskCard)
    ensures var rest := ClientLine(d) + (DetailsBody(d) + (CommentsSection(d) + LocationLine(d)));
            ((|d.customerNames| > 0) <==> ClientHeading <= rest) &&
            (|d.customerNames| == 0 ==> AddressHeading <= rest)
  {
    var after := DetailsBody(d) + (CommentsSection(d) + LocationLine(d));
    var rest := ClientLine(d) + after;
    if |d.customerNames| > 0 {
      OpensWith(ClientHeading, Join(d.customerNames, ", "), after);
    } else {
      var body := d.address + "\n*Description:* " + d.description + "\n*Assigned to:* " + Join(d.executors, ", ");
      assert rest == (AddressHeading + body) + (CommentsSection(d) + LocationLine(d));
      OpensWith(AddressHeading, body, CommentsSection(d) + LocationLine(d));
      DiffersAt(ClientHeading, rest, 2);
    }
  }

  /** The comments section sits between the executors and the location line,
      and is there if and only if the task has comments; the message always
      ends with the map link or the no-location line. */
  lemma {:induction false} CommentsIffComments(d: TaskCard)
    ensures var text := FormatTaskDetails(d);
            var beforeComments := DetailsHeader(d) + (ClientLine(d) + DetailsBody(d));
            (|d.comments| == 0 ==> text == beforeComments + LocationLine(d)) &&
            (|d.comments| > 0 ==> text == beforeComments + (CommentsHeading + Join(d.comments, ";\n- ") + LocationLine(d)))
    ensures d.mapUrl.None? ==> FormatTaskDetails(d)[|FormatTaskDetails(d)| - |NoLocationLine|..] == NoLocationLine
  {
    var body := DetailsBody(d);
    var tail := CommentsSection(d) + LocationLine(d);
    AppendAssociates(ClientLine(d), body, tail);
    AppendAssociates(DetailsHeader(d), ClientLine(d) + body, tail);
    var head := DetailsHeader(d) + (ClientLine(d) + body);
    if |d.comments| == 0 {
      assert tail == LocationLine(d);
    }
    if d.mapUrl.None? {
      AppendAssociates(head, CommentsSection(d), NoLocationLine);
      EndsWith(head + CommentsSection(d), NoLocationLine);
    }
  }

  lemma {:induction false} EndsWith(a: string, b: string)
    ensures (a + b)[|a + b| - |b|..] == b
  {
    assert (a + b)[|a|..] == b;
  }

  /** Right after the executors, the comments heading appears if and only if
      the task has comments (otherwise the location line begins there). */
  lemma {:induction false} CommentsHeadingIff(d: TaskCard)
    ensures var beforeComments := DetailsHeader(d) + (ClientLine(d) + DetailsBody(d));
            (|d.comments| > 0) <==> beforeComments + CommentsHeading <= FormatTaskDetails(d)
  {
    var body := DetailsBody(d);
    var tail := CommentsSection(d) + LocationLine(d);
    AppendAssociates(ClientLine(d), body, tail);
    AppendAssociates(DetailsHeader(d), ClientLine(d) + body, tail);
    CommentsTailIff(d);
    PrefixShift(DetailsHeader(d) + (ClientLine(d) + body), CommentsHeading, tail);
  }

  /** After the executors, the text opens with the comments heading exactly
      when there are comments. */
  lemma {:induction false} CommentsTailIff(d: TaskCard)
    ensures (|d.comments| > 0) <==> CommentsHeading <= CommentsSection(d) + LocationLine(d)
  {
    if |d.comments| > 0 {
      OpensWith(CommentsHeading, Join(d.comments, ";\n- "), LocationLine(d));
    } else {
      assert CommentsSection(d) + LocationLine(d) == LocationLine(d);
      LocationLineOpens(d);
      DiffersAt(CommentsHeading, LocationLine(d), 1);
    }
  }

  /** Both location lines open with a blank line. */
  lemma {:induction false} LocationLineOpens(d: TaskCard)
    ensures |LocationLine(d)| > 1 && LocationLine(d)[1] == '\n'
  {
  }

  lemma {:induction false} OpensWith(a: string, b: string, c: string)
    ensures a <= (a + b) + c
  {
    assert ((a + b) + c)[..|a|] == a;
  }

  lemma {:induction false} PrefixShift(a: string, x: string, y: string)
    ensures a <= a + y
    ensures (a + x <= a + y) <==> x <= y
  {
    assert (a + y)[..|a|] == a;
    if a + x <= a + y {
      assert (a + y)[|a|..|a| + |x|] == y[..|x|];
      assert (a + x)[|a|..] == x;
    }
    if x <= y {
      assert (a + y)[..|a| + |x|] == a + x;
    }
  }

  lemma {:induction false} DiffersAt(x: string, y: string, i: nat)
    requires i < |x| && i < |y| && x[i] != y[i]
    ensures !(x <= y)
  {
  }
}
