/** The log-hours editor: the day's entries as the form holds them, each
    handler a function from the previous list to the next, the checks that
    enable the Save and Add buttons, and the browser's overtime preview. */
module LogHours {
  import opened Common
  import opened EntryRow
  import Overtime

  // ---------------------------------------------------------------------------
  // Adding an entry

  /** `allProjects.find(p => !selectedProjectIds.includes(p.id))`. */
  function FirstAvailable(projects: seq<Project>, selected: seq<string>): (r: Option<nat>)
    ensures r.Some? ==> r.value < |projects| && projects[r.value].id !in selected
    ensures r.Some? ==> forall k :: 0 <= k < r.value ==> projects[k].id in selected
    ensures r.None? ==> forall k :: 0 <= k < |projects| ==> projects[k].id in selected
    decreases |projects|
  {
    if projects == [] then None
    else if projects[0].id !in selected then Some(0)
    else
      match FirstAvailable(projects[1..], selected)
      case None => None
      case Some(k) => Some(k + 1)
  }

  /** `hasAvailableProject`: some project is not chosen by a row in use. */
  function HasAvailableProject(projects: seq<Project>, entries: seq<Entry>): (b: bool)
    ensures b <==> exists k :: 0 <= k < |projects| && projects[k].id !in SelectedProjectIds(entries)
  {
    FirstAvailable(projects, SelectedProjectIds(entries)).Some?
  }

  /** `handleAdd`: a new entry for the first free project with 0 hours, or no
      change when every project is taken. */
  function HandleAdd(entries: seq<Entry>, projects: seq<Project>, userId: string, date: string): (r: seq<Entry>)
    ensures !HasAvailableProject(projects, entries) ==> r == entries
    ensures HasAvailableProject(projects, entries) ==>
      |r| == |entries| + 1 && r[..|entries|] == entries
      && r[|entries|].status == New && r[|entries|].hours == Some(0.0) && r[|entries|].id.None?
      && r[|entries|].userId == userId && r[|entries|].date == date
      && r[|entries|].projectId !in SelectedProjectIds(entries)
      && (exists k :: 0 <= k < |projects| && projects[k] == Project(r[|entries|].projectId, r[|entries|].projectName)
            && forall k' :: 0 <= k' < k ==> projects[k'].id in SelectedProjectIds(entries))
  {
    match FirstAvailable(projects, SelectedProjectIds(entries))
    case None => entries
    case Some(k) =>
      var p := projects[k];
      var r := entries + [Entry(None, userId, p.id, p.name, date, Some(0.0), New)];
      assert r[..|entries|] == entries;
      r
  }

  /** An added row has 0 hours, so Save is disabled until hours are entered. */
  lemma AddDisablesSave(entries: seq<Entry>, projects: seq<Project>, userId: string, date: string)
    requires HasAvailableProject(projects, entries)
    ensures HasInvalidEntry(HandleAdd(entries, projects, userId, date))
  {
    var r := HandleAdd(entries, projects, userId, date);
    assert r[|entries|].status != Deleted && IsInvalid(r[|entries|]);
  }

  /** Adding never chooses a project a row in use already has. */
  lemma AddKeepsProjectsDistinct(entries: seq<Entry>, projects: seq<Project>, userId: string, date: string)
    requires forall i, j :: 0 <= i < j < |entries| && entries[i].status != Deleted && entries[j].status != Deleted
               ==> entries[i].projectId != entries[j].projectId
    ensures var r := HandleAdd(entries, projects, userId, date);
      forall i, j :: 0 <= i < j < |r| && r[i].status != Deleted && r[j].status != Deleted
        ==> r[i].projectId != r[j].projectId
  {
    var r := HandleAdd(entries, projects, userId, date);
    if HasAvailableProject(projects, entries) {
      forall i, j | 0 <= i < j < |r| && r[i].status != Deleted && r[j].status != Deleted
        ensures r[i].projectId != r[j].projectId
      {
        if j == |entries| {
          assert r[i] == entries[i];
        } else {
          assert r[i] == entries[i] && r[j] == entries[j];
        }
      }
    }
  }

  // ---------------------------------------------------------------------------
  // Editing an entry

  /** A loaded entry becomes edited; a new, edited or deleted one keeps its status. */
  function Touched(s: EntryStatus): (t: EntryStatus)
    ensures s == Unchanged ==> t == Edited
    ensures s != Unchanged ==> t == s
  {
    if s == Unchanged then Edited else s
  }

  function ProjectWithId(projects: seq<Project>, projectId: string): (r: Option<nat>)
    ensures r.Some? ==> r.value < |projects| && projects[r.value].id == projectId
    ensures r.None? ==> forall k :: 0 <= k < |projects| ==> projects[k].id != projectId
    decreases |projects|
  {
    if projects == [] then None
    else if projects[0].id == projectId then Some(0)
    else
      match ProjectWithId(projects[1..], projectId)
      case None => None
      case Some(k) => Some(k + 1)
  }

  /** `handleProjectChange`: the row at `index` takes the project, when the
      project exists; its name is not updated. An index past the end changes
      nothing. */
  function HandleProjectChange(entries: seq<Entry>, projects: seq<Project>, index: int, projectId: string): (r: seq<Entry>)
    ensures |r| == |entries|
    ensures forall i :: 0 <= i < |r| && i != index ==> r[i] == entries[i]
    ensures ProjectWithId(projects, projectId).None? ==> r == entries
    ensures ProjectWithId(projects, projectId).Some? && 0 <= index < |entries| ==>
      r[index] == entries[index].(projectId := projectId, status := Touched(entries[index].status))
  {
    if ProjectWithId(projects, projectId).None? then entries
    else
      seq(|entries|, i requires 0 <= i < |entries| =>
        if i == index then entries[i].(projectId := projectId, status := Touched(entries[i].status)) else entries[i])
  }

  /** `handleUpdate`: the row at `index` takes the hours. */
  function HandleUpdate(entries: seq<Entry>, index: int, value: Option<real>): (r: seq<Entry>)
    ensures |r| == |entries|
    ensures forall i :: 0 <= i < |r| && i != index ==> r[i] == entries[i]
    ensures 0 <= index < |entries| ==> r[index] == entries[index].(hours := value, status := Touched(entries[index].status))
  {
    seq(|entries|, i requires 0 <= i < |entries| =>
      if i == index then entries[i].(hours := value, status := Touched(entries[i].status)) else entries[i])
  }

  /** Editing the same row twice with the same value changes nothing more. */
  lemma UpdateIdempotent(entries: seq<Entry>, index: int, value: Option<real>)
    ensures HandleUpdate(HandleUpdate(entries, index, value), index, value) == HandleUpdate(entries, index, value)
  {
  }

  // ---------------------------------------------------------------------------
  // Deleting and cancelling

  /** `handleDelete`: a new row is removed, keeping the others in order; any
      other row is marked deleted where it stands. The row must exist: the
      source reads its status before anything else. */
  function HandleDelete(entries: seq<Entry>, index: nat): (r: seq<Entry>)
    requires index < |entries|
    ensures entries[index].status == New ==>
              (|r| == |entries| - 1
               && (forall i :: 0 <= i < index ==> r[i] == entries[i])
               && (forall i :: index <= i < |r| ==> r[i] == entries[i + 1]))
    ensures entries[index].status != New ==>
              (|r| == |entries|
               && r[index] == entries[index].(status := Deleted)
               && (forall i :: 0 <= i < |r| && i != index ==> r[i] == entries[i]))
  {
    if entries[index].status == New then entries[..index] + entries[index + 1..]
    else entries[index := entries[index].(status := Deleted)]
  }

  /** After a delete the row's project is free again, unless another row in
      use holds it too. */
  lemma DeleteFreesProject(entries: seq<Entry>, index: nat)
    requires index < |entries|
    requires forall j :: 0 <= j < |entries| && j != index && entries[j].status != Deleted ==> entries[j].projectId != entries[index].projectId
    ensures entries[index].projectId !in SelectedProjectIds(HandleDelete(entries, index))
  {
    var r := HandleDelete(entries, index);
    forall i | 0 <= i < |r| && r[i].status != Deleted
      ensures r[i].projectId != entries[index].projectId
    {
      if entries[index].status == New && i >= index {
        assert r[i] == entries[i + 1];
      }
    }
  }

  /** The editor: the rows shown and the rows last loaded or saved. */
  datatype Editor = Editor(entries: seq<Entry>, initialEntries: seq<Entry>)

  /** `handleCancel`: back to the rows last loaded or saved. */
  function HandleCancel(ed: Editor): (r: Editor)
    ensures r.entries == ed.initialEntries && r.initialEntries == ed.initialEntries
  {
    ed.(entries := ed.initialEntries)
  }

  /** The modal `handleSave` shows. */
  datatype Modal = Modal(status: string, message: string)

  /** `handleSave`: on success what is shown becomes what Cancel returns to;
      on failure the rows stay as they are. The request's outcome is given. */
  function HandleSave(ed: Editor, failure: Option<string>): (r: (Editor, Modal))
    ensures failure.None? ==> r.0 == Editor(ed.entries, ed.entries) && r.1 == Modal("success", "Successfully saved!")
    ensures failure.Some? ==> r.0 == ed && r.1 == Modal("error", "Something went wrong. Error:" + failure.value)
  {
    if failure.None? then (ed.(initialEntries := ed.entries), Modal("success", "Successfully saved!"))
    else (ed, Modal("error", "Something went wrong. Error:" + failure.value))
  }

  /** Cancelling right after a successful save changes nothing. */
  lemma CancelAfterSave(ed: Editor)
    ensures HandleCancel(HandleSave(ed, None).0) == HandleSave(ed, None).0
  {
  }

  /** Cancelling undoes any edits made since the last load or save. */
  lemma CancelUndoesEdits(ed: Editor, index: int, value: Option<real>, projects: seq<Project>, projectId: string)
    ensures HandleCancel(ed.(entries := HandleUpdate(ed.entries, index, value))) == HandleCancel(ed)
    ensures HandleCancel(ed.(entries := HandleProjectChange(ed.entries, projects, index, projectId))) == HandleCancel(ed)
  {
  }

  // ---------------------------------------------------------------------------
  // The button checks

  /** `hasInvalidEntry`: some row in use is invalid. Save is disabled while it holds. */
  function HasInvalidEntry(entries: seq<Entry>): (b: bool)
    ensures b <==> exists i :: 0 <= i < |entries| && entries[i].status != Deleted && IsInvalid(entries[i])
    decreases |entries|
  {
    if entries == [] then false
    else if entries[0].status != Deleted && IsInvalid(entries[0]) then true
    else
      var rest := HasInvalidEntry(entries[1..]);
      assert rest ==> exists i :: 0 <= i < |entries| && entries[i].status != Deleted && IsInvalid(entries[i]) by {
        if rest {
          var i :| 0 <= i < |entries[1..]| && entries[1..][i].status != Deleted && IsInvalid(entries[1..][i]);
          assert entries[i + 1] == entries[1..][i];
        }
      }
      assert (exists i :: 0 <= i < |entries| && entries[i].status != Deleted && IsInvalid(entries[i])) ==> rest by {
        if exists i :: 0 <= i < |entries| && entries[i].status != Deleted && IsInvalid(entries[i]) {
          var i :| 0 <= i < |entries| && entries[i].status != Deleted && IsInvalid(entries[i]);
          assert entries[1..][i - 1] == entries[i];
        }
      }
      rest
  }

  /** Deleting an invalid row of a loaded entry never makes Save disabled where
      it was not: deleted rows are not checked. */
  lemma DeletedRowsNotChecked(entries: seq<Entry>, index: nat)
    requires index < |entries|
    requires !HasInvalidEntry(entries[index := entries[index].(status := Unchanged)])
    ensures !HasInvalidEntry(entries[index := entries[index].(status := Deleted)])
  {
    var before := entries[index := entries[index].(status := Unchanged)];
    var after := entries[index := entries[index].(status := Deleted)];
    forall i | 0 <= i < |after| && after[i].status != Deleted
      ensures !IsInvalid(after[i])
    {
      assert after[i] == before[i];
    }
  }

  // ---------------------------------------------------------------------------
  // The overtime preview

  const PREVIEW_RATE_1: real := 1.33
  const PREVIEW_RATE_2: real := 1.66

  /** `e.hours ?? 0`. */
  function HoursOrZero(e: Entry): real
  {
    if e.hours.Some? then e.hours.value else 0.0
  }

  /** The rows in use. */
  function LiveEntries(entries: seq<Entry>): seq<Entry>
  {
    Filter(entries, (e: Entry) => e.status != Deleted)
  }

  /** The preview's total: the hours of the rows in use, a blank counting 0. */
  function LiveHours(entries: seq<Entry>): real
  {
    Sum(LiveEntries(entries), HoursOrZero)
  }

  datatype Preview = Preview(total: real, regular: real, overtime: real, overtime1: real, overtime2: real, otPay: real)

  /** `OvertimeCalculator` for a user with this hourly rate. */
  function OvertimePreview(entries: seq<Entry>, hourlyRate: real): (p: Preview)
    ensures p.total == LiveHours(entries)
    ensures p.regular + p.overtime == p.total
    ensures p.regular <= 8.0 && p.overtime >= 0.0
    ensures p.overtime > 0.0 ==> p.regular == 8.0
    ensures 0.0 <= p.overtime1 <= 2.0 && 0.0 <= p.overtime2 <= 2.0
    ensures p.overtime2 > 0.0 ==> p.overtime1 == 2.0
    ensures p.overtime1 + p.overtime2 == (if p.overtime <= 4.0 then p.overtime else 4.0)
    ensures p.otPay == p.overtime1 * hourlyRate * PREVIEW_RATE_1 + p.overtime2 * hourlyRate * PREVIEW_RATE_2
  {
    var total := LiveHours(entries);
    var regular := if total <= 8.0 then total else 8.0;
    var overtime := if total - 8.0 >= 0.0 then total - 8.0 else 0.0;
    var overtime1 := if overtime <= 2.0 then overtime else 2.0;
    var overtime2 := if overtime1 == 2.0 then (if overtime - overtime1 <= 2.0 then overtime - overtime1 else 2.0) else 0.0;
    Preview(total, regular, overtime, overtime1, overtime2,
            overtime1 * hourlyRate * PREVIEW_RATE_1 + overtime2 * hourlyRate * PREVIEW_RATE_2)
  }

  /** Up to 12 hours in the day the preview splits the overtime as the server
      does and shows the server's pay times the hourly rate. */
  lemma PreviewMatchesServerUpTo12(entries: seq<Entry>, hourlyRate: real)
    requires LiveHours(entries) <= 12.0
    ensures var p := OvertimePreview(entries, hourlyRate);
      p.overtime == Overtime.OvertimeHours(p.total)
      && p.overtime1 == Overtime.Tier1(p.overtime) && p.overtime2 == Overtime.Tier2(p.overtime)
      && p.otPay == hourlyRate * Overtime.OvertimePay(p.overtime)
  {
  }

  /** Past 12 hours the preview stops counting second-tier hours at 2; the
      server counts them all. */
  lemma PreviewCapsSecondTier(entries: seq<Entry>, hourlyRate: real)
    requires LiveHours(entries) > 12.0
    ensures var p := OvertimePreview(entries, hourlyRate);
      p.overtime2 == 2.0 && Overtime.Tier2(p.overtime) > 2.0
  {
  }

  /** The rows in use around one row. */
  lemma LiveAround(pre: seq<Entry>, x: Entry, post: seq<Entry>)
    ensures LiveEntries(pre + [x] + post)
         == LiveEntries(pre) + (if x.status != Deleted then [x] else []) + LiveEntries(post)
  {
    var live := (e: Entry) => e.status != Deleted;
    FilterAppend(pre + [x], post, live);
    FilterAppend(pre, [x], live);
  }

  lemma SplitAround(s: seq<Entry>, i: nat)
    requires i < |s|
    ensures s == s[..i] + [s[i]] + s[i + 1..]
  {
  }

  /** One row's share of the preview's total. */
  lemma LiveHoursAround(pre: seq<Entry>, x: Entry, post: seq<Entry>)
    ensures LiveHours(pre + [x] + post)
         == LiveHours(pre) + (if x.status != Deleted then HoursOrZero(x) else 0.0) + LiveHours(post)
  {
    LiveAround(pre, x, post);
    var a, b := LiveEntries(pre), LiveEntries(post);
    var mid := if x.status != Deleted then [x] else [];
    SumAppend(a + mid, b, HoursOrZero);
    SumAppend(a, mid, HoursOrZero);
  }

  /** Deleting a loaded row takes its hours out of the preview's total. */
  lemma DeleteTakesOutHours(entries: seq<Entry>, index: nat)
    requires index < |entries| && entries[index].status != Deleted && entries[index].status != New
    ensures LiveHours(HandleDelete(entries, index)) == LiveHours(entries) - HoursOrZero(entries[index])
  {
    var after := HandleDelete(entries, index);
    SplitAround(entries, index);
    SplitAround(after, index);
    assert after[..index] == entries[..index] && after[index + 1..] == entries[index + 1..];
    LiveHoursAround(entries[..index], entries[index], entries[index + 1..]);
    LiveHoursAround(entries[..index], after[index], entries[index + 1..]);
  }
}
