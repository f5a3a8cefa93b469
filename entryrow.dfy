/** One editable row of the log-hours form: the entry it shows, when it is
    marked invalid and with which message, which project options it disables,
    and what its hours input hands back. */
module EntryRow {
  import opened Common

  /** Where an entry stands against what was loaded. */
  datatype EntryStatus = New | Edited | Deleted | Unchanged

  /** A time entry as the form holds it; `hours` is `None` for a blanked input. */
  datatype Entry = Entry(id: Option<string>, userId: string, projectId: string, projectName: string,
                         date: string, hours: Option<real>, status: EntryStatus)

  datatype Project = Project(id: string, name: string)

  /** `isInvalid`: no project chosen, or no hours, or hours not above 0. */
  predicate IsInvalid(e: Entry)
  {
    e.projectId == "" || e.hours.None? || e.hours.value <= 0.0
  }

  /** The message under an invalid row, and none under a valid one. */
  function RowMessage(e: Entry): (m: Option<string>)
    ensures m.None? <==> !IsInvalid(e)
    ensures m == Some("Please select a project.") <==> e.projectId == ""
    ensures m == Some("Hours must be greater than 0.") <==>
      e.projectId != "" && (e.hours.None? || e.hours.value <= 0.0)
  {
    if !IsInvalid(e) then None
    else if e.projectId == "" then Some("Please select a project.")
    else Some("Hours must be greater than 0.")
  }

  /** The project ids of the entries that are not deleted, in order. */
  function SelectedProjectIds(entries: seq<Entry>): (ids: seq<string>)
    ensures forall id :: id in ids <==> exists i :: 0 <= i < |entries| && entries[i].status != Deleted && entries[i].projectId == id
    decreases |entries|
  {
    if entries == [] then []
    else
      var rest := SelectedProjectIds(entries[1..]);
      assert forall id :: id in rest <==> exists i :: 1 <= i < |entries| && entries[i].status != Deleted && entries[i].projectId == id by {
        forall id ensures id in rest <==> exists i :: 1 <= i < |entries| && entries[i].status != Deleted && entries[i].projectId == id {
          if id in rest {
            var i :| 0 <= i < |entries[1..]| && entries[1..][i].status != Deleted && entries[1..][i].projectId == id;
            assert entries[i + 1] == entries[1..][i];
          }
          if exists i :: 1 <= i < |entries| && entries[i].status != Deleted && entries[i].projectId == id {
            var i :| 1 <= i < |entries| && entries[i].status != Deleted && entries[i].projectId == id;
            assert entries[1..][i - 1] == entries[i];
          }
        }
      }
      if entries[0].status != Deleted then [entries[0].projectId] + rest else rest
  }

  /** A project option is disabled when another row already uses it. */
  predicate OptionDisabled(p: Project, selectedProjectIds: seq<string>, e: Entry)
  {
    p.id in selectedProjectIds && p.id != e.projectId
  }

  /** In a form's rows, row `i` disables exactly the projects that some other
      row still in use has chosen, and never its own. */
  lemma DisabledIffTakenElsewhere(entries: seq<Entry>, i: nat, p: Project)
    requires i < |entries|
    ensures OptionDisabled(p, SelectedProjectIds(entries), entries[i]) <==>
      p.id != entries[i].projectId
      && exists j :: 0 <= j < |entries| && j != i && entries[j].status != Deleted && entries[j].projectId == p.id
  {
  }

  /** The hours input: a cleared field gives `None`, anything else what the
      browser's number parser makes of it. */
  function HoursInput(text: string, parseFloat: string -> real): (h: Option<real>)
    ensures h.None? <==> text == ""
    ensures h.Some? ==> h.value == parseFloat(text)
  {
    if text == "" then None else Some(parseFloat(text))
  }

  /** Clearing the hours of a row with a project makes it invalid with the
      hours message. */
  lemma ClearedHoursInvalid(e: Entry, parseFloat: string -> real)
    requires e.projectId != ""
    ensures RowMessage(e.(hours := HoursInput("", parseFloat))) == Some("Hours must be greater than 0.")
  {
  }
}
