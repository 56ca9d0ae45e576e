/**
 The intern's portal (src/components/InternDashboard.tsx): the intern's own
 tasks and notes queries, and the `completeTask` and `sendNote` handlers as
 pure transitions of the store.
 */
module InternDashboard {
  import opened Wrappers
  import opened Query
  import opened Text
  import opened Records

  /** The tasks query: `.eq("intern_id", <self>)`, newest first. */
  function MyTasks(tasks: seq<Task>, me: Id): (r: seq<Task>)
    ensures forall t :: t in r <==> t in tasks && t.internId == me
    ensures forall t :: multiset(r)[t] == if t.internId == me then multiset(tasks)[t] else 0
    ensures NewestFirst(r, TaskTime)
  {
    var picked := Select(tasks, (t: Task) => t.internId == me);
    var r := SortNewestFirst(picked, TaskTime);
    assert forall t :: t in r <==> t in multiset(picked);
    r
  }

  /** The `.or("receiver_id.eq.<self>,is_group.eq.true,sender_id.eq.<self>")`
      notes filter. */
  predicate InternSees(me: Id, n: Note) {
    n.receiverId == Some(me) || n.isGroup || n.senderId == me
  }

  /** The notes query: notes addressed to the intern, every group note, and
      the intern's own notes, newest first. */
  function MyNotes(notes: seq<Note>, me: Id): (r: seq<Note>)
    ensures forall n :: n in r <==> n in notes && InternSees(me, n)
    ensures forall n :: multiset(r)[n] == if InternSees(me, n) then multiset(notes)[n] else 0
    ensures NewestFirst(r, NoteTime)
  {
    var picked := Select(notes, (n: Note) => InternSees(me, n));
    var r := SortNewestFirst(picked, NoteTime);
    assert forall n :: n in r <==> n in multiset(picked);
    r
  }

  /** What `fetchData` puts on screen. */
  datatype InternView = InternView(tasks: seq<Task>, notes: seq<Note>)

  /** `fetchData`: the intern's tasks and notes. */
  function Fetch(s: Store, me: Identity): (v: InternView)
    ensures forall t :: t in v.tasks <==> t in s.tasks && t.internId == me.id
    ensures forall n :: n in v.notes <==> n in s.notes && InternSees(me.id, n)
    ensures forall t :: multiset(v.tasks)[t] == if t.internId == me.id then multiset(s.tasks)[t] else 0
    ensures forall n :: multiset(v.notes)[n] == if InternSees(me.id, n) then multiset(s.notes)[n] else 0
    ensures NewestFirst(v.tasks, TaskTime) && NewestFirst(v.notes, NoteTime)
  {
    InternView(MyTasks(s.tasks, me.id), MyNotes(s.notes, me.id))
  }

  /** The "Complete" button is drawn only beside a pending task: exactly
      beside a task that completing would change. */
  predicate CanComplete(t: Task): (r: bool)
    ensures r <==> t.(status := Completed) != t
  {
    t.status == Pending
  }

  /** `completeTask`: `update tasks set status = 'completed' where id = taskId`,
      whatever the task's status was. Tasks keep their places; a task with
      that id is completed afterwards, every other task is untouched, and no
      field but the status changes. */
  function CompleteTask(s: Store, taskId: Id): (r: Store)
    ensures r.admins == s.admins && r.interns == s.interns && r.notes == s.notes
    ensures |r.tasks| == |s.tasks|
    ensures forall k :: 0 <= k < |s.tasks| && s.tasks[k].id == taskId ==> r.tasks[k].status == Completed
    ensures forall k :: 0 <= k < |s.tasks| && s.tasks[k].id != taskId ==> r.tasks[k] == s.tasks[k]
    ensures forall k :: 0 <= k < |s.tasks| ==> r.tasks[k].(status := s.tasks[k].status) == s.tasks[k]
  {
    s.(tasks := UpdateWhere(s.tasks, (t: Task) => t.id == taskId, (t: Task) => t.(status := Completed)))
  }

  /** `sendNote`: a blank draft changes nothing. Otherwise exactly one note
      is appended, from the intern, with the trimmed text, not a group note,
      unread, and with no receiver: the insert does not set `receiver_id`. */
  function SendNote(s: Store, me: Identity, draft: string, newId: Id, now: nat): (r: Store)
    ensures IsBlank(draft) ==> r == s
    ensures !IsBlank(draft) ==>
              && r.admins == s.admins && r.interns == s.interns && r.tasks == s.tasks
              && |r.notes| == |s.notes| + 1 && r.notes[..|s.notes|] == s.notes
    ensures !IsBlank(draft) ==>
              var n := r.notes[|s.notes|];
              && n.id == newId && n.createdAt == now
              && n.senderId == me.id && n.senderRole == InternRole
              && n.content == Trim(draft) && n.content != []
              && !n.isGroup && n.receiverId.None? && !n.isRead
  {
    if IsBlank(draft) then s
    else s.(notes := s.notes + [Note(newId, me.id, InternRole, Trim(draft), None, false, false, now)])
  }
}
