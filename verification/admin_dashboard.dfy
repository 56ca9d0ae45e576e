/**
 The founder's dashboard (src/components/AdminDashboard.tsx): the notes
 filter, its newest-first ordering and sender-name enrichment, the task list
 joined with intern names, and the handlers that write to the store
 (`sendNote`, `markAsRead`, `addIntern`, `removeIntern`, `assignTask`).
 Each handler is a pure transition of the store; a handler that returns early
 on blank input gives back the store it was given.
 */
module AdminDashboard {
  import opened Wrappers
  import opened Query
  import opened Text
  import opened Records

  /** The label shown on every note the founder sent. */
  const FounderLabel: string := "You (Founder)"

  /** The label shown on an intern's note whose sender cannot be resolved. */
  const UnknownInternLabel: string := "Unknown Intern"

  /** The recipient-picker value that addresses every intern at once. */
  const GroupChoice: string := "all"

  /** The `.or("receiver_id.eq.<admin>,sender_id.eq.<admin>")` filter. A null
      `receiver_id` equals nothing, so it is `None` failing the first test. */
  predicate AdminSees(adminId: Id, n: Note) {
    n.receiverId == Some(adminId) || n.senderId == adminId
  }

  /** The notes query of `fetchData`: the notes the founder is a party to,
      newest first. */
  function AdminInbox(notes: seq<Note>, adminId: Id): (r: seq<Note>)
    ensures forall n :: n in r <==> n in notes && AdminSees(adminId, n)
    ensures forall n :: multiset(r)[n] == if AdminSees(adminId, n) then multiset(notes)[n] else 0
    ensures NewestFirst(r, NoteTime)
  {
    var picked := Select(notes, n => AdminSees(adminId, n));
    var r := SortNewestFirst(picked, NoteTime);
    assert forall n :: n in r <==> n in multiset(picked);
    r
  }

  /** Row `k` is the first intern whose id is `id`. */
  predicate FirstInternWithId(interns: seq<Intern>, id: Id, k: int) {
    && 0 <= k < |interns|
    && interns[k].id == id
    && forall j :: 0 <= j < k ==> interns[j].id != id
  }

  /** `interns.find(i => i.id === id)`. */
  function FindIntern(interns: seq<Intern>, id: Id): (r: Option<Intern>)
    ensures r.None? <==> forall k :: 0 <= k < |interns| ==> interns[k].id != id
    ensures forall k :: FirstInternWithId(interns, id, k) ==> r == Some(interns[k])
  {
    var r := FindFirst(interns, (i: Intern) => i.id == id);
    assert forall k :: FirstInternWithId(interns, id, k) <==> FirstMatchAt(interns, (i: Intern) => i.id == id, k);
    r
  }

  /** The name a note is shown under: the founder's label for every note not
      sent by an intern; for an intern's note, the first intern with the
      sender's id, falling back to the unknown label when there is none or
      its name is empty (`intern?.name || 'Unknown Intern'`). */
  function SenderName(n: Note, interns: seq<Intern>): (r: string)
    ensures n.senderRole == AdminRole ==> r == FounderLabel
    ensures (n.senderRole == InternRole && forall k :: 0 <= k < |interns| ==> interns[k].id != n.senderId)
              ==> r == UnknownInternLabel
    ensures forall k :: n.senderRole == InternRole && FirstInternWithId(interns, n.senderId, k)
              ==> r == (if interns[k].name == "" then UnknownInternLabel else interns[k].name)
  {
    if n.senderRole == InternRole then
      match FindIntern(interns, n.senderId)
      case Some(i) => if i.name != "" then i.name else UnknownInternLabel
      case None => UnknownInternLabel
    else
      FounderLabel
  }

  /** A note as the dashboard lists it, with its sender's display name. */
  datatype ShownNote = ShownNote(note: Note, senderName: string)

  /** The notes behind a list of shown notes, in the same order. */
  function NotesOf(shown: seq<ShownNote>): (r: seq<Note>)
    ensures |r| == |shown|
    ensures forall k :: 0 <= k < |shown| ==> r[k] == shown[k].note
  {
    seq(|shown|, k requires 0 <= k < |shown| => shown[k].note)
  }

  /** The enrichment step: one shown note per note, in the same order, so
      dropping the labels gives back exactly the notes enriched. */
  function Enrich(notes: seq<Note>, interns: seq<Intern>): (r: seq<ShownNote>)
    ensures NotesOf(r) == notes
    ensures forall k :: 0 <= k < |notes| ==> r[k].senderName == SenderName(notes[k], interns)
  {
    var r := seq(|notes|, k requires 0 <= k < |notes| => ShownNote(notes[k], SenderName(notes[k], interns)));
    assert NotesOf(r) == notes;
    r
  }

  /** A task with the name embedded by `select("*, interns(name)")`, null when
      no intern row has the task's `intern_id`. */
  datatype TaskRow = TaskRow(task: Task, internName: Option<string>)

  function TaskRows(tasks: seq<Task>, interns: seq<Intern>): (r: seq<TaskRow>)
    ensures |r| == |tasks|
    ensures forall k :: 0 <= k < |tasks| ==> r[k].task == tasks[k]
    ensures forall k :: 0 <= k < |tasks| ==>
              (r[k].internName.None? <==> forall j :: 0 <= j < |interns| ==> interns[j].id != tasks[k].internId)
    ensures forall k, j :: 0 <= k < |tasks| && FirstInternWithId(interns, tasks[k].internId, j)
              ==> r[k].internName == Some(interns[j].name)
  {
    seq(|tasks|, k requires 0 <= k < |tasks| =>
      TaskRow(tasks[k], match FindIntern(interns, tasks[k].internId)
                        case Some(i) => Some(i.name)
                        case None => None))
  }

  /** What `fetchData` puts on screen. */
  datatype AdminView = AdminView(interns: seq<Intern>, tasks: seq<TaskRow>, notes: seq<ShownNote>)

  /** `fetchData`: every intern, every task (in stored order) with its
      intern's name, and the founder's notes newest first, each labelled
      with its sender's name. */
  function Fetch(s: Store, admin: Identity): (v: AdminView)
    ensures v.interns == s.interns
    ensures v.tasks == TaskRows(s.tasks, s.interns)
    ensures forall n :: multiset(NotesOf(v.notes))[n] == if AdminSees(admin.id, n) then multiset(s.notes)[n] else 0
    ensures forall n :: n in NotesOf(v.notes) <==> n in s.notes && AdminSees(admin.id, n)
    ensures forall k, j :: 0 <= k < j < |v.notes| ==> v.notes[k].note.createdAt >= v.notes[j].note.createdAt
    ensures forall k :: 0 <= k < |v.notes| ==> v.notes[k].senderName == SenderName(v.notes[k].note, s.interns)
  {
    var inbox := AdminInbox(s.notes, admin.id);
    AdminView(s.interns, TaskRows(s.tasks, s.interns), Enrich(inbox, s.interns))
  }

  /** `sendNote`: a blank draft changes nothing. Otherwise exactly one note
      is appended, from the founder, with the trimmed text, unread; it is a
      group note exactly when the picker says "all", and then has no
      receiver, else its receiver is the picked intern id. */
  function SendNote(s: Store, admin: Identity, draft: string, choice: string, newId: Id, now: nat): (r: Store)
    ensures IsBlank(draft) ==> r == s
    ensures !IsBlank(draft) ==>
              && r.admins == s.admins && r.interns == s.interns && r.tasks == s.tasks
              && |r.notes| == |s.notes| + 1 && r.notes[..|s.notes|] == s.notes
    ensures !IsBlank(draft) ==>
              var n := r.notes[|s.notes|];
              && n.id == newId && n.createdAt == now
              && n.senderId == admin.id && n.senderRole == AdminRole
              && n.content == Trim(draft) && n.content != []
              && (n.isGroup <==> choice == GroupChoice)
              && (n.receiverId.None? <==> n.isGroup)
              && (!n.isGroup ==> n.receiverId == Some(choice))
              && !n.isRead
  {
    if IsBlank(draft) then s
    else
      var isGroup := choice == GroupChoice;
      var n := Note(newId, admin.id, AdminRole, Trim(draft),
                    if isGroup then None else Some(choice), isGroup, false, now);
      s.(notes := s.notes + [n])
  }

  /** The "Mark as read" button is drawn only under an unread intern note:
      exactly under an intern's note that marking read would change. */
  predicate CanMarkRead(n: Note): (r: bool)
    ensures r <==> n.senderRole == InternRole && n.(isRead := true) != n
  {
    n.senderRole == InternRole && !n.isRead
  }

  /** `markAsRead`: `update notes set is_read = true where id = noteId`. The
      notes keep their places; a note is read afterwards exactly when it was
      read before or has that id, and no other field of any note changes. */
  function MarkAsRead(s: Store, noteId: Id): (r: Store)
    ensures r.admins == s.admins && r.interns == s.interns && r.tasks == s.tasks
    ensures |r.notes| == |s.notes|
    ensures forall k :: 0 <= k < |s.notes| ==> r.notes[k].isRead == (s.notes[k].isRead || s.notes[k].id == noteId)
    ensures forall k :: 0 <= k < |s.notes| ==> r.notes[k].(isRead := s.notes[k].isRead) == s.notes[k]
  {
    s.(notes := UpdateWhere(s.notes, (n: Note) => n.id == noteId, (n: Note) => n.(isRead := true)))
  }

  /** `addIntern`: a blank name changes nothing; otherwise one intern with
      the trimmed (hence non-blank) name is appended and nothing else
      changes. */
  function AddIntern(s: Store, draft: string, newId: Id): (r: Store)
    ensures IsBlank(draft) ==> r == s
    ensures !IsBlank(draft) ==>
              && r.admins == s.admins && r.tasks == s.tasks && r.notes == s.notes
              && |r.interns| == |s.interns| + 1 && r.interns[..|s.interns|] == s.interns
              && r.interns[|s.interns|] == Intern(newId, Trim(draft))
              && !IsBlank(r.interns[|s.interns|].name)
  {
    if IsBlank(draft) then s
    else
      TrimIdempotent(draft);
      s.(interns := s.interns + [Intern(newId, Trim(draft))])
  }

  /** `removeIntern`: deletes every intern row with that id and no other row
      of any table; the intern's tasks and notes stay behind. */
  function RemoveIntern(s: Store, id: Id): (r: Store)
    ensures r.admins == s.admins && r.tasks == s.tasks && r.notes == s.notes
    ensures forall i :: i in r.interns <==> i in s.interns && i.id != id
    ensures forall i :: multiset(r.interns)[i] == if i.id == id then 0 else multiset(s.interns)[i]
  {
    s.(interns := Select(s.interns, (i: Intern) => i.id != id))
  }

  /** `assignTask`: a blank title or no picked intern changes nothing;
      otherwise one pending task with the trimmed title, for the picked
      intern, is appended and nothing else changes. */
  function AssignTask(s: Store, title: string, choice: Id, newId: Id, now: nat): (r: Store)
    ensures IsBlank(title) || choice == [] ==> r == s
    ensures !IsBlank(title) && choice != [] ==>
              && r.admins == s.admins && r.interns == s.interns && r.notes == s.notes
              && |r.tasks| == |s.tasks| + 1 && r.tasks[..|s.tasks|] == s.tasks
              && r.tasks[|s.tasks|] == Task(newId, Trim(title), choice, Pending, now)
              && r.tasks[|s.tasks|].title != []
  {
    if IsBlank(title) || choice == [] then s
    else s.(tasks := s.tasks + [Task(newId, Trim(title), choice, Pending, now)])
  }

  /** The filter the comment above the notes query describes ("sent to admin
      OR sent by admin"): with one founder, an intern note with no receiver is
      addressed to the founder. */
  predicate IntendedAdminSees(adminId: Id, n: Note) {
    AdminSees(adminId, n) || (n.senderRole == InternRole && n.receiverId.None?)
  }

  /** The inbox under the intended filter: every note the as-written inbox
      holds, plus every intern note that has no receiver. */
  function IntendedAdminInbox(notes: seq<Note>, adminId: Id): (r: seq<Note>)
    ensures forall n :: n in r <==> n in notes && IntendedAdminSees(adminId, n)
    ensures forall n :: multiset(r)[n] == if IntendedAdminSees(adminId, n) then multiset(notes)[n] else 0
    ensures forall n :: n in AdminInbox(notes, adminId) ==> n in r
    ensures NewestFirst(r, NoteTime)
  {
    var picked := Select(notes, n => IntendedAdminSees(adminId, n));
    var r := SortNewestFirst(picked, NoteTime);
    assert forall n :: n in r <==> n in multiset(picked);
    r
  }
}
