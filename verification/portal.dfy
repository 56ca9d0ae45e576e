/**
 The portal as a whole: every handler of both dashboards as one action on
 the shared store, what runs of actions preserve, and how the handlers and
 the two inbox filters fit together.
 */
module Portal {
  import opened Wrappers
  import opened Text
  import opened Records
  import AdminDashboard
  import InternDashboard
  import Login

  /** One handler invocation, with the id and timestamp the datastore gives a
      row it inserts. */
  datatype Action =
    | AdminSendNote(admin: Identity, draft: string, choice: string, newId: Id, now: nat)
    | MarkAsRead(noteId: Id)
    | AddIntern(name: string, newId: Id)
    | RemoveIntern(internId: Id)
    | AssignTask(title: string, choice: Id, newId: Id, now: nat)
    | CompleteTask(taskId: Id)
    | InternSendNote(me: Identity, draft: string, newId: Id, now: nat)

  function Apply(s: Store, a: Action): Store {
    match a
    case AdminSendNote(admin, draft, choice, newId, now) => AdminDashboard.SendNote(s, admin, draft, choice, newId, now)
    case MarkAsRead(noteId) => AdminDashboard.MarkAsRead(s, noteId)
    case AddIntern(name, newId) => AdminDashboard.AddIntern(s, name, newId)
    case RemoveIntern(internId) => AdminDashboard.RemoveIntern(s, internId)
    case AssignTask(title, choice, newId, now) => AdminDashboard.AssignTask(s, title, choice, newId, now)
    case CompleteTask(taskId) => InternDashboard.CompleteTask(s, taskId)
    case InternSendNote(me, draft, newId, now) => InternDashboard.SendNote(s, me, draft, newId, now)
  }

  function Run(s: Store, actions: seq<Action>): Store
    decreases |actions|
  {
    if actions == [] then s else Run(Apply(s, actions[0]), actions[1..])
  }

  /** `t` is a later state of `s`: the admins are the same, no note or task
      is lost or moved, a note changes at most by becoming read, and a task
      changes at most in status, never from completed back to pending. */
  ghost predicate Extends(s: Store, t: Store) {
    && t.admins == s.admins
    && |s.notes| <= |t.notes|
    && |s.tasks| <= |t.tasks|
    && (forall k :: 0 <= k < |s.notes| ==>
          && t.notes[k].(isRead := s.notes[k].isRead) == s.notes[k]
          && (s.notes[k].isRead ==> t.notes[k].isRead))
    && (forall k :: 0 <= k < |s.tasks| ==>
          && t.tasks[k].(status := s.tasks[k].status) == s.tasks[k]
          && (s.tasks[k].status == Completed ==> t.tasks[k].status == Completed))
  }

  /** Appending one note, and nothing else, extends the state. */
  lemma AppendNoteExtends(s: Store, t: Store)
    requires t.admins == s.admins && t.tasks == s.tasks
    requires |t.notes| == |s.notes| + 1 && t.notes[..|s.notes|] == s.notes
    ensures Extends(s, t)
  {
    assert forall k :: 0 <= k < |s.notes| ==> t.notes[k] == t.notes[..|s.notes|][k];
  }

  /** Appending one task, and nothing else, extends the state. */
  lemma AppendTaskExtends(s: Store, t: Store)
    requires t.admins == s.admins && t.notes == s.notes
    requires |t.tasks| == |s.tasks| + 1 && t.tasks[..|s.tasks|] == s.tasks
    ensures Extends(s, t)
  {
    assert forall k :: 0 <= k < |s.tasks| ==> t.tasks[k] == t.tasks[..|s.tasks|][k];
  }

  /** A state whose notes and tasks are untouched extends its predecessor. */
  lemma SameRowsExtends(s: Store, t: Store)
    requires t.admins == s.admins && t.notes == s.notes && t.tasks == s.tasks
    ensures Extends(s, t)
  {
  }

  lemma AdminNoteExtends(s: Store, admin: Identity, draft: string, choice: string, newId: Id, now: nat)
    ensures Extends(s, AdminDashboard.SendNote(s, admin, draft, choice, newId, now))
  {
    var t := AdminDashboard.SendNote(s, admin, draft, choice, newId, now);
    if IsBlank(draft) { SameRowsExtends(s, t); } else { AppendNoteExtends(s, t); }
  }

  lemma InternNoteExtends(s: Store, me: Identity, draft: string, newId: Id, now: nat)
    ensures Extends(s, InternDashboard.SendNote(s, me, draft, newId, now))
  {
    var t := InternDashboard.SendNote(s, me, draft, newId, now);
    if IsBlank(draft) { SameRowsExtends(s, t); } else { AppendNoteExtends(s, t); }
  }

  lemma AssignTaskExtends(s: Store, title: string, choice: Id, newId: Id, now: nat)
    ensures Extends(s, AdminDashboard.AssignTask(s, title, choice, newId, now))
  {
    var t := AdminDashboard.AssignTask(s, title, choice, newId, now);
    if IsBlank(title) || choice == [] { SameRowsExtends(s, t); } else { AppendTaskExtends(s, t); }
  }

  lemma MarkAsReadExtends(s: Store, noteId: Id)
    ensures Extends(s, AdminDashboard.MarkAsRead(s, noteId))
  {
  }

  lemma CompleteTaskExtends(s: Store, taskId: Id)
    ensures Extends(s, InternDashboard.CompleteTask(s, taskId))
  {
  }

  // Each `...Step...` lemma covers the actions of one kind and matches on the
  // action itself, so that each proof only sees the handlers of that kind.

  lemma NoteStepExtends(s: Store, a: Action)
    requires a.AdminSendNote? || a.InternSendNote? || a.MarkAsRead?
    ensures Extends(s, Apply(s, a))
  {
    match a
    case AdminSendNote(admin, draft, choice, newId, now) => AdminNoteExtends(s, admin, draft, choice, newId, now);
    case InternSendNote(me, draft, newId, now) => InternNoteExtends(s, me, draft, newId, now);
    case MarkAsRead(noteId) => MarkAsReadExtends(s, noteId);
  }

  lemma TaskStepExtends(s: Store, a: Action)
    requires a.AssignTask? || a.CompleteTask?
    ensures Extends(s, Apply(s, a))
  {
    match a
    case AssignTask(title, choice, newId, now) => AssignTaskExtends(s, title, choice, newId, now);
    case CompleteTask(taskId) => CompleteTaskExtends(s, taskId);
  }

  lemma InternStepExtends(s: Store, a: Action)
    requires a.AddIntern? || a.RemoveIntern?
    ensures Extends(s, Apply(s, a))
  {
    match a
    case AddIntern(name, newId) => SameRowsExtends(s, AdminDashboard.AddIntern(s, name, newId));
    case RemoveIntern(internId) => SameRowsExtends(s, AdminDashboard.RemoveIntern(s, internId));
  }

  /** Every handler only appends notes and tasks, sets read flags and
      completes tasks. */
  lemma ApplyExtends(s: Store, a: Action)
    ensures Extends(s, Apply(s, a))
  {
    if a.AdminSendNote? || a.InternSendNote? || a.MarkAsRead? {
      NoteStepExtends(s, a);
    } else if a.AssignTask? || a.CompleteTask? {
      TaskStepExtends(s, a);
    } else {
      InternStepExtends(s, a);
    }
  }

  lemma ExtendsTransitive(s: Store, t: Store, u: Store)
    requires Extends(s, t) && Extends(t, u)
    ensures Extends(s, u)
  {
    forall k | 0 <= k < |s.notes|
      ensures u.notes[k].(isRead := s.notes[k].isRead) == s.notes[k]
    {
      assert u.notes[k].(isRead := t.notes[k].isRead) == t.notes[k];
    }
    forall k | 0 <= k < |s.tasks|
      ensures u.tasks[k].(status := s.tasks[k].status) == s.tasks[k]
    {
      assert u.tasks[k].(status := t.tasks[k].status) == t.tasks[k];
    }
  }

  /** Over any run of handlers, notes are never deleted, reordered or edited
      beyond becoming read, and a completed task is never reopened. */
  lemma {:induction false} RunExtends(s: Store, actions: seq<Action>)
    ensures Extends(s, Run(s, actions))
    decreases |actions|
  {
    if actions != [] {
      var t := Apply(s, actions[0]);
      ApplyExtends(s, actions[0]);
      RunExtends(t, actions[1..]);
      ExtendsTransitive(s, t, Run(t, actions[1..]));
    }
  }

  /** The shape every note the handlers write has: a group note has no
      receiver, and an intern's note is never a group note and has no
      receiver. */
  predicate NoteShape(n: Note) {
    && (n.isGroup ==> n.receiverId.None?)
    && (n.senderRole == InternRole ==> !n.isGroup && n.receiverId.None?)
  }

  ghost predicate WellFormed(s: Store) {
    forall k :: 0 <= k < |s.notes| ==> NoteShape(s.notes[k])
  }

  /** Appending a note of the right shape keeps the store well formed. */
  lemma AppendNoteKeepsWellFormed(s: Store, t: Store)
    requires WellFormed(s)
    requires |t.notes| == |s.notes| + 1 && t.notes[..|s.notes|] == s.notes
    requires NoteShape(t.notes[|s.notes|])
    ensures WellFormed(t)
  {
    assert forall k :: 0 <= k < |s.notes| ==> t.notes[k] == t.notes[..|s.notes|][k];
  }

  /** The actions that do not write notes leave them as they were. */
  lemma NotesUntouched(s: Store, a: Action)
    requires a.AssignTask? || a.CompleteTask? || a.AddIntern? || a.RemoveIntern?
    ensures Apply(s, a).notes == s.notes
  {
  }

  lemma AdminNoteKeepsWellFormed(s: Store, admin: Identity, draft: string, choice: string, newId: Id, now: nat)
    requires WellFormed(s)
    ensures WellFormed(AdminDashboard.SendNote(s, admin, draft, choice, newId, now))
  {
    if !IsBlank(draft) {
      AppendNoteKeepsWellFormed(s, AdminDashboard.SendNote(s, admin, draft, choice, newId, now));
    }
  }

  lemma InternNoteKeepsWellFormed(s: Store, me: Identity, draft: string, newId: Id, now: nat)
    requires WellFormed(s)
    ensures WellFormed(InternDashboard.SendNote(s, me, draft, newId, now))
  {
    if !IsBlank(draft) {
      AppendNoteKeepsWellFormed(s, InternDashboard.SendNote(s, me, draft, newId, now));
    }
  }

  lemma MarkAsReadKeepsWellFormed(s: Store, noteId: Id)
    requires WellFormed(s)
    ensures WellFormed(AdminDashboard.MarkAsRead(s, noteId))
  {
    var t := AdminDashboard.MarkAsRead(s, noteId);
    assert forall k :: 0 <= k < |s.notes| ==> t.notes[k].(isRead := s.notes[k].isRead) == s.notes[k];
  }

  lemma AdminSendStepKeepsWellFormed(s: Store, a: Action)
    requires WellFormed(s) && a.AdminSendNote?
    ensures WellFormed(Apply(s, a))
  {
    match a
    case AdminSendNote(admin, draft, choice, newId, now) => AdminNoteKeepsWellFormed(s, admin, draft, choice, newId, now);
  }

  lemma InternSendStepKeepsWellFormed(s: Store, a: Action)
    requires WellFormed(s) && a.InternSendNote?
    ensures WellFormed(Apply(s, a))
  {
    match a
    case InternSendNote(me, draft, newId, now) => InternNoteKeepsWellFormed(s, me, draft, newId, now);
  }

  lemma MarkStepKeepsWellFormed(s: Store, a: Action)
    requires WellFormed(s) && a.MarkAsRead?
    ensures WellFormed(Apply(s, a))
  {
    match a
    case MarkAsRead(noteId) => MarkAsReadKeepsWellFormed(s, noteId);
  }

  lemma ApplyKeepsWellFormed(s: Store, a: Action)
    requires WellFormed(s)
    ensures WellFormed(Apply(s, a))
  {
    if a.AdminSendNote? {
      AdminSendStepKeepsWellFormed(s, a);
    } else if a.InternSendNote? {
      InternSendStepKeepsWellFormed(s, a);
    } else if a.MarkAsRead? {
      MarkStepKeepsWellFormed(s, a);
    } else {
      NotesUntouched(s, a);
    }
  }

  /** For every note ever written by the handlers, `is_group` implies a null
      `receiver_id`. */
  lemma {:induction false} RunKeepsWellFormed(s: Store, actions: seq<Action>)
    requires WellFormed(s)
    ensures WellFormed(Run(s, actions))
    decreases |actions|
  {
    if actions != [] {
      ApplyKeepsWellFormed(s, actions[0]);
      RunKeepsWellFormed(Apply(s, actions[0]), actions[1..]);
    }
  }

  /** An admin's group message, once sent, is in the inbox of every intern
      id whatsoever and in the sending admin's own inbox. */
  lemma GroupNoteReachesEveryone(s: Store, admin: Identity, draft: string, newId: Id, now: nat)
    requires !IsBlank(draft)
    ensures var t := AdminDashboard.SendNote(s, admin, draft, AdminDashboard.GroupChoice, newId, now);
            var n := t.notes[|s.notes|];
            && n.isGroup && n.receiverId.None? && n.senderRole == AdminRole
            && (forall me :: n in InternDashboard.MyNotes(t.notes, me))
            && n in AdminDashboard.AdminInbox(t.notes, admin.id)
  {
    var t := AdminDashboard.SendNote(s, admin, draft, AdminDashboard.GroupChoice, newId, now);
    var n := t.notes[|s.notes|];
    assert n in t.notes;
    assert n.isGroup && n.senderId == admin.id;
  }

  /** An admin's direct note reaches the chosen intern and no intern other
      than the chosen one. */
  lemma DirectNoteReachesOnlyAddressee(s: Store, admin: Identity, draft: string, choice: Id, newId: Id, now: nat, other: Id)
    requires !IsBlank(draft) && choice != AdminDashboard.GroupChoice
    requires other != choice && other != admin.id
    ensures var t := AdminDashboard.SendNote(s, admin, draft, choice, newId, now);
            var n := t.notes[|s.notes|];
            && n in InternDashboard.MyNotes(t.notes, choice)
            && n !in InternDashboard.MyNotes(t.notes, other)
            && n in AdminDashboard.AdminInbox(t.notes, admin.id)
  {
    var t := AdminDashboard.SendNote(s, admin, draft, choice, newId, now);
    var n := t.notes[|s.notes|];
    assert n in t.notes;
    assert !n.isGroup && n.receiverId == Some(choice) && n.senderId == admin.id;
    assert !InternDashboard.InternSees(other, n);
  }

  /** An intern's note shows up in that intern's own inbox (through
      `sender_id`) and in no other intern's inbox. */
  lemma InternNoteEchoes(s: Store, me: Identity, draft: string, newId: Id, now: nat, other: Id)
    requires !IsBlank(draft) && other != me.id
    ensures var t := InternDashboard.SendNote(s, me, draft, newId, now);
            var n := t.notes[|s.notes|];
            && n in InternDashboard.MyNotes(t.notes, me.id)
            && n !in InternDashboard.MyNotes(t.notes, other)
  {
    var t := InternDashboard.SendNote(s, me, draft, newId, now);
    var n := t.notes[|s.notes|];
    assert n in t.notes;
    assert !n.isGroup && n.receiverId.None? && n.senderId == me.id;
    assert !InternDashboard.InternSees(other, n);
  }

  /** As written, an intern's note never reaches the founder's inbox: it is
      stored without `receiver_id`, and the founder's filter asks for
      `receiver_id = founder` or `sender_id = founder`. Under the intended
      filter it is there. */
  lemma InternNoteMissesAdminInbox(s: Store, me: Identity, draft: string, newId: Id, now: nat, adminId: Id)
    requires !IsBlank(draft) && me.id != adminId
    ensures var t := InternDashboard.SendNote(s, me, draft, newId, now);
            var n := t.notes[|s.notes|];
            && n !in AdminDashboard.AdminInbox(t.notes, adminId)
            && n in AdminDashboard.IntendedAdminInbox(t.notes, adminId)
  {
    var t := InternDashboard.SendNote(s, me, draft, newId, now);
    var n := t.notes[|s.notes|];
    assert n in t.notes;
    assert n.senderRole == InternRole && n.receiverId.None? && n.senderId == me.id;
    assert !AdminDashboard.AdminSees(adminId, n);
  }

  /** No note written by an intern carries the founder's id as sender. */
  ghost predicate NoInternNoteFrom(s: Store, adminId: Id) {
    forall k :: 0 <= k < |s.notes| && s.notes[k].senderRole == InternRole ==> s.notes[k].senderId != adminId
  }

  /** No intern in the run uses the founder's id. */
  ghost predicate NoInternActsAs(actions: seq<Action>, adminId: Id) {
    forall k :: 0 <= k < |actions| && actions[k].InternSendNote? ==> actions[k].me.id != adminId
  }

  /** In a well-formed store, the founder's inbox holds no intern note at
      all, so "Mark as read" is never offered. */
  lemma MarkReadNeverOffered(s: Store, adminId: Id)
    requires WellFormed(s) && NoInternNoteFrom(s, adminId)
    ensures forall n :: n in AdminDashboard.AdminInbox(s.notes, adminId) ==> n.senderRole == AdminRole
    ensures forall n :: n in AdminDashboard.AdminInbox(s.notes, adminId) ==> !AdminDashboard.CanMarkRead(n)
  {
    forall n | n in AdminDashboard.AdminInbox(s.notes, adminId) ensures n.senderRole == AdminRole {
      var k :| 0 <= k < |s.notes| && s.notes[k] == n;
      assert NoteShape(s.notes[k]);
    }
  }

  /** Appending a note that is not an intern's note under the founder's id
      keeps the founder's id free. */
  lemma AppendNoteKeepsFounderIdFree(s: Store, t: Store, adminId: Id)
    requires NoInternNoteFrom(s, adminId)
    requires |t.notes| == |s.notes| + 1 && t.notes[..|s.notes|] == s.notes
    requires t.notes[|s.notes|].senderRole == InternRole ==> t.notes[|s.notes|].senderId != adminId
    ensures NoInternNoteFrom(t, adminId)
  {
    assert forall k :: 0 <= k < |s.notes| ==> t.notes[k] == t.notes[..|s.notes|][k];
  }

  lemma AdminNoteKeepsFounderIdFree(s: Store, admin: Identity, draft: string, choice: string, newId: Id, now: nat, adminId: Id)
    requires NoInternNoteFrom(s, adminId)
    ensures NoInternNoteFrom(AdminDashboard.SendNote(s, admin, draft, choice, newId, now), adminId)
  {
    if !IsBlank(draft) {
      AppendNoteKeepsFounderIdFree(s, AdminDashboard.SendNote(s, admin, draft, choice, newId, now), adminId);
    }
  }

  lemma InternNoteKeepsFounderIdFree(s: Store, me: Identity, draft: string, newId: Id, now: nat, adminId: Id)
    requires NoInternNoteFrom(s, adminId) && me.id != adminId
    ensures NoInternNoteFrom(InternDashboard.SendNote(s, me, draft, newId, now), adminId)
  {
    if !IsBlank(draft) {
      AppendNoteKeepsFounderIdFree(s, InternDashboard.SendNote(s, me, draft, newId, now), adminId);
    }
  }

  /** Marking a note read changes no sender or role. */
  lemma MarkAsReadKeepsFounderIdFree(s: Store, noteId: Id, adminId: Id)
    requires NoInternNoteFrom(s, adminId)
    ensures NoInternNoteFrom(AdminDashboard.MarkAsRead(s, noteId), adminId)
  {
    var t := AdminDashboard.MarkAsRead(s, noteId);
    assert forall k :: 0 <= k < |s.notes| ==> t.notes[k].(isRead := s.notes[k].isRead) == s.notes[k];
  }

  lemma AdminSendStepKeepsFounderIdFree(s: Store, a: Action, adminId: Id)
    requires NoInternNoteFrom(s, adminId) && a.AdminSendNote?
    ensures NoInternNoteFrom(Apply(s, a), adminId)
  {
    match a
    case AdminSendNote(admin, draft, choice, newId, now) =>
      AdminNoteKeepsFounderIdFree(s, admin, draft, choice, newId, now, adminId);
  }

  lemma InternSendStepKeepsFounderIdFree(s: Store, a: Action, adminId: Id)
    requires NoInternNoteFrom(s, adminId) && a.InternSendNote? && a.me.id != adminId
    ensures NoInternNoteFrom(Apply(s, a), adminId)
  {
    match a
    case InternSendNote(me, draft, newId, now) => InternNoteKeepsFounderIdFree(s, me, draft, newId, now, adminId);
  }

  lemma MarkStepKeepsFounderIdFree(s: Store, a: Action, adminId: Id)
    requires NoInternNoteFrom(s, adminId) && a.MarkAsRead?
    ensures NoInternNoteFrom(Apply(s, a), adminId)
  {
    match a
    case MarkAsRead(noteId) => MarkAsReadKeepsFounderIdFree(s, noteId, adminId);
  }

  lemma ApplyKeepsFounderIdFree(s: Store, a: Action, adminId: Id)
    requires NoInternNoteFrom(s, adminId)
    requires a.InternSendNote? ==> a.me.id != adminId
    ensures NoInternNoteFrom(Apply(s, a), adminId)
  {
    if a.AdminSendNote? {
      AdminSendStepKeepsFounderIdFree(s, a, adminId);
    } else if a.InternSendNote? {
      InternSendStepKeepsFounderIdFree(s, a, adminId);
    } else if a.MarkAsRead? {
      MarkStepKeepsFounderIdFree(s, a, adminId);
    } else {
      NotesUntouched(s, a);
    }
  }

  /** Starting from a well-formed store, no run of the handlers ever puts a
      "Mark as read" button on the founder's dashboard. */
  lemma {:induction false} RunNeverOffersMarkRead(s: Store, actions: seq<Action>, adminId: Id)
    requires WellFormed(s) && NoInternNoteFrom(s, adminId) && NoInternActsAs(actions, adminId)
    ensures forall n :: n in AdminDashboard.AdminInbox(Run(s, actions).notes, adminId) ==> !AdminDashboard.CanMarkRead(n)
    decreases |actions|
  {
    if actions == [] {
      MarkReadNeverOffered(s, adminId);
    } else {
      ApplyKeepsWellFormed(s, actions[0]);
      ApplyKeepsFounderIdFree(s, actions[0], adminId);
      assert NoInternActsAs(actions[1..], adminId) by {
        forall k | 0 <= k < |actions[1..]| && actions[1..][k].InternSendNote?
          ensures actions[1..][k].me.id != adminId
        {
          assert actions[1..][k] == actions[k + 1];
        }
      }
      RunNeverOffersMarkRead(Apply(s, actions[0]), actions[1..], adminId);
    }
  }

  /** Marking a note read twice is marking it once. */
  lemma MarkAsReadIdempotent(s: Store, noteId: Id)
    ensures AdminDashboard.MarkAsRead(AdminDashboard.MarkAsRead(s, noteId), noteId) == AdminDashboard.MarkAsRead(s, noteId)
  {
    var once := AdminDashboard.MarkAsRead(s, noteId);
    var twice := AdminDashboard.MarkAsRead(once, noteId);
    assert forall k :: 0 <= k < |s.notes| ==> once.notes[k].id == s.notes[k].id by {
      forall k | 0 <= k < |s.notes| ensures once.notes[k].id == s.notes[k].id {
        assert once.notes[k].(isRead := s.notes[k].isRead) == s.notes[k];
      }
    }
    forall k | 0 <= k < |s.notes| ensures twice.notes[k] == once.notes[k] {
      assert twice.notes[k].(isRead := once.notes[k].isRead) == once.notes[k];
    }
    assert twice.notes == once.notes;
  }

  /** After marking a note read, no row with that id offers "Mark as read". */
  lemma MarkAsReadHidesButton(s: Store, noteId: Id)
    ensures var t := AdminDashboard.MarkAsRead(s, noteId);
            forall k :: 0 <= k < |t.notes| && t.notes[k].id == noteId ==> !AdminDashboard.CanMarkRead(t.notes[k])
  {
    var t := AdminDashboard.MarkAsRead(s, noteId);
    forall k | 0 <= k < |t.notes| && t.notes[k].id == noteId ensures t.notes[k].isRead {
      assert t.notes[k].(isRead := s.notes[k].isRead) == s.notes[k];
    }
  }

  /** Completing a task twice is completing it once. */
  lemma CompleteTaskIdempotent(s: Store, taskId: Id)
    ensures InternDashboard.CompleteTask(InternDashboard.CompleteTask(s, taskId), taskId) == InternDashboard.CompleteTask(s, taskId)
  {
    var once := InternDashboard.CompleteTask(s, taskId);
    var twice := InternDashboard.CompleteTask(once, taskId);
    forall k | 0 <= k < |s.tasks| ensures twice.tasks[k] == once.tasks[k] {
      assert once.tasks[k].(status := s.tasks[k].status) == s.tasks[k];
      assert twice.tasks[k].(status := once.tasks[k].status) == once.tasks[k];
    }
    assert twice.tasks == once.tasks;
  }

  /** After completing a task, no row with that id offers "Complete". */
  lemma CompleteTaskHidesButton(s: Store, taskId: Id)
    ensures var t := InternDashboard.CompleteTask(s, taskId);
            forall k :: 0 <= k < |t.tasks| && t.tasks[k].id == taskId ==> !InternDashboard.CanComplete(t.tasks[k])
  {
    var t := InternDashboard.CompleteTask(s, taskId);
    forall k | 0 <= k < |t.tasks| && t.tasks[k].id == taskId ensures t.tasks[k].status == Completed {
      assert t.tasks[k].(status := s.tasks[k].status) == s.tasks[k];
    }
  }

  /** Once an intern is removed, any note of theirs is labelled with the
      fallback label, and every task of theirs, if they had any, is listed
      without a name. */
  lemma RemovedInternShowsAsUnknown(s: Store, internId: Id, n: Note)
    requires n.senderRole == InternRole && n.senderId == internId
    ensures var t := AdminDashboard.RemoveIntern(s, internId);
            && AdminDashboard.SenderName(n, t.interns) == AdminDashboard.UnknownInternLabel
            && forall k :: 0 <= k < |t.tasks| && t.tasks[k].internId == internId
                 ==> AdminDashboard.TaskRows(t.tasks, t.interns)[k].internName.None?
  {
    var t := AdminDashboard.RemoveIntern(s, internId);
    forall j | 0 <= j < |t.interns| ensures t.interns[j].id != internId {
      assert t.interns[j] in t.interns;
    }
  }

  /** An intern added under a name no admin or intern has can log in with
      the name as typed, and is greeted as that new intern. */
  lemma AddedInternCanLogIn(s: Store, draft: string, newId: Id)
    requires !IsBlank(draft)
    requires forall k :: 0 <= k < |s.admins| ==> s.admins[k].name != Trim(draft)
    requires forall k :: 0 <= k < |s.interns| ==> s.interns[k].name != Trim(draft)
    ensures var t := AdminDashboard.AddIntern(s, draft, newId);
            Login.Resolve(t.admins, t.interns, draft) == Login.Welcome(Identity(newId, Trim(draft), InternRole))
  {
    var t := AdminDashboard.AddIntern(s, draft, newId);
    var name := Trim(draft);
    OnlyNewInternNamed(s.interns, t.interns, Intern(newId, name));
    UniqueInternLogsIn(t.admins, t.interns, draft, |s.interns|);
  }

  /** Appending an intern under a name no intern had makes it the only
      intern with that name. */
  lemma OnlyNewInternNamed(before: seq<Intern>, after: seq<Intern>, added: Intern)
    requires forall k :: 0 <= k < |before| ==> before[k].name != added.name
    requires |after| == |before| + 1 && after[..|before|] == before && after[|before|] == added
    ensures Login.OnlyInternNamed(after, added.name, |before|)
  {
    assert forall j :: 0 <= j < |before| ==> after[j] == after[..|before|][j];
  }

  /** With no admin of that name, a name only one intern has logs in as
      that intern. */
  lemma UniqueInternLogsIn(admins: seq<Admin>, interns: seq<Intern>, typed: string, k: int)
    requires !IsBlank(typed)
    requires forall a :: 0 <= a < |admins| ==> admins[a].name != Trim(typed)
    requires Login.OnlyInternNamed(interns, Trim(typed), k)
    ensures Login.Resolve(admins, interns, typed) == Login.Welcome(Identity(interns[k].id, interns[k].name, InternRole))
  {
    assert forall a :: !Login.OnlyAdminNamed(admins, Trim(typed), a);
  }
}
