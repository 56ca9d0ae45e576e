/**
 The rows of the four tables (`admins`, `interns`, `tasks`, `notes`), the
 role-tagged identity a login produces, and the store holding all four
 tables. Ids are the strings the datastore assigns; `created_at` is a
 natural number used only to order rows.
 */
module Records {
  import opened Wrappers

  type Id = string

  /** `sender_role` of a note and `role` of an identity: 'admin' or 'intern'. */
  datatype Role = AdminRole | InternRole

  /** `status` of a task: 'pending' or 'completed'. */
  datatype Status = Pending | Completed

  datatype Admin = Admin(id: Id, name: string)

  datatype Intern = Intern(id: Id, name: string)

  datatype Task = Task(id: Id, title: string, internId: Id, status: Status, createdAt: nat)

  /** `receiverId` is the nullable `receiver_id` column. */
  datatype Note = Note(
    id: Id,
    senderId: Id,
    senderRole: Role,
    content: string,
    receiverId: Option<Id>,
    isGroup: bool,
    isRead: bool,
    createdAt: nat)

  /** The `{ id, name, role }` object handed from the login form to the page. */
  datatype Identity = Identity(id: Id, name: string, role: Role)

  datatype Store = Store(admins: seq<Admin>, interns: seq<Intern>, tasks: seq<Task>, notes: seq<Note>)

  function NoteTime(n: Note): nat { n.createdAt }

  function TaskTime(t: Task): nat { t.createdAt }
}
