# Intern portal: data and access model

This project models the data and access rules of a small intern-management
portal. The portal has one founder (admin) and many interns. People log in by
typing their name. The founder adds and removes interns, assigns tasks and
sends notes. A note goes either to one intern or to every intern as a group
message. Interns complete their tasks and send notes back to the founder.

The store is four immutable sequences of rows: `admins`, `interns`, `tasks`
and `notes` (`Records.Store`). Each handler of the two dashboards is a pure
function from a store to a new store. A handler that returns early on blank
input gives back the store it was given. Each dashboard's `fetchData` is a
function from the store to what the dashboard shows. The table-query calls
are plain functions on sequences (`Query`): filtered select, update-where,
`find`, `.single()` and newest-first ordering. The page's session is a record
with the current user, the client-held slot and a loading flag (`Session`).

Modules:

- `Text`: JavaScript's `trim` (ECMAScript WhiteSpace and LineTerminator code points) and the blank-input test `!s.trim()`.
- `Query`: the relational meaning of the table calls.
- `Records`: the rows, the role-tagged identity and the store.
- `AdminDashboard`: the founder's notes filter, ordering and sender names, the task join, and `sendNote`, `markAsRead`, `addIntern`, `removeIntern`, `assignTask`.
- `InternDashboard`: the intern's task and notes filters, `completeTask` and `sendNote`.
- `Login`: name resolution, admins before interns.
- `Session`: the page's user slot, startup restore, login, logout and screen dispatch.
- `Portal`: all handlers as one action type, the invariants that runs of actions keep, and how senders and inbox filters fit together.

Behaviour of the code that a reader might not expect:

- `assignTask` checks only that an intern id was picked. It does not check that the picked intern exists.
- Marking, completing or removing an unknown id updates no row and raises no error.
- An intern's note is stored with no `receiver_id`. So the founder's filter, as written, never admits it (see Findings).

## Model

| member | source | states |
|---|---|---|
| Text.Trim | src/components/Login.tsx:18 | the trimmed text is one slice of the input with only white space before and after it; it is empty exactly when the input is all white space, and otherwise neither starts nor ends with white space |
| Query.FindFirst | src/components/AdminDashboard.tsx:43 | `find` yields nothing exactly when no row matches, and otherwise the row at the first matching index |
| Query.Single | src/components/Login.tsx:23-27 | `.single()` yields a row exactly when one and only one row matches, and then yields that row |
| Query.SortNewestFirst | src/components/AdminDashboard.tsx:38 | ordering by `created_at` descending keeps exactly the same rows (as a multiset) and puts them newest first |
| AdminDashboard.AdminInbox | src/components/AdminDashboard.tsx:34-38 | the founder's notes are exactly the stored notes with `receiver_id` = founder or `sender_id` = founder, each as often as stored, newest first |
| Query.Select | src/components/AdminDashboard.tsx:106-107 | a filtered select or delete keeps exactly the rows that satisfy the filter (the rows the delete does not match), each as often as stored, and never more rows than the table had |
| Query.UpdateWhere | src/components/AdminDashboard.tsx:81-85 | an update-where keeps every row in its place, leaves each non-matching row as it was, and rewrites each matching row by the update |
| AdminDashboard.FindIntern | src/components/AdminDashboard.tsx:43 | the sender lookup finds nothing exactly when no intern has the id, and otherwise finds the first intern with it |
| AdminDashboard.SenderName | src/components/AdminDashboard.tsx:41-48 | a non-intern sender is shown as "You (Founder)"; an intern sender as the first matching intern's name, or "Unknown Intern" when none matches or that name is empty |
| AdminDashboard.Enrich | src/components/AdminDashboard.tsx:41-48 | enrichment keeps the notes exactly, in number and order (dropping the labels gives them back), and pairs each note with its sender's label |
| AdminDashboard.TaskRows | src/components/AdminDashboard.tsx:31 | each task, in stored order, carries the name of the first intern with its `intern_id`, and no name exactly when no intern has that id |
| AdminDashboard.Fetch | src/components/AdminDashboard.tsx:28-54 | the dashboard lists all interns; every task in stored order with the name of its intern, or none; and exactly the founder's notes, each as often as stored, newest first, each labelled with its sender's name |
| AdminDashboard.SendNote | src/components/AdminDashboard.tsx:56-69 | a blank draft changes nothing; otherwise exactly one unread founder note with the trimmed text is appended; it is a group note exactly when "all" is picked, has no receiver exactly when it is a group note, and otherwise names the picked intern |
| AdminDashboard.CanMarkRead | src/components/AdminDashboard.tsx:327 | "Mark as read" is drawn exactly under an intern's note that marking read would change, that is, an unread one |
| AdminDashboard.MarkAsRead | src/components/AdminDashboard.tsx:81-85 | notes keep their places; a note is read afterwards exactly when it was read before or has the id; no other field changes and no other table changes |
| AdminDashboard.AddIntern | src/components/AdminDashboard.tsx:94-96 | a blank name changes nothing; otherwise exactly one intern with the trimmed, non-blank name is appended and no other table changes |
| AdminDashboard.RemoveIntern | src/components/AdminDashboard.tsx:106-107 | exactly the intern rows with the id are deleted; admins, tasks and notes are untouched |
| AdminDashboard.AssignTask | src/components/AdminDashboard.tsx:116-120 | a blank title or no picked intern changes nothing; otherwise exactly one pending task with the trimmed title for the picked intern is appended |
| AdminDashboard.IntendedAdminInbox | src/components/AdminDashboard.tsx:33 | the corrected founder inbox: everything the as-written inbox holds, plus every intern note that has no receiver |
| InternDashboard.MyTasks | src/components/InternDashboard.tsx:26-30 | the intern's tasks are exactly the stored tasks with `intern_id` = self, newest first |
| InternDashboard.MyNotes | src/components/InternDashboard.tsx:33-37 | the intern's notes are exactly those with `receiver_id` = self, or `is_group`, or `sender_id` = self, newest first |
| InternDashboard.Fetch | src/components/InternDashboard.tsx:23-42 | the portal shows exactly the intern's tasks and notes, each newest first |
| InternDashboard.CanComplete | src/components/InternDashboard.tsx:135 | "Complete" is drawn exactly beside a task that completing would change, that is, a pending one |
| InternDashboard.CompleteTask | src/components/InternDashboard.tsx:44-48 | every task with the id becomes completed whatever its status was; other tasks and all other fields and tables are unchanged |
| InternDashboard.SendNote | src/components/InternDashboard.tsx:58-68 | a blank draft changes nothing; otherwise exactly one unread intern note with the trimmed text is appended, not a group note and with no receiver |
| Login.FindAdmin | src/components/Login.tsx:23-27 | the admin lookup succeeds exactly when one admin row has the name, and returns that row |
| Login.FindIntern | src/components/Login.tsx:36-40 | the intern lookup succeeds exactly when one intern row has the name, and returns that row |
| Login.Resolve | src/components/Login.tsx:16-47 | blank input is ignored; a unique admin match logs in as admin even if an intern has the name; an intern login needs no admin match; no match in either table is not-found; the identity copies the row's id and name, which is the trimmed input |
| Session.Mount | src/app/page.tsx:10-11 | a freshly mounted page has no user, is loading, and keeps the browser's slot |
| Session.Restore | src/app/page.tsx:13-19 | startup makes a saved identity the current user, keeps the user otherwise, and ends loading |
| Session.Startup | src/app/page.tsx:13-19 | after a page load the current user is exactly the saved slot |
| Session.SignIn | src/app/page.tsx:21-24 | after login the current user and the saved slot both equal the identity |
| Session.SignOut | src/app/page.tsx:26-29 | after logout there is no user and the slot is empty, whatever came before |
| Session.ScreenOf | src/app/page.tsx:31-47 | a spinner exactly while loading; the login form without a user; the founder's dashboard exactly for role admin and the intern portal otherwise, for that user |
| Session.Submit | src/components/Login.tsx:29-44 | a resolved login signs the page in with that identity; a blank or unknown name leaves the page as it was |
| Session.SubmitRoutesByRole | src/components/Login.tsx:23-44 | a unique admin name opens the founder's dashboard even when an intern shares it; a name only one intern has opens that intern's portal; an unknown name changes nothing |
| Session.ReloadKeepsLogin | src/app/page.tsx:13-24 | logging in and then reloading restores the same user and the same screen |
| Session.ReloadAfterLogout | src/app/page.tsx:13-29 | logging out and then reloading shows the login form |
| Portal.ApplyExtends | src/components/InternDashboard.tsx:44-48 | no handler deletes, moves or edits a note or task beyond setting read flags and completing tasks, and a completed task stays completed |
| Portal.RunExtends | src/components/InternDashboard.tsx:44-48 | over any run of handlers, notes and tasks are only appended, read flags only turn on, and no task goes back from completed to pending |
| Portal.RunKeepsWellFormed | src/components/AdminDashboard.tsx:60-66 | over any run of handlers, every group note has no receiver, and no intern note is a group note or has a receiver |
| Portal.GroupNoteReachesEveryone | src/components/InternDashboard.tsx:33-37 | a sent group note has no receiver, is in every intern's inbox and is in the sending founder's inbox |
| Portal.DirectNoteReachesOnlyAddressee | src/components/InternDashboard.tsx:33-37 | a founder's direct note is in the picked intern's inbox and the founder's, and in the inbox of no other intern whose id is not the founder's |
| Portal.InternNoteEchoes | src/components/InternDashboard.tsx:33-37 | an intern's note is in that intern's own inbox through `sender_id`, and in no other intern's inbox |
| Portal.InternNoteMissesAdminInbox | src/components/AdminDashboard.tsx:37 | as written, a note from an intern whose id is not the founder's is never in the founder's inbox; under the corrected filter it is |
| Portal.MarkReadNeverOffered | src/components/AdminDashboard.tsx:327 | in a well-formed store where no intern note carries the founder's id as sender, the founder's inbox holds only founder notes, so "Mark as read" is never offered |
| Portal.RunNeverOffersMarkRead | src/components/AdminDashboard.tsx:327 | from a well-formed store where no intern note carries the founder's id, no run of handlers in which no intern acts under the founder's id ever makes "Mark as read" appear on the founder's dashboard |
| Portal.MarkAsReadIdempotent | src/components/AdminDashboard.tsx:81-85 | marking a note read twice gives the same store as marking it once |
| Portal.MarkAsReadHidesButton | src/components/AdminDashboard.tsx:327 | after a note is marked read, no note with that id offers "Mark as read" |
| Portal.CompleteTaskIdempotent | src/components/InternDashboard.tsx:44-48 | completing a task twice gives the same store as completing it once |
| Portal.CompleteTaskHidesButton | src/components/InternDashboard.tsx:135 | after a task is completed, no task with that id offers "Complete" |
| Portal.RemovedInternShowsAsUnknown | src/components/AdminDashboard.tsx:106-107 | after an intern is removed, any note of theirs is labelled "Unknown Intern" and each of their tasks, if any remain, has no intern name |
| Portal.AddedInternCanLogIn | src/components/AdminDashboard.tsx:94-96 | an intern added under a fresh name can log in with the name as typed and gets the new intern identity |

## Findings

| source | as written | input that shows it | evidently intended | confidence | as-written member | corrected member |
|---|---|---|---|---|---|---|
| src/components/AdminDashboard.tsx:37 | the founder's notes filter admits a note only when `receiver_id` or `sender_id` is the founder, and the intern's insert (src/components/InternDashboard.tsx:63-68) sets no `receiver_id` | any intern whose id is not the founder's sending a non-blank note such as "Done with setup": the stored note has a null receiver and the intern as sender, so the founder's query does not return it | the comment above the query says it fetches notes "sent to admin", and the intern's confirmation says "Note sent to founder"; with a single founder, an intern note with no receiver is addressed to the founder | medium; not executed | Portal.InternNoteMissesAdminInbox | AdminDashboard.IntendedAdminInbox |

A consequence follows from this. "Mark as read" is drawn only under unread intern notes, and the founder's inbox never holds one. So the button never appears (`Portal.RunNeverOffersMarkRead`). The dashboard views (`AdminDashboard.Fetch`) keep the filter as written, because the model describes what the portal does. `AdminDashboard.IntendedAdminInbox` is the corrected filter, and `Portal.InternNoteMissesAdminInbox` proves that the intern's note is in it.

## Left out

- The hosted datastore client and the network. Each handler's error branch only shows a message and leaves the state unchanged. The transitions here are the success branches, so a failed call means keeping the old store. Login's catch branch is left out for the same reason: it produces no identity.
- The row `id` and `created_at` the datastore generates. Each insert takes them as parameters (`newId`, `now`). Ids are not assumed unique, so update-where and delete-where act on every row with the id.
- Admin and intern ids are not assumed distinct either: `admins` and `interns` are separate tables, and `notes.sender_id` holds ids from both. The inbox lemmas in `Portal` (`DirectNoteReachesOnlyAddressee`, `InternNoteMissesAdminInbox`, `MarkReadNeverOffered`, `RunNeverOffersMarkRead`) take as a hypothesis that the interns involved do not share the founder's id, as generated ids drawn from one space (uuid strings, say) would ensure. An intern with the founder's id would have their notes returned by the founder's `sender_id` filter, and the finding below assumes this does not happen.
- `is_read` at insert. Neither insert sets it. The model takes the column's initial value to be false. No other column default is assumed, so an intern's note has a null `receiver_id`.
- Toasts, the `loading` and `sendingNote` flags, the send buttons' disabled state (it repeats the handlers' blank check), JSX, styling, icons and the logo.
- `localStorage` and the JSON encoding of the saved identity. The slot is an `Option<Identity>`, and encoding it then decoding it is taken to give back the same identity.
- The page's role test `role === 'admin'` sends any other role to the intern portal. `Records.Role` has only the two roles a login can produce.
- Date and time formatting. `created_at` is a natural number used only for ordering.
- Foreign-key behaviour when an intern is deleted (cascade or refusal). The schema is not part of this model. `RemoveIntern` deletes only the intern rows. The `interns(name)` embed in the task query (src/components/AdminDashboard.tsx:31) implies a foreign key from `tasks.intern_id` to `interns`. If the schema refuses or cascades the delete, the orphaned tasks that `Portal.RemovedInternShowsAsUnknown` describes never exist.
- Building the filter strings `receiver_id.eq.<id>,...`: an id containing filter syntax is not modelled. Ids are compared as whole values.
- The founder's intern list and task list have no ordering clause. Both are modelled in stored order.
- Query.SortNewestFirst: rows with equal `created_at` may come back in any order. The model fixes one order, and its contract promises only newest-first order over the same rows.
