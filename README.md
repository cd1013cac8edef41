# Kanban business layer in Dafny

A model of the business layer of a multi-user Kanban board service. It has three parts:

- **`Task`** (`tasks.dfy`): a guarded record. Each `Update*` method checks, in order, that the caller is the assignee, that the task is not done, and that the new value is valid; only then does it assign the field. `AssignTask` and `AdvanceTask` check first that the task is not done, and only then the caller.
- **`Board`** (`boards.dfy`): a board with
  - three ordered task columns: backlog, in progress and done;
  - one work-in-progress limit per column, where -1 means unlimited;
  - a tracker from task id to column, kept in lock-step with the columns;
  - a sequential task-id counter;
  - an owner and a list of joined collaborators.
- **`BoardController`** (`controller.dfy`): one façade for all users. It validates the caller, resolves a board by title (owned boards first, then joined ones) or by id, checks ownership, delegates to the board and task operations, and collects tasks across boards.

`kanban.dfy` holds what the three share:

- the column ordinals;
- the error kinds that stand in for the exceptions;
- the `Result`/`Outcome` types;
- the column-ordinal check;
- the `LinkedList.Remove` semantics used on `joined`.

Every throwing operation returns an `Outcome` or a `Result`. The error kind stands for the exception class:

| error kind | exception |
|---|---|
| `NotFound` | `NoSuchElementException` |
| `OutOfRange` | `IndexOutOfRangeException` |
| `InvalidArgument` and `LimitReached` | `ArgumentException` (a failure at a limit is `LimitReached`, so it can be told apart) |
| `Permission` | `AccessViolationException` |
| `AlreadyExists` | `ElementAlreadyExistsException` |
| `Fatal` | `OperationCanceledException` |
| `UnknownUser` | `UserDoesNotExistException` |
| `NotLoggedIn` | `UserNotLoggedInException` |

## Invariants

- **Task.** `Task.Valid` says the title has 1..50 characters and the description at most 300. The constructor establishes it, and every `Task` method requires it and keeps it.
- **Board.** `Board.Valid` is the board invariant:
  - every task of column `c` is tracked at `c`;
  - every tracked id is found in the column the tracker names;
  - no column holds an id twice;
  - tracked ids are below the counter;
  - every column respects its limit;
  - the owner is not in `joined`, and `joined` has no duplicates.

  From it, `ConsistentKeys` proves two facts: the tracker's key set is exactly the set of ids across the three columns, and an id occurs at one position of one column only.
- **Task state.** `Board.StatesAgree` says each task's own state is the column that holds it. The board's `AdvanceTask` moves a task without touching its state, so `StatesAgree` only holds again after the controller's `AdvanceTask` has also advanced the task. It is stated there.
- **Controller.** `BoardController.Valid` is the controller invariant:
  - every stored board is valid;
  - no two boards share a board object: the board itself, its column array or its limit array (`Frame`). The task objects the columns hold are not shown distinct across boards;
  - boards are keyed by their ids;
  - every known user has board lists;
  - every listed board is stored.

  The effect of the state-changing operations on the board they resolve is written as twostate predicates: `AdvancedOn` (made of `AdvanceRefused`, `AdvanceMoved` and `AdvanceAgreed`) for `AdvanceTask`, and `LeftBy` for `LeaveBoard`. `Board.CanAdvance` and `Board.AdvanceError` give the board's condition for moving a task and the error of its first failed check.

## Model

| member | source | states |
|---|---|---|
| Kanban.ValidateColumnOrdinal | Backend/BusinessLayer/Board.cs:498-505 | passes exactly for ordinals 0..2; every other ordinal is a range error |
| Kanban.ColumnName | Backend/BusinessLayer/Board.cs:356-362 | the printed column name is never empty, and only column 1 is written as two words |
| Kanban.RemoveFirst | Backend/BusinessLayer/Board.cs:475 | `LinkedList.Remove`: one element shorter when the element is present, the list unchanged when it is not, and no new element |
| Kanban.ColumnNamesDistinct | Backend/BusinessLayer/Board.cs:351-364 | the three column names differ, so a name identifies its column |
| Kanban.RemoveFirstNoDuplicates | Backend/BusinessLayer/Board.cs:475 | removing a member from a duplicate-free `joined` list removes exactly that member and leaves the list duplicate-free |
| Kanban.RemoveFirstAt | Backend/BusinessLayer/Board.cs:174 | `LinkedList.Remove` of the element at its first position cuts out exactly that position and keeps the others in order |
| Tasks.Task.constructor | Backend/BusinessLayer/Task.cs:55-88 | from validated fields: a task in the backlog, unassigned, created today, with the given id, title, description and due date |
| Tasks.Task.Create | Backend/BusinessLayer/Task.cs:58-84 | succeeds exactly when the title has 1..50 characters, the description at most 300 and the due date is not in the past; otherwise an argument error and no task |
| Tasks.Task.AdvanceTask | Backend/BusinessLayer/Task.cs:157-173 | a done task fails first, then a caller who is not the assignee; success exactly otherwise, and then the state is one step further, so it never passes done; on failure the state is unchanged |
| Tasks.Task.AssignTask | Backend/BusinessLayer/Task.cs:184-206 | fails on a done task, then unless the caller is the assignee or the task is unassigned, then when the assignee re-assigns itself; on success the assignee is the new one, otherwise unchanged; nothing else changes |
| Tasks.Task.UpdateDueDate | Backend/BusinessLayer/Task.cs:216-238 | permission error for a non-assignee; otherwise succeeds exactly when the task is not done and the date is not in the past; only the due date changes, and only on success |
| Tasks.Task.UpdateTitle | Backend/BusinessLayer/Task.cs:249-277 | permission error for a non-assignee; otherwise succeeds exactly when the task is not done and the title has 1..50 characters; only the title changes, and only on success |
| Tasks.Task.UpdateDescription | Backend/BusinessLayer/Task.cs:288-311 | permission error for a non-assignee; otherwise succeeds exactly when the task is not done and the description has at most 300 characters; only the description changes, and only on success |
| Boards.Without | Backend/BusinessLayer/Board.cs:164-187 | reference for a removal: keeps exactly the tasks of the column with another id |
| Boards.WithoutAt | Backend/BusinessLayer/Board.cs:169-177 | in a column with distinct ids, filtering out the id at position `k` is cutting out position `k` |
| Boards.WithoutAppend | Backend/BusinessLayer/Board.cs:164-187 | filtering a concatenation filters each part |
| Boards.ConsistentKeys | Backend/BusinessLayer/Board.cs:37-44 | under the consistency invariant, the tracker's keys are exactly the ids in the three columns, and each id sits at one position of one column |
| Boards.ConsistentInsert | Backend/BusinessLayer/Board.cs:135-137 | appending an untracked task to a column and tracking it there keeps tracker and columns consistent |
| Boards.ConsistentRemove | Backend/BusinessLayer/Board.cs:169-177 | cutting a task out of its column and its id out of the tracker keeps them consistent |
| Boards.ConsistentMove | Backend/BusinessLayer/Board.cs:224-227 | moving a task to the end of the next column and re-tracking it there keeps them consistent |
| Boards.Reassigned | Backend/BusinessLayer/Board.cs:476-489 | a task assigned to the leaver becomes unassigned and a task assigned to anyone else keeps its assignee, so the result is never the leaver unless the leaver is `unAssigned` itself |
| Boards.IndexOfId | Backend/BusinessLayer/Board.cs:301-308 | the first position holding the id, or -1 exactly when no task has it |
| Boards.FindTask | Backend/BusinessLayer/Board.cs:301-308 | the `foreach` scan: the first position holding the id, or -1 exactly when no task has it |
| Boards.Board.UniqueIds | Backend/BusinessLayer/Board.cs:37-44 | on a valid board two tasks with the same id are the same position of the same column, so no task sits in two columns |
| Boards.Board.TaskAtIs | Backend/BusinessLayer/Board.cs:295-308 | a task held in the column the tracker names for its id is the one the tracker points at |
| Boards.Board.constructor | Backend/BusinessLayer/Board.cs:47-62 | a new board is valid: three empty columns, every limit -1, an empty tracker, counter 0, nobody joined |
| Boards.Board.AddTask | Backend/BusinessLayer/Board.cs:128-156 | a full backlog gives a limit error; success exactly when the backlog has room and the fields are valid; on failure nothing changes; on success the new task has the old counter as id and sits at the end of the backlog, the other columns are unchanged, the tracker gains it at backlog, the counter grows by one; the invariant and the agreement of states are kept |
| Boards.Board.Append | Backend/BusinessLayer/Board.cs:135-137 | storing the new task: it is at the end of the backlog, tracked at backlog under the old counter, and the counter moves on, with the invariant kept |
| Boards.Board.RemoveTask | Backend/BusinessLayer/Board.cs:164-187 | an untracked id is not found and changes nothing; otherwise exactly that task leaves its column and the tracker, the others keep their order, and the invariant holds |
| Boards.Board.Search | Backend/BusinessLayer/Board.cs:295-325 | finds a task exactly when the tracker knows the id, and then it is the task with that id in the tracked column; an unknown id gives the user-does-not-exist error; the fatal branch is never taken |
| Boards.Board.SearchTask | Backend/BusinessLayer/Board.cs:295-325 | the scan returns what `Search` specifies, so on a valid board it never raises the fatal divergence error |
| Boards.Board.SearchTaskInColumn | Backend/BusinessLayer/Board.cs:268-286 | range error for a bad ordinal; otherwise finds a task exactly when the tracker places the id in that column, else not found |
| Boards.Board.AdvanceTask | Backend/BusinessLayer/Board.cs:204-256 | the errors in the order `Board.AdvanceTask` checks them: range, unknown task, not the assignee, tracker in another column, done, next column full (`AdvanceError`); success exactly when none applies (`CanAdvance`); on failure nothing changes; on success the task leaves its column for the end of the next, the tracker follows, and every task other than the moved one still agrees with its column |
| Boards.Board.AdvanceTracked | Backend/BusinessLayer/Board.cs:215-250 | the checks after the task is found and the move they guard, with the same outcome and effects as `AdvanceTask` |
| Boards.Board.Shift | Backend/BusinessLayer/Board.cs:223-227 | the move of a successful advance keeps the invariant and the agreement of every task other than the moved one |
| Boards.Board.MoveForward | Backend/BusinessLayer/Board.cs:225-226 | out of column `s`, at the end of column `s + 1`, the third column unchanged, the tracker entry set to `s + 1`, and the invariant kept |
| Boards.Board.AgreeFrom | Backend/BusinessLayer/BoardController.cs:640-642 | when the other tasks agree with their columns and the moved task's state is its new column, every task agrees |
| Boards.Board.GetColumnLimit | Backend/BusinessLayer/Board.cs:334-341 | range error exactly for a bad ordinal; else the limit, which is -1 or a bound the column respects |
| Boards.Board.GetColumnName | Backend/BusinessLayer/Board.cs:351-364 | "backlog", "in progress" and "done" for 0, 1 and 2; a range error otherwise |
| Boards.Board.GetColumn | Backend/BusinessLayer/Board.cs:373-380 | range error exactly for a bad ordinal; else that column, every task of which the tracker places there |
| Boards.Board.LimitColumn | Backend/BusinessLayer/Board.cs:391-413 | range error, then an argument error for a limit below -1, then a limit error if the column already exceeds it; success exactly otherwise, setting that one limit and nothing else |
| Boards.Board.ChangeOwner | Backend/BusinessLayer/Board.cs:424-436 | succeeds exactly when the new owner is joined; then the new owner owns the board and, when the caller was the owner, membership is the old members plus the old owner minus the new owner; on failure nothing changes |
| Boards.Board.JoinBoard | Backend/BusinessLayer/Board.cs:445-459 | the owner gets a permission error, a member an argument error; otherwise the user is appended to `joined`, which stays duplicate-free and free of the owner |
| Boards.Board.LeaveBoard | Backend/BusinessLayer/Board.cs:467-491 | only a member can leave, and then its first occurrence leaves `joined`, so it is no longer there; a non-member gets an argument error and nothing changes; backlog and in-progress tasks assigned to it become unassigned; done tasks, the columns and every other task field are untouched |
| Boards.Board.Unassign | Backend/BusinessLayer/Board.cs:476-489 | one loop of `LeaveBoard`: every task of the column assigned to the leaver becomes unassigned, the others keep their assignee, no other field changes |
| BoardControllers.FirstWithTitle | Backend/BusinessLayer/BoardController.cs:302-322 | the first position of a board with that title, or -1 exactly when none has it |
| BoardControllers.FindBoard | Backend/BusinessLayer/BoardController.cs:302-309 | the loop over one board list finds the first board with that title |
| BoardControllers.Drop | Backend/BusinessLayer/BoardController.cs:121 | a board list without the removed board, every other board kept |
| BoardControllers.TasksIn | Backend/BusinessLayer/BoardController.cs:166-174 | reference for the collection: a single board yields exactly its column; `TasksInAppend`, `TasksInMembership` and `TasksInEmpty` state the rest |
| BoardControllers.TasksInAppend | Backend/BusinessLayer/BoardController.cs:167-174 | collecting over two board lists is collecting over each in turn |
| BoardControllers.TasksInMembership | Backend/BusinessLayer/BoardController.cs:167-174 | a task is collected exactly when some board of the list holds it in that column |
| BoardControllers.TasksInEmpty | Backend/BusinessLayer/BoardController.cs:167-174 | nothing is collected when no board holds a task in that column |
| BoardControllers.TasksInStates | Backend/BusinessLayer/BoardController.cs:167-174 | from boards whose tasks agree with their columns, every collected task is in the requested state |
| BoardControllers.AppendAll | Backend/BusinessLayer/BoardController.cs:170-173 | the inner loop appends the column, in order, at the end of the tasks so far |
| BoardControllers.CollectColumns | Backend/BusinessLayer/BoardController.cs:166-174 | the nested loops collect that column of every board, board after board |
| BoardControllers.BoardIds | Backend/BusinessLayer/BoardController.cs:252-283 | the ids of a board list, position by position |
| BoardControllers.ListedDrop | Backend/BusinessLayer/BoardController.cs:121 | dropping a stored board from the system and from every list keeps every listed board stored |
| BoardControllers.AdvanceOnBoard | Backend/BusinessLayer/BoardController.cs:641-642 | the board moves the task, then the task advances; a board that refuses gives the error of its first failed check and changes nothing; otherwise the task leaves its column for the end of the next, the tracker follows, and the task's state grows by one unless it was done, which is an argument error; on success the task is tracked in and held by column `ordinal + 1`, and a board whose tasks agreed with their columns still does |
| BoardControllers.AdvanceResolved | Backend/BusinessLayer/BoardController.cs:640-642 | the task is resolved by id, then as `AdvanceOnBoard`; an unknown task gives the user-does-not-exist error; `AdvancedOn` holds of the board |
| BoardControllers.BoardController.constructor | Backend/BusinessLayer/BoardController.cs:35-38 | a valid controller over the given users and no boards, each user with empty board lists |
| BoardControllers.BoardController.SystemBoard | Backend/BusinessLayer/BoardController.cs:354 | a stored board is valid, its board objects and its tasks belong to the system, and its board objects belong to no other board |
| BoardControllers.BoardController.ListedBoards | Backend/BusinessLayer/BoardController.cs:212-213 | every board a user owns or has joined is stored and valid |
| BoardControllers.BoardController.ValidateUser | Backend/BusinessLayer/BoardController.cs:485-499 | an unknown user first, then a logged-out one; passes exactly for a known, logged-in user |
| BoardControllers.BoardController.BoardByTitle | Backend/BusinessLayer/BoardController.cs:294-335 | the caller's validation error first; then success exactly when an owned or joined board has that title; the first owned match wins, and when no owned board has the title, the first joined match; otherwise not found; the result is a stored, valid board with that title |
| BoardControllers.BoardController.SearchBoard | Backend/BusinessLayer/BoardController.cs:294-335 | the two loops compute `BoardByTitle` and change nothing |
| BoardControllers.BoardController.SearchBoardById | Backend/BusinessLayer/BoardController.cs:348-374 | the caller's validation error first; then the stored board with that id, or not found exactly when there is none |
| BoardControllers.BoardController.GetBoards | Backend/BusinessLayer/BoardController.cs:206-241 | the caller's validation error, else the owned boards followed by the joined boards, order kept |
| BoardControllers.BoardController.GetBoardsId | Backend/BusinessLayer/BoardController.cs:252-283 | the caller's validation error, else the ids of `GetBoards`, in its order |
| BoardControllers.BoardController.AllTasksByState | Backend/BusinessLayer/BoardController.cs:158-194 | the caller's validation error first, then a range error for a bad ordinal; success exactly otherwise |
| BoardControllers.BoardController.AllTasksByStateContents | Backend/BusinessLayer/BoardController.cs:164-176 | the collected tasks are exactly the tasks of that column of the user's boards, each in that state when the boards' tasks agree with their columns, and none when that column is empty on every board of the user, in particular when the user has no board |
| BoardControllers.BoardController.GetAllTasksByState | Backend/BusinessLayer/BoardController.cs:158-194 | the loops return `AllTasksByState` and change nothing |
| BoardControllers.BoardController.AddBoard | Backend/BusinessLayer/BoardController.cs:40-92 | the caller's validation error, then an argument error for an empty name, then already-exists when the caller owns a board with that title, with no board data touched; success exactly otherwise, and then a fresh board with that title, owned by the caller with nobody joined, is stored under the next id and appended to the caller's owned list, where `BoardByTitle` finds it by its title |
| BoardControllers.BoardController.AddNewBoard | Backend/BusinessLayer/BoardController.cs:68-75 | the data layer's store of a new board: a title the user already owns is already-exists and changes nothing; otherwise the effects listed for `AddBoard`, with the invariant kept |
| BoardControllers.BoardController.StoreBoard | Backend/BusinessLayer/BoardController.cs:68 | a valid board apart from the stored ones, stored under the next id and appended to its owner's list, keeps the controller invariant |
| BoardControllers.BoardController.RemoveBoard | Backend/BusinessLayer/BoardController.cs:108-144 | the lookup error first; then a permission error unless the caller owns the resolved board, changing nothing; otherwise the board leaves the system and every owned and joined list; the users, the logged-in users and the next board id are kept, and no board object changes |
| BoardControllers.BoardController.NukeBoard | Backend/BusinessLayer/BoardController.cs:121 | the data layer's removal: the board is no longer stored and no list names it, with the invariant kept |
| BoardControllers.BoardController.JoinBoard | Backend/BusinessLayer/BoardController.cs:377-429 | the caller's validation error, then not found for an unknown board id, then already-exists when the caller's joined list already holds the board, all changing nothing; otherwise the joined pointer is already added when the board refuses the owner (permission) or a member (argument), and the caller is appended to `joined` exactly otherwise; other boards, the board's columns, limits, owner, tracker and counter, the owned lists and the next id are kept |
| BoardControllers.BoardController.Admit | Backend/BusinessLayer/BoardController.cs:395 | the board's side of joining: the owner is refused, then a member; otherwise the caller is appended to `joined`; other boards are unchanged and the controller invariant is kept |
| BoardControllers.BoardController.AddPointerToJoinedBoard | Backend/BusinessLayer/BoardController.cs:393-402 | the data layer appends the board to the user's joined list; an unknown id is not found, and a board the list already holds is already-exists, both changing nothing |
| BoardControllers.BoardController.LeaveBoard | Backend/BusinessLayer/BoardController.cs:439-475 | the caller's validation error, not found, then the owner is refused, all changing nothing; otherwise the joined pointer is removed, other boards and tasks of other boards are unchanged, and `LeftBy` holds of the board: it is refused exactly when the caller is not a member, changing nothing; else the caller leaves `joined` and gives up its backlog and in-progress tasks, with done tasks, columns, limits, owner, tracker, counter and every other task field kept |
| BoardControllers.BoardController.Depart | Backend/BusinessLayer/BoardController.cs:451-452 | the pointer goes first, then the board lets the caller go, with the effects listed for `LeaveBoard` and the controller invariant kept |
| BoardControllers.BoardController.DepartInSystem | Backend/BusinessLayer/BoardController.cs:452 | the board's side of leaving on a stored board: the effects listed for `LeaveBoard` on the board, other boards unchanged, the controller invariant kept |
| BoardControllers.BoardController.DepartApart | Backend/BusinessLayer/BoardController.cs:452 | on a board that shares no board object with the others, `Board.LeaveBoard`'s effects leave every other board and every task of another board unchanged |
| BoardControllers.BoardController.RemovePointerToJoinedBoard | Backend/BusinessLayer/BoardController.cs:451 | the data layer removes the board from the user's joined list and nothing else |
| BoardControllers.BoardController.ChangeOwner | Backend/BusinessLayer/BoardController.cs:517-557 | the lookup error, then already-exists when the new owner already owns the board, then a permission error for a caller who is not the owner, all changing nothing; then a new owner without board lists is not found, changing nothing; otherwise the board moves from the caller's owned list to the new owner's and from the new owner's joined list to the caller's, and the board succeeds exactly when the new owner is joined, and then the new owner owns it and `joined` is the old list plus the caller minus the new owner; a refusal is the membership error and leaves the board unchanged; other boards, the board's columns, limits, tracker and counter are kept |
| BoardControllers.BoardController.HandOver | Backend/BusinessLayer/BoardController.cs:533-534 | the pointers first, then the board's change of owner, with the effects listed for `ChangeOwner` after its checks and the controller invariant kept |
| BoardControllers.BoardController.HandOverInSystem | Backend/BusinessLayer/BoardController.cs:534 | the board's change of owner on a stored board: success exactly when the new owner is joined, then the ownership and membership listed for `ChangeOwner`; a refusal is the membership error and changes nothing; other boards unchanged |
| BoardControllers.BoardController.ChangeOwnerPointer | Backend/BusinessLayer/BoardController.cs:533 | the data layer moves the board from the caller's owned list to the new owner's, and from the new owner's joined list to the caller's |
| BoardControllers.BoardController.AddTask | Backend/BusinessLayer/BoardController.cs:559-593 | the lookup error first, changing nothing; then the board's `AddTask`: a full backlog is a limit error, success exactly when the backlog has room and the fields are valid, a failure is a limit or argument error and changes nothing; on success a fresh task with the old counter as id, the given fields, backlog state and no assignee ends the backlog, the other columns are kept, the tracker gains it and the counter grows by one; other boards, the owner, `joined` and the limits are kept, and agreement of states is kept |
| BoardControllers.BoardController.AddTaskTo | Backend/BusinessLayer/BoardController.cs:565 | the board's `AddTask` on a stored board with the effects listed for `AddTask`, other boards unchanged and the controller invariant kept |
| BoardControllers.BoardController.RemoveTask | Backend/BusinessLayer/BoardController.cs:597-631 | the lookup error first, changing nothing; then success exactly when the board tracks the id, which then leaves the tracker and every column, the other tasks keeping their order; otherwise not found, changing nothing; other boards, the owner, `joined`, the limits and the counter are kept, and agreement of states is kept |
| BoardControllers.BoardController.RemoveTaskFrom | Backend/BusinessLayer/BoardController.cs:603 | the board's `RemoveTask` on a stored board with the effects listed for `RemoveTask`, other boards unchanged and the controller invariant kept |
| BoardControllers.BoardController.AdvanceTask | Backend/BusinessLayer/BoardController.cs:634-675 | the lookup error first, changing nothing; then `AdvancedOn`: an unknown task, then the error of the board's first failed check, both changing nothing; otherwise the task leaves its column for the end of the next and its tracker entry follows, then its state grows by one unless it was done, which is an argument error; no other task changes; on a board whose tasks agreed with their columns, the task's state becomes `ordinal + 1`, agreement is restored, and success needs exactly the board's checks; other boards, the owner, `joined`, the limits and the counter are kept |
| BoardControllers.BoardController.AdvanceInSystem | Backend/BusinessLayer/BoardController.cs:640-642 | the resolved board's advance with the effects listed for `AdvanceTask`, other boards unchanged and the controller invariant kept |
| BoardControllers.BoardController.AdvanceApart | Backend/BusinessLayer/BoardController.cs:640-642 | on a board that shares no board object with the others, the advance leaves every other board and every task of another board unchanged |
| BoardControllers.BoardController.LimitColumn | Backend/BusinessLayer/BoardController.cs:679-718 | the lookup error first, changing nothing; then a range error, an argument error for a limit below -1, a limit error when the column already exceeds it; success exactly otherwise, and then that one limit is set and the others kept; a failure changes no limit; other boards, the board and its columns are kept |
| BoardControllers.BoardController.LimitColumnOf | Backend/BusinessLayer/BoardController.cs:685 | the board's `LimitColumn` on a stored board with the errors and limits listed for `LimitColumn`, other boards unchanged and the controller invariant kept |
| BoardControllers.BoardController.GetColumnLimit | Backend/BusinessLayer/BoardController.cs:721-761 | the lookup error, else the board's answer, which is -1 or a limit |
| BoardControllers.BoardController.GetColumnName | Backend/BusinessLayer/BoardController.cs:763-803 | the lookup error, else the column's name exactly for ordinals 0..2 |
| BoardControllers.BoardController.GetColumn | Backend/BusinessLayer/BoardController.cs:807-842 | the lookup error, else the resolved board's column exactly for ordinals 0..2 |

## Left out

- Logging, the exception messages and the `taskDTO.Change*` / data-access calls are left out. They are side effects on an unseen data layer and a logger. Errors are kinds, not messages.
- The JSON/serializable snapshots (`GetSerializableInstance`) and the board constructor that rebuilds a board from three stored task lists are left out. They are persistence plumbing.
- The board data layer (`BoardDataOperations`) is not part of this model. It is modelled by its state as controller fields:
  - the known users and the logged-in users;
  - each user's owned and joined board lists;
  - the boards by id.

  Its operations (`AddNewBoard`, `NukeBoard`, `AddPointerToJoinedBoard`, `RemovePointerToJoinedBoard`, `ChangeOwnerPointer`, `SearchBoardById`) are modelled by the effect their names and call sites imply. Also not modelled: `AddNewBoard`'s board-id bookkeeping beyond "the next id".
- Case-insensitive strings (`CIString`) are modelled as strings already in normal form.
- `DateTime` becomes an integer day number, and `DateTime.Today` a `today` parameter.
- The task's `boardId` is not modelled. It plays no part in the rules.
- Linked lists become sequences: `LinkedList.Remove` removes the first occurrence and `AddLast` appends. The model does not capture that callers receive the live list objects, and so could alias them.
- BoardControllers.BoardController.ChangeOwner: the board's own `ChangeOwner` does not check that the caller owns the board. It keeps the invariant, stated in `Boards.Board.ChangeOwner`, only when the caller does, which the controller has already checked.
- BoardControllers.BoardController.AddBoard: the data layer's duplicate-title test is taken over the caller's owned boards only (`MyBoards`), the case `AddBoard`'s catch of `ElementAlreadyExistsException` reports; a joined board with the same title does not block a new one. The error is already-exists, as the catch rethrows `ElementAlreadyExistsException`, although the method's doc comment names `ArgumentException`. The data layer's own code is not part of this model.
- BoardControllers.BoardController.AddPointerToJoinedBoard: the data layer's already-joined test is taken to be "the user's joined list holds the board", the case `JoinBoard`'s catch of `ElementAlreadyExistsException` reports; the data layer's own code is not part of this model.
- BoardControllers.BoardController.JoinBoard: the joined pointer is added before the board can still refuse. The model keeps that order and does not claim the two steps are atomic.
- BoardControllers.BoardController.LeaveBoard: the pointer is removed before the board can still refuse. The model keeps that order and does not claim the two steps are atomic.
- BoardControllers.BoardController.ChangeOwner: the ownership pointers move before the board can still refuse. The model keeps that order and does not claim the two steps are atomic.
- BoardControllers.BoardController.AdvanceTask: when the board has moved the task but `task.AdvanceTask` then fails, the move stays, as in `BoardController.AdvanceTask`. The contract states that case (an argument error, the state kept). Success in terms of the board's own checks alone is stated only for boards whose tasks agree with their columns before the call.
- Boards.Board.SearchTask: an unknown id gives the user-does-not-exist error, because that is what the code throws; it is not a not-found error.
- The controller's delegations resolve the task through `Board.Search`, a function proved equal to the `SearchTask` loop. The second search the board's `AdvanceTask` makes after its tracker check uses the same function.
- The board's redundant second check that the tracker knows the id, inside `AdvanceTask`, is kept in form; it always passes.
- BoardControllers.BoardController.Valid: the controller invariant keeps board objects (`Frame`) apart but does not show task objects distinct across boards, and it does not include the agreement of task states with columns. Agreement is stated per board, as a pre-state condition in the contracts of `AddTask`, `RemoveTask` and `AdvanceTask`.
