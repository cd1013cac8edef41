/** The business-layer `BoardController`: one façade for every user. It
    validates the caller, resolves a board by title (owned boards first,
    then joined boards) or by id, checks ownership and delegates to `Board`
    and `Task`. Its board data layer is not part of this model; its state is
    held here as fields: the known users, the logged-in users, each user's
    owned and joined boards, and the boards by id. */
module BoardControllers {
  import opened Kanban
  import opened Tasks
  import opened Boards

  /** The position of the first board with the given title, or -1. */
  function FirstWithTitle(bs: seq<Board>, name: string): (k: int)
    ensures -1 <= k < |bs|
    ensures k >= 0 ==> bs[k].title == name && forall j :: 0 <= j < k ==> bs[j].title != name
    ensures k == -1 <==> forall j :: 0 <= j < |bs| ==> bs[j].title != name
  {
    if bs == [] then -1
    else if bs[0].title == name then 0
    else
      var k := FirstWithTitle(bs[1..], name);
      assert forall j :: 0 < j < |bs| ==> bs[j] == bs[1..][j - 1];
      if k == -1 then -1 else k + 1
  }

  /** The `foreach` over one board list of `SearchBoard(email, name)`. */
  method FindBoard(bs: seq<Board>, name: string) returns (k: int)
    ensures k == FirstWithTitle(bs, name)
  {
    k := 0;
    while k < |bs|
      invariant 0 <= k <= |bs|
      invariant forall j :: 0 <= j < k ==> bs[j].title != name
    {
      if bs[k].title == name {
        return;
      }
      k := k + 1;
    }
    k := -1;
  }

  /** A board list with every occurrence of one board dropped. */
  function Drop(bs: seq<Board>, b: Board): (r: seq<Board>)
    ensures forall x :: x in r ==> x in bs && x != b
    ensures forall x :: x in bs && x != b ==> x in r
  {
    if bs == [] then []
    else if bs[0] == b then Drop(bs[1..], b)
    else [bs[0]] + Drop(bs[1..], b)
  }

  /** A column of a board, empty when the ordinal is not one of its columns. */
  function ColumnOf(b: Board, c: TaskState): (col: seq<Task>)
    reads b.columns
  {
    if c < b.columns.Length then b.columns[c] else []
  }

  /** The tasks of column `c` of every board, board after board. */
  function TasksIn(bs: seq<Board>, c: TaskState): (tasks: seq<Task>)
    reads set b | b in bs :: b.columns
    ensures |bs| == 1 ==> tasks == ColumnOf(bs[0], c)
  {
    if bs == [] then [] else ColumnOf(bs[0], c) + TasksIn(bs[1..], c)
  }

  /** Collecting over two board lists is collecting over each in turn. */
  lemma {:induction false} TasksInAppend(bs: seq<Board>, more: seq<Board>, c: TaskState)
    ensures TasksIn(bs + more, c) == TasksIn(bs, c) + TasksIn(more, c)
  {
    if bs != [] {
      assert (bs + more)[1..] == bs[1..] + more;
      TasksInAppend(bs[1..], more, c);
    } else {
      assert bs + more == more;
    }
  }

  /** A task is collected exactly when some board holds it in column `c`. */
  lemma {:induction false} TasksInMembership(bs: seq<Board>, c: TaskState, t: Task)
    ensures t in TasksIn(bs, c) <==> exists b :: b in bs && t in ColumnOf(b, c)
  {
    if bs != [] {
      TasksInMembership(bs[1..], c, t);
      if t in ColumnOf(bs[0], c) {
        assert bs[0] in bs;
      }
      if exists b :: b in bs && t in ColumnOf(b, c) {
        var b :| b in bs && t in ColumnOf(b, c);
        if b != bs[0] {
          assert b in bs[1..];
        }
      }
    }
  }

  /** Nothing is collected when no board holds a task in column `c`. */
  lemma {:induction false} TasksInEmpty(bs: seq<Board>, c: TaskState)
    requires forall b :: b in bs ==> ColumnOf(b, c) == []
    ensures TasksIn(bs, c) == []
  {
    if bs != [] {
      assert bs[0] in bs;
      TasksInEmpty(bs[1..], c);
    }
  }

  /** Collected from boards whose tasks agree with their columns, every
      task is in state `c`. */
  lemma TasksInStates(bs: seq<Board>, c: TaskState)
    requires forall b :: b in bs ==> b.columns.Length == 3 && b.StatesAgree()
    ensures forall t :: t in TasksIn(bs, c) ==> t.state == c
  {
    forall t | t in TasksIn(bs, c) ensures t.state == c {
      TasksInMembership(bs, c, t);
      var b :| b in bs && t in ColumnOf(b, c);
    }
  }

  /** The inner loop of `GetAllTasksByState`: `col`'s tasks added one by
      one at the end of `tasks`. */
  method AppendAll(tasks: seq<Task>, col: seq<Task>) returns (r: seq<Task>)
    ensures r == tasks + col
  {
    r := tasks;
    for j := 0 to |col|
      invariant r == tasks + col[..j]
    {
      r := r + [col[j]];
    }
    assert col[..|col|] == col;
  }

  /** The accumulating loops of `GetAllTasksByState`: each board's column
      `c`, task after task, board after board. */
  method CollectColumns(bs: seq<Board>, c: TaskState) returns (tasks: seq<Task>)
    requires forall b :: b in bs ==> b.Valid()
    ensures tasks == TasksIn(bs, c)
  {
    tasks := [];
    for i := 0 to |bs|
      invariant tasks == TasksIn(bs[..i], c)
    {
      assert bs[i] in bs;
      var column := bs[i].GetColumn(c);
      tasks := AppendAll(tasks, column.value);
      assert bs[..i + 1] == bs[..i] + [bs[i]];
      TasksInAppend(bs[..i], [bs[i]], c);
      assert TasksIn([bs[i]], c) == ColumnOf(bs[i], c);
    }
    assert bs[..|bs|] == bs;
  }

  /** The ids of a board list, in order. */
  function BoardIds(bs: seq<Board>): (ids: seq<int>)
    ensures |ids| == |bs| && forall k :: 0 <= k < |bs| ==> ids[k] == bs[k].id
  {
    seq(|bs|, k requires 0 <= k < |bs| => bs[k].id)
  }

  /** The board is the one stored under its id. */
  predicate Stored(byId: map<int, Board>, b: Board) {
    b.id in byId && byId[b.id] == b
  }

  /** Every board of every list is stored under its id. */
  predicate Listed(byId: map<int, Board>, lists: map<string, seq<Board>>) {
    forall u, b :: u in lists && b in lists[u] ==> Stored(byId, b)
  }

  /** Replacing one list by a list of stored boards keeps every list stored. */
  lemma ListedUpdate(byId: map<int, Board>, lists: map<string, seq<Board>>, u: string, s: seq<Board>)
    requires Listed(byId, lists) && forall b :: b in s ==> Stored(byId, b)
    ensures Listed(byId, lists[u := s])
  {
  }

  /** Storing a new board under a fresh id keeps every list stored. */
  lemma ListedGrow(byId: map<int, Board>, lists: map<string, seq<Board>>, b: Board)
    requires Listed(byId, lists) && b.id !in byId
    ensures Listed(byId[b.id := b], lists)
  {
    forall u, x | u in lists && x in lists[u] ensures Stored(byId[b.id := b], x) {
      assert Stored(byId, x);
    }
  }

  /** Dropping a stored board from the system and from every list keeps
      every list stored. */
  lemma ListedDrop(byId: map<int, Board>, lists: map<string, seq<Board>>, b: Board)
    requires Listed(byId, lists) && Stored(byId, b)
    ensures Listed(byId - {b.id}, map u | u in lists :: Drop(lists[u], b))
  {
    var dropped := map u | u in lists :: Drop(lists[u], b);
    forall u, x | u in dropped && x in dropped[u] ensures Stored(byId - {b.id}, x) {
      assert x in lists[u] && x != b;
      assert Stored(byId, x);
    }
  }

  /** The part of the controller's `AdvanceTask` after the board and the
      task are resolved: the board moves the task, then the task advances
      its own state. A board that refuses changes nothing and gives the
      error of its first failed check; a task already done refuses after
      the board has moved it, as `BoardController.AdvanceTask` does. */
  method AdvanceOnBoard(board: Board, task: Task, email: string, columnOrdinal: int, taskId: int)
    returns (r: Outcome)
    requires board.Valid() && taskId in board.taskStateTracker && task == board.TaskAt(taskId)
    modifies board`taskStateTracker, board.columns, task`state
    ensures board.Valid()
    ensures !old(board.CanAdvance(email, columnOrdinal, taskId)) ==>
      && r == Fail(old(board.AdvanceError(email, columnOrdinal, taskId)))
      && unchanged(board.Frame()) && unchanged(task)
    ensures old(board.CanAdvance(email, columnOrdinal, taskId)) ==>
      var s := columnOrdinal;
      && board.columns[s] == Without(old(board.columns[s]), taskId)
      && board.columns[s + 1] == old(board.columns[s + 1]) + [task]
      && (forall c :: 0 <= c < 3 && c != s && c != s + 1 ==> board.columns[c] == old(board.columns[c]))
      && board.taskStateTracker == old(board.taskStateTracker)[taskId := s + 1]
      && (r.Pass? <==> old(task.state) != Done)
      && (r.Fail? ==> r.error == InvalidArgument && task.state == old(task.state))
      && (r.Pass? ==> task.state == old(task.state) + 1)
    ensures r.Pass? ==>
      && IsOrdinal(columnOrdinal) && columnOrdinal != Done
      && taskId in board.taskStateTracker
      && board.taskStateTracker[taskId] == columnOrdinal + 1
      && board.TaskAt(taskId) == task
      && task in board.columns[columnOrdinal + 1]
      && task.state == old(task.state) + 1
    ensures old(board.StatesAgree()) && r.Pass? ==> task.state == columnOrdinal + 1
    ensures old(board.StatesAgree()) ==> board.StatesAgree()
    ensures old(board.StatesAgree()) ==> (r.Pass? <==>
      && IsOrdinal(columnOrdinal)
      && task.assignee == email
      && old(board.taskStateTracker[taskId]) == columnOrdinal && columnOrdinal != Done
      && (old(|board.columns[columnOrdinal + 1]|) < board.columnLimit[columnOrdinal + 1]
          || board.columnLimit[columnOrdinal + 1] == -1))
  {
    ghost var agreed := board.StatesAgree();
    r := board.AdvanceTask(email, columnOrdinal, taskId);
    if r.Fail? {
      return;
    }
    r := task.AdvanceTask(email);
    board.TaskAtIs(task);
    if agreed {
      board.AgreeFrom(task);
    }
  }

  /** What the controller's `LeaveBoard` does to the board the caller
      leaves, returning `r`: only its `joined` list and the assignees of its
      backlog and in-progress tasks can change; a caller who has not joined
      it is refused and nothing changes; otherwise the caller leaves the
      list and gives up every backlog and in-progress task they held. */
  twostate predicate LeftBy(board: Board, tasks: set<Task>, email: string, r: Outcome)
    requires old(board.Valid()) && tasks == old(board.AllTasks())
    reads board, board.columns, board.columnLimit, tasks
  {
    var b := board;
    && unchanged(b.columns, b.columnLimit)
    && b.owner == old(b.owner) && b.taskStateTracker == old(b.taskStateTracker)
    && b.taskIDCounter == old(b.taskIDCounter)
    && (r.Pass? <==> email in old(b.joined))
    && (r.Fail? ==> r.error == InvalidArgument && unchanged(b))
    && b.joined == (if r.Pass? then RemoveFirst(old(b.joined), email) else old(b.joined))
    && (forall c, t :: 0 <= c < 2 && t in b.columns[c] ==>
         t.assignee == if r.Pass? then Reassigned(old(t.assignee), email) else old(t.assignee))
    && (forall t :: t in b.columns[Done] ==> t.assignee == old(t.assignee))
    && (forall t :: t in tasks ==>
         && t.state == old(t.state) && t.title == old(t.title)
         && t.description == old(t.description) && t.dueDate == old(t.dueDate))
  }

  /** What the controller's `AdvanceTask` does to a resolved board and its
      tasks, returning `r`: `AdvanceRefused`, `AdvanceMoved` and
      `AdvanceAgreed` together. */
  twostate predicate AdvancedOn(board: Board, tasks: set<Task>, email: string, columnOrdinal: int, taskId: int,
                                r: Outcome)
    requires old(board.Valid()) && board.Valid() && tasks == old(board.AllTasks())
    reads board, board.columns, board.columnLimit, tasks, board.AllTasks()
  {
    && AdvanceRefused(board, tasks, email, columnOrdinal, taskId, r)
    && AdvanceMoved(board, tasks, email, columnOrdinal, taskId, r)
    && AdvanceAgreed(board, email, columnOrdinal, taskId, r)
  }

  /** An unknown id is reported first and changes nothing; a board that
      refuses changes nothing and gives the error of its first failed check;
      and no task of the board but the one with that id changes. */
  twostate predicate AdvanceRefused(board: Board, tasks: set<Task>, email: string, columnOrdinal: int, taskId: int,
                                    r: Outcome)
    requires old(board.Valid()) && tasks == old(board.AllTasks())
    reads board, board.columns, board.columnLimit, tasks
  {
    var b := board;
    && (taskId !in old(b.taskStateTracker) ==>
         r == Fail(UnknownUser) && unchanged(b.Frame()) && unchanged(tasks))
    && (taskId in old(b.taskStateTracker) ==>
         forall t :: t in tasks && t != old(b.TaskAt(taskId)) ==> unchanged(t))
    && (taskId in old(b.taskStateTracker) && !old(b.CanAdvance(email, columnOrdinal, taskId)) ==>
         && r == Fail(old(b.AdvanceError(email, columnOrdinal, taskId)))
         && unchanged(b.Frame()) && unchanged(tasks))
  }

  /** A board that accepts moves the task from its column to the end of
      the next one and moves its tracker entry; then the task advances its
      own state unless it is already done, the one way the call fails after
      the move. */
  twostate predicate AdvanceMoved(board: Board, tasks: set<Task>, email: string, columnOrdinal: int, taskId: int,
                                  r: Outcome)
    requires old(board.Valid()) && tasks == old(board.AllTasks())
    reads board, board.columns, tasks
  {
    var b := board;
    old(b.CanAdvance(email, columnOrdinal, taskId)) ==>
      var s, task := columnOrdinal, old(b.TaskAt(taskId));
      && b.columns.Length == 3
      && b.columns[s] == Without(old(b.columns[s]), taskId)
      && b.columns[s + 1] == old(b.columns[s + 1]) + [task]
      && (forall c :: 0 <= c < 3 && c != s && c != s + 1 ==> b.columns[c] == old(b.columns[c]))
      && b.taskStateTracker == old(b.taskStateTracker)[taskId := s + 1]
      && (r.Pass? <==> old(task.state) != Done)
      && (r.Fail? ==> r.error == InvalidArgument && task.state == old(task.state))
      && (r.Pass? ==> task.state == old(task.state) + 1)
  }

  /** On success the task sits in the next column, tracked there, one state
      further; a board whose tasks agreed with their columns still does, and
      then success is exactly the board's own condition. */
  twostate predicate AdvanceAgreed(board: Board, email: string, columnOrdinal: int, taskId: int, r: Outcome)
    requires old(board.Valid()) && board.Valid()
    reads board, board.columns, board.columnLimit, board.AllTasks()
  {
    var b := board;
    && (r.Pass? ==>
         && IsOrdinal(columnOrdinal) && columnOrdinal != Done
         && taskId in old(b.taskStateTracker) && taskId in b.taskStateTracker
         && b.taskStateTracker[taskId] == columnOrdinal + 1
         && b.TaskAt(taskId) == old(b.TaskAt(taskId))
         && b.TaskAt(taskId) in b.columns[columnOrdinal + 1]
         && b.TaskAt(taskId).state == old(b.TaskAt(taskId).state) + 1)
    && (old(b.StatesAgree()) && r.Pass? ==> b.TaskAt(taskId).state == columnOrdinal + 1)
    && (old(b.StatesAgree()) ==> b.StatesAgree())
    && (old(b.StatesAgree()) ==> (r.Pass? <==>
         && IsOrdinal(columnOrdinal) && taskId in old(b.taskStateTracker)
         && old(b.TaskAt(taskId).assignee) == email
         && old(b.taskStateTracker[taskId]) == columnOrdinal && columnOrdinal != Done
         && (old(|b.columns[columnOrdinal + 1]|) < b.columnLimit[columnOrdinal + 1]
             || b.columnLimit[columnOrdinal + 1] == -1)))
  }

  /** The part of the controller's `AdvanceTask` after the board is
      resolved: the board finds the task by id (`SearchTask`, through the
      function it is proved equal to), then `AdvanceOnBoard`. */
  method AdvanceResolved(board: Board, email: string, columnOrdinal: int, taskId: int)
    returns (r: Outcome)
    requires board.Valid()
    modifies board`taskStateTracker, board.columns, board.AllTasks()`state
    ensures board.Valid()
    ensures AdvancedOn(board, old(board.AllTasks()), email, columnOrdinal, taskId, r)
  {
    var searched := board.Search(taskId);
    if searched.Failure? {
      return Fail(searched.error);
    }
    var task := searched.value;
    assert task in board.AllTasks();
    r := AdvanceOnBoard(board, task, email, columnOrdinal, taskId);
  }

  class BoardController {
    var users: set<string>
    var loggedIn: set<string>
    var myBoards: map<string, seq<Board>>
    var joinedBoards: map<string, seq<Board>>
    var boardsById: map<int, Board>
    var nextBoardId: int

    /** The objects of every board in the system. */
    ghost function Objects(): set<object>
      reads this
    {
      set k, o | k in boardsById && o in boardsById[k].Frame() :: o
    }

    /** The tasks of every board in the system. */
    ghost function TaskObjects(): set<object>
      reads this, set k | k in boardsById :: boardsById[k].columns
    {
      set k, c, t | k in boardsById && 0 <= c < boardsById[k].columns.Length && t in boardsById[k].columns[c] :: t
    }

    /** The board is the one stored under its id. */
    predicate InSystem(b: Board)
      reads this
    {
      Stored(boardsById, b)
    }

    /** The board stored under `k` satisfies its own invariant. */
    ghost predicate BoardOk(k: int)
      reads this, Objects()
      requires k in boardsById
    {
      boardsById[k].Valid()
    }

    /** The boards stored under `j` and `k` share no object. */
    ghost predicate Apart(j: int, k: int)
      reads this
      requires j in boardsById && k in boardsById
    {
      boardsById[j].Frame() !! boardsById[k].Frame()
    }

    /** The controller invariant: every board is valid and has its own
        objects, boards are keyed by their ids, every known user has board
        lists, and every list names boards of the system. */
    ghost predicate Valid()
      reads this, Objects()
    {
      && 0 <= nextBoardId
      && (forall k :: k in boardsById ==> boardsById[k].id == k && 0 <= k < nextBoardId)
      && (forall k {:trigger BoardOk(k)} :: k in boardsById ==> BoardOk(k))
      && (forall j, k {:trigger Apart(j, k)} :: j in boardsById && k in boardsById && j != k ==> Apart(j, k))
      && (forall u :: u in users ==> u in myBoards && u in joinedBoards)
      && Listed(boardsById, myBoards)
      && Listed(boardsById, joinedBoards)
    }

    /** A board of the system is valid, and its objects and its tasks are
        among those of the system. */
    lemma SystemBoard(b: Board)
      requires Valid() && InSystem(b)
      ensures b.Valid() && b.Frame() <= Objects()
      ensures forall c, t :: 0 <= c < 3 && t in b.columns[c] ==> t in TaskObjects()
      ensures forall k :: k in boardsById && k != b.id ==> boardsById[k].Frame() !! b.Frame()
    {
      assert BoardOk(b.id);
      forall k | k in boardsById && k != b.id ensures boardsById[k].Frame() !! b.Frame() {
        assert Apart(k, b.id);
      }
    }

    /** The boards a user owns or has joined are boards of the system. */
    lemma ListedBoards(email: string)
      requires Valid()
      ensures forall b :: b in MyBoards(email) + JoinedBoards(email) ==> InSystem(b) && b.Valid()
    {
      forall b | b in MyBoards(email) + JoinedBoards(email) ensures InSystem(b) && b.Valid() {
        assert b in MyBoards(email) || b in JoinedBoards(email);
        SystemBoard(b);
      }
    }

    /** `new BoardController(boardData)`, over a data layer that knows the
        given users and holds no board yet. */
    constructor (users: set<string>, loggedIn: set<string>)
      ensures Valid()
      ensures this.users == users && this.loggedIn == loggedIn
      ensures boardsById == map[] && nextBoardId == 0
      ensures forall u :: u in users ==> myBoards[u] == [] && joinedBoards[u] == []
    {
      this.users := users;
      this.loggedIn := loggedIn;
      myBoards := map u | u in users :: [];
      joinedBoards := map u | u in users :: [];
      boardsById := map[];
      nextBoardId := 0;
    }

    function MyBoards(email: string): (bs: seq<Board>)
      reads this
    {
      if email in myBoards then myBoards[email] else []
    }

    function JoinedBoards(email: string): (bs: seq<Board>)
      reads this
    {
      if email in joinedBoards then joinedBoards[email] else []
    }

    /** `ValidateUser`: an unknown user first, then a logged-out one. */
    function ValidateUser(email: string): (r: Outcome)
      reads this
      ensures email !in users ==> r == Fail(UnknownUser)
      ensures email in users && email !in loggedIn ==> r == Fail(NotLoggedIn)
      ensures r.Pass? <==> email in users && email in loggedIn
    {
      if email !in users then Fail(UnknownUser)
      else if email !in loggedIn then Fail(NotLoggedIn)
      else Pass
    }

    /** What `SearchBoard(email, name)` resolves to: the first owned board
        with that title, else the first joined one, else not found. */
    function BoardByTitle(email: string, name: string): (r: Result<Board>)
      reads this, Objects()
      requires Valid()
      ensures r.Success? ==> InSystem(r.value) && r.value.Valid()
      ensures ValidateUser(email).Fail? ==> r == Failure(ValidateUser(email).error)
      ensures r.Success? ==> r.value.title == name
      ensures r.Success? <==>
        ValidateUser(email).Pass? &&
        exists b :: b in MyBoards(email) + JoinedBoards(email) && b.title == name
      ensures r.Failure? && ValidateUser(email).Pass? ==> r.error == NotFound
      ensures r.Success? ==> r.value in MyBoards(email) || r.value in JoinedBoards(email)
      ensures ValidateUser(email).Pass? && (exists b :: b in MyBoards(email) && b.title == name) ==>
        r.Success? && r.value == MyBoards(email)[FirstWithTitle(MyBoards(email), name)]
      ensures (&& ValidateUser(email).Pass?
               && (forall b :: b in MyBoards(email) ==> b.title != name)
               && (exists b :: b in JoinedBoards(email) && b.title == name)) ==>
        r.Success? && r.value == JoinedBoards(email)[FirstWithTitle(JoinedBoards(email), name)]
    {
      match ValidateUser(email)
      case Fail(e) => Failure(e)
      case Pass =>
        var mine, joined := MyBoards(email), JoinedBoards(email);
        var k := FirstWithTitle(mine, name);
        if k >= 0 then
          assert mine[k] in myBoards[email];
          SystemBoard(mine[k]);
          Success(mine[k])
        else
          var j := FirstWithTitle(joined, name);
          if j >= 0 then
            assert joined[j] in joinedBoards[email];
            SystemBoard(joined[j]);
            Success(joined[j])
          else
            assert forall b :: b in mine + joined ==> b in mine || b in joined;
            Failure(NotFound)
    }

    /** `SearchBoard(email, name)`. */
    method SearchBoard(email: string, name: string) returns (r: Result<Board>)
      requires Valid()
      ensures Valid()
      ensures r == BoardByTitle(email, name)
    {
      var v := ValidateUser(email);
      if v.Fail? {
        return Failure(v.error);
      }
      var mine := MyBoards(email);
      var k := FindBoard(mine, name);
      if k >= 0 {
        r := Success(mine[k]);
      } else {
        var joined := JoinedBoards(email);
        var j := FindBoard(joined, name);
        r := if j >= 0 then Success(joined[j]) else Failure(NotFound);
      }
      StillValid();
    }

    /** `SearchBoard(email, boardId)`: after validating the caller, the board
        with that id, or not found. */
    function SearchBoardById(email: string, boardId: int): (r: Result<Board>)
      reads this, Objects()
      requires Valid()
      ensures ValidateUser(email).Fail? ==> r == Failure(ValidateUser(email).error)
      ensures r.Success? <==> ValidateUser(email).Pass? && boardId in boardsById
      ensures r.Failure? && ValidateUser(email).Pass? ==> r.error == NotFound
      ensures r.Success? ==> r.value.id == boardId && r.value.Valid()
    {
      match ValidateUser(email)
      case Fail(e) => Failure(e)
      case Pass =>
        if boardId in boardsById then
          SystemBoard(boardsById[boardId]);
          Success(boardsById[boardId])
        else Failure(NotFound)
    }

    /** `GetBoards`: the owned boards followed by the joined boards. */
    method GetBoards(email: string) returns (r: Result<seq<Board>>)
      ensures ValidateUser(email).Fail? ==> r == Failure(ValidateUser(email).error)
      ensures ValidateUser(email).Pass? ==> r == Success(MyBoards(email) + JoinedBoards(email))
    {
      var v := ValidateUser(email);
      if v.Fail? {
        return Failure(v.error);
      }
      var mine, joined := MyBoards(email), JoinedBoards(email);
      var output: seq<Board> := [];
      for i := 0 to |mine|
        invariant output == mine[..i]
      {
        output := output + [mine[i]];
      }
      assert mine[..|mine|] == mine;
      for i := 0 to |joined|
        invariant output == mine + joined[..i]
      {
        output := output + [joined[i]];
      }
      assert joined[..|joined|] == joined;
      return Success(output);
    }

    /** `GetBoardsId`: the ids of `GetBoards`, in the same order. */
    method GetBoardsId(email: string) returns (r: Result<seq<int>>)
      ensures ValidateUser(email).Fail? ==> r == Failure(ValidateUser(email).error)
      ensures ValidateUser(email).Pass? ==> r == Success(BoardIds(MyBoards(email) + JoinedBoards(email)))
    {
      var v := ValidateUser(email);
      if v.Fail? {
        return Failure(v.error);
      }
      var boards := GetBoards(email);
      var bs := boards.value;
      var output: seq<int> := [];
      for i := 0 to |bs|
        invariant output == BoardIds(bs[..i])
      {
        output := output + [bs[i].id];
      }
      assert bs[..|bs|] == bs;
      return Success(output);
    }

    /** What `GetAllTasksByState` returns: the tasks of that column of every
        board of `GetBoards`, board after board. */
    function AllTasksByState(email: string, columnOrdinal: int): (r: Result<seq<Task>>)
      reads this, set b | b in MyBoards(email) + JoinedBoards(email) :: b.columns
      ensures ValidateUser(email).Fail? ==> r == Failure(ValidateUser(email).error)
      ensures ValidateUser(email).Pass? && !IsOrdinal(columnOrdinal) ==> r == Failure(OutOfRange)
      ensures r.Success? <==> ValidateUser(email).Pass? && IsOrdinal(columnOrdinal)
    {
      match ValidateUser(email)
      case Fail(e) => Failure(e)
      case Pass =>
        match ValidateColumnOrdinal(columnOrdinal)
        case Fail(e) => Failure(e)
        case Pass => Success(TasksIn(MyBoards(email) + JoinedBoards(email), columnOrdinal))
    }

    /** On a valid controller the collected tasks are exactly the tasks of
        that column of the user's boards, each in that state when its board's
        tasks agree with their columns, and none at all when the user has no
        board. */
    lemma AllTasksByStateContents(email: string, columnOrdinal: TaskState)
      requires Valid() && ValidateUser(email).Pass?
      ensures AllTasksByState(email, columnOrdinal).Success?
      ensures forall b :: b in MyBoards(email) + JoinedBoards(email) ==> b.Valid() && b.columns.Length == 3
      ensures forall t :: t in AllTasksByState(email, columnOrdinal).value <==>
        exists b :: b in MyBoards(email) + JoinedBoards(email) && t in b.columns[columnOrdinal]
      ensures (forall b :: b in MyBoards(email) + JoinedBoards(email) ==> b.StatesAgree()) ==>
        forall t :: t in AllTasksByState(email, columnOrdinal).value ==> t.state == columnOrdinal
      ensures MyBoards(email) + JoinedBoards(email) == [] ==> AllTasksByState(email, columnOrdinal).value == []
      ensures (forall b :: b in MyBoards(email) + JoinedBoards(email) ==> b.columns[columnOrdinal] == []) ==>
        AllTasksByState(email, columnOrdinal).value == []
    {
      var bs := MyBoards(email) + JoinedBoards(email);
      ListedBoards(email);
      if forall b :: b in bs ==> b.columns[columnOrdinal] == [] {
        TasksInEmpty(bs, columnOrdinal);
      }
      forall t ensures t in TasksIn(bs, columnOrdinal) <==>
        exists b :: b in bs && t in b.columns[columnOrdinal]
      {
        TasksInMembership(bs, columnOrdinal, t);
      }
      if forall b :: b in bs ==> b.StatesAgree() {
        TasksInStates(bs, columnOrdinal);
      }
    }

    /** `GetAllTasksByState`: validates the caller and the ordinal, then
        collects the column of every board of `GetBoards`. */
    method GetAllTasksByState(email: string, columnOrdinal: int) returns (r: Result<seq<Task>>)
      requires Valid()
      ensures Valid()
      ensures r == AllTasksByState(email, columnOrdinal)
    {
      var v := ValidateUser(email);
      if v.Fail? {
        return Failure(v.error);
      }
      var o := ValidateColumnOrdinal(columnOrdinal);
      if o.Fail? {
        return Failure(o.error);
      }
      var boards := GetBoards(email);
      var bs := boards.value;
      StillValid();
      ListedBoards(email);
      var tasks := CollectColumns(bs, columnOrdinal);
      StillValid();
      return Success(tasks);
    }

    /** Every board other than `b` kept its objects, so it is still valid. */
    twostate lemma OthersStayValid(b: Board)
      requires old(Valid()) && old(InSystem(b))
      requires unchanged(this)
      requires forall k :: k in boardsById && k != b.id ==> unchanged(boardsById[k].Frame())
      requires b.Valid()
      ensures Valid()
    {
      forall k | k in boardsById ensures BoardOk(k) {
        if k != b.id {
          assert old(BoardOk(k));
        }
      }
      forall j, k | j in boardsById && k in boardsById && j != k ensures Apart(j, k) {
        assert old(Apart(j, k));
      }
    }

    /** Boards still stored under their old keys whose objects did not
        change keep their invariant and stay apart. */
    twostate lemma BoardsKept()
      requires old(Valid())
      requires forall k :: k in boardsById ==>
        k in old(boardsById) && boardsById[k] == old(boardsById[k]) && unchanged(boardsById[k].Frame())
      ensures forall k :: k in boardsById ==> BoardOk(k)
      ensures forall j, k :: j in boardsById && k in boardsById && j != k ==> Apart(j, k)
    {
      forall k | k in boardsById ensures BoardOk(k) {
        assert old(BoardOk(k));
      }
      forall j, k | j in boardsById && k in boardsById && j != k ensures Apart(j, k) {
        assert old(Apart(j, k));
      }
    }

    /** Nothing of the controller or of its boards changed, so it is still
        valid. */
    twostate lemma StillValid()
      requires old(Valid()) && unchanged(this)
      requires forall k :: k in boardsById ==> unchanged(boardsById[k].Frame())
      ensures Valid()
    {
      BoardsKept();
    }

    /** `AddBoard`: validates the caller, rejects an empty name, then the
        data layer stores a new board owned by the caller under the next id,
        unless the caller already owns a board with that title. */
    method AddBoard(email: string, name: string) returns (r: Outcome)
      requires Valid()
      modifies this
      ensures Valid()
      ensures old(ValidateUser(email)).Fail? ==> r == old(ValidateUser(email))
      ensures old(ValidateUser(email)).Pass? && name == [] ==> r == Fail(InvalidArgument)
      ensures (&& old(ValidateUser(email)).Pass? && name != []
               && exists b :: b in old(MyBoards(email)) && b.title == name) ==>
        r == Fail(AlreadyExists)
      ensures r.Pass? <==>
        && old(ValidateUser(email)).Pass? && name != []
        && forall b :: b in old(MyBoards(email)) ==> b.title != name
      ensures users == old(users) && loggedIn == old(loggedIn)
      ensures r.Fail? ==>
        myBoards == old(myBoards) && joinedBoards == old(joinedBoards) && boardsById == old(boardsById)
      ensures nextBoardId == if r.Pass? then old(nextBoardId) + 1 else old(nextBoardId)
      ensures r.Pass? ==> old(nextBoardId) in boardsById
      ensures r.Pass? ==>
        var b := boardsById[old(nextBoardId)];
        && fresh(b) && b.title == name && b.owner == email && b.joined == []
        && boardsById == old(boardsById)[old(nextBoardId) := b]
        && myBoards == old(myBoards)[email := old(MyBoards(email)) + [b]]
        && joinedBoards == old(joinedBoards)
      ensures r.Pass? ==> BoardByTitle(email, name) == Success(boardsById[old(nextBoardId)])
    {
      var v := ValidateUser(email);
      if v.Fail? {
        return v;
      }
      if |name| == 0 {
        return Fail(InvalidArgument);
      }
      ghost var mine := MyBoards(email);
      r := AddNewBoard(email, name);
      if r.Pass? {
        var b := boardsById[old(nextBoardId)];
        assert MyBoards(email) == mine + [b];
        assert MyBoards(email)[|mine|] == b;
        assert FirstWithTitle(MyBoards(email), name) == |mine|;
      }
    }

    /** The data layer's `AddNewBoard`, by its effect on the board lists: a
        title the user already owns is refused as already existing;
        otherwise a fresh board is stored under the next id. */
    method AddNewBoard(email: string, name: string) returns (r: Outcome)
      requires Valid() && email in users
      modifies this
      ensures Valid()
      ensures users == old(users) && loggedIn == old(loggedIn)
      ensures r.Pass? <==> forall b :: b in old(MyBoards(email)) ==> b.title != name
      ensures r.Fail? ==>
        && r.error == AlreadyExists && nextBoardId == old(nextBoardId)
        && myBoards == old(myBoards) && joinedBoards == old(joinedBoards) && boardsById == old(boardsById)
      ensures r.Pass? ==> nextBoardId == old(nextBoardId) + 1 && old(nextBoardId) in boardsById
      ensures r.Pass? ==>
        var b := boardsById[old(nextBoardId)];
        && fresh(b) && b.title == name && b.owner == email && b.joined == []
        && boardsById == old(boardsById)[old(nextBoardId) := b]
        && myBoards == old(myBoards)[email := old(MyBoards(email)) + [b]]
        && joinedBoards == old(joinedBoards)
    {
      var k := FirstWithTitle(myBoards[email], name);
      if k != -1 {
        return Fail(AlreadyExists);
      }
      var b := new Board(name, nextBoardId, email);
      forall k | k in boardsById ensures boardsById[k].Frame() !! b.Frame() {
        assert old(allocated(boardsById[k].columns)) && old(allocated(boardsById[k].columnLimit));
      }
      StillValid();
      StoreBoard(email, b);
      r := Pass;
    }

    /** Stores a valid board that shares no object with the stored boards
        under the next id, at the end of its owner's list. */
    method StoreBoard(email: string, b: Board)
      requires Valid() && email in users && b.Valid()
      requires b.id == nextBoardId
      requires forall k :: k in boardsById ==> boardsById[k].Frame() !! b.Frame()
      modifies this
      ensures Valid()
      ensures users == old(users) && loggedIn == old(loggedIn) && nextBoardId == old(nextBoardId) + 1
      ensures boardsById == old(boardsById)[b.id := b]
      ensures myBoards == old(myBoards)[email := old(MyBoards(email)) + [b]]
      ensures joinedBoards == old(joinedBoards)
    {
      ghost var before := boardsById;
      ListedGrow(boardsById, myBoards, b);
      ListedGrow(boardsById, joinedBoards, b);
      ListedUpdate(boardsById[b.id := b], myBoards, email, myBoards[email] + [b]);
      boardsById := boardsById[nextBoardId := b];
      myBoards := myBoards[email := myBoards[email] + [b]];
      nextBoardId := nextBoardId + 1;
      forall k | k in boardsById ensures boardsById[k].id == k && 0 <= k < nextBoardId {
        if k != b.id {
          assert boardsById[k] == before[k];
        }
      }
      forall k | k in boardsById ensures BoardOk(k) {
        if k != b.id {
          assert old(BoardOk(k));
        }
      }
      forall j, k | j in boardsById && k in boardsById && j != k ensures Apart(j, k) {
        if j != b.id && k != b.id {
          assert old(Apart(j, k));
        }
      }
    }

    /** `RemoveBoard`: validates the caller, resolves the board by title and
        requires the caller to own it; then the board leaves the system and
        every board list. */
    method RemoveBoard(email: string, name: string) returns (r: Outcome)
      requires Valid()
      modifies this
      ensures Valid()
      ensures old(BoardByTitle(email, name)).Failure? ==> r == Fail(old(BoardByTitle(email, name)).error)
      ensures old(BoardByTitle(email, name)).Success? ==>
        var b := old(BoardByTitle(email, name)).value;
        && (r.Pass? <==> b.owner == email)
        && (r.Fail? ==> r.error == Permission)
      ensures users == old(users) && loggedIn == old(loggedIn) && nextBoardId == old(nextBoardId)
      ensures r.Fail? ==>
        myBoards == old(myBoards) && joinedBoards == old(joinedBoards) && boardsById == old(boardsById)
      ensures r.Pass? ==>
        var b := old(BoardByTitle(email, name)).value;
        && !InSystem(b)
        && boardsById == old(boardsById) - {b.id}
        && (forall u :: u in myBoards <==> u in old(myBoards))
        && (forall u :: u in myBoards ==> myBoards[u] == Drop(old(myBoards[u]), b))
        && (forall u :: u in joinedBoards <==> u in old(joinedBoards))
        && (forall u :: u in joinedBoards ==> joinedBoards[u] == Drop(old(joinedBoards[u]), b))
    {
      var v := ValidateUser(email);
      if v.Fail? {
        return v;
      }
      var found := BoardByTitle(email, name);
      if found.Failure? {
        return Fail(found.error);
      }
      var board := found.value;
      if board.owner != email {
        return Fail(Permission);
      }
      SystemBoard(board);
      NukeBoard(board);
      r := Pass;
    }

    /** The data layer's `NukeBoard`, by its effect on the board lists. */
    method NukeBoard(board: Board)
      requires Valid() && InSystem(board)
      modifies this
      ensures Valid()
      ensures users == old(users) && loggedIn == old(loggedIn) && nextBoardId == old(nextBoardId)
      ensures !InSystem(board)
      ensures boardsById == old(boardsById) - {board.id}
      ensures forall u :: u in myBoards <==> u in old(myBoards)
      ensures forall u :: u in myBoards ==> myBoards[u] == Drop(old(myBoards[u]), board)
      ensures forall u :: u in joinedBoards <==> u in old(joinedBoards)
      ensures forall u :: u in joinedBoards ==> joinedBoards[u] == Drop(old(joinedBoards[u]), board)
    {
      ListedDrop(boardsById, myBoards, board);
      ListedDrop(boardsById, joinedBoards, board);
      boardsById := boardsById - {board.id};
      myBoards := map u | u in myBoards :: Drop(myBoards[u], board);
      joinedBoards := map u | u in joinedBoards :: Drop(joinedBoards[u], board);
      BoardsKept();
    }

    /** `JoinBoard`: validates the caller, adds the joined-board pointer
        (refused when the user's joined list already holds the board) and
        only then asks the board to admit the caller; a board that refuses
        leaves the pointer in place, as `BoardController.JoinBoard` does. Of the boards only
        the `joined` list of the one with that id can change. */
    method JoinBoard(email: string, boardId: int) returns (r: Outcome)
      requires Valid()
      modifies this, Objects()
      ensures Valid()
      ensures users == old(users) && loggedIn == old(loggedIn) && boardsById == old(boardsById)
      ensures myBoards == old(myBoards) && nextBoardId == old(nextBoardId)
      ensures old(ValidateUser(email)).Fail? ==> r == old(ValidateUser(email))
      ensures old(ValidateUser(email)).Pass? && boardId !in old(boardsById) ==> r == Fail(NotFound)
      ensures (&& old(ValidateUser(email)).Pass? && boardId in old(boardsById)
               && old(boardsById[boardId]) in old(JoinedBoards(email))) ==>
        r == Fail(AlreadyExists)
      ensures !(&& old(ValidateUser(email)).Pass? && boardId in old(boardsById)
                && old(boardsById[boardId]) !in old(JoinedBoards(email))) ==>
        joinedBoards == old(joinedBoards) && unchanged(Objects())
      ensures (&& old(ValidateUser(email)).Pass? && boardId in old(boardsById)
               && old(boardsById[boardId]) !in old(JoinedBoards(email))) ==>
        var b := old(boardsById[boardId]);
        && joinedBoards == old(joinedBoards)[email := old(JoinedBoards(email)) + [b]]
        && (forall k :: k in boardsById && k != b.id ==> unchanged(boardsById[k].Frame()))
        && unchanged(b.columns, b.columnLimit)
        && b.owner == old(b.owner) && b.taskStateTracker == old(b.taskStateTracker)
        && b.taskIDCounter == old(b.taskIDCounter)
        && (email == old(b.owner) ==> r == Fail(Permission))
        && (email != old(b.owner) && email in old(b.joined) ==> r == Fail(InvalidArgument))
        && (r.Pass? <==> email != old(b.owner) && email !in old(b.joined))
        && b.joined == if r.Pass? then old(b.joined) + [email] else old(b.joined)
    {
      var v := ValidateUser(email);
      if v.Fail? {
        return v;
      }
      var added := AddPointerToJoinedBoard(email, boardId);
      if added.Fail? {
        return added;
      }
      var found := SearchBoardById(email, boardId);
      var board := found.value;
      assert board in old(Objects()) by {
        assert board in old(boardsById[boardId].Frame());
      }
      r := Admit(email, board);
    }

    /** The board's side of `JoinBoard`, after the pointer was added. */
    method Admit(email: string, board: Board) returns (r: Outcome)
      requires Valid() && InSystem(board)
      modifies board`joined
      ensures Valid()
      ensures forall k :: k in boardsById && k != board.id ==> unchanged(boardsById[k].Frame())
      ensures email == old(board.owner) ==> r == Fail(Permission)
      ensures email != old(board.owner) && email in old(board.joined) ==> r == Fail(InvalidArgument)
      ensures r.Pass? <==> email != old(board.owner) && email !in old(board.joined)
      ensures board.joined == if r.Pass? then old(board.joined) + [email] else old(board.joined)
    {
      SystemBoard(board);
      r := board.JoinBoard(email);
      OthersStayValid(board);
    }

    /** The data layer's `AddPointerToJoinedBoard`, by its effect: an
        unknown id is not found, and a board already on the user's joined
        list is refused as already joined; otherwise the board is appended
        to that list. */
    method AddPointerToJoinedBoard(email: string, boardId: int) returns (r: Outcome)
      requires Valid() && email in users
      modifies this
      ensures Valid()
      ensures users == old(users) && loggedIn == old(loggedIn) && boardsById == old(boardsById)
      ensures myBoards == old(myBoards) && nextBoardId == old(nextBoardId)
      ensures boardId !in boardsById ==> r == Fail(NotFound)
      ensures boardId in boardsById && boardsById[boardId] in old(JoinedBoards(email)) ==> r == Fail(AlreadyExists)
      ensures r.Pass? <==> boardId in boardsById && boardsById[boardId] !in old(JoinedBoards(email))
      ensures r.Fail? ==> joinedBoards == old(joinedBoards)
      ensures r.Pass? ==>
        joinedBoards == old(joinedBoards)[email := old(JoinedBoards(email)) + [boardsById[boardId]]]
    {
      if boardId !in boardsById {
        return Fail(NotFound);
      }
      if boardsById[boardId] in joinedBoards[email] {
        return Fail(AlreadyExists);
      }
      ListedUpdate(boardsById, joinedBoards, email, joinedBoards[email] + [boardsById[boardId]]);
      joinedBoards := joinedBoards[email := joinedBoards[email] + [boardsById[boardId]]];
      BoardsKept();
      r := Pass;
    }

    /** `LeaveBoard`: validates the caller, resolves the board by id, refuses
        the owner, removes the joined-board pointer and only then asks the
        board to let the caller go. Of the boards only the `joined` list of
        the one with that id and the assignees of its backlog and in-progress
        tasks can change. */
    method LeaveBoard(email: string, boardId: int) returns (r: Outcome)
      requires Valid()
      modifies this, Objects(), TaskObjects()
      ensures Valid()
      ensures users == old(users) && loggedIn == old(loggedIn) && boardsById == old(boardsById)
      ensures myBoards == old(myBoards) && nextBoardId == old(nextBoardId)
      ensures old(ValidateUser(email)).Fail? ==> r == old(ValidateUser(email))
      ensures old(ValidateUser(email)).Pass? && boardId !in old(boardsById) ==> r == Fail(NotFound)
      ensures (|| !(old(ValidateUser(email)).Pass? && boardId in old(boardsById))
               || email == old(boardsById[boardId].owner)) ==>
        && joinedBoards == old(joinedBoards)
        && unchanged(Objects()) && unchanged(old(TaskObjects()))
      ensures old(ValidateUser(email)).Pass? && boardId in old(boardsById) ==>
        var b := old(boardsById[boardId]);
        && old(BoardOk(boardId))
        && (email == old(b.owner) ==> r == Fail(AlreadyExists))
        && (email != old(b.owner) ==>
             && joinedBoards == old(joinedBoards)[email := RemoveFirst(old(JoinedBoards(email)), b)]
             && b.Valid()
             && (forall k :: k in boardsById && k != b.id ==> unchanged(boardsById[k].Frame()))
             && (forall t :: t in old(TaskObjects()) && t !in old(b.AllTasks()) ==> unchanged(t))
             && LeftBy(b, old(b.AllTasks()), email, r))
    {
      var v := ValidateUser(email);
      if v.Fail? {
        return v;
      }
      var found := SearchBoardById(email, boardId);
      if found.Failure? {
        return Fail(found.error);
      }
      var board := found.value;
      if board.owner == email {
        return Fail(AlreadyExists);
      }
      SystemBoard(board);
      r := Depart(email, board);
    }

    /** The part of `LeaveBoard` after the checks: the joined-board pointer
        goes first, then the board lets the caller go. */
    method Depart(email: string, board: Board) returns (r: Outcome)
      requires Valid() && InSystem(board) && board.Valid() && email in users && board.owner != email
      modifies this, board`joined, board.ColumnTasks(Backlog)`assignee, board.ColumnTasks(InProgress)`assignee
      ensures Valid()
      ensures users == old(users) && loggedIn == old(loggedIn) && boardsById == old(boardsById)
      ensures myBoards == old(myBoards) && nextBoardId == old(nextBoardId)
      ensures joinedBoards == old(joinedBoards)[email := RemoveFirst(old(JoinedBoards(email)), board)]
      ensures
        var b := board;
        && (forall k :: k in boardsById && k != b.id ==> unchanged(boardsById[k].Frame()))
        && b.Valid()
        && (forall t :: t in old(TaskObjects()) && t !in old(b.AllTasks()) ==> unchanged(t))
        && unchanged(b.columns, b.columnLimit)
        && b.owner == old(b.owner) && b.taskStateTracker == old(b.taskStateTracker)
        && b.taskIDCounter == old(b.taskIDCounter)
        && (r.Pass? <==> email in old(b.joined))
        && (r.Fail? ==> r.error == InvalidArgument && unchanged(b))
        && b.joined == (if r.Pass? then RemoveFirst(old(b.joined), email) else old(b.joined))
        && (forall c, t :: 0 <= c < 2 && t in b.columns[c] ==>
             t.assignee == if r.Pass? then Reassigned(old(t.assignee), email) else old(t.assignee))
        && (forall t :: t in b.columns[Done] ==> t.assignee == old(t.assignee))
        && (forall t :: t in old(b.AllTasks()) ==>
             && t.state == old(t.state) && t.title == old(t.title)
             && t.description == old(t.description) && t.dueDate == old(t.dueDate))
    {
      RemovePointerToJoinedBoard(email, board);
      r := DepartInSystem(email, board);
    }

    /** The board's side of `LeaveBoard`, after the pointer was removed. */
    method DepartInSystem(email: string, board: Board) returns (r: Outcome)
      requires Valid() && InSystem(board) && board.Valid()
      modifies board`joined, board.ColumnTasks(Backlog)`assignee, board.ColumnTasks(InProgress)`assignee
      ensures Valid()
      ensures
        var b := board;
        && (forall k :: k in boardsById && k != b.id ==> unchanged(boardsById[k].Frame()))
        && b.Valid()
        && (forall t :: t in old(TaskObjects()) && t !in old(b.AllTasks()) ==> unchanged(t))
        && unchanged(b.columns, b.columnLimit)
        && b.owner == old(b.owner) && b.taskStateTracker == old(b.taskStateTracker)
        && b.taskIDCounter == old(b.taskIDCounter)
        && (r.Pass? <==> email in old(b.joined))
        && (r.Fail? ==> r.error == InvalidArgument && unchanged(b))
        && b.joined == (if r.Pass? then RemoveFirst(old(b.joined), email) else old(b.joined))
        && (forall c, t :: 0 <= c < 2 && t in b.columns[c] ==>
             t.assignee == if r.Pass? then Reassigned(old(t.assignee), email) else old(t.assignee))
        && (forall t :: t in b.columns[Done] ==> t.assignee == old(t.assignee))
        && (forall t :: t in old(b.AllTasks()) ==>
             && t.state == old(t.state) && t.title == old(t.title)
             && t.description == old(t.description) && t.dueDate == old(t.dueDate))
    {
      SystemBoard(board);
      r := DepartApart(email, board);
      OthersStayValid(board);
    }

    /** The board's side of `LeaveBoard` on a board that shares no object
        with the other boards of the system. */
    method DepartApart(email: string, board: Board) returns (r: Outcome)
      requires board.Valid()
      requires forall k :: k in boardsById && k != board.id ==> boardsById[k].Frame() !! board.Frame()
      modifies board`joined, board.ColumnTasks(Backlog)`assignee, board.ColumnTasks(InProgress)`assignee
      ensures
        var b := board;
        && (forall k :: k in boardsById && k != b.id ==> unchanged(boardsById[k].Frame()))
        && b.Valid()
        && (forall t :: t in old(TaskObjects()) && t !in old(b.AllTasks()) ==> unchanged(t))
        && unchanged(b.columns, b.columnLimit)
        && b.owner == old(b.owner) && b.taskStateTracker == old(b.taskStateTracker)
        && b.taskIDCounter == old(b.taskIDCounter)
        && (r.Pass? <==> email in old(b.joined))
        && (r.Fail? ==> r.error == InvalidArgument && unchanged(b))
        && b.joined == (if r.Pass? then RemoveFirst(old(b.joined), email) else old(b.joined))
        && (forall c, t :: 0 <= c < 2 && t in b.columns[c] ==>
             t.assignee == if r.Pass? then Reassigned(old(t.assignee), email) else old(t.assignee))
        && (forall t :: t in b.columns[Done] ==> t.assignee == old(t.assignee))
        && (forall t :: t in old(b.AllTasks()) ==>
             && t.state == old(t.state) && t.title == old(t.title)
             && t.description == old(t.description) && t.dueDate == old(t.dueDate))
    {
      r := board.LeaveBoard(email);
    }

    /** The data layer's `RemovePointerToJoinedBoard`, by its effect. */
    method RemovePointerToJoinedBoard(email: string, board: Board)
      requires Valid() && email in users && InSystem(board)
      modifies this
      ensures Valid()
      ensures users == old(users) && loggedIn == old(loggedIn) && boardsById == old(boardsById)
      ensures myBoards == old(myBoards) && nextBoardId == old(nextBoardId)
      ensures joinedBoards == old(joinedBoards)[email := RemoveFirst(old(JoinedBoards(email)), board)]
      ensures Objects() == old(Objects()) && TaskObjects() == old(TaskObjects())
    {
      ListedUpdate(boardsById, joinedBoards, email, RemoveFirst(joinedBoards[email], board));
      joinedBoards := joinedBoards[email := RemoveFirst(joinedBoards[email], board)];
      BoardsKept();
    }

    /** `ChangeOwner`: resolves the board by the caller's title, refuses a
        new owner who already owns it and a caller who does not, moves the
        ownership pointers and only then asks the board to change owner. A
        new owner who has not joined the board is refused by the board after
        the pointers have moved, as `BoardController.ChangeOwner` does. Of the boards only the
        owner and the `joined` list of the resolved one can change. */
    method ChangeOwner(currentOwnerEmail: string, newOwnerEmail: string, boardName: string)
      returns (r: Outcome)
      requires Valid()
      modifies this, Objects()
      ensures Valid()
      ensures users == old(users) && loggedIn == old(loggedIn) && boardsById == old(boardsById)
      ensures nextBoardId == old(nextBoardId)
      ensures old(BoardByTitle(currentOwnerEmail, boardName)).Failure? ==>
        && r == Fail(old(BoardByTitle(currentOwnerEmail, boardName)).error)
        && myBoards == old(myBoards) && joinedBoards == old(joinedBoards) && unchanged(Objects())
      ensures old(BoardByTitle(currentOwnerEmail, boardName)).Success? ==>
        var b := old(BoardByTitle(currentOwnerEmail, boardName)).value;
        && (old(b.owner) == newOwnerEmail ==> r == Fail(AlreadyExists))
        && (old(b.owner) != newOwnerEmail && old(b.owner) != currentOwnerEmail ==> r == Fail(Permission))
        && ((old(b.owner) == newOwnerEmail || old(b.owner) != currentOwnerEmail) ==>
             myBoards == old(myBoards) && joinedBoards == old(joinedBoards) && unchanged(Objects()))
        && (r.Pass? <==>
             old(b.owner) == currentOwnerEmail != newOwnerEmail
             && newOwnerEmail in old(myBoards) && newOwnerEmail in old(joinedBoards)
             && newOwnerEmail in old(b.joined))
        && (r.Pass? ==> b.owner == newOwnerEmail && currentOwnerEmail in b.joined && newOwnerEmail !in b.joined)
        && (old(b.owner) == currentOwnerEmail != newOwnerEmail ==>
             && (forall k :: k in boardsById && k != b.id ==> unchanged(boardsById[k].Frame()))
             && unchanged(b.columns, b.columnLimit)
             && b.taskStateTracker == old(b.taskStateTracker) && b.taskIDCounter == old(b.taskIDCounter)
             && (!(newOwnerEmail in old(myBoards) && newOwnerEmail in old(joinedBoards)) ==>
                  && r == Fail(NotFound) && unchanged(b)
                  && myBoards == old(myBoards) && joinedBoards == old(joinedBoards))
             && (newOwnerEmail in old(myBoards) && newOwnerEmail in old(joinedBoards) ==>
                  && myBoards == old(myBoards)[currentOwnerEmail := RemoveFirst(old(MyBoards(currentOwnerEmail)), b)]
                                              [newOwnerEmail := old(MyBoards(newOwnerEmail)) + [b]]
                  && joinedBoards == old(joinedBoards)[newOwnerEmail := RemoveFirst(old(JoinedBoards(newOwnerEmail)), b)]
                                                      [currentOwnerEmail := old(JoinedBoards(currentOwnerEmail)) + [b]])
             && (r.Pass? <==>
                  newOwnerEmail in old(myBoards) && newOwnerEmail in old(joinedBoards) && newOwnerEmail in old(b.joined))
             && (newOwnerEmail in old(myBoards) && newOwnerEmail in old(joinedBoards) && newOwnerEmail !in old(b.joined) ==>
                  r == Fail(InvalidArgument) && unchanged(b))
             && (r.Pass? ==>
                  && b.owner == newOwnerEmail
                  && b.joined == RemoveFirst(old(b.joined) + [currentOwnerEmail], newOwnerEmail)
                  && (forall u :: u in b.joined <==> (u in old(b.joined) || u == currentOwnerEmail) && u != newOwnerEmail))
)
      ensures r.Fail? && myBoards != old(myBoards) ==>
        && old(BoardByTitle(currentOwnerEmail, boardName)).Success?
        && r == Fail(InvalidArgument)
        && newOwnerEmail !in old(BoardByTitle(currentOwnerEmail, boardName).value.joined)
    {
      var found := BoardByTitle(currentOwnerEmail, boardName);
      if found.Failure? {
        return Fail(found.error);
      }
      var board := found.value;
      if board.owner == newOwnerEmail {
        return Fail(AlreadyExists);
      }
      if board.owner != currentOwnerEmail {
        return Fail(Permission);
      }
      SystemBoard(board);
      r := HandOver(currentOwnerEmail, newOwnerEmail, board);
    }

    /** The part of `ChangeOwner` after the checks: the ownership pointers
        move first, then the board changes owner. */
    method HandOver(currentOwnerEmail: string, newOwnerEmail: string, board: Board)
      returns (r: Outcome)
      requires Valid() && InSystem(board) && board.Valid() && currentOwnerEmail in users
      requires board.owner == currentOwnerEmail != newOwnerEmail
      modifies this, board`owner, board`joined
      ensures Valid()
      ensures users == old(users) && loggedIn == old(loggedIn) && boardsById == old(boardsById)
      ensures nextBoardId == old(nextBoardId)
      ensures r.Pass? ==>
        board.owner == newOwnerEmail && currentOwnerEmail in board.joined && newOwnerEmail !in board.joined
      ensures r.Fail? && myBoards != old(myBoards) ==>
        r == Fail(InvalidArgument) && newOwnerEmail !in old(board.joined)
      ensures
        && (forall k :: k in boardsById && k != board.id ==> unchanged(boardsById[k].Frame()))
        && unchanged(board.columns, board.columnLimit)
        && board.taskStateTracker == old(board.taskStateTracker) && board.taskIDCounter == old(board.taskIDCounter)
        && (!(newOwnerEmail in old(myBoards) && newOwnerEmail in old(joinedBoards)) ==>
             && r == Fail(NotFound) && unchanged(board)
             && myBoards == old(myBoards) && joinedBoards == old(joinedBoards))
        && (newOwnerEmail in old(myBoards) && newOwnerEmail in old(joinedBoards) ==>
             && myBoards == old(myBoards)[currentOwnerEmail := RemoveFirst(old(MyBoards(currentOwnerEmail)), board)]
                                         [newOwnerEmail := old(MyBoards(newOwnerEmail)) + [board]]
             && joinedBoards == old(joinedBoards)[newOwnerEmail := RemoveFirst(old(JoinedBoards(newOwnerEmail)), board)]
                                                 [currentOwnerEmail := old(JoinedBoards(currentOwnerEmail)) + [board]])
        && (r.Pass? <==>
             newOwnerEmail in old(myBoards) && newOwnerEmail in old(joinedBoards) && newOwnerEmail in old(board.joined))
        && (newOwnerEmail in old(myBoards) && newOwnerEmail in old(joinedBoards) && newOwnerEmail !in old(board.joined) ==>
             r == Fail(InvalidArgument) && unchanged(board))
        && (r.Pass? ==>
             && board.owner == newOwnerEmail
             && board.joined == RemoveFirst(old(board.joined) + [currentOwnerEmail], newOwnerEmail)
             && (forall u :: u in board.joined <==> (u in old(board.joined) || u == currentOwnerEmail) && u != newOwnerEmail))
    {
      var moved := ChangeOwnerPointer(currentOwnerEmail, newOwnerEmail, board);
      if moved.Fail? {
        return moved;
      }
      r := HandOverInSystem(currentOwnerEmail, newOwnerEmail, board);
    }

    /** The board's side of `ChangeOwner`, after the pointers moved. */
    method HandOverInSystem(currentOwnerEmail: string, newOwnerEmail: string, board: Board)
      returns (r: Outcome)
      requires Valid() && InSystem(board) && board.Valid() && board.owner == currentOwnerEmail
      modifies board`owner, board`joined
      ensures Valid()
      ensures forall k :: k in boardsById && k != board.id ==> unchanged(boardsById[k].Frame())
      ensures r.Pass? <==> newOwnerEmail in old(board.joined)
      ensures r.Fail? ==> r == Fail(InvalidArgument) && unchanged(board)
      ensures r.Pass? ==>
        && board.owner == newOwnerEmail
        && board.joined == RemoveFirst(old(board.joined) + [currentOwnerEmail], newOwnerEmail)
        && (forall u :: u in board.joined <==>
              (u in old(board.joined) || u == currentOwnerEmail) && u != newOwnerEmail)
    {
      SystemBoard(board);
      r := board.ChangeOwner(currentOwnerEmail, newOwnerEmail);
      OthersStayValid(board);
    }

    /** The data layer's `ChangeOwnerPointer`, by its effect: the board moves
        from the caller's owned list to the new owner's, and from the new
        owner's joined list to the caller's. A new owner without board lists
        is not found. */
    method ChangeOwnerPointer(currentOwnerEmail: string, newOwnerEmail: string, board: Board)
      returns (r: Outcome)
      requires Valid() && currentOwnerEmail in users && InSystem(board)
      requires currentOwnerEmail != newOwnerEmail
      modifies this
      ensures Valid()
      ensures users == old(users) && loggedIn == old(loggedIn) && boardsById == old(boardsById)
      ensures nextBoardId == old(nextBoardId)
      ensures r.Pass? <==> newOwnerEmail in old(myBoards) && newOwnerEmail in old(joinedBoards)
      ensures r.Fail? ==> r.error == NotFound && myBoards == old(myBoards) && joinedBoards == old(joinedBoards)
      ensures r.Pass? ==>
        && myBoards == old(myBoards)[currentOwnerEmail := RemoveFirst(old(MyBoards(currentOwnerEmail)), board)]
                                    [newOwnerEmail := old(MyBoards(newOwnerEmail)) + [board]]
        && joinedBoards == old(joinedBoards)[newOwnerEmail := RemoveFirst(old(JoinedBoards(newOwnerEmail)), board)]
                                            [currentOwnerEmail := old(JoinedBoards(currentOwnerEmail)) + [board]]
    {
      if newOwnerEmail !in myBoards || newOwnerEmail !in joinedBoards {
        return Fail(NotFound);
      }
      var mine := myBoards[currentOwnerEmail := RemoveFirst(myBoards[currentOwnerEmail], board)];
      ListedUpdate(boardsById, myBoards, currentOwnerEmail, RemoveFirst(myBoards[currentOwnerEmail], board));
      ListedUpdate(boardsById, mine, newOwnerEmail, myBoards[newOwnerEmail] + [board]);
      var joined := joinedBoards[newOwnerEmail := RemoveFirst(joinedBoards[newOwnerEmail], board)];
      ListedUpdate(boardsById, joinedBoards, newOwnerEmail, RemoveFirst(joinedBoards[newOwnerEmail], board));
      ListedUpdate(boardsById, joined, currentOwnerEmail, joinedBoards[currentOwnerEmail] + [board]);
      myBoards := mine[newOwnerEmail := myBoards[newOwnerEmail] + [board]];
      joinedBoards := joined[currentOwnerEmail := joinedBoards[currentOwnerEmail] + [board]];
      BoardsKept();
      r := Pass;
    }

    /** `AddTask`: resolves the board by title, then the board adds the task.
        A failed lookup changes nothing; otherwise only the resolved board's
        columns, tracker and counter can change, as `Board.AddTask` says. */
    method AddTask(email: string, boardName: string, title: string, description: string,
                   dueDate: int, today: int) returns (r: Outcome)
      requires Valid()
      modifies Objects()
      ensures Valid() && unchanged(this)
      ensures old(BoardByTitle(email, boardName)).Failure? ==>
        r == Fail(old(BoardByTitle(email, boardName)).error) && unchanged(Objects())
      ensures old(BoardByTitle(email, boardName)).Success? ==>
        var b := old(BoardByTitle(email, boardName)).value;
        && (forall k :: k in boardsById && k != b.id ==> unchanged(boardsById[k].Frame()))
        && b.owner == old(b.owner) && b.joined == old(b.joined) && unchanged(b.columnLimit)
        && (old(|b.columns[Backlog]|) == b.columnLimit[Backlog] ==> r == Fail(LimitReached))
        && (r.Pass? <==>
             old(|b.columns[Backlog]|) != b.columnLimit[Backlog] && ValidFields(title, description, dueDate, today))
        && (r.Fail? ==> r.error in {LimitReached, InvalidArgument} && unchanged(b.Frame()))
        && (r.Pass? ==>
             && |b.columns[Backlog]| == old(|b.columns[Backlog]|) + 1
             && b.columns[Backlog][..old(|b.columns[Backlog]|)] == old(b.columns[Backlog])
             && b.columns[InProgress] == old(b.columns[InProgress]) && b.columns[Done] == old(b.columns[Done])
             && b.taskStateTracker == old(b.taskStateTracker)[old(b.taskIDCounter) := Backlog]
             && b.taskIDCounter == old(b.taskIDCounter) + 1)
        && (r.Pass? ==>
             var t := b.columns[Backlog][old(|b.columns[Backlog]|)];
             && fresh(t) && t.id == old(b.taskIDCounter) && t.title == title
             && t.description == description && t.dueDate == dueDate && t.creationTime == today
             && t.state == Backlog && t.assignee == Unassigned)
        && (old(b.StatesAgree()) ==> b.StatesAgree())
    {
      var found := BoardByTitle(email, boardName);
      if found.Failure? {
        return Fail(found.error);
      }
      SystemBoard(found.value);
      r := AddTaskTo(found.value, title, description, dueDate, today);
    }

    /** The controller's `AddTask` once the board is resolved. */
    method AddTaskTo(board: Board, title: string, description: string, dueDate: int, today: int)
      returns (r: Outcome)
      requires Valid() && InSystem(board) && board.Valid()
      modifies board`taskStateTracker, board`taskIDCounter, board.columns
      ensures Valid()
      ensures forall k :: k in boardsById && k != board.id ==> unchanged(boardsById[k].Frame())
      ensures
        var b := board;
        && (old(|b.columns[Backlog]|) == b.columnLimit[Backlog] ==> r == Fail(LimitReached))
        && (r.Pass? <==>
             old(|b.columns[Backlog]|) != b.columnLimit[Backlog] && ValidFields(title, description, dueDate, today))
        && (r.Fail? ==> r.error in {LimitReached, InvalidArgument} && unchanged(b.Frame()))
        && (r.Pass? ==>
             && |b.columns[Backlog]| == old(|b.columns[Backlog]|) + 1
             && b.columns[Backlog][..old(|b.columns[Backlog]|)] == old(b.columns[Backlog])
             && b.columns[InProgress] == old(b.columns[InProgress]) && b.columns[Done] == old(b.columns[Done])
             && b.taskStateTracker == old(b.taskStateTracker)[old(b.taskIDCounter) := Backlog]
             && b.taskIDCounter == old(b.taskIDCounter) + 1)
        && (r.Pass? ==>
             var t := b.columns[Backlog][old(|b.columns[Backlog]|)];
             && fresh(t) && t.id == old(b.taskIDCounter) && t.title == title
             && t.description == description && t.dueDate == dueDate && t.creationTime == today
             && t.state == Backlog && t.assignee == Unassigned)
        && (old(b.StatesAgree()) ==> b.StatesAgree())
    {
      SystemBoard(board);
      r := board.AddTask(title, dueDate, description, today);
      OthersStayValid(board);
    }

    /** `RemoveTask`: resolves the board by title, then the board removes
        the task. A failed lookup changes nothing; otherwise only the
        resolved board's columns and tracker can change. */
    method RemoveTask(email: string, boardName: string, taskId: int) returns (r: Outcome)
      requires Valid()
      modifies Objects()
      ensures Valid() && unchanged(this)
      ensures old(BoardByTitle(email, boardName)).Failure? ==>
        r == Fail(old(BoardByTitle(email, boardName)).error) && unchanged(Objects())
      ensures old(BoardByTitle(email, boardName)).Success? ==>
        var b := old(BoardByTitle(email, boardName)).value;
        && (forall k :: k in boardsById && k != b.id ==> unchanged(boardsById[k].Frame()))
        && b.owner == old(b.owner) && b.joined == old(b.joined) && unchanged(b.columnLimit)
        && b.taskIDCounter == old(b.taskIDCounter)
        && (r.Pass? <==> taskId in old(b.taskStateTracker))
        && (r.Fail? ==> r.error == NotFound && unchanged(b.Frame()))
        && (r.Pass? ==>
             && b.taskStateTracker == old(b.taskStateTracker) - {taskId}
             && forall c :: 0 <= c < 3 ==> b.columns[c] == Without(old(b.columns[c]), taskId))
        && (old(b.StatesAgree()) ==> b.StatesAgree())
    {
      var found := BoardByTitle(email, boardName);
      if found.Failure? {
        return Fail(found.error);
      }
      SystemBoard(found.value);
      r := RemoveTaskFrom(found.value, taskId);
    }

    /** The controller's `RemoveTask` once the board is resolved. */
    method RemoveTaskFrom(board: Board, taskId: int) returns (r: Outcome)
      requires Valid() && InSystem(board) && board.Valid()
      modifies board`taskStateTracker, board.columns
      ensures Valid()
      ensures forall k :: k in boardsById && k != board.id ==> unchanged(boardsById[k].Frame())
      ensures
        var b := board;
        && (r.Pass? <==> taskId in old(b.taskStateTracker))
        && (r.Fail? ==> r.error == NotFound && unchanged(b.Frame()))
        && (r.Pass? ==>
             && b.taskStateTracker == old(b.taskStateTracker) - {taskId}
             && forall c :: 0 <= c < 3 ==> b.columns[c] == Without(old(b.columns[c]), taskId))
        && (old(b.StatesAgree()) ==> b.StatesAgree())
    {
      SystemBoard(board);
      r := board.RemoveTask(taskId);
      OthersStayValid(board);
    }

    /** `AdvanceTask`: resolves the board by title and the task by id, lets
        the board move the task to the next column, then advances the task's
        own state. On success the task is in column `columnOrdinal + 1` and
        in state `columnOrdinal + 1`, so a board whose tasks agreed with their
        columns still does. A failed lookup changes nothing; otherwise only
        the resolved board's columns and tracker and the advanced task's
        state can change, as `AdvancedOn` says. */
    method AdvanceTask(email: string, boardName: string, columnOrdinal: int, taskId: int)
      returns (r: Outcome)
      requires Valid()
      modifies Objects(), TaskObjects()
      ensures Valid() && unchanged(this)
      ensures old(BoardByTitle(email, boardName)).Failure? ==>
        && r == Fail(old(BoardByTitle(email, boardName)).error)
        && unchanged(Objects()) && unchanged(old(TaskObjects()))
      ensures old(BoardByTitle(email, boardName)).Success? ==>
        var b := old(BoardByTitle(email, boardName)).value;
        && (forall k :: k in boardsById && k != b.id ==> unchanged(boardsById[k].Frame()))
        && (forall t :: t in old(TaskObjects()) && t !in old(b.AllTasks()) ==> unchanged(t))
        && b.owner == old(b.owner) && b.joined == old(b.joined) && unchanged(b.columnLimit)
        && b.taskIDCounter == old(b.taskIDCounter)
        && b.Valid() && AdvancedOn(b, old(b.AllTasks()), email, columnOrdinal, taskId, r)
    {
      var found := BoardByTitle(email, boardName);
      if found.Failure? {
        return Fail(found.error);
      }
      SystemBoard(found.value);
      r := AdvanceInSystem(found.value, email, columnOrdinal, taskId);
    }

    /** The controller's `AdvanceTask` once the board is resolved. */
    method AdvanceInSystem(board: Board, email: string, columnOrdinal: int, taskId: int)
      returns (r: Outcome)
      requires Valid() && InSystem(board) && board.Valid()
      modifies board`taskStateTracker, board.columns, board.AllTasks()`state
      ensures Valid()
      ensures forall k :: k in boardsById && k != board.id ==> unchanged(boardsById[k].Frame())
      ensures forall t :: t in old(TaskObjects()) && t !in old(board.AllTasks()) ==> unchanged(t)
      ensures board.owner == old(board.owner) && board.joined == old(board.joined) && unchanged(board.columnLimit)
      ensures board.taskIDCounter == old(board.taskIDCounter)
      ensures board.Valid() && AdvancedOn(board, old(board.AllTasks()), email, columnOrdinal, taskId, r)
    {
      SystemBoard(board);
      r := AdvanceApart(board, email, columnOrdinal, taskId);
      OthersStayValid(board);
    }

    /** `AdvanceResolved` on a board that shares no object with the other
        boards of the system: nothing outside the board and its tasks
        changes. */
    method AdvanceApart(board: Board, email: string, columnOrdinal: int, taskId: int)
      returns (r: Outcome)
      requires board.Valid()
      requires forall k :: k in boardsById && k != board.id ==> boardsById[k].Frame() !! board.Frame()
      modifies board`taskStateTracker, board.columns, board.AllTasks()`state
      ensures forall k :: k in boardsById && k != board.id ==> unchanged(boardsById[k].Frame())
      ensures forall t :: t in old(TaskObjects()) && t !in old(board.AllTasks()) ==> unchanged(t)
      ensures board.owner == old(board.owner) && board.joined == old(board.joined) && unchanged(board.columnLimit)
      ensures board.taskIDCounter == old(board.taskIDCounter)
      ensures board.Valid() && AdvancedOn(board, old(board.AllTasks()), email, columnOrdinal, taskId, r)
    {
      r := AdvanceResolved(board, email, columnOrdinal, taskId);
    }

    /** `LimitColumn`: resolves the board by title, then the board sets the
        limit. A failed lookup changes nothing; otherwise only that one limit
        of the resolved board can change. */
    method LimitColumn(email: string, boardName: string, columnOrdinal: int, limit: int)
      returns (r: Outcome)
      requires Valid()
      modifies Objects()
      ensures Valid() && unchanged(this)
      ensures old(BoardByTitle(email, boardName)).Failure? ==>
        r == Fail(old(BoardByTitle(email, boardName)).error) && unchanged(Objects())
      ensures old(BoardByTitle(email, boardName)).Success? ==>
        var b := old(BoardByTitle(email, boardName)).value;
        && (forall k :: k in boardsById && k != b.id ==> unchanged(boardsById[k].Frame()))
        && unchanged(b, b.columns)
        && (!IsOrdinal(columnOrdinal) ==> r == Fail(OutOfRange))
        && (IsOrdinal(columnOrdinal) && limit < -1 ==> r == Fail(InvalidArgument))
        && ((IsOrdinal(columnOrdinal) && limit > -1 && |b.columns[columnOrdinal]| > limit)
            ==> r == Fail(LimitReached))
        && (r.Pass? <==> IsOrdinal(columnOrdinal) && limit >= -1
                         && (limit == -1 || |b.columns[columnOrdinal]| <= limit))
        && b.columnLimit[..] ==
             if r.Pass? then old(b.columnLimit[..])[columnOrdinal := limit] else old(b.columnLimit[..])
    {
      var found := BoardByTitle(email, boardName);
      if found.Failure? {
        return Fail(found.error);
      }
      SystemBoard(found.value);
      r := LimitColumnOf(found.value, columnOrdinal, limit);
    }

    /** The controller's `LimitColumn` once the board is resolved. */
    method LimitColumnOf(board: Board, columnOrdinal: int, limit: int) returns (r: Outcome)
      requires Valid() && InSystem(board) && board.Valid()
      modifies board.columnLimit
      ensures Valid()
      ensures forall k :: k in boardsById && k != board.id ==> unchanged(boardsById[k].Frame())
      ensures
        var b := board;
        && (!IsOrdinal(columnOrdinal) ==> r == Fail(OutOfRange))
        && (IsOrdinal(columnOrdinal) && limit < -1 ==> r == Fail(InvalidArgument))
        && ((IsOrdinal(columnOrdinal) && limit > -1 && |b.columns[columnOrdinal]| > limit)
            ==> r == Fail(LimitReached))
        && (r.Pass? <==> IsOrdinal(columnOrdinal) && limit >= -1
                         && (limit == -1 || |b.columns[columnOrdinal]| <= limit))
        && b.columnLimit[..] ==
             if r.Pass? then old(b.columnLimit[..])[columnOrdinal := limit] else old(b.columnLimit[..])
    {
      SystemBoard(board);
      r := board.LimitColumn(columnOrdinal, limit);
      OthersStayValid(board);
    }

    /** `GetColumnLimit`: resolves the board by title, then reads the limit. */
    method GetColumnLimit(email: string, boardName: string, columnOrdinal: int) returns (r: Result<int>)
      requires Valid()
      ensures Valid()
      ensures BoardByTitle(email, boardName).Failure? ==> r == Failure(BoardByTitle(email, boardName).error)
      ensures BoardByTitle(email, boardName).Success? ==>
        r == BoardByTitle(email, boardName).value.GetColumnLimit(columnOrdinal)
      ensures r.Success? ==> r.value >= -1
    {
      var found := BoardByTitle(email, boardName);
      if found.Failure? {
        return Failure(found.error);
      }
      SystemBoard(found.value);
      r := found.value.GetColumnLimit(columnOrdinal);
    }

    /** `GetColumnName`: resolves the board by title, then names the column. */
    method GetColumnName(email: string, boardName: string, columnOrdinal: int) returns (r: Result<string>)
      requires Valid()
      ensures Valid()
      ensures BoardByTitle(email, boardName).Failure? ==> r == Failure(BoardByTitle(email, boardName).error)
      ensures BoardByTitle(email, boardName).Success? ==>
        (r.Success? <==> IsOrdinal(columnOrdinal)) && (IsOrdinal(columnOrdinal) ==> r.value == ColumnName(columnOrdinal))
    {
      var found := BoardByTitle(email, boardName);
      if found.Failure? {
        return Failure(found.error);
      }
      r := found.value.GetColumnName(columnOrdinal);
    }

    /** `GetColumn`: resolves the board by title, then returns that column. */
    method GetColumn(email: string, boardName: string, columnOrdinal: int) returns (r: Result<seq<Task>>)
      requires Valid()
      ensures Valid()
      ensures BoardByTitle(email, boardName).Failure? ==> r == Failure(BoardByTitle(email, boardName).error)
      ensures BoardByTitle(email, boardName).Success? ==>
        var b := BoardByTitle(email, boardName).value;
        && (r.Success? <==> IsOrdinal(columnOrdinal))
        && (r.Success? ==> r.value == b.columns[columnOrdinal])
    {
      var found := BoardByTitle(email, boardName);
      if found.Failure? {
        return Failure(found.error);
      }
      SystemBoard(found.value);
      r := found.value.GetColumn(columnOrdinal);
    }
  }
}
