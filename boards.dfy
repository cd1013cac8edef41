/** The business-layer `Board`: three ordered task columns with one
    work-in-progress limit each, a tracker from task id to column kept in
    lock-step with the columns, a sequential task-id counter, an owner and
    the list of joined collaborators. */
module Boards {
  import opened Kanban
  import opened Tasks

  /** The ids of a column, in column order. */
  function IdsOf(s: seq<Task>): (ids: seq<int>)
    ensures |ids| == |s|
    ensures forall k :: 0 <= k < |s| ==> ids[k] == s[k].id
  {
    seq(|s|, k requires 0 <= k < |s| => s[k].id)
  }

  /** The column with the task of the given id filtered out, every other
      task kept in its order: the reference for what a removal leaves. */
  function Without(s: seq<Task>, taskId: int): (r: seq<Task>)
    ensures forall t :: t in r ==> t in s && t.id != taskId
    ensures forall t :: t in s && t.id != taskId ==> t in r
  {
    if s == [] then []
    else if s[0].id == taskId then Without(s[1..], taskId)
    else [s[0]] + Without(s[1..], taskId)
  }

  /** In a column whose ids are distinct, filtering out the id of the task
      at position `k` is cutting out position `k`. */
  lemma WithoutAt(s: seq<Task>, k: int)
    requires NoDuplicates(IdsOf(s)) && 0 <= k < |s|
    ensures Without(s, s[k].id) == s[..k] + s[k+1..]
  {
    forall j | 0 <= j < |s| && j != k ensures s[j].id != s[k].id {
      assert IdsOf(s)[j] != IdsOf(s)[k];
    }
    WithoutCut(s, k, s[k].id);
  }

  lemma WithoutCut(s: seq<Task>, k: int, taskId: int)
    requires 0 <= k < |s| && s[k].id == taskId
    requires forall j :: 0 <= j < |s| && j != k ==> s[j].id != taskId
    ensures Without(s, taskId) == s[..k] + s[k+1..]
  {
    var front, back := s[..k], s[k+1..];
    assert s == front + ([s[k]] + back);
    WithoutAppend(front, [s[k]] + back, taskId);
    assert ([s[k]] + back)[1..] == back;
    assert forall j :: 0 <= j < |front| ==> front[j] == s[j];
    WithoutAbsent(front, taskId);
    assert forall j :: 0 <= j < |back| ==> back[j] == s[k + 1 + j];
    WithoutAbsent(back, taskId);
  }

  /** Filtering a concatenation filters each part. */
  lemma {:induction false} WithoutAppend(a: seq<Task>, b: seq<Task>, taskId: int)
    ensures Without(a + b, taskId) == Without(a, taskId) + Without(b, taskId)
  {
    if a == [] {
      assert a + b == b;
    } else {
      assert (a + b)[0] == a[0] && (a + b)[1..] == a[1..] + b;
      WithoutAppend(a[1..], b, taskId);
    }
  }

  /** Filtering out an id that does not occur changes nothing. */
  lemma {:induction false} WithoutAbsent(s: seq<Task>, taskId: int)
    requires forall j :: 0 <= j < |s| ==> s[j].id != taskId
    ensures Without(s, taskId) == s
  {
    if s != [] {
      assert forall j :: 0 <= j < |s[1..]| ==> s[1..][j] == s[j + 1];
      WithoutAbsent(s[1..], taskId);
      assert s == [s[0]] + s[1..];
    }
  }

  /** The tracker and the columns describe the same tasks: every task of
      column `c` is tracked at `c`, every tracked id is found in the column
      the tracker names, no column holds an id twice, and every tracked id
      was handed out by the counter. */
  ghost predicate Consistent(cols: seq<seq<Task>>, tracker: map<int, TaskState>, counter: int)
  {
    && |cols| == 3
    && (forall c, t :: 0 <= c < 3 && t in cols[c] ==> t.id in tracker && tracker[t.id] == c)
    && (forall i :: i in tracker ==> i in IdsOf(cols[tracker[i]]))
    && (forall c :: 0 <= c < 3 ==> NoDuplicates(IdsOf(cols[c])))
    && (forall i :: i in tracker ==> 0 <= i < counter)
  }

  /** Under the consistency invariant the tracker's key set is the set of
      ids across the three columns, and an id occurs at one position of one
      column only. */
  lemma ConsistentKeys(cols: seq<seq<Task>>, tracker: map<int, TaskState>, counter: int)
    requires Consistent(cols, tracker, counter)
    ensures tracker.Keys == set c, k | 0 <= c < 3 && 0 <= k < |cols[c]| :: cols[c][k].id
    ensures forall c, d, j, k ::
      (0 <= c < 3 && 0 <= d < 3 && 0 <= j < |cols[c]| && 0 <= k < |cols[d]|
       && cols[c][j].id == cols[d][k].id) ==> c == d && j == k
  {
    var ids := set c, k | 0 <= c < 3 && 0 <= k < |cols[c]| :: cols[c][k].id;
    forall i | i in tracker ensures i in ids {
      var c := tracker[i];
      var k :| 0 <= k < |cols[c]| && IdsOf(cols[c])[k] == i;
      assert cols[c][k].id == i;
    }
    forall i | i in ids ensures i in tracker {
      var c, k :| 0 <= c < 3 && 0 <= k < |cols[c]| && cols[c][k].id == i;
      assert cols[c][k] in cols[c];
    }
    forall c, d, j, k | 0 <= c < 3 && 0 <= d < 3 && 0 <= j < |cols[c]|
      && 0 <= k < |cols[d]| && cols[c][j].id == cols[d][k].id
      ensures c == d && j == k
    {
      assert cols[c][j] in cols[c] && cols[d][k] in cols[d];
      assert IdsOf(cols[c])[j] == cols[c][j].id;
      assert IdsOf(cols[d])[k] == cols[d][k].id;
    }
  }

  /** A task id that the tracker does not know, or knows in another column,
      does not occur in a column. */
  lemma ConsistentAbsent(cols: seq<seq<Task>>, tracker: map<int, TaskState>, counter: int, c: int, taskId: int)
    requires Consistent(cols, tracker, counter) && 0 <= c < 3
    requires taskId !in tracker || tracker[taskId] != c
    ensures forall j :: 0 <= j < |cols[c]| ==> cols[c][j].id != taskId
  {
    forall j | 0 <= j < |cols[c]| ensures cols[c][j].id != taskId {
      assert cols[c][j] in cols[c];
    }
  }

  /** A tracked id occurs in the column the tracker names. */
  lemma ConsistentPresent(cols: seq<seq<Task>>, tracker: map<int, TaskState>, counter: int, taskId: int)
    requires Consistent(cols, tracker, counter) && taskId in tracker
    ensures exists j :: 0 <= j < |cols[tracker[taskId]]| && cols[tracker[taskId]][j].id == taskId
  {
    var c := tracker[taskId];
    var j :| 0 <= j < |cols[c]| && IdsOf(cols[c])[j] == taskId;
    assert cols[c][j].id == taskId;
  }

  /** Cutting a task out of its column and its id out of the tracker keeps
      the two consistent. */
  lemma ConsistentRemove(cols: seq<seq<Task>>, tracker: map<int, TaskState>, counter: int, c: int, k: int)
    requires Consistent(cols, tracker, counter) && 0 <= c < 3 && 0 <= k < |cols[c]|
    ensures Consistent(cols[c := cols[c][..k] + cols[c][k+1..]], tracker - {cols[c][k].id}, counter)
  {
    var cut := cols[c][..k] + cols[c][k+1..];
    assert IdsOf(cut) == IdsOf(cols[c])[..k] + IdsOf(cols[c])[k+1..];
    NoDuplicatesCut(IdsOf(cols[c]), k);
    RemoveKeepsTracked(cols, tracker, counter, c, k);
    RemoveKeepsFound(cols, tracker, counter, c, k);
  }

  /** After the cut every remaining task is still tracked at its column. */
  lemma RemoveKeepsTracked(cols: seq<seq<Task>>, tracker: map<int, TaskState>, counter: int, c: int, k: int)
    requires Consistent(cols, tracker, counter) && 0 <= c < 3 && 0 <= k < |cols[c]|
    ensures var cols', tracker' := cols[c := cols[c][..k] + cols[c][k+1..]], tracker - {cols[c][k].id};
      forall d, t :: 0 <= d < 3 && t in cols'[d] ==> t.id in tracker' && tracker'[t.id] == d
  {
    var id := cols[c][k].id;
    var cut := cols[c][..k] + cols[c][k+1..];
    var cols', tracker' := cols[c := cut], tracker - {id};
    forall d, t: Task | 0 <= d < 3 && t in cols'[d] ensures t.id in tracker' && tracker'[t.id] == d {
      if d == c {
        var j :| 0 <= j < |cut| && cut[j] == t;
        var j' := if j < k then j else j + 1;
        assert cut[j] == cols[c][j'];
        assert IdsOf(cols[c])[j'] != IdsOf(cols[c])[k];
        assert cols[c][j'] in cols[c];
      } else {
        assert cols[c][k] in cols[c];
      }
    }
  }

  /** After the cut every id left in the tracker is found in its column. */
  lemma RemoveKeepsFound(cols: seq<seq<Task>>, tracker: map<int, TaskState>, counter: int, c: int, k: int)
    requires Consistent(cols, tracker, counter) && 0 <= c < 3 && 0 <= k < |cols[c]|
    ensures var cols', tracker' := cols[c := cols[c][..k] + cols[c][k+1..]], tracker - {cols[c][k].id};
      forall i :: i in tracker' ==> i in IdsOf(cols'[tracker'[i]])
  {
    var id := cols[c][k].id;
    var cut := cols[c][..k] + cols[c][k+1..];
    var cols', tracker' := cols[c := cut], tracker - {id};
    forall i | i in tracker' ensures i in IdsOf(cols'[tracker'[i]]) {
      var d := tracker[i];
      assert i in IdsOf(cols[d]);
      if d == c {
        var j :| 0 <= j < |cols[c]| && IdsOf(cols[c])[j] == i;
        var j' := if j < k then j else j - 1;
        assert IdsOf(cut)[j'] == i;
      }
    }
  }

  /** Appending an untracked task to a column and tracking it there keeps
      the two consistent. */
  lemma ConsistentInsert(cols: seq<seq<Task>>, tracker: map<int, TaskState>, counter: int, c: int, t: Task)
    requires Consistent(cols, tracker, counter) && 0 <= c < 3
    requires t.id !in tracker && 0 <= t.id < counter
    ensures Consistent(cols[c := cols[c] + [t]], tracker[t.id := c], counter)
  {
    var cols', tracker' := cols[c := cols[c] + [t]], tracker[t.id := c];
    ConsistentAbsent(cols, tracker, counter, c, t.id);
    assert IdsOf(cols[c] + [t]) == IdsOf(cols[c]) + [t.id];
    NoDuplicatesAppend(IdsOf(cols[c]), t.id);
    forall d, u: Task | 0 <= d < 3 && u in cols'[d] ensures u.id in tracker' && tracker'[u.id] == d {
      if d == c && u != t {
        assert u in cols[c];
      }
    }
    forall i | i in tracker' ensures i in IdsOf(cols'[tracker'[i]]) {
      if i == t.id {
        assert IdsOf(cols'[c])[|cols[c]|] == i;
      } else {
        var d := tracker[i];
        var j :| 0 <= j < |cols[d]| && IdsOf(cols[d])[j] == i;
        assert IdsOf(cols'[d])[j] == i;
      }
    }
  }

  /** The columns after the task at position `k` of column `s` moved to
      the end of column `s + 1`. */
  function Moved(cols: seq<seq<Task>>, s: int, k: int): seq<seq<Task>>
    requires |cols| == 3 && 0 <= s < 2 && 0 <= k < |cols[s]|
  {
    cols[s := cols[s][..k] + cols[s][k+1..]][s + 1 := cols[s + 1] + [cols[s][k]]]
  }

  /** Moving a task to the end of the next column and tracking it there
      keeps the tracker and the columns consistent. */
  lemma ConsistentMove(cols: seq<seq<Task>>, tracker: map<int, TaskState>, counter: int, s: int, k: int)
    requires Consistent(cols, tracker, counter) && 0 <= s < 2 && 0 <= k < |cols[s]|
    ensures Consistent(Moved(cols, s, k), tracker[cols[s][k].id := s + 1], counter)
  {
    var t := cols[s][k];
    assert t in cols[s];
    var cut := cols[s][..k] + cols[s][k+1..];
    ConsistentRemove(cols, tracker, counter, s, k);
    ConsistentInsert(cols[s := cut], tracker - {t.id}, counter, s + 1, t);
    assert (tracker - {t.id})[t.id := s + 1] == tracker[t.id := s + 1];
  }

  /** The assignee a task has after its assignee `email` left the board. */
  function Reassigned(assignee: string, email: string): (a: string)
    ensures assignee == email ==> a == Unassigned
    ensures assignee != email ==> a == assignee
    ensures a == email ==> email == Unassigned
  {
    if assignee == email then Unassigned else assignee
  }

  /** The index of the first task of a column with the given id, or -1
      when no task has it. */
  function IndexOfId(s: seq<Task>, taskId: int): (k: int)
    ensures -1 <= k < |s|
    ensures k == -1 <==> forall j :: 0 <= j < |s| ==> s[j].id != taskId
    ensures k >= 0 ==> s[k].id == taskId && forall j :: 0 <= j < k ==> s[j].id != taskId
  {
    if s == [] then -1
    else if s[0].id == taskId then 0
    else
      var k := IndexOfId(s[1..], taskId);
      if k == -1 then -1 else k + 1
  }

  /** The `foreach` scans of `RemoveTask` and both `SearchTask`s: the
      first position holding the id, or -1. */
  method FindTask(s: seq<Task>, taskId: int) returns (k: int)
    ensures -1 <= k < |s|
    ensures k == -1 <==> forall j :: 0 <= j < |s| ==> s[j].id != taskId
    ensures k >= 0 ==> s[k].id == taskId && forall j :: 0 <= j < k ==> s[j].id != taskId
  {
    k := 0;
    while k < |s|
      invariant 0 <= k <= |s|
      invariant forall j :: 0 <= j < k ==> s[j].id != taskId
    {
      if s[k].id == taskId {
        return;
      }
      k := k + 1;
    }
    k := -1;
  }

  class Board {
    const id: int
    const title: string
    var owner: string
    var joined: seq<string>
    const columns: array<seq<Task>>
    const columnLimit: array<int>
    var taskStateTracker: map<int, TaskState>
    var taskIDCounter: int

    /** The objects that make up the board itself (its tasks excluded). */
    ghost function Frame(): set<object>
    {
      {this, columns, columnLimit}
    }

    /** Every limit is -1 (unlimited) or a bound its column respects. */
    ghost predicate WithinLimits()
      reads this, columns, columnLimit
      requires columns.Length == 3 && columnLimit.Length == 3
    {
      forall c :: 0 <= c < 3 ==>
        columnLimit[c] >= -1 && (columnLimit[c] == -1 || |columns[c]| <= columnLimit[c])
    }

    /** The board invariant. */
    ghost predicate Valid()
      reads Frame()
    {
      && columns.Length == 3 && columnLimit.Length == 3
      && taskIDCounter >= 0
      && Consistent(columns[..], taskStateTracker, taskIDCounter)
      && WithinLimits()
      && owner !in joined
      && NoDuplicates(joined)
    }

    /** The tasks on the board, in any column. */
    ghost function AllTasks(): set<Task>
      reads this, columns
    {
      set c, t | 0 <= c < columns.Length && t in columns[c] :: t
    }

    /** The tasks of one column, as a set. */
    ghost function ColumnTasks(c: TaskState): set<Task>
      reads this, columns
      requires columns.Length == 3
    {
      set t | t in columns[c]
    }

    /** Every task's own state is the column that holds it. */
    ghost predicate StatesAgree()
      reads this, columns, AllTasks()
      requires columns.Length == 3
    {
      forall c, t :: 0 <= c < 3 && t in columns[c] ==> t.state == c
    }

    /** The task the tracker points at: the one with that id in the
        column the tracker names. */
    ghost function TaskAt(taskId: int): (t: Task)
      reads Frame()
      requires Valid() && taskId in taskStateTracker
      ensures t in columns[taskStateTracker[taskId]] && t.id == taskId
    {
      var c := taskStateTracker[taskId];
      assert taskId in IdsOf(columns[..][c]);
      var k :| 0 <= k < |columns[c]| && IdsOf(columns[c])[k] == taskId;
      columns[c][k]
    }

    /** Two tasks of the board with the same id are the same position of
        the same column; in particular no task sits in two columns. */
    lemma UniqueIds()
      requires Valid()
      ensures forall c, d, j, k ::
        (0 <= c < 3 && 0 <= d < 3 && 0 <= j < |columns[c]| && 0 <= k < |columns[d]|
         && columns[c][j].id == columns[d][k].id) ==> c == d && j == k
      ensures forall c, d, t :: 0 <= c < 3 && 0 <= d < 3 && t in columns[c] && t in columns[d] ==> c == d
    {
      ConsistentKeys(columns[..], taskStateTracker, taskIDCounter);
      forall c, d, t | 0 <= c < 3 && 0 <= d < 3 && t in columns[c] && t in columns[d]
        ensures c == d
      {
        assert t in columns[..][c] && t in columns[..][d];
      }
    }

    /** A task held in the column the tracker names for its id is the task
        the tracker points at. */
    lemma TaskAtIs(t: Task)
      requires Valid() && t.id in taskStateTracker && t in columns[taskStateTracker[t.id]]
      ensures TaskAt(t.id) == t
    {
      UniqueIds();
      var c := taskStateTracker[t.id];
      var j :| 0 <= j < |columns[c]| && columns[c][j] == t;
      var k :| 0 <= k < |columns[c]| && columns[c][k] == TaskAt(t.id);
    }

    /** `new Board(title, id, owner)`: three empty columns, every limit -1,
        an empty tracker and nobody joined. */
    constructor (title: string, id: int, owner: string)
      ensures Valid() && fresh(columns) && fresh(columnLimit)
      ensures this.title == title && this.id == id && this.owner == owner
      ensures joined == [] && taskStateTracker == map[] && taskIDCounter == 0
      ensures columns[..] == [[], [], []] && columnLimit[..] == [-1, -1, -1]
    {
      this.id := id;
      this.title := title;
      this.owner := owner;
      joined := [];
      columnLimit := new int[3](_ => -1);
      columns := new seq<Task>[3](_ => []);
      taskStateTracker := map[];
      taskIDCounter := 0;
      new;
      assert columns[..] == [[], [], []];
      assert columnLimit[..] == [-1, -1, -1];
    }

    /** `AddTask`: fails when the backlog holds as many tasks as its limit,
        or when the task fields are invalid; otherwise the new task gets the
        counter as its id and goes to the end of the backlog. */
    method AddTask(title: string, dueDate: int, description: string, today: int)
      returns (r: Outcome)
      requires Valid()
      modifies this`taskStateTracker, this`taskIDCounter, columns
      ensures Valid()
      ensures old(|columns[Backlog]|) == columnLimit[Backlog] ==> r == Fail(LimitReached)
      ensures r.Pass? <==>
        old(|columns[Backlog]|) != columnLimit[Backlog] && ValidFields(title, description, dueDate, today)
      ensures r.Fail? ==> r.error in {LimitReached, InvalidArgument}
      ensures r.Fail? ==>
        && columns[..] == old(columns[..]) && taskStateTracker == old(taskStateTracker)
        && taskIDCounter == old(taskIDCounter)
      ensures r.Fail? ==> unchanged(Frame())
      ensures r.Pass? ==>
        && |columns[Backlog]| == old(|columns[Backlog]|) + 1
        && columns[Backlog][..old(|columns[Backlog]|)] == old(columns[Backlog])
        && columns[InProgress] == old(columns[InProgress]) && columns[Done] == old(columns[Done])
        && taskStateTracker == old(taskStateTracker)[old(taskIDCounter) := Backlog]
        && taskIDCounter == old(taskIDCounter) + 1
      ensures r.Pass? ==>
        var t := columns[Backlog][old(|columns[Backlog]|)];
        && fresh(t) && t.id == old(taskIDCounter) && t.title == title
        && t.description == description && t.dueDate == dueDate && t.creationTime == today
        && t.state == Backlog && t.assignee == Unassigned
      ensures old(StatesAgree()) ==> StatesAgree()
    {
      if |columns[Backlog]| != columnLimit[Backlog] {
        var created := Task.Create(taskIDCounter, title, dueDate, description, today);
        if created.Failure? {
          return Fail(created.error);
        }
        Append(created.value);
        r := Pass;
      } else {
        r := Fail(LimitReached);
      }
    }

    /** The store of a successful `AddTask`: the new task at the end of
        the backlog, tracked there under the counter's id, and the counter
        moves on. */
    method Append(t: Task)
      requires Valid() && t.id == taskIDCounter && t.state == Backlog
      requires columnLimit[Backlog] == -1 || |columns[Backlog]| < columnLimit[Backlog]
      modifies this`taskStateTracker, this`taskIDCounter, columns
      ensures Valid()
      ensures columns[Backlog] == old(columns[Backlog]) + [t]
      ensures columns[InProgress] == old(columns[InProgress]) && columns[Done] == old(columns[Done])
      ensures taskStateTracker == old(taskStateTracker)[old(taskIDCounter) := Backlog]
      ensures taskIDCounter == old(taskIDCounter) + 1
      ensures old(StatesAgree()) ==> StatesAgree()
    {
      ghost var before := columns[..];
      ConsistentInsert(before, taskStateTracker, taskIDCounter + 1, Backlog, t);
      columns[Backlog], taskStateTracker, taskIDCounter :=
        columns[Backlog] + [t], taskStateTracker[taskIDCounter := Backlog], taskIDCounter + 1;
      assert columns[..] == before[Backlog := before[Backlog] + [t]];
    }

    /** `RemoveTask`: an id the tracker does not know is not found;
        otherwise exactly that task leaves its column and the tracker, and
        the other tasks keep their order. */
    method RemoveTask(taskId: int) returns (r: Outcome)
      requires Valid()
      modifies this`taskStateTracker, columns
      ensures Valid()
      ensures r.Pass? <==> taskId in old(taskStateTracker)
      ensures r.Fail? ==> r.error == NotFound
      ensures r.Fail? ==> columns[..] == old(columns[..]) && taskStateTracker == old(taskStateTracker)
      ensures r.Fail? ==> unchanged(Frame())
      ensures r.Pass? ==>
        && taskStateTracker == old(taskStateTracker) - {taskId}
        && forall c :: 0 <= c < 3 ==> columns[c] == Without(old(columns[c]), taskId)
      ensures old(StatesAgree()) ==> StatesAgree()
    {
      if taskId in taskStateTracker {
        var c := taskStateTracker[taskId];
        var k := FindTask(columns[c], taskId);
        if k >= 0 {
          ghost var before := columns[..];
          RemoveFirstAt(columns[c], k);
          WithoutAt(columns[c], k);
          ConsistentRemove(before, taskStateTracker, taskIDCounter, c, k);
          forall d | 0 <= d < 3 && d != c ensures Without(before[d], taskId) == before[d] {
            ConsistentAbsent(before, taskStateTracker, taskIDCounter, d, taskId);
            WithoutAbsent(before[d], taskId);
          }
          columns[c] := RemoveFirst(columns[c], columns[c][k]);
          taskStateTracker := taskStateTracker - {taskId};
          assert columns[..] == before[c := before[c][..k] + before[c][k+1..]];
        }
        r := Pass;
      } else {
        r := Fail(NotFound);
      }
    }

    /** What `SearchTask(taskId)` finds: the task the tracker points at,
        or the user-does-not-exist error for an unknown id. On a valid board
        the tracked column always holds the id. */
    function Search(taskId: int): (r: Result<Task>)
      reads Frame()
      requires Valid()
      ensures r.Success? <==> taskId in taskStateTracker
      ensures r.Failure? ==> r.error == UnknownUser
      ensures r.Success? ==>
        && r.value == TaskAt(taskId)
        && r.value.id == taskId && r.value in columns[taskStateTracker[taskId]]
    {
      if taskId in taskStateTracker then
        var c := taskStateTracker[taskId];
        ConsistentPresent(columns[..], taskStateTracker, taskIDCounter, taskId);
        var k := IndexOfId(columns[c], taskId);
        TaskAtIs(columns[c][k]);
        Success(columns[c][k])
      else
        Failure(UnknownUser)
    }

    /** `SearchTask(taskId)`: an unknown id raises the user-does-not-exist
        error, as `Board.SearchTask` does; the fatal divergence error cannot be
        raised on a valid board. */
    method SearchTask(taskId: int) returns (r: Result<Task>)
      requires Valid()
      ensures r == Search(taskId)
    {
      if taskId in taskStateTracker {
        var c := taskStateTracker[taskId];
        var k := FindTask(columns[c], taskId);
        if k >= 0 {
          var t := columns[c][k];
          UniqueIds();
          return Success(t);
        }
        return Failure(Fatal);
      }
      return Failure(UnknownUser);
    }

    /** `SearchTask(taskId, columnOrdinal)`: a range error for a bad
        ordinal, else the task with that id in that column, or not found. */
    method SearchTaskInColumn(taskId: int, columnOrdinal: int) returns (r: Result<Task>)
      requires Valid()
      ensures !IsOrdinal(columnOrdinal) ==> r == Failure(OutOfRange)
      ensures IsOrdinal(columnOrdinal) ==>
        && (r.Success? <==> taskId in taskStateTracker && taskStateTracker[taskId] == columnOrdinal)
        && (r.Failure? ==> r.error == NotFound)
      ensures r.Success? ==>
        && r.value in columns[columnOrdinal] && taskId in taskStateTracker && r.value == TaskAt(taskId)
    {
      var v := ValidateColumnOrdinal(columnOrdinal);
      if v.Fail? {
        return Failure(v.error);
      }
      var k := FindTask(columns[columnOrdinal], taskId);
      if k >= 0 {
        var t := columns[columnOrdinal][k];
        assert t in columns[..][columnOrdinal];
        UniqueIds();
        return Success(t);
      }
      if taskId in taskStateTracker {
        ConsistentPresent(columns[..], taskStateTracker, taskIDCounter, taskId);
      }
      return Failure(NotFound);
    }

    /** When `AdvanceTask` moves the task: the ordinal is in range, the task
        is tracked and assigned to the caller, it is tracked in that column,
        which is not done, and the next column has room. */
    ghost predicate CanAdvance(email: string, columnOrdinal: int, taskId: int)
      reads this, columns, columnLimit, AllTasks()
      requires Valid()
    {
      && IsOrdinal(columnOrdinal) && taskId in taskStateTracker
      && TaskAt(taskId).assignee == email
      && taskStateTracker[taskId] == columnOrdinal && columnOrdinal != Done
      && (|columns[columnOrdinal + 1]| < columnLimit[columnOrdinal + 1] || columnLimit[columnOrdinal + 1] == -1)
    }

    /** The error of an `AdvanceTask` that does not move the task: that of
        the first of its checks that fails. */
    ghost function AdvanceError(email: string, columnOrdinal: int, taskId: int): (e: Error)
      reads this, columns, columnLimit, AllTasks()
      requires Valid()
    {
      if !IsOrdinal(columnOrdinal) then OutOfRange
      else if taskId !in taskStateTracker then UnknownUser
      else if TaskAt(taskId).assignee != email then Permission
      else if taskStateTracker[taskId] != columnOrdinal then NotFound
      else if columnOrdinal == Done then InvalidArgument
      else LimitReached
    }

    /** `AdvanceTask`: checks, in order, the ordinal range, that the task
        exists, that the caller is its assignee, that the tracker has it in
        the given column, that it is not done and that the next column has
        room; only then it moves from its column to the end of the next one.
        The task's own state is left alone. */
    method AdvanceTask(email: string, columnOrdinal: int, taskId: int) returns (r: Outcome)
      requires Valid()
      modifies this`taskStateTracker, columns
      ensures Valid()
      ensures !IsOrdinal(columnOrdinal) ==> r == Fail(OutOfRange)
      ensures IsOrdinal(columnOrdinal) && taskId !in old(taskStateTracker) ==> r == Fail(UnknownUser)
      ensures IsOrdinal(columnOrdinal) && taskId in old(taskStateTracker) ==>
        var s := old(taskStateTracker[taskId]);
        var assignee := old(TaskAt(taskId)).assignee;
        && (assignee != email ==> r == Fail(Permission))
        && (assignee == email && s != columnOrdinal ==> r == Fail(NotFound))
        && ((assignee == email && s == columnOrdinal && s == Done) ==> r == Fail(InvalidArgument))
        && ((assignee == email && s == columnOrdinal && s != Done
             && old(|columns[s + 1]|) >= columnLimit[s + 1] != -1) ==> r == Fail(LimitReached))
      ensures r.Pass? <==>
        && IsOrdinal(columnOrdinal) && taskId in old(taskStateTracker)
        && old(TaskAt(taskId)).assignee == email
        && old(taskStateTracker[taskId]) == columnOrdinal && columnOrdinal != Done
        && (old(|columns[columnOrdinal + 1]|) < columnLimit[columnOrdinal + 1]
            || columnLimit[columnOrdinal + 1] == -1)
      ensures r.Pass? <==> old(CanAdvance(email, columnOrdinal, taskId))
      ensures r.Fail? ==> r == Fail(old(AdvanceError(email, columnOrdinal, taskId)))
      ensures r.Fail? ==> columns[..] == old(columns[..]) && taskStateTracker == old(taskStateTracker)
      ensures r.Fail? ==> unchanged(Frame())
      ensures r.Pass? ==>
        var s := columnOrdinal;
        && columns[s] == Without(old(columns[s]), taskId)
        && columns[s + 1] == old(columns[s + 1]) + [old(TaskAt(taskId))]
        && (forall c :: 0 <= c < 3 && c != s && c != s + 1 ==> columns[c] == old(columns[c]))
        && taskStateTracker == old(taskStateTracker)[taskId := s + 1]
      ensures old(StatesAgree()) && r.Fail? ==> StatesAgree()
      ensures old(StatesAgree()) && r.Pass? ==> AgreeBut(old(TaskAt(taskId)))
    {
      var v := ValidateColumnOrdinal(columnOrdinal);
      if v.Fail? {
        return v;
      }
      var found := Search(taskId);
      if found.Failure? {
        return Fail(found.error);
      }
      r := AdvanceTracked(found.value, email, columnOrdinal, taskId);
    }

    /** The checks of `AdvanceTask` on the tracker entry, the done column and
        the limit of the next column, and the move they guard. `Board.AdvanceTask`
        tests again that the tracker knows the id; after a successful search
        that test always passes. */
    method AdvanceTracked(task: Task, email: string, columnOrdinal: TaskState, taskId: int) returns (r: Outcome)
      requires Valid() && taskId in taskStateTracker
      requires task == TaskAt(taskId)
      modifies this`taskStateTracker, columns
      ensures Valid()
      ensures IsOrdinal(columnOrdinal) && taskId in old(taskStateTracker) ==>
        var s := old(taskStateTracker[taskId]);
        var assignee := old(TaskAt(taskId)).assignee;
        && (assignee != email ==> r == Fail(Permission))
        && (assignee == email && s != columnOrdinal ==> r == Fail(NotFound))
        && ((assignee == email && s == columnOrdinal && s == Done) ==> r == Fail(InvalidArgument))
        && ((assignee == email && s == columnOrdinal && s != Done
             && old(|columns[s + 1]|) >= columnLimit[s + 1] != -1) ==> r == Fail(LimitReached))
      ensures r.Pass? <==>
        && IsOrdinal(columnOrdinal) && taskId in old(taskStateTracker)
        && old(TaskAt(taskId)).assignee == email
        && old(taskStateTracker[taskId]) == columnOrdinal && columnOrdinal != Done
        && (old(|columns[columnOrdinal + 1]|) < columnLimit[columnOrdinal + 1]
            || columnLimit[columnOrdinal + 1] == -1)
      ensures r.Pass? <==> old(CanAdvance(email, columnOrdinal, taskId))
      ensures r.Fail? ==> r == Fail(old(AdvanceError(email, columnOrdinal, taskId)))
      ensures r.Fail? ==> columns[..] == old(columns[..]) && taskStateTracker == old(taskStateTracker)
      ensures r.Fail? ==> unchanged(Frame())
      ensures r.Pass? ==>
        var s := columnOrdinal;
        && columns[s] == Without(old(columns[s]), taskId)
        && columns[s + 1] == old(columns[s + 1]) + [old(TaskAt(taskId))]
        && (forall c :: 0 <= c < 3 && c != s && c != s + 1 ==> columns[c] == old(columns[c]))
        && taskStateTracker == old(taskStateTracker)[taskId := s + 1]
      ensures old(StatesAgree()) && r.Fail? ==> StatesAgree()
      ensures old(StatesAgree()) && r.Pass? ==> AgreeBut(old(TaskAt(taskId)))
    {
      if task.assignee != email {
        return Fail(Permission);
      }
      if taskId in taskStateTracker {
        var state := taskStateTracker[taskId];
        if state == columnOrdinal {
          if state != Done {
            if |columns[state + 1]| < columnLimit[state + 1] || columnLimit[state + 1] == -1 {
              var toAdvance := Search(taskId);
              Shift(toAdvance.value, state);
              r := Pass;
            } else {
              r := Fail(LimitReached);
            }
          } else {
            r := Fail(InvalidArgument);
          }
        } else {
          r := Fail(NotFound);
        }
      } else {
        r := Fail(NotFound);
      }
    }

    /** The move of `AdvanceTask` together with what it does to the
        agreement of task states and columns: only the moved task can
        disagree afterwards. */
    method Shift(task: Task, s: TaskState)
      requires Valid() && s != Done
      requires task.id in taskStateTracker && taskStateTracker[task.id] == s && task == TaskAt(task.id)
      requires columnLimit[s + 1] == -1 || |columns[s + 1]| < columnLimit[s + 1]
      modifies this`taskStateTracker, columns
      ensures Valid()
      ensures columns[s] == Without(old(columns[s]), task.id)
      ensures columns[s + 1] == old(columns[s + 1]) + [task]
      ensures forall c :: 0 <= c < 3 && c != s && c != s + 1 ==> columns[c] == old(columns[c])
      ensures taskStateTracker == old(taskStateTracker)[task.id := s + 1]
      ensures old(StatesAgree()) ==> AgreeBut(task)
    {
      ghost var agreed := StatesAgree();
      MoveForward(task, s);
      if agreed {
        forall c, t | 0 <= c < 3 && t in columns[c] && t != task
          ensures t in old(columns[c])
        {
        }
        AgreeMoved(task);
      }
    }

    /** The move of a successful `AdvanceTask`: out of column `s`, to the
        end of column `s + 1`, and the tracker entry follows. */
    method MoveForward(task: Task, s: TaskState)
      requires Valid() && s != Done
      requires task.id in taskStateTracker && taskStateTracker[task.id] == s && task == TaskAt(task.id)
      requires columnLimit[s + 1] == -1 || |columns[s + 1]| < columnLimit[s + 1]
      modifies this`taskStateTracker, columns
      ensures Valid()
      ensures columns[s] == Without(old(columns[s]), task.id)
      ensures columns[s + 1] == old(columns[s + 1]) + [task]
      ensures forall c :: 0 <= c < 3 && c != s && c != s + 1 ==> columns[c] == old(columns[c])
      ensures taskStateTracker == old(taskStateTracker)[task.id := s + 1]
    {
      ghost var before := columns[..];
      ghost var tracker := taskStateTracker;
      var k := FindTask(columns[s], task.id);
      assert columns[s][k] == task by {
        var j :| 0 <= j < |columns[s]| && columns[s][j] == task;
        UniqueIds();
      }
      RemoveFirstAt(columns[s], k);
      WithoutAt(columns[s], k);
      ConsistentMove(before, tracker, taskIDCounter, s, k);
      columns[s], columns[s + 1], taskStateTracker :=
        RemoveFirst(columns[s], task), columns[s + 1] + [task], taskStateTracker[task.id := s + 1];
      assert columns[..] == Moved(before, s, k);
    }

    /** Every task other than `task` is in the state of its column. */
    ghost predicate AgreeBut(task: Task)
      reads this, columns, AllTasks() - {task}
      requires columns.Length == 3
    {
      forall c, t :: 0 <= c < 3 && t in columns[c] && t != task ==> t.state == c
    }

    /** When no task changed and every task other than `task` is in a
        column that held it before, a board whose tasks agreed with their
        columns still does, except perhaps for `task`. */
    twostate lemma AgreeMoved(task: Task)
      requires columns.Length == 3 && old(StatesAgree())
      requires forall c, t :: 0 <= c < 3 && t in columns[c] && t != task ==> t in old(columns[c])
      requires unchanged(old(AllTasks()))
      ensures AgreeBut(task)
    {
      forall c, t | 0 <= c < 3 && t in columns[c] && t != task ensures t.state == c {
        assert t in old(columns[c]);
        assert t in old(AllTasks());
      }
    }

    /** When the other tasks agree with their columns and `task` sits in the
        column of its state, every task does. */
    lemma AgreeFrom(task: Task)
      requires Valid() && AgreeBut(task) && task in columns[task.state]
      ensures StatesAgree()
    {
      UniqueIds();
    }

    /** `GetColumnLimit`: a range error for a bad ordinal, else the limit,
        which is -1 or a bound the column respects. */
    function GetColumnLimit(columnOrdinal: int): (r: Result<int>)
      reads Frame()
      requires Valid()
      ensures r.Success? <==> IsOrdinal(columnOrdinal)
      ensures r.Failure? ==> r.error == OutOfRange
      ensures r.Success? ==>
        && r.value == columnLimit[columnOrdinal] && r.value >= -1
        && (r.value == -1 || |columns[columnOrdinal]| <= r.value)
    {
      match ValidateColumnOrdinal(columnOrdinal)
      case Fail(e) => Failure(e)
      case Pass => Success(columnLimit[columnOrdinal])
    }

    /** `GetColumnName`: "backlog", "in progress" and "done" for 0, 1 and 2,
        a range error otherwise. */
    function GetColumnName(columnOrdinal: int): (r: Result<string>)
      ensures r.Success? <==> IsOrdinal(columnOrdinal)
      ensures r.Failure? ==> r.error == OutOfRange
      ensures columnOrdinal == 0 ==> r == Success("backlog")
      ensures columnOrdinal == 1 ==> r == Success("in progress")
      ensures columnOrdinal == 2 ==> r == Success("done")
    {
      match ValidateColumnOrdinal(columnOrdinal)
      case Fail(e) => Failure(e)
      case Pass => Success(ColumnName(columnOrdinal))
    }

    /** `GetColumn`: a range error for a bad ordinal, else the column, whose
        every task the tracker places in that column. */
    function GetColumn(columnOrdinal: int): (r: Result<seq<Task>>)
      reads Frame()
      requires Valid()
      ensures r.Success? <==> IsOrdinal(columnOrdinal)
      ensures r.Failure? ==> r.error == OutOfRange
      ensures r.Success? ==>
        && r.value == columns[columnOrdinal]
        && forall t :: t in r.value ==>
             t.id in taskStateTracker && taskStateTracker[t.id] == columnOrdinal
    {
      match ValidateColumnOrdinal(columnOrdinal)
      case Fail(e) => Failure(e)
      case Pass =>
        assert forall t :: t in columns[columnOrdinal] ==> t in columns[..][columnOrdinal];
        Success(columns[columnOrdinal])
    }

    /** `LimitColumn`: rejects a bad ordinal, a limit below -1 and a limit
        the column already exceeds; otherwise sets that one limit. */
    method LimitColumn(columnOrdinal: int, limit: int) returns (r: Outcome)
      requires Valid()
      modifies columnLimit
      ensures Valid()
      ensures !IsOrdinal(columnOrdinal) ==> r == Fail(OutOfRange)
      ensures IsOrdinal(columnOrdinal) && limit < -1 ==> r == Fail(InvalidArgument)
      ensures (IsOrdinal(columnOrdinal) && limit > -1 && |columns[columnOrdinal]| > limit)
        ==> r == Fail(LimitReached)
      ensures r.Pass? <==>
        IsOrdinal(columnOrdinal) && limit >= -1 && (limit == -1 || |columns[columnOrdinal]| <= limit)
      ensures columnLimit[..] ==
        if r.Pass? then old(columnLimit[..])[columnOrdinal := limit] else old(columnLimit[..])
      ensures r.Fail? ==> unchanged(Frame())
    {
      var v := ValidateColumnOrdinal(columnOrdinal);
      if v.Fail? {
        return v;
      }
      if limit >= -1 {
        if limit != -1 && |columns[columnOrdinal]| > limit {
          return Fail(LimitReached);
        }
        columnLimit[columnOrdinal] := limit;
        return Pass;
      } else {
        return Fail(InvalidArgument);
      }
    }

    /** `ChangeOwner`: the new owner must be joined; then it becomes the
        owner, the caller is appended to `joined` and the new owner leaves
        it. The board itself does not check that the caller is the owner;
        the invariant survives when it is. */
    method ChangeOwner(currentOwnerEmail: string, newOwnerEmail: string) returns (r: Outcome)
      requires Valid()
      modifies this`owner, this`joined
      ensures r.Fail? || currentOwnerEmail == old(owner) ==> Valid()
      ensures r.Pass? <==> newOwnerEmail in old(joined)
      ensures r.Fail? ==> r.error == InvalidArgument && owner == old(owner) && joined == old(joined)
      ensures r.Pass? ==>
        && owner == newOwnerEmail
        && joined == RemoveFirst(old(joined) + [currentOwnerEmail], newOwnerEmail)
      ensures r.Pass? && currentOwnerEmail == old(owner) ==>
        forall u :: u in joined <==> (u in old(joined) || u == old(owner)) && u != newOwnerEmail
    {
      if newOwnerEmail !in joined {
        return Fail(InvalidArgument);
      }
      ghost var formerOwner := owner;
      owner := newOwnerEmail;
      if currentOwnerEmail == formerOwner {
        NoDuplicatesAppend(joined, currentOwnerEmail);
      }
      joined := joined + [currentOwnerEmail];
      if currentOwnerEmail == formerOwner {
        RemoveFirstNoDuplicates(joined, newOwnerEmail);
      }
      joined := RemoveFirst(joined, newOwnerEmail);
      return Pass;
    }

    /** `JoinBoard`: the owner cannot join, nor can a member join twice;
        otherwise the user is appended to `joined`. */
    method JoinBoard(email: string) returns (r: Outcome)
      requires Valid()
      modifies this`joined
      ensures Valid()
      ensures email == owner ==> r == Fail(Permission)
      ensures email != owner && email in old(joined) ==> r == Fail(InvalidArgument)
      ensures r.Pass? <==> email != owner && email !in old(joined)
      ensures joined == if r.Pass? then old(joined) + [email] else old(joined)
    {
      if owner == email {
        return Fail(Permission);
      }
      if email in joined {
        return Fail(InvalidArgument);
      }
      NoDuplicatesAppend(joined, email);
      joined := joined + [email];
      return Pass;
    }

    /** `LeaveBoard`: only a member can leave; the member is removed and
        every backlog or in-progress task assigned to it becomes unassigned.
        Done tasks and the columns themselves are untouched. */
    method LeaveBoard(email: string) returns (r: Outcome)
      requires Valid()
      modifies this`joined, ColumnTasks(Backlog)`assignee, ColumnTasks(InProgress)`assignee
      ensures Valid()
      ensures r.Pass? <==> email in old(joined)
      ensures r.Fail? ==> r.error == InvalidArgument && unchanged(Frame())
      ensures joined == if r.Pass? then RemoveFirst(old(joined), email) else old(joined)
      ensures r.Pass? ==> email !in joined
      ensures forall c, t :: 0 <= c < 2 && t in columns[c] ==>
        t.assignee == if r.Pass? then Reassigned(old(t.assignee), email) else old(t.assignee)
      ensures forall t :: t in columns[Done] ==> t.assignee == old(t.assignee)
      ensures forall t :: t in old(AllTasks()) ==>
        && t.state == old(t.state) && t.title == old(t.title)
        && t.description == old(t.description) && t.dueDate == old(t.dueDate)
    {
      if email !in joined {
        return Fail(InvalidArgument);
      }
      RemoveFirstNoDuplicates(joined, email);
      joined := RemoveFirst(joined, email);
      UniqueIds();
      Unassign(email, Backlog);
      Unassign(email, InProgress);
      r := Pass;
    }

    /** One `foreach` of `LeaveBoard`: every task of column `c` assigned to
        `email` becomes unassigned, and no other field changes. */
    method Unassign(email: string, c: TaskState)
      requires Valid()
      modifies ColumnTasks(c)`assignee
      ensures forall t :: t in columns[c] ==> t.assignee == Reassigned(old(t.assignee), email)
      ensures forall t :: t in old(AllTasks()) ==>
        && t.state == old(t.state) && t.title == old(t.title)
        && t.description == old(t.description) && t.dueDate == old(t.dueDate)
    {
      var column := columns[c];
      assert NoDuplicates(IdsOf(columns[..][c]));
      var i := 0;
      while i < |column|
        invariant 0 <= i <= |column|
        invariant forall k :: 0 <= k < i ==>
          column[k].assignee == Reassigned(old(column[k].assignee), email)
        invariant forall k :: i <= k < |column| ==> column[k].assignee == old(column[k].assignee)
        invariant forall t :: t in old(AllTasks()) ==>
          && t.state == old(t.state) && t.title == old(t.title)
          && t.description == old(t.description) && t.dueDate == old(t.dueDate)
      {
        var task := column[i];
        forall k | 0 <= k < |column| && k != i ensures column[k] != task {
          assert IdsOf(column)[k] != IdsOf(column)[i];
        }
        if task.assignee == email {
          task.assignee := Unassigned;
        }
        i := i + 1;
      }
    }
  }
}
