/** Definitions shared by the task, board and controller models: the three
    workflow columns, the kinds of failure the business layer raises, and
    the column-ordinal check that the board and the controller both make. */
module Kanban {

  /** The `TaskStates` enumeration: backlog (0), in progress (1), done (2).
      Column ordinals and task states are the same numbers. */
  type TaskState = s: int | 0 <= s <= 2

  const Backlog: TaskState := 0
  const InProgress: TaskState := 1
  const Done: TaskState := 2

  /** The assignee of a task that nobody has taken yet. */
  const Unassigned: string := "unAssigned"

  /** The exception kinds of the business layer, without their messages. */
  datatype Error =
    | NotFound        // NoSuchElementException: task, board or column entry missing
    | OutOfRange      // IndexOutOfRangeException: column ordinal outside 0..2
    | InvalidArgument // ArgumentException: bad title, description, date or limit, task done, membership
    | LimitReached    // ArgumentException raised by a work-in-progress limit
    | Permission      // AccessViolationException: not the assignee, not the owner
    | AlreadyExists   // ElementAlreadyExistsException
    | Fatal           // OperationCanceledException: tracker and columns diverged
    | UnknownUser     // UserDoesNotExistException
    | NotLoggedIn     // UserNotLoggedInException

  /** The outcome of an operation that returns a value or throws. */
  datatype Result<+T> = Success(value: T) | Failure(error: Error)

  /** The outcome of an operation that returns nothing or throws. */
  datatype Outcome = Pass | Fail(error: Error)

  predicate IsOrdinal(columnOrdinal: int) {
    0 <= columnOrdinal <= 2
  }

  /** `ValidateColumnOrdinal`: a range error exactly for ordinals outside 0..2. */
  function ValidateColumnOrdinal(columnOrdinal: int): (r: Outcome)
    ensures r.Pass? <==> Backlog <= columnOrdinal <= Done
    ensures r.Fail? ==> r.error == OutOfRange
  {
    if columnOrdinal < Backlog || columnOrdinal > Done then Fail(OutOfRange) else Pass
  }

  /** The printed name of a column: the enumeration name, except that
      ordinal 1 is written as two words. */
  function ColumnName(c: TaskState): (name: string)
    ensures |name| > 0
    ensures ' ' in name <==> c == InProgress
  {
    match c
    case 0 => "backlog"
    case 1 => "in progress"
    case 2 => "done"
  }

  /** The three names are distinct, so a name determines its column. */
  lemma ColumnNamesDistinct(c: TaskState, d: TaskState)
    ensures ColumnName(c) == ColumnName(d) <==> c == d
  {
    if c != d {
      var n, m := ColumnName(c), ColumnName(d);
      assert n[0] != m[0] || |n| != |m|;
    }
  }

  /** No element occurs twice. */
  predicate NoDuplicates<T(==)>(s: seq<T>) {
    forall j, k :: 0 <= j < k < |s| ==> s[j] != s[k]
  }

  /** `LinkedList.Remove(x)`: drops the first occurrence of `x`, if any. */
  function RemoveFirst<T(==)>(s: seq<T>, x: T): (r: seq<T>)
    ensures x in s ==> |r| == |s| - 1
    ensures x !in s ==> r == s
    ensures forall y :: y in r ==> y in s
  {
    if s == [] then []
    else if s[0] == x then s[1..]
    else [s[0]] + RemoveFirst(s[1..], x)
  }

  /** Removing the first occurrence cuts out exactly the element at its
      first position and keeps the others in order. */
  lemma {:induction false} RemoveFirstAt<T>(s: seq<T>, k: int)
    requires 0 <= k < |s| && forall j :: 0 <= j < k ==> s[j] != s[k]
    ensures RemoveFirst(s, s[k]) == s[..k] + s[k+1..]
  {
    if k > 0 {
      assert s[1..][k-1] == s[k];
      RemoveFirstAt(s[1..], k - 1);
      assert s[1..][..k-1] == s[1..k] && s[1..][k-1+1..] == s[k+1..];
      assert s[..k] == [s[0]] + s[1..k];
    }
  }

  /** Appending a new element keeps a sequence free of duplicates. */
  lemma NoDuplicatesAppend<T>(s: seq<T>, x: T)
    requires NoDuplicates(s) && x !in s
    ensures NoDuplicates(s + [x])
  {
    forall j, k | 0 <= j < k < |s + [x]| ensures (s + [x])[j] != (s + [x])[k] {
      assert (s + [x])[j] == s[j];
      if k == |s| {
        assert s[j] in s;
      } else {
        assert (s + [x])[k] == s[k];
      }
    }
  }

  /** Cutting out one position keeps a sequence free of duplicates. */
  lemma NoDuplicatesCut<T>(s: seq<T>, k: int)
    requires NoDuplicates(s) && 0 <= k < |s|
    ensures NoDuplicates(s[..k] + s[k+1..])
  {
    var cut := s[..k] + s[k+1..];
    forall i, j | 0 <= i < j < |cut| ensures cut[i] != cut[j] {
      var i' := if i < k then i else i + 1;
      var j' := if j < k then j else j + 1;
      assert cut[i] == s[i'] && cut[j] == s[j'];
    }
  }

  /** On a sequence without duplicates, removing `x` removes every copy of
      it and nothing else, and leaves no duplicates behind. */
  lemma {:induction false} RemoveFirstNoDuplicates<T>(s: seq<T>, x: T)
    requires NoDuplicates(s)
    ensures NoDuplicates(RemoveFirst(s, x))
    ensures forall y :: y in RemoveFirst(s, x) <==> y in s && y != x
  {
    if s != [] {
      assert NoDuplicates(s[1..]) by {
        forall j, k | 0 <= j < k < |s[1..]| ensures s[1..][j] != s[1..][k] {
          assert s[1..][j] == s[j+1] && s[1..][k] == s[k+1];
        }
      }
      if s[0] != x {
        RemoveFirstNoDuplicates(s[1..], x);
        var r := RemoveFirst(s[1..], x);
        assert s[0] !in s[1..] by {
          forall k | 0 <= k < |s[1..]| ensures s[1..][k] != s[0] {
            assert s[1..][k] == s[k+1];
          }
        }
        forall j, k | 0 <= j < k < |[s[0]] + r| ensures ([s[0]] + r)[j] != ([s[0]] + r)[k] {
          if j == 0 {
            assert ([s[0]] + r)[k] == r[k-1];
            assert r[k-1] in r;
          } else {
            assert ([s[0]] + r)[j] == r[j-1] && ([s[0]] + r)[k] == r[k-1];
          }
        }
      } else {
        assert s[0] !in s[1..] by {
          forall k | 0 <= k < |s[1..]| ensures s[1..][k] != s[0] {
            assert s[1..][k] == s[k+1];
          }
        }
        assert s == [s[0]] + s[1..];
      }
    }
  }
}
