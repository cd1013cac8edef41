/** The business-layer `Task`: a record whose setters are gated by the
    caller being the assignee, by the task not being done and by field
    validation. Dates are day numbers; "today" is a parameter. */
module Tasks {
  import opened Kanban

  const MaxTitle := 50
  const MinTitle := 1
  const MaxDescription := 300

  predicate ValidTitle(title: string) {
    MinTitle <= |title| <= MaxTitle
  }

  predicate ValidDescription(description: string) {
    |description| <= MaxDescription
  }

  /** What the validating constructor accepts. */
  predicate ValidFields(title: string, description: string, dueDate: int, today: int) {
    ValidTitle(title) && ValidDescription(description) && dueDate >= today
  }

  /** The state a task moves to when it advances: one step, never past done. */
  function Advanced(s: TaskState): (t: TaskState)
    requires s != Done
    ensures t == s + 1
  {
    s + 1
  }

  class Task {
    const id: int
    const creationTime: int
    var title: string
    var description: string
    var dueDate: int
    var state: TaskState
    var assignee: string

    /** The field constraints that every operation of the class keeps. */
    ghost predicate Valid()
      reads this
    {
      ValidTitle(title) && ValidDescription(description)
    }

    /** The checked part of the constructor: only fields that passed
        validation reach it. */
    constructor (id: int, title: string, dueDate: int, description: string, today: int)
      requires ValidFields(title, description, dueDate, today)
      ensures Valid()
      ensures this.id == id && this.title == title && this.dueDate == dueDate
      ensures this.description == description
      ensures assignee == Unassigned && creationTime == today && state == Backlog
    {
      this.id := id;
      this.title := title;
      this.dueDate := dueDate;
      this.description := description;
      assignee := Unassigned;
      creationTime := today;
      state := Backlog;
    }

    /** `new Task(id, title, dueDate, description)`: rejects an empty or
        over-long title, an over-long description and a past due date;
        otherwise a fresh task in the backlog, unassigned, created today. */
    static method Create(id: int, title: string, dueDate: int, description: string, today: int)
      returns (r: Result<Task>)
      ensures r.Success? <==> ValidFields(title, description, dueDate, today)
      ensures r.Failure? ==> r.error == InvalidArgument
      ensures r.Success? ==>
        && fresh(r.value) && r.value.Valid()
        && r.value.id == id && r.value.title == title && r.value.dueDate == dueDate
        && r.value.description == description && r.value.assignee == Unassigned
        && r.value.creationTime == today && r.value.state == Backlog
    {
      if |title| < MinTitle {
        return Failure(InvalidArgument);
      }
      if |title| > MaxTitle {
        return Failure(InvalidArgument);
      }
      if |description| > MaxDescription {
        return Failure(InvalidArgument);
      }
      if dueDate < today {
        return Failure(InvalidArgument);
      }
      var t := new Task(id, title, dueDate, description, today);
      return Success(t);
    }

    /** `AdvanceTask`: fails on a done task, then on a caller who is not the
        assignee; otherwise the state moves exactly one column forward. */
    method AdvanceTask(email: string) returns (r: Outcome)
      modifies this`state
      ensures old(state) == Done ==> r == Fail(InvalidArgument)
      ensures old(state) != Done && old(assignee) != email ==> r == Fail(Permission)
      ensures r.Pass? <==> old(state) != Done && old(assignee) == email
      ensures r.Pass? ==> state == Advanced(old(state))
      ensures r.Fail? ==> state == old(state)
    {
      if state == Done {
        return Fail(InvalidArgument);
      }
      if assignee != email {
        return Fail(Permission);
      }
      state := state + 1;
      return Pass;
    }

    /** `AssignTask`: fails on a done task; then unless the caller is the
        assignee or the task is unassigned; then when the caller, already
        the assignee, names itself again. Otherwise the assignee changes. */
    method AssignTask(email: string, emailAssignee: string) returns (r: Outcome)
      requires Valid()
      modifies this`assignee
      ensures Valid()
      ensures old(state) == Done ==> r == Fail(InvalidArgument)
      ensures old(state) != Done && old(assignee) != email && old(assignee) != Unassigned
        ==> r == Fail(Permission)
      ensures old(state) != Done && old(assignee) == email && email == emailAssignee
        ==> r == Fail(AlreadyExists)
      ensures r.Pass? <==>
        && old(state) != Done
        && (old(assignee) == email || old(assignee) == Unassigned)
        && !(old(assignee) == email && email == emailAssignee)
      ensures assignee == if r.Pass? then emailAssignee else old(assignee)
    {
      if state == Done {
        return Fail(InvalidArgument);
      }
      if assignee != email && assignee != Unassigned {
        return Fail(Permission);
      }
      if assignee == email && email == emailAssignee {
        return Fail(AlreadyExists);
      }
      assignee := emailAssignee;
      return Pass;
    }

    /** `UpdateDueDate`: assignee only, not on a done task, not in the past. */
    method UpdateDueDate(email: string, newDueDate: int, today: int) returns (r: Outcome)
      requires Valid()
      modifies this`dueDate
      ensures Valid()
      ensures old(assignee) != email ==> r == Fail(Permission)
      ensures old(assignee) == email && old(state) == Done ==> r == Fail(InvalidArgument)
      ensures r.Pass? <==> old(assignee) == email && old(state) != Done && newDueDate >= today
      ensures r.Fail? && old(assignee) == email ==> r.error == InvalidArgument
      ensures dueDate == if r.Pass? then newDueDate else old(dueDate)
    {
      if assignee != email {
        return Fail(Permission);
      }
      if state == Done {
        return Fail(InvalidArgument);
      }
      if newDueDate < today {
        return Fail(InvalidArgument);
      }
      dueDate := newDueDate;
      return Pass;
    }

    /** `UpdateTitle`: assignee only, not on a done task, 1 to 50 characters. */
    method UpdateTitle(email: string, value: string) returns (r: Outcome)
      requires Valid()
      modifies this`title
      ensures Valid()
      ensures old(assignee) != email ==> r == Fail(Permission)
      ensures old(assignee) == email && old(state) == Done ==> r == Fail(InvalidArgument)
      ensures r.Pass? <==> old(assignee) == email && old(state) != Done && ValidTitle(value)
      ensures r.Fail? && old(assignee) == email ==> r.error == InvalidArgument
      ensures title == if r.Pass? then value else old(title)
    {
      if assignee != email {
        return Fail(Permission);
      }
      if state == Done {
        return Fail(InvalidArgument);
      }
      if |value| < MinTitle {
        return Fail(InvalidArgument);
      }
      if |value| > MaxTitle {
        return Fail(InvalidArgument);
      }
      title := value;
      return Pass;
    }

    /** `UpdateDescription`: assignee only, not on a done task, at most 300 characters. */
    method UpdateDescription(email: string, newDescription: string) returns (r: Outcome)
      requires Valid()
      modifies this`description
      ensures Valid()
      ensures old(assignee) != email ==> r == Fail(Permission)
      ensures old(assignee) == email && old(state) == Done ==> r == Fail(InvalidArgument)
      ensures r.Pass? <==>
        old(assignee) == email && old(state) != Done && ValidDescription(newDescription)
      ensures r.Fail? && old(assignee) == email ==> r.error == InvalidArgument
      ensures description == if r.Pass? then newDescription else old(description)
    {
      if assignee != email {
        return Fail(Permission);
      }
      if state == Done {
        return Fail(InvalidArgument);
      }
      if |newDescription| > MaxDescription {
        return Fail(InvalidArgument);
      }
      description := newDescription;
      return Pass;
    }
  }
}
