/** The state machine of the `TodoApp` component (src/App.jsx): its six state
    hooks, each event handler as one atomic transition, the filtered view,
    and the edit session (Idle / Editing(id)) that sits on top. */
module TodoApp {
  import opened Seqs
  import opened Text
  import opened Tasks

  /** The component's state hooks: the task list, the two input buffers of
      the add form, the show-completed flag and the edit session. */
  datatype State = State(
    tasks: seq<Task>,
    taskText: string,
    categoryText: string,
    showCompleted: bool,
    editTaskId: Option<Id>,
    editTaskText: string)

  /** The hooks' initial values. */
  function Initial(): State {
    State([], [], [], true, None, [])
  }

  /** The edit session, seen as a two-state machine. */
  datatype EditMode = Idle | Editing(id: Id)

  function Mode(s: State): EditMode {
    match s.editTaskId
    case None => Idle
    case Some(id) => Editing(id)
  }

  // ----- handlers -----

  /** The add button. Text that trims to empty is ignored without a trace;
      otherwise one task is appended carrying the fresh id `id` (the clock
      value in the application), the raw untrimmed text, the category as
      typed and `completed = false`, and both input buffers are cleared. */
  function AddTask(s: State, id: Id): (r: State)
    ensures !HasContent(s.taskText) ==> r == s
    ensures HasContent(s.taskText) ==>
              && |r.tasks| == |s.tasks| + 1
              && r.tasks[..|s.tasks|] == s.tasks
              && r.tasks[|s.tasks|] == Task(id, s.taskText, s.categoryText, false)
              && r.taskText == [] && r.categoryText == []
              && r.showCompleted == s.showCompleted
              && r.editTaskId == s.editTaskId && r.editTaskText == s.editTaskText
  {
    TrimEmptyIff(s.taskText);
    if Trim(s.taskText) != [] then
      s.(tasks := s.tasks + [Task(id, s.taskText, s.categoryText, false)],
         taskText := [], categoryText := [])
    else
      s
  }

  /** The remove button: keeps, in order, exactly the tasks with another id. */
  function RemoveTask(s: State, id: Id): (r: State)
    ensures r == s.(tasks := r.tasks)
    ensures SubsequenceOf(r.tasks, s.tasks)
    ensures forall t :: multiset(r.tasks)[t] == if t.id != id then multiset(s.tasks)[t] else 0
    ensures forall t :: t in r.tasks <==> t in s.tasks && t.id != id
    ensures !HasId(s.tasks, id) <==> r.tasks == s.tasks
    ensures |r.tasks| <= |s.tasks|
  {
    s.(tasks := WithoutId(s.tasks, id))
  }

  /** The completed checkbox: flips `completed` on the tasks with id `id`;
      positions, ids, texts and categories stay as they were. */
  function ToggleCompleted(s: State, id: Id): (r: State)
    ensures r == s.(tasks := r.tasks)
    ensures |r.tasks| == |s.tasks| && Ids(r.tasks) == Ids(s.tasks)
    ensures forall i :: 0 <= i < |s.tasks| ==>
              && r.tasks[i].text == s.tasks[i].text
              && r.tasks[i].category == s.tasks[i].category
              && (r.tasks[i].completed <==> (s.tasks[i].completed != (s.tasks[i].id == id)))
  {
    s.(tasks := ToggleWhere(s.tasks, id))
  }

  /** The edit button: when a task with id `id` exists, the session switches
      to it (replacing any earlier session) with the text of the first such
      task as draft; otherwise nothing changes. The list is never touched. */
  function BeginEdit(s: State, id: Id): (r: State)
    ensures r.tasks == s.tasks
    ensures !HasId(s.tasks, id) ==> r == s
    ensures HasId(s.tasks, id) ==>
              && r == s.(editTaskId := Some(id), editTaskText := r.editTaskText)
              && exists i :: 0 <= i < |s.tasks| && s.tasks[i].id == id
                             && (forall j :: 0 <= j < i ==> s.tasks[j].id != id)
                             && r.editTaskText == s.tasks[i].text
  {
    match FindFirst(s.tasks, id)
    case None => s
    case Some(k) => s.(editTaskId := Some(id), editTaskText := s.tasks[k].text)
  }

  /** The save button: the tasks with the session's id take the draft as their
      text, blank or not; then the session is cleared. Without a session no
      task matches and only the clearing happens. */
  function SaveEdit(s: State): (r: State)
    ensures Mode(r) == Idle && r.editTaskText == []
    ensures r.taskText == s.taskText && r.categoryText == s.categoryText
    ensures r.showCompleted == s.showCompleted
    ensures |r.tasks| == |s.tasks| && Ids(r.tasks) == Ids(s.tasks)
    ensures forall i :: 0 <= i < |s.tasks| ==>
              && r.tasks[i].text == (if Mode(s) == Editing(s.tasks[i].id) then s.editTaskText
                                     else s.tasks[i].text)
              && r.tasks[i].category == s.tasks[i].category
              && r.tasks[i].completed == s.tasks[i].completed
  {
    var tasks := match s.editTaskId
      case None => s.tasks
      case Some(id) => RetextWhere(s.tasks, id, s.editTaskText);
    s.(tasks := tasks, editTaskId := None, editTaskText := [])
  }

  /** The cancel button: the session is cleared and nothing else changes. */
  function CancelEdit(s: State): (r: State)
    ensures Mode(r) == Idle && r.editTaskText == []
    ensures r == s.(editTaskId := r.editTaskId, editTaskText := r.editTaskText)
  {
    s.(editTaskId := None, editTaskText := [])
  }

  /** The show-completed checkbox negates the flag and changes nothing else. */
  function ToggleShowCompleted(s: State): (r: State)
    ensures r.showCompleted == !s.showCompleted
    ensures r == s.(showCompleted := r.showCompleted)
  {
    s.(showCompleted := !s.showCompleted)
  }

  /** The list that is rendered: all tasks when the flag is set, otherwise the
      tasks not yet completed, in their stored order. */
  function VisibleTasks(s: State): (r: seq<Task>)
    ensures s.showCompleted ==> r == s.tasks
    ensures !s.showCompleted ==>
              && SubsequenceOf(r, s.tasks)
              && (forall t :: multiset(r)[t] == if t.completed then 0 else multiset(s.tasks)[t])
              && (forall i :: 0 <= i < |r| ==> !r[i].completed)
              && (forall t :: t in s.tasks && !t.completed ==> t in r)
  {
    if s.showCompleted then s.tasks else Pending(s.tasks)
  }

  // ----- events -----

  /** The user actions the rendered component offers. */
  datatype Event =
    | TaskInput(text: string)       // typing in the new-task field
    | CategoryInput(text: string)   // typing in the category field
    | AddClick(newId: Id)           // the add button; `newId` is the clock value
    | ShowCompletedClick            // the show-completed checkbox
    | CompletedClick(id: Id)        // a task's completed checkbox
    | DraftInput(text: string)      // typing in the edit field
    | SaveClick                     // the save button of the edit field
    | CancelClick                   // the cancel button of the edit field
    | EditClick(id: Id)             // a task's edit button
    | RemoveClick(id: Id)           // a task's remove button

  /** Dispatches an event to its handler or input setter. Only the add,
      remove, completed and save handlers write the list; only the checkbox
      writes the flag; typing changes exactly the buffer typed into. */
  function Step(s: State, e: Event): (r: State)
    ensures r.tasks != s.tasks ==> e.AddClick? || e.RemoveClick? || e.CompletedClick? || e.SaveClick?
    ensures r.showCompleted != s.showCompleted <==> e.ShowCompletedClick?
    ensures e.TaskInput? ==> r == s.(taskText := e.text)
    ensures e.CategoryInput? ==> r == s.(categoryText := e.text)
    ensures e.DraftInput? ==> r == s.(editTaskText := e.text)
  {
    match e
    case TaskInput(text) => s.(taskText := text)
    case CategoryInput(text) => s.(categoryText := text)
    case AddClick(id) => AddTask(s, id)
    case ShowCompletedClick => ToggleShowCompleted(s)
    case CompletedClick(id) => ToggleCompleted(s, id)
    case DraftInput(text) => s.(editTaskText := text)
    case SaveClick => SaveEdit(s)
    case CancelClick => CancelEdit(s)
    case EditClick(id) => BeginEdit(s, id)
    case RemoveClick(id) => RemoveTask(s, id)
  }

  function Run(s: State, es: seq<Event>): State
    decreases |es|
  {
    if es == [] then s else Run(Step(s, es[0]), es[1..])
  }

  /** The edit field (with its save and cancel buttons) is rendered only in
      the row of a visible task whose id is the session's id. */
  predicate EditorShown(s: State) {
    s.editTaskId.Some? && HasId(VisibleTasks(s), s.editTaskId.value)
  }

  /** Whether the rendered component can produce `e` in state `s`: per-task
      controls exist only for visible tasks, the edit button only in rows not
      being edited, the edit controls only while the editor is shown, and a
      new id is assumed distinct from every stored one (the clock is not
      guaranteed to provide that). Every control it offers acts on a stored
      task, and the edit controls only exist during a session. */
  predicate Enabled(s: State, e: Event)
    ensures Enabled(s, e) && (e.CompletedClick? || e.EditClick? || e.RemoveClick?) ==> HasId(s.tasks, e.id)
    ensures Enabled(s, e) && e.EditClick? ==> Mode(s) != Editing(e.id)
    ensures Enabled(s, e) && (e.DraftInput? || e.SaveClick? || e.CancelClick?) ==>
              Mode(s).Editing? && HasId(s.tasks, Mode(s).id)
    ensures Enabled(s, e) && e.AddClick? ==> !HasId(s.tasks, e.newId)
  {
    VisibleIdsStored(s);
    match e
    case AddClick(id) => !HasId(s.tasks, id)
    case CompletedClick(id) => HasId(VisibleTasks(s), id)
    case EditClick(id) => HasId(VisibleTasks(s), id) && s.editTaskId != Some(id)
    case RemoveClick(id) => HasId(VisibleTasks(s), id)
    case DraftInput(_) => EditorShown(s)
    case SaveClick => EditorShown(s)
    case CancelClick => EditorShown(s)
    case _ => true
  }

  /** Every id in the view is the id of a stored task. */
  lemma VisibleIdsStored(s: State)
    ensures forall id :: HasId(VisibleTasks(s), id) ==> HasId(s.tasks, id)
  {
    forall id | HasId(VisibleTasks(s), id) ensures HasId(s.tasks, id) {
      var v := VisibleTasks(s);
      var i :| 0 <= i < |v| && v[i].id == id;
      assert v[i] in v;
      var j :| 0 <= j < |s.tasks| && s.tasks[j] == v[i];
    }
  }

  ghost predicate Admissible(s: State, es: seq<Event>)
    decreases |es|
  {
    es == [] || (Enabled(s, es[0]) && Admissible(Step(s, es[0]), es[1..]))
  }

  /** The invariant of the component: ids are unique and an idle session has
      an empty draft. */
  ghost predicate Consistent(s: State) {
    && UniqueIds(s.tasks)
    && (s.editTaskId.None? ==> s.editTaskText == [])
  }

  // ----- lemmas -----

  /** The component starts with no task, all tasks shown and no session. */
  lemma InitialState()
    ensures VisibleTasks(Initial()) == []
    ensures Initial().showCompleted
    ensures Mode(Initial()) == Idle
    ensures Consistent(Initial())
  {
  }

  lemma SameIdsKeepUnique(a: seq<Task>, b: seq<Task>)
    requires UniqueIds(a) && Ids(a) == Ids(b)
    ensures UniqueIds(b)
  {
    forall i, j | 0 <= i < j < |b| ensures b[i].id != b[j].id {
      assert Ids(b)[i] == a[i].id && Ids(b)[j] == a[j].id;
    }
  }

  lemma AppendFreshKeepsUnique(ts: seq<Task>, t: Task)
    requires UniqueIds(ts) && !HasId(ts, t.id)
    ensures UniqueIds(ts + [t])
  {
    var r := ts + [t];
    forall i, j | 0 <= i < j < |r| ensures r[i].id != r[j].id {
      if j == |ts| {
        assert r[i] == ts[i];
      }
    }
  }

  /** Every event the component offers keeps it consistent. */
  lemma StepKeepsConsistent(s: State, e: Event)
    requires Consistent(s) && Enabled(s, e)
    ensures Consistent(Step(s, e))
  {
    match e
    case AddClick(id) =>
      if HasContent(s.taskText) {
        AppendFreshKeepsUnique(s.tasks, Task(id, s.taskText, s.categoryText, false));
        assert s.tasks + [Task(id, s.taskText, s.categoryText, false)] == AddTask(s, id).tasks;
      }
    case RemoveClick(id) =>
      FilterKeepsIdsUnique(s.tasks, (t: Task) => t.id != id);
    case CompletedClick(id) =>
      SameIdsKeepUnique(s.tasks, Step(s, e).tasks);
    case SaveClick =>
      SameIdsKeepUnique(s.tasks, Step(s, e).tasks);
    case _ =>
  }

  /** Every run of offered events keeps the component consistent. */
  lemma {:induction false} RunKeepsConsistent(s: State, es: seq<Event>)
    requires Consistent(s) && Admissible(s, es)
    ensures Consistent(Run(s, es))
    decreases |es|
  {
    if es != [] {
      StepKeepsConsistent(s, es[0]);
      RunKeepsConsistent(Step(s, es[0]), es[1..]);
    }
  }

  /** Running two event sequences one after the other is running their concatenation. */
  lemma {:induction false} RunAppend(s: State, a: seq<Event>, b: seq<Event>)
    ensures Run(s, a + b) == Run(Run(s, a), b)
    decreases |a|
  {
    if a == [] {
      assert a + b == b;
    } else {
      assert (a + b)[0] == a[0] && (a + b)[1..] == a[1..] + b;
      RunAppend(Step(s, a[0]), a[1..], b);
    }
  }

  /** Running three events is applying their steps in order. */
  lemma RunThree(s: State, a: Event, b: Event, c: Event)
    ensures Run(s, [a, b, c]) == Step(Step(Step(s, a), b), c)
  {
    var es := [a, b, c];
    assert es[1..] == [b, c] && [b, c][1..] == [c] && [c][1..] == [];
    assert Run(s, es) == Run(Step(s, a), [b, c]);
    assert Run(Step(s, a), [b, c]) == Run(Step(Step(s, a), b), [c]);
  }

  /** A task created and then removed under a fresh id leaves the list as it was. */
  lemma AddThenRemove(s: State, id: Id)
    requires !HasId(s.tasks, id)
    ensures RemoveTask(AddTask(s, id), id).tasks == s.tasks
  {
    if HasContent(s.taskText) {
      var t := Task(id, s.taskText, s.categoryText, false);
      assert AddTask(s, id).tasks == s.tasks + [t];
      RemoveAppended(s.tasks, t);
    }
  }

  /** Toggling the same task twice restores the list. */
  lemma ToggleCompletedTwice(s: State, id: Id)
    ensures ToggleCompleted(ToggleCompleted(s, id), id) == s
  {
    ToggleTwice(s.tasks, id);
  }

  /** Toggling an id no task carries changes nothing. */
  lemma ToggleCompletedAbsent(s: State, id: Id)
    requires !HasId(s.tasks, id)
    ensures ToggleCompleted(s, id) == s
  {
    ToggleAbsent(s.tasks, id);
  }

  /** Clicking the show-completed checkbox twice restores the state. */
  lemma ShowCompletedTwice(s: State)
    ensures ToggleShowCompleted(ToggleShowCompleted(s)) == s
  {
  }

  /** Beginning an edit and cancelling it leaves every task as it was and the
      session idle. */
  lemma BeginThenCancel(s: State, id: Id)
    ensures CancelEdit(BeginEdit(s, id)).tasks == s.tasks
    ensures Mode(CancelEdit(BeginEdit(s, id))) == Idle
  {
  }

  /** Beginning an edit of an existing task and saving the untouched draft
      leaves every task as it was, provided ids are unique. */
  lemma BeginThenSave(s: State, id: Id)
    requires UniqueIds(s.tasks) && HasId(s.tasks, id)
    ensures SaveEdit(BeginEdit(s, id)).tasks == s.tasks
  {
    RetextWithOwnText(s.tasks, id);
  }

  /** Without unique ids the previous lemma fails: the draft is the text of
      the first task with the id, and saving writes it into all of them. */
  lemma BeginThenSaveWithDuplicateIds()
    ensures var s := Initial().(tasks := [Task(1, "a", [], false), Task(1, "b", [], false)]);
            SaveEdit(BeginEdit(s, 1)).tasks == [Task(1, "a", [], false), Task(1, "a", [], false)]
  {
    var s := Initial().(tasks := [Task(1, "a", [], false), Task(1, "b", [], false)]);
    assert FindFirst(s.tasks, 1) == Some(0);
    var r := SaveEdit(BeginEdit(s, 1)).tasks;
    assert r[0].text == "a" && r[1].text == "a";
  }

  /** Editing a task: after the edit click, typing `text` and the save click,
      the tasks with that id carry `text` (even an empty one, unlike an added
      task), every other field and task is unchanged and the session is idle. */
  lemma EditRoundTrip(s: State, id: Id, text: string)
    requires HasId(s.tasks, id)
    ensures var r := Run(s, [EditClick(id), DraftInput(text), SaveClick]);
            && Mode(r) == Idle
            && |r.tasks| == |s.tasks|
            && forall i :: 0 <= i < |s.tasks| ==>
                 r.tasks[i] == if s.tasks[i].id == id then s.tasks[i].(text := text) else s.tasks[i]
  {
    RunThree(s, EditClick(id), DraftInput(text), SaveClick);
    var s2 := BeginEdit(s, id).(editTaskText := text);
    assert Mode(s2) == Editing(id);
    var r := SaveEdit(s2);
    forall i | 0 <= i < |s.tasks|
      ensures r.tasks[i] == if s.tasks[i].id == id then s.tasks[i].(text := text) else s.tasks[i]
    {
    }
  }

  /** Removing the task being edited turns a later save into a mere clearing
      of the session. */
  lemma SaveAfterRemovingEdited(s: State, id: Id)
    requires s.editTaskId == Some(id)
    ensures SaveEdit(RemoveTask(s, id)).tasks == RemoveTask(s, id).tasks
  {
    RetextAbsent(RemoveTask(s, id).tasks, id, s.editTaskText);
  }

  /** Each event moves the edit session only along the edges Idle -> Editing(id)
      and Editing(id) -> Editing(id') (edit click on an existing task) and
      Editing(id) -> Idle (save or cancel); every other event leaves it. */
  lemma EditModeTransitions(s: State, e: Event)
    ensures var m := Mode(Step(s, e));
            match e
            case EditClick(id) => m == (if HasId(s.tasks, id) then Editing(id) else Mode(s))
            case SaveClick => m == Idle
            case CancelClick => m == Idle
            case _ => m == Mode(s)
  {
  }

  // ----- submitting the add form several times -----

  /** One use of the add form: type a text and a category, then click add. */
  datatype Submission = Submission(text: string, category: string, id: Id)

  predicate Accepted(sub: Submission) {
    HasContent(sub.text)
  }

  function Submit(subs: seq<Submission>): seq<Event>
    decreases |subs|
  {
    if subs == [] then []
    else [TaskInput(subs[0].text), CategoryInput(subs[0].category), AddClick(subs[0].id)]
         + Submit(subs[1..])
  }

  function Created(sub: Submission): Task {
    Task(sub.id, sub.text, sub.category, false)
  }

  /** The tasks a series of submissions creates. */
  function CreatedAll(subs: seq<Submission>): seq<Task>
    decreases |subs|
  {
    if subs == [] then []
    else (if Accepted(subs[0]) then [Created(subs[0])] else []) + CreatedAll(subs[1..])
  }

  /** One submission appends its task exactly when its text has content. */
  lemma SubmitOne(s: State, sub: Submission)
    ensures Run(s, Submit([sub])).tasks
            == s.tasks + (if Accepted(sub) then [Created(sub)] else [])
  {
    var three := [TaskInput(sub.text), CategoryInput(sub.category), AddClick(sub.id)];
    assert [sub][1..] == [] && three + [] == three;
    assert Submit([sub]) == three;
    RunThree(s, TaskInput(sub.text), CategoryInput(sub.category), AddClick(sub.id));
    var typed := s.(taskText := sub.text, categoryText := sub.category);
    assert Run(s, Submit([sub])) == AddTask(typed, sub.id);
    if Accepted(sub) {
      assert AddTask(typed, sub.id).tasks == s.tasks + [Created(sub)];
    } else {
      assert s.tasks + [] == s.tasks;
    }
  }

  lemma SubmitCons(subs: seq<Submission>)
    requires subs != []
    ensures Submit(subs) == Submit([subs[0]]) + Submit(subs[1..])
  {
    assert [subs[0]][1..] == [];
  }

  /** A series of submissions appends one task per submission whose text has
      content, in submission order; the other submissions add nothing. */
  lemma {:induction false} SubmitAll(s: State, subs: seq<Submission>)
    ensures Run(s, Submit(subs)).tasks == s.tasks + CreatedAll(subs)
    decreases |subs|
  {
    if subs == [] {
      assert s.tasks + [] == s.tasks;
    } else {
      var sub := subs[0];
      SubmitCons(subs);
      RunAppend(s, Submit([sub]), Submit(subs[1..]));
      var s1 := Run(s, Submit([sub]));
      SubmitOne(s, sub);
      SubmitAll(s1, subs[1..]);
      var head := if Accepted(sub) then [Created(sub)] else [];
      assert s.tasks + head + CreatedAll(subs[1..]) == s.tasks + (head + CreatedAll(subs[1..]));
    }
  }

  /** The number of tasks created is the number of submissions with content. */
  lemma {:induction false} CreatedCount(subs: seq<Submission>)
    ensures |CreatedAll(subs)| == |Filter(subs, Accepted)|
    decreases |subs|
  {
    if subs != [] {
      CreatedCount(subs[1..]);
    }
  }

  /** The worked example: add "Buy milk" in "Shopping", mark it completed,
      hide completed tasks, and nothing is shown. */
  lemma BuyMilk(id: Id)
    ensures var s := Run(Initial(), [TaskInput("Buy milk"), CategoryInput("Shopping"), AddClick(id)]);
            && s.tasks == [Task(id, "Buy milk", "Shopping", false)]
            && Step(s, CompletedClick(id)).tasks == [Task(id, "Buy milk", "Shopping", true)]
            && VisibleTasks(Step(Step(s, CompletedClick(id)), ShowCompletedClick)) == []
  {
    assert !IsWhitespace("Buy milk"[0]);
    RunThree(Initial(), TaskInput("Buy milk"), CategoryInput("Shopping"), AddClick(id));
  }
}
