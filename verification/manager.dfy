/**
  The TaskManager object of app.js as a state machine. Its state is the
  in-memory list together with what the 'azure-tasks' storage slot holds and
  how many times saveTasks has written it; each public method maps a state
  to the next one. The clock reading (Date.now), the formatted creation time
  (toLocaleString) and the user's answer to the confirmation prompt are
  parameters, since they come from outside the object.
 */
module TaskManager {
  import opened Text
  import opened Seqs
  import opened Tasks

  /** `tasks` is `this.tasks`; `stored` is the list last written to the
      storage slot; `saves` counts the writes, so that a method that returns
      before saving is told apart from one that saves an unchanged list. */
  datatype Manager = Manager(tasks: TaskList, stored: TaskList, saves: nat)

  /** The storage slot holds exactly the in-memory list. */
  predicate Synced(m: Manager)
  {
    m.stored == m.tasks
  }

  /** `r` is `m` after one more write of the whole list to storage. */
  predicate SavedOnce(m: Manager, r: Manager)
  {
    Synced(r) && r.saves == m.saves + 1
  }

  /** saveTasks: overwrite the storage slot with the whole list. */
  function SaveTasks(m: Manager): (r: Manager)
    ensures r.tasks == m.tasks
    ensures SavedOnce(m, r)
  {
    m.(stored := m.tasks, saves := m.saves + 1)
  }

  /** addTask(text): input that trims to nothing returns before anything
      happens, so the state, storage included, is unchanged; any other input
      puts one new task in front and saves. */
  function AddTask(m: Manager, text: string, now: int, createdAt: string): (r: Manager)
    ensures AllWhitespace(text) ==> r == m
    ensures !AllWhitespace(text) ==>
      r.tasks == Add(m.tasks, text, now, createdAt) && SavedOnce(m, r)
  {
    if IsBlank(text) then m
    else SaveTasks(m.(tasks := Add(m.tasks, text, now, createdAt)))
  }

  /** toggleTask(id): flip the matching tasks and save, even when no task
      carries `id`. */
  function ToggleTask(m: Manager, id: int): (r: Manager)
    ensures r.tasks == Toggle(m.tasks, id)
    ensures SavedOnce(m, r)
  {
    SaveTasks(m.(tasks := Toggle(m.tasks, id)))
  }

  /** deleteTask(id): drop the matching tasks and save, even when no task
      carries `id`. */
  function DeleteTask(m: Manager, id: int): (r: Manager)
    ensures r.tasks == Delete(m.tasks, id)
    ensures SavedOnce(m, r)
  {
    SaveTasks(m.(tasks := Delete(m.tasks, id)))
  }

  /** clearCompleted: drop the completed tasks and save. */
  function ClearCompletedTasks(m: Manager): (r: Manager)
    ensures r.tasks == ClearCompleted(m.tasks)
    ensures SavedOnce(m, r)
  {
    SaveTasks(m.(tasks := ClearCompleted(m.tasks)))
  }

  /** clearAll: when the user confirms, the list becomes empty and is
      saved; when the user declines, nothing changes and nothing is saved. */
  function ClearAll(m: Manager, confirmed: bool): (r: Manager)
    ensures confirmed ==> r.tasks == [] && SavedOnce(m, r)
    ensures !confirmed ==> r == m
  {
    if confirmed then SaveTasks(m.(tasks := [])) else m
  }

  /** One user intent, with the values the environment supplies for it. */
  datatype Action =
    | AddAction(text: string, now: int, createdAt: string)
    | ToggleAction(id: int)
    | DeleteAction(id: int)
    | ClearCompletedAction
    | ClearAllAction(confirmed: bool)

  /** The state after one intent. */
  function Step(m: Manager, a: Action): Manager
  {
    match a
    case AddAction(text, now, createdAt) => AddTask(m, text, now, createdAt)
    case ToggleAction(id) => ToggleTask(m, id)
    case DeleteAction(id) => DeleteTask(m, id)
    case ClearCompletedAction => ClearCompletedTasks(m)
    case ClearAllAction(confirmed) => ClearAll(m, confirmed)
  }

  /** The state after a sequence of intents, first intent first. */
  function Run(m: Manager, actions: seq<Action>): Manager
    decreases |actions|
  {
    if actions == [] then m else Run(Step(m, actions[0]), actions[1..])
  }

  /** What the system maintains between intents: the texts are well formed
      and storage holds the in-memory list. */
  predicate Invariant(m: Manager)
  {
    WellFormed(m.tasks) && Synced(m)
  }

  /** Every intent keeps the invariant. */
  lemma StepPreservesInvariant(m: Manager, a: Action)
    requires Invariant(m)
    ensures Invariant(Step(m, a))
  {
    match a
    case AddAction(text, now, createdAt) =>
      AddPreservesInvariants(m.tasks, text, now, createdAt);
    case ToggleAction(id) =>
      TogglePreservesInvariants(m.tasks, id);
    case DeleteAction(id) =>
      DeletePreservesInvariants(m.tasks, id);
    case ClearCompletedAction =>
      ClearCompletedPreservesInvariants(m.tasks);
    case ClearAllAction(confirmed) =>
  }

  /** Any sequence of intents keeps the invariant. */
  lemma {:induction false} RunPreservesInvariant(m: Manager, actions: seq<Action>)
    requires Invariant(m)
    ensures Invariant(Run(m, actions))
    decreases |actions|
  {
    if actions != [] {
      StepPreservesInvariant(m, actions[0]);
      RunPreservesInvariant(Step(m, actions[0]), actions[1..]);
    }
  }

  /** Every task id in the list is below `bound`. */
  predicate IdsBelow(tasks: TaskList, bound: int)
  {
    forall i :: 0 <= i < |tasks| ==> tasks[i].id < bound
  }

  /** The intent creates a task: it is an addTask with non-blank input. */
  predicate Creates(a: Action)
  {
    a.AddAction? && !AllWhitespace(a.text)
  }

  /** The clock reading a creating intent consumed, plus one; other intents
      leave the bound where it was. */
  function NextBound(bound: int, a: Action): int
  {
    if Creates(a) then a.now + 1 else bound
  }

  /** The clock readings of the intents that create a task are at least
      `bound` and strictly increase from one creation to the next. Input
      that trims to nothing does not read the clock. */
  predicate ClockAfter(bound: int, actions: seq<Action>)
    decreases |actions|
  {
    actions == []
    || ((Creates(actions[0]) ==> bound <= actions[0].now)
        && ClockAfter(NextBound(bound, actions[0]), actions[1..]))
  }

  /** A creating intent puts its task in front of the old list; any other
      addTask intent leaves the list alone. Stated behind `older`, the tasks
      a run created before, so that runs of intents compose. */
  lemma AddStep(m: Manager, a: Action, older: TaskList)
    requires a.AddAction?
    ensures older + Step(m, a).tasks ==
      (older + (if Creates(a) then [Task(a.now, Trim(a.text), false, a.createdAt)] else [])) + m.tasks
  {
    assert Step(m, a) == AddTask(m, a.text, a.now, a.createdAt);
    if Creates(a) {
      var c := [Task(a.now, Trim(a.text), false, a.createdAt)];
      var whole := older + (c + m.tasks);
      assert forall i :: 0 <= i < |whole| ==> whole[i] == ((older + c) + m.tasks)[i];
    } else {
      assert older + [] == older;
    }
  }

  /** Dropping tasks keeps every id below a bound that was above them all. */
  lemma SubsequenceIdsBelow(sub: TaskList, tasks: TaskList, bound: int)
    requires IsSubsequence(sub, tasks)
    requires IdsBelow(tasks, bound)
    ensures IdsBelow(sub, bound)
  {
    SubsequenceMembers(sub, tasks);
    forall i | 0 <= i < |sub| ensures sub[i].id < bound {
      assert sub[i] in tasks;
    }
  }

  /** addTask keeps the ids unique and moves the bound past the clock
      reading it used, provided that reading is at or above the bound. */
  lemma AddKeepsIdsBelow(tasks: TaskList, text: string, now: int, createdAt: string, bound: int)
    requires UniqueIds(tasks) && IdsBelow(tasks, bound)
    requires !AllWhitespace(text) ==> bound <= now
    ensures UniqueIds(Add(tasks, text, now, createdAt))
    ensures IdsBelow(Add(tasks, text, now, createdAt), if AllWhitespace(text) then bound else now + 1)
  {
    AddPreservesInvariants(tasks, text, now, createdAt);
    var added := Add(tasks, text, now, createdAt);
    if !AllWhitespace(text) {
      forall i | 0 <= i < |added| ensures added[i].id < now + 1 {
        if i > 0 {
          assert added[i] == tasks[i - 1];
        }
      }
    }
  }

  /** One intent keeps the ids unique and below the next bound, provided a
      creating intent reads the clock at or above the current bound. */
  lemma StepKeepsIdsUnique(m: Manager, a: Action, bound: int)
    requires UniqueIds(m.tasks) && IdsBelow(m.tasks, bound)
    requires Creates(a) ==> bound <= a.now
    ensures UniqueIds(Step(m, a).tasks)
    ensures IdsBelow(Step(m, a).tasks, NextBound(bound, a))
  {
    match a
    case AddAction(text, now, createdAt) =>
      assert Step(m, a).tasks == Add(m.tasks, text, now, createdAt);
      AddKeepsIdsBelow(m.tasks, text, now, createdAt, bound);
    case ToggleAction(id) =>
      TogglePreservesInvariants(m.tasks, id);
    case DeleteAction(id) =>
      DeletePreservesInvariants(m.tasks, id);
      SubsequenceIdsBelow(Delete(m.tasks, id), m.tasks, bound);
    case ClearCompletedAction =>
      ClearCompletedPreservesInvariants(m.tasks);
      SubsequenceIdsBelow(ClearCompleted(m.tasks), m.tasks, bound);
    case ClearAllAction(confirmed) =>
  }

  /** Why the clock assumption is needed: two creations that read the same
      clock value produce two tasks with one id, and deleting that id then
      removes both. */
  lemma SameClockReadingSharesId(m: Manager, a: string, b: string, now: int, c1: string, c2: string)
    requires ValidText(a) && ValidText(b)
    requires m.tasks == []
    ensures
      var m2 := AddTask(AddTask(m, a, now, c1), b, now, c2);
      && |m2.tasks| == 2
      && !UniqueIds(m2.tasks)
      && DeleteTask(m2, now).tasks == []
  {
    TrimmedTextIsKept(a);
    TrimmedTextIsKept(b);
    var m2 := AddTask(AddTask(m, a, now, c1), b, now, c2);
    assert m2.tasks[0].id == m2.tasks[1].id;
  }

  /** Ids stay unique across any sequence of intents provided the clock
      strictly increases between creations and starts above every id
      already in the list. The source does not guarantee this: two
      creations within the same millisecond would share an id. */
  lemma {:induction false} RunKeepsIdsUnique(m: Manager, actions: seq<Action>, bound: int)
    requires UniqueIds(m.tasks) && IdsBelow(m.tasks, bound)
    requires ClockAfter(bound, actions)
    ensures UniqueIds(Run(m, actions).tasks)
    decreases |actions|
  {
    if actions != [] {
      StepKeepsIdsUnique(m, actions[0], bound);
      RunKeepsIdsUnique(Step(m, actions[0]), actions[1..], NextBound(bound, actions[0]));
    }
  }

  /** Reference result of a sequence of addTask intents: the task each
      non-blank one creates, most recent first. */
  function Created(actions: seq<Action>): TaskList
    decreases |actions|
  {
    if actions == [] then []
    else
      var a := actions[0];
      Created(actions[1..])
      + (if Creates(a) then [Task(a.now, Trim(a.text), false, a.createdAt)] else [])
  }

  /** One created task per intent that creates one. */
  lemma {:induction false} CreatedLength(actions: seq<Action>)
    ensures |Created(actions)| == Count(actions, Creates)
    decreases |actions|
  {
    if actions != [] {
      CreatedLength(actions[1..]);
    }
  }

  /** Adding only: the list becomes the created tasks, newest first, in
      front of the old list, one per input that does not trim to nothing. */
  lemma {:induction false} RunOfAdds(m: Manager, actions: seq<Action>)
    requires forall i :: 0 <= i < |actions| ==> actions[i].AddAction?
    ensures Run(m, actions).tasks == Created(actions) + m.tasks
    ensures |Run(m, actions).tasks| == |m.tasks| + Count(actions, Creates)
    decreases |actions|
  {
    CreatedLength(actions);
    if actions != [] {
      var a := actions[0];
      var rest := actions[1..];
      var next := Step(m, a);
      assert forall i :: 0 <= i < |rest| ==> rest[i] == actions[i + 1];
      RunOfAdds(next, rest);
      AddStep(m, a, Created(rest));
      assert Run(m, actions) == Run(next, rest);
    }
  }

  /** First half of the session, from the empty list: add a text, then
      tick the new task. */
  lemma SessionAddAndTick(first: string, t1: string)
    requires ValidText(first)
    ensures
      var m1 := AddTask(Manager([], [], 0), first, 1, t1);
      var m2 := ToggleTask(m1, 1);
      && m1.tasks == [Task(1, first, false, t1)]
      && TotalCount(m1.tasks) == 1 && CompletedCount(m1.tasks) == 0
      && m2.tasks == [Task(1, first, true, t1)]
      && CompletedCount(m2.tasks) == 1
      && m2.saves == 2
  {
    TrimmedTextIsKept(first);
    var m2 := ToggleTask(AddTask(Manager([], [], 0), first, 1, t1), 1);
    assert m2.tasks[0] == Task(1, first, true, t1);
  }

  /** Second half: add another text in front of the ticked task, then clear
      the completed tasks. */
  lemma SessionAddAndClear(m2: Manager, first: string, second: string, t1: string, t2: string)
    requires ValidText(second)
    requires m2.tasks == [Task(1, first, true, t1)]
    ensures
      var m3 := AddTask(m2, second, 2, t2);
      var m4 := ClearCompletedTasks(m3);
      && m3.tasks == [Task(2, second, false, t2), Task(1, first, true, t1)]
      && TotalCount(m3.tasks) == 2
      && m4.tasks == [Task(2, second, false, t2)]
      && TotalCount(m4.tasks) == 1 && CompletedCount(m4.tasks) == 0
      && Synced(m4) && m4.saves == m2.saves + 2
  {
    TrimmedTextIsKept(second);
    var walk := Task(2, second, false, t2);
    var m3 := AddTask(m2, second, 2, t2);
    assert m3.tasks == [walk] + m2.tasks;
    ClearCompletedCons(walk, m2.tasks);
    ClearCompletedCons(m2.tasks[0], []);
    assert m2.tasks == [m2.tasks[0]] + [];
    ClearCompletedCons(walk, []);
    assert [walk] == [walk] + [];
  }

  /** A session from the empty list: add a first text (say "Buy milk"),
      tick it, add a second ("Walk dog"), then clear the completed tasks.
      Only the second task is left, nothing is completed, and storage holds
      the list after four writes. */
  lemma Session(first: string, second: string, t1: string, t2: string)
    requires ValidText(first) && ValidText(second)
    ensures
      var m4 := ClearCompletedTasks(AddTask(ToggleTask(AddTask(Manager([], [], 0), first, 1, t1), 1), second, 2, t2));
      && m4.tasks == [Task(2, second, false, t2)]
      && TotalCount(m4.tasks) == 1 && CompletedCount(m4.tasks) == 0
      && Synced(m4) && m4.saves == 4
  {
    SessionAddAndTick(first, t1);
    var m2 := ToggleTask(AddTask(Manager([], [], 0), first, 1, t1), 1);
    SessionAddAndClear(m2, first, second, t1, t2);
  }
}
