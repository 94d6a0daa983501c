/**
  The task records of TaskManager (app.js) and the pure list computations
  behind its five state changes and its two counters. Each function here is
  the new value the source assigns to `this.tasks`; persistence and the
  confirmation prompt are layered on top in module TaskManager.
 */
module Tasks {
  import opened Text
  import opened Seqs

  /** One to-do item. `id` is the millisecond clock reading taken when it
      was created, `createdAt` the locale-formatted creation time. */
  datatype Task = Task(id: int, text: string, completed: bool, createdAt: string)

  /** The list `this.tasks`, newest first. */
  type TaskList = seq<Task>

  /** The filter callback of the completed counter. */
  predicate IsCompleted(t: Task)
  {
    t.completed
  }

  /** The filter callback of clearCompleted: keep what is not completed. */
  predicate IsActive(t: Task)
  {
    !t.completed
  }

  /** The filter callback of deleteTask: keep tasks whose id differs. */
  function OtherThan(id: int): Task -> bool
  {
    (t: Task) => t.id != id
  }

  /** Matches the tasks carrying a given id. */
  function WithId(id: int): Task -> bool
  {
    (t: Task) => t.id == id
  }

  /** Some task of the list carries `id`. */
  predicate HasId(tasks: TaskList, id: int)
  {
    exists i :: 0 <= i < |tasks| && tasks[i].id == id
  }

  /** No two tasks of the list share an id. The source does not enforce
      this: it holds only as long as every clock reading used for a new task
      is fresh. */
  predicate UniqueIds(tasks: TaskList)
  {
    forall i, j :: 0 <= i < |tasks| && 0 <= j < |tasks| && tasks[i].id == tasks[j].id ==> i == j
  }

  /** A stored task text: non-empty and already trimmed. */
  predicate ValidText(s: string)
  {
    s != [] && IsTrimmed(s)
  }

  /** Every task's text is one addTask could have produced. */
  predicate WellFormed(tasks: TaskList)
  {
    forall t :: t in tasks ==> ValidText(t.text)
  }

  /** The number of tasks carrying `id`. */
  function CountId(tasks: TaskList, id: int): nat
  {
    Count(tasks, WithId(id))
  }

  /** The "total" counter of render: the number of tasks, which splits
      into the completed ones and the active ones. */
  function TotalCount(tasks: TaskList): (n: nat)
    ensures n == Count(tasks, IsCompleted) + Count(tasks, IsActive)
  {
    CountComplement(tasks, IsCompleted, IsActive);
    |tasks|
  }

  /** The "completed" counter of render: how many tasks are completed. */
  function CompletedCount(tasks: TaskList): (n: nat)
    ensures n == Count(tasks, IsCompleted)
    ensures n == 0 <==> forall i :: 0 <= i < |tasks| ==> !tasks[i].completed
    ensures n == |tasks| <==> forall i :: 0 <= i < |tasks| ==> tasks[i].completed
  {
    |Filter(tasks, IsCompleted)|
  }

  /** The list after addTask(input): blank input (nothing but whitespace)
      leaves it alone; otherwise exactly one new task is put in front of the
      untouched old list, carrying the supplied clock reading and creation
      time, the input with its surrounding whitespace cut away, and an
      unchecked completion flag. */
  function Add(tasks: TaskList, input: string, now: int, createdAt: string): (r: TaskList)
    ensures r == tasks <==> AllWhitespace(input)
    ensures !AllWhitespace(input) ==>
      && |r| == |tasks| + 1
      && r[1..] == tasks
      && r[0].id == now
      && !r[0].completed
      && r[0].createdAt == createdAt
      && r[0].text == Trim(input)
      && ValidText(r[0].text)
  {
    if IsBlank(input) then tasks
    else [Task(now, Trim(input), false, createdAt)] + tasks
  }

  /** Flips the completion flag of a task carrying `id`. */
  function Flip(t: Task, id: int): Task
  {
    if t.id == id then t.(completed := !t.completed) else t
  }

  /** The list after toggleTask(id): same length and order; ids, texts and
      creation times all kept; the completion flag changes exactly on the
      tasks carrying `id`; an unknown id changes nothing. */
  function Toggle(tasks: TaskList, id: int): (r: TaskList)
    ensures |r| == |tasks|
    ensures forall i :: 0 <= i < |tasks| ==>
      && r[i].id == tasks[i].id
      && r[i].text == tasks[i].text
      && r[i].createdAt == tasks[i].createdAt
    ensures forall i :: 0 <= i < |tasks| ==>
      (r[i].completed != tasks[i].completed <==> tasks[i].id == id)
    ensures !HasId(tasks, id) ==> r == tasks
  {
    Map(tasks, (t: Task) => Flip(t, id))
  }

  /** The list after deleteTask(id): the tasks whose id differs, in their
      original relative order. No task carrying `id` is left, every other
      task is still there, one task goes per task carrying `id`, and an
      unknown id changes nothing. */
  function Delete(tasks: TaskList, id: int): (r: TaskList)
    ensures IsSubsequence(r, tasks)
    ensures !HasId(r, id)
    ensures forall t :: t in tasks && t.id != id ==> t in r
    ensures |r| == |tasks| - CountId(tasks, id)
    ensures !HasId(tasks, id) ==> r == tasks
  {
    var r := Filter(tasks, OtherThan(id));
    FilterIdentity(tasks, OtherThan(id));
    CountComplement(tasks, WithId(id), OtherThan(id));
    assert forall i :: 0 <= i < |r| ==> r[i] in r;
    r
  }

  /** The list after clearCompleted: the tasks not completed, in their
      original relative order. No completed task is left and no other task
      is lost, so the list shrinks by the completed count. */
  function ClearCompleted(tasks: TaskList): (r: TaskList)
    ensures IsSubsequence(r, tasks)
    ensures forall i :: 0 <= i < |r| ==> !r[i].completed
    ensures forall t :: t in tasks && !t.completed ==> t in r
    ensures |r| == |tasks| - CompletedCount(tasks)
    ensures CompletedCount(tasks) == 0 ==> r == tasks
  {
    var r := Filter(tasks, IsActive);
    FilterIdentity(tasks, IsActive);
    CountComplement(tasks, IsCompleted, IsActive);
    assert forall i :: 0 <= i < |r| ==> r[i] in r;
    r
  }

  /** clearCompleted and the completed counter, one task at a time: the
      first task survives exactly when it is not completed, and counts
      exactly when it is. */
  lemma ClearCompletedCons(t: Task, rest: TaskList)
    ensures ClearCompleted([t] + rest) == (if t.completed then [] else [t]) + ClearCompleted(rest)
    ensures CompletedCount([t] + rest) == (if t.completed then 1 else 0) + CompletedCount(rest)
  {
    var s := [t] + rest;
    assert s[0] == t && s[1..] == rest;
    if t.completed {
      assert [] + ClearCompleted(rest) == ClearCompleted(rest);
    } else {
      assert [] + Filter(rest, IsCompleted) == Filter(rest, IsCompleted);
    }
  }

  /** Toggling the same id twice gives back the original list. */
  lemma ToggleTwice(tasks: TaskList, id: int)
    ensures Toggle(Toggle(tasks, id), id) == tasks
  {
    var once := Toggle(tasks, id);
    var twice := Toggle(once, id);
    forall i | 0 <= i < |tasks| ensures twice[i] == tasks[i] {
      assert twice[i].id == tasks[i].id;
    }
  }

  /** With unique ids, toggling the task at position `k` changes nothing but
      that task, so the completed counter moves by exactly one: down if it
      was completed, up if it was not. */
  lemma ToggleCompletedCount(tasks: TaskList, k: nat)
    requires UniqueIds(tasks)
    requires k < |tasks|
    ensures Toggle(tasks, tasks[k].id) == tasks[k := tasks[k].(completed := !tasks[k].completed)]
    ensures CompletedCount(Toggle(tasks, tasks[k].id)) ==
      if tasks[k].completed then CompletedCount(tasks) - 1 else CompletedCount(tasks) + 1
  {
    var id := tasks[k].id;
    var flipped := tasks[k].(completed := !tasks[k].completed);
    var r := Toggle(tasks, id);
    forall i | 0 <= i < |tasks| ensures r[i] == tasks[k := flipped][i] {
      if i != k {
        assert tasks[i].id != id;
      }
    }
    assert r == tasks[k := flipped];
    CountUpdate(tasks, k, flipped, IsCompleted);
  }

  /** With unique ids, at most one task carries any given id. */
  lemma {:induction false} UniqueIdsCountAtMostOne(tasks: TaskList, id: int)
    requires UniqueIds(tasks)
    ensures CountId(tasks, id) <= 1
    ensures CountId(tasks, id) == 1 <==> HasId(tasks, id)
    decreases |tasks|
  {
    if tasks != [] {
      var rest := tasks[1..];
      assert UniqueIds(rest) by {
        forall i, j | 0 <= i < |rest| && 0 <= j < |rest| && rest[i].id == rest[j].id
          ensures i == j
        {
          assert tasks[i + 1].id == tasks[j + 1].id;
        }
      }
      UniqueIdsCountAtMostOne(rest, id);
      if tasks[0].id == id {
        forall i | 0 <= i < |rest| ensures !WithId(id)(rest[i]) {
          assert tasks[i + 1].id != tasks[0].id;
        }
      } else {
        if HasId(tasks, id) {
          var i :| 0 <= i < |tasks| && tasks[i].id == id;
          assert rest[i - 1].id == id;
        }
        if HasId(rest, id) {
          var i :| 0 <= i < |rest| && rest[i].id == id;
          assert tasks[i + 1].id == id;
        }
      }
    }
  }

  /** With unique ids, deleting an id that is present removes exactly one
      task, and deleting one that is absent removes none. */
  lemma DeleteRemovesOne(tasks: TaskList, id: int)
    requires UniqueIds(tasks)
    ensures |Delete(tasks, id)| == if HasId(tasks, id) then |tasks| - 1 else |tasks|
  {
    UniqueIdsCountAtMostOne(tasks, id);
  }

  /** deleteTask computes THE order-preserving selection of the tasks whose
      id differs: any subsequence of the list that drops every task carrying
      `id` and keeps all the others is the result of Delete. */
  lemma DeleteCharacterized(tasks: TaskList, id: int, r: TaskList)
    requires IsSubsequence(r, tasks)
    requires !HasId(r, id)
    requires |r| == |tasks| - CountId(tasks, id)
    ensures r == Delete(tasks, id)
  {
    CountComplement(tasks, WithId(id), OtherThan(id));
    FilterUnique(r, tasks, OtherThan(id));
  }

  /** clearCompleted computes THE order-preserving selection of the tasks
      not completed: any subsequence of the list that holds no completed
      task and is as long as the number of tasks not completed is the
      result of ClearCompleted. */
  lemma ClearCompletedCharacterized(tasks: TaskList, r: TaskList)
    requires IsSubsequence(r, tasks)
    requires forall i :: 0 <= i < |r| ==> !r[i].completed
    requires |r| == |tasks| - CompletedCount(tasks)
    ensures r == ClearCompleted(tasks)
  {
    CountComplement(tasks, IsCompleted, IsActive);
    FilterUnique(r, tasks, IsActive);
  }

  /** Clearing completed tasks twice is clearing them once, and afterwards
      the completed counter reads zero. */
  lemma ClearCompletedIdempotent(tasks: TaskList)
    ensures ClearCompleted(ClearCompleted(tasks)) == ClearCompleted(tasks)
    ensures CompletedCount(ClearCompleted(tasks)) == 0
  {
    FilterIdempotent(tasks, IsActive);
  }

  /** The completed counter never exceeds the total counter, and adding a
      task (non-blank input) raises the total by one and leaves the
      completed counter where it was. */
  lemma Counters(tasks: TaskList, input: string, now: int, createdAt: string)
    ensures CompletedCount(tasks) <= TotalCount(tasks)
    ensures !AllWhitespace(input) ==>
      && TotalCount(Add(tasks, input, now, createdAt)) == TotalCount(tasks) + 1
      && CompletedCount(Add(tasks, input, now, createdAt)) == CompletedCount(tasks)
  {
    if !AllWhitespace(input) {
      var r := Add(tasks, input, now, createdAt);
      assert r == [r[0]] + tasks;
      CountConcat([r[0]], tasks, IsCompleted);
    }
  }

  /** A subsequence of a list with unique ids has unique ids. */
  lemma {:induction false} SubsequenceUniqueIds(a: TaskList, b: TaskList)
    requires IsSubsequence(a, b)
    requires UniqueIds(b)
    ensures UniqueIds(a)
    decreases |b|
  {
    if a != [] && b != [] {
      var rest := b[1..];
      assert UniqueIds(rest) by {
        forall i, j | 0 <= i < |rest| && 0 <= j < |rest| && rest[i].id == rest[j].id
          ensures i == j
        {
          assert b[i + 1].id == b[j + 1].id;
        }
      }
      if a[0] == b[0] {
        SubsequenceUniqueIds(a[1..], rest);
        SubsequenceMembers(a[1..], rest);
        forall k | 0 < k < |a| ensures a[k].id != a[0].id {
          assert a[k] == a[1..][k - 1];
          assert a[k] in rest;
          var m :| 0 <= m < |rest| && rest[m] == a[k];
          assert b[m + 1] == a[k];
        }
        forall i, j | 0 < i < |a| && 0 < j < |a| && a[i].id == a[j].id
          ensures i == j
        {
          assert a[1..][i - 1].id == a[1..][j - 1].id;
        }
      } else {
        SubsequenceUniqueIds(a, rest);
      }
    }
  }

  /** addTask keeps the texts well formed, and keeps the ids unique as
      long as the new task's clock reading is not already in use. */
  lemma AddPreservesInvariants(tasks: TaskList, input: string, now: int, createdAt: string)
    ensures WellFormed(tasks) ==> WellFormed(Add(tasks, input, now, createdAt))
    ensures UniqueIds(tasks) && !HasId(tasks, now) ==> UniqueIds(Add(tasks, input, now, createdAt))
  {
    var added := Add(tasks, input, now, createdAt);
    if !AllWhitespace(input) && WellFormed(tasks) {
      forall t | t in added ensures ValidText(t.text) {
        if t != added[0] {
          assert t in added[1..];
        }
      }
    }
    if !AllWhitespace(input) && UniqueIds(tasks) && !HasId(tasks, now) {
      forall i, j | 0 <= i < |added| && 0 <= j < |added| && added[i].id == added[j].id
        ensures i == j
      {
        if i > 0 && j > 0 {
          assert tasks[i - 1].id == tasks[j - 1].id;
        }
      }
    }
  }

  /** toggleTask keeps the texts well formed and the ids unique. */
  lemma TogglePreservesInvariants(tasks: TaskList, id: int)
    ensures WellFormed(tasks) ==> WellFormed(Toggle(tasks, id))
    ensures UniqueIds(tasks) ==> UniqueIds(Toggle(tasks, id))
  {
    var toggled := Toggle(tasks, id);
    if WellFormed(tasks) {
      forall t | t in toggled ensures ValidText(t.text) {
        var i :| 0 <= i < |toggled| && toggled[i] == t;
        assert tasks[i] in tasks;
      }
    }
  }

  /** deleteTask only drops tasks, so it keeps the texts well formed and the
      ids unique. */
  lemma DeletePreservesInvariants(tasks: TaskList, id: int)
    ensures WellFormed(tasks) ==> WellFormed(Delete(tasks, id))
    ensures UniqueIds(tasks) ==> UniqueIds(Delete(tasks, id))
  {
    if UniqueIds(tasks) {
      SubsequenceUniqueIds(Delete(tasks, id), tasks);
    }
    SubsequenceMembers(Delete(tasks, id), tasks);
  }

  /** clearCompleted only drops tasks, so it keeps the texts well formed and
      the ids unique. */
  lemma ClearCompletedPreservesInvariants(tasks: TaskList)
    ensures WellFormed(tasks) ==> WellFormed(ClearCompleted(tasks))
    ensures UniqueIds(tasks) ==> UniqueIds(ClearCompleted(tasks))
  {
    if UniqueIds(tasks) {
      SubsequenceUniqueIds(ClearCompleted(tasks), tasks);
    }
    SubsequenceMembers(ClearCompleted(tasks), tasks);
  }
}
