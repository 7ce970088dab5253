/** Task records as the store keeps them (scripts/state.js), the lookups on a task list, and the ids
    `addTask` generates from the clock. */
module Tasks {
  import opened Text
  import opened Wrappers
  import opened Seqs

  /** A stored task. `tag` is "" when the task has none (the form may leave it empty or absent);
      durations are exact reals and the timestamps are ISO-8601 strings. */
  datatype Task = Task(
    id: string,
    title: string,
    duration: real,
    dueDate: string,
    tag: string,
    createdAt: string,
    updatedAt: string)

  /** The task data a form submits: title, parsed duration, due date and tag. */
  datatype TaskInput = TaskInput(title: string, duration: real, dueDate: string, tag: string)

  predicate HasId(tasks: seq<Task>, id: string) {
    exists j | 0 <= j < |tasks| :: tasks[j].id == id
  }

  /** No two tasks share an id. */
  predicate UniqueIds(tasks: seq<Task>) {
    forall i, j | 0 <= i < j < |tasks| :: tasks[i].id != tasks[j].id
  }

  /** `Array.prototype.findIndex` by id: the first position holding that id, or -1. */
  function FindIndex(tasks: seq<Task>, id: string): (i: int)
    ensures -1 <= i < |tasks|
    ensures i == -1 <==> !HasId(tasks, id)
    ensures 0 <= i ==> tasks[i].id == id && forall j | 0 <= j < i :: tasks[j].id != id
  {
    if tasks == [] then -1
    else if tasks[0].id == id then 0
    else
      var k := FindIndex(tasks[1..], id);
      assert forall j | 1 <= j < |tasks| :: tasks[j] == tasks[1..][j - 1];
      if k == -1 then -1 else k + 1
  }

  /** The first position holding an id is the one `FindIndex` returns. */
  lemma FindIndexIsFirst(tasks: seq<Task>, id: string, k: int)
    requires 0 <= k < |tasks| && tasks[k].id == id
    requires forall j | 0 <= j < k :: tasks[j].id != id
    ensures FindIndex(tasks, id) == k
  {
    assert HasId(tasks, id);
  }

  /** `tasks.find(t => t.id === id) || null`: the first task with that id, if any. */
  function FindById(tasks: seq<Task>, id: string): (r: Option<Task>)
    ensures r.None? <==> !HasId(tasks, id)
    ensures r.Some? ==> r.value.id == id
    ensures r.Some? ==> exists i | 0 <= i < |tasks| :: tasks[i] == r.value && forall j | 0 <= j < i :: tasks[j].id != id
  {
    var i := FindIndex(tasks, id);
    if i == -1 then None else Some(tasks[i])
  }

  /** In a list with unique ids, the task found for an id is the one that holds it. */
  lemma FindUnique(tasks: seq<Task>, i: int)
    requires UniqueIds(tasks) && 0 <= i < |tasks|
    ensures FindById(tasks, tasks[i].id) == Some(tasks[i])
  {
    var k := FindIndex(tasks, tasks[i].id);
    assert k == i;
  }

  // ---------------------------------------------------------------------------------------------
  // Ids from the clock

  function DigitChar(d: nat): (c: char)
    requires d < 10
    ensures IsDigit(c)
  {
    ('0' as int + d) as char
  }

  /** `String(n)` for a non-negative integer: its decimal digits, without leading zeros. */
  function NatToDecimal(n: nat): (r: string)
    ensures |r| >= 1 && AllDigits(r)
    ensures |r| > 1 ==> r[0] != '0'
    decreases n
  {
    if n < 10 then [DigitChar(n)] else NatToDecimal(n / 10) + [DigitChar(n % 10)]
  }

  /** The number a string of decimal digits spells. */
  function DecimalValue(s: string): nat
    requires AllDigits(s)
  {
    if s == [] then 0
    else DecimalValue(s[..|s| - 1]) * 10 + (s[|s| - 1] as int - '0' as int)
  }

  lemma {:induction false} DecimalRoundTrip(n: nat)
    ensures DecimalValue(NatToDecimal(n)) == n
    decreases n
  {
    if n >= 10 {
      var r := NatToDecimal(n);
      DecimalRoundTrip(n / 10);
      assert r[..|r| - 1] == NatToDecimal(n / 10);
    }
  }

  /** The id `addTask` gives a task created at clock value `clock` (milliseconds). */
  function IdFor(clock: nat): string {
    "task_" + NatToDecimal(clock)
  }

  /** Different clock values give different ids; equal clock values give the same id. */
  lemma IdForInjective(c1: nat, c2: nat)
    ensures IdFor(c1) == IdFor(c2) <==> c1 == c2
  {
    if IdFor(c1) == IdFor(c2) {
      assert IdFor(c1)[5..] == NatToDecimal(c1);
      assert IdFor(c2)[5..] == NatToDecimal(c2);
      DecimalRoundTrip(c1);
      DecimalRoundTrip(c2);
    }
  }

  /** The task `addTask` builds: a fresh clock id, the parsed input fields and both timestamps `now`. */
  function NewTask(data: TaskInput, clock: nat, now: string): (t: Task)
    ensures t.id == IdFor(clock) && t.createdAt == now && t.updatedAt == now
    ensures t.title == data.title && t.duration == data.duration
    ensures t.dueDate == data.dueDate && t.tag == data.tag
  {
    Task(IdFor(clock), data.title, data.duration, data.dueDate, data.tag, now, now)
  }

  /** The spread update of `updateTask`: id and creation time are kept, the four input fields are
      replaced and the update time becomes `now`. */
  function UpdatedTask(old_: Task, data: TaskInput, now: string): (t: Task)
    ensures t.id == old_.id && t.createdAt == old_.createdAt && t.updatedAt == now
    ensures t.title == data.title && t.duration == data.duration
    ensures t.dueDate == data.dueDate && t.tag == data.tag
  {
    old_.(title := data.title, duration := data.duration, dueDate := data.dueDate, tag := data.tag,
          updatedAt := now)
  }

  /** The list `deleteTask` keeps: every task whose id differs, in order. */
  function WithoutId(tasks: seq<Task>, id: string): (r: seq<Task>)
    ensures !HasId(r, id)
    ensures forall j | 0 <= j < |tasks| :: tasks[j].id != id ==> tasks[j] in r
    ensures forall x :: multiset(r)[x] == if x.id != id then multiset(tasks)[x] else 0
    ensures IsSubsequence(r, tasks)
  {
    FilterIsSubsequence(tasks, (t: Task) => t.id != id);
    Filter(tasks, (t: Task) => t.id != id)
  }

  /** Deleting an id that is not present changes nothing. */
  lemma DeleteAbsent(tasks: seq<Task>, id: string)
    requires !HasId(tasks, id)
    ensures WithoutId(tasks, id) == tasks
  {
    FilterKeepsAll(tasks, (t: Task) => t.id != id);
  }

  // ---------------------------------------------------------------------------------------------
  // Id uniqueness under the store's operations

  /** Appending a task keeps ids unique exactly when its id is new. */
  lemma AppendUnique(tasks: seq<Task>, t: Task)
    requires UniqueIds(tasks)
    ensures UniqueIds(tasks + [t]) <==> !HasId(tasks, t.id)
  {
    var s := tasks + [t];
    if HasId(tasks, t.id) {
      var j :| 0 <= j < |tasks| && tasks[j].id == t.id;
      assert s[j].id == s[|tasks|].id;
    }
  }

  /** Two tasks added at the same clock value get the same id, whatever their data. */
  lemma SameClockCollides(tasks: seq<Task>, d1: TaskInput, d2: TaskInput, clock: nat, now1: string, now2: string)
    ensures !UniqueIds(tasks + [NewTask(d1, clock, now1)] + [NewTask(d2, clock, now2)])
  {
    var s := tasks + [NewTask(d1, clock, now1)] + [NewTask(d2, clock, now2)];
    assert s[|tasks|].id == s[|tasks| + 1].id;
  }

  /** If every stored id came from an earlier clock value, the next add keeps ids unique. */
  lemma LaterClockKeepsUnique(tasks: seq<Task>, clocks: seq<nat>, data: TaskInput, clock: nat, now: string)
    requires UniqueIds(tasks) && |clocks| == |tasks|
    requires forall j | 0 <= j < |tasks| :: tasks[j].id == IdFor(clocks[j]) && clocks[j] < clock
    ensures UniqueIds(tasks + [NewTask(data, clock, now)])
  {
    forall j | 0 <= j < |tasks| ensures tasks[j].id != IdFor(clock) {
      IdForInjective(clocks[j], clock);
    }
    AppendUnique(tasks, NewTask(data, clock, now));
  }

  /** Replacing one task by its update keeps every id, so uniqueness is preserved. */
  lemma UpdateKeepsUnique(tasks: seq<Task>, i: int, data: TaskInput, now: string)
    requires UniqueIds(tasks) && 0 <= i < |tasks|
    ensures UniqueIds(tasks[i := UpdatedTask(tasks[i], data, now)])
  {
  }

  /** A subsequence of a list with unique ids has unique ids. */
  lemma {:induction false} SubsequenceUnique(sub: seq<Task>, tasks: seq<Task>)
    requires IsSubsequence(sub, tasks) && UniqueIds(tasks)
    ensures UniqueIds(sub)
    decreases |tasks|
  {
    if sub != [] {
      assert UniqueIds(tasks[1..]) by {
        forall i, j | 0 <= i < j < |tasks| - 1 ensures tasks[1..][i].id != tasks[1..][j].id {
          assert tasks[1..][i] == tasks[i + 1] && tasks[1..][j] == tasks[j + 1];
        }
      }
      if sub[0] == tasks[0] {
        SubsequenceUnique(sub[1..], tasks[1..]);
        SubsequenceMembers(sub[1..], tasks[1..]);
        forall j | 0 < j < |sub| ensures sub[0].id != sub[j].id {
          assert sub[j] == sub[1..][j - 1];
          var k :| 0 <= k < |tasks| - 1 && tasks[1..][k] == sub[j];
          assert tasks[k + 1] == sub[j];
        }
      } else {
        SubsequenceUnique(sub, tasks[1..]);
      }
    }
  }

  /** Every element of a subsequence occurs in the sequence. */
  lemma {:induction false} SubsequenceMembers<T>(sub: seq<T>, s: seq<T>)
    requires IsSubsequence(sub, s)
    ensures forall j | 0 <= j < |sub| :: exists k | 0 <= k < |s| :: s[k] == sub[j]
    decreases |s|
  {
    if sub != [] {
      if sub[0] == s[0] {
        SubsequenceMembers(sub[1..], s[1..]);
        forall j | 0 <= j < |sub| ensures exists k | 0 <= k < |s| :: s[k] == sub[j] {
          if j == 0 {
            assert s[0] == sub[0];
          } else {
            assert sub[j] == sub[1..][j - 1];
            var k :| 0 <= k < |s| - 1 && s[1..][k] == sub[j];
            assert s[k + 1] == sub[j];
          }
        }
      } else {
        SubsequenceMembers(sub, s[1..]);
        forall j | 0 <= j < |sub| ensures exists k | 0 <= k < |s| :: s[k] == sub[j] {
          var k :| 0 <= k < |s| - 1 && s[1..][k] == sub[j];
          assert s[k + 1] == sub[j];
        }
      }
    }
  }

  /** Deleting keeps ids unique. */
  lemma DeleteKeepsUnique(tasks: seq<Task>, id: string)
    requires UniqueIds(tasks)
    ensures UniqueIds(WithoutId(tasks, id))
  {
    SubsequenceUnique(WithoutId(tasks, id), tasks);
  }
}
