/** The computations scripts/ui.js performs on the task list before it touches the page: the dashboard
    statistics, the daily-target progress, the week-trend bar scaling, the tag list of the filter
    menu and the filter chain of the task list. Durations are exact reals; "today" and the seven
    day strings of the trend chart are parameters. */
module Dashboard {
  import opened Seqs
  import opened Tasks
  import opened Search

  // ---------------------------------------------------------------------------------------------
  // updateDashboard: total and average duration

  /** `tasks.reduce((sum, task) => sum + task.duration, 0)` */
  function TotalDuration(tasks: seq<Task>): real {
    if tasks == [] then 0.0 else TotalDuration(tasks[..|tasks| - 1]) + tasks[|tasks| - 1].duration
  }

  /** The total of two lists one after the other is the sum of their totals. */
  lemma {:induction false} TotalAppend(a: seq<Task>, b: seq<Task>)
    ensures TotalDuration(a + b) == TotalDuration(a) + TotalDuration(b)
    decreases |b|
  {
    if b == [] {
      assert a + b == a;
    } else {
      assert (a + b)[..|a + b| - 1] == a + b[..|b| - 1];
      TotalAppend(a, b[..|b| - 1]);
    }
  }

  /** When every duration lies in [lo, hi], the total lies in [n·lo, n·hi]. */
  lemma {:induction false} TotalBounds(tasks: seq<Task>, lo: real, hi: real)
    requires forall i | 0 <= i < |tasks| :: lo <= tasks[i].duration <= hi
    ensures lo * (|tasks| as real) <= TotalDuration(tasks) <= hi * (|tasks| as real)
  {
    if tasks != [] {
      var p := tasks[..|tasks| - 1];
      assert forall i | 0 <= i < |p| :: p[i] == tasks[i];
      TotalBounds(p, lo, hi);
    }
  }

  /** `tasks.length > 0 ? totalDuration / tasks.length : 0` */
  function AverageDuration(tasks: seq<Task>): (r: real)
    ensures |tasks| == 0 ==> r == 0.0
    ensures |tasks| > 0 ==> r * (|tasks| as real) == TotalDuration(tasks)
  {
    if |tasks| > 0 then TotalDuration(tasks) / (|tasks| as real) else 0.0
  }

  /** The average lies between the smallest and the largest duration bounds. */
  lemma AverageBounds(tasks: seq<Task>, lo: real, hi: real)
    requires |tasks| > 0
    requires forall i | 0 <= i < |tasks| :: lo <= tasks[i].duration <= hi
    ensures lo <= AverageDuration(tasks) <= hi
  {
    TotalBounds(tasks, lo, hi);
    var n := |tasks| as real;
    var avg := AverageDuration(tasks);
    assert avg * n == TotalDuration(tasks);
    assert lo * n <= avg * n <= hi * n;
  }

  // ---------------------------------------------------------------------------------------------
  // updateDashboard: the most common tag

  /** How many tasks carry tag `u` (tasks without a tag count for no tag). */
  function TagCount(tasks: seq<Task>, u: string): nat {
    if tasks == [] then 0
    else TagCount(tasks[..|tasks| - 1], u) + (if u != "" && tasks[|tasks| - 1].tag == u then 1 else 0)
  }

  lemma TagCountStep(tasks: seq<Task>, i: int, u: string)
    requires 0 <= i < |tasks|
    ensures TagCount(tasks[..i + 1], u) == TagCount(tasks[..i], u) + (if u != "" && tasks[i].tag == u then 1 else 0)
  {
    assert tasks[..i + 1][..i] == tasks[..i];
  }

  /** A tag no task carries has count 0. */
  lemma {:induction false} TagCountAbsent(tasks: seq<Task>, u: string)
    requires forall i | 0 <= i < |tasks| :: tasks[i].tag != u
    ensures TagCount(tasks, u) == 0
  {
    if tasks != [] {
      var p := tasks[..|tasks| - 1];
      assert forall i | 0 <= i < |p| :: p[i] == tasks[i];
      TagCountAbsent(p, u);
    }
  }

  predicate HasTaggedTask(tasks: seq<Task>) {
    exists i | 0 <= i < |tasks| :: tasks[i].tag != ""
  }

  /** What the top-tag loop knows after the first `i` tasks: `maxCount` is the largest tag count in
      every prefix seen so far, `top` is a tag that has that count ("None" while no task was tagged),
      and `top` reached it no later than any other tag. */
  ghost predicate Leads(tasks: seq<Task>, i: int, top: string, maxCount: nat) {
    0 <= i <= |tasks|
    && (maxCount == 0 <==> !HasTaggedTask(tasks[..i]))
    && (maxCount == 0 ==> top == "None")
    && (maxCount > 0 ==> top != "" && TagCount(tasks[..i], top) == maxCount)
    && (maxCount > 0 ==> exists j | 0 <= j < i :: tasks[j].tag == top)
    && (forall n, u | 0 <= n <= i :: TagCount(tasks[..n], u) <= maxCount)
    && (forall n, u | 0 <= n <= i :: TagCount(tasks[..n], u) == maxCount ==> TagCount(tasks[..n], top) == maxCount)
  }

  lemma HasTaggedStep(tasks: seq<Task>, i: int)
    requires 0 <= i < |tasks|
    ensures HasTaggedTask(tasks[..i + 1]) <==> HasTaggedTask(tasks[..i]) || tasks[i].tag != ""
  {
    assert forall j | 0 <= j < i :: tasks[..i + 1][j] == tasks[..i][j];
    assert tasks[..i + 1][i] == tasks[i];
  }

  /** The task at `i` brings its tag strictly above the maximum: it becomes the top tag. */
  lemma LeadsOvertake(tasks: seq<Task>, i: int, top: string, maxCount: nat)
    requires Leads(tasks, i, top, maxCount) && i < |tasks| && tasks[i].tag != ""
    requires TagCount(tasks[..i + 1], tasks[i].tag) > maxCount
    ensures Leads(tasks, i + 1, tasks[i].tag, TagCount(tasks[..i + 1], tasks[i].tag))
  {
    var t, c := tasks[i].tag, TagCount(tasks[..i + 1], tasks[i].tag);
    HasTaggedStep(tasks, i);
    forall u {:trigger TagCount(tasks[..i + 1], u)} ensures TagCount(tasks[..i + 1], u) <= c {
      TagCountStep(tasks, i, u);
    }
  }

  /** Otherwise the top tag and the maximum stay as they are. */
  lemma LeadsKeep(tasks: seq<Task>, i: int, top: string, maxCount: nat)
    requires Leads(tasks, i, top, maxCount) && i < |tasks|
    requires tasks[i].tag == "" || TagCount(tasks[..i + 1], tasks[i].tag) <= maxCount
    ensures Leads(tasks, i + 1, top, maxCount)
  {
    HasTaggedStep(tasks, i);
    TagCountStep(tasks, i, top);
    forall u {:trigger TagCount(tasks[..i + 1], u)} ensures TagCount(tasks[..i + 1], u) <= maxCount {
      TagCountStep(tasks, i, u);
    }
    if maxCount == 0 {
      TagCountStep(tasks, i, tasks[i].tag);
    }
  }

  /** `counts` holds the count of every tag met in the first `i` tasks, and only those. */
  ghost predicate CountsAgree(tasks: seq<Task>, i: int, counts: map<string, nat>)
    requires 0 <= i <= |tasks|
  {
    (forall u | u in counts :: u != "" && counts[u] == TagCount(tasks[..i], u))
    && (forall u | u !in counts :: TagCount(tasks[..i], u) == 0)
  }

  /** Counting the tag of task `i`: one more than before, or 1 for a tag met for the first time. */
  lemma CountsAdd(tasks: seq<Task>, i: int, counts: map<string, nat>, u: string, c: nat)
    requires 0 <= i < |tasks| && u == tasks[i].tag && u != "" && CountsAgree(tasks, i, counts)
    requires c == (if u in counts then counts[u] else 0) + 1
    ensures c == TagCount(tasks[..i + 1], u) && CountsAgree(tasks, i + 1, counts[u := c])
  {
    forall u {:trigger TagCount(tasks[..i + 1], u)}
      ensures TagCount(tasks[..i + 1], u) == TagCount(tasks[..i], u) + (if u != "" && tasks[i].tag == u then 1 else 0)
    {
      TagCountStep(tasks, i, u);
    }
  }

  /** A task without a tag changes no count. */
  lemma CountsSkip(tasks: seq<Task>, i: int, counts: map<string, nat>)
    requires 0 <= i < |tasks| && tasks[i].tag == "" && CountsAgree(tasks, i, counts)
    ensures CountsAgree(tasks, i + 1, counts)
  {
    forall u {:trigger TagCount(tasks[..i + 1], u)}
      ensures TagCount(tasks[..i + 1], u) == TagCount(tasks[..i], u)
    {
      TagCountStep(tasks, i, u);
    }
  }

  /** The state of the top-tag loop: the leading tag, its count and the count of every tag met. */
  datatype Tally = Tally(top: string, maxCount: nat, counts: map<string, nat>)

  /** One turn of the top-tag loop on a task tagged `u`: an untagged task changes nothing; a tagged
      one has its count raised by one and takes the lead when that count exceeds the maximum. */
  function Turn(u: string, s: Tally): (r: Tally)
    ensures u != "" ==> u in r.counts && r.counts[u] == (if u in s.counts then s.counts[u] else 0) + 1
    ensures forall v | v != u :: (v in r.counts <==> v in s.counts) && (v in s.counts ==> r.counts[v] == s.counts[v])
    ensures u == "" ==> r == s
    ensures u != "" && r.counts[u] > s.maxCount ==> r.top == u && r.maxCount == r.counts[u]
    ensures u != "" && r.counts[u] <= s.maxCount ==> r.top == s.top && r.maxCount == s.maxCount
  {
    if u == "" then s
    else
      var c := (if u in s.counts then s.counts[u] else 0) + 1;
      if c > s.maxCount then Tally(u, c, s.counts[u := c]) else s.(counts := s.counts[u := c])
  }

  /** The loop state after the tasks of `tasks`, in order, starting from "None", 0 and no counts. */
  function TallyOf(tasks: seq<Task>): Tally {
    if tasks == [] then Tally("None", 0, map[])
    else Turn(tasks[|tasks| - 1].tag, TallyOf(tasks[..|tasks| - 1]))
  }

  /** The state after one more task is one more turn. */
  lemma {:induction false} TallyNext(tasks: seq<Task>, i: int)
    requires 0 <= i < |tasks|
    ensures TallyOf(tasks[..i + 1]) == Turn(tasks[i].tag, TallyOf(tasks[..i]))
  {
    assert tasks[..i + 1][..i] == tasks[..i];
  }

  /** A turn keeps the counts exact and the lead as `Leads` describes it. */
  lemma TallyStep(tasks: seq<Task>, i: int, s: Tally)
    requires 0 <= i < |tasks| && Leads(tasks, i, s.top, s.maxCount) && CountsAgree(tasks, i, s.counts)
    ensures var r := Turn(tasks[i].tag, s);
      Leads(tasks, i + 1, r.top, r.maxCount) && CountsAgree(tasks, i + 1, r.counts)
  {
    var u := tasks[i].tag;
    if u == "" {
      CountsSkip(tasks, i, s.counts);
      LeadsKeep(tasks, i, s.top, s.maxCount);
    } else {
      var c := (if u in s.counts then s.counts[u] else 0) + 1;
      CountsAdd(tasks, i, s.counts, u, c);
      if c > s.maxCount {
        LeadsOvertake(tasks, i, s.top, s.maxCount);
      } else {
        LeadsKeep(tasks, i, s.top, s.maxCount);
      }
    }
  }

  /** After any prefix, the loop state counts every tag exactly and leads as `Leads` describes. */
  lemma {:induction false} TallyLeads(tasks: seq<Task>, i: int)
    requires 0 <= i <= |tasks|
    ensures var s := TallyOf(tasks[..i]);
      Leads(tasks, i, s.top, s.maxCount) && CountsAgree(tasks, i, s.counts)
  {
    if i > 0 {
      TallyLeads(tasks, i - 1);
      assert tasks[..i][..i - 1] == tasks[..i - 1];
      TallyStep(tasks, i - 1, TallyOf(tasks[..i - 1]));
    } else {
      assert tasks[..0] == [];
    }
  }

  /** The loop state after the whole list: "None" and 0 when no task is tagged; otherwise a tag some
      task carries, with the largest count, and the first tag to reach that count in any prefix. */
  lemma TallyDone(tasks: seq<Task>)
    ensures var s := TallyOf(tasks);
      && (!HasTaggedTask(tasks) ==> s.top == "None" && s.maxCount == 0)
      && (HasTaggedTask(tasks) ==> s.top != "" && s.maxCount == TagCount(tasks, s.top) > 0)
      && (HasTaggedTask(tasks) ==> exists i | 0 <= i < |tasks| :: tasks[i].tag == s.top)
      && (forall u :: TagCount(tasks, u) <= s.maxCount)
      && (forall n, u | 0 <= n <= |tasks| :: TagCount(tasks[..n], u) == s.maxCount ==> TagCount(tasks[..n], s.top) == s.maxCount)
  {
    TallyLeads(tasks, |tasks|);
    assert tasks[..|tasks|] == tasks;
  }

  /** The top-tag loop of `updateDashboard`: a running count per tag, and the tag whose count first
      rises strictly above the running maximum becomes the top tag. With no tagged task the top tag
      is "None". Otherwise its count is the largest, and whenever a prefix of the list brings any tag
      to that count, the top tag has already reached it in that prefix (the first tag to reach the
      maximum wins ties). */
  method TopTag(tasks: seq<Task>) returns (top: string, maxCount: nat)
    ensures !HasTaggedTask(tasks) ==> top == "None" && maxCount == 0
    ensures HasTaggedTask(tasks) ==> top != "" && maxCount == TagCount(tasks, top) > 0
    ensures HasTaggedTask(tasks) ==> exists i | 0 <= i < |tasks| :: tasks[i].tag == top
    ensures forall u :: TagCount(tasks, u) <= maxCount
    ensures forall n, u | 0 <= n <= |tasks| :: TagCount(tasks[..n], u) == maxCount ==> TagCount(tasks[..n], top) == maxCount
  {
    var counts: map<string, nat> := map[];
    top, maxCount := "None", 0;
    var i := 0;
    while i < |tasks|
      invariant 0 <= i <= |tasks|
      invariant Tally(top, maxCount, counts) == TallyOf(tasks[..i])
    {
      assert tasks[..i + 1][..i] == tasks[..i];
      var t := tasks[i];
      if t.tag != "" {
        counts := counts[t.tag := (if t.tag in counts then counts[t.tag] else 0) + 1];
        if counts[t.tag] > maxCount {
          maxCount := counts[t.tag];
          top := t.tag;
        }
      }
      i := i + 1;
    }
    assert tasks[..|tasks|] == tasks;
    TallyDone(tasks);
  }

  // The loop as written counts in a plain object literal `{}`. A tag that names a property every
  // object inherits reads back the inherited function or object instead of `undefined`, so its
  // "count" becomes a string after `|| 0` and `+ 1`, and comparing that with a number is false:
  // such a tag is never chosen, however many tasks carry it.

  /** Property names a plain object inherits from `Object.prototype`. */
  const InheritedNames: set<string> := {
    "constructor", "hasOwnProperty", "isPrototypeOf", "propertyIsEnumerable", "toLocaleString",
    "toString", "valueOf", "__proto__", "__defineGetter__", "__defineSetter__",
    "__lookupGetter__", "__lookupSetter__"}

  /** The list as the object-literal count sees it: tags among the `inherited` names behave as if
      absent. */
  function EraseInherited(tasks: seq<Task>, inherited: set<string>): (r: seq<Task>)
    ensures |r| == |tasks|
  {
    if tasks == [] then []
    else
      var t := tasks[|tasks| - 1];
      EraseInherited(tasks[..|tasks| - 1], inherited) + [if t.tag in inherited then t.(tag := "") else t]
  }

  /** Erasing blanks exactly the tags among the `inherited` names. */
  lemma {:induction false} ErasedTag(tasks: seq<Task>, inherited: set<string>, i: int)
    requires 0 <= i < |tasks|
    ensures EraseInherited(tasks, inherited)[i].tag == (if tasks[i].tag in inherited then "" else tasks[i].tag)
  {
    if i < |tasks| - 1 {
      ErasedTag(tasks[..|tasks| - 1], inherited, i);
    }
  }

  /** The top-tag loop exactly as written, counting in an object that already holds the `inherited`
      property names (`InheritedNames` for `{}`): it computes the top tag of the list with those tag
      names erased. */
  method TopTagAsWritten(tasks: seq<Task>, inherited: set<string>) returns (top: string, maxCount: nat)
    ensures !HasTaggedTask(EraseInherited(tasks, inherited)) ==> top == "None" && maxCount == 0
    ensures HasTaggedTask(EraseInherited(tasks, inherited)) ==>
      top != "" && top !in inherited && maxCount == TagCount(EraseInherited(tasks, inherited), top) > 0
    ensures HasTaggedTask(EraseInherited(tasks, inherited)) ==> exists i | 0 <= i < |tasks| :: tasks[i].tag == top
    ensures forall u :: TagCount(EraseInherited(tasks, inherited), u) <= maxCount
    ensures forall n, u | 0 <= n <= |tasks| :: TagCount(EraseInherited(tasks, inherited)[..n], u) == maxCount ==>
      TagCount(EraseInherited(tasks, inherited)[..n], top) == maxCount
  {
    ghost var e := EraseInherited(tasks, inherited);
    var counts: map<string, nat> := map[];
    top, maxCount := "None", 0;
    var i := 0;
    while i < |tasks|
      invariant 0 <= i <= |tasks|
      invariant Tally(top, maxCount, counts) == TallyOf(e[..i])
    {
      TallyNext(e, i);
      var t := tasks[i];
      ErasedTag(tasks, inherited, i);
      // For an inherited name `tagCounts[t.tag]` is the inherited member: the new "count" is not a
      // number and the comparison with `maxCount` fails, so nothing observable changes.
      if t.tag != "" && t.tag !in inherited {
        counts := counts[t.tag := (if t.tag in counts then counts[t.tag] else 0) + 1];
        if counts[t.tag] > maxCount {
          maxCount := counts[t.tag];
          top := t.tag;
        }
      }
      i := i + 1;
    }
    assert e[..|e|] == e;
    ErasedDone(tasks, inherited);
  }

  /** `TallyDone` for the list with inherited-name tags erased: the top tag is never such a name and
      is carried by a task of the original list. */
  lemma {:induction false} ErasedDone(tasks: seq<Task>, inherited: set<string>)
    ensures var e := EraseInherited(tasks, inherited); var s := TallyOf(e);
      && (!HasTaggedTask(e) ==> s.top == "None" && s.maxCount == 0)
      && (HasTaggedTask(e) ==> s.top != "" && s.top !in inherited && s.maxCount == TagCount(e, s.top) > 0)
      && (HasTaggedTask(e) ==> exists i | 0 <= i < |tasks| :: tasks[i].tag == s.top)
      && (forall u :: TagCount(e, u) <= s.maxCount)
      && (forall n, u | 0 <= n <= |tasks| :: TagCount(e[..n], u) == s.maxCount ==> TagCount(e[..n], s.top) == s.maxCount)
  {
    var e := EraseInherited(tasks, inherited);
    var s := TallyOf(e);
    TallyDone(e);
    if HasTaggedTask(e) {
      var j :| 0 <= j < |e| && e[j].tag == s.top;
      ErasedTag(tasks, inherited, j);
    }
  }

  /** One task tagged "constructor": the loop as written reports no top tag at all, while a count that
      keeps only the list's own tags reports "constructor". */
  method ConstructorTagIgnored(t: Task) returns (asWritten: string, corrected: string)
    requires t.tag == "constructor"
    ensures TagCount([t], "constructor") == 1
    ensures asWritten == "None"
    ensures corrected == "constructor"
  {
    assert [t][..0] == [];
    ErasedTag([t], InheritedNames, 0);
    assert !HasTaggedTask(EraseInherited([t], InheritedNames));
    var n: nat;
    asWritten, n := TopTagAsWritten([t], InheritedNames);
    assert HasTaggedTask([t]);
    corrected, n := TopTag([t]);
  }

  // ---------------------------------------------------------------------------------------------
  // checkDailyTarget

  /** The tasks due on `day` (compared as strings). */
  function DayTasks(tasks: seq<Task>, day: string): (r: seq<Task>)
    ensures forall i | 0 <= i < |r| :: r[i].dueDate == day && r[i] in tasks
    ensures forall i | 0 <= i < |tasks| :: tasks[i].dueDate == day ==> tasks[i] in r
    ensures forall x :: multiset(r)[x] == if x.dueDate == day then multiset(tasks)[x] else 0
    ensures IsSubsequence(r, tasks)
  {
    FilterIsSubsequence(tasks, (t: Task) => t.dueDate == day);
    Filter(tasks, (t: Task) => t.dueDate == day)
  }

  /** The minutes planned for `today`. */
  function TodayDuration(tasks: seq<Task>, today: string): real {
    TotalDuration(DayTasks(tasks, today))
  }

  /** `dailyTarget > 0 ? Math.min(todayDuration / dailyTarget * 100, 100) : 0`, for the target
      already defaulted to 0 when missing. */
  function PercentComplete(todayDuration: real, target: real): (r: real)
    ensures target <= 0.0 ==> r == 0.0
    ensures target > 0.0 && todayDuration >= 0.0 ==> 0.0 <= r <= 100.0
    ensures target > 0.0 ==> (r == 100.0 <==> todayDuration >= target)
    ensures target > 0.0 && todayDuration < target ==> r * target == todayDuration * 100.0
  {
    if target > 0.0 then
      var p := todayDuration / target * 100.0;
      assert p >= 100.0 <==> todayDuration >= target;
      if p < 100.0 then p else 100.0
    else 0.0
  }

  datatype TargetBand = Met | Close | Far

  /** The status class: met, within 70% of the target, or far from it. */
  function Band(todayDuration: real, target: real): (b: TargetBand)
    ensures b == Met <==> todayDuration >= target
    ensures b == Close <==> target * 0.7 <= todayDuration < target
    ensures b == Far <==> todayDuration < target && todayDuration < target * 0.7
  {
    if todayDuration >= target then Met
    else if todayDuration >= target * 0.7 then Close
    else Far
  }

  /** With a positive target, the bar is full exactly when the status is "met"; with no target any
      non-negative duration already counts as met while the bar stays empty. */
  lemma BandAgreesWithPercent(todayDuration: real, target: real)
    requires todayDuration >= 0.0
    ensures target > 0.0 ==> (Band(todayDuration, target) == Met <==> PercentComplete(todayDuration, target) == 100.0)
    ensures target == 0.0 ==> Band(todayDuration, target) == Met && PercentComplete(todayDuration, target) == 0.0
  {
  }

  // ---------------------------------------------------------------------------------------------
  // renderWeekTrend

  /** The number and the total duration of the tasks due on each of `days`, in order. */
  function DayFigures(tasks: seq<Task>, days: seq<string>): (r: (seq<nat>, seq<real>))
    ensures |r.0| == |days| && |r.1| == |days|
  {
    if days == [] then ([], [])
    else
      var rest := DayFigures(tasks, days[..|days| - 1]);
      var figure := DayFigure(tasks, days[|days| - 1]);
      (rest.0 + [figure.0], rest.1 + [figure.1])
  }

  /** The number and the total duration of the tasks due on `day`. */
  function DayFigure(tasks: seq<Task>, day: string): (nat, real) {
    var dayTasks := DayTasks(tasks, day);
    (|dayTasks|, TotalDuration(dayTasks))
  }

  /** Entry `k` of the figures is that day's count and total. */
  lemma {:induction false} DayFiguresAt(tasks: seq<Task>, days: seq<string>, k: int)
    requires 0 <= k < |days|
    ensures DayFigures(tasks, days).0[k] == |DayTasks(tasks, days[k])|
    ensures DayFigures(tasks, days).1[k] == TotalDuration(DayTasks(tasks, days[k]))
  {
    var init := days[..|days| - 1];
    if k < |days| - 1 {
      DayFiguresAt(tasks, init, k);
      assert init[k] == days[k];
    } else if k > 0 {
      DayFiguresAt(tasks, init, k - 1);
    }
  }

  /** The loop over the trend days: the number and the total duration of the tasks due on each. */
  method WeekTrend(tasks: seq<Task>, days: seq<string>) returns (counts: seq<nat>, durations: seq<real>)
    ensures |counts| == |days| && |durations| == |days|
    ensures forall k | 0 <= k < |days| :: counts[k] == |DayTasks(tasks, days[k])|
    ensures forall k | 0 <= k < |days| :: durations[k] == TotalDuration(DayTasks(tasks, days[k]))
    ensures forall k | 0 <= k < |days| :: counts[k] <= |tasks|
  {
    counts, durations := [], [];
    var k := 0;
    while k < |days|
      invariant 0 <= k <= |days|
      invariant (counts, durations) == DayFigures(tasks, days[..k])
    {
      assert days[..k + 1][..k] == days[..k];
      var dayTasks := DayTasks(tasks, days[k]);
      counts := counts + [|dayTasks|];
      durations := durations + [TotalDuration(dayTasks)];
      k := k + 1;
    }
    assert days[..k] == days;
    forall j | 0 <= j < |days|
      ensures counts[j] == |DayTasks(tasks, days[j])| && durations[j] == TotalDuration(DayTasks(tasks, days[j]))
    {
      DayFiguresAt(tasks, days, j);
    }
  }

  /** `Math.max(...counts, 1)` */
  function MaxTaskCount(counts: seq<nat>): (m: nat)
    ensures m >= 1
    ensures forall k | 0 <= k < |counts| :: counts[k] <= m
    ensures m == 1 || exists k | 0 <= k < |counts| :: counts[k] == m
  {
    if counts == [] then 1
    else
      var rest := MaxTaskCount(counts[1..]);
      assert forall k | 1 <= k < |counts| :: counts[k] == counts[1..][k - 1];
      if counts[0] > rest then counts[0] else rest
  }

  /** `Math.max(count / max * 100, 5)` */
  function BarHeight(count: nat, max: nat): real
    requires max >= 1
  {
    var h := (count as real) / (max as real) * 100.0;
    if h > 5.0 then h else 5.0
  }

  lemma BarHeightBounds(count: nat, max: nat)
    requires 1 <= max && count <= max
    ensures 5.0 <= BarHeight(count, max) <= 100.0
    ensures count == max ==> BarHeight(count, max) == 100.0
  {
    var q := (count as real) / (max as real);
    assert q * (max as real) == count as real;
    assert (count as real) <= (max as real);
    assert q <= 1.0;
    if count == max {
      assert q == 1.0;
    }
  }

  /** Every bar of the chart is between 5% and 100% high, and the tallest day fills the chart. */
  lemma BarHeightsInRange(counts: seq<nat>)
    ensures forall k | 0 <= k < |counts| :: 5.0 <= BarHeight(counts[k], MaxTaskCount(counts)) <= 100.0
    ensures forall k | 0 <= k < |counts| :: counts[k] == MaxTaskCount(counts) ==> BarHeight(counts[k], MaxTaskCount(counts)) == 100.0
  {
    var m := MaxTaskCount(counts);
    forall k | 0 <= k < |counts|
      ensures 5.0 <= BarHeight(counts[k], m) <= 100.0
      ensures counts[k] == m ==> BarHeight(counts[k], m) == 100.0
    {
      BarHeightBounds(counts[k], m);
    }
  }

  // ---------------------------------------------------------------------------------------------
  // populateTagFilter

  /** Position of the first task carrying tag `u`, or -1. */
  function FirstWithTag(tasks: seq<Task>, u: string): (i: int)
    ensures -1 <= i < |tasks|
  {
    if tasks == [] then -1
    else if tasks[0].tag == u then 0
    else
      var k := FirstWithTag(tasks[1..], u);
      if k == -1 then -1 else k + 1
  }

  /** `FirstWithTag` is -1 exactly when no task carries `u`, and otherwise a position carrying `u`
      with no earlier one. */
  lemma {:induction false} FirstWithTagSpec(tasks: seq<Task>, u: string)
    ensures FirstWithTag(tasks, u) == -1 <==> forall j | 0 <= j < |tasks| :: tasks[j].tag != u
    ensures FirstWithTag(tasks, u) >= 0 ==>
      tasks[FirstWithTag(tasks, u)].tag == u && forall j | 0 <= j < FirstWithTag(tasks, u) :: tasks[j].tag != u
  {
    if tasks != [] && tasks[0].tag != u {
      FirstWithTagSpec(tasks[1..], u);
      assert forall j | 1 <= j < |tasks| :: tasks[j] == tasks[1..][j - 1];
    }
  }

  /** After the first `i` tasks, `tags` holds each tag met so far once, in order of first appearance. */
  ghost predicate DistinctPrefix(tasks: seq<Task>, i: int, tags: seq<string>) {
    0 <= i <= |tasks|
    && (forall a, b | 0 <= a < b < |tags| :: tags[a] != tags[b])
    && (forall k | 0 <= k < |tags| :: tags[k] != "" && 0 <= FirstWithTag(tasks, tags[k]) < i)
    && (forall j | 0 <= j < i :: tasks[j].tag != "" ==> tasks[j].tag in tags)
    && (forall a, b | 0 <= a < b < |tags| :: FirstWithTag(tasks, tags[a]) < FirstWithTag(tasks, tags[b]))
  }

  /** A tag met for the first time at `i` is appended. */
  lemma DistinctAppend(tasks: seq<Task>, i: int, tags: seq<string>)
    requires DistinctPrefix(tasks, i, tags) && i < |tasks|
    requires tasks[i].tag != "" && tasks[i].tag !in tags
    ensures DistinctPrefix(tasks, i + 1, tags + [tasks[i].tag])
  {
    var u := tasks[i].tag;
    FirstWithTagSpec(tasks, u);
    assert FirstWithTag(tasks, u) == i;
    var t := tags + [u];
    assert forall k | 0 <= k < |tags| :: t[k] == tags[k];
  }

  /** An empty tag, or one already listed, leaves the list as it is. */
  lemma DistinctSkip(tasks: seq<Task>, i: int, tags: seq<string>)
    requires DistinctPrefix(tasks, i, tags) && i < |tasks|
    requires tasks[i].tag == "" || tasks[i].tag in tags
    ensures DistinctPrefix(tasks, i + 1, tags)
  {
  }

  /** The `Set` of truthy tags, in insertion order: each tag once, ordered by first appearance. */
  method DistinctTags(tasks: seq<Task>) returns (tags: seq<string>)
    ensures forall a, b | 0 <= a < b < |tags| :: tags[a] != tags[b]
    ensures forall k | 0 <= k < |tags| :: tags[k] != "" && FirstWithTag(tasks, tags[k]) >= 0
    ensures forall j | 0 <= j < |tasks| :: tasks[j].tag != "" ==> tasks[j].tag in tags
    ensures forall a, b | 0 <= a < b < |tags| :: FirstWithTag(tasks, tags[a]) < FirstWithTag(tasks, tags[b])
  {
    tags := [];
    var seen: set<string> := {};
    var i := 0;
    while i < |tasks|
      invariant DistinctPrefix(tasks, i, tags)
      invariant forall x :: x in seen <==> x in tags
    {
      var u := tasks[i].tag;
      if u != "" && u !in seen {
        DistinctAppend(tasks, i, tags);
        tags := tags + [u];
        seen := seen + {u};
      } else {
        DistinctSkip(tasks, i, tags);
      }
      i := i + 1;
    }
  }

  // ---------------------------------------------------------------------------------------------
  // applyFilters

  /** Whether a task survives the first `stage` steps of the filter chain: the tag step (when a tag
      is selected), the date step (when a date is selected) and the search step (when the query is
      not blank). */
  predicate PassesUpTo(t: Task, stage: nat, selectedTag: string, selectedDate: string, query: string) {
    (stage >= 1 && selectedTag != "" ==> t.tag == selectedTag)
    && (stage >= 2 && selectedDate != "" ==> t.dueDate == selectedDate)
    && (stage >= 3 && !IsBlank(query) ==> MatchesTerm(t, SearchTerm(query)))
  }

  /** What the task list shows: the tasks that survive all three steps. */
  predicate PassesFilters(t: Task, selectedTag: string, selectedDate: string, query: string) {
    PassesUpTo(t, 3, selectedTag, selectedDate, query)
  }

  /** After `stage` steps, `shown` keeps the order of `tasks` and holds every task that survives
      those steps as often as `tasks` does, and no other. */
  ghost predicate ShowsUpTo(shown: seq<Task>, tasks: seq<Task>, stage: nat, selectedTag: string,
                            selectedDate: string, query: string) {
    IsSubsequence(shown, tasks)
    && forall x :: multiset(shown)[x] == if PassesUpTo(x, stage, selectedTag, selectedDate, query) then multiset(tasks)[x] else 0
  }

  /** `tasks.filter(task => task.tag === tag)` */
  function TaggedTasks(tasks: seq<Task>, tag: string): (r: seq<Task>)
    ensures forall x | x in r :: x in tasks && x.tag == tag
    ensures forall x | x in tasks && x.tag == tag :: x in r
    ensures forall x :: multiset(r)[x] == if x.tag == tag then multiset(tasks)[x] else 0
    ensures IsSubsequence(r, tasks)
  {
    FilterIsSubsequence(tasks, (t: Task) => t.tag == tag);
    Filter(tasks, (t: Task) => t.tag == tag)
  }

  lemma ShowsStart(tasks: seq<Task>, selectedTag: string, selectedDate: string, query: string)
    ensures ShowsUpTo(tasks, tasks, 0, selectedTag, selectedDate, query)
  {
    SubsequenceOfItself(tasks);
  }

  /** The tag step. */
  lemma NarrowByTag(tasks: seq<Task>, before: seq<Task>, selectedTag: string, selectedDate: string, query: string)
    requires ShowsUpTo(before, tasks, 0, selectedTag, selectedDate, query)
    ensures ShowsUpTo(if selectedTag != "" then TaggedTasks(before, selectedTag) else before,
                      tasks, 1, selectedTag, selectedDate, query)
  {
    if selectedTag != "" {
      SubsequenceTransitive(TaggedTasks(before, selectedTag), before, tasks);
    }
  }

  /** The date step. */
  lemma NarrowByDate(tasks: seq<Task>, before: seq<Task>, selectedTag: string, selectedDate: string, query: string)
    requires ShowsUpTo(before, tasks, 1, selectedTag, selectedDate, query)
    ensures ShowsUpTo(if selectedDate != "" then DayTasks(before, selectedDate) else before,
                      tasks, 2, selectedTag, selectedDate, query)
  {
    if selectedDate != "" {
      SubsequenceTransitive(DayTasks(before, selectedDate), before, tasks);
    }
  }

  /** The third step adds the search test to the first two. */
  lemma {:induction false} SearchStage(x: Task, selectedTag: string, selectedDate: string, query: string)
    ensures PassesUpTo(x, 3, selectedTag, selectedDate, query)
      == (PassesUpTo(x, 2, selectedTag, selectedDate, query) && (!IsBlank(query) ==> MatchesTerm(x, SearchTerm(query))))
  {
  }

  /** The search step: `searchTasks` on a non-empty query, whose blank case keeps everything. */
  lemma NarrowByQuery(tasks: seq<Task>, before: seq<Task>, selectedTag: string, selectedDate: string, query: string)
    requires ShowsUpTo(before, tasks, 2, selectedTag, selectedDate, query)
    ensures ShowsUpTo(if query != "" then SearchTasks(before, query) else before,
                      tasks, 3, selectedTag, selectedDate, query)
  {
    if IsBlank(query) {
      BlankQueryStep(tasks, before, selectedTag, selectedDate, query);
    } else {
      QueryStep(tasks, before, selectedTag, selectedDate, query);
    }
  }

  lemma {:induction false} BlankQueryStep(tasks: seq<Task>, before: seq<Task>, selectedTag: string, selectedDate: string, query: string)
    requires IsBlank(query) && ShowsUpTo(before, tasks, 2, selectedTag, selectedDate, query)
    ensures ShowsUpTo(before, tasks, 3, selectedTag, selectedDate, query)
  {
    forall x ensures multiset(before)[x] ==
      if PassesUpTo(x, 3, selectedTag, selectedDate, query) then multiset(tasks)[x] else 0
    {
      SearchStage(x, selectedTag, selectedDate, query);
    }
  }

  lemma {:induction false} QueryStep(tasks: seq<Task>, before: seq<Task>, selectedTag: string, selectedDate: string, query: string)
    requires !IsBlank(query) && ShowsUpTo(before, tasks, 2, selectedTag, selectedDate, query)
    ensures ShowsUpTo(SearchTasks(before, query), tasks, 3, selectedTag, selectedDate, query)
  {
    var after := SearchTasks(before, query);
    SubsequenceTransitive(after, before, tasks);
    forall x ensures multiset(after)[x] ==
      if PassesUpTo(x, 3, selectedTag, selectedDate, query) then multiset(tasks)[x] else 0
    {
      assert multiset(after)[x] == if MatchesTerm(x, SearchTerm(query)) then multiset(before)[x] else 0;
      assert multiset(before)[x] == if PassesUpTo(x, 2, selectedTag, selectedDate, query) then multiset(tasks)[x] else 0;
      SearchStage(x, selectedTag, selectedDate, query);
    }
  }

  /** `applyFilters`: narrow the list by tag, then by date, then by search, each step only when its
      control has a value. */
  method ApplyFilters(tasks: seq<Task>, selectedTag: string, selectedDate: string, query: string)
    returns (shown: seq<Task>)
    ensures IsSubsequence(shown, tasks)
    ensures forall i | 0 <= i < |shown| :: PassesFilters(shown[i], selectedTag, selectedDate, query)
    ensures forall i | 0 <= i < |tasks| :: PassesFilters(tasks[i], selectedTag, selectedDate, query) ==> tasks[i] in shown
    ensures forall x :: multiset(shown)[x] == if PassesFilters(x, selectedTag, selectedDate, query) then multiset(tasks)[x] else 0
    ensures shown == Filter(tasks, (t: Task) => PassesFilters(t, selectedTag, selectedDate, query))
  {
    shown := tasks;
    ShowsStart(tasks, selectedTag, selectedDate, query);
    NarrowByTag(tasks, shown, selectedTag, selectedDate, query);
    if selectedTag != "" {
      shown := TaggedTasks(shown, selectedTag);
    }
    NarrowByDate(tasks, shown, selectedTag, selectedDate, query);
    if selectedDate != "" {
      shown := DayTasks(shown, selectedDate);
    }
    NarrowByQuery(tasks, shown, selectedTag, selectedDate, query);
    if query != "" {
      shown := SearchTasks(shown, query);
    }
    FilterUnique(shown, tasks, (t: Task) => PassesFilters(t, selectedTag, selectedDate, query));
  }
}
