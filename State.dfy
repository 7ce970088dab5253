/** The `State` singleton of scripts/state.js: the task list, the settings record and the theme flag,
    each written through to browser storage after every change. Storage is represented by ghost
    copies of the three stored keys (`None` while a key has never been written). `TasksSaved`,
    `SettingsSaved` and `ThemeSaved` say that loading one key back, as scripts/storage.js does, gives
    the value held in memory; `Valid` is all three. The store's methods do not rely on them: the
    page can reorder the live task list without saving it (`ReorderUnsaved`), and the next write
    saves whatever the list then holds. */
module State {
  import opened Wrappers
  import opened JsValues
  import opened Seqs
  import opened Tasks

  /** `loadTasks`: the stored list, or [] when nothing is stored. */
  function LoadTasks(stored: Option<seq<Task>>): seq<Task> {
    if stored.Some? then stored.value else []
  }

  /** The settings `loadSettings` returns when nothing is stored. */
  const DefaultSettings: map<string, JsValue> :=
    map["defaultUnit" := Str("minutes"), "dailyTarget" := Num("120")]

  /** `loadSettings`: the stored record, or the defaults when nothing is stored. */
  function LoadSettings(stored: Option<map<string, JsValue>>): map<string, JsValue> {
    if stored.Some? then stored.value else DefaultSettings
  }

  /** `loadTheme`: dark only when the stored text is "true". */
  function LoadTheme(stored: Option<bool>): bool {
    stored == Some(true)
  }

  class TaskStore {
    var tasks: seq<Task>
    var settings: map<string, JsValue>
    var darkMode: bool

    /** The contents of the "campusTasks", "campusSettings" and "darkMode" storage keys. */
    ghost var storedTasks: Option<seq<Task>>
    ghost var storedSettings: Option<map<string, JsValue>>
    ghost var storedTheme: Option<bool>

    /** Reloading the task list from storage would give back the list in memory. */
    ghost predicate TasksSaved()
      reads this
    {
      LoadTasks(storedTasks) == tasks
    }

    ghost predicate SettingsSaved()
      reads this
    {
      LoadSettings(storedSettings) == settings
    }

    ghost predicate ThemeSaved()
      reads this
    {
      LoadTheme(storedTheme) == darkMode
    }

    /** Reloading from storage would give back the whole in-memory state. */
    ghost predicate Valid()
      reads this
    {
      TasksSaved() && SettingsSaved() && ThemeSaved()
    }

    /** `init`: load the three values from what storage holds. */
    constructor Init(tasksKey: Option<seq<Task>>, settingsKey: Option<map<string, JsValue>>, themeKey: Option<bool>)
      ensures Valid()
      ensures tasks == LoadTasks(tasksKey) && settings == LoadSettings(settingsKey) && darkMode == LoadTheme(themeKey)
      ensures storedTasks == tasksKey && storedSettings == settingsKey && storedTheme == themeKey
    {
      tasks := LoadTasks(tasksKey);
      settings := LoadSettings(settingsKey);
      darkMode := LoadTheme(themeKey);
      storedTasks := tasksKey;
      storedSettings := settingsKey;
      storedTheme := themeKey;
    }

    /** `getTaskById`: the first task with that id, or none. */
    function GetTaskById(id: string): (r: Option<Task>)
      reads this
      ensures r == FindById(tasks, id)
    {
      FindById(tasks, id)
    }

    /** `getTask` is the same lookup under a second name. */
    function GetTask(id: string): (r: Option<Task>)
      reads this
      ensures r == GetTaskById(id)
    {
      FindById(tasks, id)
    }

    /** `addTask`: append a task built from the input, the clock and the current time, save the
        list and return the task. */
    method AddTask(data: TaskInput, clock: nat, now: string) returns (t: Task)
      modifies this
      ensures old(Valid()) ==> Valid()
      ensures t == NewTask(data, clock, now)
      ensures tasks == old(tasks) + [t]
      ensures storedTasks == Some(tasks) && TasksSaved()
      ensures settings == old(settings) && darkMode == old(darkMode)
      ensures storedSettings == old(storedSettings) && storedTheme == old(storedTheme)
    {
      t := NewTask(data, clock, now);
      tasks := tasks + [t];
      storedTasks := Some(tasks);
    }

    /** `updateTask`: replace the first task with that id by its update, save and return it; with no
        such task, return none and change nothing. */
    method UpdateTask(id: string, data: TaskInput, now: string) returns (r: Option<Task>)
      modifies this
      ensures old(Valid()) ==> Valid()
      ensures r.None? <==> !HasId(old(tasks), id)
      ensures r.None? ==> tasks == old(tasks) && storedTasks == old(storedTasks)
      ensures r.Some? ==>
        var i := FindIndex(old(tasks), id);
        tasks == old(tasks)[i := UpdatedTask(old(tasks)[i], data, now)]
        && r.value == tasks[i]
        && storedTasks == Some(tasks) && TasksSaved()
      ensures settings == old(settings) && darkMode == old(darkMode)
      ensures storedSettings == old(storedSettings) && storedTheme == old(storedTheme)
    {
      var i := FindIndex(tasks, id);
      if i == -1 {
        return None;
      }
      tasks := tasks[i := UpdatedTask(tasks[i], data, now)];
      storedTasks := Some(tasks);
      r := Some(tasks[i]);
    }

    /** `deleteTask`: keep the tasks with a different id and save. Nothing is returned. */
    method DeleteTask(id: string)
      modifies this
      ensures old(Valid()) ==> Valid()
      ensures tasks == WithoutId(old(tasks), id)
      ensures storedTasks == Some(tasks) && TasksSaved()
      ensures settings == old(settings) && darkMode == old(darkMode)
      ensures storedSettings == old(storedSettings) && storedTheme == old(storedTheme)
    {
      tasks := WithoutId(tasks, id);
      storedTasks := Some(tasks);
    }

    /** `updateSettings`: shallow merge, the new record's keys winning, then save. */
    method UpdateSettings(newSettings: map<string, JsValue>)
      modifies this
      ensures old(Valid()) ==> Valid()
      ensures settings.Keys == old(settings).Keys + newSettings.Keys
      ensures forall k | k in newSettings :: settings[k] == newSettings[k]
      ensures forall k | k in old(settings) && k !in newSettings :: settings[k] == old(settings)[k]
      ensures storedSettings == Some(settings) && SettingsSaved()
      ensures tasks == old(tasks) && darkMode == old(darkMode)
      ensures storedTasks == old(storedTasks) && storedTheme == old(storedTheme)
    {
      settings := settings + newSettings;
      storedSettings := Some(settings);
    }

    /** `sortTasks` with no filter narrowing the list sorts the very array `getTasks` returned, so
        the list in memory is reordered and nothing is saved. The comparator is not modelled: any
        permutation of the list may result. */
    method ReorderUnsaved(order: seq<Task>)
      requires multiset(order) == multiset(tasks)
      modifies this
      ensures tasks == order
      ensures settings == old(settings) && darkMode == old(darkMode)
      ensures storedTasks == old(storedTasks) && storedSettings == old(storedSettings)
      ensures storedTheme == old(storedTheme)
    {
      tasks := order;
    }

    /** `toggleDarkMode`: flip the flag, save it and return the new value. */
    method ToggleDarkMode() returns (dark: bool)
      modifies this
      ensures old(Valid()) ==> Valid()
      ensures darkMode == !old(darkMode) && dark == darkMode
      ensures storedTheme == Some(darkMode) && ThemeSaved()
      ensures tasks == old(tasks) && settings == old(settings)
      ensures storedTasks == old(storedTasks) && storedSettings == old(storedSettings)
    {
      darkMode := !darkMode;
      storedTheme := Some(darkMode);
      dark := darkMode;
    }
  }

  // -----------------------------------------------------------------------------------------------
  // What a sequence of store operations guarantees

  /** A freshly added task can be looked up by its id, provided the id was not in use. */
  lemma FindAfterAdd(tasks: seq<Task>, t: Task)
    requires !HasId(tasks, t.id)
    ensures FindById(tasks + [t], t.id) == Some(t)
  {
    var s := tasks + [t];
    assert forall j | 0 <= j < |tasks| :: s[j] == tasks[j];
    FindIndexIsFirst(s, t.id, |tasks|);
  }

  /** When the id is already in use, lookup keeps returning the older task, so the new one cannot
      be reached by id. */
  lemma FindAfterAddShadowed(tasks: seq<Task>, t: Task)
    requires HasId(tasks, t.id)
    ensures FindById(tasks + [t], t.id) == FindById(tasks, t.id)
  {
    var s := tasks + [t];
    var k := FindIndex(tasks, t.id);
    assert forall j | 0 <= j < |tasks| :: s[j] == tasks[j];
    FindIndexIsFirst(s, t.id, k);
  }

  /** After a successful update, looking the id up gives the updated task. */
  lemma FindAfterUpdate(tasks: seq<Task>, id: string, data: TaskInput, now: string)
    requires HasId(tasks, id)
    ensures var i := FindIndex(tasks, id);
      FindById(tasks[i := UpdatedTask(tasks[i], data, now)], id) == Some(UpdatedTask(tasks[i], data, now))
  {
    var i := FindIndex(tasks, id);
    var s := tasks[i := UpdatedTask(tasks[i], data, now)];
    FindIndexIsFirst(s, id, i);
  }

  /** After a delete, the id can no longer be found. */
  lemma FindAfterDelete(tasks: seq<Task>, id: string)
    ensures FindById(WithoutId(tasks, id), id).None?
  {
  }

  /** The store's own invariant, ids unique, holds after a delete and an update, and after an add
      exactly when the clock id is not yet in use. */
  lemma StoreKeepsUniqueIds(tasks: seq<Task>, id: string, data: TaskInput, clock: nat, now: string)
    requires UniqueIds(tasks)
    ensures UniqueIds(WithoutId(tasks, id))
    ensures HasId(tasks, id) ==>
      var i := FindIndex(tasks, id);
      UniqueIds(tasks[i := UpdatedTask(tasks[i], data, now)])
    ensures UniqueIds(tasks + [NewTask(data, clock, now)]) <==> !HasId(tasks, IdFor(clock))
  {
    DeleteKeepsUnique(tasks, id);
    AppendUnique(tasks, NewTask(data, clock, now));
  }

  /** Toggling twice restores the theme, both in memory and as it would be reloaded. */
  method ToggleTwice(store: TaskStore) returns (first: bool, second: bool)
    modifies store
    ensures old(store.Valid()) ==> store.Valid()
    ensures store.ThemeSaved()
    ensures first == !old(store.darkMode) && second == old(store.darkMode)
    ensures LoadTheme(store.storedTheme) == old(store.darkMode)
  {
    first := store.ToggleDarkMode();
    second := store.ToggleDarkMode();
  }

  /** Sorting the live list leaves storage behind; the next add saves the sorted list together with
      the new task. */
  method SortThenAdd(store: TaskStore, order: seq<Task>, data: TaskInput, clock: nat, now: string)
    returns (t: Task)
    requires multiset(order) == multiset(store.tasks)
    modifies store
    ensures t == NewTask(data, clock, now)
    ensures store.tasks == order + [t] && store.storedTasks == Some(order + [t])
  {
    store.ReorderUnsaved(order);
    t := store.AddTask(data, clock, now);
  }
}
