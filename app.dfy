/** The widget's state machine: the module-level `tasks`, `filteredTasks`
    and `isShowAllTasks`, the durable "tasks" slot of local storage and the
    items-left text of the footer, with one method per handler. */
module TodoApp {
  import opened TaskList
  import opened Decimal

  datatype Option<T> = None | Some(value: T)

  /** What `JSON.parse` gives back from the "tasks" slot: an array of task
      records, or anything else (the slot was never written, or holds a
      value that is not an array). */
  datatype Slot = NotAnArray | TaskArray(items: seq<Task>)

  /** The footer menu entry a click lands on, by the class it carries. */
  datatype Menu = AllMenu | ActiveMenu | CompletedMenu | OtherMenu

  /** `countLeftItems`: "N Items Left" for more than one, "N Item Left"
      otherwise, the number written in decimal. */
  function ItemsLeftLabel(n: nat): string
  {
    Render(n) + if n > 1 then " Items Left" else " Item Left"
  }

  /** The label is the decimal numeral of its count, with no leading zero,
      followed by nothing but the suffix, which is plural exactly when the
      count exceeds one. */
  lemma ItemsLeftLabelSpec(n: nat)
    ensures var r := ItemsLeftLabel(n);
      LeadingNumber(r) == n &&
      (n > 1 ==> |r| > 11 && r[|r| - 11..] == " Items Left") &&
      (n <= 1 ==> |r| > 10 && r[|r| - 10..] == " Item Left")
    ensures var r := ItemsLeftLabel(n);
      var k := |r| - (if n > 1 then 11 else 10);
      0 < k && AllDigits(r[..k]) && Parse(r[..k]) == n && (k > 1 ==> r[0] != '0')
  {
    RenderThenText(n, if n > 1 then " Items Left" else " Item Left");
    ParseRender(n);
    var r := ItemsLeftLabel(n);
    assert r[..|r| - (if n > 1 then 11 else 10)] == Render(n);
  }

  /** The singular form is used for zero as well as for one. */
  lemma LabelExamples()
    ensures ItemsLeftLabel(0) == "0 Item Left"
    ensures ItemsLeftLabel(1) == "1 Item Left"
    ensures ItemsLeftLabel(2) == "2 Items Left"
  {
    assert Render(0) == "0" && Render(1) == "1" && Render(2) == "2";
  }

  /** The restore test: the slot holds an array with at least one element. */
  predicate Restorable(slot: Slot)
  {
    slot.TaskArray? && |slot.items| > 0
  }

  /** The list after the startup restore: the saved tasks are appended, but
      only when the slot is restorable. */
  function Restored(s: seq<Task>, slot: Slot): (r: seq<Task>)
    ensures s <= r
    ensures |r| > |s| <==> Restorable(slot)
    ensures |r| > |s| ==> r[|s|..] == slot.items
  {
    if Restorable(slot) then s + slot.items else s
  }

  /** Saving a list and restoring it into an empty list gives it back. */
  lemma ReloadRoundTrip(s: seq<Task>)
    ensures Restored([], TaskArray(s)) == s
  {
  }

  /** A slot in step with a list restores exactly that list into an empty one. */
  lemma SyncedReloads(tasks: seq<Task>, storage: Slot)
    requires storage == TaskArray(tasks) || (tasks == [] && !Restorable(storage))
    ensures Restored([], storage) == tasks
  {
    if storage == TaskArray(tasks) { ReloadRoundTrip(tasks); }
  }

  class TodoList {
    var tasks: seq<Task>
    var filteredTasks: seq<Task>
    var showAll: bool
    var storage: Slot
    var itemsLeftText: string

    /** The slot holds the current list, or the list is empty and the slot
        holds nothing to restore: reloading the page now would restore
        exactly the current list. */
    ghost predicate Synced()
      reads this
    {
      storage == TaskArray(tasks) || (tasks == [] && !Restorable(storage))
    }

    /** The slot is in step with the list and the footer shows its count. */
    ghost predicate Valid()
      reads this
    {
      Synced() && itemsLeftText == ItemsLeftLabel(CountLeft(tasks))
    }

    /** Page load: empty state, then the restore from local storage. */
    constructor (saved: Slot)
      ensures Valid()
      ensures tasks == Restored([], saved)
      ensures storage == if Restorable(saved) then TaskArray(tasks) else saved
      ensures filteredTasks == [] && showAll
    {
      tasks := [];
      filteredTasks := [];
      showAll := true;
      storage := saved;
      itemsLeftText := "";
      new;
      RestoreFromStorage();
    }

    /** `saveTasksIntoLocalStorage`: the slot is overwritten with the list. */
    method SaveTasks()
      modifies this`storage
      ensures storage == TaskArray(tasks) && Synced()
    {
      storage := TaskArray(tasks);
    }

    /** `displayFooterIfHaveTasks`: the footer shows the incomplete count. */
    method DisplayFooter()
      modifies this`itemsLeftText
      ensures itemsLeftText == ItemsLeftLabel(CountLeft(tasks))
    {
      itemsLeftText := ItemsLeftLabel(CountLeft(tasks));
    }

    /** `displayTasksFromLocalStorage`: append what the slot holds when it is
        a non-empty array (and save), then refresh the footer. */
    method RestoreFromStorage()
      requires tasks == [] || Synced()
      modifies this`tasks, this`storage, this`itemsLeftText
      ensures Valid()
      ensures tasks == Restored(old(tasks), old(storage))
      ensures Restorable(old(storage)) ==> storage == TaskArray(tasks)
      ensures !Restorable(old(storage)) ==> storage == old(storage)
    {
      if Restorable(storage) {
        tasks := tasks + storage.items;
        SaveTasks();
      }
      DisplayFooter();
    }

    /** `handleSubmit`. Only the empty text is rejected, before either
        path; a set hidden id selects the edit path, otherwise a new task
        with the given id is added. */
    method Submit(text: string, editing: Option<int>, freshId: int)
      requires Valid()
      requires text != "" && editing.Some? ==> editing.value in Ids(tasks)
      requires text != "" && editing.None? ==> freshId !in Ids(tasks)
      modifies this`tasks, this`storage, this`itemsLeftText
      ensures Valid()
      ensures text == "" ==> tasks == old(tasks) && storage == old(storage) && itemsLeftText == old(itemsLeftText)
      ensures text != "" && editing.Some? ==> tasks == Edited(old(tasks), editing.value, text)
      ensures text != "" && editing.None? ==> tasks == [Task(freshId, text, false)] + old(tasks)
      ensures text != "" ==> storage == TaskArray(tasks)
      ensures UniqueIds(old(tasks)) ==> UniqueIds(tasks)
    {
      if text == "" {
        return;
      }
      if editing.Some? {
        EditTask(editing.value, text);
      } else {
        AddTask(freshId, text);
      }
    }

    /** The edit path of `handleSubmit`: the list is rebuilt with a copy of
        the task carrying the new text at the same index, then saved; the
        footer is not refreshed, and its count stays right. */
    method EditTask(id: int, text: string)
      requires Valid()
      requires id in Ids(tasks)
      modifies this`tasks, this`storage
      ensures Valid()
      ensures tasks == Edited(old(tasks), id, text)
      ensures storage == TaskArray(tasks)
      ensures UniqueIds(old(tasks)) ==> UniqueIds(tasks)
    {
      EditedKeepsIds(tasks, id, text);
      EditedKeepsCount(tasks, id, text);
      tasks := Edited(tasks, id, text);
      assert itemsLeftText == ItemsLeftLabel(CountLeft(tasks));
      SaveTasks();
    }

    /** The add path of `handleSubmit`: `unshift` of a new incomplete task,
        then save and refresh the footer. */
    method AddTask(id: int, text: string)
      requires Valid()
      requires id !in Ids(tasks)
      modifies this`tasks, this`storage, this`itemsLeftText
      ensures Valid()
      ensures tasks == [Task(id, text, false)] + old(tasks)
      ensures storage == TaskArray(tasks)
      ensures CountLeft(tasks) == CountLeft(old(tasks)) + 1
      ensures UniqueIds(old(tasks)) ==> UniqueIds(tasks)
    {
      PrependFresh(tasks, id, text);
      tasks := [Task(id, text, false)] + tasks;
      SaveTasks();
      DisplayFooter();
    }

    /** `clearCompletedTasks`: without a completed task nothing happens;
        otherwise only the incomplete tasks stay. */
    method ClearCompletedTasks()
      requires Valid()
      modifies this`tasks, this`storage, this`itemsLeftText
      ensures Valid()
      ensures tasks == ClearCompleted(old(tasks)) == Active(old(tasks))
      ensures |Completed(old(tasks))| == 0 ==> unchanged(this)
      ensures |Completed(old(tasks))| > 0 ==> storage == TaskArray(tasks)
      ensures CountLeft(tasks) == CountLeft(old(tasks))
      ensures UniqueIds(old(tasks)) ==> UniqueIds(tasks)
    {
      ClearIsActive(tasks);
      ClearKeepsCount(tasks);
      if |Completed(tasks)| == 0 {
        return;
      }
      tasks := Active(tasks);
      DisplayFooter();
      SaveTasks();
    }

    /** `completeTask`: flip the flag of the task with `id`, save, and
        refresh the count. */
    method CompleteTask(id: int)
      requires Valid()
      requires id in Ids(tasks)
      modifies this`tasks, this`storage, this`itemsLeftText
      ensures Valid()
      ensures tasks == Toggled(old(tasks), id)
      ensures storage == TaskArray(tasks)
      ensures var i := FindIndex(old(tasks), id);
        CountLeft(tasks) == if old(tasks)[i].completed then CountLeft(old(tasks)) + 1
                            else CountLeft(old(tasks)) - 1
      ensures UniqueIds(old(tasks)) ==> UniqueIds(tasks)
    {
      ToggledCount(tasks, id);
      tasks := Toggled(tasks, id);
      SaveTasks();
      DisplayFooter();
    }

    /** `deleteTask`: drop every task carrying `id`, save, refresh the count. */
    method DeleteTask(id: int)
      requires Valid()
      modifies this`tasks, this`storage, this`itemsLeftText
      ensures Valid()
      ensures tasks == Without(old(tasks), id)
      ensures storage == TaskArray(tasks)
      ensures UniqueIds(old(tasks)) ==>
        UniqueIds(tasks) && |tasks| == if id in Ids(old(tasks)) then |old(tasks)| - 1 else |old(tasks)|
    {
      if UniqueIds(tasks) {
        WithoutUnique(tasks, id);
        FilterKeepsUnique(tasks, (t: Task) => t.id != id);
      }
      tasks := Without(tasks, id);
      SaveTasks();
      DisplayFooter();
    }

    /** `filterMenus`: "all" shows the whole list; "active" and "completed"
        take a snapshot of the matching tasks; every recognised click saves.
        The list itself is never changed. */
    method ClickFilter(menu: Menu)
      requires Valid()
      modifies this
      ensures Valid()
      ensures tasks == old(tasks) && itemsLeftText == old(itemsLeftText)
      ensures menu == AllMenu ==> showAll && Shown() == tasks && filteredTasks == old(filteredTasks)
      ensures menu == ActiveMenu ==> !showAll && filteredTasks == Shown() == Active(tasks)
      ensures menu == CompletedMenu ==> !showAll && filteredTasks == Shown() == Completed(tasks)
      ensures menu == OtherMenu ==> unchanged(this)
      ensures menu != OtherMenu ==> storage == TaskArray(tasks)
    {
      match menu {
        case AllMenu =>
          showAll := true;
          SaveTasks();
        case ActiveMenu =>
          showAll := false;
          filteredTasks := Active(tasks);
          SaveTasks();
        case CompletedMenu =>
          showAll := false;
          filteredTasks := Completed(tasks);
          SaveTasks();
        case OtherMenu =>
      }
    }

    /** The tasks the list area shows (`displayTasks`). */
    function Shown(): seq<Task>
      reads this
    {
      if showAll then tasks else filteredTasks
    }
  }

  /** A session: "Buy milk" then "Walk dog" are added, "Buy milk" is
      completed and the completed tasks are cleared. */
  method BuyMilkWalkDog() returns (final: seq<Task>, footer: string, saved: Slot)
    ensures final == [Task(2, "Walk dog", false)]
    ensures footer == "1 Item Left"
    ensures saved == TaskArray(final) && Restored([], saved) == final
  {
    var app := new TodoList(NotAnArray);
    app.Submit("Buy milk", None, 1);
    app.Submit("Walk dog", None, 2);
    CompleteAndClear(app);
    final, footer, saved := app.tasks, app.itemsLeftText, app.storage;
    ReloadRoundTrip(final);
  }

  /** The second half of the session above. */
  method CompleteAndClear(app: TodoList)
    requires app.Valid()
    requires app.tasks == [Task(2, "Walk dog", false), Task(1, "Buy milk", false)]
    modifies app
    ensures app.tasks == [Task(2, "Walk dog", false)]
    ensures app.itemsLeftText == "1 Item Left"
    ensures app.storage == TaskArray(app.tasks)
  {
    app.CompleteTask(1);
    assert app.tasks == [Task(2, "Walk dog", false), Task(1, "Buy milk", true)];
    assert Active(app.tasks) == [Task(2, "Walk dog", false)];
    app.ClearCompletedTasks();
    assert Active(app.tasks) == app.tasks;
    LabelExamples();
  }
}
