/** The task list of the to-do widget as values: the task record, the
    array operations the widget applies to its list (`filter`, `find`,
    `findIndex`, the edit-by-slicing, the completion flip) and what each
    of them keeps or changes. */
module TaskList {

  /** One to-do entry: `{id, task, isCompleted}`. */
  datatype Task = Task(id: int, text: string, completed: bool)

  /** The ids of a list, position by position. */
  function Ids(s: seq<Task>): (r: seq<int>)
    ensures |r| == |s|
    ensures forall i :: 0 <= i < |s| ==> r[i] == s[i].id
  {
    if s == [] then [] else [s[0].id] + Ids(s[1..])
  }

  /** No value occurs twice. */
  predicate Distinct(xs: seq<int>)
  {
    xs == [] || (xs[0] !in xs[1..] && Distinct(xs[1..]))
  }

  /** No two positions of the list carry the same id. */
  predicate UniqueIds(s: seq<Task>)
  {
    Distinct(Ids(s))
  }

  predicate IsActive(t: Task) { !t.completed }

  predicate IsDone(t: Task) { t.completed }

  /** `Array.prototype.filter`: the elements `keep` accepts, in order. */
  function Filter(s: seq<Task>, keep: Task -> bool): (r: seq<Task>)
    ensures |r| <= |s|
    ensures forall t :: t in r <==> t in s && keep(t)
  {
    if s == [] then []
    else if keep(s[0]) then [s[0]] + Filter(s[1..], keep)
    else Filter(s[1..], keep)
  }

  /** `r` is `s` with some elements dropped and the rest in their order. */
  ghost predicate Subsequence(r: seq<Task>, s: seq<Task>)
  {
    if r == [] then true
    else if s == [] then false
    else (r[0] == s[0] && Subsequence(r[1..], s[1..])) || Subsequence(r, s[1..])
  }

  /** The "Active" menu and the items-left count: the incomplete tasks. */
  function Active(s: seq<Task>): (r: seq<Task>)
    ensures |r| <= |s|
    ensures forall t :: t in r <==> t in s && !t.completed
  {
    Filter(s, IsActive)
  }

  /** The "Completed" menu and the clear-completed test: the completed tasks. */
  function Completed(s: seq<Task>): (r: seq<Task>)
    ensures |r| <= |s|
    ensures forall t :: t in r <==> t in s && t.completed
  {
    Filter(s, IsDone)
  }

  /** The number shown in the footer as items left. */
  function CountLeft(s: seq<Task>): (n: nat)
    ensures n + |Completed(s)| == |s|
  {
    FilterPartition(s, IsActive, IsDone);
    |Active(s)|
  }

  /** `findIndex` on the id: the first position holding `id`, or -1. */
  function FindIndex(s: seq<Task>, id: int): (r: int)
    ensures -1 <= r < |s|
    ensures r == -1 <==> id !in Ids(s)
    ensures r >= 0 ==> s[r].id == id && forall j :: 0 <= j < r ==> s[j].id != id
  {
    if s == [] then -1
    else if s[0].id == id then 0
    else
      var k := FindIndex(s[1..], id);
      if k == -1 then -1 else k + 1
  }

  /** The edit path of the submit handler: the first task with `id` is
      replaced by a copy carrying the new text, spliced back between the
      slices before and after it (the slices and the copy are built here
      as one sequence update, which gives the same sequence). */
  function Edited(s: seq<Task>, id: int, text: string): (r: seq<Task>)
    requires id in Ids(s)
    ensures |r| == |s|
    ensures var i := FindIndex(s, id);
      r[i].id == id && r[i].text == text && r[i].completed == s[i].completed &&
      forall j :: 0 <= j < |s| && j != i ==> r[j] == s[j]
  {
    var i := FindIndex(s, id);
    s[i := s[i].(text := text)]
  }

  /** The update is the slice-and-spread the handler writes. */
  lemma EditedIsSplice(s: seq<Task>, id: int, text: string)
    requires id in Ids(s)
    ensures var i := FindIndex(s, id);
      Edited(s, id, text) == s[..i] + [s[i].(text := text)] + s[i + 1..]
  {
  }

  /** `completeTask`: the first task with `id` has its flag flipped in place. */
  function Toggled(s: seq<Task>, id: int): (r: seq<Task>)
    requires id in Ids(s)
    ensures |r| == |s| && Ids(r) == Ids(s)
    ensures var i := FindIndex(s, id);
      r[i].text == s[i].text && r[i].completed == !s[i].completed &&
      forall j :: 0 <= j < |s| && j != i ==> r[j] == s[j]
  {
    var i := FindIndex(s, id);
    s[i := s[i].(completed := !s[i].completed)]
  }

  /** `deleteTask`: every task whose id differs, in order. */
  function Without(s: seq<Task>, id: int): (r: seq<Task>)
    ensures |r| <= |s|
    ensures forall t :: t in r <==> t in s && t.id != id
  {
    Filter(s, (t: Task) => t.id != id)
  }

  /** `clearCompletedTasks`: nothing happens when no task is completed,
      otherwise the list becomes its incomplete tasks. */
  function ClearCompleted(s: seq<Task>): (r: seq<Task>)
    ensures |r| <= |s|
    ensures forall t :: t in r <==> t in s && !t.completed
  {
    if |Completed(s)| == 0 then s else Active(s)
  }

  /** The edit keeps each task's id at its position. */
  lemma EditedKeepsIds(s: seq<Task>, id: int, text: string)
    requires id in Ids(s)
    ensures Ids(Edited(s, id, text)) == Ids(s)
    ensures UniqueIds(s) ==> UniqueIds(Edited(s, id, text))
  {
    var r := Edited(s, id, text);
    assert forall i :: 0 <= i < |s| ==> Ids(r)[i] == Ids(s)[i];
  }

  /** The edit changes only text, so the items-left count stays. */
  lemma {:induction false} EditedKeepsCount(s: seq<Task>, id: int, text: string)
    requires id in Ids(s)
    ensures CountLeft(Edited(s, id, text)) == CountLeft(s)
  {
    var i := FindIndex(s, id);
    var r := Edited(s, id, text);
    SameFlagsSameCount(s, r);
  }

  /** Two lists whose flags agree position by position have the same
      number of incomplete tasks. */
  lemma {:induction false} SameFlagsSameCount(s: seq<Task>, r: seq<Task>)
    requires |s| == |r|
    requires forall j :: 0 <= j < |s| ==> s[j].completed == r[j].completed
    ensures CountLeft(s) == CountLeft(r)
  {
    if s != [] {
      SameFlagsSameCount(s[1..], r[1..]);
    }
  }

  /** Flipping the same task twice gives the list back. */
  lemma ToggleTwice(s: seq<Task>, id: int)
    requires id in Ids(s)
    ensures id in Ids(Toggled(s, id))
    ensures Toggled(Toggled(s, id), id) == s
  {
    var r := Toggled(s, id);
    assert FindIndex(r, id) == FindIndex(s, id) by {
      SameIdsSameIndex(s, r, id);
    }
  }

  /** The position `findIndex` reports depends on the ids alone. */
  lemma SameIdsSameIndex(s: seq<Task>, r: seq<Task>, id: int)
    requires Ids(s) == Ids(r)
    ensures FindIndex(s, id) == FindIndex(r, id)
  {
    var i, k := FindIndex(s, id), FindIndex(r, id);
    if i != -1 && k != -1 {
      assert Ids(s)[i] == id && Ids(s)[k] == id;
    }
  }

  /** A flip moves the count of incomplete tasks by exactly one. */
  lemma {:induction false} ToggledCount(s: seq<Task>, id: int)
    requires id in Ids(s)
    ensures var i := FindIndex(s, id);
      CountLeft(Toggled(s, id)) == if s[i].completed then CountLeft(s) + 1 else CountLeft(s) - 1
  {
    var i := FindIndex(s, id);
    var r := Toggled(s, id);
    FlipCount(s, r, i);
  }

  lemma {:induction false} FlipCount(s: seq<Task>, r: seq<Task>, i: nat)
    requires |s| == |r| && i < |s|
    requires r[i].completed == !s[i].completed
    requires forall j :: 0 <= j < |s| && j != i ==> s[j].completed == r[j].completed
    ensures CountLeft(r) == if s[i].completed then CountLeft(s) + 1 else CountLeft(s) - 1
  {
    if i == 0 {
      SameFlagsSameCount(s[1..], r[1..]);
    } else {
      FlipCount(s[1..], r[1..], i - 1);
    }
  }

  /** The filter keeps the surviving elements in their original order. */
  lemma {:induction false} FilterIsSubsequence(s: seq<Task>, keep: Task -> bool)
    ensures Subsequence(Filter(s, keep), s)
  {
    if s != [] {
      FilterIsSubsequence(s[1..], keep);
      var rest := Filter(s[1..], keep);
      if keep(s[0]) {
        assert Filter(s, keep) == [s[0]] + rest;
        assert ([s[0]] + rest)[1..] == rest;
      } else {
        SubsequenceCons(rest, s);
      }
    }
  }

  lemma SubsequenceCons(r: seq<Task>, s: seq<Task>)
    requires s != [] && Subsequence(r, s[1..])
    ensures Subsequence(r, s)
  {
  }

  /** A filter that keeps every element is the identity. */
  lemma {:induction false} FilterAll(s: seq<Task>, keep: Task -> bool)
    requires forall t :: t in s ==> keep(t)
    ensures Filter(s, keep) == s
  {
    if s != [] {
      assert forall t :: t in s[1..] ==> t in s;
      FilterAll(s[1..], keep);
    }
  }

  /** Two complementary filters split the list: their lengths add up and
      together they hold every element as often as the list does. */
  lemma {:induction false} FilterPartition(s: seq<Task>, p: Task -> bool, q: Task -> bool)
    requires forall t :: q(t) == !p(t)
    ensures |Filter(s, p)| + |Filter(s, q)| == |s|
    ensures multiset(Filter(s, p)) + multiset(Filter(s, q)) == multiset(s)
  {
    if s != [] {
      FilterPartition(s[1..], p, q);
      assert s == [s[0]] + s[1..];
    }
  }

  /** The "Active" and "Completed" menus partition the list. */
  lemma ActiveCompletedPartition(s: seq<Task>)
    ensures |Active(s)| + |Completed(s)| == |s|
    ensures multiset(Active(s)) + multiset(Completed(s)) == multiset(s)
    ensures forall t :: t in Active(s) ==> t in s && !t.completed
    ensures forall t :: t in Completed(s) ==> t in s && t.completed
    ensures Subsequence(Active(s), s) && Subsequence(Completed(s), s)
  {
    FilterPartition(s, IsActive, IsDone);
    FilterIsSubsequence(s, IsActive);
    FilterIsSubsequence(s, IsDone);
  }

  /** Deleting leaves exactly the tasks with other ids, in order, and the
      list shrinks by the number of tasks that carried `id`. */
  lemma {:induction false} WithoutSpec(s: seq<Task>, id: int)
    ensures forall t :: t in Without(s, id) <==> t in s && t.id != id
    ensures Subsequence(Without(s, id), s)
    ensures |Without(s, id)| == |s| - multiset(Ids(s))[id]
  {
    FilterIsSubsequence(s, (t: Task) => t.id != id);
    if s != [] {
      WithoutSpec(s[1..], id);
      assert Ids(s) == [s[0].id] + Ids(s[1..]);
    }
  }

  /** With unique ids, deleting a present id removes one task and deleting
      an absent one removes none. */
  lemma {:induction false} WithoutUnique(s: seq<Task>, id: int)
    requires UniqueIds(s)
    ensures |Without(s, id)| == if id in Ids(s) then |s| - 1 else |s|
  {
    WithoutSpec(s, id);
    AtMostOnce(s, id);
  }

  lemma {:induction false} AtMostOnce(s: seq<Task>, id: int)
    requires UniqueIds(s)
    ensures multiset(Ids(s))[id] == if id in Ids(s) then 1 else 0
  {
    if s != [] {
      AtMostOnce(s[1..], id);
      assert Ids(s) == [s[0].id] + Ids(s[1..]);
      if s[0].id == id {
        assert id !in Ids(s[1..]);
      }
    }
  }

  /** Filtering never creates a duplicate id. */
  lemma {:induction false} FilterKeepsUnique(s: seq<Task>, keep: Task -> bool)
    requires UniqueIds(s)
    ensures UniqueIds(Filter(s, keep))
  {
    if s != [] {
      assert Ids(s) == [s[0].id] + Ids(s[1..]);
      FilterKeepsUnique(s[1..], keep);
      if keep(s[0]) {
        var rest := Filter(s[1..], keep);
        FilterIds(s[1..], keep, s[0].id);
        assert Ids(Filter(s, keep)) == [s[0].id] + Ids(rest);
      }
    }
  }

  /** An id of a filtered list is an id of the list. */
  lemma FilterIds(s: seq<Task>, keep: Task -> bool, id: int)
    ensures id in Ids(Filter(s, keep)) ==> id in Ids(s)
  {
    var r := Filter(s, keep);
    if id in Ids(r) {
      var i :| 0 <= i < |r| && Ids(r)[i] == id;
      assert r[i] in s;
      var j :| 0 <= j < |s| && s[j] == r[i];
      assert Ids(s)[j] == id;
    }
  }

  /** Clearing completed tasks yields the incomplete tasks in both cases. */
  lemma ClearIsActive(s: seq<Task>)
    ensures ClearCompleted(s) == Active(s)
    ensures |Completed(s)| == 0 ==> ClearCompleted(s) == s
  {
    if |Completed(s)| == 0 {
      assert Completed(s) == [];
      FilterAll(s, IsActive);
    }
  }

  /** Clearing completed tasks never changes the items-left count. */
  lemma ClearKeepsCount(s: seq<Task>)
    ensures CountLeft(ClearCompleted(s)) == CountLeft(s)
    ensures UniqueIds(s) ==> UniqueIds(ClearCompleted(s))
  {
    ClearIsActive(s);
    FilterAll(Active(s), IsActive);
    if UniqueIds(s) { FilterKeepsUnique(s, IsActive); }
  }

  /** Prepending a fresh task keeps the ids unique and adds one to the count. */
  lemma PrependFresh(s: seq<Task>, id: int, text: string)
    requires id !in Ids(s)
    ensures UniqueIds(s) ==> UniqueIds([Task(id, text, false)] + s)
    ensures CountLeft([Task(id, text, false)] + s) == CountLeft(s) + 1
  {
    var r := [Task(id, text, false)] + s;
    assert r[1..] == s;
    assert Ids(r) == [id] + Ids(s);
  }
}
