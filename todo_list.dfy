/**
 * The to-do list of the home screen: an ordered sequence of records
 * `{id, text, done}` and the four updates the screen applies to it
 * (toggle, add, delete, edit), together with the filtered view it renders.
 * Every update builds a new list from the old one with `map`, `filter` or
 * an append, so each one is a function from the old list to the new.
 */
module TodoList {
  import opened JsArray

  datatype Todo = Todo(id: string, text: string, done: bool)

  /** The ids of the list, in list order. */
  function Ids(todos: seq<Todo>): (r: seq<string>)
    ensures |r| == |todos|
    ensures forall i :: 0 <= i < |todos| ==> r[i] == todos[i].id
  {
    Map(todos, (todo: Todo) => todo.id)
  }

  /** No two items of the list share an id. */
  predicate UniqueIds(todos: seq<Todo>) {
    forall i, j :: 0 <= i < j < |todos| ==> todos[i].id != todos[j].id
  }

  // ---------------------------------------------------------------- toggle

  /**
   * `toggleTodo(id)`: every item whose id is `id` gets its `done` flag
   * flipped; its id and text stay, and every other item is left as it is.
   */
  function Toggle(todos: seq<Todo>, id: string): (r: seq<Todo>)
    ensures |r| == |todos|
    ensures forall i :: 0 <= i < |todos| ==>
              r[i].id == todos[i].id && r[i].text == todos[i].text &&
              r[i].done == (if todos[i].id == id then !todos[i].done else todos[i].done)
    ensures forall i :: 0 <= i < |todos| && todos[i].id != id ==> r[i] == todos[i]
    ensures Ids(r) == Ids(todos)
  {
    Map(todos, (todo: Todo) => if todo.id == id then todo.(done := !todo.done) else todo)
  }

  /** Toggling the same id twice gives back the original list. */
  lemma ToggleTwice(todos: seq<Todo>, id: string)
    ensures Toggle(Toggle(todos, id), id) == todos
  {
    var r := Toggle(Toggle(todos, id), id);
    assert forall i :: 0 <= i < |todos| ==> r[i] == todos[i];
  }

  /** Toggling an id that no item has changes nothing. */
  lemma ToggleAbsent(todos: seq<Todo>, id: string)
    requires id !in Ids(todos)
    ensures Toggle(todos, id) == todos
  {
    var r := Toggle(todos, id);
    forall i | 0 <= i < |todos| ensures r[i] == todos[i] {
      assert Ids(todos)[i] == todos[i].id;
    }
  }

  // ---------------------------------------------------------------- add

  /** `addTodo(text)` with the freshly generated id passed in: appends one open item. */
  function Add(todos: seq<Todo>, id: string, text: string): (r: seq<Todo>)
    ensures |r| == |todos| + 1
    ensures r[..|todos|] == todos
    ensures r[|todos|] == Todo(id, text, false)
  {
    todos + [Todo(id, text, false)]
  }

  /**
   * After an add the ids are unique exactly when they were unique before and
   * the new id was not taken: a reused id is the one way an add breaks uniqueness.
   */
  lemma AddUnique(todos: seq<Todo>, id: string, text: string)
    ensures UniqueIds(Add(todos, id, text)) <==> UniqueIds(todos) && id !in Ids(todos)
  {
    var r := Add(todos, id, text);
    var n := |todos|;
    if UniqueIds(r) {
      forall i, j | 0 <= i < j < n ensures todos[i].id != todos[j].id {
        assert r[i] == todos[i] && r[j] == todos[j];
      }
      forall i | 0 <= i < n ensures Ids(todos)[i] != id {
        assert r[i].id != r[n].id;
      }
    }
    if UniqueIds(todos) && id !in Ids(todos) {
      forall i, j | 0 <= i < j <= n ensures r[i].id != r[j].id {
        if j == n {
          assert Ids(todos)[i] == todos[i].id;
        } else {
          assert r[i] == todos[i] && r[j] == todos[j];
        }
      }
    }
  }

  // ---------------------------------------------------------------- delete

  /** `deleteTodo(id)`: keeps the items whose id is not `id`. */
  function Delete(todos: seq<Todo>, id: string): (r: seq<Todo>)
    ensures |r| <= |todos|
    ensures forall i :: 0 <= i < |r| ==> r[i].id != id
  {
    Filter(todos, (todo: Todo) => todo.id != id)
  }

  /**
   * Delete keeps exactly the items with another id, each as often as it was
   * there and in the original order, and no item with the deleted id is left.
   */
  lemma DeleteKeepsOthers(todos: seq<Todo>, id: string)
    ensures forall x :: multiset(Delete(todos, id))[x] == if x.id != id then multiset(todos)[x] else 0
    ensures IsSubsequence(Delete(todos, id), todos)
    ensures id !in Ids(Delete(todos, id))
  {
    var keep := (todo: Todo) => todo.id != id;
    FilterMultiset(todos, keep);
    FilterIsSubsequence(todos, keep);
    var r := Delete(todos, id);
    assert forall i :: 0 <= i < |r| ==> Ids(r)[i] != id;
  }

  /** Deleting an id that no item has changes nothing. */
  lemma DeleteAbsent(todos: seq<Todo>, id: string)
    requires id !in Ids(todos)
    ensures Delete(todos, id) == todos
  {
    forall i | 0 <= i < |todos| ensures todos[i].id != id {
      assert Ids(todos)[i] == todos[i].id;
    }
    FilterKeepsAll(todos, (todo: Todo) => todo.id != id);
  }

  /** Deleting twice is deleting once. */
  lemma DeleteIdempotent(todos: seq<Todo>, id: string)
    ensures Delete(Delete(todos, id), id) == Delete(todos, id)
  {
    DeleteKeepsOthers(todos, id);
    DeleteAbsent(Delete(todos, id), id);
  }

  /** The ids of a non-empty list are the first id followed by the ids of the rest. */
  lemma IdsCons(todos: seq<Todo>)
    requires todos != []
    ensures Ids(todos) == [todos[0].id] + Ids(todos[1..])
  {
    assert forall i :: 1 <= i < |todos| ==> Ids(todos)[i] == Ids(todos[1..])[i - 1];
  }

  /** A non-empty list has unique ids exactly when its first id does not recur and the rest has unique ids. */
  lemma UniqueCons(todos: seq<Todo>)
    requires todos != []
    ensures UniqueIds(todos) <==> todos[0].id !in Ids(todos[1..]) && UniqueIds(todos[1..])
  {
    var tail := todos[1..];
    IdsCons(todos);
    if UniqueIds(todos) {
      forall k | 0 <= k < |tail| ensures Ids(tail)[k] != todos[0].id {
        assert tail[k] == todos[k + 1];
      }
      forall i, j | 0 <= i < j < |tail| ensures tail[i].id != tail[j].id {
        assert tail[i] == todos[i + 1] && tail[j] == todos[j + 1];
      }
    }
    if todos[0].id !in Ids(tail) && UniqueIds(tail) {
      forall i, j | 0 <= i < j < |todos| ensures todos[i].id != todos[j].id {
        if i == 0 {
          assert Ids(tail)[j - 1] == todos[j].id;
        } else {
          assert todos[i] == tail[i - 1] && todos[j] == tail[j - 1];
        }
      }
    }
  }

  /** Delete on a non-empty list: the first item survives exactly when its id is another one. */
  lemma DeleteCons(todos: seq<Todo>, id: string)
    requires todos != []
    ensures Delete(todos, id) ==
            (if todos[0].id != id then [todos[0]] else []) + Delete(todos[1..], id)
  {
  }

  /** Delete never introduces an id. */
  lemma {:induction false} DeleteIdsSubset(todos: seq<Todo>, id: string)
    ensures forall x :: x in Ids(Delete(todos, id)) ==> x in Ids(todos)
  {
    if todos != [] {
      DeleteIdsSubset(todos[1..], id);
      DeleteCons(todos, id);
      IdsCons(todos);
      if todos[0].id != id {
        IdsCons(Delete(todos, id));
      }
    }
  }

  /** Deleting keeps the ids unique. */
  lemma {:induction false} DeleteUnique(todos: seq<Todo>, id: string)
    requires UniqueIds(todos)
    ensures UniqueIds(Delete(todos, id))
  {
    if todos != [] {
      UniqueCons(todos);
      DeleteUnique(todos[1..], id);
      DeleteCons(todos, id);
      if todos[0].id != id {
        var r := Delete(todos, id);
        DeleteIdsSubset(todos[1..], id);
        assert r[1..] == Delete(todos[1..], id);
        UniqueCons(r);
      }
    }
  }

  /** On a list with unique ids, delete removes exactly one item when the id is present and none otherwise. */
  lemma {:induction false} DeleteCount(todos: seq<Todo>, id: string)
    requires UniqueIds(todos)
    ensures |Delete(todos, id)| == if id in Ids(todos) then |todos| - 1 else |todos|
  {
    if todos == [] {
    } else {
      UniqueCons(todos);
      IdsCons(todos);
      DeleteCons(todos, id);
      DeleteCount(todos[1..], id);
      if todos[0].id == id {
        DeleteAbsent(todos[1..], id);
      }
    }
  }

  // ---------------------------------------------------------------- edit

  /**
   * `handleEdit(id, newText)`: every item whose id is `id` gets `newText` as
   * its text, whatever that text is (empty or blank included); ids, done
   * flags and every other item stay as they were.
   */
  function Edit(todos: seq<Todo>, id: string, newText: string): (r: seq<Todo>)
    ensures |r| == |todos|
    ensures forall i :: 0 <= i < |todos| ==>
              r[i].id == todos[i].id && r[i].done == todos[i].done &&
              r[i].text == (if todos[i].id == id then newText else todos[i].text)
    ensures forall i :: 0 <= i < |todos| && todos[i].id != id ==> r[i] == todos[i]
    ensures Ids(r) == Ids(todos)
  {
    Map(todos, (todo: Todo) => if todo.id == id then todo.(text := newText) else todo)
  }

  /** Editing an id that no item has changes nothing. */
  lemma EditAbsent(todos: seq<Todo>, id: string, newText: string)
    requires id !in Ids(todos)
    ensures Edit(todos, id, newText) == todos
  {
    var r := Edit(todos, id, newText);
    forall i | 0 <= i < |todos| ensures r[i] == todos[i] {
      assert Ids(todos)[i] == todos[i].id;
    }
  }

  /** The later of two edits of the same id wins. */
  lemma EditOverwrite(todos: seq<Todo>, id: string, first: string, second: string)
    ensures Edit(Edit(todos, id, first), id, second) == Edit(todos, id, second)
  {
    var r, s := Edit(Edit(todos, id, first), id, second), Edit(todos, id, second);
    assert forall i :: 0 <= i < |todos| ==> r[i] == s[i];
  }

  /** Editing and toggling touch different fields, so their order does not matter. */
  lemma EditToggleCommute(todos: seq<Todo>, editId: string, newText: string, toggleId: string)
    ensures Toggle(Edit(todos, editId, newText), toggleId) == Edit(Toggle(todos, toggleId), editId, newText)
  {
    var r, s := Toggle(Edit(todos, editId, newText), toggleId), Edit(Toggle(todos, toggleId), editId, newText);
    assert forall i :: 0 <= i < |todos| ==> r[i] == s[i];
  }

  // ---------------------------------------------------------------- filter

  /** The filter values the screen sets; the state starts at `AllFilter`. */
  const AllFilter: string := "all"
  const DoneFilter: string := "done"
  const NotDoneFilter: string := "not_done"

  /** The predicate handed to `todos.filter`: any value other than the two named ones shows everything. */
  predicate Shows(filter: string, todo: Todo)
    ensures filter == DoneFilter ==> (Shows(filter, todo) <==> todo.done)
    ensures filter == NotDoneFilter ==> (Shows(filter, todo) <==> !todo.done)
    ensures filter != DoneFilter && filter != NotDoneFilter ==> Shows(filter, todo)
  {
    if filter == AllFilter then true
    else if filter == DoneFilter then todo.done
    else if filter == NotDoneFilter then !todo.done
    else true
  }

  /** `filteredTodos`: the items the current filter shows, in list order. */
  function FilteredTodos(todos: seq<Todo>, filter: string): (r: seq<Todo>)
    ensures |r| <= |todos|
    ensures filter == DoneFilter ==> forall i :: 0 <= i < |r| ==> r[i].done
    ensures filter == NotDoneFilter ==> forall i :: 0 <= i < |r| ==> !r[i].done
  {
    Filter(todos, (todo: Todo) => Shows(filter, todo))
  }

  /** The view holds exactly the items the filter shows, in their order. */
  lemma FilteredMembers(todos: seq<Todo>, filter: string)
    ensures forall x :: x in FilteredTodos(todos, filter) <==> x in todos && Shows(filter, x)
    ensures IsSubsequence(FilteredTodos(todos, filter), todos)
  {
    FilterMembers(todos, (todo: Todo) => Shows(filter, todo));
    FilterIsSubsequence(todos, (todo: Todo) => Shows(filter, todo));
  }

  /** `'all'` and every unrecognised filter value show the whole list. */
  lemma FilterShowsAll(todos: seq<Todo>, filter: string)
    requires filter != DoneFilter && filter != NotDoneFilter
    ensures FilteredTodos(todos, filter) == todos
  {
    FilterKeepsAll(todos, (todo: Todo) => Shows(filter, todo));
  }

  /** The `'done'` and `'not_done'` views split the list: every item is in exactly one of them. */
  lemma FilterDonePartition(todos: seq<Todo>)
    ensures |FilteredTodos(todos, DoneFilter)| + |FilteredTodos(todos, NotDoneFilter)| == |todos|
    ensures multiset(FilteredTodos(todos, DoneFilter)) + multiset(FilteredTodos(todos, NotDoneFilter)) == multiset(todos)
  {
    FilterPartition(todos, (todo: Todo) => Shows(DoneFilter, todo), (todo: Todo) => Shows(NotDoneFilter, todo));
  }

  /** The views of a concatenation are the concatenated views. */
  lemma FilteredConcat(a: seq<Todo>, b: seq<Todo>, filter: string)
    ensures FilteredTodos(a + b, filter) == FilteredTodos(a, filter) + FilteredTodos(b, filter)
  {
    FilterConcat(a, b, (todo: Todo) => Shows(filter, todo));
  }

  /**
   * Adding an item under a fresh id and then toggling it moves it into the
   * `'done'` view, at the end, and keeps it out of the `'not_done'` view.
   */
  lemma AddThenToggle(todos: seq<Todo>, id: string, text: string)
    requires id !in Ids(todos)
    ensures FilteredTodos(Toggle(Add(todos, id, text), id), DoneFilter) ==
            FilteredTodos(todos, DoneFilter) + [Todo(id, text, true)]
    ensures FilteredTodos(Toggle(Add(todos, id, text), id), NotDoneFilter) ==
            FilteredTodos(todos, NotDoneFilter)
  {
    var t := Toggle(Add(todos, id, text), id);
    ToggleAbsent(todos, id);
    assert t == todos + [Todo(id, text, true)];
    FilteredConcat(todos, [Todo(id, text, true)], DoneFilter);
    FilteredConcat(todos, [Todo(id, text, true)], NotDoneFilter);
  }

  // ---------------------------------------------------------------- sessions

  /** One user intent that the home screen turns into a list update. */
  datatype Action =
    | AddAction(id: string, text: string)
    | ToggleAction(id: string)
    | EditAction(id: string, text: string)
    | DeleteAction(id: string)

  /**
   * The handler an intent calls: an add appends its id, toggle and edit keep
   * the ids as they are, and a delete removes its id and introduces none.
   */
  function Apply(todos: seq<Todo>, action: Action): (r: seq<Todo>)
    ensures action.AddAction? ==> Ids(r) == Ids(todos) + [action.id]
    ensures action.ToggleAction? || action.EditAction? ==> Ids(r) == Ids(todos)
    ensures action.DeleteAction? ==>
              action.id !in Ids(r) && forall x :: x in Ids(r) ==> x in Ids(todos)
  {
    match action
    case AddAction(id, text) =>
      var r := Add(todos, id, text);
      assert Ids(r) == Ids(todos) + [id];
      r
    case ToggleAction(id) => Toggle(todos, id)
    case EditAction(id, text) => Edit(todos, id, text)
    case DeleteAction(id) =>
      DeleteKeepsOthers(todos, id);
      DeleteIdsSubset(todos, id);
      Delete(todos, id)
  }

  /** The ids the adds of a run introduce, in order. */
  function AddedIds(actions: seq<Action>): seq<string> {
    if actions == [] then []
    else (if actions[0].AddAction? then [actions[0].id] else []) + AddedIds(actions[1..])
  }

  /**
   * The handlers applied one at a time. Every id of the final list was
   * either there at the start or introduced by one of the run's adds.
   */
  function Run(todos: seq<Todo>, actions: seq<Action>): (r: seq<Todo>)
    ensures forall x :: x in Ids(r) ==> x in Ids(todos) || x in AddedIds(actions)
    decreases |actions|
  {
    if actions == [] then todos
    else
      var r := Run(Apply(todos, actions[0]), actions[1..]);
      assert AddedIds(actions) == (if actions[0].AddAction? then [actions[0].id] else []) + AddedIds(actions[1..]);
      r
  }

  /** Every add of the run uses an id that the list does not hold at that moment. */
  predicate FreshAdds(todos: seq<Todo>, actions: seq<Action>)
    decreases |actions|
  {
    actions == [] ||
    ((actions[0].AddAction? ==> actions[0].id !in Ids(todos)) &&
     FreshAdds(Apply(todos, actions[0]), actions[1..]))
  }

  /** Ids stay unique through any run of updates whose adds use fresh ids. */
  lemma {:induction false} RunKeepsUnique(todos: seq<Todo>, actions: seq<Action>)
    requires UniqueIds(todos) && FreshAdds(todos, actions)
    ensures UniqueIds(Run(todos, actions))
    decreases |actions|
  {
    if actions != [] {
      var a := actions[0];
      match a {
        case AddAction(id, text) => AddUnique(todos, id, text);
        case ToggleAction(id) => {
          var r := Toggle(todos, id);
          assert forall i :: 0 <= i < |todos| ==> r[i].id == todos[i].id;
        }
        case EditAction(id, text) => {
          var r := Edit(todos, id, text);
          assert forall i :: 0 <= i < |todos| ==> r[i].id == todos[i].id;
        }
        case DeleteAction(id) => DeleteUnique(todos, id);
      }
      RunKeepsUnique(Apply(todos, a), actions[1..]);
    }
  }
}
