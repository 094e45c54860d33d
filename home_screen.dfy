/**
 * The state of the home screen: the list of to-do items and the current
 * filter value. Each handler replaces the whole list with a new one computed
 * from the old list, as `setTodos` does; `setFilter` replaces the filter.
 */
module HomeScreen {
  import opened JsArray
  import opened TodoList

  class HomeState {
    var todos: seq<Todo>
    var filter: string

    /** The screen starts with an empty list and the `'all'` filter. */
    constructor ()
      ensures todos == [] && filter == AllFilter
    {
      todos := [];
      filter := AllFilter;
    }

    /** `toggleTodo(id)` */
    method ToggleTodo(id: string)
      modifies this
      ensures todos == Toggle(old(todos), id) && filter == old(filter)
      ensures Ids(todos) == Ids(old(todos))
      ensures UniqueIds(todos) <==> UniqueIds(old(todos))
    {
      todos := Toggle(todos, id);
    }

    /** `addTodo(text)`, with the id the screen would draw from the clock passed in as `id`. */
    method AddTodo(id: string, text: string)
      modifies this
      ensures todos == Add(old(todos), id, text) && filter == old(filter)
      ensures UniqueIds(todos) <==> UniqueIds(old(todos)) && id !in Ids(old(todos))
    {
      AddUnique(todos, id, text);
      todos := Add(todos, id, text);
    }

    /** `deleteTodo(id)` */
    method DeleteTodo(id: string)
      modifies this
      ensures todos == Delete(old(todos), id) && filter == old(filter)
      ensures id !in Ids(todos)
      ensures UniqueIds(old(todos)) ==> UniqueIds(todos)
    {
      DeleteKeepsOthers(todos, id);
      if UniqueIds(todos) {
        DeleteUnique(todos, id);
      }
      todos := Delete(todos, id);
    }

    /** `handleEdit(id, newText)` */
    method HandleEdit(id: string, newText: string)
      modifies this
      ensures todos == Edit(old(todos), id, newText) && filter == old(filter)
      ensures Ids(todos) == Ids(old(todos))
      ensures UniqueIds(todos) <==> UniqueIds(old(todos))
    {
      todos := Edit(todos, id, newText);
    }

    /** `setFilter(value)`, bound to the three filter buttons. */
    method SetFilter(value: string)
      modifies this
      ensures filter == value && todos == old(todos)
    {
      filter := value;
    }

    /** `filteredTodos`, recomputed from the state on every render; reading it changes nothing. */
    function FilteredView(): (r: seq<Todo>)
      reads this
      ensures r == TodoList.FilteredTodos(todos, filter)
      ensures forall x :: x in r <==> x in todos && Shows(filter, x)
      ensures IsSubsequence(r, todos)
      ensures filter != DoneFilter && filter != NotDoneFilter ==> r == todos
    {
      FilteredMembers(todos, filter);
      if filter != DoneFilter && filter != NotDoneFilter then FilterShowsAll(todos, filter); FilteredTodos(todos, filter)
      else FilteredTodos(todos, filter)
    }
  }
}
