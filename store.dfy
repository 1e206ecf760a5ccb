/** The state held by the `useTodos` hook (src/hooks/useTodos.ts): the to-do list
    and the filter mode, each replaced as a whole by the store's operations. Each
    operation is one atomic state transition. */
module Store {
  import opened Seqs
  import opened Todos

  class TodoStore {
    var todos: seq<Todo>
    var filter: FilterType

    /** The hook's initial state: the list read back from local storage (the
        reading and parsing are not modelled; `stored` is their result) and the
        filter mode 'all'. */
    constructor (stored: seq<Todo>)
      ensures todos == stored && filter == All
    {
      todos := stored;
      filter := All;
    }

    /** addTodo: puts a new uncompleted record in front; `id` and `now` stand
        for the random id and the current time. */
    method AddTodo(text: string, id: string, now: Timestamp)
      modifies this
      ensures todos == Add(old(todos), id, text, now) && filter == old(filter)
      ensures ActiveCount() == old(ActiveCount()) + 1
    {
      AddActiveCount(todos, id, text, now);
      todos := Add(todos, id, text, now);
    }

    /** toggleTodo: flips the records with the id; `now` stands for the current time. */
    method ToggleTodo(id: string, now: Timestamp)
      modifies this
      ensures todos == Toggle(old(todos), id, now) && filter == old(filter)
    {
      todos := Toggle(todos, id, now);
    }

    /** deleteTodo: drops the records with the id. */
    method DeleteTodo(id: string)
      modifies this
      ensures todos == Delete(old(todos), id) && filter == old(filter)
    {
      todos := Delete(todos, id);
    }

    /** updateTodo: gives the records with the id the new text, as given. */
    method UpdateTodo(id: string, text: string)
      modifies this
      ensures todos == Update(old(todos), id, text) && filter == old(filter)
      ensures ActiveCount() == old(ActiveCount())
    {
      UpdateActiveCount(todos, id, text);
      todos := Update(todos, id, text);
    }

    /** setFilter: changes the mode; the list, and so activeCount, stay as they are. */
    method SetFilter(f: FilterType)
      modifies this
      ensures filter == f && todos == old(todos)
      ensures ActiveCount() == old(ActiveCount())
    {
      filter := f;
    }

    /** The `todos` the hook hands to the view: the list under the current filter,
        each shown record as often as in the list. */
    function FilteredTodos(): (r: seq<Todo>)
      reads this
      ensures IsSubsequence(r, todos)
      ensures forall t :: t in r <==> t in todos && Shows(filter, t)
      ensures forall t :: multiset(r)[t] == if Shows(filter, t) then multiset(todos)[t] else 0
    {
      Filtered(todos, filter)
    }

    /** The hook's `activeCount`, over the whole list; under the Active filter it
        is the length of the visible list. */
    function ActiveCount(): (n: nat)
      reads this
      ensures n <= |todos|
      ensures filter == Active ==> n == |FilteredTodos()|
    {
      ActiveCountIsActiveView(todos);
      Todos.ActiveCount(todos)
    }
  }
}
