/** The item records of the to-do store and the pure list transforms behind
    each store operation (src/hooks/useTodos.ts). The clock and the random id
    generator are parameters: `now` is the value `new Date()` would give and
    `id` the string `Math.random().toString(36).substring(7)` would give. */
module Todos {
  import opened Optional
  import opened Seqs

  /** A point in time, in milliseconds, as a JavaScript `Date` holds it. */
  type Timestamp = int

  datatype Todo = Todo(
    id: string,
    text: string,
    completed: bool,
    createdAt: Timestamp,
    completedAt: Option<Timestamp>)

  /** The `{ id, text }` snapshot of a task that the dialogs hold. */
  datatype TodoRef = TodoRef(id: string, text: string)

  /** The three filter modes of the list view. */
  datatype FilterType = All | Active | Completed

  /** A completion time is recorded exactly when the item is completed. */
  predicate Consistent(t: Todo) {
    t.completed <==> t.completedAt.Some?
  }

  predicate AllConsistent(todos: seq<Todo>) {
    forall t :: t in todos ==> Consistent(t)
  }

  predicate HasId(todos: seq<Todo>, id: string) {
    exists t :: t in todos && t.id == id
  }

  /** No two records share an id. The source does not enforce this. */
  predicate UniqueIds(todos: seq<Todo>) {
    forall i, j :: 0 <= i < j < |todos| ==> todos[i].id != todos[j].id
  }

  // ---------------------------------------------------------------- addTodo

  /** addTodo: a fresh, uncompleted record holding `text` verbatim, put in front. */
  function Add(todos: seq<Todo>, id: string, text: string, now: Timestamp): (r: seq<Todo>)
    ensures |r| == |todos| + 1 && r[1..] == todos
    ensures r[0].id == id && r[0].text == text && r[0].createdAt == now
    ensures !r[0].completed && r[0].completedAt == None
  {
    [Todo(id, text, false, now, None)] + todos
  }

  // ------------------------------------------------------------- toggleTodo

  /** The record `{ ...todo, completed: !todo.completed, completedAt: ... }`. */
  function Toggled(t: Todo, now: Timestamp): (r: Todo)
    ensures r.id == t.id && r.text == t.text && r.createdAt == t.createdAt
    ensures r.completed == !t.completed
    ensures r.completedAt.Some? <==> r.completed
    ensures r.completedAt.Some? ==> r.completedAt.value == now
  {
    t.(completed := !t.completed, completedAt := if !t.completed then Some(now) else None)
  }

  /** toggleTodo: every record with the given id changes completion state and
      records `now` as its completion time exactly when it becomes completed;
      every other record, the length and the order are unchanged. */
  function Toggle(todos: seq<Todo>, id: string, now: Timestamp): (r: seq<Todo>)
    ensures |r| == |todos|
    ensures forall i :: 0 <= i < |todos| && todos[i].id != id ==> r[i] == todos[i]
    ensures forall i :: 0 <= i < |todos| && todos[i].id == id ==>
      && r[i].id == id && r[i].text == todos[i].text && r[i].createdAt == todos[i].createdAt
      && r[i].completed == !todos[i].completed
      && r[i].completedAt == (if r[i].completed then Some(now) else None)
  {
    Map(todos, (t: Todo) => if t.id == id then Toggled(t, now) else t)
  }

  // ------------------------------------------------------------- deleteTodo

  /** deleteTodo: the records whose id differs, in their original order, each
      as often as before; no record with the id is left. */
  function Delete(todos: seq<Todo>, id: string): (r: seq<Todo>)
    ensures IsSubsequence(r, todos)
    ensures forall t :: t in r <==> t in todos && t.id != id
    ensures forall t :: multiset(r)[t] == if t.id != id then multiset(todos)[t] else 0
    ensures !HasId(r, id)
  {
    Filter(todos, (t: Todo) => t.id != id)
  }

  // ------------------------------------------------------------- updateTodo

  /** updateTodo: records with the given id get `text` verbatim; nothing else
      about any record, nor the length or the order, changes. */
  function Update(todos: seq<Todo>, id: string, text: string): (r: seq<Todo>)
    ensures |r| == |todos|
    ensures forall i :: 0 <= i < |todos| ==>
      && r[i].id == todos[i].id && r[i].completed == todos[i].completed
      && r[i].createdAt == todos[i].createdAt && r[i].completedAt == todos[i].completedAt
    ensures forall i :: 0 <= i < |todos| ==>
      r[i].text == if todos[i].id == id then text else todos[i].text
  {
    Map(todos, (t: Todo) => if t.id == id then t.(text := text) else t)
  }

  // ------------------------------------------------- filteredTodos, activeCount

  /** The case split of the `filteredTodos` callback; `'all'` is its default branch. */
  predicate Shows(filter: FilterType, t: Todo) {
    match filter
    case Active => !t.completed
    case Completed => t.completed
    case All => true
  }

  /** filteredTodos: an order-preserving subsequence of the list holding exactly
      the uncompleted records under Active, the completed ones under Completed,
      and the whole list under All, each shown record as often as in the list. */
  function Filtered(todos: seq<Todo>, filter: FilterType): (r: seq<Todo>)
    ensures IsSubsequence(r, todos)
    ensures forall t :: multiset(r)[t] == if Shows(filter, t) then multiset(todos)[t] else 0
    ensures filter == Active ==> forall t :: t in r <==> t in todos && !t.completed
    ensures filter == Completed ==> forall t :: t in r <==> t in todos && t.completed
    ensures filter == All ==> r == todos
  {
    var keep := (t: Todo) => Shows(filter, t);
    if filter == All then
      FilterKeepsAll(todos, keep);
      Filter(todos, keep)
    else
      Filter(todos, keep)
  }

  /** activeCount, `todos.filter(todo => !todo.completed).length`, over the whole
      list whatever the filter mode, counted record by record
      (ActiveCountIsFilterLength shows it is that filter's length). */
  function ActiveCount(todos: seq<Todo>): (n: nat)
    ensures n <= |todos|
  {
    if todos == [] then 0
    else (if todos[0].completed then 0 else 1) + ActiveCount(todos[1..])
  }

  // ---------------------------------------------------------------- lemmas

  /** The count is the length of the list filtered to its uncompleted records,
      which is how the hook computes it. */
  lemma {:induction false} ActiveCountIsFilterLength(todos: seq<Todo>)
    ensures ActiveCount(todos) == |Filter(todos, (t: Todo) => !t.completed)|
  {
    if todos != [] {
      ActiveCountIsFilterLength(todos[1..]);
    }
  }

  /** activeCount is the length of the Active view, and with the Completed view it
      makes up the whole list. */
  lemma ActiveCountIsActiveView(todos: seq<Todo>)
    ensures ActiveCount(todos) == |Filtered(todos, Active)|
    ensures ActiveCount(todos) + |Filtered(todos, Completed)| == |todos|
  {
    var active := (t: Todo) => !t.completed;
    ActiveCountIsFilterLength(todos);
    FilterCongruent(todos, active, (t: Todo) => Shows(Active, t));
    FilterPartition(todos, active, (t: Todo) => Shows(Completed, t));
  }

  /** A new record is uncompleted, so adding one raises activeCount by one. */
  lemma AddActiveCount(todos: seq<Todo>, id: string, text: string, now: Timestamp)
    ensures ActiveCount(Add(todos, id, text, now)) == ActiveCount(todos) + 1
  {
  }

  /** Adding keeps completion times consistent, and keeps ids unique when the new id is fresh. */
  lemma AddKeepsInvariants(todos: seq<Todo>, id: string, text: string, now: Timestamp)
    ensures AllConsistent(todos) ==> AllConsistent(Add(todos, id, text, now))
    ensures UniqueIds(todos) && !HasId(todos, id) ==> UniqueIds(Add(todos, id, text, now))
  {
    var r := Add(todos, id, text, now);
    if UniqueIds(todos) && !HasId(todos, id) {
      assert r == [r[0]] + todos;
      UniqueCons(r[0], todos);
    }
  }

  /** Deleting the id of a record just added with a fresh id gives back the old list. */
  lemma AddThenDelete(todos: seq<Todo>, id: string, text: string, now: Timestamp)
    requires !HasId(todos, id)
    ensures Delete(Add(todos, id, text, now), id) == todos
  {
    var r := Add(todos, id, text, now);
    var keep := (t: Todo) => t.id != id;
    assert r[1..] == todos;
    assert Filter(r, keep) == Filter(todos, keep);
    FilterKeepsAll(todos, keep);
  }

  /** Toggling an id no record has changes nothing. */
  lemma ToggleMissing(todos: seq<Todo>, id: string, now: Timestamp)
    requires !HasId(todos, id)
    ensures Toggle(todos, id, now) == todos
  {
    var r := Toggle(todos, id, now);
    forall i | 0 <= i < |todos| ensures r[i] == todos[i] {
      assert todos[i] in todos;
    }
  }

  /** Toggling keeps completion times consistent and ids unique. */
  lemma ToggleKeepsInvariants(todos: seq<Todo>, id: string, now: Timestamp)
    ensures AllConsistent(todos) ==> AllConsistent(Toggle(todos, id, now))
    ensures UniqueIds(todos) ==> UniqueIds(Toggle(todos, id, now))
  {
    var r := Toggle(todos, id, now);
    if AllConsistent(todos) {
      forall t | t in r ensures Consistent(t) {
        var i :| 0 <= i < |r| && r[i] == t;
        assert todos[i] in todos;
      }
    }
    if UniqueIds(todos) {
      assert forall i :: 0 <= i < |r| ==> r[i].id == todos[i].id;
    }
  }

  /** Toggling twice restores every completion state and leaves records with
      another id untouched; a matching record that started uncompleted ends
      with no completion time. */
  lemma ToggleTwice(todos: seq<Todo>, id: string, now1: Timestamp, now2: Timestamp)
    ensures var r := Toggle(Toggle(todos, id, now1), id, now2);
      && |r| == |todos|
      && (forall i :: 0 <= i < |todos| ==> r[i].completed == todos[i].completed)
      && (forall i :: 0 <= i < |todos| && todos[i].id != id ==> r[i] == todos[i])
      && (forall i :: 0 <= i < |todos| && todos[i].id == id && !todos[i].completed ==> r[i].completedAt == None)
  {
    var once := Toggle(todos, id, now1);
    assert forall i :: 0 <= i < |todos| ==> once[i].id == todos[i].id;
  }

  /** When every record with the id is uncompleted and consistent, toggling
      twice gives back exactly the original list. */
  lemma ToggleTwiceRestores(todos: seq<Todo>, id: string, now1: Timestamp, now2: Timestamp)
    requires AllConsistent(todos)
    requires forall t :: t in todos && t.id == id ==> !t.completed
    ensures Toggle(Toggle(todos, id, now1), id, now2) == todos
  {
    var once := Toggle(todos, id, now1);
    var r := Toggle(once, id, now2);
    forall i | 0 <= i < |todos| ensures r[i] == todos[i] {
      assert todos[i] in todos;
      assert once[i].id == todos[i].id;
    }
  }

  /** Putting a record with a fresh id in front of a list with unique ids keeps them unique. */
  lemma UniqueCons(t: Todo, todos: seq<Todo>)
    requires UniqueIds(todos) && !HasId(todos, t.id)
    ensures UniqueIds([t] + todos)
  {
    var r := [t] + todos;
    forall i, j | 0 <= i < j < |r| ensures r[i].id != r[j].id {
      assert r[j] == todos[j - 1];
      if i == 0 {
        assert r[j] in todos;
      } else {
        assert r[i] == todos[i - 1];
      }
    }
  }

  /** The tail of a list with unique ids has unique ids and lacks the head's id. */
  lemma UniqueTail(todos: seq<Todo>)
    requires UniqueIds(todos) && todos != []
    ensures UniqueIds(todos[1..]) && !HasId(todos[1..], todos[0].id)
  {
    forall i, j | 0 <= i < j < |todos[1..]| ensures todos[1..][i].id != todos[1..][j].id {
      assert todos[1..][i] == todos[i + 1] && todos[1..][j] == todos[j + 1];
    }
    forall t | t in todos[1..] ensures t.id != todos[0].id {
      var j :| 0 <= j < |todos[1..]| && todos[1..][j] == t;
      assert todos[j + 1] == t;
    }
  }

  /** Toggle works record by record from the front. */
  lemma ToggleCons(todos: seq<Todo>, id: string, now: Timestamp)
    requires todos != []
    ensures Toggle(todos, id, now)[1..] == Toggle(todos[1..], id, now)
  {
  }

  /** When the record at index `k` is the only one with the id, toggling it moves
      activeCount by one: up when it was completed, down when it was not. Unique
      ids (UniqueIds) give this for every record. */
  lemma {:induction false} ToggleActiveCount(todos: seq<Todo>, id: string, now: Timestamp, k: nat)
    requires k < |todos| && todos[k].id == id
    requires forall j :: 0 <= j < |todos| && todos[j].id == id ==> j == k
    ensures ActiveCount(Toggle(todos, id, now))
      == ActiveCount(todos) + (if todos[k].completed then 1 else -1)
    decreases |todos|
  {
    var tail := todos[1..];
    if k == 0 {
      assert !HasId(tail, id) by {
        forall t | t in tail ensures t.id != id {
          var j :| 0 <= j < |tail| && tail[j] == t;
          assert todos[j + 1] == t;
        }
      }
      ToggleMissing(tail, id, now);
    } else {
      assert tail[k - 1] == todos[k];
      forall j | 0 <= j < |tail| && tail[j].id == id ensures j == k - 1 {
        assert tail[j] == todos[j + 1];
      }
      ToggleActiveCount(tail, id, now, k - 1);
      assert todos[0].id != id;
    }
    ToggleCons(todos, id, now);
  }

  /** Deleting an id no record has changes nothing. */
  lemma DeleteMissing(todos: seq<Todo>, id: string)
    requires !HasId(todos, id)
    ensures Delete(todos, id) == todos
  {
    FilterKeepsAll(todos, (t: Todo) => t.id != id);
  }

  /** Deleting twice is deleting once. */
  lemma DeleteIdempotent(todos: seq<Todo>, id: string)
    ensures Delete(Delete(todos, id), id) == Delete(todos, id)
  {
    DeleteMissing(Delete(todos, id), id);
  }

  /** Delete works record by record from the front. */
  lemma DeleteCons(todos: seq<Todo>, id: string)
    requires todos != []
    ensures Delete(todos, id)
      == (if todos[0].id != id then [todos[0]] + Delete(todos[1..], id) else Delete(todos[1..], id))
  {
  }

  /** Deleting keeps completion times consistent. */
  lemma DeleteKeepsConsistent(todos: seq<Todo>, id: string)
    requires AllConsistent(todos)
    ensures AllConsistent(Delete(todos, id))
  {
  }

  /** Deleting keeps ids unique. */
  lemma {:induction false} DeleteKeepsUniqueIds(todos: seq<Todo>, id: string)
    requires UniqueIds(todos)
    ensures UniqueIds(Delete(todos, id))
  {
    if todos != [] {
      var tail := todos[1..];
      var rest := Delete(tail, id);
      UniqueTail(todos);
      DeleteKeepsUniqueIds(tail, id);
      DeleteCons(todos, id);
      if todos[0].id != id {
        assert !HasId(rest, todos[0].id) by {
          forall t | t in rest ensures t.id != todos[0].id {
            assert t in tail;
          }
        }
        UniqueCons(todos[0], rest);
      }
    }
  }

  /** With unique ids, deleting an id that is present removes exactly one record. */
  lemma {:induction false} DeleteRemovesOne(todos: seq<Todo>, id: string, k: nat)
    requires UniqueIds(todos) && k < |todos| && todos[k].id == id
    ensures |Delete(todos, id)| == |todos| - 1
  {
    var tail := todos[1..];
    UniqueTail(todos);
    if k == 0 {
      DeleteMissing(tail, id);
    } else {
      assert tail[k - 1] == todos[k];
      DeleteRemovesOne(tail, id, k - 1);
      assert todos[0].id != id;
    }
    DeleteCons(todos, id);
  }

  /** Updating an id no record has changes nothing. */
  lemma UpdateMissing(todos: seq<Todo>, id: string, text: string)
    requires !HasId(todos, id)
    ensures Update(todos, id, text) == todos
  {
    var r := Update(todos, id, text);
    forall i | 0 <= i < |todos| ensures r[i] == todos[i] {
      assert todos[i] in todos;
    }
  }

  /** The later of two updates of the same id wins. */
  lemma UpdateTwice(todos: seq<Todo>, id: string, text1: string, text2: string)
    ensures Update(Update(todos, id, text1), id, text2) == Update(todos, id, text2)
  {
    var once := Update(todos, id, text1);
    assert forall i :: 0 <= i < |todos| ==> once[i].id == todos[i].id;
  }

  /** Updating text keeps completion times consistent and ids unique. */
  lemma UpdateKeepsInvariants(todos: seq<Todo>, id: string, text: string)
    ensures AllConsistent(todos) ==> AllConsistent(Update(todos, id, text))
    ensures UniqueIds(todos) ==> UniqueIds(Update(todos, id, text))
  {
    var r := Update(todos, id, text);
    if AllConsistent(todos) {
      forall t | t in r ensures Consistent(t) {
        var i :| 0 <= i < |r| && r[i] == t;
        assert todos[i] in todos;
      }
    }
  }

  /** Update works record by record from the front. */
  lemma UpdateCons(todos: seq<Todo>, id: string, text: string)
    requires todos != []
    ensures Update(todos, id, text)[1..] == Update(todos[1..], id, text)
  {
  }

  /** Updating text leaves activeCount as it was. */
  lemma {:induction false} UpdateActiveCount(todos: seq<Todo>, id: string, text: string)
    ensures ActiveCount(Update(todos, id, text)) == ActiveCount(todos)
  {
    if todos != [] {
      UpdateCons(todos, id, text);
      UpdateActiveCount(todos[1..], id, text);
    }
  }

  /** The walk-through of a task's life: add, complete, rename, remove. */
  lemma LifeOfATask(id: string, created: Timestamp, done: Timestamp)
    ensures var added := Add([], id, "Buy milk", created);
      && added == [Todo(id, "Buy milk", false, created, None)]
      && ActiveCount(added) == 1
      && var toggled := Toggle(added, id, done);
      && toggled == [Todo(id, "Buy milk", true, created, Some(done))]
      && ActiveCount(toggled) == 0
      && var renamed := Update(toggled, id, "Buy oat milk");
      && renamed == [Todo(id, "Buy oat milk", true, created, Some(done))]
      && Delete(renamed, id) == []
  {
    var added := Add([], id, "Buy milk", created);
    var toggled := Toggle(added, id, done);
    var renamed := Update(toggled, id, "Buy oat milk");
    assert renamed[0] !in Delete(renamed, id);
  }
}
