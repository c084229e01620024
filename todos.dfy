/** The todo list slice of the frontend store: a list of todos that the
    reducers change in place (append, flip one flag) or replace by a filtered
    copy (delete). */
module Todos {
  datatype Todo = Todo(id: int, title: string, completed: bool)

  /** The list after `toggleCompleted(id)`: the first todo with that id has its
      flag flipped; a list without the id is returned as it is. */
  function Toggled(s: seq<Todo>, id: int): (r: seq<Todo>)
    ensures |r| == |s|
    ensures forall i :: 0 <= i < |s| ==> r[i].id == s[i].id && r[i].title == s[i].title
  {
    if s == [] then []
    else if s[0].id == id then [s[0].(completed := !s[0].completed)] + s[1..]
    else [s[0]] + Toggled(s[1..], id)
  }

  /** `i` is where `state.find` stops: the first todo carrying `id`. */
  predicate FirstWithId(s: seq<Todo>, id: int, i: int) {
    0 <= i < |s| && s[i].id == id && forall j :: 0 <= j < i ==> s[j].id != id
  }

  /** Toggling flips the first match and leaves every other todo, and the
      order, as they were. */
  lemma {:induction false} ToggledFlipsFirst(s: seq<Todo>, id: int, i: int)
    requires FirstWithId(s, id, i)
    ensures Toggled(s, id)[i] == s[i].(completed := !s[i].completed)
    ensures forall j :: 0 <= j < |s| && j != i ==> Toggled(s, id)[j] == s[j]
  {
    if s[0].id != id {
      ToggledFlipsFirst(s[1..], id, i - 1);
    }
  }

  /** An id no todo carries changes nothing. */
  lemma {:induction false} ToggledAbsent(s: seq<Todo>, id: int)
    requires forall j :: 0 <= j < |s| ==> s[j].id != id
    ensures Toggled(s, id) == s
  {
    if s != [] {
      ToggledAbsent(s[1..], id);
    }
  }

  /** Toggling the same id twice gives back the list. */
  lemma {:induction false} ToggledTwice(s: seq<Todo>, id: int)
    ensures Toggled(Toggled(s, id), id) == s
  {
    if s != [] && s[0].id != id {
      ToggledTwice(s[1..], id);
      assert Toggled(s, id)[1..] == Toggled(s[1..], id);
    }
  }

  /** `state.filter(todo => todo.id !== id)`. */
  function Deleted(s: seq<Todo>, id: int): (r: seq<Todo>)
    ensures |r| <= |s|
    ensures forall i :: 0 <= i < |r| ==> r[i].id != id && r[i] in s
    ensures forall i :: 0 <= i < |s| && s[i].id != id ==> s[i] in r
  {
    if s == [] then []
    else if s[0].id == id then Deleted(s[1..], id)
    else [s[0]] + Deleted(s[1..], id)
  }

  /** Deleting keeps the other todos in order: it distributes over a split
      of the list. */
  lemma {:induction false} DeletedAppend(s: seq<Todo>, t: seq<Todo>, id: int)
    ensures Deleted(s + t, id) == Deleted(s, id) + Deleted(t, id)
  {
    if s == [] {
      assert s + t == t;
    } else {
      assert (s + t)[0] == s[0] && (s + t)[1..] == s[1..] + t;
      DeletedAppend(s[1..], t, id);
    }
  }

  /** A list without the id is left as it is. */
  lemma {:induction false} DeletedAbsent(s: seq<Todo>, id: int)
    requires forall j :: 0 <= j < |s| ==> s[j].id != id
    ensures Deleted(s, id) == s
  {
    if s != [] {
      DeletedAbsent(s[1..], id);
    }
  }

  /** Deleting twice is deleting once. */
  lemma DeletedIdempotent(s: seq<Todo>, id: int)
    ensures Deleted(Deleted(s, id), id) == Deleted(s, id)
  {
    DeletedAbsent(Deleted(s, id), id);
  }

  /** The slice state; `initialState` is the empty list. */
  class TodoList {
    var todos: seq<Todo>

    constructor ()
      ensures todos == []
    {
      todos := [];
    }

    /** `addTodo`: `state.push(payload)`. */
    method AddTodo(todo: Todo)
      modifies this
      ensures todos == old(todos) + [todo]
    {
      todos := todos + [todo];
    }

    /** `toggleCompleted`: find the first todo with the id and flip its flag. */
    method ToggleCompleted(id: int)
      modifies this
      ensures todos == Toggled(old(todos), id)
    {
      var i := 0;
      while i < |todos| && todos[i].id != id
        invariant 0 <= i <= |todos|
        invariant forall j :: 0 <= j < i ==> todos[j].id != id
      {
        i := i + 1;
      }
      if i < |todos| {
        ToggledFlipsFirst(todos, id, i);
        todos := todos[i := todos[i].(completed := !todos[i].completed)];
      } else {
        ToggledAbsent(todos, id);
      }
    }

    /** `deleteTodo`: the state is replaced by the filtered list. */
    method DeleteTodo(id: int)
      modifies this
      ensures todos == Deleted(old(todos), id)
    {
      todos := Deleted(todos, id);
    }
  }
}
