/** The client-side cache of to-do items held by the TodoList component, and the
    three list transformations its handlers apply to it: `find` by id (starting an
    edit), `map`-replace by id (a successful update) and `filter` by id (a
    successful delete). Appending a created item is plain sequence concatenation
    and is stated where the component uses it. */
module TodoCache {

  /** Server-assigned identifier of a to-do item; the client never makes one up
      and only ever compares two of them with `===`. */
  type Id = int

  datatype Todo = Todo(id: Id, title: string, description: string)

  datatype Option<+T> = None | Some(value: T)

  /** `i` is the position of the first item of `todos` whose id is `id`. */
  ghost predicate FirstWithId(todos: seq<Todo>, id: Id, i: int)
  {
    0 <= i < |todos| && todos[i].id == id &&
    forall j :: 0 <= j < i ==> todos[j].id != id
  }

  /** Lookup for an edit: the first item whose id is `id`, if any. */
  function FindById(todos: seq<Todo>, id: Id): (r: Option<Todo>)
    ensures r.None? <==> forall i :: 0 <= i < |todos| ==> todos[i].id != id
    ensures r.Some? ==> exists i :: FirstWithId(todos, id, i) && todos[i] == r.value
  {
    if todos == [] then None
    else if todos[0].id == id then
      assert FirstWithId(todos, id, 0);
      Some(todos[0])
    else
      var r := FindById(todos[1..], id);
      assert r.Some? ==> exists i :: FirstWithId(todos, id, i) && todos[i] == r.value by {
        if r.Some? {
          var i :| FirstWithId(todos[1..], id, i) && todos[1..][i] == r.value;
          assert FirstWithId(todos, id, i + 1);
        }
      }
      r
  }

  /** The list after a successful update: every item whose id is `id` is
      replaced by `updated`, every other item is kept in place. */
  function ReplaceById(todos: seq<Todo>, id: Id, updated: Todo): (r: seq<Todo>)
    ensures |r| == |todos|
    ensures forall i :: 0 <= i < |todos| && todos[i].id == id ==> r[i] == updated
    ensures forall i :: 0 <= i < |todos| && todos[i].id != id ==> r[i] == todos[i]
  {
    if todos == [] then []
    else [if todos[0].id == id then updated else todos[0]] + ReplaceById(todos[1..], id, updated)
  }

  /** The list after a successful delete: the items whose id is not `id`, in
      their original order. */
  function RemoveById(todos: seq<Todo>, id: Id): (r: seq<Todo>)
    ensures |r| <= |todos|
    ensures forall i :: 0 <= i < |r| ==> r[i].id != id
  {
    if todos == [] then []
    else if todos[0].id == id then RemoveById(todos[1..], id)
    else [todos[0]] + RemoveById(todos[1..], id)
  }

  /** A delete removes every copy of each item carrying the id and keeps every
      other item with its multiplicity. */
  lemma {:induction false} RemoveByIdContents(todos: seq<Todo>, id: Id)
    ensures forall t :: multiset(RemoveById(todos, id))[t] ==
                        if t.id == id then 0 else multiset(todos)[t]
  {
    if todos != [] {
      RemoveByIdContents(todos[1..], id);
      assert todos == [todos[0]] + todos[1..];
    }
  }

  /** `a` can be obtained from `b` by deleting elements, keeping the order of the rest. */
  ghost predicate SubsequenceOf(a: seq<Todo>, b: seq<Todo>)
    decreases |b|
  {
    if a == [] then true
    else if b == [] then false
    else (a[0] == b[0] && SubsequenceOf(a[1..], b[1..])) || SubsequenceOf(a, b[1..])
  }

  /** The survivors of a delete keep their relative order. */
  lemma {:induction false} RemoveByIdKeepsOrder(todos: seq<Todo>, id: Id)
    ensures SubsequenceOf(RemoveById(todos, id), todos)
  {
    if todos != [] {
      RemoveByIdKeepsOrder(todos[1..], id);
      var r := RemoveById(todos, id);
      if todos[0].id != id {
        assert r[0] == todos[0] && r[1..] == RemoveById(todos[1..], id);
      }
    }
  }

  /** A delete leaves no item carrying the deleted id, and keeps every other item. */
  lemma RemoveByIdMembership(todos: seq<Todo>, id: Id, t: Todo)
    ensures t in RemoveById(todos, id) <==> t in todos && t.id != id
  {
    RemoveByIdContents(todos, id);
  }

  /** Number of items of `todos` carrying `id`. */
  function CountId(todos: seq<Todo>, id: Id): (n: nat)
    ensures n <= |todos|
  {
    if todos == [] then 0 else (if todos[0].id == id then 1 else 0) + CountId(todos[1..], id)
  }

  /** A delete shortens the list by exactly the number of items carrying the id. */
  lemma {:induction false} RemoveByIdLength(todos: seq<Todo>, id: Id)
    ensures |RemoveById(todos, id)| == |todos| - CountId(todos, id)
  {
    if todos != [] {
      RemoveByIdLength(todos[1..], id);
    }
  }

  /** A delete of an id no item carries changes nothing. */
  lemma {:induction false} RemoveAbsentId(todos: seq<Todo>, id: Id)
    requires forall i :: 0 <= i < |todos| ==> todos[i].id != id
    ensures RemoveById(todos, id) == todos
  {
    if todos != [] {
      RemoveAbsentId(todos[1..], id);
      assert todos == [todos[0]] + todos[1..];
    }
  }

  /** Filtering distributes over concatenation. */
  lemma {:induction false} RemoveByIdConcat(a: seq<Todo>, b: seq<Todo>, id: Id)
    ensures RemoveById(a + b, id) == RemoveById(a, id) + RemoveById(b, id)
  {
    if a != [] {
      RemoveByIdConcat(a[1..], b, id);
      var ab := a + b;
      assert ab[0] == a[0] && ab[1..] == a[1..] + b;
      if a[0].id != id {
        assert RemoveById(ab, id) == [a[0]] + RemoveById(ab[1..], id);
        assert RemoveById(a, id) == [a[0]] + RemoveById(a[1..], id);
        var x, y := RemoveById(a[1..], id), RemoveById(b, id);
        assert [a[0]] + (x + y) == ([a[0]] + x) + y;
      } else {
        assert RemoveById(ab, id) == RemoveById(ab[1..], id);
        assert RemoveById(a, id) == RemoveById(a[1..], id);
      }
    } else {
      assert a + b == b;
    }
  }

  /** Deleting a freshly created item undoes appending it: a successful create
      followed by a successful delete of the server-returned id restores the list. */
  lemma {:induction false} RemoveUndoesAppend(todos: seq<Todo>, item: Todo)
    requires forall i :: 0 <= i < |todos| ==> todos[i].id != item.id
    ensures RemoveById(todos + [item], item.id) == todos
  {
    RemoveByIdConcat(todos, [item], item.id);
    RemoveAbsentId(todos, item.id);
    assert RemoveById([item], item.id) == RemoveById([], item.id);
  }

  /** Deleting the same id twice is the same as deleting it once. */
  lemma {:induction false} RemoveByIdIdempotent(todos: seq<Todo>, id: Id)
    ensures RemoveById(RemoveById(todos, id), id) == RemoveById(todos, id)
  {
    if todos != [] {
      RemoveByIdIdempotent(todos[1..], id);
      if todos[0].id != id {
        var r := RemoveById(todos, id);
        assert r[0] == todos[0] && r[1..] == RemoveById(todos[1..], id);
      }
    }
  }

  /** Two successful deletes give the same list whichever response is applied first. */
  lemma {:induction false} RemoveByIdCommutes(todos: seq<Todo>, a: Id, b: Id)
    ensures RemoveById(RemoveById(todos, a), b) == RemoveById(RemoveById(todos, b), a)
  {
    if todos != [] {
      RemoveByIdCommutes(todos[1..], a, b);
      var t := todos[0];
      var ra, rb := RemoveById(todos, a), RemoveById(todos, b);
      if t.id != a {
        assert ra[0] == t && ra[1..] == RemoveById(todos[1..], a);
      }
      if t.id != b {
        assert rb[0] == t && rb[1..] == RemoveById(todos[1..], b);
      }
      if t.id != a && t.id != b {
        var rab, rba := RemoveById(ra, b), RemoveById(rb, a);
        assert rab[0] == t && rab[1..] == RemoveById(ra[1..], b);
        assert rba[0] == t && rba[1..] == RemoveById(rb[1..], a);
      }
    }
  }

  /** An update keeps every item's id in place when the replacement carries the
      target id, as the component's `{id, title, description}` always does. */
  lemma ReplaceByIdKeepsIds(todos: seq<Todo>, id: Id, updated: Todo)
    requires updated.id == id
    ensures forall i :: 0 <= i < |todos| ==> ReplaceById(todos, id, updated)[i].id == todos[i].id
  {
  }

  /** After an update, looking the id up finds exactly the replacement, and an id
      that was absent stays absent. */
  lemma FindAfterReplace(todos: seq<Todo>, id: Id, updated: Todo)
    requires updated.id == id
    ensures FindById(ReplaceById(todos, id, updated), id) ==
            if FindById(todos, id).Some? then Some(updated) else None
  {
  }

  /** After a delete, looking the id up finds nothing. */
  lemma FindAfterRemove(todos: seq<Todo>, id: Id)
    ensures FindById(RemoveById(todos, id), id) == None
  {
  }

  /** Updates of two different ids commute. */
  lemma ReplaceByIdCommutes(todos: seq<Todo>, a: Id, x: Todo, b: Id, y: Todo)
    requires a != b && x.id == a && y.id == b
    ensures ReplaceById(ReplaceById(todos, a, x), b, y) == ReplaceById(ReplaceById(todos, b, y), a, x)
  {
  }

  /** Repeating an update with the same values changes nothing further. */
  lemma ReplaceByIdIdempotent(todos: seq<Todo>, id: Id, updated: Todo)
    requires updated.id == id
    ensures ReplaceById(ReplaceById(todos, id, updated), id, updated) == ReplaceById(todos, id, updated)
  {
  }
}
