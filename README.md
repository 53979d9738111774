# TodoList controller model

A Dafny model of the `TodoList` component of a small React to-do client
(`src/components/TodoList.jsx`). The component keeps a client-side cache of
to-do items, a draft (`title`, `description`), an edit sub-mode (`editMode`,
`editTodoId`) and a session flag (`loggedIn`). It patches the cache after each
successful call to a REST API and logs the user out when a session timeout fires.

The model has two modules:

- `TodoCache` (`todo_cache.dfy`) holds the item datatype and the pure list
  transformations the handlers build their new lists with. These are `find` by
  id, `map`-replace by id and `filter` by id. Lemmas state their exact effect:
  length, order, which items change and which do not. They also state how
  they compose: a delete undoes an append, deletes commute and are idempotent,
  and a lookup after an update or a delete finds the expected result.
- `TodoListComponent` (`todo_list.dfy`) holds the class `TodoList`. Its fields
  are the component's state variables plus the stored token and the timer. It
  has one method per handler or lifecycle event. Each network call is an input
  `Reply`: a response with a status and a parsed body (or `None` when
  `response.json()` rejects), or a network error. Every method keeps `Valid()`:
  `editMode` is true exactly when `editTodoId` holds an id, and a timer is
  pending only while the view is mounted.

Several behaviours of the code are easy to misread; the model follows the code:

- `fetchTodos` never checks `response.ok`. Any parsed body replaces the list,
  whatever the status. Only a network error or an unparsable body leaves the
  list alone.
- The mount effect schedules the 290000 ms timeout even when there is no
  session.
- Expiry removes the token and drops `loggedIn`, but it keeps the cached list
  and the draft. The list is hidden, because it renders only while `loggedIn`
  holds. The draft is hidden only while an item's editor is open: the compose
  form depends on `editMode` alone. If the view stays mounted after the
  navigation, the change of `loggedIn` (a dependency of the effect) re-runs
  the effect, which schedules a new timeout.
- `loggedIn` starts as the truthiness of the stored token. A stored empty
  string therefore counts as no session.
- `startEditTodo` can be called while another item's editor is open. It then
  switches the editor to the new item. `createTodo` has no guard of its own.
  Only the rendering hides its form in edit mode.

## Model

| member | source | states |
|---|---|---|
| TodoCache.FindById | src/components/TodoList.jsx:118-119 | the result is absent iff no item carries the id; otherwise it is the item at the first position carrying the id |
| TodoCache.ReplaceById | src/components/TodoList.jsx:81-84 | same length and order; every item with the target id becomes the replacement, every other item is unchanged |
| TodoCache.RemoveById | src/components/TodoList.jsx:107 | no surviving item carries the id, and the list does not grow |
| TodoCache.RemoveByIdContents | src/components/TodoList.jsx:107 | as multisets, every item with the id is gone and every other item keeps its multiplicity |
| TodoCache.RemoveByIdMembership | src/components/TodoList.jsx:107 | an item survives a delete iff it was in the list and does not carry the id |
| TodoCache.RemoveByIdKeepsOrder | src/components/TodoList.jsx:107 | the survivors are a subsequence of the old list (relative order preserved) |
| TodoCache.RemoveByIdLength | src/components/TodoList.jsx:107 | the list shrinks by exactly the number of items carrying the id |
| TodoCache.RemoveAbsentId | src/components/TodoList.jsx:107 | deleting an id no item carries leaves the list unchanged |
| TodoCache.RemoveByIdConcat | src/components/TodoList.jsx:107 | filtering distributes over concatenation |
| TodoCache.RemoveUndoesAppend | src/components/TodoList.jsx:59 | appending a created item with a fresh id and then deleting that id restores the list |
| TodoCache.RemoveByIdIdempotent | src/components/TodoList.jsx:107 | deleting the same id twice equals deleting it once |
| TodoCache.RemoveByIdCommutes | src/components/TodoList.jsx:106-108 | two successful deletes give the same list in either completion order |
| TodoCache.ReplaceByIdKeepsIds | src/components/TodoList.jsx:81-84 | an update keeps every position's id when the replacement carries the target id |
| TodoCache.FindAfterReplace | src/components/TodoList.jsx:81-84 | after an update, looking up the id finds the replacement if the id was present, and nothing otherwise |
| TodoCache.FindAfterRemove | src/components/TodoList.jsx:107 | after a delete, looking up the id finds nothing |
| TodoCache.ReplaceByIdCommutes | src/components/TodoList.jsx:81-84 | updates of two different ids commute |
| TodoCache.ReplaceByIdIdempotent | src/components/TodoList.jsx:81-84 | repeating an update with the same values changes nothing more |
| TodoListComponent.TodoList.constructor | src/components/TodoList.jsx:5-12 | empty list and draft, edit state (false, null), not mounted, no timer, `loggedIn` iff a non-empty token is stored |
| TodoListComponent.TodoList.FetchTodos | src/components/TodoList.jsx:32-45 | a parsed body replaces the list wholesale whatever the status; a network error or unparsable body leaves it; nothing else changes |
| TodoListComponent.TodoList.Mount | src/components/TodoList.jsx:16-27 | without a session: navigate to "/" and no fetch; with one: fetch and apply it; the timeout is scheduled either way |
| TodoListComponent.TodoList.Unmount | src/components/TodoList.jsx:29 | the pending timeout is cleared |
| TodoListComponent.TodoList.Expire | src/components/TodoList.jsx:23-30 | token removed, `loggedIn` false so the list is hidden, navigation to "/" requested; while the view stays mounted, the effect re-run schedules a new timeout iff `loggedIn` changed |
| TodoListComponent.TodoList.CreateTodo | src/components/TodoList.jsx:47-68 | on a 2xx parsed reply the list is the old list plus the server item at the end and the draft is empty; otherwise list and draft unchanged; edit state never touched |
| TodoListComponent.TodoList.UpdateTodo | src/components/TodoList.jsx:70-96 | on 2xx the list is `ReplaceById` with `{id, title, description}` from the draft, the draft is cleared and the edit state is (false, null); on failure list, draft and edit state are unchanged |
| TodoListComponent.TodoList.DeleteTodo | src/components/TodoList.jsx:98-115 | on 2xx the list is `RemoveById` of the old list; on failure it is unchanged; nothing else changes |
| TodoListComponent.TodoList.StartEditTodo | src/components/TodoList.jsx:117-125 | if some item carries the id, the draft is the first such item's fields and the editor is open on that id; otherwise nothing changes; the list is never modified |
| TodoListComponent.TodoList.CancelEditTodo | src/components/TodoList.jsx:127-132 | empty draft, edit state (false, null), compose form shown; from that state a second call changes nothing; the list is untouched |

## Left out

- The HTTP layer (URLs, headers, request bodies, `fetch` itself) is left out. Each call is a `Reply` input to the handler that issued it. The bearer token sent with each call is not modelled.
- Overlapping asynchronous completions are left out. Each handler is applied atomically to the state current when its reply arrives. The source's handlers close over the `todos` of the render that created them, so two in-flight mutations can overwrite each other. The model does not capture that. `RemoveByIdCommutes` and `ReplaceByIdCommutes` state the order-independence that atomic application gives.
- Expire: `timerPending == old(loggedIn)` describes the view staying mounted after the navigation it requests. When the navigation swaps the route in the same render (batched updates), the effect is cleaned up instead of re-run and no new timeout is scheduled; when it re-runs first, the unmount clears that timeout at once. The router is not part of this model.
- Wall-clock time is left out. The 290000 ms timeout is a pending flag, and its firing is the `Expire` event. `Expire` may happen only while the flag is set.
- Navigation is a boolean result that asks for a move to "/". The router, and the unmount that follows a navigation, are not part of this model.
- State updates arriving after unmount are not modelled. React ignores them.
- Rendering, styling and the inputs' `onChange` bindings are left out. The visibility conditions at lines 139, 142 and 194 are the predicates `ListShown`, `EditorOpenFor` and `ComposeFormShown`.
- Console logging is left out.
- Bodies that parse as JSON but are not a list of items (for example an error object from a non-2xx list request) are outside the model's types. The source would store them as `todos`.
- `src/App.js` is left out. It only wires routes, and its own `loggedIn` state is never used. The `Login` component is not part of this model.
- Ids are modelled as integers. The client only compares them for equality.
