/** The TodoList view controller: the component state (cached list, draft, edit
    sub-mode, session flag), the stored bearer token and the session timer, with
    one method per handler or lifecycle event. Every network call is an input
    `Reply` value: the handler is applied atomically to its outcome. */
module TodoListComponent {
  import opened TodoCache

  /** Outcome of one HTTP call. `Response(status, body)` is a response that
      arrived; `body` is its parsed JSON body, `None` when the body is not JSON
      and parsing fails. `NetworkError` is a request that never got a response. */
  datatype Reply<T> = Response(status: int, body: Option<T>) | NetworkError

  /** The response counts as successful: a status in the 2xx range. */
  predicate Ok(status: int)
  {
    200 <= status <= 299
  }

  /** An update or delete succeeded: a response arrived with a 2xx status (its
      body is never read). */
  predicate Acknowledged<T>(reply: Reply<T>)
  {
    reply.Response? && Ok(reply.status)
  }

  /** A session exists when a token is stored and it is not the empty string
      (an empty stored string is falsy). */
  predicate HasSession(token: Option<string>)
  {
    token.Some? && token.value != ""
  }

  class TodoList {
    /** Cached copy of the server's list, in display order. */
    var todos: seq<Todo>
    /** The draft: the compose form's fields, or the open editor's fields. */
    var title: string
    var description: string
    var loggedIn: bool
    var editMode: bool
    var editTodoId: Option<Id>
    /** The "accessToken" entry of browser storage. */
    var accessToken: Option<string>
    /** The mount effect has run and its cleanup has not. */
    var mounted: bool
    /** The 290000 ms session timeout is scheduled and has neither fired nor
        been cleared. */
    var timerPending: bool

    /** The edit sub-mode is either (false, null) or (true, some id), and a
        timer is only pending while the view is mounted. */
    ghost predicate Valid()
      reads this
    {
      (editMode <==> editTodoId.Some?) &&
      (timerPending ==> mounted)
    }

    /** The list is rendered only while logged in. */
    predicate ListShown()
      reads this
    {
      loggedIn
    }

    /** The compose form is rendered only outside edit mode. */
    predicate ComposeFormShown()
      reads this
    {
      !editMode
    }

    /** Item `t` is rendered as the open editor rather than as a plain row. */
    predicate EditorOpenFor(t: Todo)
      reads this
    {
      editMode && editTodoId == Some(t.id)
    }

    /** First render: every piece of state takes its initial value, and the
        session flag is read once from storage. */
    constructor (storedToken: Option<string>)
      ensures Valid()
      ensures todos == [] && title == "" && description == ""
      ensures loggedIn == HasSession(storedToken)
      ensures !editMode && editTodoId == None
      ensures accessToken == storedToken && !mounted && !timerPending
    {
      todos := [];
      title := "";
      description := "";
      loggedIn := HasSession(storedToken);
      editMode := false;
      editTodoId := None;
      accessToken := storedToken;
      mounted := false;
      timerPending := false;
    }

    /** Fetching the list: whatever body parses replaces the list wholesale,
        whatever the status; a failed request or unparsable body leaves it as it was. */
    method FetchTodos(reply: Reply<seq<Todo>>)
      modifies this`todos
      ensures todos == if reply.Response? && reply.body.Some? then reply.body.value else old(todos)
    {
      if reply.Response? && reply.body.Some? {
        todos := reply.body.value;
      }
    }

    /** The mount effect: without a session it asks to navigate to "/" and does
        not fetch; with one it fetches the list. Either way it schedules the
        session timeout. */
    method Mount(reply: Reply<seq<Todo>>) returns (navigateHome: bool, fetched: bool)
      requires Valid() && !mounted
      modifies this`todos, this`mounted, this`timerPending
      ensures Valid() && mounted && timerPending
      ensures navigateHome == !loggedIn && fetched == loggedIn
      ensures todos == if loggedIn && reply.Response? && reply.body.Some? then reply.body.value
                       else old(todos)
    {
      mounted := true;
      if !loggedIn {
        navigateHome, fetched := true, false;
      } else {
        navigateHome, fetched := false, true;
        FetchTodos(reply);
      }
      timerPending := true;
    }

    /** The effect's cleanup on unmount: the pending timeout is cleared. */
    method Unmount()
      requires Valid() && mounted
      modifies this`mounted, this`timerPending
      ensures Valid() && !mounted && !timerPending
    {
      timerPending := false;
      mounted := false;
    }

    /** The session timeout fires: the token is removed, the session flag drops
        and navigation to "/" is requested. The cached list and the draft are
        kept: the list is hidden, the draft only while an item's editor is open.
        The timer flag describes the view staying mounted after the navigation:
        the session flag is a dependency of the effect, so a flag that actually
        changed re-runs the effect, which schedules a fresh timeout. */
    method Expire() returns (navigateHome: bool)
      requires Valid() && timerPending
      modifies this`accessToken, this`loggedIn, this`timerPending
      ensures Valid() && accessToken == None && !loggedIn && !ListShown()
      ensures navigateHome
      ensures timerPending == old(loggedIn)
    {
      accessToken := None;
      var wasLoggedIn := loggedIn;
      loggedIn := false;
      navigateHome := true;
      timerPending := wasLoggedIn;
    }

    /** Creating an item: on a 2xx response whose body parses, the server's item is
        appended and the draft cleared; on any failure nothing changes. The edit
        sub-mode is never touched. */
    method CreateTodo(reply: Reply<Todo>)
      requires Valid()
      modifies this`todos, this`title, this`description
      ensures Valid()
      ensures if Acknowledged(reply) && reply.body.Some? then
                todos == old(todos) + [reply.body.value] && title == "" && description == ""
              else
                todos == old(todos) && title == old(title) && description == old(description)
    {
      if Acknowledged(reply) && reply.body.Some? {
        todos := todos + [reply.body.value];
        title := "";
        description := "";
      }
    }

    /** Saving the open editor for `id`: on a 2xx response every item carrying `id` becomes the
        draft under that id, the draft is cleared and edit mode is left; on any
        failure nothing changes. */
    method UpdateTodo(id: Id, reply: Reply<()>)
      requires Valid()
      modifies this`todos, this`title, this`description, this`editMode, this`editTodoId
      ensures Valid()
      ensures if Acknowledged(reply) then
                todos == ReplaceById(old(todos), id, Todo(id, old(title), old(description))) &&
                title == "" && description == "" && !editMode && editTodoId == None
              else
                todos == old(todos) && title == old(title) && description == old(description) &&
                editMode == old(editMode) && editTodoId == old(editTodoId)
    {
      if Acknowledged(reply) {
        var updated := Todo(id, title, description);
        todos := ReplaceById(todos, id, updated);
        title := "";
        description := "";
        editMode := false;
        editTodoId := None;
      }
    }

    /** Deleting `id`: on a 2xx response every item carrying `id` is dropped;
        on any failure nothing changes. */
    method DeleteTodo(id: Id, reply: Reply<()>)
      modifies this`todos
      ensures todos == if Acknowledged(reply) then RemoveById(old(todos), id) else old(todos)
    {
      if Acknowledged(reply) {
        todos := RemoveById(todos, id);
      }
    }

    /** Opening the editor on `id`: if an item carries `id`, the first such item is
        loaded into the draft and its editor opened; otherwise nothing changes. */
    method StartEditTodo(id: Id)
      requires Valid()
      modifies this`title, this`description, this`editMode, this`editTodoId
      ensures Valid()
      ensures match FindById(todos, id)
              case Some(t) =>
                title == t.title && description == t.description &&
                editMode && editTodoId == Some(id) && EditorOpenFor(t)
              case None =>
                title == old(title) && description == old(description) &&
                editMode == old(editMode) && editTodoId == old(editTodoId)
    {
      var toEdit := FindById(todos, id);
      if toEdit.Some? {
        title := toEdit.value.title;
        description := toEdit.value.description;
        editMode := true;
        editTodoId := Some(id);
      }
    }

    /** Cancelling an edit: back to an empty compose form. A second call finds
        the state it leaves and changes nothing. */
    method CancelEditTodo()
      requires Valid()
      modifies this`title, this`description, this`editMode, this`editTodoId
      ensures Valid() && ComposeFormShown()
      ensures title == "" && description == "" && !editMode && editTodoId == None
      ensures old(title == "" && description == "" && !editMode) ==> unchanged(this)
    {
      title := "";
      description := "";
      editMode := false;
      editTodoId := None;
    }
  }
}
