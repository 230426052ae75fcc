/**
 The data of the todo app: the todo record with its revision log, the filter
 and sort settings, and the session record `state` that holds them all
 (app.js lines 1-17).
 */
module Model {

  /** JavaScript `null` (or an absent value) is `None`. */
  datatype Option<T> = None | Some(value: T)

  datatype Status = Incomplete | Complete

  /** The string the source stores in `todo.status`. */
  function StatusName(s: Status): string {
    match s
    case Incomplete => "incomplete"
    case Complete => "complete"
  }

  function Flip(s: Status): Status {
    if s == Complete then Incomplete else Complete
  }

  datatype Action = Created | Updated

  /** The five user-visible fields of a todo. A history entry written by an
      update in the source copies the whole merged record (including `id`,
      `createdAt` and the previous `history`); the model keeps only these five
      fields of that copy, which are the ones the history panel shows. */
  datatype Fields = Fields(
    title: string,
    description: string,
    category: string,
    dueDate: string,
    status: Status)

  /** One revision: when it was written, by which operation, and the fields then. */
  datatype HistoryEntry = HistoryEntry(timestamp: string, action: Action, data: Fields)

  /** A todo. `dueDate` is the form's date string, empty when no date was chosen;
      timestamps are opaque strings supplied by the caller. */
  datatype Todo = Todo(
    id: int,
    title: string,
    description: string,
    category: string,
    dueDate: string,
    status: Status,
    createdAt: string,
    history: seq<HistoryEntry>)

  function Visible(t: Todo): Fields {
    Fields(t.title, t.description, t.category, t.dueDate, t.status)
  }

  /** The filter settings; `status` and `category` hold the value "all" when not filtering. */
  datatype Filters = Filters(text: string, status: string, category: string)

  const All: string := "all"

  datatype SortKey = ByDueDate | ByTitle
  datatype Direction = Asc | Desc
  /** `state.sort`; `key` is the source's `by` field. */
  datatype SortSpec = SortSpec(key: SortKey, direction: Direction)

  /** The session record. `currentTodo` is the edit buffer: `None` for the empty
      object `{}`, `Some(t)` for a copy of a todo. `currentHistoryIndex` maps a
      todo id to the history entry being viewed. */
  datatype State = State(
    todos: seq<Todo>,
    filters: Filters,
    sort: SortSpec,
    editingId: Option<int>,
    currentTodo: Option<Todo>,
    showHistory: Option<int>,
    currentHistoryIndex: map<int, int>,
    nextId: int)

  /** The state before anything is loaded or done. */
  const Initial: State := State(
    [], Filters("", All, All), SortSpec(ByDueDate, Asc),
    None, None, None, map[], 1)

  /** The position of the first todo with this id, as `Array.prototype.find` scans. */
  function IndexOf(todos: seq<Todo>, id: int): (r: Option<nat>)
    ensures r.Some? ==> r.value < |todos| && todos[r.value].id == id
    ensures r.Some? ==> forall j :: 0 <= j < r.value ==> todos[j].id != id
    ensures r.None? <==> !HasId(todos, id)
  {
    if todos == [] then None
    else if todos[0].id == id then Some(0)
    else match IndexOf(todos[1..], id)
      case None => None
      case Some(k) => Some(k + 1)
  }

  /** `state.todos.find((t) => t.id === id)`. */
  function Find(todos: seq<Todo>, id: int): (r: Option<Todo>)
    ensures r.Some? ==> r.value in todos && r.value.id == id
    ensures r.Some? ==>
      exists k :: 0 <= k < |todos| && todos[k] == r.value && (forall j :: 0 <= j < k ==> todos[j].id != id)
    ensures r.None? <==> !HasId(todos, id)
  {
    match IndexOf(todos, id)
    case None => None
    case Some(k) => Some(todos[k])
  }

  /** Some todo has this id. `IndexOf` and `Find` answer `None` exactly when it fails. */
  predicate HasId(todos: seq<Todo>, id: int) {
    exists k :: 0 <= k < |todos| && todos[k].id == id
  }

  predicate UniqueIds(todos: seq<Todo>) {
    forall i, j :: 0 <= i < j < |todos| ==> todos[i].id != todos[j].id
  }

  /** A todo's log starts with its creation and ends with its current fields. */
  predicate WellFormedHistory(t: Todo) {
    && |t.history| > 0
    && t.history[0].action == Created
    && t.history[|t.history| - 1].data == Visible(t)
  }

  /** What the store operations maintain: ids are distinct and below the
      counter, so a freshly allocated id is never one in use, and every log is
      well formed. */
  predicate Valid(s: State) {
    && UniqueIds(s.todos)
    && (forall k :: 0 <= k < |s.todos| ==> s.todos[k].id < s.nextId)
    && (forall k :: 0 <= k < |s.todos| ==> WellFormedHistory(s.todos[k]))
  }

  /** `completedCount`: how many todos are complete. */
  function CompletedCount(todos: seq<Todo>): (n: nat)
    ensures n <= |todos|
    ensures n == 0 <==> forall k :: 0 <= k < |todos| ==> todos[k].status != Complete
    ensures n == |todos| <==> forall k :: 0 <= k < |todos| ==> todos[k].status == Complete
  {
    if todos == [] then 0
    else (if todos[0].status == Complete then 1 else 0) + CompletedCount(todos[1..])
  }
}
