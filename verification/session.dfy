/**
 Session bookkeeping: the filter and sort settings, the edit marker and edit
 buffer (app.js lines 120-145), and the counter recomputation performed when
 a saved session is loaded (app.js lines 34-36).
 */
module Session {
  import opened Model
  import Store

  /** The three names `setFilter` is called with: "text", "status", "category". */
  datatype FilterField = TextFilter | StatusFilter | CategoryFilter

  /** `setFilter(filterType, value)`: replaces one filter setting. */
  function SetFilter(s: State, field: FilterField, value: string): (r: State)
    ensures field == TextFilter ==> r.filters.text == value
    ensures field == StatusFilter ==> r.filters.status == value
    ensures field == CategoryFilter ==> r.filters.category == value
    ensures field != TextFilter ==> r.filters.text == s.filters.text
    ensures field != StatusFilter ==> r.filters.status == s.filters.status
    ensures field != CategoryFilter ==> r.filters.category == s.filters.category
    ensures r.(filters := s.filters) == s
  {
    match field
    case TextFilter => s.(filters := s.filters.(text := value))
    case StatusFilter => s.(filters := s.filters.(status := value))
    case CategoryFilter => s.(filters := s.filters.(category := value))
  }

  /** The last write to a filter wins, and writes to different filters commute. */
  lemma SetFilterLastWins(s: State, f: FilterField, g: FilterField, v: string, w: string)
    ensures SetFilter(SetFilter(s, f, v), f, w) == SetFilter(s, f, w)
    ensures f != g ==> SetFilter(SetFilter(s, f, v), g, w) == SetFilter(SetFilter(s, g, w), f, v)
  {
  }

  function Reverse(d: Direction): Direction {
    if d == Asc then Desc else Asc
  }

  /** `setSort(sortBy)`: choosing the current key reverses the direction;
      choosing the other key sorts ascending by it. */
  function SetSort(s: State, key: SortKey): (r: State)
    ensures s.sort.key == key ==> r.sort.key == key && r.sort.direction != s.sort.direction
    ensures s.sort.key != key ==> r.sort == SortSpec(key, Asc)
    ensures r.(sort := s.sort) == s
  {
    if s.sort.key == key then s.(sort := s.sort.(direction := Reverse(s.sort.direction)))
    else s.(sort := SortSpec(key, Asc))
  }

  /** Choosing the current key twice restores the sort; choosing a new key
      twice ends in descending order by it. */
  lemma SetSortTwice(s: State, key: SortKey)
    ensures s.sort.key == key ==> SetSort(SetSort(s, key), key) == s
    ensures s.sort.key != key ==> SetSort(SetSort(s, key), key).sort == SortSpec(key, Desc)
  {
  }

  /** `startEditing(id)`: marks `id` as being edited (even when no todo has
      it) and copies the first todo with it into the edit buffer, or empties it. */
  function StartEditing(s: State, id: int): (r: State)
    ensures r.editingId == Some(id)
    ensures r.currentTodo.Some? ==> r.currentTodo.value in s.todos && r.currentTodo.value.id == id
    ensures r.currentTodo.Some? ==>
      exists k :: 0 <= k < |s.todos| && s.todos[k] == r.currentTodo.value && (forall j :: 0 <= j < k ==> s.todos[j].id != id)
    ensures r.currentTodo.None? <==> !HasId(s.todos, id)
    ensures r.(editingId := s.editingId, currentTodo := s.currentTodo) == s
  {
    s.(editingId := Some(id), currentTodo := Find(s.todos, id))
  }

  /** `cancelEditing()`: clears the edit marker and empties the edit buffer. */
  function CancelEditing(s: State): (r: State)
    ensures r.editingId == None && r.currentTodo == None
    ensures r.(editingId := s.editingId, currentTodo := s.currentTodo) == s
  {
    s.(editingId := None, currentTodo := None)
  }

  /** Editing and cancelling leaves the stored todos exactly as they were. */
  lemma EditThenCancelKeepsTodos(s: State, id: int)
    ensures CancelEditing(StartEditing(s, id)) == s.(editingId := None, currentTodo := None)
  {
  }

  /** `Math.max(...state.todos.map((t) => t.id))`. */
  function MaxId(todos: seq<Todo>): (m: int)
    requires todos != []
    ensures HasId(todos, m)
    ensures forall k :: 0 <= k < |todos| ==> todos[k].id <= m
  {
    if |todos| == 1 then todos[0].id
    else
      var rest := MaxId(todos[1..]);
      if todos[0].id >= rest then todos[0].id else rest
  }

  /** The counter after loading a saved session: one past the largest stored
      id when there are todos, otherwise the saved (or default) counter. */
  function ReloadNextId(todos: seq<Todo>, saved: int): (n: int)
    ensures todos == [] ==> n == saved
    ensures todos != [] ==> HasId(todos, n - 1)
    ensures forall k :: 0 <= k < |todos| ==> todos[k].id < n
  {
    if |todos| > 0 then MaxId(todos) + 1 else saved
  }

  /** The loaded session with its counter recomputed: only the counter may
      change, it is kept when there are no todos, and afterwards it lies above
      every stored id. */
  function Reload(s: State): (r: State)
    ensures r.(nextId := s.nextId) == s
    ensures s.todos == [] ==> r == s
    ensures forall k :: 0 <= k < |r.todos| ==> r.todos[k].id < r.nextId
    ensures r.todos != [] ==> HasId(r.todos, r.nextId - 1)
  {
    s.(nextId := ReloadNextId(s.todos, s.nextId))
  }

  /** After loading, a session whose ids are distinct and whose logs are well
      formed satisfies the store invariant, so the next todo created gets an id
      above every stored one. */
  lemma ReloadRestoresValid(s: State, title: string, description: string, category: string,
                            dueDate: string, now: string)
    requires UniqueIds(s.todos)
    requires forall k :: 0 <= k < |s.todos| ==> WellFormedHistory(s.todos[k])
    ensures Valid(Reload(s))
    ensures var r := Store.AddTodo(Reload(s), title, description, category, dueDate, now);
      |r.todos| > |s.todos| ==>
        forall k :: 0 <= k < |s.todos| ==> s.todos[k].id < r.todos[|s.todos|].id
  {
  }
}
