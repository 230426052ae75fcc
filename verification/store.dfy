/**
 The todo store: creating, updating, deleting and toggling todos (app.js lines
 44-118). Creating, updating and toggling append to the affected todo's
 revision log; deleting removes the todo with its log. The clock
 is a `now` parameter and the delete confirmation a `confirmed` parameter.
 */
module Store {
  import opened Model
  import opened Text
  import Seqs

  /** The argument `updates` of `updateTodo`: `None` leaves a field as it is. */
  datatype Updates = Updates(
    title: Option<string>,
    description: Option<string>,
    category: Option<string>,
    dueDate: Option<string>,
    status: Option<Status>)

  /** What `toggleTodoStatus` passes to `updateTodo`. */
  function StatusOnly(s: Status): Updates {
    Updates(None, None, None, None, Some(s))
  }

  function Override<T>(current: T, u: Option<T>): T {
    match u
    case Some(v) => v
    case None => current
  }

  /** `{ ...todo, ...updates }` on the visible fields: a given field wins. */
  function Merge(f: Fields, u: Updates): Fields {
    Fields(
      Override(f.title, u.title),
      Override(f.description, u.description),
      Override(f.category, u.category),
      Override(f.dueDate, u.dueDate),
      Override(f.status, u.status))
  }

  /** `addTodo(title, description, category, dueDate)`. A title that is empty
      after trimming leaves the state as it was; otherwise one todo is appended
      under the counter's id, with one `created` log entry. */
  function AddTodo(s: State, title: string, description: string, category: string,
                   dueDate: string, now: string): (r: State)
    ensures AllSpace(title) ==> r == s
    ensures !AllSpace(title) ==>
      && |r.todos| == |s.todos| + 1
      && r.todos[..|s.todos|] == s.todos
      && r.nextId == s.nextId + 1
      && r.currentTodo == None
      && r.(todos := s.todos, nextId := s.nextId, currentTodo := s.currentTodo) == s
    ensures !AllSpace(title) ==>
      var t := r.todos[|s.todos|];
      && t.id == s.nextId
      && t.title == Trim(title) && t.title != [] && !IsSpace(t.title[0])
      && t.description == Trim(description)
      && t.category == category && t.dueDate == dueDate
      && t.status == Incomplete
      && t.createdAt == now
      && t.history == [HistoryEntry(now, Created, Visible(t))]
  {
    var trimmed := Trim(title);
    if trimmed == [] then s
    else
      var fields := Fields(trimmed, Trim(description), category, dueDate, Incomplete);
      var t := Todo(s.nextId, fields.title, fields.description, category, dueDate,
                    Incomplete, now, [HistoryEntry(now, Created, fields)]);
      s.(todos := s.todos + [t], nextId := s.nextId + 1, currentTodo := None)
  }

  /** One todo after `updateTodo`: fields merged, one `updated` entry appended. */
  function ApplyUpdate(t: Todo, u: Updates, now: string): Todo {
    var f := Merge(Visible(t), u);
    t.(title := f.title, description := f.description, category := f.category,
       dueDate := f.dueDate, status := f.status,
       history := t.history + [HistoryEntry(now, Updated, f)])
  }

  /** `updateTodo(id, updates)`: every todo with this id is merged with
      `updates` and logs the merged fields; all other todos stay as they were.
      `editingId` is cleared whether or not the id exists; the edit buffer
      `currentTodo` is not touched. */
  function UpdateTodo(s: State, id: int, u: Updates, now: string): (r: State)
    ensures |r.todos| == |s.todos|
    ensures forall k :: 0 <= k < |s.todos| && s.todos[k].id != id ==> r.todos[k] == s.todos[k]
    ensures forall k :: 0 <= k < |s.todos| && s.todos[k].id == id ==>
      && r.todos[k].id == id
      && r.todos[k].createdAt == s.todos[k].createdAt
      && Visible(r.todos[k]) == Merge(Visible(s.todos[k]), u)
      && r.todos[k].history == s.todos[k].history + [HistoryEntry(now, Updated, Visible(r.todos[k]))]
    ensures !HasId(s.todos, id) ==> r.todos == s.todos
    ensures r.editingId == None
    ensures r.(todos := s.todos, editingId := s.editingId) == s
  {
    var todos := seq(|s.todos|, k requires 0 <= k < |s.todos| =>
      if s.todos[k].id == id then ApplyUpdate(s.todos[k], u, now) else s.todos[k]);
    s.(todos := todos, editingId := None)
  }

  function IdIsNot(id: int): Todo -> bool {
    (t: Todo) => t.id != id
  }

  /** `deleteTodo(id)` once the user has answered the confirmation prompt.
      Confirmed: every todo with this id goes, the history panel is closed
      whichever todo it showed, and nothing else changes. Declined: no change. */
  function DeleteTodo(s: State, id: int, confirmed: bool): (r: State)
    ensures !confirmed ==> r == s
    ensures confirmed ==>
      && (forall t :: t in r.todos <==> t in s.todos && t.id != id)
      && !HasId(r.todos, id)
      && r.showHistory == None
      && r.(todos := s.todos, showHistory := s.showHistory) == s
  {
    if confirmed then
      Seqs.FilterContents(s.todos, IdIsNot(id));
      s.(todos := Seqs.Filter(s.todos, IdIsNot(id)), showHistory := None)
    else s
  }

  /** `toggleTodoStatus(id)`: on an unknown id nothing happens (not even the
      clearing of `editingId`); otherwise the found todo's status is flipped
      through `updateTodo`. The sound and animation have no effect on the state. */
  function ToggleTodoStatus(s: State, id: int, now: string): (r: State)
    ensures IndexOf(s.todos, id).None? ==> r == s
    ensures |r.todos| == |s.todos|
    ensures IndexOf(s.todos, id).Some? ==>
      var k := IndexOf(s.todos, id).value;
      var t, t' := s.todos[k], r.todos[k];
      && t'.status == Flip(t.status)
      && Visible(t') == Visible(t).(status := Flip(t.status))
      && t'.history == t.history + [HistoryEntry(now, Updated, Visible(t'))]
      && IndexOf(r.todos, id) == Some(k)
      && r.editingId == None
    ensures IndexOf(s.todos, id).Some? ==>
      var flipped := Flip(s.todos[IndexOf(s.todos, id).value].status);
      forall j :: 0 <= j < |s.todos| && s.todos[j].id == id ==>
        && r.todos[j].id == id
        && r.todos[j].createdAt == s.todos[j].createdAt
        && Visible(r.todos[j]) == Visible(s.todos[j]).(status := flipped)
        && r.todos[j].history == s.todos[j].history + [HistoryEntry(now, Updated, Visible(r.todos[j]))]
    ensures forall j :: 0 <= j < |s.todos| && s.todos[j].id != id ==> r.todos[j] == s.todos[j]
    ensures r.(todos := s.todos, editingId := s.editingId) == s
  {
    match Find(s.todos, id)
    case None => s
    case Some(t) =>
      var r := UpdateTodo(s, id, StatusOnly(Flip(t.status)), now);
      ToggleFacts(s, id, now, r);
      r
  }

  lemma ToggleFacts(s: State, id: int, now: string, r: State)
    requires IndexOf(s.todos, id).Some?
    requires r == UpdateTodo(s, id, StatusOnly(Flip(s.todos[IndexOf(s.todos, id).value].status)), now)
    ensures IndexOf(r.todos, id) == IndexOf(s.todos, id)
  {
    var k := IndexOf(s.todos, id).value;
    IndexOfSameIds(s.todos, r.todos, id);
  }

  /** Two lists whose ids agree position by position find an id at the same place. */
  lemma {:induction false} IndexOfSameIds(a: seq<Todo>, b: seq<Todo>, id: int)
    requires |a| == |b|
    requires forall k :: 0 <= k < |a| ==> a[k].id == b[k].id
    ensures IndexOf(a, id) == IndexOf(b, id)
  {
    if a != [] {
      IndexOfSameIds(a[1..], b[1..], id);
    }
  }

  /** Creating keeps the store invariant, and the new id is not one in use. */
  lemma AddPreservesValid(s: State, title: string, description: string, category: string,
                          dueDate: string, now: string)
    requires Valid(s)
    ensures Valid(AddTodo(s, title, description, category, dueDate, now))
    ensures !AllSpace(title) ==> !HasId(s.todos, s.nextId)
  {
    var r := AddTodo(s, title, description, category, dueDate, now);
    if !AllSpace(title) {
      assert forall k :: 0 <= k < |s.todos| ==> r.todos[k] == s.todos[k];
    }
  }

  /** Updating keeps the store invariant: the last log entry is the merged record. */
  lemma UpdatePreservesValid(s: State, id: int, u: Updates, now: string)
    requires Valid(s)
    ensures Valid(UpdateTodo(s, id, u, now))
  {
    var r := UpdateTodo(s, id, u, now);
    forall k | 0 <= k < |r.todos| ensures WellFormedHistory(r.todos[k]) {
      assert WellFormedHistory(s.todos[k]);
      if s.todos[k].id == id {
        assert r.todos[k].history[0] == s.todos[k].history[0];
      }
    }
  }

  /** Deleting keeps the store invariant. */
  lemma DeletePreservesValid(s: State, id: int, confirmed: bool)
    requires Valid(s)
    ensures Valid(DeleteTodo(s, id, confirmed))
  {
    if confirmed {
      FilterKeepsValid(s.todos, IdIsNot(id), s.nextId);
    }
  }

  lemma {:induction false} FilterKeepsValid(todos: seq<Todo>, p: Todo -> bool, next: int)
    requires UniqueIds(todos)
    requires forall k :: 0 <= k < |todos| ==> todos[k].id < next && WellFormedHistory(todos[k])
    ensures var f := Seqs.Filter(todos, p);
      && UniqueIds(f)
      && forall k :: 0 <= k < |f| ==> f[k].id < next && WellFormedHistory(f[k])
  {
    if todos != [] {
      var rest := todos[1..];
      FilterKeepsValid(rest, p, next);
      Seqs.FilterContents(rest, p);
      var f := Seqs.Filter(rest, p);
      if p(todos[0]) {
        forall k | 0 <= k < |f| ensures f[k].id != todos[0].id {
          assert f[k] in rest;
        }
      }
    }
  }

  /** Toggling keeps the store invariant. */
  lemma TogglePreservesValid(s: State, id: int, now: string)
    requires Valid(s)
    ensures Valid(ToggleTodoStatus(s, id, now))
  {
    match Find(s.todos, id)
    case None =>
    case Some(t) => UpdatePreservesValid(s, id, StatusOnly(Flip(t.status)), now);
  }

  /** With distinct ids, a confirmed delete of a present id removes exactly that
      one todo and keeps all others in their order. */
  lemma DeleteRemovesExactlyOne(s: State, id: int, k: int)
    requires UniqueIds(s.todos)
    requires 0 <= k < |s.todos| && s.todos[k].id == id
    ensures DeleteTodo(s, id, true).todos == s.todos[..k] + s.todos[k + 1..]
  {
    Seqs.FilterDropsOne(s.todos, k, IdIsNot(id));
  }

  /** Deleting an id that is not present leaves the list as it was. */
  lemma DeleteAbsentKeepsTodos(s: State, id: int)
    requires !HasId(s.todos, id)
    ensures DeleteTodo(s, id, true).todos == s.todos
  {
    Seqs.FilterAll(s.todos, IdIsNot(id));
  }

  /** Toggling twice gives the found todo back its status and all its visible
      fields, with exactly two more log entries. */
  lemma ToggleTwice(s: State, id: int, now1: string, now2: string)
    requires IndexOf(s.todos, id).Some?
    ensures var k := IndexOf(s.todos, id).value;
      var r := ToggleTodoStatus(ToggleTodoStatus(s, id, now1), id, now2);
      var t, t' := s.todos[k], r.todos[k];
      && |r.todos| == |s.todos|
      && t'.status == t.status
      && Visible(t') == Visible(t)
      && |t'.history| == |t.history| + 2
      && t'.history[..|t.history|] == t.history
      && t'.history[|t.history|].data.status == Flip(t.status)
  {
    var k := IndexOf(s.todos, id).value;
    var s1 := ToggleTodoStatus(s, id, now1);
    var r := ToggleTodoStatus(s1, id, now2);
    assert s1.todos[k].history == s.todos[k].history + [s1.todos[k].history[|s.todos[k].history|]];
    assert r.todos[k].history[..|s.todos[k].history|] == s.todos[k].history;
  }
}
