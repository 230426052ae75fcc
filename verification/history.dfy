/**
 The history cursor (app.js lines 147-173): one index per todo id into that
 todo's revision log, moved by a step and clamped at both ends.
 */
module HistoryCursor {
  import opened Model
  import Store

  /** `state.currentHistoryIndex[id] || 0`. */
  function StoredIndex(m: map<int, int>, id: int): int {
    if id in m then m[id] else 0
  }

  /** Only the entry for `id` may differ between the two cursor maps. */
  predicate OthersUnchanged(m: map<int, int>, m': map<int, int>, id: int) {
    m' - {id} == m - {id}
  }

  /** `showHistory(id)`: opens the panel for `id` and, when the todo exists,
      points its cursor at the most recent log entry. */
  function ShowHistory(s: State, id: int): (r: State)
    ensures r.showHistory == Some(id)
    ensures Find(s.todos, id).None? ==> r.currentHistoryIndex == s.currentHistoryIndex
    ensures Find(s.todos, id).Some? ==>
      && id in r.currentHistoryIndex
      && r.currentHistoryIndex[id] == |Find(s.todos, id).value.history| - 1
    ensures OthersUnchanged(s.currentHistoryIndex, r.currentHistoryIndex, id)
    ensures r.(showHistory := s.showHistory, currentHistoryIndex := s.currentHistoryIndex) == s
  {
    match Find(s.todos, id)
    case None => s.(showHistory := Some(id))
    case Some(t) =>
      s.(showHistory := Some(id),
         currentHistoryIndex := s.currentHistoryIndex[id := |t.history| - 1])
  }

  /** The source's two guards in order: below zero becomes zero, then at or
      past the end becomes the last index (-1 for an empty log). */
  function Clamp(i: int, len: int): (c: int)
    ensures len > 0 ==> 0 <= c < len
    ensures 0 <= i < len ==> c == i
    ensures i < 0 && len > 0 ==> c == 0
    ensures i >= len ==> c == len - 1
    ensures len == 0 ==> c == -1
  {
    var raised := if i < 0 then 0 else i;
    if raised >= len then len - 1 else raised
  }

  /** `navigateHistory(id, direction)`: on an unknown id nothing changes;
      otherwise the stored index (0 when unset) moves by `delta` and is clamped
      into the log, never wrapped. Other todos' cursors stay as they were. */
  function NavigateHistory(s: State, id: int, delta: int): (r: State)
    ensures Find(s.todos, id).None? ==> r == s
    ensures Find(s.todos, id).Some? ==>
      var len := |Find(s.todos, id).value.history|;
      var target := StoredIndex(s.currentHistoryIndex, id) + delta;
      && id in r.currentHistoryIndex
      && (len > 0 ==> 0 <= r.currentHistoryIndex[id] < len)
      && (0 <= target < len ==> r.currentHistoryIndex[id] == target)
      && (len > 0 && target <= 0 ==> r.currentHistoryIndex[id] == 0)
      && (target >= len - 1 ==> r.currentHistoryIndex[id] == len - 1)
      && (len == 0 ==> r.currentHistoryIndex[id] == -1)
    ensures OthersUnchanged(s.currentHistoryIndex, r.currentHistoryIndex, id)
    ensures r.(currentHistoryIndex := s.currentHistoryIndex) == s
  {
    match Find(s.todos, id)
    case None => s
    case Some(t) =>
      var target := StoredIndex(s.currentHistoryIndex, id) + delta;
      s.(currentHistoryIndex := s.currentHistoryIndex[id := Clamp(target, |t.history|)])
  }

  /** `closeHistory()`: closes the panel; the cursors are kept for reopening. */
  function CloseHistory(s: State): (r: State)
    ensures r.showHistory == None
    ensures r.currentHistoryIndex == s.currentHistoryIndex
    ensures r.(showHistory := s.showHistory) == s
  {
    s.(showHistory := None)
  }

  /** Opening the panel and stepping forward stays on the newest entry;
      stepping back moves to the one before it. */
  lemma NavigateAfterShow(s: State, id: int)
    requires Find(s.todos, id).Some? && |Find(s.todos, id).value.history| >= 2
    ensures var n := |Find(s.todos, id).value.history|;
      && NavigateHistory(ShowHistory(s, id), id, 1).currentHistoryIndex[id] == n - 1
      && NavigateHistory(ShowHistory(s, id), id, -1).currentHistoryIndex[id] == n - 2
  {
  }

  /** An update appends to a log but does not move its cursor: a cursor that
      pointed at an entry still points at the same entry afterwards. */
  lemma CursorSurvivesUpdate(s: State, id: int, u: Store.Updates, now: string, k: int)
    requires 0 <= k < |s.todos| && s.todos[k].id == id
    requires id in s.currentHistoryIndex
    requires 0 <= s.currentHistoryIndex[id] < |s.todos[k].history|
    ensures var r := Store.UpdateTodo(s, id, u, now);
      var i := s.currentHistoryIndex[id];
      && r.currentHistoryIndex == s.currentHistoryIndex
      && i < |r.todos[k].history| - 1
      && r.todos[k].history[i] == s.todos[k].history[i]
  {
  }
}
