/**
 The query engine `getFilteredTodos` (app.js lines 214-252): three filters
 joined by AND, then a stable sort by due date or by title.
 */
module Query {
  import opened Model
  import opened Text
  import Seqs

  // ---------------------------------------------------------------- filtering

  /** The search condition; an empty search text matches everything. */
  predicate TextMatches(t: Todo, text: string) {
    || text == []
    || Includes(Lower(t.title), Lower(text))
    || Includes(Lower(t.description), Lower(text))
  }

  predicate StatusMatches(t: Todo, status: string) {
    status == All || StatusName(t.status) == status
  }

  predicate CategoryMatches(t: Todo, category: string) {
    category == All || t.category == category
  }

  /** A todo is shown when it passes all three conditions. */
  predicate Matches(t: Todo, f: Filters) {
    TextMatches(t, f.text) && StatusMatches(t, f.status) && CategoryMatches(t, f.category)
  }

  function TextP(text: string): Todo -> bool {
    (t: Todo) => TextMatches(t, text)
  }

  function StatusP(status: string): Todo -> bool {
    (t: Todo) => StatusMatches(t, status)
  }

  function CategoryP(category: string): Todo -> bool {
    (t: Todo) => CategoryMatches(t, category)
  }

  function MatchesP(f: Filters): Todo -> bool {
    (t: Todo) => Matches(t, f)
  }

  /** The three filter passes in the order the source runs them, each skipped
      when its setting is empty or "all". */
  function FilterPasses(todos: seq<Todo>, f: Filters): seq<Todo> {
    var a := if f.text != [] then Seqs.Filter(todos, TextP(f.text)) else todos;
    var b := if f.status != All then Seqs.Filter(a, StatusP(f.status)) else a;
    if f.category != All then Seqs.Filter(b, CategoryP(f.category)) else b
  }

  /** The three passes keep exactly the todos that satisfy the conjunction, in input order. */
  lemma FilterPassesIsConjunction(todos: seq<Todo>, f: Filters)
    ensures FilterPasses(todos, f) == Seqs.Filter(todos, MatchesP(f))
  {
    var tp, sp, cp := TextP(f.text), StatusP(f.status), CategoryP(f.category);
    var a := if f.text != [] then Seqs.Filter(todos, tp) else todos;
    if f.text == [] {
      Seqs.FilterAll(todos, tp);
    }
    assert a == Seqs.Filter(todos, tp);
    var b := if f.status != All then Seqs.Filter(a, sp) else a;
    if f.status == All {
      Seqs.FilterAll(a, sp);
    }
    assert b == Seqs.Filter(a, sp);
    var ts := (t: Todo) => TextMatches(t, f.text) && StatusMatches(t, f.status);
    Seqs.FilterTwice(todos, tp, sp, ts);
    var c := if f.category != All then Seqs.Filter(b, cp) else b;
    if f.category == All {
      Seqs.FilterAll(b, cp);
    }
    assert c == Seqs.Filter(b, cp);
    Seqs.FilterTwice(todos, ts, cp, MatchesP(f));
  }

  // ------------------------------------------------------------------ sorting

  /** The order on due dates: a missing date (the empty string, which the
      source turns into an invalid `Date`) comes after every present date, and
      present dates compare as strings, which for ISO `YYYY-MM-DD` dates is
      calendar order (see `Dates.IsoOrderIsCalendarOrder`). This is a modelling
      choice. The source's comparator ties a missing date with every date, so
      it is inconsistent only on lists that also hold two distinct present
      dates; on other lists its stable sort leaves undated todos where they
      were, while this order still moves them last (ascending) or first
      (descending). */
  predicate DueLe(a: string, b: string) {
    if b == [] then true
    else if a == [] then false
    else StrLe(a, b)
  }

  /** `DueLe` is a total preorder with missing dates last. */
  lemma DueOrderIsTotalPreorder(a: string, b: string, c: string)
    ensures DueLe(a, b) || DueLe(b, a)
    ensures DueLe(a, b) && DueLe(b, c) ==> DueLe(a, c)
    ensures a != [] ==> DueLe(a, "") && !DueLe("", a)
  {
    if a != [] && b != [] {
      StrLeTotal(a, b);
    }
    if a != [] && b != [] && c != [] && StrLe(a, b) && StrLe(b, c) {
      StrLeTransitive(a, b, c);
    }
  }

  /** `aVal <= bVal` for the chosen key: due dates, or titles folded to lower case. */
  predicate KeyLe(a: Todo, b: Todo, key: SortKey) {
    match key
    case ByDueDate => DueLe(a.dueDate, b.dueDate)
    case ByTitle => StrLe(Lower(a.title), Lower(b.title))
  }

  /** `aVal < bVal`. */
  predicate KeyLess(a: Todo, b: Todo, key: SortKey) {
    !KeyLe(b, a, key)
  }

  predicate SameKey(a: Todo, b: Todo, key: SortKey) {
    KeyLe(a, b, key) && KeyLe(b, a, key)
  }

  lemma KeyLeTotal(a: Todo, b: Todo, key: SortKey)
    ensures KeyLe(a, b, key) || KeyLe(b, a, key)
  {
    match key
    case ByDueDate => DueOrderIsTotalPreorder(a.dueDate, b.dueDate, b.dueDate);
    case ByTitle => StrLeTotal(Lower(a.title), Lower(b.title));
  }

  lemma KeyLeTransitive(a: Todo, b: Todo, c: Todo, key: SortKey)
    requires KeyLe(a, b, key) && KeyLe(b, c, key)
    ensures KeyLe(a, c, key)
  {
    match key
    case ByDueDate => DueOrderIsTotalPreorder(a.dueDate, b.dueDate, c.dueDate);
    case ByTitle => StrLeTransitive(Lower(a.title), Lower(b.title), Lower(c.title));
  }

  /** The comparator handed to `filtered.sort`: -1, 0 or 1; zero exactly on
      tied keys, negative exactly when `b` may not precede `a`. */
  function Compare(a: Todo, b: Todo, sort: SortSpec): (c: int)
    ensures c == -1 || c == 0 || c == 1
    ensures c == 0 <==> SameKey(a, b, sort.key)
    ensures c < 0 <==> !InOrder(b, a, sort)
  {
    KeyLeTotal(a, b, sort.key);
    if KeyLess(a, b, sort.key) then (if sort.direction == Asc then -1 else 1)
    else if KeyLess(b, a, sort.key) then (if sort.direction == Asc then 1 else -1)
    else 0
  }

  /** `a` may come before `b` in the output: ascending or descending by the key. */
  predicate InOrder(a: Todo, b: Todo, sort: SortSpec) {
    if sort.direction == Asc then KeyLe(a, b, sort.key) else KeyLe(b, a, sort.key)
  }

  /** What the comparator's sign means: non-positive exactly when `a` may
      precede `b`, zero exactly on equal keys, antisymmetric, and `desc` is
      `asc` with the sign reversed. */
  lemma CompareMeaning(a: Todo, b: Todo, sort: SortSpec)
    ensures Compare(a, b, sort) <= 0 <==> InOrder(a, b, sort)
    ensures Compare(a, b, sort) == 0 <==> SameKey(a, b, sort.key)
    ensures Compare(a, b, sort) == -Compare(b, a, sort)
    ensures Compare(a, b, SortSpec(sort.key, Desc)) == -Compare(a, b, SortSpec(sort.key, Asc))
  {
    KeyLeTotal(a, b, sort.key);
  }

  lemma InOrderTotal(a: Todo, b: Todo, sort: SortSpec)
    ensures InOrder(a, b, sort) || InOrder(b, a, sort)
  {
    KeyLeTotal(a, b, sort.key);
  }

  lemma InOrderTransitive(a: Todo, b: Todo, c: Todo, sort: SortSpec)
    requires InOrder(a, b, sort) && InOrder(b, c, sort)
    ensures InOrder(a, c, sort)
  {
    if sort.direction == Asc {
      KeyLeTransitive(a, b, c, sort.key);
    } else {
      KeyLeTransitive(c, b, a, sort.key);
    }
  }

  ghost predicate Sorted(s: seq<Todo>, sort: SortSpec) {
    forall i, j :: 0 <= i < j < |s| ==> InOrder(s[i], s[j], sort)
  }

  /** Places `x` into sorted `r` after every element the comparator does not
      put after `x`, which is what keeps equal keys in arrival order. */
  function Insert(x: Todo, r: seq<Todo>, sort: SortSpec): (res: seq<Todo>)
    ensures multiset(res) == multiset(r) + multiset{x}
    ensures Sorted(r, sort) ==> Sorted(res, sort)
  {
    if r == [] then [x]
    else if Compare(r[0], x, sort) > 0 then
      InsertFrontSorted(x, r, sort);
      [x] + r
    else
      var rest := Insert(x, r[1..], sort);
      assert r == [r[0]] + r[1..];
      InsertConsSorted(x, r, rest, sort);
      [r[0]] + rest
  }

  lemma InsertFrontSorted(x: Todo, r: seq<Todo>, sort: SortSpec)
    requires r != [] && Compare(r[0], x, sort) > 0
    ensures Sorted(r, sort) ==> Sorted([x] + r, sort)
  {
    if Sorted(r, sort) {
      CompareMeaning(r[0], x, sort);
      InOrderTotal(r[0], x, sort);
      forall j | 0 < j < |[x] + r| ensures InOrder(x, ([x] + r)[j], sort) {
        if j > 1 {
          InOrderTransitive(x, r[0], r[j - 1], sort);
        }
      }
    }
  }

  lemma InsertConsSorted(x: Todo, r: seq<Todo>, rest: seq<Todo>, sort: SortSpec)
    requires r != [] && Compare(r[0], x, sort) <= 0
    requires multiset(rest) == multiset(r[1..]) + multiset{x}
    requires Sorted(r[1..], sort) ==> Sorted(rest, sort)
    ensures Sorted(r, sort) ==> Sorted([r[0]] + rest, sort)
  {
    if Sorted(r, sort) {
      assert Sorted(r[1..], sort);
      CompareMeaning(r[0], x, sort);
      var s := [r[0]] + rest;
      forall j | 0 < j < |s| ensures InOrder(r[0], s[j], sort) {
        assert s[j] in multiset(rest);
        if s[j] != x {
          assert s[j] in multiset(r[1..]);
          var m :| 0 <= m < |r[1..]| && r[1..][m] == s[j];
          assert r[m + 1] == s[j];
        }
      }
    }
  }

  /** Stable insertion sort; ECMAScript 2019 and later require `Array.prototype.sort` to be stable. */
  function Sort(s: seq<Todo>, sort: SortSpec): (r: seq<Todo>)
    ensures Sorted(r, sort)
    ensures multiset(r) == multiset(s)
  {
    if s == [] then []
    else
      assert s == s[..|s| - 1] + [s[|s| - 1]];
      Insert(s[|s| - 1], Sort(s[..|s| - 1], sort), sort)
  }

  // ---------------------------------------------------------------- stability

  function SameKeyAs(y: Todo, key: SortKey): Todo -> bool {
    (t: Todo) => SameKey(t, y, key)
  }

  /** Inserting `x` adds it at the end of its key class and leaves every class's order alone. */
  lemma {:induction false} InsertKeepsClassOrder(x: Todo, r: seq<Todo>, sort: SortSpec, y: Todo)
    requires Sorted(r, sort)
    ensures var p := SameKeyAs(y, sort.key);
      Seqs.Filter(Insert(x, r, sort), p) == Seqs.Filter(r, p) + (if p(x) then [x] else [])
  {
    if r == [] {
    } else if Compare(r[0], x, sort) > 0 {
      assert Insert(x, r, sort) == [x] + r;
      ClassOrderFront(x, r, sort, y);
    } else {
      var rest := Insert(x, r[1..], sort);
      assert Insert(x, r, sort) == [r[0]] + rest;
      InsertKeepsClassOrder(x, r[1..], sort, y);
      ClassOrderCons(r[0], rest, r[1..], x, SameKeyAs(y, sort.key));
      assert [r[0]] + r[1..] == r;
    }
  }

  /** The case where `x` goes in front: no element of `r` shares its class. */
  lemma ClassOrderFront(x: Todo, r: seq<Todo>, sort: SortSpec, y: Todo)
    requires Sorted(r, sort) && r != [] && Compare(r[0], x, sort) > 0
    ensures var p := SameKeyAs(y, sort.key);
      Seqs.Filter([x] + r, p) == Seqs.Filter(r, p) + (if p(x) then [x] else [])
  {
    var p := SameKeyAs(y, sort.key);
    Seqs.FilterConcat([x], r, p);
    assert Seqs.Filter([x], p) == (if p(x) then [x] else []);
    if p(x) {
      NoneOfClassAfter(x, r, sort, y);
    }
  }

  /** The case where `x` goes after the head `h`: the head contributes the same on both sides. */
  lemma ClassOrderCons(h: Todo, rest: seq<Todo>, tail: seq<Todo>, x: Todo, p: Todo -> bool)
    requires Seqs.Filter(rest, p) == Seqs.Filter(tail, p) + (if p(x) then [x] else [])
    ensures Seqs.Filter([h] + rest, p) == Seqs.Filter([h] + tail, p) + (if p(x) then [x] else [])
  {
    Seqs.FilterConcat([h], rest, p);
    Seqs.FilterConcat([h], tail, p);
  }

  /** When `x` sorts strictly before the head of sorted `r`, nothing in `r` shares `x`'s key. */
  lemma NoneOfClassAfter(x: Todo, r: seq<Todo>, sort: SortSpec, y: Todo)
    requires Sorted(r, sort) && r != [] && Compare(r[0], x, sort) > 0
    requires SameKey(x, y, sort.key)
    ensures Seqs.Filter(r, SameKeyAs(y, sort.key)) == []
  {
    var p := SameKeyAs(y, sort.key);
    CompareMeaning(r[0], x, sort);
    InOrderTotal(r[0], r[0], sort);
    forall k | 0 <= k < |r| ensures !p(r[k]) {
      NotSameKeyAsLater(x, r[k], r[0], y, sort);
    }
    Seqs.FilterNone(r, p);
  }

  /** If `r0` comes strictly after `x` and `z` no earlier than `r0`, then `z`
      cannot share the key of `x`. */
  lemma NotSameKeyAsLater(x: Todo, z: Todo, r0: Todo, y: Todo, sort: SortSpec)
    requires InOrder(r0, z, sort) && !InOrder(r0, x, sort) && SameKey(x, y, sort.key)
    ensures !SameKey(z, y, sort.key)
  {
    if sort.direction == Asc {
      if KeyLe(z, y, sort.key) {
        KeyLeTransitive(z, y, x, sort.key);
        KeyLeTransitive(r0, z, x, sort.key);
      }
    } else {
      if KeyLe(y, z, sort.key) {
        KeyLeTransitive(x, y, z, sort.key);
        KeyLeTransitive(x, z, r0, sort.key);
      }
    }
  }

  /** Stability: within each key class the output keeps the input order. */
  lemma {:induction false} SortIsStable(s: seq<Todo>, sort: SortSpec, y: Todo)
    ensures var p := SameKeyAs(y, sort.key);
      Seqs.Filter(Sort(s, sort), p) == Seqs.Filter(s, p)
  {
    var p := SameKeyAs(y, sort.key);
    if s != [] {
      var init, last := s[..|s| - 1], s[|s| - 1];
      Seqs.SplitLast(s);
      var sortedInit := Sort(init, sort);
      assert Sort(s, sort) == Insert(last, sortedInit, sort);
      SortIsStable(init, sort, y);
      InsertKeepsClassOrder(last, sortedInit, sort, y);
      StableStep(init, last, sortedInit, Sort(s, sort), p);
    }
  }

  lemma StableStep(init: seq<Todo>, last: Todo, sortedInit: seq<Todo>, sorted: seq<Todo>, p: Todo -> bool)
    requires Seqs.Filter(sortedInit, p) == Seqs.Filter(init, p)
    requires Seqs.Filter(sorted, p) == Seqs.Filter(sortedInit, p) + (if p(last) then [last] else [])
    ensures Seqs.Filter(sorted, p) == Seqs.Filter(init + [last], p)
  {
    Seqs.FilterSnoc(init, last, p);
  }

  // --------------------------------------------------------------- the query

  /** `getFilteredTodos()`: the matching todos, sorted by the chosen key and direction. */
  function View(todos: seq<Todo>, f: Filters, sort: SortSpec): (r: seq<Todo>)
    ensures forall t :: t in r <==> t in todos && Matches(t, f)
    ensures multiset(r) == multiset(Seqs.Filter(todos, MatchesP(f)))
    ensures Sorted(r, sort)
  {
    ViewContents(todos, f, sort);
    Sort(FilterPasses(todos, f), sort)
  }

  lemma ViewContents(todos: seq<Todo>, f: Filters, sort: SortSpec)
    ensures var r := Sort(FilterPasses(todos, f), sort);
      && multiset(r) == multiset(Seqs.Filter(todos, MatchesP(f)))
      && forall t :: t in r <==> t in todos && Matches(t, f)
  {
    var kept := Seqs.Filter(todos, MatchesP(f));
    FilterPassesIsConjunction(todos, f);
    var r := Sort(kept, sort);
    assert multiset(r) == multiset(kept);
    Seqs.FilterContents(todos, MatchesP(f));
    forall t ensures t in r <==> t in todos && Matches(t, f) {
      assert t in r <==> t in multiset(r);
      assert t in kept <==> t in multiset(kept);
      assert MatchesP(f)(t) == Matches(t, f);
    }
  }

  /** Todos with equal keys appear in the view in the order they have in the store. */
  lemma ViewKeepsTiesInStoreOrder(todos: seq<Todo>, f: Filters, sort: SortSpec, y: Todo)
    ensures var p := SameKeyAs(y, sort.key);
      Seqs.Filter(View(todos, f, sort), p) == Seqs.Filter(Seqs.Filter(todos, MatchesP(f)), p)
  {
    FilterPassesIsConjunction(todos, f);
    SortIsStable(FilterPasses(todos, f), sort, y);
  }

  /** `completedCount` equals the length of the view that shows only complete todos. */
  lemma CompletedCountIsCompleteView(todos: seq<Todo>, sort: SortSpec)
    ensures CompletedCount(todos) == |View(todos, Filters("", "complete", All), sort)|
  {
    var f := Filters("", "complete", All);
    var v := View(todos, f, sort);
    assert |v| == |multiset(v)|;
    CountIsFilterLength(todos, f);
  }

  lemma {:induction false} CountIsFilterLength(todos: seq<Todo>, f: Filters)
    requires f == Filters("", "complete", All)
    ensures CompletedCount(todos) == |Seqs.Filter(todos, MatchesP(f))|
  {
    if todos != [] {
      CountIsFilterLength(todos[1..], f);
      assert Matches(todos[0], f) <==> todos[0].status == Complete;
    }
  }

  // ---------------------------------------------------- the source's comparator

  /** The due-date comparison as the source performs it: the empty string gives
      an invalid `Date`, with which both `<` and `>` are false, so the
      comparator answers 0; present dates compare in calendar order. */
  function SourceDueCompare(a: string, b: string, dir: Direction): int {
    if a == [] || b == [] then 0
    else if StrLt(a, b) then (if dir == Asc then -1 else 1)
    else if StrLt(b, a) then (if dir == Asc then 1 else -1)
    else 0
  }

  /** The source's comparator is not consistent: a todo without a date ties
      with every dated todo, while two different dates do not tie, so "equal"
      is not transitive and the resulting order is implementation-defined. */
  lemma SourceDueCompareIsInconsistent(a: string, c: string, dir: Direction)
    requires a != [] && c != [] && a != c
    ensures SourceDueCompare(a, "", dir) == 0 && SourceDueCompare("", c, dir) == 0
    ensures SourceDueCompare(a, c, dir) != 0
  {
    StrLeTotal(a, c);
    if StrLe(a, c) && StrLe(c, a) {
      StrLeAntisymmetric(a, c);
    }
  }
}
