/**
 Worked examples of the model on concrete inputs, proved as lemmas.
 */
module Scenarios {
  import opened Model
  import opened Text
  import Query
  import Store
  import HistoryCursor

  /** A todo that has only been created. */
  function Fresh(id: int, title: string): Todo {
    var f := Fields(title, "", "other", "", Incomplete);
    Todo(id, title, "", "other", "", Incomplete, "t0", [HistoryEntry("t0", Created, f)])
  }

  /** Titles "banana", "Apple", "cherry" sorted by title, descending, give
      cherry, banana, Apple: the comparison ignores case. */
  lemma TitleDescendingExample()
    ensures var banana, apple, cherry := Fresh(1, "banana"), Fresh(2, "Apple"), Fresh(3, "cherry");
      Query.View([banana, apple, cherry], Filters("", All, All), SortSpec(ByTitle, Desc))
        == [cherry, banana, apple]
  {
    var banana, apple, cherry := Fresh(1, "banana"), Fresh(2, "Apple"), Fresh(3, "cherry");
    var input := [banana, apple, cherry];
    assert Query.FilterPasses(input, Filters("", All, All)) == input;
    SortsByTitleDescending(banana, apple, cherry);
  }

  lemma SortsByTitleDescending(banana: Todo, apple: Todo, cherry: Todo)
    requires banana == Fresh(1, "banana") && apple == Fresh(2, "Apple") && cherry == Fresh(3, "cherry")
    ensures Query.Sort([banana, apple, cherry], SortSpec(ByTitle, Desc)) == [cherry, banana, apple]
  {
    var sort := SortSpec(ByTitle, Desc);
    var input := [banana, apple, cherry];
    TitleComparisons(banana, apple, cherry);
    assert input[..2] == [banana, apple];
    SortsFirstTwo(banana, apple);
    assert Query.Insert(cherry, [banana, apple], sort) == [cherry, banana, apple];
  }

  lemma SortsFirstTwo(banana: Todo, apple: Todo)
    requires Query.Compare(banana, apple, SortSpec(ByTitle, Desc)) < 0
    ensures Query.Sort([banana, apple], SortSpec(ByTitle, Desc)) == [banana, apple]
  {
    var sort := SortSpec(ByTitle, Desc);
    assert [banana, apple][..1] == [banana];
    assert Query.Sort([banana], sort) == [banana];
    assert Query.Insert(apple, [banana], sort) == [banana, apple];
  }

  lemma TitleComparisons(banana: Todo, apple: Todo, cherry: Todo)
    requires banana == Fresh(1, "banana") && apple == Fresh(2, "Apple") && cherry == Fresh(3, "cherry")
    ensures Query.Compare(banana, apple, SortSpec(ByTitle, Desc)) < 0
    ensures Query.Compare(banana, cherry, SortSpec(ByTitle, Desc)) > 0
  {
    assert Lower("Apple") == "apple" by {
      assert LowerChar('A') == 'a';
    }
    assert Lower("banana")[0] == 'b';
    assert Lower("cherry")[0] == 'c';
  }

  /** Create "Buy milk" (shopping, no due date) and toggle it: it is complete,
      has two log entries, and the completed count is one. */
  lemma BuyMilkScenario(now1: string, now2: string)
    ensures var s1 := Store.AddTodo(Initial, "Buy milk", "", "shopping", "", now1);
      var s2 := Store.ToggleTodoStatus(s1, 1, now2);
      && |s2.todos| == 1
      && s2.todos[0].title == "Buy milk"
      && s2.todos[0].status == Complete
      && |s2.todos[0].history| == 2
      && CompletedCount(s2.todos) == 1
  {
    assert "Buy milk"[0] == 'B' && !IsSpace('B');
    assert !AllSpace("Buy milk");
    assert Trim("Buy milk") == "Buy milk" by {
      TrimOfTrimmed("Buy milk");
    }
    var s1 := Store.AddTodo(Initial, "Buy milk", "", "shopping", "", now1);
    assert IndexOf(s1.todos, 1) == Some(0);
    var s2 := Store.ToggleTodoStatus(s1, 1, now2);
    assert s2.todos[1..] == [];
  }

  /** Stepping by -100 or +100 through a three-entry log lands on the first
      or the last entry. */
  lemma ClampExample(s: State)
    requires s.todos == [Fresh(7, "a").(history := Fresh(7, "a").history + Fresh(7, "a").history + Fresh(7, "a").history)]
    requires 7 in s.currentHistoryIndex ==> 0 <= s.currentHistoryIndex[7] < 3
    ensures HistoryCursor.NavigateHistory(s, 7, -100).currentHistoryIndex[7] == 0
    ensures HistoryCursor.NavigateHistory(s, 7, 100).currentHistoryIndex[7] == 2
  {
    assert IndexOf(s.todos, 7) == Some(0);
    assert |s.todos[0].history| == 3;
  }

  /** Filtering by status "complete" and category "work" keeps only todos
      that satisfy both at once. */
  lemma StatusAndCategoryFilterIsConjunctive(todos: seq<Todo>, sort: SortSpec)
    ensures forall t :: t in Query.View(todos, Filters("", "complete", "work"), sort) <==>
      t in todos && t.status == Complete && t.category == "work"
  {
  }
}
