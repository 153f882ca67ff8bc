/** The page's state: the category registry, the ledger and the id of the
    record being edited, with one method per event handler. */
module Tracker {
  import opened Base
  import opened Calendar
  import opened Sanitize
  import opened Categories
  import opened Ledger
  import opened Summary

  class Tracker {
    var categories: seq<string>
    var expenses: seq<Expense>
    var editingExpenseId: Option<int>

    /** The registry holds distinct sanitised names. This is an invariant of
        the page rather than a precondition: `Load` establishes it and every
        method keeps it, but no handler needs it in order to run. */
    ghost predicate Valid()
      reads this
    {
      IsRegistry(categories)
    }

    /** Page start: the stored registry is sanitised and its duplicates and
        blanks dropped; the stored ledger (`None` when absent) is taken as is;
        no record is being edited. */
    constructor Load(storedCategories: Option<seq<JsValue>>, storedExpenses: Option<seq<Expense>>)
      ensures categories == LoadCategories(storedCategories)
      ensures expenses == (if storedExpenses.None? then [] else storedExpenses.value)
      ensures editingExpenseId == None
      ensures Valid()
    {
      categories := LoadCategories(storedCategories);
      expenses := if storedExpenses.None? then [] else storedExpenses.value;
      editingExpenseId := None;
    }

    /** `addCategory`, given the prompt's answer. */
    method AddCategory(response: Option<string>) returns (outcome: Outcome)
      modifies this
      ensures Add(old(categories), response) == Change(outcome, categories)
      ensures expenses == old(expenses) && editingExpenseId == old(editingExpenseId)
      ensures old(Valid()) ==> Valid()
    {
      var change := Add(categories, response);
      outcome := change.outcome;
      categories := change.categories;
    }

    /** `editCategory(index)`, given the prompt's answer. */
    method EditCategory(index: nat, response: Option<string>) returns (outcome: Outcome)
      requires index < |categories|
      modifies this
      ensures Edit(old(categories), index, response) == Change(outcome, categories)
      ensures expenses == old(expenses) && editingExpenseId == old(editingExpenseId)
      ensures old(Valid()) ==> Valid()
    {
      var change := Edit(categories, index, response);
      outcome := change.outcome;
      categories := change.categories;
    }

    /** `deleteCategory(index)`, given the confirmation. Records filed under the
        removed name keep it. */
    method DeleteCategory(index: nat, confirmed: bool)
      modifies this
      ensures categories == Delete(old(categories), index, confirmed)
      ensures expenses == old(expenses) && editingExpenseId == old(editingExpenseId)
      ensures old(Valid()) ==> Valid()
    {
      if confirmed && index < |categories| {
        categories := categories[..index] + categories[index + 1..];
      }
    }

    /** `editExpense(id)`. */
    method EditExpense(id: int)
      modifies this
      ensures editingExpenseId == StartEdit(old(expenses), old(editingExpenseId), id)
      ensures categories == old(categories) && expenses == old(expenses)
    {
      var index := IndexOfId(expenses, id);
      if index >= 0 {
        editingExpenseId := Some(id);
      }
    }

    /** `deleteExpense(id)`, given the confirmation: every record with the id goes. */
    method DeleteExpense(id: int, confirmed: bool)
      modifies this
      ensures expenses == if confirmed then Remove(old(expenses), id) else old(expenses)
      ensures categories == old(categories) && editingExpenseId == old(editingExpenseId)
    {
      if confirmed {
        expenses := Remove(expenses, id);
      }
    }

    /** `saveExpense`, given the form, the clock and `Date.now()`. */
    method SaveExpense(form: ExpenseForm, now: Clock, freshId: int) returns (outcome: SaveOutcome)
      requires IsClock(now)
      modifies this
      ensures Save(old(expenses), old(editingExpenseId), categories, form, now, freshId)
        == Saved(outcome, expenses, editingExpenseId)
      ensures categories == old(categories)
      ensures old(UniqueIds(expenses)) && (forall i :: 0 <= i < |old(expenses)| ==> old(expenses)[i].id != freshId)
        ==> UniqueIds(expenses)
    {
      SaveUnique(expenses, editingExpenseId, categories, form, now, freshId);
      var checked := Validate(categories, form, now);
      if checked.Rejected? {
        return Refused(checked.reason);
      }
      var f := checked.fields;
      if IsEditing(editingExpenseId) {
        var index := IndexOfId(expenses, editingExpenseId.value);
        if index != -1 {
          expenses := expenses[index := Record(expenses[index].id, f)];
          outcome := Updated;
        } else {
          outcome := EditTargetMissing;
        }
        editingExpenseId := None;
      } else {
        expenses := expenses + [Record(freshId, f)];
        outcome := Appended;
      }
    }

    /** `updateSummary`: the loop over the ledger that adds up the amounts the
        period selects, against the date picker's value or today. */
    method UpdateSummary(period: Period, picked: string, today: Date) returns (total: int)
      requires IsCalendarDate(today)
      ensures total == PeriodTotal(expenses, period, ResolveTarget(picked, today))
    {
      var target := ResolveTarget(picked, today);
      total := 0;
      var i := 0;
      while i < |expenses|
        invariant 0 <= i <= |expenses|
        invariant total == PeriodTotal(expenses[..i], period, target)
      {
        var expense := expenses[i];
        var expenseDate := ParseDate(expense.date);
        var selected := false;
        if period == Daily {
          selected := target.Some? && expenseDate.Some? && DayNumber(expenseDate.value) == DayNumber(target.value);
        } else if period == Weekly {
          if target.Some? && expenseDate.Some? {
            var startOfWeek := DayNumber(target.value) - Weekday(target.value);
            var endOfWeek := startOfWeek + 6;
            selected := startOfWeek <= DayNumber(expenseDate.value) <= endOfWeek;
          }
        } else if period == Monthly {
          selected := target.Some? && expenseDate.Some?
            && expenseDate.value.month == target.value.month && expenseDate.value.year == target.value.year;
        } else if period == Total {
          selected := true;
        }
        assert selected == Includes(period, target, expense);
        if selected {
          total := total + expense.amount;
        }
        PeriodTotalStep(expenses, i, period, target);
        i := i + 1;
      }
      assert expenses[..i] == expenses;
    }
  }

  /** `addCategory` can register a name with a leading space: `"< a"` is
      stored as `" a"`. The category select then offers `" a"`, which
      `saveExpense` sanitises to `"a"`, an unregistered name, so the new
      category cannot be used until a reload renames it to `"a"`. */
  lemma SpacedNameUnusableUntilReload(form: ExpenseForm, now: Clock)
    requires IsClock(now) && form.category == " a"
    ensures Add([], Some("< a")) == Change(Done, [" a"])
    ensures Validate([" a"], form, now) == Rejected(BadCategory)
    ensures LoadCategories(Some(Stored([" a"]))) == ["a"]
    ensures Validate(["a"], form, now) != Rejected(BadCategory)
  {
    AddSpacedName();
    ReloadRenamesSpacedName();
    SanitizeNotIdempotent();
    SpacedNames();
    CategoryCheck([" a"], form, now);
    CategoryCheck(["a"], form, now);
  }

  lemma AddSpacedName()
    ensures Add([], Some("< a")) == Change(Done, [" a"])
  {
    SanitizeCanLeaveLeadingSpace();
    assert [] + [" a"] == [" a"];
  }

  lemma SpacedNames()
    ensures "a" != "" && "a" !in [" a"] && "a" in ["a"]
  {
    assert |" a"| == 2 && |"a"| == 1;
  }

  /** The category check of a save, on its own. */
  lemma CategoryCheck(cats: seq<string>, form: ExpenseForm, now: Clock)
    requires IsClock(now)
    ensures var name := SanitizeCategoryName(JsString(form.category));
      Validate(cats, form, now) == Rejected(BadCategory) <==> name == "" || name !in cats
  {
  }
}
