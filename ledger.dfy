/** The expense ledger: records, the checks a save runs, and the updates it makes. */
module Ledger {
  import opened Base
  import opened Sanitize
  import opened Calendar

  /** One stored expense; `amount` is in cents. */
  datatype Expense = Expense(id: int, category: string, amount: int, date: string, description: string)

  /** The expense form at submit time. Every field is the raw text except
      `amount`, which is what `parseFloat` made of it (`None` for NaN). */
  datatype ExpenseForm = ExpenseForm(category: string, amount: Option<real>, date: string, description: string)

  /** The four fields a save writes, once sanitised. */
  datatype Fields = Fields(category: string, amount: int, date: string, description: string)

  datatype Rejection = BadCategory | BadAmount | BadDate

  datatype Checked = Accepted(fields: Fields) | Rejected(reason: Rejection)

  /** The checks at the top of `saveExpense`, in their order: the category must
      sanitise to a registered name, the amount must be a number that rounds to
      at least one cent, and the date must pass `sanitizeDate`. */
  function Validate(cats: seq<string>, form: ExpenseForm, now: Clock): Checked
    requires IsClock(now)
  {
    var category := SanitizeCategoryName(JsString(form.category));
    var amount := SanitizeAmount(form.amount);
    var date := SanitizeDate(JsString(form.date), now);
    var description := SanitizeDescription(JsString(form.description));
    if category == "" || category !in cats then Rejected(BadCategory)
    else if amount.None? || amount.value <= 0 then Rejected(BadAmount)
    else if date.None? then Rejected(BadDate)
    else Accepted(Fields(category, amount.value, date.value, description))
  }

  /** Each refusal happens exactly when its check is the first to fail, and an
      accepted form yields a registered category, a positive amount within the
      cap, the date as typed (a real calendar date) and the sanitised
      description. */
  lemma ValidateOutcomes(cats: seq<string>, form: ExpenseForm, now: Clock)
    requires IsClock(now)
    ensures
      var r := Validate(cats, form, now);
      var category := SanitizeCategoryName(JsString(form.category));
      var amount := SanitizeAmount(form.amount);
      var date := SanitizeDate(JsString(form.date), now);
      && (r == Rejected(BadCategory) <==> category == "" || category !in cats)
      && (r == Rejected(BadAmount) <==> category != "" && category in cats && (amount.None? || amount.value <= 0))
      && (r == Rejected(BadDate) <==>
            category != "" && category in cats && amount.Some? && amount.value > 0 && date.None?)
      && (r.Accepted? ==>
            && r.fields.category == category && r.fields.category in cats
            && 0 < r.fields.amount <= AmountCapCents && amount == Some(r.fields.amount)
            && r.fields.date == form.date && ParseDate(r.fields.date).Some?
            && r.fields.description == SanitizeDescription(JsString(form.description)))
  {
  }

  function Record(id: int, f: Fields): Expense {
    Expense(id, f.category, f.amount, f.date, f.description)
  }

  /** `expenses.findIndex(e => e.id === id)`. */
  function IndexOfId(s: seq<Expense>, id: int): (k: int)
    ensures -1 <= k < |s|
    ensures k >= 0 ==> s[k].id == id && forall j :: 0 <= j < k ==> s[j].id != id
    ensures k == -1 ==> forall j :: 0 <= j < |s| ==> s[j].id != id
  {
    if s == [] then -1
    else if s[0].id == id then 0
    else
      var k := IndexOfId(s[1..], id);
      if k == -1 then -1 else k + 1
  }

  /** The edit branch of `saveExpense`: the first record with `id` gets the new
      fields and keeps its id; without such a record nothing changes. */
  function Update(s: seq<Expense>, id: int, f: Fields): (r: seq<Expense>)
    ensures |r| == |s|
    ensures forall i :: 0 <= i < |s| ==> r[i].id == s[i].id
    ensures forall i :: 0 <= i < |s| && i != IndexOfId(s, id) ==> r[i] == s[i]
    ensures IndexOfId(s, id) >= 0 ==> r[IndexOfId(s, id)] == Record(id, f)
  {
    var k := IndexOfId(s, id);
    if k < 0 then s else s[k := Record(s[k].id, f)]
  }

  /** `expenses.filter(e => e.id !== id)`. */
  function Remove(s: seq<Expense>, id: int): (r: seq<Expense>)
    ensures |r| <= |s|
    ensures forall i :: 0 <= i < |r| ==> r[i].id != id
    ensures (forall i :: 0 <= i < |s| ==> s[i].id != id) ==> r == s
  {
    if s == [] then []
    else (if s[0].id == id then [] else [s[0]]) + Remove(s[1..], id)
  }

  /** Every record without the id is kept, and no record with it. */
  lemma {:induction false} RemoveMembers(s: seq<Expense>, id: int)
    ensures forall e :: e in Remove(s, id) <==> e in s && e.id != id
  {
    if s != [] {
      RemoveMembers(s[1..], id);
      assert s == [s[0]] + s[1..];
    }
  }

  /** Removal works record by record, so the records kept stay in their order. */
  lemma {:induction false} RemoveConcat(a: seq<Expense>, b: seq<Expense>, id: int)
    ensures Remove(a + b, id) == Remove(a, id) + Remove(b, id)
  {
    if a == [] {
      assert a + b == b;
    } else {
      var head := if a[0].id == id then [] else [a[0]];
      var tail := a[1..];
      assert (a + b)[0] == a[0] && (a + b)[1..] == tail + b;
      RemoveConcat(tail, b, id);
      calc {
        Remove(a + b, id);
        head + Remove(tail + b, id);
        head + (Remove(tail, id) + Remove(b, id));
        (head + Remove(tail, id)) + Remove(b, id);
      }
    }
  }

  predicate UniqueIds(s: seq<Expense>) {
    forall i, j :: 0 <= i < j < |s| ==> s[i].id != s[j].id
  }

  /** With unique ids, deleting an id removes exactly its one record. */
  lemma RemoveUnique(s: seq<Expense>, k: int)
    requires UniqueIds(s) && 0 <= k < |s|
    ensures Remove(s, s[k].id) == s[..k] + s[k + 1..]
  {
    var id := s[k].id;
    var before, after := s[..k], s[k + 1..];
    OthersDiffer(s, k);
    RemoveAround(before, s[k], after);
    SplitAt(s, k);
  }

  lemma SplitAt(s: seq<Expense>, k: int)
    requires 0 <= k < |s|
    ensures s == s[..k] + [s[k]] + s[k + 1..]
  {
  }

  lemma OthersDiffer(s: seq<Expense>, k: int)
    requires UniqueIds(s) && 0 <= k < |s|
    ensures forall i :: 0 <= i < k ==> s[i].id != s[k].id
    ensures forall i :: k < i < |s| ==> s[i].id != s[k].id
  {
  }

  /** Deleting the id of a record that no neighbour shares removes just it. */
  lemma RemoveAround(before: seq<Expense>, e: Expense, after: seq<Expense>)
    requires forall i :: 0 <= i < |before| ==> before[i].id != e.id
    requires forall i :: 0 <= i < |after| ==> after[i].id != e.id
    ensures Remove(before + [e] + after, e.id) == before + after
  {
    var id := e.id;
    assert Remove(before, id) == before;
    assert Remove(after, id) == after;
    RemoveOwnId(e);
    RemoveConcat(before, [e], id);
    assert Remove(before + [e], id) == before;
    RemoveConcat(before + [e], after, id);
  }

  lemma RemoveOwnId(e: Expense)
    ensures Remove([e], e.id) == []
  {
    assert [e][1..] == [];
  }

  /** Editing keeps ids unique, and so does appending under an id not yet used. */
  lemma SaveKeepsUniqueIds(s: seq<Expense>, id: int, freshId: int, f: Fields)
    requires UniqueIds(s)
    requires forall i :: 0 <= i < |s| ==> s[i].id != freshId
    ensures UniqueIds(Update(s, id, f))
    ensures UniqueIds(s + [Record(freshId, f)])
  {
    var r := Update(s, id, f);
    assert forall i, j :: 0 <= i < j < |r| ==> r[i].id == s[i].id && r[j].id == s[j].id;
  }

  /** `if (editingExpenseId)`: JavaScript truthiness, so `null` and the id 0 both
      mean "not editing". */
  predicate IsEditing(editing: Option<int>) {
    editing.Some? && editing.value != 0
  }

  /** `editExpense(id)`: the id of the first record that has it becomes the one
      being edited; without such a record nothing changes. */
  function StartEdit(s: seq<Expense>, editing: Option<int>, id: int): (r: Option<int>)
    ensures (exists i :: 0 <= i < |s| && s[i].id == id) ==> r == Some(id)
    ensures (forall i :: 0 <= i < |s| ==> s[i].id != id) ==> r == editing
  {
    if IndexOfId(s, id) >= 0 then Some(id) else editing
  }

  datatype SaveOutcome = Refused(reason: Rejection) | Updated | EditTargetMissing | Appended

  /** The ledger and the edit marker after a save, with what the save did. */
  datatype Saved = Saved(outcome: SaveOutcome, expenses: seq<Expense>, editing: Option<int>)

  /** `saveExpense`: a refused form changes nothing; while editing, the record
      being edited gets the new fields (when it still exists) and editing ends;
      otherwise a record under `freshId` (the clock's reading) is appended. */
  function Save(s: seq<Expense>, editing: Option<int>, cats: seq<string>, form: ExpenseForm,
                now: Clock, freshId: int): Saved
    requires IsClock(now)
  {
    match Validate(cats, form, now)
    case Rejected(reason) => Saved(Refused(reason), s, editing)
    case Accepted(f) =>
      if IsEditing(editing) then
        var found := IndexOfId(s, editing.value) >= 0;
        Saved(if found then Updated else EditTargetMissing, Update(s, editing.value, f), None)
      else Saved(Appended, s + [Record(freshId, f)], editing)
  }

  /** What each outcome of a save means for the ledger and the edit marker. */
  lemma SaveOutcomes(s: seq<Expense>, editing: Option<int>, cats: seq<string>, form: ExpenseForm,
                     now: Clock, freshId: int)
    requires IsClock(now)
    ensures var v, r := Validate(cats, form, now), Save(s, editing, cats, form, now, freshId);
      && (r.outcome.Refused? <==> v.Rejected?)
      && (v.Rejected? ==> r == Saved(Refused(v.reason), s, editing))
      && (r.outcome == Appended <==> v.Accepted? && !IsEditing(editing))
      && (r.outcome == Appended ==>
            r.expenses == s + [Record(freshId, v.fields)] && r.editing == editing)
      && (r.outcome == Updated <==> v.Accepted? && IsEditing(editing) && IndexOfId(s, editing.value) >= 0)
      && (r.outcome == Updated ==>
            var k := IndexOfId(s, editing.value);
            && |r.expenses| == |s| && r.expenses[k] == Record(editing.value, v.fields)
            && (forall i :: 0 <= i < |s| && i != k ==> r.expenses[i] == s[i]))
      && (r.outcome == EditTargetMissing ==> r.expenses == s)
      && (r.outcome in {Updated, EditTargetMissing} ==> r.editing == None)
  {
  }

  /** Saving keeps ids unique as long as the clock's reading is not already an id. */
  lemma SaveUnique(s: seq<Expense>, editing: Option<int>, cats: seq<string>, form: ExpenseForm,
                   now: Clock, freshId: int)
    requires IsClock(now)
    ensures UniqueIds(s) && (forall i :: 0 <= i < |s| ==> s[i].id != freshId)
      ==> UniqueIds(Save(s, editing, cats, form, now, freshId).expenses)
  {
    if UniqueIds(s) && (forall i :: 0 <= i < |s| ==> s[i].id != freshId) && Validate(cats, form, now).Accepted? {
      var f := Validate(cats, form, now).fields;
      SaveKeepsUniqueIds(s, if IsEditing(editing) then editing.value else 0, freshId, f);
    }
  }

  /** Choosing a record for editing and then saving an accepted form rewrites
      that record and no other, and ends editing. */
  lemma EditThenSave(s: seq<Expense>, id: int, editing: Option<int>, cats: seq<string>,
                     form: ExpenseForm, now: Clock, freshId: int)
    requires IsClock(now) && id != 0 && IndexOfId(s, id) >= 0
    requires Validate(cats, form, now).Accepted?
    ensures var r := Save(s, StartEdit(s, editing, id), cats, form, now, freshId);
      && r.outcome == Updated && r.editing == None && |r.expenses| == |s|
      && r.expenses[IndexOfId(s, id)] == Record(id, Validate(cats, form, now).fields)
      && forall i :: 0 <= i < |s| && i != IndexOfId(s, id) ==> r.expenses[i] == s[i]
  {
    SaveOutcomes(s, StartEdit(s, editing, id), cats, form, now, freshId);
  }
}
