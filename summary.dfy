/** The period summary: which records a period selects and what they add up to. */
module Summary {
  import opened Base
  import opened Calendar
  import opened Ledger

  /** The value of the period selector; `Other` is any value besides the four
      options, for which no record is selected. */
  datatype Period = Daily | Weekly | Monthly | Total | Other

  predicate ValidTarget(target: Option<Date>) {
    target.Some? ==> IsCalendarDate(target.value)
  }

  /** The reference date: today when the date picker is empty, otherwise the
      date it names (`None` when it names none). */
  function ResolveTarget(picked: string, today: Date): (r: Option<Date>)
    requires IsCalendarDate(today)
    ensures ValidTarget(r)
    ensures picked == "" ==> r == Some(today)
    ensures picked != "" ==> (r.Some? <==> ParseDate(picked).Some?)
    ensures picked != "" && r.Some? ==>
      100 <= r.value.year <= 9999 && IsCalendarDate(r.value) && FormatDate(r.value) == picked
  {
    if picked == "" then Some(today)
    else if ParseDate(picked).Some? then FormatParse(picked); ParseDate(picked)
    else None
  }

  /** The day number of the Sunday that starts the week of `t`. */
  function WeekStart(t: Date): int
    requires 1 <= t.month <= 12
  {
    DayNumber(t) - Weekday(t)
  }

  /** The test in the `forEach` of `updateSummary` for one record. A record or
      target whose date does not parse matches no period but `Total`. */
  predicate Includes(p: Period, target: Option<Date>, e: Expense)
    requires ValidTarget(target)
  {
    match p
    case Total => true
    case Other => false
    case Daily =>
      target.Some? && ParseDate(e.date).Some?
      && DayNumber(ParseDate(e.date).value) == DayNumber(target.value)
    case Weekly =>
      target.Some? && ParseDate(e.date).Some?
      && WeekStart(target.value) <= DayNumber(ParseDate(e.date).value) <= WeekStart(target.value) + 6
    case Monthly =>
      target.Some? && ParseDate(e.date).Some?
      && ParseDate(e.date).value.month == target.value.month
      && ParseDate(e.date).value.year == target.value.year
  }

  /** What `total` holds after the loop has seen the records of `s`. */
  function PeriodTotal(s: seq<Expense>, p: Period, target: Option<Date>): int
    requires ValidTarget(target)
  {
    if s == [] then 0
    else PeriodTotal(s[..|s| - 1], p, target) + Share(p, target, s[|s| - 1])
  }

  /** One more record seen adds its share. */
  lemma PeriodTotalStep(s: seq<Expense>, i: int, p: Period, target: Option<Date>)
    requires ValidTarget(target) && 0 <= i < |s|
    ensures PeriodTotal(s[..i + 1], p, target) == PeriodTotal(s[..i], p, target) + Share(p, target, s[i])
  {
    assert s[..i + 1][..i] == s[..i];
  }

  /** What one record adds to the total of a period. */
  function Share(p: Period, target: Option<Date>, e: Expense): int
    requires ValidTarget(target)
  {
    if Includes(p, target, e) then e.amount else 0
  }

  /** The plain sum of all amounts. */
  function Sum(s: seq<Expense>): int {
    if s == [] then 0 else s[0].amount + Sum(s[1..])
  }

  predicate NonNegative(s: seq<Expense>) {
    forall i :: 0 <= i < |s| ==> s[i].amount >= 0
  }

  lemma {:induction false} PeriodTotalConcat(a: seq<Expense>, b: seq<Expense>, p: Period, target: Option<Date>)
    requires ValidTarget(target)
    ensures PeriodTotal(a + b, p, target) == PeriodTotal(a, p, target) + PeriodTotal(b, p, target)
    decreases |b|
  {
    if b == [] {
      assert a + b == a;
    } else {
      var init := b[..|b| - 1];
      assert (a + b)[..|a + b| - 1] == a + init;
      assert (a + b)[|a + b| - 1] == b[|b| - 1];
      PeriodTotalConcat(a, init, p, target);
    }
  }

  lemma {:induction false} SumConcat(a: seq<Expense>, b: seq<Expense>)
    ensures Sum(a + b) == Sum(a) + Sum(b)
  {
    if a == [] {
      assert a + b == b;
    } else {
      assert (a + b)[0] == a[0] && (a + b)[1..] == a[1..] + b;
      SumConcat(a[1..], b);
    }
  }

  /** With period `Total` every amount is added. */
  lemma {:induction false} TotalIsSum(s: seq<Expense>, target: Option<Date>)
    requires ValidTarget(target)
    ensures PeriodTotal(s, Total, target) == Sum(s)
  {
    if s != [] {
      var init := s[..|s| - 1];
      TotalIsSum(init, target);
      assert s == init + [s[|s| - 1]];
      SumConcat(init, [s[|s| - 1]]);
      assert Sum([s[|s| - 1]]) == s[|s| - 1].amount by {
        assert [s[|s| - 1]][1..] == [];
      }
    }
  }

  /** A period that selects no more records than another totals no more. */
  lemma {:induction false} NarrowerTotal(s: seq<Expense>, p: Period, q: Period, target: Option<Date>)
    requires ValidTarget(target) && NonNegative(s)
    requires forall i :: 0 <= i < |s| && Includes(p, target, s[i]) ==> Includes(q, target, s[i])
    ensures PeriodTotal(s, p, target) <= PeriodTotal(s, q, target)
  {
    if s != [] {
      var init := s[..|s| - 1];
      assert forall i :: 0 <= i < |init| ==> init[i] == s[i];
      NarrowerTotal(init, p, q, target);
    }
  }

  /** With non-negative amounts no period totals more than `Total`. */
  lemma WithinTotal(s: seq<Expense>, p: Period, target: Option<Date>)
    requires ValidTarget(target) && NonNegative(s)
    ensures PeriodTotal(s, p, target) <= PeriodTotal(s, Total, target)
  {
    NarrowerTotal(s, p, Total, target);
  }

  /** A record of the target day lies in the target's week and month. */
  lemma DailyWithinWeekAndMonth(s: seq<Expense>, target: Option<Date>)
    requires ValidTarget(target) && NonNegative(s)
    ensures PeriodTotal(s, Daily, target) <= PeriodTotal(s, Weekly, target)
    ensures PeriodTotal(s, Daily, target) <= PeriodTotal(s, Monthly, target)
  {
    forall i | 0 <= i < |s| && Includes(Daily, target, s[i])
      ensures Includes(Weekly, target, s[i]) && Includes(Monthly, target, s[i])
    {
      DayNumberInjective(ParseDate(s[i].date).value, target.value);
    }
    NarrowerTotal(s, Daily, Weekly, target);
    NarrowerTotal(s, Daily, Monthly, target);
  }

  /** `Daily` selects exactly the records whose date text is the target's. */
  lemma DailyIffSameDate(t: Date, e: Expense)
    requires IsCalendarDate(t) && 100 <= t.year <= 9999
    ensures Includes(Daily, Some(t), e) <==> e.date == FormatDate(t)
  {
    ParseFormat(t);
    if Includes(Daily, Some(t), e) {
      DayNumberInjective(ParseDate(e.date).value, t);
      FormatParse(e.date);
    }
  }

  /** `Monthly` selects exactly the records whose date text starts with the
      target's `YYYY-MM`. */
  lemma MonthlyIffSameMonthText(t: Date, e: Expense)
    requires IsCalendarDate(t) && 100 <= t.year <= 9999
    ensures Includes(Monthly, Some(t), e) <==>
      ParseDate(e.date).Some? && e.date[..7] == FormatDate(t)[..7]
  {
    if ParseDate(e.date).Some? {
      FormatParse(e.date);
      MonthPrefix(ParseDate(e.date).value, t);
    }
  }

  /** The week starts on a Sunday. */
  lemma WeekStartIsSunday(t: Date)
    requires 1 <= t.month <= 12
    ensures WeekdayOfNumber(WeekStart(t)) == 0
  {
    SundayBefore(DayNumber(t));
  }

  lemma SundayBefore(n: int)
    ensures WeekdayOfNumber(n - WeekdayOfNumber(n)) == 0
  {
    var q, r := (n + 6) / 7, (n + 6) % 7;
    assert n + 6 == 7 * q + r;
    assert n - r + 6 == 7 * q;
  }

  /** A day lies in the seven days from the Sunday before `m` exactly when the
      Sunday before it is the same one. */
  lemma SameWeekArith(m: int, n: int)
    ensures var start := m - WeekdayOfNumber(m);
      start <= n <= start + 6 <==> n - WeekdayOfNumber(n) == start
  {
    var start := m - WeekdayOfNumber(m);
    var q := (m + 6) / 7;
    assert m + 6 == 7 * q + (m + 6) % 7;
    assert start + 6 == 7 * q;
    if start <= n <= start + 6 {
      assert n + 6 == 7 * q + (n - start);
    }
  }

  /** `Weekly` selects exactly the records whose own week starts on the same
      Sunday as the target's. */
  lemma WeeklyIffSameWeek(t: Date, e: Expense)
    requires IsCalendarDate(t)
    ensures Includes(Weekly, Some(t), e) <==>
      ParseDate(e.date).Some? && WeekStart(ParseDate(e.date).value) == WeekStart(t)
  {
    if ParseDate(e.date).Some? {
      SameWeekArith(DayNumber(t), DayNumber(ParseDate(e.date).value));
    }
  }

  /** The week of Wednesday 2024-06-12 runs from Sunday 2024-06-09 to
      Saturday 2024-06-15. */
  lemma WeekOfJune12()
    ensures WeekStart(Date(2024, 6, 12)) == DayNumber(Date(2024, 6, 9))
    ensures WeekStart(Date(2024, 6, 12)) + 6 == DayNumber(Date(2024, 6, 15))
  {
    WeekdayAnchors();
  }

  /** A record of Monday 2024-06-10 counts for the week of 2024-06-12 and one
      of Sunday 2024-06-16 does not. */
  lemma WeeklyExample()
    ensures PeriodTotal([Expense(1, "Food", 1250, "2024-06-10", ""), Expense(2, "Food", 500, "2024-06-16", "")],
                        Weekly, Some(Date(2024, 6, 12))) == 1250
  {
    var a := Expense(1, "Food", 1250, "2024-06-10", "");
    var b := Expense(2, "Food", 500, "2024-06-16", "");
    var t := Some(Date(2024, 6, 12));
    assert DateFields(a.date) == Date(2024, 6, 10);
    assert DateFields(b.date) == Date(2024, 6, 16);
    WeekOfJune12();
    assert Includes(Weekly, t, a) && !Includes(Weekly, t, b);
    assert [a, b][..1] == [a] && [a][..0] == [];
  }

  /** Of records dated 2024-06-01 and 2024-07-01 only the first counts for June. */
  lemma MonthlyExample()
    ensures PeriodTotal([Expense(1, "Food", 700, "2024-06-01", ""), Expense(2, "Food", 300, "2024-07-01", "")],
                        Monthly, Some(Date(2024, 6, 15))) == 700
  {
    var a := Expense(1, "Food", 700, "2024-06-01", "");
    var b := Expense(2, "Food", 300, "2024-07-01", "");
    var t := Some(Date(2024, 6, 15));
    assert DateFields(a.date) == Date(2024, 6, 1);
    assert DateFields(b.date) == Date(2024, 7, 1);
    assert Includes(Monthly, t, a) && !Includes(Monthly, t, b);
    assert [a, b][..1] == [a] && [a][..0] == [];
  }

  lemma SingleTotal(e: Expense, p: Period, target: Option<Date>)
    requires ValidTarget(target)
    ensures PeriodTotal([e], p, target) == Share(p, target, e)
  {
    assert [e][..0] == [];
  }

  lemma RemoveOneLowersTotal(e: Expense, id: int, p: Period, target: Option<Date>)
    requires ValidTarget(target) && e.amount >= 0
    ensures PeriodTotal(Remove([e], id), p, target) <= PeriodTotal([e], p, target)
  {
    assert [e][1..] == [];
    assert Remove([e], id) == (if e.id == id then [] else [e]);
    SingleTotal(e, p, target);
  }

  /** Deleting records never raises a period's total. */
  lemma {:induction false} RemoveLowersTotal(s: seq<Expense>, id: int, p: Period, target: Option<Date>)
    requires ValidTarget(target) && NonNegative(s)
    ensures PeriodTotal(Remove(s, id), p, target) <= PeriodTotal(s, p, target)
  {
    if s != [] {
      var init, last := s[..|s| - 1], s[|s| - 1];
      assert s == init + [last];
      assert NonNegative(init) by {
        assert forall i :: 0 <= i < |init| ==> init[i] == s[i];
      }
      RemoveLowersTotal(init, id, p, target);
      RemoveConcat(init, [last], id);
      PeriodTotalConcat(Remove(init, id), Remove([last], id), p, target);
      RemoveOneLowersTotal(last, id, p, target);
      SingleTotal(last, p, target);
    }
  }

  /** Replacing one record changes a total by the difference of the two shares
      and nothing else. */
  lemma {:induction false} ReplaceChangesOneShare(s: seq<Expense>, k: int, x: Expense, p: Period, target: Option<Date>)
    requires ValidTarget(target) && 0 <= k < |s|
    ensures PeriodTotal(s[k := x], p, target)
      == PeriodTotal(s, p, target) - Share(p, target, s[k]) + Share(p, target, x)
  {
    var init := s[..|s| - 1];
    if k < |s| - 1 {
      assert s[k := x][..|s| - 1] == init[k := x];
      ReplaceChangesOneShare(init, k, x, p, target);
    } else {
      assert s[k := x][..|s| - 1] == init;
    }
  }

  /** An edit changes each period's total by the edited record's shares alone. */
  lemma UpdateTotal(s: seq<Expense>, id: int, f: Fields, p: Period, target: Option<Date>)
    requires ValidTarget(target) && IndexOfId(s, id) >= 0
    ensures PeriodTotal(Update(s, id, f), p, target)
      == PeriodTotal(s, p, target) - Share(p, target, s[IndexOfId(s, id)]) + Share(p, target, Record(id, f))
  {
    var k := IndexOfId(s, id);
    assert Update(s, id, f) == s[k := Record(id, f)];
    ReplaceChangesOneShare(s, k, Record(id, f), p, target);
  }
}
