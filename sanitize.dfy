/** The input sanitisers: category names, descriptions, amounts and dates. */
module Sanitize {
  import opened Base
  import opened Text
  import opened Calendar

  const CategoryNameMaxLength: nat := 50
  const DescriptionMaxLength: nat := 200

  /** The steps both text sanitisers share: reject non-strings, trim, give
      up on blank input, cut to `cap` characters, strip angle brackets and
      collapse whitespace runs to one space. */
  function SanitizeText(v: JsValue, cap: nat): (r: string)
    ensures |r| <= cap && NoAngles(r) && SingleSpaced(r)
    ensures v.JsOther? ==> r == ""
    ensures v.JsString? && Trim(v.s) == "" ==> r == ""
  {
    match v
    case JsOther => ""
    case JsString(s) =>
      var t := Trim(s);
      if t == "" then "" else CollapseWhitespace(StripAngles(Truncate(t, cap)))
  }

  /** `sanitizeCategoryName`; an empty result means "invalid". */
  function SanitizeCategoryName(v: JsValue): (r: string)
    ensures |r| <= CategoryNameMaxLength && NoAngles(r) && SingleSpaced(r)
    ensures v.JsOther? ==> r == ""
  {
    SanitizeText(v, CategoryNameMaxLength)
  }

  /** `sanitizeDescription`; the empty result is a valid (absent) description. */
  function SanitizeDescription(v: JsValue): (r: string)
    ensures |r| <= DescriptionMaxLength && NoAngles(r) && SingleSpaced(r)
    ensures v.JsOther? || Trim(v.s) == "" ==> r == ""
  {
    SanitizeText(v, DescriptionMaxLength)
  }

  /** Sanitising removes whitespace and angle brackets and nothing else, except
      what the length cap cuts off. */
  lemma SanitizeKeepsVisible(s: string, cap: nat)
    ensures Visible(SanitizeText(JsString(s), cap)) == Visible(Truncate(Trim(s), cap))
    ensures |Trim(s)| <= cap ==> Visible(SanitizeText(JsString(s), cap)) == Visible(s)
  {
    var t := Trim(s);
    VisibleTrim(s);
    if t != "" {
      var u := Truncate(t, cap);
      VisibleStripAngles(u);
      VisibleCollapse(StripAngles(u));
    }
  }

  /** The result is empty exactly when trimming and truncating leave nothing
      but angle brackets. */
  lemma SanitizeEmptyIff(s: string, cap: nat)
    ensures var u := Truncate(Trim(s), cap);
      SanitizeText(JsString(s), cap) == "" <==> forall i :: 0 <= i < |u| ==> IsAngle(u[i])
  {
    var t := Trim(s);
    var u := Truncate(t, cap);
    if t == "" {
      assert u == "";
    } else {
      assert SanitizeText(JsString(s), cap) == CollapseWhitespace(StripAngles(u));
      assert CollapseWhitespace(StripAngles(u)) == "" <==> StripAngles(u) == "";
    }
  }

  /** What a sanitiser can return when its input needs no cleaning. */
  predicate IsSanitized(s: string, cap: nat) {
    |s| <= cap && NoAngles(s) && SingleSpaced(s) && Trimmed(s)
  }

  /** Clean text passes through unchanged. */
  lemma SanitizeFixpoint(s: string, cap: nat)
    requires IsSanitized(s, cap)
    ensures SanitizeText(JsString(s), cap) == s
  {
    CollapseFixpoint(s);
  }

  /** Surrounding spaces make no difference. */
  lemma SanitizeIgnoresPadding(x: string, cap: nat)
    ensures SanitizeText(JsString([' '] + x + [' ']), cap) == SanitizeText(JsString(x), cap)
  {
    TrimPadded(x);
  }

  /** A padded name sanitises to the bare name, so `" Food "` is `"Food"`. */
  lemma SanitizeTrimsName()
    ensures SanitizeCategoryName(JsString(" Food ")) == "Food"
  {
    var food := "Food";
    PaddedFood();
    SanitizeIgnoresPadding(food, CategoryNameMaxLength);
    FoodIsSanitized();
    SanitizeFixpoint(food, CategoryNameMaxLength);
  }

  lemma PaddedFood()
    ensures " Food " == [' '] + "Food" + [' ']
  {
  }

  lemma FoodIsSanitized()
    ensures IsSanitized("Food", CategoryNameMaxLength)
  {
    var food := "Food";
    assert NoAngles(food);
    assert forall i :: 0 <= i < |food| ==> !IsWhitespace(food[i]);
  }

  /** Trimming happens before the angle brackets go, so a result can still
      start with a space. */
  lemma SanitizeCanLeaveLeadingSpace()
    ensures SanitizeCategoryName(JsString("< a")) == " a"
  {
    var s, t := "< a", " a";
    assert Trimmed(s) && s[1..] == t;
    SanitizeShortTrimmed(s, CategoryNameMaxLength);
    SpaceAIsClean();
    StripLeadingAngle(s, t);
    CollapseFixpoint(t);
  }

  /** Such a result is not clean itself: sanitising `" a"` again gives `"a"`. */
  lemma SanitizeNotIdempotent()
    ensures SanitizeCategoryName(JsString(" a")) == "a"
  {
    var t, a := " a", "a";
    SpaceAConcat();
    AIsSanitized();
    TrimSpaceCons(a);
    SanitizeDependsOnTrim(t, a, CategoryNameMaxLength);
    SanitizeFixpoint(a, CategoryNameMaxLength);
  }

  lemma SpaceAConcat()
    ensures " a" == [' '] + "a"
  {
  }

  /** Only the trimmed input matters. */
  lemma SanitizeDependsOnTrim(s: string, t: string, cap: nat)
    requires Trim(s) == Trim(t)
    ensures SanitizeText(JsString(s), cap) == SanitizeText(JsString(t), cap)
  {
  }

  lemma AIsSanitized()
    ensures IsSanitized("a", CategoryNameMaxLength)
  {
    var a := "a";
    assert a[0] == 'a' && !IsWhitespace(a[0]) && !IsAngle(a[0]);
  }

  lemma SpaceAIsClean()
    ensures NoAngles(" a") && SingleSpaced(" a")
  {
    var t := " a";
    assert t[0] == ' ' && t[1] == 'a';
    assert !IsWhitespace(t[1]);
  }

  /** Text with no whitespace at its ends and within the cap only loses its
      angle brackets and its whitespace runs. */
  lemma SanitizeShortTrimmed(s: string, cap: nat)
    requires s != [] && Trimmed(s) && |s| <= cap
    ensures SanitizeText(JsString(s), cap) == CollapseWhitespace(StripAngles(s))
  {
  }

  lemma StripLeadingAngle(s: string, t: string)
    requires s != [] && IsAngle(s[0]) && s[1..] == t && NoAngles(t)
    ensures StripAngles(s) == t
  {
  }

  /** A word contains neither whitespace nor angle brackets. */
  predicate IsWord(s: string) {
    s != [] && forall i :: 0 <= i < |s| ==> !IsWhitespace(s[i]) && !IsAngle(s[i])
  }

  /** Two words separated by any run of whitespace come out joined by one space. */
  lemma SanitizeJoinsWords(a: string, w: string, b: string, cap: nat)
    requires IsWord(a) && IsWord(b)
    requires w != [] && forall i :: 0 <= i < |w| ==> IsWhitespace(w[i])
    requires |a| + |w| + |b| <= cap
    ensures SanitizeText(JsString(a + w + b), cap) == a + [' '] + b
  {
    var s := a + w + b;
    WordsAroundRun(a, w, b);
    SanitizeShortTrimmed(s, cap);
    CollapseRun(a, w, b);
    WordsAroundSpace(a, b);
    CollapseFixpoint(a + [' '] + b);
  }

  lemma WordsAroundRun(a: string, w: string, b: string)
    requires IsWord(a) && IsWord(b)
    requires w != [] && forall i :: 0 <= i < |w| ==> IsWhitespace(w[i])
    ensures var s := a + w + b; s != [] && Trimmed(s) && NoAngles(s) && StripAngles(s) == s
  {
    var s := a + w + b;
    assert s[0] == a[0] && s[|s| - 1] == b[|b| - 1];
    assert forall i :: 0 <= i < |s| ==> s[i] == if i < |a| then a[i] else if i < |a| + |w| then w[i - |a|] else b[i - |a| - |w|];
  }

  lemma WordsAroundSpace(a: string, b: string)
    requires IsWord(a) && IsWord(b)
    ensures SingleSpaced(a + [' '] + b)
  {
    var s := a + [' '] + b;
    assert forall i :: 0 <= i < |s| ==> s[i] == if i < |a| then a[i] else if i == |a| then ' ' else b[i - |a| - 1];
  }

  /** `"Food  court"` and `"Food\tcourt"` are both saved as `"Food court"`. */
  lemma SanitizeFoodCourt()
    ensures SanitizeCategoryName(JsString("Food  court")) == "Food court"
    ensures SanitizeCategoryName(JsString("Food\tcourt")) == "Food court"
  {
    FoodCourtWords();
    FoodCourtSpaces();
    FoodCourtTab();
  }

  lemma FoodCourtSpaces()
    requires IsWord("Food") && IsWord("court")
    ensures SanitizeText(JsString("Food" + "  " + "court"), CategoryNameMaxLength) == "Food" + [' '] + "court"
  {
    var w := "  ";
    assert w[0] == ' ' && w[1] == ' ';
    SanitizeJoinsWords("Food", w, "court", CategoryNameMaxLength);
  }

  lemma FoodCourtTab()
    requires IsWord("Food") && IsWord("court")
    ensures SanitizeText(JsString("Food" + "\t" + "court"), CategoryNameMaxLength) == "Food" + [' '] + "court"
  {
    var w := "\t";
    assert w[0] == '\t';
    SanitizeJoinsWords("Food", w, "court", CategoryNameMaxLength);
  }

  lemma FoodCourtWords()
    ensures IsWord("Food") && IsWord("court")
    ensures "Food" + "  " + "court" == "Food  court"
    ensures "Food" + "\t" + "court" == "Food\tcourt"
    ensures "Food" + [' '] + "court" == "Food court"
  {
    var f, c := "Food", "court";
    assert f[0] == 'F' && f[1] == 'o' && f[2] == 'o' && f[3] == 'd';
    assert c[0] == 'c' && c[1] == 'o' && c[2] == 'u' && c[3] == 'r' && c[4] == 't';
  }

  /** A name made of angle brackets only is invalid. */
  lemma SanitizeRejectsBrackets()
    ensures SanitizeCategoryName(JsString("<>")) == ""
  {
    var s := "<>";
    assert Trimmed(s);
    SanitizeShortTrimmed(s, CategoryNameMaxLength);
    assert forall i :: 0 <= i < |s| ==> IsAngle(s[i]);
  }

  // ---- Amounts ----

  /** 9,999,999.99 in cents. */
  const AmountCapCents: int := 999999999

  /** `sanitizeAmount` in integer cents. `parsed` is what `parseFloat` made of
      the field, `None` standing for NaN and the infinities; the value is made
      non-negative, capped at 9,999,999.99 and rounded half up to cents. */
  function SanitizeAmount(parsed: Option<real>): (r: Option<int>)
    ensures r.None? <==> parsed.None?
    ensures r.Some? ==> 0 <= r.value <= AmountCapCents
    ensures r.Some? ==>
      var capped := Min(Abs(parsed.value), 9999999.99);
      capped * 100.0 - 0.5 < r.value as real <= capped * 100.0 + 0.5
  {
    match parsed
    case None => None
    case Some(x) => Some((Min(Abs(x), 9999999.99) * 100.0 + 0.5).Floor)
  }

  /** `Math.abs`. */
  function Abs(x: real): real {
    if x < 0.0 then -x else x
  }

  /** The smaller of two reals; `if (amount > cap) amount = cap` keeps `Min(amount, cap)`. */
  function Min(x: real, y: real): real {
    if x > y then y else x
  }

  /** An amount passes the "positive" check exactly when its magnitude reaches
      half a cent. */
  lemma SanitizeAmountPositive(x: real)
    ensures SanitizeAmount(Some(x)).value > 0 <==> (x >= 0.005 || x <= -0.005)
  {
  }

  /** A whole number of cents, of either sign, comes back as its magnitude. */
  lemma SanitizeAmountOfCents(k: int)
    requires 0 <= k <= AmountCapCents
    ensures SanitizeAmount(Some(k as real / 100.0)) == Some(k)
    ensures SanitizeAmount(Some(-(k as real) / 100.0)) == Some(k)
  {
    var x := k as real / 100.0;
    assert x * 100.0 + 0.5 == k as real + 0.5;
    assert (-(k as real) / 100.0) == -x;
  }

  lemma SanitizeAmountCapped(x: real)
    requires x >= 9999999.99 || x <= -9999999.99
    ensures SanitizeAmount(Some(x)) == Some(AmountCapCents)
  {
  }

  // ---- Dates ----

  const MsPerDay: int := 86400000

  /** `new Date()`: the local calendar date and the milliseconds since local midnight. */
  datatype Clock = Clock(today: Date, msOfDay: int)

  predicate IsClock(c: Clock) {
    IsCalendarDate(c.today) && 0 <= c.msOfDay < MsPerDay
  }

  /** A local time as a count of milliseconds, which `<` and `>` on `Date` objects compare. */
  function Instant(d: Date, ms: int): int
    requires 1 <= d.month <= 12
  {
    DayNumber(d) * MsPerDay + ms
  }

  /** Comparing two instants compares their days first, then the times of day. */
  lemma InstantOrder(a: Date, ma: int, b: Date, mb: int)
    requires 1 <= a.month <= 12 && 1 <= b.month <= 12
    requires 0 <= ma < MsPerDay && 0 <= mb < MsPerDay
    ensures Instant(a, ma) < Instant(b, mb)
      <==> DayNumber(a) < DayNumber(b) || (DayNumber(a) == DayNumber(b) && ma < mb)
  {
  }

  /** `minDate`: now with its year put back ten. */
  function EarliestDate(now: Clock): (d: Date)
    requires IsClock(now)
    ensures IsCalendarDate(d)
  {
    ShiftYears(now.today, -10)
  }

  /** `maxDate`: now with its year put forward one. */
  function LatestDate(now: Clock): (d: Date)
    requires IsClock(now)
    ensures IsCalendarDate(d)
  {
    ShiftYears(now.today, 1)
  }

  /** `sanitizeDate`: the input itself when it is a `YYYY-MM-DD` string naming
      a real date that, at midnight, is neither before `minDate` nor after
      `maxDate` (both carry the current time of day); otherwise `None`. */
  function SanitizeDate(v: JsValue, now: Clock): (r: Option<string>)
    requires IsClock(now)
    ensures r == None || (v.JsString? && r == Some(v.s))
    ensures r.Some? ==> ParseDate(r.value).Some?
  {
    match v
    case JsOther => None
    case JsString(s) =>
      if s == "" then None
      else match ParseDate(s)
        case None => None
        case Some(d) =>
          if Instant(d, 0) < Instant(EarliestDate(now), now.msOfDay)
             || Instant(d, 0) > Instant(LatestDate(now), now.msOfDay)
          then None
          else Some(s)
  }

  /** The window in whole days: the last day allowed is today a year on; the
      day exactly ten years back is allowed only at the stroke of midnight. */
  lemma SanitizeDateIff(s: string, now: Clock)
    requires IsClock(now)
    ensures SanitizeDate(JsString(s), now).Some? <==>
      && ParseDate(s).Some?
      && var n := DayNumber(ParseDate(s).value);
      && (DayNumber(EarliestDate(now)) < n || (DayNumber(EarliestDate(now)) == n && now.msOfDay == 0))
      && n <= DayNumber(LatestDate(now))
  {
  }

  /** Every accepted date lies between ten years back and one year ahead. */
  lemma SanitizeDateYears(s: string, now: Clock)
    requires IsClock(now) && SanitizeDate(JsString(s), now).Some?
    ensures now.today.year - 10 <= ParseDate(s).value.year <= now.today.year + 1
  {
    SanitizeDateIff(s, now);
    var d := ParseDate(s).value;
    if d.year < now.today.year - 10 {
      DayNumberMonotonic(d, EarliestDate(now));
    }
    if d.year > now.today.year + 1 {
      DayNumberMonotonic(LatestDate(now), d);
    }
  }

  /** Today's date is always accepted. */
  lemma SanitizeDateAcceptsToday(now: Clock)
    requires IsClock(now) && 100 <= now.today.year <= 9999
    ensures SanitizeDate(JsString(FormatDate(now.today)), now) == Some(FormatDate(now.today))
  {
    ParseFormat(now.today);
    SanitizeDateIff(FormatDate(now.today), now);
    DayNumberMonotonic(EarliestDate(now), now.today);
    DayNumberMonotonic(now.today, LatestDate(now));
  }

  /** A date two or more years ahead is rejected. */
  lemma SanitizeDateRejectsFarFuture(d: Date, now: Clock)
    requires IsClock(now) && 100 <= d.year <= 9999 && IsCalendarDate(d)
    requires d.year >= now.today.year + 2
    ensures SanitizeDate(JsString(FormatDate(d)), now) == None
  {
    ParseFormat(d);
    if SanitizeDate(JsString(FormatDate(d)), now).Some? {
      SanitizeDateYears(FormatDate(d), now);
    }
  }

  /** 30 February does not exist, whatever the date today. */
  lemma SanitizeDateRejectsImpossible(now: Clock)
    requires IsClock(now)
    ensures SanitizeDate(JsString("2021-02-30"), now) == None
    ensures SanitizeDate(JsString("2021-13-01"), now) == None
    ensures SanitizeDate(JsString("0050-01-01"), now) == None
    ensures SanitizeDate(JsString("2021-2-3"), now) == None
  {
    assert DateFields("2021-02-30") == Date(2021, 2, 30);
    assert DateFields("2021-13-01") == Date(2021, 13, 1);
    assert DateFields("0050-01-01") == Date(50, 1, 1);
  }
}
