/** The category registry: an ordered list of distinct, sanitised names. */
module Categories {
  import opened Base
  import opened Text
  import opened Sanitize

  /** A name `sanitizeCategoryName` can return and the registry accepts. */
  predicate IsCategoryName(c: string) {
    c != "" && |c| <= CategoryNameMaxLength && NoAngles(c) && SingleSpaced(c)
  }

  predicate Distinct(s: seq<string>) {
    forall i, j :: 0 <= i < j < |s| ==> s[i] != s[j]
  }

  /** The registry invariant: valid names, pairwise distinct. */
  predicate IsRegistry(s: seq<string>) {
    (forall i :: 0 <= i < |s| ==> IsCategoryName(s[i])) && Distinct(s)
  }

  /** `s.indexOf(x)`: the first position holding `x`, or -1. */
  function IndexOf(s: seq<string>, x: string): (k: int)
    ensures -1 <= k < |s|
    ensures k == -1 <==> x !in s
    ensures k >= 0 ==> s[k] == x && forall j :: 0 <= j < k ==> s[j] != x
  {
    if s == [] then -1
    else if s[0] == x then 0
    else
      var k := IndexOf(s[1..], x);
      if k == -1 then -1 else k + 1
  }

  /** The filter's test at position `i`: a non-empty name seen there first. */
  predicate KeptAt(arr: seq<string>, i: int)
    requires 0 <= i < |arr|
  {
    arr[i] != "" && IndexOf(arr, arr[i]) == i
  }

  /** `arr.filter((c, i, arr) => c && arr.indexOf(c) === i)` over the first `n`
      entries: each non-empty name once, in the order of first occurrence. */
  function FirstOccurrences(arr: seq<string>, n: nat): (r: seq<string>)
    requires n <= |arr|
    ensures Distinct(r)
    ensures forall x :: x in r <==> x != "" && x in arr[..n]
    ensures forall i :: 0 <= i < |r| ==> 0 <= IndexOf(arr, r[i]) < n
    ensures forall i, j :: 0 <= i < j < |r| ==> IndexOf(arr, r[i]) < IndexOf(arr, r[j])
    decreases n
  {
    if n == 0 then []
    else
      var r := FirstOccurrences(arr, n - 1);
      assert arr[..n] == arr[..n - 1] + [arr[n - 1]];
      if KeptAt(arr, n - 1) then
        assert arr[n - 1] !in arr[..n - 1];
        r + [arr[n - 1]]
      else
        assert arr[n - 1] != "" ==> arr[n - 1] in arr[..n - 1] by {
          if arr[n - 1] != "" {
            var k := IndexOf(arr, arr[n - 1]);
            assert arr[..n - 1][k] == arr[n - 1];
          }
        }
        r
  }

  /** A list that is already distinct and has no empty entry is kept whole. */
  lemma {:induction false} FirstOccurrencesOfDistinct(arr: seq<string>, n: nat)
    requires n <= |arr| && Distinct(arr)
    requires forall i :: 0 <= i < |arr| ==> arr[i] != ""
    ensures FirstOccurrences(arr, n) == arr[..n]
  {
    if n > 0 {
      FirstOccurrencesOfDistinct(arr, n - 1);
      var k := IndexOf(arr, arr[n - 1]);
      assert k == n - 1;
      assert arr[..n] == arr[..n - 1] + [arr[n - 1]];
    }
  }

  /** `raw.map(sanitizeCategoryName)`. */
  function SanitizeAll(raw: seq<JsValue>): (names: seq<string>)
    ensures |names| == |raw|
    ensures forall i :: 0 <= i < |raw| ==> names[i] == SanitizeCategoryName(raw[i])
  {
    if raw == [] then [] else [SanitizeCategoryName(raw[0])] + SanitizeAll(raw[1..])
  }

  /** The registry built at start-up from what storage held, in order of first
      appearance; `None` stands for a missing value or one that is not an array. */
  function LoadCategories(stored: Option<seq<JsValue>>): (r: seq<string>)
    ensures IsRegistry(r)
    ensures stored.None? ==> r == []
    ensures stored.Some? ==> forall x :: x in r <==> x != "" && x in SanitizeAll(stored.value)
    ensures stored.Some? ==> forall i, j :: 0 <= i < j < |r| ==>
      IndexOf(SanitizeAll(stored.value), r[i]) < IndexOf(SanitizeAll(stored.value), r[j])
  {
    match stored
    case None => []
    case Some(raw) =>
      var names := SanitizeAll(raw);
      var r := FirstOccurrences(names, |names|);
      assert names[..|names|] == names;
      assert forall i :: 0 <= i < |r| ==> IsCategoryName(r[i]) by {
        forall i | 0 <= i < |r| ensures IsCategoryName(r[i]) {
          var k := IndexOf(names, r[i]);
          assert names[k] == SanitizeCategoryName(raw[k]);
        }
      }
      r
  }

  /** The names as storage holds them: a JSON array of strings. */
  function Stored(cats: seq<string>): (raw: seq<JsValue>)
    ensures |raw| == |cats| && forall i :: 0 <= i < |cats| ==> raw[i] == JsString(cats[i])
  {
    if cats == [] then [] else [JsString(cats[0])] + Stored(cats[1..])
  }

  /** Storing a registry of trimmed names and loading it again gives it back. */
  lemma ReloadTrimmedRegistry(cats: seq<string>)
    requires IsRegistry(cats)
    requires forall i :: 0 <= i < |cats| ==> Trimmed(cats[i])
    ensures LoadCategories(Some(Stored(cats))) == cats
  {
    SanitizeAllTrimmed(cats);
    FirstOccurrencesOfDistinct(cats, |cats|);
    assert cats[..|cats|] == cats;
  }

  /** A stored name with a leading space (which `addCategory` can store, see
      `SanitizeCanLeaveLeadingSpace`) comes back renamed on the next load. */
  lemma ReloadRenamesSpacedName()
    ensures LoadCategories(Some(Stored([" a"]))) == ["a"]
  {
    StoredOne(" a");
    SanitizeNotIdempotent();
    LoadOne(JsString(" a"));
  }

  lemma StoredOne(c: string)
    ensures Stored([c]) == [JsString(c)]
  {
  }

  /** Loading a one-entry list keeps its sanitised name unless that is empty. */
  lemma LoadOne(v: JsValue)
    ensures var name := SanitizeCategoryName(v);
      LoadCategories(Some([v])) == if name == "" then [] else [name]
  {
    var name := SanitizeCategoryName(v);
    SanitizeAllOne(v);
    FirstOccurrencesOne(name);
  }

  lemma SanitizeAllOne(v: JsValue)
    ensures SanitizeAll([v]) == [SanitizeCategoryName(v)]
  {
    assert [v][1..] == [];
  }

  lemma FirstOccurrencesOne(x: string)
    ensures FirstOccurrences([x], 1) == if x == "" then [] else [x]
  {
    assert IndexOf([x], x) == 0;
    assert FirstOccurrences([x], 0) == [];
  }

  lemma SanitizeAllTrimmed(cats: seq<string>)
    requires IsRegistry(cats)
    requires forall i :: 0 <= i < |cats| ==> Trimmed(cats[i])
    ensures SanitizeAll(Stored(cats)) == cats
  {
    var names := SanitizeAll(Stored(cats));
    forall i | 0 <= i < |cats| ensures names[i] == cats[i] {
      assert IsCategoryName(cats[i]);
      assert IsSanitized(cats[i], CategoryNameMaxLength);
      SanitizeFixpoint(cats[i], CategoryNameMaxLength);
    }
  }

  /** How a category operation ended. */
  datatype Outcome =
    | Cancelled   // the prompt was dismissed
    | Invalid     // the name sanitised to nothing
    | Duplicate   // the name is already registered
    | Unchanged   // an edit that keeps the current name
    | Done

  datatype Change = Change(outcome: Outcome, categories: seq<string>)

  /** `addCategory`, given the prompt's answer (`None` when cancelled). */
  function Add(cats: seq<string>, response: Option<string>): (r: Change)
    ensures r.outcome in {Cancelled, Invalid, Duplicate, Done}
    ensures r.outcome == Cancelled <==> response.None?
    ensures response.Some? ==>
      var name := SanitizeCategoryName(JsString(response.value));
      && (r.outcome == Invalid <==> name == "")
      && (r.outcome == Duplicate <==> name != "" && name in cats)
      && (r.outcome == Done ==> IsCategoryName(name) && name !in cats && r.categories == cats + [name])
    ensures r.outcome != Done ==> r.categories == cats
    ensures IsRegistry(cats) ==> IsRegistry(r.categories)
  {
    if response.None? then Change(Cancelled, cats)
    else
      var name := SanitizeCategoryName(JsString(response.value));
      if name == "" then Change(Invalid, cats)
      else if name in cats then Change(Duplicate, cats)
      else Change(Done, cats + [name])
  }

  /** The same answer given twice adds at most one entry. */
  lemma AddTwice(cats: seq<string>, response: Option<string>)
    ensures var once := Add(cats, response).categories;
      Add(once, response).categories == once
  {
  }

  /** `addCategory` on an empty registry registers "Food". */
  lemma AddFood()
    ensures Add([], Some("Food")) == Change(Done, ["Food"])
  {
    SanitizeFood();
  }

  /** With "Food" registered, "Food" and " Food " are both duplicates. */
  lemma AddFoodTwice()
    ensures Add(["Food"], Some("Food")).outcome == Duplicate
    ensures Add(["Food"], Some(" Food ")).outcome == Duplicate
  {
    SanitizeTrimsName();
    SanitizeFood();
  }

  lemma SanitizeFood()
    ensures SanitizeCategoryName(JsString("Food")) == "Food"
  {
    FoodIsSanitized();
    SanitizeFixpoint("Food", CategoryNameMaxLength);
  }

  /** `editCategory(index)`, given the prompt's answer. */
  function Edit(cats: seq<string>, index: nat, response: Option<string>): (r: Change)
    requires index < |cats|
    ensures r.outcome == Cancelled <==> response.None?
    ensures |r.categories| == |cats|
    ensures response.Some? ==>
      var name := SanitizeCategoryName(JsString(response.value));
      && (r.outcome == Invalid <==> name == "")
      && (r.outcome == Unchanged <==> name != "" && name == cats[index])
      && (r.outcome == Duplicate <==> name != "" && name != cats[index] && name in cats)
      && (r.outcome == Done ==> IsCategoryName(name) && name !in cats && r.categories[index] == name)
    ensures forall j :: 0 <= j < |cats| && j != index ==> r.categories[j] == cats[j]
    ensures r.outcome != Done ==> r.categories == cats
    ensures IsRegistry(cats) ==> IsRegistry(r.categories)
  {
    if response.None? then Change(Cancelled, cats)
    else
      var current := cats[index];
      var name := SanitizeCategoryName(JsString(response.value));
      if name == "" then Change(Invalid, cats)
      else if name == current then Change(Unchanged, cats)
      else if name in cats then Change(Duplicate, cats)
      else Change(Done, cats[index := name])
  }

  /** `deleteCategory(index)`, given the confirmation; `splice` past the end
      removes nothing. */
  function Delete(cats: seq<string>, index: nat, confirmed: bool): (r: seq<string>)
    ensures !(confirmed && index < |cats|) ==> r == cats
    ensures confirmed && index < |cats| ==>
      && |r| == |cats| - 1
      && (forall j :: 0 <= j < index ==> r[j] == cats[j])
      && (forall j :: index <= j < |r| ==> r[j] == cats[j + 1])
      && multiset(r) + multiset{cats[index]} == multiset(cats)
    ensures IsRegistry(cats) && confirmed && index < |cats| ==>
      forall x :: x in r <==> x in cats && x != cats[index]
    ensures IsRegistry(cats) ==> IsRegistry(r)
  {
    if confirmed && index < |cats| then
      RemoveAtFacts(cats, index);
      cats[..index] + cats[index + 1..]
    else cats
  }

  lemma RemoveAtFacts(cats: seq<string>, index: nat)
    requires index < |cats|
    ensures var r := cats[..index] + cats[index + 1..];
      && multiset(r) + multiset{cats[index]} == multiset(cats)
      && (IsRegistry(cats) ==> IsRegistry(r) && forall x :: x in r <==> x in cats && x != cats[index])
  {
    var r := cats[..index] + cats[index + 1..];
    assert cats == cats[..index] + [cats[index]] + cats[index + 1..];
    if IsRegistry(cats) {
      RemoveAtMembers(cats, index);
      RemoveAtRegistry(cats, index);
    }
  }

  lemma RemoveAtMembers(cats: seq<string>, index: nat)
    requires index < |cats| && Distinct(cats)
    ensures forall x :: x in cats[..index] + cats[index + 1..] <==> x in cats && x != cats[index]
  {
    var r := cats[..index] + cats[index + 1..];
    forall x ensures x in r <==> x in cats && x != cats[index] {
      if x in r {
        var k :| 0 <= k < |r| && r[k] == x;
        if k < index { assert x == cats[k]; } else { assert x == cats[k + 1]; }
      }
      if x in cats && x != cats[index] {
        var k :| 0 <= k < |cats| && cats[k] == x;
        if k < index { assert r[k] == x; } else { assert r[k - 1] == x; }
      }
    }
  }

  lemma RemoveAtRegistry(cats: seq<string>, index: nat)
    requires index < |cats| && IsRegistry(cats)
    ensures IsRegistry(cats[..index] + cats[index + 1..])
  {
    var r := cats[..index] + cats[index + 1..];
    forall i | 0 <= i < |r| ensures r[i] == cats[if i < index then i else i + 1] {
    }
    forall i, j | 0 <= i < j < |r| ensures r[i] != r[j] {
      assert r[i] == cats[if i < index then i else i + 1];
      assert r[j] == cats[if j < index then j else j + 1];
    }
  }
}
