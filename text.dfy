/** Character classes and the string rewrites that the sanitisers chain together. */
module Text {

  /** The code points JavaScript's `trim()` removes and the regular expression `\s`
      matches: the ECMAScript WhiteSpace and LineTerminator characters. */
  predicate IsWhitespace(c: char) {
    || c == '\t' || c == '\n' || c == '\U{000B}' || c == '\U{000C}' || c == '\r' || c == ' '
    || c == '\U{00A0}' || c == '\U{1680}' || ('\U{2000}' <= c <= '\U{200A}')
    || c == '\U{2028}' || c == '\U{2029}' || c == '\U{202F}' || c == '\U{205F}'
    || c == '\U{3000}' || c == '\U{FEFF}'
  }

  predicate IsAngle(c: char) {
    c == '<' || c == '>'
  }

  predicate NoAngles(s: string) {
    forall i :: 0 <= i < |s| ==> !IsAngle(s[i])
  }

  /** Every whitespace character is a plain space, and no two whitespace characters touch. */
  predicate SingleSpaced(s: string) {
    && (forall i :: 0 <= i < |s| && IsWhitespace(s[i]) ==> s[i] == ' ')
    && (forall i :: 0 <= i < |s| - 1 ==> !(IsWhitespace(s[i]) && IsWhitespace(s[i + 1])))
  }

  /** Neither end of the string is whitespace. */
  predicate Trimmed(s: string) {
    s == [] || (!IsWhitespace(s[0]) && !IsWhitespace(s[|s| - 1]))
  }

  /** The leading whitespace of `s` removed: a suffix of `s`. */
  function TrimStart(s: string): (r: string)
    ensures |r| <= |s| && r == s[|s| - |r|..]
    ensures forall i :: 0 <= i < |s| - |r| ==> IsWhitespace(s[i])
    ensures r == [] || !IsWhitespace(r[0])
  {
    if s != [] && IsWhitespace(s[0]) then TrimStart(s[1..]) else s
  }

  /** The trailing whitespace of `s` removed: a prefix of `s`. */
  function TrimEnd(s: string): (r: string)
    ensures |r| <= |s| && r == s[..|r|]
    ensures forall i :: |r| <= i < |s| ==> IsWhitespace(s[i])
    ensures r == [] || !IsWhitespace(r[|r| - 1])
  {
    if s != [] && IsWhitespace(s[|s| - 1]) then TrimEnd(s[..|s| - 1]) else s
  }

  /** `String.prototype.trim`. */
  function Trim(s: string): (r: string)
    ensures |r| <= |s| && Trimmed(r)
    ensures r == [] <==> forall i :: 0 <= i < |s| ==> IsWhitespace(s[i])
    ensures Trimmed(s) ==> r == s
  {
    var t := TrimStart(s);
    assert t == [] ==> forall i :: 0 <= i < |s| ==> IsWhitespace(s[i]);
    TrimEnd(t)
  }

  /** The trimmed text is one contiguous slice of the input, with only
      whitespace before and after it. */
  lemma TrimIsSlice(s: string)
    ensures exists k ::
              && 0 <= k <= |s| && |Trim(s)| <= |s[k..]| && Trim(s) == s[k..][..|Trim(s)|]
              && (forall i :: 0 <= i < k ==> IsWhitespace(s[i]))
              && (forall i :: k + |Trim(s)| <= i < |s| ==> IsWhitespace(s[i]))
  {
    var t := TrimStart(s);
    var r := TrimEnd(t);
    var k := |s| - |t|;
    assert t == s[k..];
    forall i | k + |r| <= i < |s|
      ensures IsWhitespace(s[i])
    {
      assert s[i] == t[i - k];
    }
  }

  /** `s.slice(0, n)` when `s` is longer than `n`, otherwise `s`. */
  function Truncate(s: string, n: nat): (r: string)
    ensures |r| == if |s| <= n then |s| else n
    ensures r == s[..|r|]
  {
    if |s| > n then s[..n] else s
  }

  /** `s.replace(/[<>]/g, '')`. */
  function StripAngles(s: string): (r: string)
    ensures |r| <= |s| && NoAngles(r)
    ensures r == [] <==> forall i :: 0 <= i < |s| ==> IsAngle(s[i])
    ensures NoAngles(s) ==> r == s
  {
    if s == [] then []
    else if IsAngle(s[0]) then StripAngles(s[1..])
    else [s[0]] + StripAngles(s[1..])
  }

  /** `s.replace(/\s+/g, ' ')`: each maximal run of whitespace becomes one space. */
  function CollapseWhitespace(s: string): (r: string)
    ensures |r| <= |s| && SingleSpaced(r)
    ensures r == [] <==> s == []
    ensures NoAngles(s) ==> NoAngles(r)
    decreases |s|
  {
    if s == [] then []
    else if IsWhitespace(s[0]) then
      var rest := CollapseWhitespace(TrimStart(s));
      SingleSpacedCons(' ', rest);
      [' '] + rest
    else
      var rest := CollapseWhitespace(s[1..]);
      SingleSpacedCons(s[0], rest);
      [s[0]] + rest
  }

  /** Collapsing keeps whitespace at the start exactly where there was some. */
  lemma CollapseFirst(s: string)
    requires s != []
    ensures IsWhitespace(CollapseWhitespace(s)[0]) <==> IsWhitespace(s[0])
  {
  }

  /** Collapsing keeps whitespace at the end exactly where there was some. */
  lemma {:induction false} CollapseLast(s: string)
    requires s != []
    ensures var r := CollapseWhitespace(s);
      IsWhitespace(r[|r| - 1]) <==> IsWhitespace(s[|s| - 1])
    decreases |s|
  {
    if IsWhitespace(s[0]) {
      var t := TrimStart(s);
      assert CollapseWhitespace(s) == [' '] + CollapseWhitespace(t);
      if t == [] {
        assert IsWhitespace(s[|s| - 1]);
      } else {
        CollapseLast(t);
        LastOfSuffix(s, t);
        LastOfCons(' ', CollapseWhitespace(t));
      }
    } else {
      var t := s[1..];
      assert CollapseWhitespace(s) == [s[0]] + CollapseWhitespace(t);
      if t != [] {
        CollapseLast(t);
        LastOfSuffix(s, t);
        LastOfCons(s[0], CollapseWhitespace(t));
      }
    }
  }

  lemma LastOfCons(c: char, rest: string)
    requires rest != []
    ensures ([c] + rest)[|rest|] == rest[|rest| - 1]
  {
  }

  lemma LastOfSuffix(s: string, t: string)
    requires t != [] && |t| <= |s| && t == s[|s| - |t|..]
    ensures t[|t| - 1] == s[|s| - 1]
  {
  }

  lemma SingleSpacedCons(c: char, t: string)
    requires SingleSpaced(t)
    requires IsWhitespace(c) ==> c == ' ' && (t == [] || !IsWhitespace(t[0]))
    ensures SingleSpaced([c] + t)
  {
    var r := [c] + t;
    assert forall i :: 0 < i < |r| ==> r[i] == t[i - 1];
  }

  /** The characters of `s` that sanitising can never remove: those that are
      neither whitespace nor an angle bracket, in order. */
  function Visible(s: string): string {
    if s == [] then []
    else (if IsWhitespace(s[0]) || IsAngle(s[0]) then [] else [s[0]]) + Visible(s[1..])
  }

  lemma {:induction false} VisibleConcat(a: string, b: string)
    ensures Visible(a + b) == Visible(a) + Visible(b)
  {
    if a == [] {
      assert a + b == b;
    } else {
      var head := if IsWhitespace(a[0]) || IsAngle(a[0]) then [] else [a[0]];
      assert (a + b)[0] == a[0] && (a + b)[1..] == a[1..] + b;
      VisibleConcat(a[1..], b);
      calc {
        Visible(a + b);
        head + Visible(a[1..] + b);
        head + (Visible(a[1..]) + Visible(b));
        (head + Visible(a[1..])) + Visible(b);
      }
    }
  }

  lemma {:induction false} VisibleTrimStart(s: string)
    ensures Visible(TrimStart(s)) == Visible(s)
  {
    if s != [] && IsWhitespace(s[0]) {
      VisibleTrimStart(s[1..]);
    }
  }

  lemma {:induction false} VisibleTrimEnd(s: string)
    ensures Visible(TrimEnd(s)) == Visible(s)
  {
    if s != [] && IsWhitespace(s[|s| - 1]) {
      var init := s[..|s| - 1];
      VisibleTrimEnd(init);
      assert s == init + [s[|s| - 1]];
      VisibleConcat(init, [s[|s| - 1]]);
    }
  }

  lemma {:induction false} TrimStartConcat(a: string, b: string)
    ensures TrimStart(a + b) == if TrimStart(a) == [] then TrimStart(b) else TrimStart(a) + b
  {
    if a == [] {
      assert a + b == b;
    } else if IsWhitespace(a[0]) {
      assert (a + b)[0] == a[0] && (a + b)[1..] == a[1..] + b;
      TrimStartConcat(a[1..], b);
    }
  }

  /** Spaces around a string make no difference once it is trimmed. */
  lemma TrimPadded(x: string)
    ensures Trim([' '] + x + [' ']) == Trim(x)
  {
    TrimStartPadded(x);
    var t := TrimStart(x);
    if t != [] {
      TrimEndSpace(t);
    }
  }

  lemma TrimStartPadded(x: string)
    ensures TrimStart([' '] + x + [' ']) == if TrimStart(x) == [] then [] else TrimStart(x) + [' ']
  {
    var space := [' '];
    assert [' '] + x + [' '] == space + (x + space);
    TrimStartSpace(x + space);
    TrimStartSpace([]);
    assert space + [] == space;
    TrimStartConcat(x, space);
  }

  lemma TrimStartSpace(x: string)
    ensures TrimStart([' '] + x) == TrimStart(x)
  {
    assert ([' '] + x)[1..] == x;
  }

  /** One space in front of trimmed text is trimmed away. */
  lemma TrimSpaceCons(x: string)
    requires Trimmed(x)
    ensures Trim([' '] + x) == x
  {
    TrimStartSpace(x);
    if x != [] {
      assert TrimStart(x) == x;
    }
  }

  lemma TrimEndSpace(t: string)
    ensures TrimEnd(t + [' ']) == TrimEnd(t)
  {
    assert (t + [' '])[..|t|] == t;
  }

  /** Trimming removes only whitespace. */
  lemma VisibleTrim(s: string)
    ensures Visible(Trim(s)) == Visible(s)
  {
    VisibleTrimStart(s);
    VisibleTrimEnd(TrimStart(s));
  }

  /** Stripping angle brackets keeps every character other than whitespace,
      `<` and `>`, in order (`StripAnglesConcat` shows whitespace is kept too). */
  lemma {:induction false} VisibleStripAngles(s: string)
    ensures Visible(StripAngles(s)) == Visible(s)
  {
    if s != [] {
      VisibleStripAngles(s[1..]);
      if !IsAngle(s[0]) {
        VisibleConcat([s[0]], StripAngles(s[1..]));
      }
    }
  }

  /** Stripping works character by character: it keeps every character but
      `<` and `>`, whitespace included. */
  lemma {:induction false} StripAnglesConcat(a: string, b: string)
    ensures StripAngles(a + b) == StripAngles(a) + StripAngles(b)
  {
    if a == [] {
      assert a + b == b;
    } else {
      var head := if IsAngle(a[0]) then [] else [a[0]];
      StripAnglesConcat(a[1..], b);
      StripUnfold(a, b);
      StripUnfold(a, []);
      assert a + [] == a && a[1..] + [] == a[1..];
      Associate(head, StripAngles(a[1..]), StripAngles(b));
    }
  }

  lemma StripUnfold(a: string, b: string)
    requires a != []
    ensures StripAngles(a + b) == (if IsAngle(a[0]) then [] else [a[0]]) + StripAngles(a[1..] + b)
  {
    assert (a + b)[0] == a[0] && (a + b)[1..] == a[1..] + b;
  }

  lemma StripAnglesChar(c: char)
    ensures StripAngles([c]) == if IsAngle(c) then [] else [c]
  {
    assert [c][1..] == [];
  }

  /** A run of whitespace, of any length and kind, counts as one space. */
  lemma CollapseRun(a: string, w: string, b: string)
    requires w != [] && forall i :: 0 <= i < |w| ==> IsWhitespace(w[i])
    ensures CollapseWhitespace(a + w + b) == CollapseWhitespace(a + [' '] + b)
  {
    RunHead(w, b);
    RunHead([' '], b);
    Associate(a, w, b);
    Associate(a, [' '], b);
    CollapseAfterRun(a, w + b, [' '] + b);
  }

  lemma RunHead(w: string, b: string)
    requires w != [] && forall i :: 0 <= i < |w| ==> IsWhitespace(w[i])
    ensures w + b != [] && IsWhitespace((w + b)[0]) && TrimStart(w + b) == TrimStart(b)
  {
    AllWhitespaceTrimStart(w);
    TrimStartConcat(w, b);
  }

  lemma Associate(a: string, w: string, b: string)
    ensures a + w + b == a + (w + b)
  {
  }

  /** What follows `a` matters to collapsing only past its leading whitespace. */
  lemma {:induction false} CollapseAfterRun(a: string, x: string, y: string)
    requires x != [] && IsWhitespace(x[0]) && y != [] && IsWhitespace(y[0])
    requires TrimStart(x) == TrimStart(y)
    ensures CollapseWhitespace(a + x) == CollapseWhitespace(a + y)
    decreases |a|
  {
    if a == [] {
      assert a + x == x && a + y == y;
    } else if !IsWhitespace(a[0]) {
      var t := a[1..];
      CollapseAfterRun(t, x, y);
      CollapseOther(a, x);
      CollapseOther(a, y);
    } else {
      var t := TrimStart(a);
      TrimStartLeaves(a);
      CollapseSpace(a, x);
      CollapseSpace(a, y);
      TrimStartConcat(a, x);
      TrimStartConcat(a, y);
      if t != [] {
        CollapseAfterRun(t, x, y);
      }
    }
  }

  lemma CollapseOther(a: string, x: string)
    requires a != [] && !IsWhitespace(a[0])
    ensures CollapseWhitespace(a + x) == [a[0]] + CollapseWhitespace(a[1..] + x)
  {
    assert (a + x)[0] == a[0] && (a + x)[1..] == a[1..] + x;
  }

  lemma CollapseSpace(a: string, x: string)
    requires a != [] && IsWhitespace(a[0])
    ensures CollapseWhitespace(a + x) == [' '] + CollapseWhitespace(TrimStart(a + x))
  {
    assert (a + x)[0] == a[0];
  }

  lemma TrimStartLeaves(a: string)
    requires a != [] && IsWhitespace(a[0])
    ensures |TrimStart(a)| < |a|
  {
  }

  lemma {:induction false} AllWhitespaceTrimStart(w: string)
    requires forall i :: 0 <= i < |w| ==> IsWhitespace(w[i])
    ensures TrimStart(w) == []
  {
    if w != [] {
      assert forall i :: 0 <= i < |w[1..]| ==> w[1..][i] == w[i + 1];
      AllWhitespaceTrimStart(w[1..]);
    }
  }

  /** Collapsing whitespace keeps every character other than whitespace, `<` and `>`, in order. */
  lemma {:induction false} VisibleCollapse(s: string)
    ensures Visible(CollapseWhitespace(s)) == Visible(s)
    decreases |s|
  {
    if s != [] {
      if IsWhitespace(s[0]) {
        var t := TrimStart(s);
        VisibleCollapse(t);
        VisibleTrimStart(s);
        VisibleConcat([' '], CollapseWhitespace(t));
      } else {
        VisibleCollapse(s[1..]);
        VisibleConcat([s[0]], CollapseWhitespace(s[1..]));
      }
    }
  }

  /** A string that is already single-spaced is left as it is. */
  lemma {:induction false} CollapseFixpoint(s: string)
    requires SingleSpaced(s)
    ensures CollapseWhitespace(s) == s
  {
    if s != [] {
      var tail := s[1..];
      SingleSpacedTail(s);
      CollapseFixpoint(tail);
      if IsWhitespace(s[0]) {
        assert s[0] == ' ';
        assert tail == [] || !IsWhitespace(tail[0]) by {
          if tail != [] { assert tail[0] == s[1]; }
        }
        assert TrimStart(s) == TrimStart(tail) == tail;
      }
      assert s == [s[0]] + tail;
    }
  }

  lemma SingleSpacedTail(s: string)
    requires s != [] && SingleSpaced(s)
    ensures SingleSpaced(s[1..])
  {
    var tail := s[1..];
    forall i | 0 <= i < |tail| - 1
      ensures !(IsWhitespace(tail[i]) && IsWhitespace(tail[i + 1]))
    {
      assert tail[i] == s[i + 1] && tail[i + 1] == s[i + 2];
    }
    forall i | 0 <= i < |tail| && IsWhitespace(tail[i])
      ensures tail[i] == ' '
    {
      assert tail[i] == s[i + 1];
    }
  }
}
