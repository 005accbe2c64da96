/** doctest's name filters: an iterative matcher that remembers one star, against the meaning of the
    pattern. */
module Wildcmp {
  const NUL := '\0'

  function Lower(c: char): char {
    if 'A' <= c <= 'Z' then (c as int + 32) as char else c
  }

  predicate Same(w: char, c: char, caseSensitive: bool) {
    if caseSensitive then w == c else Lower(w) == Lower(c)
  }

  /** The character w of a pattern, not a star, accepts c. */
  predicate Accepts(w: char, c: char, caseSensitive: bool) {
    Same(w, c, caseSensitive) || w == '?'
  }

  /** What a pattern means: a star stands for any text, a question mark for any one character. */
  ghost predicate Match(s: string, w: string, caseSensitive: bool)
    decreases |w|
  {
    if w == "" then s == ""
    else if w[0] == '*' then exists k :: 0 <= k <= |s| && Match(s[k..], w[1..], caseSensitive)
    else s != "" && Accepts(w[0], s[0], caseSensitive) && Match(s[1..], w[1..], caseSensitive)
  }

  // ----- what matches, in other words

  /** Nothing in the pattern stands for more than itself. */
  predicate Plain(w: string) {
    forall i :: 0 <= i < |w| ==> w[i] != '*' && w[i] != '?'
  }

  /** The same character, or one letter in its two cases. */
  ghost predicate Alike(a: char, b: char) {
    a == b || exists k: nat :: k < 26 && Cases(a, b, k)
  }

  predicate Cases(a: char, b: char, k: nat) {
    || (a as int == 'A' as int + k && b as int == 'a' as int + k)
    || (a as int == 'a' as int + k && b as int == 'A' as int + k)
  }

  /** Equal texts but for the case of letters. */
  ghost predicate Recased(s: string, t: string) {
    |s| == |t| && forall i :: 0 <= i < |s| ==> Alike(s[i], t[i])
  }

  lemma AlikeLower(a: char, b: char)
    ensures Alike(a, b) <==> Lower(a) == Lower(b)
  {
    if 'A' <= a <= 'Z' {
      assert Cases(a, Lower(a), (a as int - 'A' as int) as nat);
    }
    if 'A' <= b <= 'Z' {
      assert Cases(Lower(b), b, (b as int - 'A' as int) as nat);
    }
  }

  lemma {:induction false} PlainSensitive(s: string, w: string)
    requires Plain(w)
    ensures Match(s, w, true) <==> s == w
    decreases |w|
  {
    if w == "" || s == "" {
    } else {
      PlainSensitive(s[1..], w[1..]);
      assert s == [s[0]] + s[1..] && w == [w[0]] + w[1..];
    }
  }

  lemma {:induction false} PlainInsensitive(s: string, w: string)
    requires Plain(w)
    ensures Match(s, w, false) <==> Recased(s, w)
    decreases |w|
  {
    if w == "" || s == "" {
    } else {
      PlainInsensitive(s[1..], w[1..]);
      AlikeLower(s[0], w[0]);
      RecasedFirst(s, w);
    }
  }

  lemma RecasedFirst(s: string, w: string)
    requires s != "" && w != ""
    ensures Recased(s, w) <==> Alike(s[0], w[0]) && Recased(s[1..], w[1..])
  {
    hide Alike;
    if Alike(s[0], w[0]) && Recased(s[1..], w[1..]) {
      forall i | 0 <= i < |s|
        ensures Alike(s[i], w[i])
      {
        if i > 0 {
          assert Alike(s[1..][i - 1], w[1..][i - 1]);
        }
      }
    }
  }

  lemma PlainMeans(s: string, w: string, caseSensitive: bool)
    ensures Plain(w) ==> (Match(s, w, caseSensitive) <==> if caseSensitive then s == w else Recased(s, w))
  {
    if Plain(w) {
      PlainSensitive(s, w);
      PlainInsensitive(s, w);
    }
  }

  /** A question mark takes one character, whichever it is; a star takes any text. */
  lemma Wildcards(s: string, caseSensitive: bool)
    ensures Match(s, "?", caseSensitive) <==> |s| == 1
    ensures Match(s, "*", caseSensitive)
  {
    assert "?"[1..] == "" && "*"[1..] == "";
    assert Match(s[|s|..], "", caseSensitive);
  }

  /** One pattern after another takes a text that falls into two. */
  lemma {:induction false} Sequence(s: string, u: string, w: string, caseSensitive: bool)
    ensures Match(s, u + w, caseSensitive)
      <==> exists k :: 0 <= k <= |s| && Match(s[..k], u, caseSensitive) && Match(s[k..], w, caseSensitive)
    decreases |u|
  {
    if u == "" {
      assert u + w == w && s[0..] == s && s[..0] == "";
    } else {
      assert (u + w)[1..] == u[1..] + w;
      if u[0] == '*' {
        forall j: nat | j <= |s|
          ensures Match(s[j..], u[1..] + w, caseSensitive) <==> Splits(s[j..], u[1..], w, caseSensitive)
        {
          Sequence(s[j..], u[1..], w, caseSensitive);
        }
        StarSplits(s, u, w, caseSensitive);
      } else if s != "" {
        Sequence(s[1..], u[1..], w, caseSensitive);
        CharSplits(s, u, w, caseSensitive);
      } else {
        assert s[0..] == "" && s[..0] == "";
      }
    }
  }

  /** The text falls into two parts, one for each pattern. */
  ghost predicate Splits(s: string, u: string, w: string, caseSensitive: bool) {
    exists k :: 0 <= k <= |s| && Match(s[..k], u, caseSensitive) && Match(s[k..], w, caseSensitive)
  }

  lemma StarSplits(s: string, u: string, w: string, caseSensitive: bool)
    requires u != "" && u[0] == '*'
    ensures Splits(s, u, w, caseSensitive)
      <==> exists j: nat :: j <= |s| && Splits(s[j..], u[1..], w, caseSensitive)
  {
    if Splits(s, u, w, caseSensitive) {
      var k: nat :| k <= |s| && Match(s[..k], u, caseSensitive) && Match(s[k..], w, caseSensitive);
      var j: nat :| j <= k && Match(s[..k][j..], u[1..], caseSensitive);
      assert s[j..][..k - j] == s[..k][j..] && s[j..][k - j..] == s[k..];
      assert Splits(s[j..], u[1..], w, caseSensitive);
    }
    if j: nat :| j <= |s| && Splits(s[j..], u[1..], w, caseSensitive) {
      var k: nat :| k <= |s[j..]| && Match(s[j..][..k], u[1..], caseSensitive) && Match(s[j..][k..], w, caseSensitive);
      assert s[j..][..k] == s[..j + k][j..] && s[j..][k..] == s[j + k..];
      assert Match(s[..j + k], u, caseSensitive);
    }
  }

  lemma CharSplits(s: string, u: string, w: string, caseSensitive: bool)
    requires u != "" && u[0] != '*' && s != ""
    ensures Splits(s, u, w, caseSensitive)
      <==> Accepts(u[0], s[0], caseSensitive) && Splits(s[1..], u[1..], w, caseSensitive)
  {
    if Splits(s, u, w, caseSensitive) {
      var k: nat :| k <= |s| && Match(s[..k], u, caseSensitive) && Match(s[k..], w, caseSensitive);
      assert s[..k] != "" && s[..k][1..] == s[1..][..k - 1] && s[1..][k - 1..] == s[k..];
    }
    if Accepts(u[0], s[0], caseSensitive) && Splits(s[1..], u[1..], w, caseSensitive) {
      var k: nat :| k <= |s[1..]| && Match(s[1..][..k], u[1..], caseSensitive) && Match(s[1..][k..], w, caseSensitive);
      assert s[..k + 1][1..] == s[1..][..k] && s[k + 1..] == s[1..][k..];
      assert Match(s[..k + 1], u, caseSensitive);
    }
  }

  /** Without case sensitivity, letters of text and pattern may change case. */
  lemma {:induction false} CaseIrrelevant(s: string, t: string, w: string, x: string)
    requires Recased(s, t) && Recased(w, x)
    ensures Match(s, w, false) <==> Match(t, x, false)
    decreases |w|
  {
    if w == "" {
    } else {
      RecasedFirst(w, x);
      WildcardAlone(w[0], x[0]);
      if w[0] == '*' {
        forall k | 0 <= k <= |s|
          ensures Match(s[k..], w[1..], false) <==> Match(t[k..], x[1..], false)
        {
          RecasedRest(s, t, k);
          CaseIrrelevant(s[k..], t[k..], w[1..], x[1..]);
        }
        assert Match(s, w, false) <==> exists k :: 0 <= k <= |s| && Match(s[k..], w[1..], false);
        assert Match(t, x, false) <==> exists k :: 0 <= k <= |t| && Match(t[k..], x[1..], false);
      } else if s != "" {
        RecasedFirst(s, t);
        AlikeLower(s[0], t[0]);
        AlikeLower(w[0], x[0]);
        CaseIrrelevant(s[1..], t[1..], w[1..], x[1..]);
      }
    }
  }

  /** A star or a question mark has no other case. */
  lemma WildcardAlone(a: char, b: char)
    requires Alike(a, b)
    ensures (a == '*' <==> b == '*') && (a == '?' <==> b == '?')
  {
  }

  lemma RecasedRest(s: string, t: string, k: nat)
    requires Recased(s, t) && k <= |s|
    ensures Recased(s[k..], t[k..])
  {
    hide Alike;
    forall i | 0 <= i < |s[k..]|
      ensures Alike(s[k..][i], t[k..][i])
    {
      assert Alike(s[k + i], t[k + i]);
    }
  }

  /** What matches with case sensitivity matches without. */
  lemma {:induction false} SensitiveIsStricter(s: string, w: string)
    requires Match(s, w, true)
    ensures Match(s, w, false)
    decreases |w|
  {
    if w == "" {
    } else if w[0] == '*' {
      var k: nat :| k <= |s| && Match(s[k..], w[1..], true);
      SensitiveIsStricter(s[k..], w[1..]);
    } else {
      SensitiveIsStricter(s[1..], w[1..]);
    }
  }

  // ----- strings in memory

  predicate CString(s: string) {
    forall i :: 0 <= i < |s| ==> s[i] != NUL
  }

  function At(s: string, i: nat): char {
    if i < |s| then s[i] else NUL
  }

  /** The pattern without stars w accepts the text s of the same length. */
  predicate Literally(s: string, w: string, caseSensitive: bool) {
    |s| == |w| && forall i :: 0 <= i < |w| ==> w[i] != '*' && Accepts(w[i], s[i], caseSensitive)
  }

  /** Some ending of s matches w. */
  ghost predicate Floats(s: string, w: string, caseSensitive: bool) {
    exists k :: 0 <= k <= |s| && Match(s[k..], w, caseSensitive)
  }

  /** A part without stars takes one character for each of its own. */
  lemma {:induction false} LiteralFirst(s: string, p: string, w: string, caseSensitive: bool)
    requires forall i :: 0 <= i < |p| ==> p[i] != '*'
    ensures Match(s, p + w, caseSensitive)
      <==> |p| <= |s| && Literally(s[..|p|], p, caseSensitive) && Match(s[|p|..], w, caseSensitive)
    decreases |p|
  {
    if p == "" {
      assert p + w == w;
      assert s[0..] == s;
    } else {
      assert (p + w)[1..] == p[1..] + w;
      if s != "" {
        LiteralFirst(s[1..], p[1..], w, caseSensitive);
        if |p| <= |s| {
          assert s[1..][..|p| - 1] == s[..|p|][1..];
          assert s[1..][|p| - 1..] == s[|p|..];
        }
      }
    }
  }

  lemma {:induction false} StarsMatchNothing(w: string, caseSensitive: bool)
    ensures Match("", w, caseSensitive) <==> forall i :: 0 <= i < |w| ==> w[i] == '*'
    decreases |w|
  {
    if w != "" && w[0] == '*' {
      StarsMatchNothing(w[1..], caseSensitive);
      assert ""[0..] == "";
      assert forall i :: 1 <= i < |w| ==> w[i] == w[1..][i - 1];
      assert Match("", w, caseSensitive) <==> Match(""[0..], w[1..], caseSensitive);
    }
  }

  /** A part that matches literally at its earliest place, followed by a star, can be settled there:
      whatever a later place would allow, this one does too. */
  lemma EarliestIsEnough(s: string, p: string, w: string, caseSensitive: bool)
    requires |p| <= |s| && Literally(s[..|p|], p, caseSensitive)
    ensures Floats(s, p + "*" + w, caseSensitive) <==> Floats(s[|p|..], w, caseSensitive)
  {
    assert p + "*" + w == p + ("*" + w);
    assert ("*" + w)[1..] == w;
    if Floats(s, p + "*" + w, caseSensitive) {
      var k :| 0 <= k <= |s| && Match(s[k..], p + "*" + w, caseSensitive);
      LiteralFirst(s[k..], p, "*" + w, caseSensitive);
      var t := s[k..][|p|..];
      var j :| 0 <= j <= |t| && Match(t[j..], w, caseSensitive);
      assert t[j..] == s[|p|..][k + j..];
    }
    if Floats(s[|p|..], w, caseSensitive) {
      LiteralFirst(s, p, "*" + w, caseSensitive);
      assert Match(s[|p|..], "*" + w, caseSensitive);
      assert s[0..] == s;
    }
  }

  /** A part that fails at its earliest place has to be tried from the next one. */
  lemma NextPlace(s: string, w: string, caseSensitive: bool)
    requires s != "" && !Match(s, w, caseSensitive)
    ensures Floats(s, w, caseSensitive) <==> Floats(s[1..], w, caseSensitive)
  {
    if Floats(s, w, caseSensitive) {
      var k :| 0 <= k <= |s| && Match(s[k..], w, caseSensitive);
      assert s[0..] == s;
      assert s[k..] == s[1..][k - 1..];
    }
    if Floats(s[1..], w, caseSensitive) {
      var k :| 0 <= k <= |s| - 1 && Match(s[1..][k..], w, caseSensitive);
      assert s[1..][k..] == s[k + 1..];
    }
  }

  /** At the end of the text only stars may be left over. */
  lemma AtEnd(s: string, w: string, caseSensitive: bool)
    requires |s| <= |w| && Literally(s, w[..|s|], caseSensitive)
    ensures Floats(s, w, caseSensitive) <==> Match("", w[|s|..], caseSensitive)
  {
    var p, rest := w[..|s|], w[|s|..];
    assert w == p + rest;
    forall k | 0 <= k <= |s|
      ensures Match(s[k..], w, caseSensitive) <==> k == 0 && Match("", rest, caseSensitive)
    {
      LiteralFirst(s[k..], p, rest, caseSensitive);
      if k == 0 {
        assert s[0..][..|p|] == s;
        assert s[0..][|p|..] == "";
      }
    }
    if Match("", rest, caseSensitive) {
      assert Match(s[0..], w, caseSensitive);
    }
  }

  /** The pattern from wild on, tried from the text at str. */
  ghost predicate Reduced(s: string, w: string, caseSensitive: bool, str: nat, wild: nat)
    requires str <= |s| && wild <= |w|
  {
    Match(s, w, caseSensitive) <==> Match(s[str..], w[wild..], caseSensitive)
  }

  /** After a star, up to mp: the part w[mp..wild] has been found at s[start..str], the first place
      that is still open. */
  ghost predicate Searching(s: string, w: string, caseSensitive: bool, start: nat, mp: nat, str: nat, wild: nat)
    requires start <= str <= |s| && mp <= wild <= |w|
  {
    && (Match(s, w, caseSensitive) <==> Floats(s[start..], w[mp..], caseSensitive))
    && Literally(s[start..str], w[mp..wild], caseSensitive)
  }

  lemma OneMore(s: string, w: string, caseSensitive: bool, str: nat, wild: nat)
    requires str < |s| && wild < |w| && w[wild] != '*' && Reduced(s, w, caseSensitive, str, wild)
    ensures if Accepts(w[wild], s[str], caseSensitive) then Reduced(s, w, caseSensitive, str + 1, wild + 1)
            else !Match(s, w, caseSensitive)
  {
    assert s[str..][1..] == s[str + 1..] && w[wild..][1..] == w[wild + 1..];
  }

  lemma FirstStar(s: string, w: string, caseSensitive: bool, str: nat, wild: nat)
    requires str <= |s| && wild < |w| && w[wild] == '*' && Reduced(s, w, caseSensitive, str, wild)
    ensures Searching(s, w, caseSensitive, str, wild + 1, str, wild + 1)
  {
    assert w[wild..][1..] == w[wild + 1..];
  }

  lemma NextStar(s: string, w: string, caseSensitive: bool, start: nat, mp: nat, str: nat, wild: nat)
    requires start <= str <= |s| && mp <= wild < |w| && w[wild] == '*'
    requires Searching(s, w, caseSensitive, start, mp, str, wild)
    ensures Searching(s, w, caseSensitive, str, wild + 1, str, wild + 1)
  {
    hide Match, Floats;
    assert w[mp..] == w[mp..wild] + "*" + w[wild + 1..];
    assert s[start..][..wild - mp] == s[start..str];
    EarliestIsEnough(s[start..], w[mp..wild], w[wild + 1..], caseSensitive);
    assert s[start..][wild - mp..] == s[str..];
  }

  lemma FinalStar(s: string, w: string, caseSensitive: bool, start: nat, mp: nat, str: nat)
    requires start <= str <= |s| && mp == |w| && Searching(s, w, caseSensitive, start, mp, str, |w|)
    ensures Match(s, w, caseSensitive)
  {
    var t := s[start..];
    assert t[|t|..] == "";
    assert Match(t[|t|..], w[mp..], caseSensitive);
  }

  lemma Mismatch(s: string, w: string, caseSensitive: bool, start: nat, mp: nat, str: nat, wild: nat)
    requires start <= str < |s| && mp <= wild <= |w| && Searching(s, w, caseSensitive, start, mp, str, wild)
    requires wild < |w| ==> w[wild] != '*' && !Accepts(w[wild], s[str], caseSensitive)
    ensures Searching(s, w, caseSensitive, start + 1, mp, start + 1, mp)
  {
    var t := s[start..];
    assert w[mp..] == w[mp..wild] + w[wild..];
    assert t[..wild - mp] == s[start..str] && t[wild - mp..] == s[str..];
    LiteralFirst(t, w[mp..wild], w[wild..], caseSensitive);
    NextPlace(t, w[mp..], caseSensitive);
    assert t[1..] == s[start + 1..];
  }

  lemma TextDone(s: string, w: string, caseSensitive: bool, start: nat, mp: nat, wild: nat)
    requires start <= |s| && mp <= wild <= |w| && Searching(s, w, caseSensitive, start, mp, |s|, wild)
    ensures Match(s, w, caseSensitive) <==> Match("", w[wild..], caseSensitive)
  {
    assert w[mp..][..|s| - start] == w[mp..wild] && w[mp..][|s| - start..] == w[wild..];
    assert s[start..|s|] == s[start..];
    AtEnd(s[start..], w[mp..], caseSensitive);
  }

  /** The matcher: going back only ever to the latest star. */
  method WildCmp(s: string, w: string, caseSensitive: bool) returns (r: int)
    requires CString(s) && CString(w)
    ensures r in {0, 1} && (r == 1 <==> Match(s, w, caseSensitive))
    ensures Plain(w) ==> (r == 1 <==> if caseSensitive then s == w else Recased(s, w))
  {
    PlainMeans(s, w, caseSensitive);
    hide Match, Floats, Literally, Searching, Reduced, Plain, Recased;
    var str, wild := 0, 0;
    var cp, mp := str, wild;
    Begin(s, w, caseSensitive);
    while At(s, str) != NUL && At(w, wild) != '*'
      invariant str <= |s| && wild <= |w| && Reduced(s, w, caseSensitive, str, wild)
      decreases |s| - str
    {
      if wild < |w| {
        OneMore(s, w, caseSensitive, str, wild);
      } else {
        PatternDone(s, w, caseSensitive, str);
      }
      if !Same(At(w, wild), At(s, str), caseSensitive) && At(w, wild) != '?' {
        return 0;
      }
      wild := wild + 1;
      str := str + 1;
    }

    ghost var starred := false;
    while At(s, str) != NUL
      invariant str <= |s| && mp <= wild <= |w|
      invariant !starred ==> Reduced(s, w, caseSensitive, str, wild) && (str < |s| ==> At(w, wild) == '*')
      invariant starred ==> 1 <= cp <= str + 1 && Searching(s, w, caseSensitive, cp - 1, mp, str, wild)
      decreases |w| - mp, |s| - cp, |s| - str
    {
      if At(w, wild) == '*' {
        if starred {
          NextStar(s, w, caseSensitive, cp - 1, mp, str, wild);
        } else {
          FirstStar(s, w, caseSensitive, str, wild);
        }
        wild := wild + 1;
        if At(w, wild) == NUL {
          FinalStar(s, w, caseSensitive, str, wild, str);
          return 1;
        }
        mp := wild;
        cp := str + 1;
        starred := true;
      } else if Same(At(w, wild), At(s, str), caseSensitive) || At(w, wild) == '?' {
        Longer(s, w, caseSensitive, cp - 1, mp, str, wild);
        wild := wild + 1;
        str := str + 1;
      } else {
        Mismatch(s, w, caseSensitive, cp - 1, mp, str, wild);
        wild := mp;
        str, cp := cp, cp + 1;
      }
    }
    if starred {
      TextDone(s, w, caseSensitive, cp - 1, mp, wild);
    } else {
      assert s[|s|..] == "";
      Ended(s, w, caseSensitive, wild);
    }
    ghost var rest := w[wild..];
    StarsMatchNothing(rest, caseSensitive);
    while At(w, wild) == '*'
      invariant |w| - |rest| <= wild <= |w|
      invariant forall i :: |w| - |rest| <= i < wild ==> w[i] == '*'
      decreases |w| - wild
    {
      wild := wild + 1;
    }
    assert wild < |w| ==> rest[wild - (|w| - |rest|)] != '*';
    r := if At(w, wild) == NUL then 1 else 0;
  }

  lemma Begin(s: string, w: string, caseSensitive: bool)
    ensures Reduced(s, w, caseSensitive, 0, 0)
  {
    assert s[0..] == s && w[0..] == w;
  }

  lemma PatternDone(s: string, w: string, caseSensitive: bool, str: nat)
    requires str < |s| && Reduced(s, w, caseSensitive, str, |w|)
    ensures !Match(s, w, caseSensitive)
  {
    assert w[|w|..] == "";
  }

  lemma Longer(s: string, w: string, caseSensitive: bool, start: nat, mp: nat, str: nat, wild: nat)
    requires start <= str < |s| && mp <= wild < |w| && Searching(s, w, caseSensitive, start, mp, str, wild)
    requires w[wild] != '*' && Accepts(w[wild], s[str], caseSensitive)
    ensures Searching(s, w, caseSensitive, start, mp, str + 1, wild + 1)
  {
    assert s[start..str + 1] == s[start..str] + [s[str]];
    assert w[mp..wild + 1] == w[mp..wild] + [w[wild]];
  }

  lemma Ended(s: string, w: string, caseSensitive: bool, wild: nat)
    requires wild <= |w| && Reduced(s, w, caseSensitive, |s|, wild)
    ensures Match(s, w, caseSensitive) <==> Match("", w[wild..], caseSensitive)
  {
    assert s[|s|..] == "";
  }

  /** Some filter accepts the name; without filters, as the caller says. */
  method MatchesAny(name: string, filters: seq<string>, matchEmpty: bool, caseSensitive: bool) returns (r: bool)
    requires CString(name) && forall i :: 0 <= i < |filters| ==> CString(filters[i])
    ensures r <==> if filters == [] then matchEmpty
                   else exists i :: 0 <= i < |filters| && Match(name, filters[i], caseSensitive)
  {
    if filters == [] && matchEmpty {
      return true;
    }
    for i := 0 to |filters|
      invariant forall j :: 0 <= j < i ==> !Match(name, filters[j], caseSensitive)
    {
      var c := WildCmp(name, filters[i], caseSensitive);
      if c != 0 {
        return true;
      }
    }
    return false;
  }
}
