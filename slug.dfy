/**
 * `slugify` from assets/js/series-menu.js: trim, lower-case, `&` to `and`,
 * runs of white space or `/` to one `-`, drop every character outside
 * `[\w\-가-힣]`, and finally runs of `-` to one `-`.
 */
module Slug {
  import opened Options
  import JsText

  /** The Hangul syllables U+AC00 to U+D7A3, the range `가-힣`. */
  predicate IsHangulSyllable(c: char) {
    0xAC00 <= c as int <= 0xD7A3
  }

  /** The regular-expression class `\w`: ASCII letters, digits and `_`. */
  predicate IsWordChar(c: char) {
    ('A' <= c <= 'Z') || ('a' <= c <= 'z') || ('0' <= c <= '9') || c == '_'
  }

  /** The characters the filter step keeps: `[\w\-가-힣]`. */
  predicate IsKept(c: char) {
    IsWordChar(c) || c == '-' || IsHangulSyllable(c)
  }

  /** The alphabet of a slug: the kept characters except upper-case ASCII. */
  predicate IsSlugChar(c: char) {
    IsKept(c) && !JsText.IsAsciiUpper(c)
  }

  /** The class `[\s\/]`. */
  predicate IsSeparator(c: char) {
    JsText.IsSpace(c) || c == '/'
  }

  predicate IsDash(c: char) {
    c == '-'
  }

  predicate IsNotUpper(c: char) {
    !JsText.IsAsciiUpper(c)
  }

  predicate NoUpper(s: string) {
    forall i :: 0 <= i < |s| ==> IsNotUpper(s[i])
  }

  /** No two neighbouring characters of `s` both satisfy `p`. */
  predicate NoAdjacent(s: string, p: char -> bool) {
    forall i, j :: 0 <= i && j == i + 1 < |s| ==> !(p(s[i]) && p(s[j]))
  }

  predicate NoDoubleDash(s: string) {
    NoAdjacent(s, IsDash)
  }

  /** Every `&` spelled out as `and`. */
  function ExpandAmpersands(s: string): (r: string)
    ensures '&' !in r
  {
    if s == [] then []
    else (if s[0] == '&' then "and" else [s[0]]) + ExpandAmpersands(s[1..])
  }

  /** Text without `&` is left as it is. */
  lemma {:induction false} ExpandIdentity(s: string)
    requires '&' !in s
    ensures ExpandAmpersands(s) == s
  {
    if s != [] {
      assert '&' !in s[1..];
      ExpandIdentity(s[1..]);
      assert [s[0]] + s[1..] == s;
    }
  }

  /** Spelling out `&` brings in no upper case. */
  lemma {:induction false} ExpandKeepsLowerCase(s: string)
    requires NoUpper(s)
    ensures NoUpper(ExpandAmpersands(s))
  {
    if s != [] {
      assert NoUpper(s[1..]);
      ExpandKeepsLowerCase(s[1..]);
    }
  }

  /** One character: `&` becomes `and`, anything else stays. */
  lemma ExpandChar(c: char)
    ensures ExpandAmpersands([c]) == if c == '&' then "and" else [c]
  {
    assert [c][1..] == [];
  }

  /** The rewrite works character by character: it distributes over concatenation. */
  lemma {:induction false} ExpandAppend(s: string, t: string)
    ensures ExpandAmpersands(s + t) == ExpandAmpersands(s) + ExpandAmpersands(t)
  {
    if s != [] {
      var x, u := s[0], s[1..];
      assert s == [x] + u && s + t == [x] + (u + t);
      ExpandAppend(u, t);
      if x == '&' {
        ExpandAmpersandHead(u);
        ExpandAmpersandHead(u + t);
      } else {
        ExpandPlainHead(x, u);
        ExpandPlainHead(x, u + t);
      }
    } else {
      assert s + t == t;
    }
  }

  /** The length of the run of `p`-characters that `s` starts with. */
  function RunLength(s: string, p: char -> bool): (n: nat)
    ensures n <= |s|
    ensures forall i :: 0 <= i < n ==> p(s[i])
    ensures n == |s| || !p(s[n])
  {
    if s != [] && p(s[0]) then 1 + RunLength(s[1..], p) else 0
  }

  /** `s.replace(/[P]+/g, c)`: every maximal run of characters satisfying `p` becomes the one character `c`. */
  function CollapseRuns(s: string, p: char -> bool, c: char): (r: string)
    ensures s == [] <==> r == []
    ensures s != [] ==> r[0] == (if p(s[0]) then c else s[0])
    ensures forall i :: 0 <= i < |r| ==> r[i] == c || !p(r[i])
    ensures NoAdjacent(r, p)
    decreases |s|
  {
    if s == [] then []
    else if p(s[0]) then [c] + CollapseRuns(s[RunLength(s, p)..], p, c)
    else [s[0]] + CollapseRuns(s[1..], p, c)
  }

  /** The characters of `s` that neither satisfy `p` nor are `c`, in order. */
  function Others(s: string, p: char -> bool, c: char): (r: string)
    ensures |r| <= |s|
  {
    if s == [] then []
    else (if !p(s[0]) && s[0] != c then [s[0]] else []) + Others(s[1..], p, c)
  }

  lemma OthersHead(x: char, t: string, p: char -> bool, c: char)
    ensures Others([x] + t, p, c) == (if !p(x) && x != c then [x] else []) + Others(t, p, c)
  {
    assert ([x] + t)[1..] == t;
  }

  /** A run of `p`-characters contributes nothing to `Others`. */
  lemma {:induction false} OthersSkipRun(s: string, p: char -> bool, c: char, n: nat)
    requires n <= |s| && forall i :: 0 <= i < n ==> p(s[i])
    ensures Others(s, p, c) == Others(s[n..], p, c)
  {
    if n > 0 {
      OthersSkipRun(s[1..], p, c, n - 1);
      assert s[1..][n - 1..] == s[n..];
    }
  }

  /** Collapsing runs keeps every other character, in order: only runs of `p` are rewritten. */
  lemma {:induction false} CollapseRunsKeepsOthers(s: string, p: char -> bool, c: char)
    ensures Others(CollapseRuns(s, p, c), p, c) == Others(s, p, c)
    decreases |s|
  {
    if s != [] {
      if p(s[0]) {
        var n := RunLength(s, p);
        CollapseRunsKeepsOthers(s[n..], p, c);
        OthersHead(c, CollapseRuns(s[n..], p, c), p, c);
        OthersSkipRun(s, p, c, n);
      } else {
        CollapseRunsKeepsOthers(s[1..], p, c);
        OthersHead(s[0], CollapseRuns(s[1..], p, c), p, c);
      }
    }
  }

  /** The filter that drops every character outside `[\w\-가-힣]`. */
  function KeepOnly(s: string): (r: string)
    ensures forall i :: 0 <= i < |r| ==> IsKept(r[i])
    ensures NoUpper(s) ==> NoUpper(r)
  {
    if s == [] then []
    else (if IsKept(s[0]) then [s[0]] else []) + KeepOnly(s[1..])
  }

  /** One character passes the filter exactly when it is in `[\w\-가-힣]`. */
  lemma KeepOnlyChar(c: char)
    ensures KeepOnly([c]) == if IsKept(c) then [c] else []
  {
    assert [c][1..] == [];
  }

  /** The filter works character by character: it distributes over concatenation. */
  lemma {:induction false} KeepOnlyAppend(s: string, t: string)
    ensures KeepOnly(s + t) == KeepOnly(s) + KeepOnly(t)
  {
    if s != [] {
      assert (s + t)[1..] == s[1..] + t;
      KeepOnlyAppend(s[1..], t);
    } else {
      assert s + t == t;
    }
  }

  /** Collapsing runs keeps any property that the replacement and every character of the input have. */
  lemma {:induction false} CollapseRunsKeeps(s: string, p: char -> bool, c: char, q: char -> bool)
    requires q(c) && forall i :: 0 <= i < |s| ==> q(s[i])
    ensures forall i :: 0 <= i < |CollapseRuns(s, p, c)| ==> q(CollapseRuns(s, p, c)[i])
    decreases |s|
  {
    if s != [] {
      if p(s[0]) {
        CollapseRunsKeeps(s[RunLength(s, p)..], p, c, q);
      } else {
        CollapseRunsKeeps(s[1..], p, c, q);
      }
    }
  }

  lemma DashingKeepsLowerCase(s: string)
    requires NoUpper(s)
    ensures NoUpper(CollapseRuns(s, IsSeparator, '-'))
  {
    CollapseRunsKeeps(s, IsSeparator, '-', IsNotUpper);
  }

  lemma FinalAlphabet(kept: string)
    requires NoUpper(kept) && forall i :: 0 <= i < |kept| ==> IsKept(kept[i])
    ensures forall i :: 0 <= i < |CollapseRuns(kept, IsDash, '-')| ==> IsSlugChar(CollapseRuns(kept, IsDash, '-')[i])
  {
    CollapseRunsKeeps(kept, IsDash, '-', IsSlugChar);
  }

  /** `slugify(str)` for a string argument. */
  function Slugify(s: string): (r: string)
    ensures forall i :: 0 <= i < |r| ==> IsSlugChar(r[i])
    ensures NoDoubleDash(r)
  {
    var lowered := JsText.ToLower(JsText.Trim(s));
    var expanded := ExpandAmpersands(lowered);
    ExpandKeepsLowerCase(lowered);
    DashingKeepsLowerCase(expanded);
    var kept := KeepOnly(CollapseRuns(expanded, IsSeparator, '-'));
    FinalAlphabet(kept);
    CollapseRuns(kept, IsDash, '-')
  }

  /** `slugify(str)` where `str` may be null or undefined (None): `String(str || '')`. */
  function SlugifyValue(v: Option<string>): (r: string)
    ensures v == None || v == Some("") ==> r == ""
  {
    match v
    case None => Slugify("")
    case Some(s) => Slugify(s)
  }

  /** A string without `p`-characters is left as it is by collapsing. */
  lemma {:induction false} CollapseRunsIdentity(s: string, p: char -> bool, c: char)
    requires forall i :: 0 <= i < |s| ==> !p(s[i])
    ensures CollapseRuns(s, p, c) == s
  {
    if s != [] {
      CollapseRunsIdentity(s[1..], p, c);
      assert [s[0]] + s[1..] == s;
    }
  }

  /** A string whose `p`-characters are all `c` and never adjacent is left as it is by collapsing. */
  lemma {:induction false} CollapseRunsFixed(s: string, p: char -> bool, c: char)
    requires forall i :: 0 <= i < |s| ==> p(s[i]) ==> s[i] == c
    requires NoAdjacent(s, p)
    ensures CollapseRuns(s, p, c) == s
  {
    if s != [] {
      CollapseRunsFixed(s[1..], p, c);
      if p(s[0]) {
        assert |s| == 1 || !p(s[1]);
        assert RunLength(s, p) == 1;
      }
      assert [s[0]] + s[1..] == s;
    }
  }

  lemma {:induction false} KeepOnlyIdentity(s: string)
    requires forall i :: 0 <= i < |s| ==> IsKept(s[i])
    ensures KeepOnly(s) == s
  {
    if s != [] {
      KeepOnlyIdentity(s[1..]);
      assert [s[0]] + s[1..] == s;
    }
  }

  lemma LowerFixed(r: string)
    requires NoUpper(r)
    ensures JsText.ToLower(r) == r
  {
  }

  lemma TrimFixed(r: string)
    requires forall i :: 0 <= i < |r| ==> IsSlugChar(r[i])
    ensures JsText.Trim(r) == r
  {
    if r != [] {
      assert IsSlugChar(r[0]) && IsSlugChar(r[|r| - 1]);
    }
  }

  lemma AmpersandsFixed(r: string)
    requires forall i :: 0 <= i < |r| ==> IsSlugChar(r[i])
    ensures ExpandAmpersands(r) == r
  {
    assert '&' !in r;
    ExpandIdentity(r);
  }

  lemma SeparatorsFixed(r: string)
    requires forall i :: 0 <= i < |r| ==> IsSlugChar(r[i])
    ensures CollapseRuns(r, IsSeparator, '-') == r
  {
    assert forall i :: 0 <= i < |r| ==> !IsSeparator(r[i]);
    CollapseRunsIdentity(r, IsSeparator, '-');
  }

  lemma RewritesFixed(r: string)
    requires forall i :: 0 <= i < |r| ==> IsSlugChar(r[i])
    ensures KeepOnly(CollapseRuns(ExpandAmpersands(JsText.ToLower(JsText.Trim(r))), IsSeparator, '-')) == r
  {
    TrimFixed(r);
    LowerFixed(r);
    AmpersandsFixed(r);
    SeparatorsFixed(r);
    KeepOnlyIdentity(r);
  }

  /** Every step of `slugify` leaves a slug as it is. */
  lemma SlugIsFixed(r: string)
    requires forall i :: 0 <= i < |r| ==> IsSlugChar(r[i])
    requires NoDoubleDash(r)
    ensures Slugify(r) == r
  {
    RewritesFixed(r);
    CollapseRunsFixed(r, IsDash, '-');
  }

  /** `slugify(slugify(x)) == slugify(x)`. */
  lemma SlugifyIdempotent(s: string)
    ensures Slugify(Slugify(s)) == Slugify(s)
  {
    SlugIsFixed(Slugify(s));
  }

  lemma CollapseKeepsHead(x: char, t: string, p: char -> bool, c: char)
    requires !p(x)
    ensures CollapseRuns([x] + t, p, c) == [x] + CollapseRuns(t, p, c)
  {
    assert ([x] + t)[1..] == t;
  }

  lemma CollapseSingleRun(x: char, t: string, p: char -> bool, c: char)
    requires p(x) && t != [] && !p(t[0])
    ensures CollapseRuns([x] + t, p, c) == [c] + CollapseRuns(t, p, c)
  {
    assert ([x] + t)[1..] == t;
    assert RunLength([x] + t, p) == 1;
  }

  lemma SpacedAmpersandLowered(x: char, y: char)
    requires IsWordChar(x) && IsWordChar(y)
    ensures JsText.ToLower(JsText.Trim([x, ' ', '&', ' ', y])) == [JsText.LowerChar(x), ' ', '&', ' ', JsText.LowerChar(y)]
  {
    var s := [x, ' ', '&', ' ', y];
    assert !JsText.IsSpace(s[0]) && !JsText.IsSpace(s[|s| - 1]);
    assert JsText.Trim(s) == s;
    var l := JsText.ToLower(s);
    assert l[0] == JsText.LowerChar(x) && l[1] == ' ' && l[2] == '&' && l[3] == ' ' && l[4] == JsText.LowerChar(y);
  }

  lemma ExpandPlainHead(x: char, t: string)
    requires x != '&'
    ensures ExpandAmpersands([x] + t) == [x] + ExpandAmpersands(t)
  {
    assert ([x] + t)[1..] == t;
  }

  lemma ExpandAmpersandHead(t: string)
    ensures ExpandAmpersands(['&'] + t) == ['a', 'n', 'd'] + ExpandAmpersands(t)
  {
    assert (['&'] + t)[1..] == t;
  }

  lemma SpacedAmpersandExpanded(x: char, y: char)
    requires x != '&' && y != '&'
    ensures ExpandAmpersands([x, ' ', '&', ' ', y]) == [x, ' ', 'a', 'n', 'd', ' ', y]
  {
    var t0 := [y];
    ExpandIdentity(t0);
    var t1 := [' '] + t0;
    ExpandPlainHead(' ', t0);
    var t2 := ['&'] + t1;
    ExpandAmpersandHead(t1);
    var t3 := [' '] + t2;
    ExpandPlainHead(' ', t2);
    var t4 := [x] + t3;
    ExpandPlainHead(x, t3);
    assert ExpandAmpersands(t4) == [x] + ([' '] + (['a', 'n', 'd'] + ([' '] + [y])));
    assert t4 == [x, ' ', '&', ' ', y];
  }

  lemma DashedLast(y: char)
    requires !IsSeparator(y)
    ensures CollapseRuns([' ', y], IsSeparator, '-') == ['-', y]
  {
    CollapseRunsIdentity([y], IsSeparator, '-');
    CollapseSingleRun(' ', [y], IsSeparator, '-');
    assert [' '] + [y] == [' ', y];
  }

  lemma DashedAnd(y: char)
    requires !IsSeparator(y)
    ensures CollapseRuns(['a', 'n', 'd', ' ', y], IsSeparator, '-') == ['a', 'n', 'd', '-', y]
  {
    var p := IsSeparator;
    var t: string := [' ', y];
    DashedLast(y);
    CollapseKeepsHead('d', t, p, '-');
    assert ['d'] + t == ['d', ' ', y];
    CollapseKeepsHead('n', ['d', ' ', y], p, '-');
    assert ['n'] + ['d', ' ', y] == ['n', 'd', ' ', y];
    CollapseKeepsHead('a', ['n', 'd', ' ', y], p, '-');
    assert ['a'] + ['n', 'd', ' ', y] == ['a', 'n', 'd', ' ', y];
  }

  lemma SpacedAmpersandDashed(x: char, y: char)
    requires !IsSeparator(x) && !IsSeparator(y)
    ensures CollapseRuns([x, ' ', 'a', 'n', 'd', ' ', y], IsSeparator, '-') == [x, '-', 'a', 'n', 'd', '-', y]
  {
    var p := IsSeparator;
    var t: string := ['a', 'n', 'd', ' ', y];
    DashedAnd(y);
    CollapseSingleRun(' ', t, p, '-');
    assert [' '] + t == [' ', 'a', 'n', 'd', ' ', y];
    CollapseKeepsHead(x, [' ', 'a', 'n', 'd', ' ', y], p, '-');
    assert [x] + [' ', 'a', 'n', 'd', ' ', y] == [x, ' ', 'a', 'n', 'd', ' ', y];
  }

  /** The stages of `slugify`, in order. */
  lemma SlugifyStages(s: string)
    ensures Slugify(s) == CollapseRuns(KeepOnly(CollapseRuns(ExpandAmpersands(JsText.ToLower(JsText.Trim(s))), IsSeparator, '-')), IsDash, '-')
  {
  }

  lemma LowerWordChar(x: char)
    requires IsWordChar(x)
    ensures IsWordChar(JsText.LowerChar(x)) && JsText.LowerChar(x) != '&' && !IsSeparator(JsText.LowerChar(x))
  {
  }

  lemma SpacedAmpersandKept(x: char, y: char)
    requires IsWordChar(x) && IsWordChar(y)
    ensures KeepOnly([x, '-', 'a', 'n', 'd', '-', y]) == [x, '-', 'a', 'n', 'd', '-', y]
  {
    var r := [x, '-', 'a', 'n', 'd', '-', y];
    assert forall i :: 0 <= i < |r| ==> IsKept(r[i]);
    KeepOnlyIdentity(r);
  }

  lemma SpacedAmpersandRewritten(x: char, y: char)
    requires IsWordChar(x) && IsWordChar(y)
    ensures KeepOnly(CollapseRuns(ExpandAmpersands(JsText.ToLower(JsText.Trim([x, ' ', '&', ' ', y]))), IsSeparator, '-'))
         == [JsText.LowerChar(x), '-', 'a', 'n', 'd', '-', JsText.LowerChar(y)]
  {
    var lx, ly := JsText.LowerChar(x), JsText.LowerChar(y);
    LowerWordChar(x);
    LowerWordChar(y);
    var lowered := JsText.ToLower(JsText.Trim([x, ' ', '&', ' ', y]));
    SpacedAmpersandLowered(x, y);
    assert lowered == [lx, ' ', '&', ' ', ly];
    var expanded := ExpandAmpersands(lowered);
    SpacedAmpersandExpanded(lx, ly);
    assert expanded == [lx, ' ', 'a', 'n', 'd', ' ', ly];
    var dashed := CollapseRuns(expanded, IsSeparator, '-');
    SpacedAmpersandDashed(lx, ly);
    assert dashed == [lx, '-', 'a', 'n', 'd', '-', ly];
    SpacedAmpersandKept(lx, ly);
  }

  lemma DashesOfExampleFixed(r: string)
    requires |r| == 7 && r[1] == r[5] == '-' && r[2] == 'a' && r[3] == 'n' && r[4] == 'd'
    requires IsWordChar(r[0]) && IsWordChar(r[6])
    ensures CollapseRuns(r, IsDash, '-') == r
  {
    assert forall i :: 0 <= i < |r| ==> IsDash(r[i]) ==> r[i] == '-';
    assert forall i :: 0 <= i < |r| ==> IsDash(r[i]) ==> i == 1 || i == 5;
    CollapseRunsFixed(r, IsDash, '-');
  }

  /**
   * `&` is spelled out before the filter would drop it: two word characters
   * around a spaced `&` give `x-and-y`, lower-cased; `slugify("A & B")` is
   * `"a-and-b"`.
   */
  lemma AmpersandBecomesAnd(x: char, y: char)
    requires IsWordChar(x) && IsWordChar(y)
    ensures Slugify([x, ' ', '&', ' ', y]) == [JsText.LowerChar(x), '-', 'a', 'n', 'd', '-', JsText.LowerChar(y)]
  {
    var r := [JsText.LowerChar(x), '-', 'a', 'n', 'd', '-', JsText.LowerChar(y)];
    SlugifyStages([x, ' ', '&', ' ', y]);
    SpacedAmpersandRewritten(x, y);
    LowerWordChar(x);
    LowerWordChar(y);
    DashesOfExampleFixed(r);
  }
}
