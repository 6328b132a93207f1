/**
 * `getAuthoredRules`: the inline style of an element, the top-level style rules
 * of every readable sheet that match it (sorted by selector length, longest
 * first), and the style rules inside `@media` rules that match it, each tagged
 * with its media condition.
 */
module Authored {
  import opened Wrappers
  import opened Text
  import opened Cssom

  datatype MatchedRule = MatchedRule(selectorText: string, cssText: string, sourceHref: string)

  datatype MediaQueryRule = MediaQueryRule(selectorText: string, cssText: string, mediaCondition: string, sourceHref: string)

  datatype AuthoredRules = AuthoredRules(
    inlineStyle: Option<string>,
    matchedRules: seq<MatchedRule>,
    mediaQueryRules: seq<MediaQueryRule>)

  /** Where a matched top-level rule comes from: the sheet's URL, or a description of its owner. */
  function SheetSource(sheet: StyleSheet): string {
    if Truthy(sheet.href) then sheet.href.value
    else if sheet.ownerTag == Some("STYLE") then "Inline <style> tag"
    else "Embedded/Unknown"
  }

  /** Where a matched rule inside `@media` comes from. */
  function MediaSource(sheet: StyleSheet): string {
    if Truthy(sheet.href) then sheet.href.value else "Inline/Embedded"
  }

  // ---------------------------------------------------------------------------
  // What the scan collects, defined over prefixes of the sheet and rule lists.
  // ---------------------------------------------------------------------------

  /** The entry a top-level rule adds to `matchedRules`: one for a matching style rule, none otherwise. */
  function MatchedBy(rule: Rule, e: Element, matches: (Element, string) -> MatchOutcome, src: string): seq<MatchedRule> {
    if rule.StyleRule? && matches(e, rule.selectorText) == Match
    then [MatchedRule(rule.selectorText, rule.cssText, src)]
    else []
  }

  function MatchedInRules(rules: seq<Rule>, e: Element, matches: (Element, string) -> MatchOutcome, src: string): seq<MatchedRule> {
    if rules == [] then []
    else MatchedInRules(rules[..|rules| - 1], e, matches, src) + MatchedBy(rules[|rules| - 1], e, matches, src)
  }

  function MatchedInSheet(sheet: StyleSheet, e: Element, matches: (Element, string) -> MatchOutcome): seq<MatchedRule> {
    if sheet.cssRules.Some? then MatchedInRules(sheet.cssRules.value, e, matches, SheetSource(sheet)) else []
  }

  /** `matchedRules` in discovery order, before sorting. */
  function MatchedInSheets(sheets: seq<StyleSheet>, e: Element, matches: (Element, string) -> MatchOutcome): seq<MatchedRule> {
    if sheets == [] then []
    else MatchedInSheets(sheets[..|sheets| - 1], e, matches) + MatchedInSheet(sheets[|sheets| - 1], e, matches)
  }

  /** The entry a rule inside `@media cond` adds: one for a matching style rule, none otherwise. */
  function InnerMatchedBy(rule: Rule, cond: string, e: Element, matches: (Element, string) -> MatchOutcome, src: string): seq<MediaQueryRule> {
    if rule.StyleRule? && matches(e, rule.selectorText) == Match
    then [MediaQueryRule(rule.selectorText, rule.cssText, cond, src)]
    else []
  }

  function MatchedInMedia(inner: seq<Rule>, cond: string, e: Element, matches: (Element, string) -> MatchOutcome, src: string): seq<MediaQueryRule> {
    if inner == [] then []
    else MatchedInMedia(inner[..|inner| - 1], cond, e, matches, src) + InnerMatchedBy(inner[|inner| - 1], cond, e, matches, src)
  }

  function MediaBy(rule: Rule, e: Element, matches: (Element, string) -> MatchOutcome, src: string): seq<MediaQueryRule> {
    if rule.MediaRule? then MatchedInMedia(rule.cssRules, rule.mediaText, e, matches, src) else []
  }

  function MediaInRules(rules: seq<Rule>, e: Element, matches: (Element, string) -> MatchOutcome, src: string): seq<MediaQueryRule> {
    if rules == [] then []
    else MediaInRules(rules[..|rules| - 1], e, matches, src) + MediaBy(rules[|rules| - 1], e, matches, src)
  }

  function MediaInSheet(sheet: StyleSheet, e: Element, matches: (Element, string) -> MatchOutcome): seq<MediaQueryRule> {
    if sheet.cssRules.Some? then MediaInRules(sheet.cssRules.value, e, matches, MediaSource(sheet)) else []
  }

  /** `mediaQueryRules`, in discovery order. */
  function MediaInSheets(sheets: seq<StyleSheet>, e: Element, matches: (Element, string) -> MatchOutcome): seq<MediaQueryRule> {
    if sheets == [] then []
    else MediaInSheets(sheets[..|sheets| - 1], e, matches) + MediaInSheet(sheets[|sheets| - 1], e, matches)
  }

  // ---------------------------------------------------------------------------
  // The sort: `matchedRules.sort((a, b) => b.selectorText.length - a.selectorText.length)`.
  // Array.prototype.sort is stable, so it is modelled as a stable insertion sort.
  // ---------------------------------------------------------------------------

  /** The sort key: `selectorText.length`, in UTF-16 code units. */
  function Len(r: MatchedRule): nat {
    Utf16Length(r.selectorText)
  }

  /** Places `x` after the rules with longer selectors and before the others. */
  function InsertByLength(x: MatchedRule, s: seq<MatchedRule>): seq<MatchedRule> {
    if s == [] || Len(s[0]) <= Len(x) then [x] + s
    else [s[0]] + InsertByLength(x, s[1..])
  }

  function SortByLength(s: seq<MatchedRule>): seq<MatchedRule> {
    if s == [] then [] else InsertByLength(s[0], SortByLength(s[1..]))
  }

  /** Longest selector first. */
  predicate LongestFirst(s: seq<MatchedRule>) {
    forall i, j :: 0 <= i < j < |s| ==> Len(s[i]) >= Len(s[j])
  }

  /** The rules whose selector has length `n`, in their order. */
  function WithLength(s: seq<MatchedRule>, n: nat): seq<MatchedRule> {
    if s == [] then []
    else (if Len(s[0]) == n then [s[0]] else []) + WithLength(s[1..], n)
  }

  /** The authored rules of `e` as `getAuthoredRules` returns them. */
  function AuthoredRulesOf(e: Element, sheets: seq<StyleSheet>, matches: (Element, string) -> MatchOutcome): AuthoredRules {
    AuthoredRules(
      if e.inlineStyle == "" then None else Some(e.inlineStyle),
      SortByLength(MatchedInSheets(sheets, e, matches)),
      MediaInSheets(sheets, e, matches))
  }

  /** The rules inside one `@media` rule that match `e`, in order. */
  method ScanMediaRule(inner: seq<Rule>, cond: string, e: Element, matches: (Element, string) -> MatchOutcome, src: string)
    returns (found: seq<MediaQueryRule>)
    ensures found == MatchedInMedia(inner, cond, e, matches, src)
  {
    found := [];
    var k := 0;
    while k < |inner|
      invariant 0 <= k <= |inner|
      invariant found == MatchedInMedia(inner[..k], cond, e, matches, src)
    {
      var innerRule := inner[k];
      assert inner[..k + 1][..k] == inner[..k];
      if innerRule.StyleRule? {
        var outcome := matches(e, innerRule.selectorText);
        if outcome == Match {
          found := found + [MediaQueryRule(innerRule.selectorText, innerRule.cssText, cond, src)];
        }
      }
      k := k + 1;
    }
    assert inner[..k] == inner;
  }

  /** The contributions of the rules of one readable sheet. */
  method ScanSheetRules(rules: seq<Rule>, e: Element, matches: (Element, string) -> MatchOutcome, src: string, mediaSrc: string)
    returns (matched: seq<MatchedRule>, media: seq<MediaQueryRule>)
    ensures matched == MatchedInRules(rules, e, matches, src)
    ensures media == MediaInRules(rules, e, matches, mediaSrc)
  {
    matched, media := [], [];
    var j := 0;
    while j < |rules|
      invariant 0 <= j <= |rules|
      invariant matched == MatchedInRules(rules[..j], e, matches, src)
      invariant media == MediaInRules(rules[..j], e, matches, mediaSrc)
    {
      var rule := rules[j];
      assert rules[..j + 1][..j] == rules[..j];
      if rule.StyleRule? {
        var outcome := matches(e, rule.selectorText);
        if outcome == Match {
          matched := matched + [MatchedRule(rule.selectorText, rule.cssText, src)];
        }
      } else if rule.MediaRule? {
        var found := ScanMediaRule(rule.cssRules, rule.mediaText, e, matches, mediaSrc);
        media := media + found;
      }
      j := j + 1;
    }
    assert rules[..j] == rules;
  }

  /** The scan of `getAuthoredRules`: sheet by sheet, then the sort. */
  method GetAuthoredRules(e: Element, sheets: seq<StyleSheet>, matches: (Element, string) -> MatchOutcome) returns (r: AuthoredRules)
    ensures r == AuthoredRulesOf(e, sheets, matches)
  {
    var matched: seq<MatchedRule> := [];
    var media: seq<MediaQueryRule> := [];
    var i := 0;
    while i < |sheets|
      invariant 0 <= i <= |sheets|
      invariant matched == MatchedInSheets(sheets[..i], e, matches)
      invariant media == MediaInSheets(sheets[..i], e, matches)
    {
      var sheet := sheets[i];
      assert sheets[..i + 1][..i] == sheets[..i];
      if sheet.cssRules.Some? {
        var m, md := ScanSheetRules(sheet.cssRules.value, e, matches, SheetSource(sheet), MediaSource(sheet));
        matched, media := matched + m, media + md;
      }
      i := i + 1;
    }
    assert sheets[..i] == sheets;
    matched := SortByLength(matched);
    r := AuthoredRules(if e.inlineStyle == "" then None else Some(e.inlineStyle), matched, media);
  }

  // ---------------------------------------------------------------------------
  // The sort keeps the rules, puts the longest selectors first, keeps the
  // discovery order among selectors of equal length, and is the only order
  // that does all three.
  // ---------------------------------------------------------------------------

  lemma {:induction false} InsertPermutes(x: MatchedRule, s: seq<MatchedRule>)
    ensures multiset(InsertByLength(x, s)) == multiset{x} + multiset(s)
  {
    if !(s == [] || Len(s[0]) <= Len(x)) {
      InsertPermutes(x, s[1..]);
      assert s == [s[0]] + s[1..];
    }
  }

  lemma {:induction false} InsertKeepsOrder(x: MatchedRule, s: seq<MatchedRule>)
    requires LongestFirst(s)
    ensures LongestFirst(InsertByLength(x, s))
    ensures InsertByLength(x, s)[0] == x || InsertByLength(x, s)[0] == s[0]
  {
    if !(s == [] || Len(s[0]) <= Len(x)) {
      var t := InsertByLength(x, s[1..]);
      InsertKeepsOrder(x, s[1..]);
      InsertBounded(x, s[1..], Len(s[0]));
      assert InsertByLength(x, s) == [s[0]] + t;
    }
  }

  /** Inserting keeps every selector length under a bound that `x` and `s` keep. */
  lemma {:induction false} InsertBounded(x: MatchedRule, s: seq<MatchedRule>, bound: nat)
    requires Len(x) <= bound && forall k :: 0 <= k < |s| ==> Len(s[k]) <= bound
    ensures forall k :: 0 <= k < |InsertByLength(x, s)| ==> Len(InsertByLength(x, s)[k]) <= bound
  {
    if !(s == [] || Len(s[0]) <= Len(x)) {
      InsertBounded(x, s[1..], bound);
      assert InsertByLength(x, s) == [s[0]] + InsertByLength(x, s[1..]);
    }
  }

  /** Rules with selectors of each length appear in the same order after inserting `x` as before, `x` first among its length. */
  lemma {:induction false} InsertWithLength(x: MatchedRule, s: seq<MatchedRule>, n: nat)
    requires LongestFirst(s)
    ensures WithLength(InsertByLength(x, s), n) == (if Len(x) == n then [x] else []) + WithLength(s, n)
  {
    if s == [] || Len(s[0]) <= Len(x) {
      assert ([x] + s)[1..] == s;
    } else {
      var t := InsertByLength(x, s[1..]);
      assert LongestFirst(s[1..]);
      InsertWithLength(x, s[1..], n);
      assert Len(s[0]) > Len(x);
      var xs: seq<MatchedRule> := if Len(x) == n then [x] else [];
      var s0: seq<MatchedRule> := if Len(s[0]) == n then [s[0]] else [];
      assert xs == [] || s0 == [];
      calc {
        WithLength(InsertByLength(x, s), n);
        WithLength([s[0]] + t, n);
        { assert ([s[0]] + t)[0] == s[0] && ([s[0]] + t)[1..] == t; }
        s0 + WithLength(t, n);
        s0 + (xs + WithLength(s[1..], n));
        xs + (s0 + WithLength(s[1..], n));
        xs + WithLength(s, n);
      }
    }
  }

  lemma {:induction false} SortByLengthPermutes(s: seq<MatchedRule>)
    ensures multiset(SortByLength(s)) == multiset(s)
  {
    if s != [] {
      SortByLengthPermutes(s[1..]);
      InsertPermutes(s[0], SortByLength(s[1..]));
      assert s == [s[0]] + s[1..];
    }
  }

  lemma {:induction false} SortByLengthLongestFirst(s: seq<MatchedRule>)
    ensures LongestFirst(SortByLength(s))
  {
    if s != [] {
      SortByLengthLongestFirst(s[1..]);
      InsertKeepsOrder(s[0], SortByLength(s[1..]));
    }
  }

  /** Stability: among rules whose selectors have the same length, discovery order is kept. */
  lemma {:induction false} SortByLengthStable(s: seq<MatchedRule>, n: nat)
    ensures WithLength(SortByLength(s), n) == WithLength(s, n)
  {
    if s != [] {
      SortByLengthStable(s[1..], n);
      SortByLengthLongestFirst(s[1..]);
      InsertWithLength(s[0], SortByLength(s[1..]), n);
    }
  }

  lemma {:induction false} WithLengthMembers(s: seq<MatchedRule>, n: nat, x: MatchedRule)
    ensures x in WithLength(s, n) <==> x in s && Len(x) == n
  {
    if s != [] {
      WithLengthMembers(s[1..], n, x);
      assert s == [s[0]] + s[1..];
    }
  }

  /** Sequences with the same rules of each length are empty together. */
  lemma BothEmptyOrNot(a: seq<MatchedRule>, b: seq<MatchedRule>)
    requires forall n: nat :: WithLength(a, n) == WithLength(b, n)
    ensures a == [] <==> b == []
  {
    if a != [] {
      assert WithLength(b, Len(a[0])) == WithLength(a, Len(a[0])) != [];
    }
    if b != [] {
      assert WithLength(a, Len(b[0])) == WithLength(b, Len(b[0])) != [];
    }
  }

  lemma SameHead(a: seq<MatchedRule>, b: seq<MatchedRule>)
    requires a != [] && b != []
    requires LongestFirst(a) && LongestFirst(b)
    requires forall n: nat :: WithLength(a, n) == WithLength(b, n)
    ensures a[0] == b[0]
  {
    var na, nb := Len(a[0]), Len(b[0]);
    WithLengthMembers(a, na, a[0]);
    WithLengthMembers(b, na, a[0]);
    WithLengthMembers(b, nb, b[0]);
    WithLengthMembers(a, nb, b[0]);
    assert WithLength(a, na) == WithLength(b, na);
    assert WithLength(a, nb) == WithLength(b, nb);
    assert na == nb;
    assert WithLength(a, na)[0] == a[0] && WithLength(b, na)[0] == b[0];
  }

  lemma SameTails(a: seq<MatchedRule>, b: seq<MatchedRule>)
    requires a != [] && b != [] && a[0] == b[0]
    requires forall n: nat :: WithLength(a, n) == WithLength(b, n)
    ensures forall n: nat :: WithLength(a[1..], n) == WithLength(b[1..], n)
  {
    forall n: nat ensures WithLength(a[1..], n) == WithLength(b[1..], n) {
      assert WithLength(a, n) == WithLength(b, n);
      if Len(a[0]) == n {
        assert WithLength(a, n)[1..] == WithLength(a[1..], n);
        assert WithLength(b, n)[1..] == WithLength(b[1..], n);
      } else {
        assert WithLength(a, n) == WithLength(a[1..], n);
        assert WithLength(b, n) == WithLength(b[1..], n);
      }
    }
  }

  /** Two longest-first sequences with the same rules of each length, in the same order, are equal. */
  lemma {:induction false} LongestFirstStableUnique(a: seq<MatchedRule>, b: seq<MatchedRule>)
    requires LongestFirst(a) && LongestFirst(b)
    requires forall n: nat :: WithLength(a, n) == WithLength(b, n)
    ensures a == b
    decreases |a|
  {
    BothEmptyOrNot(a, b);
    if a != [] {
      SameHead(a, b);
      SameTails(a, b);
      assert LongestFirst(a[1..]) && LongestFirst(b[1..]);
      LongestFirstStableUnique(a[1..], b[1..]);
      assert a == [a[0]] + a[1..] && b == [b[0]] + b[1..];
    }
  }

  /** Any stable rearrangement that puts the longest selectors first is the one the model computes. */
  lemma SortByLengthIsTheStableSort(s: seq<MatchedRule>, t: seq<MatchedRule>)
    requires LongestFirst(t)
    requires forall n: nat :: WithLength(t, n) == WithLength(s, n)
    ensures t == SortByLength(s)
  {
    SortByLengthLongestFirst(s);
    forall n: nat ensures WithLength(t, n) == WithLength(SortByLength(s), n) {
      SortByLengthStable(s, n);
    }
    LongestFirstStableUnique(t, SortByLength(s));
  }

  /**
   * The key counts UTF-16 code units: `.\u{1F600}` (an emoji, two units) and `.ab`
   * both have length 3, so the sort keeps them in discovery order.
   */
  lemma AstralSelectorTies(css: string, src: string)
    ensures var emoji, ab := MatchedRule(".\U{1F600}", css, src), MatchedRule(".ab", css, src);
      Len(emoji) == Len(ab) == 3 && SortByLength([emoji, ab]) == [emoji, ab]
  {
    var emoji, ab := MatchedRule(".\U{1F600}", css, src), MatchedRule(".ab", css, src);
    assert Utf16Length(".\U{1F600}"[..1]) == 1;
    assert Utf16Length(".a"[..1]) == 1;
    assert ".ab"[..2] == ".a";
    assert SortByLength([ab]) == [ab] by {
      assert [ab][1..] == [];
    }
    assert [emoji, ab][1..] == [ab];
  }

  // ---------------------------------------------------------------------------
  // What the scan collects: exactly the matching style rules of readable sheets.
  // ---------------------------------------------------------------------------

  /** Rule `j` of sheet `i` is a readable top-level style rule that matches `e`, and `r` is its entry. */
  ghost predicate MatchedAt(sheets: seq<StyleSheet>, e: Element, matches: (Element, string) -> MatchOutcome, i: int, j: int, r: MatchedRule) {
    && 0 <= i < |sheets|
    && sheets[i].cssRules.Some?
    && 0 <= j < |sheets[i].cssRules.value|
    && var rule := sheets[i].cssRules.value[j];
       rule.StyleRule? && matches(e, rule.selectorText) == Match
       && r == MatchedRule(rule.selectorText, rule.cssText, SheetSource(sheets[i]))
  }

  /** Inner rule `k` of rule `j` of sheet `i` is a style rule inside a `@media` rule that matches `e`, and `r` is its entry. */
  ghost predicate MediaMatchedAt(sheets: seq<StyleSheet>, e: Element, matches: (Element, string) -> MatchOutcome, i: int, j: int, k: int, r: MediaQueryRule) {
    && 0 <= i < |sheets|
    && sheets[i].cssRules.Some?
    && 0 <= j < |sheets[i].cssRules.value|
    && var media := sheets[i].cssRules.value[j];
       media.MediaRule? && 0 <= k < |media.cssRules|
       && var rule := media.cssRules[k];
          rule.StyleRule? && matches(e, rule.selectorText) == Match
          && r == MediaQueryRule(rule.selectorText, rule.cssText, media.mediaText, MediaSource(sheets[i]))
  }

  lemma {:induction false} MatchedInRulesMembers(rules: seq<Rule>, e: Element, matches: (Element, string) -> MatchOutcome, src: string, r: MatchedRule)
    ensures r in MatchedInRules(rules, e, matches, src) <==>
      exists j :: 0 <= j < |rules| && rules[j].StyleRule? && matches(e, rules[j].selectorText) == Match
                  && r == MatchedRule(rules[j].selectorText, rules[j].cssText, src)
  {
    if rules != [] {
      var pre := rules[..|rules| - 1];
      MatchedInRulesMembers(pre, e, matches, src, r);
      assert forall j :: 0 <= j < |pre| ==> pre[j] == rules[j];
    }
  }

  lemma {:induction false} MatchedInMediaMembers(inner: seq<Rule>, cond: string, e: Element, matches: (Element, string) -> MatchOutcome, src: string, r: MediaQueryRule)
    ensures r in MatchedInMedia(inner, cond, e, matches, src) <==>
      exists k :: 0 <= k < |inner| && inner[k].StyleRule? && matches(e, inner[k].selectorText) == Match
                  && r == MediaQueryRule(inner[k].selectorText, inner[k].cssText, cond, src)
  {
    if inner != [] {
      var pre := inner[..|inner| - 1];
      MatchedInMediaMembers(pre, cond, e, matches, src, r);
      assert forall k :: 0 <= k < |pre| ==> pre[k] == inner[k];
    }
  }

  lemma {:induction false} MediaInRulesMembers(rules: seq<Rule>, e: Element, matches: (Element, string) -> MatchOutcome, src: string, r: MediaQueryRule)
    ensures r in MediaInRules(rules, e, matches, src) <==>
      exists j, k :: 0 <= j < |rules| && rules[j].MediaRule? && 0 <= k < |rules[j].cssRules|
                     && rules[j].cssRules[k].StyleRule? && matches(e, rules[j].cssRules[k].selectorText) == Match
                     && r == MediaQueryRule(rules[j].cssRules[k].selectorText, rules[j].cssRules[k].cssText, rules[j].mediaText, src)
  {
    if rules != [] {
      var pre, last := rules[..|rules| - 1], rules[|rules| - 1];
      MediaInRulesMembers(pre, e, matches, src, r);
      assert forall j :: 0 <= j < |pre| ==> pre[j] == rules[j];
      if last.MediaRule? {
        MatchedInMediaMembers(last.cssRules, last.mediaText, e, matches, src, r);
      }
    }
  }

  /** `matchedRules` before sorting holds exactly the matching top-level style rules of the readable sheets. */
  lemma {:induction false} MatchedInSheetsMembers(sheets: seq<StyleSheet>, e: Element, matches: (Element, string) -> MatchOutcome, r: MatchedRule)
    ensures r in MatchedInSheets(sheets, e, matches) <==> exists i, j :: MatchedAt(sheets, e, matches, i, j, r)
  {
    if sheets != [] {
      var pre, last := sheets[..|sheets| - 1], sheets[|sheets| - 1];
      MatchedInSheetsMembers(pre, e, matches, r);
      var n := |pre|;
      assert forall i, j :: 0 <= i < n ==> (MatchedAt(pre, e, matches, i, j, r) <==> MatchedAt(sheets, e, matches, i, j, r));
      if last.cssRules.Some? {
        MatchedInRulesMembers(last.cssRules.value, e, matches, SheetSource(last), r);
        if r in MatchedInSheet(last, e, matches) {
          var j :| 0 <= j < |last.cssRules.value| && last.cssRules.value[j].StyleRule?
                   && matches(e, last.cssRules.value[j].selectorText) == Match
                   && r == MatchedRule(last.cssRules.value[j].selectorText, last.cssRules.value[j].cssText, SheetSource(last));
          assert MatchedAt(sheets, e, matches, n, j, r);
        }
      }
      if exists i, j :: MatchedAt(sheets, e, matches, i, j, r) {
        var i, j :| MatchedAt(sheets, e, matches, i, j, r);
        if i == n {
          assert r in MatchedInSheet(last, e, matches);
        } else {
          assert MatchedAt(pre, e, matches, i, j, r);
        }
      }
    }
  }

  /** `mediaQueryRules` holds exactly the matching style rules inside `@media` rules of the readable sheets. */
  lemma {:induction false} MediaInSheetsMembers(sheets: seq<StyleSheet>, e: Element, matches: (Element, string) -> MatchOutcome, r: MediaQueryRule)
    ensures r in MediaInSheets(sheets, e, matches) <==> exists i, j, k :: MediaMatchedAt(sheets, e, matches, i, j, k, r)
  {
    if sheets != [] {
      var pre, last := sheets[..|sheets| - 1], sheets[|sheets| - 1];
      MediaInSheetsMembers(pre, e, matches, r);
      var n := |pre|;
      assert forall i, j, k :: 0 <= i < n ==> (MediaMatchedAt(pre, e, matches, i, j, k, r) <==> MediaMatchedAt(sheets, e, matches, i, j, k, r));
      if last.cssRules.Some? {
        var rules := last.cssRules.value;
        MediaInRulesMembers(rules, e, matches, MediaSource(last), r);
        if r in MediaInSheet(last, e, matches) {
          var j, k :| 0 <= j < |rules| && rules[j].MediaRule? && 0 <= k < |rules[j].cssRules|
                     && rules[j].cssRules[k].StyleRule? && matches(e, rules[j].cssRules[k].selectorText) == Match
                     && r == MediaQueryRule(rules[j].cssRules[k].selectorText, rules[j].cssRules[k].cssText, rules[j].mediaText, MediaSource(last));
          assert MediaMatchedAt(sheets, e, matches, n, j, k, r);
        }
      }
      if exists i, j, k :: MediaMatchedAt(sheets, e, matches, i, j, k, r) {
        var i, j, k :| MediaMatchedAt(sheets, e, matches, i, j, k, r);
        if i == n {
          assert r in MediaInSheet(last, e, matches);
        } else {
          assert MediaMatchedAt(pre, e, matches, i, j, k, r);
        }
      }
    }
  }

  /** The scan distributes over a split of the sheet list. */
  lemma {:induction false} MatchedInSheetsAppend(a: seq<StyleSheet>, b: seq<StyleSheet>, e: Element, matches: (Element, string) -> MatchOutcome)
    ensures MatchedInSheets(a + b, e, matches) == MatchedInSheets(a, e, matches) + MatchedInSheets(b, e, matches)
    decreases |b|
  {
    if b == [] {
      assert a + b == a;
    } else {
      var b', last := b[..|b| - 1], b[|b| - 1];
      assert a + b == (a + b') + [last];
      assert b == b' + [last];
      MatchedInSheetsSnoc(a + b', last, e, matches);
      MatchedInSheetsSnoc(b', last, e, matches);
      MatchedInSheetsAppend(a, b', e, matches);
    }
  }

  lemma MatchedInSheetsSnoc(s: seq<StyleSheet>, last: StyleSheet, e: Element, matches: (Element, string) -> MatchOutcome)
    ensures MatchedInSheets(s + [last], e, matches) == MatchedInSheets(s, e, matches) + MatchedInSheet(last, e, matches)
  {
    assert (s + [last])[..|s|] == s;
  }

  lemma {:induction false} MediaInSheetsAppend(a: seq<StyleSheet>, b: seq<StyleSheet>, e: Element, matches: (Element, string) -> MatchOutcome)
    ensures MediaInSheets(a + b, e, matches) == MediaInSheets(a, e, matches) + MediaInSheets(b, e, matches)
    decreases |b|
  {
    if b == [] {
      assert a + b == a;
    } else {
      var b', last := b[..|b| - 1], b[|b| - 1];
      assert a + b == (a + b') + [last];
      assert b == b' + [last];
      MediaInSheetsSnoc(a + b', last, e, matches);
      MediaInSheetsSnoc(b', last, e, matches);
      MediaInSheetsAppend(a, b', e, matches);
    }
  }

  lemma MediaInSheetsSnoc(s: seq<StyleSheet>, last: StyleSheet, e: Element, matches: (Element, string) -> MatchOutcome)
    ensures MediaInSheets(s + [last], e, matches) == MediaInSheets(s, e, matches) + MediaInSheet(last, e, matches)
  {
    assert (s + [last])[..|s|] == s;
  }

  lemma UnreadableSheetEmpty(bad: StyleSheet, e: Element, matches: (Element, string) -> MatchOutcome)
    requires bad.cssRules.None?
    ensures MatchedInSheets([bad], e, matches) == [] && MediaInSheets([bad], e, matches) == []
  {
    assert [bad][..0] == [];
  }

  lemma MatchedSkipsUnreadable(a: seq<StyleSheet>, bad: StyleSheet, b: seq<StyleSheet>, e: Element, matches: (Element, string) -> MatchOutcome)
    requires bad.cssRules.None?
    ensures MatchedInSheets(a + [bad] + b, e, matches) == MatchedInSheets(a + b, e, matches)
  {
    UnreadableSheetEmpty(bad, e, matches);
    MatchedInSheetsAppend(a + [bad], b, e, matches);
    MatchedInSheetsAppend(a, [bad], e, matches);
    MatchedInSheetsAppend(a, b, e, matches);
  }

  lemma MediaSkipsUnreadable(a: seq<StyleSheet>, bad: StyleSheet, b: seq<StyleSheet>, e: Element, matches: (Element, string) -> MatchOutcome)
    requires bad.cssRules.None?
    ensures MediaInSheets(a + [bad] + b, e, matches) == MediaInSheets(a + b, e, matches)
  {
    UnreadableSheetEmpty(bad, e, matches);
    MediaInSheetsAppend(a + [bad], b, e, matches);
    MediaInSheetsAppend(a, [bad], e, matches);
    MediaInSheetsAppend(a, b, e, matches);
  }

  /** A sheet whose rules cannot be read contributes nothing and stops nothing: the scan is as if it were absent. */
  lemma UnreadableSheetSkipped(a: seq<StyleSheet>, bad: StyleSheet, b: seq<StyleSheet>, e: Element, matches: (Element, string) -> MatchOutcome)
    requires bad.cssRules.None?
    ensures AuthoredRulesOf(e, a + [bad] + b, matches) == AuthoredRulesOf(e, a + b, matches)
  {
    MatchedSkipsUnreadable(a, bad, b, e, matches);
    MediaSkipsUnreadable(a, bad, b, e, matches);
  }

  /** The final `matchedRules`: exactly the matching top-level style rules, longest selector first, stable. */
  lemma AuthoredMatchedRules(e: Element, sheets: seq<StyleSheet>, matches: (Element, string) -> MatchOutcome)
    ensures var found := MatchedInSheets(sheets, e, matches);
            var sorted := AuthoredRulesOf(e, sheets, matches).matchedRules;
            && multiset(sorted) == multiset(found)
            && (forall r :: r in sorted <==> exists i, j :: MatchedAt(sheets, e, matches, i, j, r))
            && LongestFirst(sorted)
            && (forall n: nat :: WithLength(sorted, n) == WithLength(found, n))
  {
    var found := MatchedInSheets(sheets, e, matches);
    SortByLengthPermutes(found);
    SortByLengthLongestFirst(found);
    forall n: nat ensures WithLength(SortByLength(found), n) == WithLength(found, n) {
      SortByLengthStable(found, n);
    }
    forall r ensures r in SortByLength(found) <==> exists i, j :: MatchedAt(sheets, e, matches, i, j, r) {
      MatchedInSheetsMembers(sheets, e, matches, r);
      assert r in SortByLength(found) <==> r in multiset(SortByLength(found));
    }
  }
}
