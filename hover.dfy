/**
 * `getHoverStyles`: for every readable top-level style rule whose selector
 * contains `:hover` and whose text before the first `:hover` matches the
 * element, one entry per declaration with a non-empty value.
 */
module Hover {
  import opened Wrappers
  import opened Text
  import opened Cssom

  datatype HoverStyle = HoverStyle(property: string, value: string)

  const HoverPseudo: string := ":hover"

  /** The value as the hover list shows it: ` !important` is appended when the priority is set. */
  function HoverValue(d: Declaration): string {
    d.value + (if d.important then " !important" else "")
  }

  /** A rule whose selector names `:hover` and whose base selector (the text before the first `:hover`) matches `e`. */
  predicate HoverRuleApplies(rule: Rule, e: Element, matches: (Element, string) -> MatchOutcome) {
    && rule.StyleRule?
    && rule.selectorText != ""
    && Includes(rule.selectorText, HoverPseudo)
    && matches(e, BeforeFirst(rule.selectorText, HoverPseudo)) == Match
  }

  function HoverOfDeclaration(d: Declaration): seq<HoverStyle> {
    if d.value != "" then [HoverStyle(d.property, HoverValue(d))] else []
  }

  function HoverOfDeclarations(ds: seq<Declaration>): seq<HoverStyle> {
    if ds == [] then []
    else HoverOfDeclarations(ds[..|ds| - 1]) + HoverOfDeclaration(ds[|ds| - 1])
  }

  function HoverOfRule(rule: Rule, e: Element, matches: (Element, string) -> MatchOutcome): seq<HoverStyle> {
    if HoverRuleApplies(rule, e, matches) then HoverOfDeclarations(rule.declarations) else []
  }

  function HoverInRules(rules: seq<Rule>, e: Element, matches: (Element, string) -> MatchOutcome): seq<HoverStyle> {
    if rules == [] then []
    else HoverInRules(rules[..|rules| - 1], e, matches) + HoverOfRule(rules[|rules| - 1], e, matches)
  }

  function HoverInSheet(sheet: StyleSheet, e: Element, matches: (Element, string) -> MatchOutcome): seq<HoverStyle> {
    if sheet.cssRules.Some? then HoverInRules(sheet.cssRules.value, e, matches) else []
  }

  /** The hover styles of `e`, in sheet, rule and declaration order. */
  function HoverStyles(sheets: seq<StyleSheet>, e: Element, matches: (Element, string) -> MatchOutcome): seq<HoverStyle> {
    if sheets == [] then []
    else HoverStyles(sheets[..|sheets| - 1], e, matches) + HoverInSheet(sheets[|sheets| - 1], e, matches)
  }

  /** The declarations of one hover rule that have a value. */
  method HoverDeclarations(ds: seq<Declaration>) returns (found: seq<HoverStyle>)
    ensures found == HoverOfDeclarations(ds)
  {
    found := [];
    var i := 0;
    while i < |ds|
      invariant 0 <= i <= |ds|
      invariant found == HoverOfDeclarations(ds[..i])
    {
      assert ds[..i + 1][..i] == ds[..i];
      var d := ds[i];
      if d.value != "" {
        found := found + [HoverStyle(d.property, d.value + (if d.important then " !important" else ""))];
      }
      i := i + 1;
    }
    assert ds[..i] == ds;
  }

  /** The hover styles from the rules of one readable sheet. */
  method HoverInSheetRules(rules: seq<Rule>, e: Element, matches: (Element, string) -> MatchOutcome) returns (found: seq<HoverStyle>)
    ensures found == HoverInRules(rules, e, matches)
  {
    found := [];
    var j := 0;
    while j < |rules|
      invariant 0 <= j <= |rules|
      invariant found == HoverInRules(rules[..j], e, matches)
    {
      assert rules[..j + 1][..j] == rules[..j];
      var rule := rules[j];
      if rule.StyleRule? && rule.selectorText != "" {
        var hoverSelector := rule.selectorText;
        if Includes(hoverSelector, HoverPseudo) {
          var baseSelector := BeforeFirst(hoverSelector, HoverPseudo);
          var outcome := matches(e, baseSelector);
          if outcome == Match {
            var fromRule := HoverDeclarations(rule.declarations);
            found := found + fromRule;
          }
        }
      }
      j := j + 1;
    }
    assert rules[..j] == rules;
  }

  /** `getHoverStyles`, sheet by sheet. */
  method GetHoverStyles(e: Element, sheets: seq<StyleSheet>, matches: (Element, string) -> MatchOutcome) returns (hoverStyles: seq<HoverStyle>)
    ensures hoverStyles == HoverStyles(sheets, e, matches)
  {
    hoverStyles := [];
    var i := 0;
    while i < |sheets|
      invariant 0 <= i <= |sheets|
      invariant hoverStyles == HoverStyles(sheets[..i], e, matches)
    {
      assert sheets[..i + 1][..i] == sheets[..i];
      var sheet := sheets[i];
      if sheet.cssRules.Some? {
        var fromSheet := HoverInSheetRules(sheet.cssRules.value, e, matches);
        hoverStyles := hoverStyles + fromSheet;
      }
      i := i + 1;
    }
    assert sheets[..i] == sheets;
  }

  // ---------------------------------------------------------------------------
  // What the extraction yields.
  // ---------------------------------------------------------------------------

  /** Declaration `k` of rule `j` of sheet `i` is a hover declaration of `e` with a value, and `h` is its entry. */
  ghost predicate HoverAt(sheets: seq<StyleSheet>, e: Element, matches: (Element, string) -> MatchOutcome, i: int, j: int, k: int, h: HoverStyle) {
    && 0 <= i < |sheets|
    && sheets[i].cssRules.Some?
    && 0 <= j < |sheets[i].cssRules.value|
    && var rule := sheets[i].cssRules.value[j];
       HoverRuleApplies(rule, e, matches)
       && 0 <= k < |rule.declarations|
       && rule.declarations[k].value != ""
       && h == HoverStyle(rule.declarations[k].property, HoverValue(rule.declarations[k]))
  }

  lemma {:induction false} HoverOfDeclarationsMembers(ds: seq<Declaration>, h: HoverStyle)
    ensures h in HoverOfDeclarations(ds) <==>
      exists k :: 0 <= k < |ds| && ds[k].value != "" && h == HoverStyle(ds[k].property, HoverValue(ds[k]))
  {
    if ds != [] {
      var pre := ds[..|ds| - 1];
      HoverOfDeclarationsMembers(pre, h);
      assert forall k :: 0 <= k < |pre| ==> pre[k] == ds[k];
    }
  }

  /** One entry per declaration with a value, in declaration order. */
  lemma {:induction false} HoverOfDeclarationsInOrder(ds: seq<Declaration>)
    ensures |HoverOfDeclarations(ds)| <= |ds|
    ensures (forall k :: 0 <= k < |ds| ==> ds[k].value != "") ==>
              HoverOfDeclarations(ds) == seq(|ds|, k requires 0 <= k < |ds| => HoverStyle(ds[k].property, HoverValue(ds[k])))
  {
    if ds != [] {
      var pre := ds[..|ds| - 1];
      HoverOfDeclarationsInOrder(pre);
      assert forall k :: 0 <= k < |pre| ==> pre[k] == ds[k];
    }
  }

  /** The entry every declaration would give, valued or not. */
  function AllHoverOf(ds: seq<Declaration>): seq<HoverStyle> {
    seq(|ds|, k requires 0 <= k < |ds| => HoverStyle(ds[k].property, HoverValue(ds[k])))
  }

  /** Whatever the values, the entries of a rule follow its declaration order, the valueless ones left out. */
  lemma {:induction false} HoverOfDeclarationsSubsequence(ds: seq<Declaration>)
    ensures Subsequence(HoverOfDeclarations(ds), AllHoverOf(ds))
  {
    if ds != [] {
      var pre, d := ds[..|ds| - 1], ds[|ds| - 1];
      HoverOfDeclarationsSubsequence(pre);
      var x := HoverStyle(d.property, HoverValue(d));
      assert AllHoverOf(ds) == AllHoverOf(pre) + [x];
      SubsequenceExtend(HoverOfDeclarations(pre), AllHoverOf(pre), x);
      if d.value == "" {
        assert HoverOfDeclarations(pre) + [] == HoverOfDeclarations(pre);
        assert HoverOfDeclarations(ds) == HoverOfDeclarations(pre);
      } else {
        assert HoverOfDeclarations(ds) == HoverOfDeclarations(pre) + [x];
      }
    }
  }

  /** Declaration `k` of rule `j` is a valued declaration of an applicable hover rule, and `h` is its entry. */
  ghost predicate HoverInRuleAt(rules: seq<Rule>, e: Element, matches: (Element, string) -> MatchOutcome, j: int, k: int, h: HoverStyle) {
    && 0 <= j < |rules| && HoverRuleApplies(rules[j], e, matches)
    && 0 <= k < |rules[j].declarations| && rules[j].declarations[k].value != ""
    && h == HoverStyle(rules[j].declarations[k].property, HoverValue(rules[j].declarations[k]))
  }

  lemma {:induction false} HoverInRulesMembers(rules: seq<Rule>, e: Element, matches: (Element, string) -> MatchOutcome, h: HoverStyle)
    ensures h in HoverInRules(rules, e, matches) <==> exists j, k :: HoverInRuleAt(rules, e, matches, j, k, h)
  {
    if rules != [] {
      var pre, last := rules[..|rules| - 1], rules[|rules| - 1];
      var n := |pre|;
      HoverInRulesMembers(pre, e, matches, h);
      assert forall j, k :: 0 <= j < n ==> (HoverInRuleAt(pre, e, matches, j, k, h) <==> HoverInRuleAt(rules, e, matches, j, k, h));
      if h in HoverOfRule(last, e, matches) {
        HoverOfDeclarationsMembers(last.declarations, h);
        var k :| 0 <= k < |last.declarations| && last.declarations[k].value != ""
                 && h == HoverStyle(last.declarations[k].property, HoverValue(last.declarations[k]));
        assert HoverInRuleAt(rules, e, matches, n, k, h);
      }
      if exists j, k :: HoverInRuleAt(rules, e, matches, j, k, h) {
        var j, k :| HoverInRuleAt(rules, e, matches, j, k, h);
        if j == n {
          HoverOfDeclarationsMembers(last.declarations, h);
          assert h in HoverOfRule(last, e, matches);
        } else {
          assert HoverInRuleAt(pre, e, matches, j, k, h);
        }
      }
    }
  }

  /** The hover list holds exactly the valued declarations of the applicable hover rules of the readable sheets. */
  lemma {:induction false} HoverStylesMembers(sheets: seq<StyleSheet>, e: Element, matches: (Element, string) -> MatchOutcome, h: HoverStyle)
    ensures h in HoverStyles(sheets, e, matches) <==> exists i, j, k :: HoverAt(sheets, e, matches, i, j, k, h)
  {
    if sheets != [] {
      var pre, last := sheets[..|sheets| - 1], sheets[|sheets| - 1];
      HoverStylesMembers(pre, e, matches, h);
      var n := |pre|;
      assert forall i, j, k :: 0 <= i < n ==> (HoverAt(pre, e, matches, i, j, k, h) <==> HoverAt(sheets, e, matches, i, j, k, h));
      if last.cssRules.Some? {
        var rules := last.cssRules.value;
        HoverInRulesMembers(rules, e, matches, h);
        if h in HoverInSheet(last, e, matches) {
          var j, k :| HoverInRuleAt(rules, e, matches, j, k, h);
          assert HoverAt(sheets, e, matches, n, j, k, h);
        }
      }
      if exists i, j, k :: HoverAt(sheets, e, matches, i, j, k, h) {
        var i, j, k :| HoverAt(sheets, e, matches, i, j, k, h);
        if i == n {
          assert HoverInRuleAt(last.cssRules.value, e, matches, j, k, h);
          assert h in HoverInSheet(last, e, matches);
        } else {
          assert HoverAt(pre, e, matches, i, j, k, h);
        }
      }
    }
  }

  /** A sheet holding `.btn:hover { color: red; }` gives one entry when `.btn` matches and none otherwise. */
  lemma ButtonHoverExample(e: Element, matches: (Element, string) -> MatchOutcome)
    ensures var rule := StyleRule(".btn:hover", "color: red;", [Declaration("color", "red", false)]);
            var sheets := [StyleSheet(None, Some("STYLE"), Some([rule]))];
            HoverStyles(sheets, e, matches) == (if matches(e, ".btn") == Match then [HoverStyle("color", "red")] else [])
  {
    var sel := ".btn:hover";
    assert OccursAt(sel, HoverPseudo, 4);
    forall j | 0 <= j < 4 ensures !OccursAt(sel, HoverPseudo, j) {
      assert sel[j..j + 6][0] == sel[j] != ':' == HoverPseudo[0];
    }
    assert IndexOf(sel, HoverPseudo) == Some(4);
    assert BeforeFirst(sel, HoverPseudo) == ".btn";
    var rule := StyleRule(".btn:hover", "color: red;", [Declaration("color", "red", false)]);
    var sheets := [StyleSheet(None, Some("STYLE"), Some([rule]))];
    assert [rule][..0] == [] && sheets[..0] == [];
    assert rule.declarations[..0] == [];
    var d := Declaration("color", "red", false);
    assert HoverValue(d) == "red" + "" == "red";
    assert HoverOfDeclaration(d) == [HoverStyle("color", "red")];
    assert HoverOfDeclarations(rule.declarations) == HoverOfDeclarations([]) + HoverOfDeclaration(d);
    assert HoverRuleApplies(rule, e, matches) <==> matches(e, ".btn") == Match;
    assert HoverInRules([rule], e, matches) == HoverOfRule(rule, e, matches);
    assert HoverStyles(sheets, e, matches) == HoverInSheet(sheets[0], e, matches);
  }
}
