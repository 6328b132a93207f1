/**
 * What the inspector shows and copies for an element: the display label
 * (`div#main.card .wide`), the copy text of the Styles tab (a header, the inline
 * block, the matched rules, the media blocks and example hover lines, trimmed),
 * the copy text of the Computed tab, and the data of each tab.
 */
module CopyText {
  import opened Wrappers
  import opened Text
  import opened Cssom
  import opened Authored
  import opened Hover
  import opened Computed

  /** Class names with this prefix belong to the inspector's own UI and are not shown. */
  const InspectorPrefix: string := "css-inspector"

  predicate KeepClass(c: string) {
    c != "" && !StartsWith(c, InspectorPrefix)
  }

  /** The class names shown in the label, in the order of the class attribute. */
  function KeptClasses(parts: seq<string>): seq<string> {
    if parts == [] then []
    else
      var c := parts[|parts| - 1];
      KeptClasses(parts[..|parts| - 1]) + (if KeepClass(c) then [c] else [])
  }

  /** The class part of the label; present whenever `className` is a non-empty string. */
  function ClassSuffix(className: Option<string>): string {
    if Truthy(className) then "." + Join(KeptClasses(Split(className.value, ' ')), " .") else ""
  }

  /** The label: lower-case tag name, `#id` when there is an id, then the class part. */
  function SelectorForDisplay(e: Element): string {
    ToLower(e.tagName) + (if e.id != "" then "#" + e.id else "") + ClassSuffix(e.className)
  }

  /** A class is shown exactly when it is one of the pieces and is neither empty nor the inspector's own. */
  lemma {:induction false} KeptClassesMembers(parts: seq<string>, c: string)
    ensures c in KeptClasses(parts) <==> c in parts && KeepClass(c)
  {
    if parts != [] {
      var pre := parts[..|parts| - 1];
      KeptClassesMembers(pre, c);
      assert parts == pre + [parts[|parts| - 1]];
    }
  }

  lemma {:induction false} KeptClassesNone(parts: seq<string>)
    requires forall k :: 0 <= k < |parts| ==> !KeepClass(parts[k])
    ensures KeptClasses(parts) == []
  {
    if parts != [] {
      KeptClassesNone(parts[..|parts| - 1]);
    }
  }

  /** When every class is filtered out, the label still ends in a lone dot. */
  lemma AllClassesFilteredLeavesDot(className: string)
    requires className != ""
    requires forall c :: c in Split(className, ' ') ==> !KeepClass(c)
    ensures ClassSuffix(Some(className)) == "."
  {
    var parts := Split(className, ' ');
    assert forall k :: 0 <= k < |parts| ==> parts[k] in parts;
    KeptClassesNone(parts);
  }

  /** Each shown class prefixed by a dot. */
  function Dotted(classes: seq<string>): seq<string> {
    seq(|classes|, k requires 0 <= k < |classes| => "." + classes[k])
  }

  lemma {:induction false} DotJoin(classes: seq<string>)
    requires |classes| >= 1
    ensures "." + Join(classes, " .") == Join(Dotted(classes), " ")
  {
    if |classes| > 1 {
      DotJoin(classes[1..]);
      assert Dotted(classes)[1..] == Dotted(classes[1..]);
      assert Join(classes, " .") == classes[0] + " ." + Join(classes[1..], " .");
      assert Join(Dotted(classes), " ") == "." + classes[0] + " " + Join(Dotted(classes[1..]), " ");
    }
  }

  /**
   * The class part, split at its spaces again, is the list of shown classes,
   * each with a dot in front and in the order of the class attribute.
   */
  lemma ClassSuffixTokens(className: string)
    requires className != "" && KeptClasses(Split(className, ' ')) != []
    ensures Split(ClassSuffix(Some(className)), ' ') == Dotted(KeptClasses(Split(className, ' ')))
  {
    var kept := KeptClasses(Split(className, ' '));
    DotJoin(kept);
    forall k | 0 <= k < |kept|
      ensures ' ' !in Dotted(kept)[k]
    {
      KeptClassesMembers(Split(className, ' '), kept[k]);
      assert Dotted(kept)[k] == "." + kept[k];
    }
    SplitJoin(Dotted(kept), ' ');
  }

  /** The label starts with the lower-cased tag name, so it is never `N/A` for an element with a tag. */
  lemma LabelNeverNA(e: Element)
    requires e.tagName != ""
    ensures StartsWith(SelectorForDisplay(e), ToLower(e.tagName))
    ensures SelectorForDisplay(e) != "N/A"
  {
    var name := SelectorForDisplay(e);
    assert name[..|e.tagName|] == ToLower(e.tagName);
    assert name[0] == LowerChar(e.tagName[0]);
  }

  // ----- the Styles copy text -----

  function AuthoredHeader(name: string): string {
    "/* Authored for: " + name + " */\n"
  }

  /** The `[style]` block, present exactly when the element has inline CSS. */
  function InlineBlock(inlineStyle: Option<string>): string {
    if Truthy(inlineStyle) then "[style] {\n  " + ReplaceSemicolons(inlineStyle.value, "  ") + "}\n\n" else ""
  }

  function RuleBlock(r: MatchedRule): string {
    r.selectorText + " {\n  " + ReplaceSemicolons(r.cssText, "  ") + "}\n\n"
  }

  function MediaBlock(r: MediaQueryRule): string {
    "@media " + r.mediaCondition + " {\n  " + r.selectorText + " {\n    " + ReplaceSemicolons(r.cssText, "    ") + "}\n}\n\n"
  }

  function HoverLine(name: string, h: HoverStyle): string {
    name + ":hover { " + h.property + ": " + h.value + "; }\n"
  }

  /** The blocks of `xs`, one after another. */
  function Blocks<T>(xs: seq<T>, block: T -> string): string {
    if xs == [] then "" else Blocks(xs[..|xs| - 1], block) + block(xs[|xs| - 1])
  }

  function HoverLineOf(name: string): HoverStyle -> string {
    h => HoverLine(name, h)
  }

  /** The hover section, present exactly when there are hover entries. */
  function HoverSection(name: string, hs: seq<HoverStyle>): string {
    if |hs| > 0 then "/* Hover Styles (example) */\n" + Blocks(hs, HoverLineOf(name)) else ""
  }

  /** The Styles copy text before trimming. */
  function AuthoredRaw(name: string, ar: AuthoredRules, hs: seq<HoverStyle>): string {
    AuthoredHeader(name) + InlineBlock(ar.inlineStyle) + Blocks(ar.matchedRules, RuleBlock)
    + Blocks(ar.mediaQueryRules, MediaBlock) + HoverSection(name, hs)
  }

  function AuthoredCopyText(name: string, ar: AuthoredRules, hs: seq<HoverStyle>): string {
    Trim(AuthoredRaw(name, ar, hs))
  }

  /** The serialiser of the Styles tab, accumulating the text block by block. */
  method BuildAuthoredCopyText(name: string, ar: AuthoredRules, hs: seq<HoverStyle>) returns (text: string)
    ensures text == AuthoredCopyText(name, ar, hs)
  {
    var raw := StartAuthoredText(name, ar.inlineStyle);
    raw := AppendRuleBlocks(raw, ar.matchedRules);
    raw := AppendMediaBlocks(raw, ar.mediaQueryRules);
    raw := AppendHoverSection(raw, name, hs);
    text := Trim(raw);
  }

  /** The header, then the inline block when there is inline CSS. */
  method StartAuthoredText(name: string, inlineStyle: Option<string>) returns (raw: string)
    ensures raw == AuthoredHeader(name) + InlineBlock(inlineStyle)
  {
    raw := "/* Authored for: " + name + " */\n";
    if inlineStyle.Some? && inlineStyle.value != "" {
      raw := raw + "[style] {\n  " + ReplaceSemicolons(inlineStyle.value, "  ") + "}\n\n";
    }
  }

  method AppendHoverSection(raw0: string, name: string, hs: seq<HoverStyle>) returns (raw: string)
    ensures raw == raw0 + HoverSection(name, hs)
  {
    raw := raw0;
    if |hs| > 0 {
      raw := raw + "/* Hover Styles (example) */\n";
      raw := AppendHoverLines(raw, name, hs);
    }
  }

  method AppendRuleBlocks(raw0: string, rules: seq<MatchedRule>) returns (raw: string)
    ensures raw == raw0 + Blocks(rules, RuleBlock)
  {
    raw := raw0;
    var i := 0;
    while i < |rules|
      invariant 0 <= i <= |rules|
      invariant raw == raw0 + Blocks(rules[..i], RuleBlock)
    {
      assert rules[..i + 1][..i] == rules[..i];
      var rule := rules[i];
      raw := raw + (rule.selectorText + " {\n  " + ReplaceSemicolons(rule.cssText, "  ") + "}\n\n");
      i := i + 1;
    }
    assert rules[..i] == rules;
  }

  method AppendMediaBlocks(raw0: string, rules: seq<MediaQueryRule>) returns (raw: string)
    ensures raw == raw0 + Blocks(rules, MediaBlock)
  {
    raw := raw0;
    var i := 0;
    while i < |rules|
      invariant 0 <= i <= |rules|
      invariant raw == raw0 + Blocks(rules[..i], MediaBlock)
    {
      assert rules[..i + 1][..i] == rules[..i];
      var rule := rules[i];
      raw := raw + ("@media " + rule.mediaCondition + " {\n  " + rule.selectorText + " {\n    "
        + ReplaceSemicolons(rule.cssText, "    ") + "}\n}\n\n");
      i := i + 1;
    }
    assert rules[..i] == rules;
  }

  method AppendHoverLines(raw0: string, name: string, hs: seq<HoverStyle>) returns (raw: string)
    ensures raw == raw0 + Blocks(hs, HoverLineOf(name))
  {
    raw := raw0;
    var i := 0;
    while i < |hs|
      invariant 0 <= i <= |hs|
      invariant raw == raw0 + Blocks(hs[..i], HoverLineOf(name))
    {
      assert hs[..i + 1][..i] == hs[..i];
      raw := raw + name + ":hover { " + hs[i].property + ": " + hs[i].value + "; }\n";
      i := i + 1;
    }
    assert hs[..i] == hs;
  }

  lemma {:induction false} BlocksAppend<T>(a: seq<T>, b: seq<T>, block: T -> string)
    ensures Blocks(a + b, block) == Blocks(a, block) + Blocks(b, block)
    decreases |b|
  {
    if b == [] {
      assert a + b == a;
    } else {
      var b', last := b[..|b| - 1], b[|b| - 1];
      assert a + b == (a + b') + [last];
      assert b == b' + [last];
      BlocksLast(a + b', last, block);
      BlocksLast(b', last, block);
      BlocksAppend(a, b', block);
    }
  }

  lemma BlocksLast<T>(a: seq<T>, last: T, block: T -> string)
    ensures Blocks(a + [last], block) == Blocks(a, block) + block(last)
  {
    assert (a + [last])[..|a|] == a;
  }

  /**
   * Block `k` appears whole in the text, right after the blocks before it, so the
   * blocks keep the order of their list.
   */
  lemma BlocksInOrder<T>(xs: seq<T>, block: T -> string, k: nat)
    requires k < |xs|
    ensures OccursAt(Blocks(xs, block), block(xs[k]), |Blocks(xs[..k], block)|)
    ensures |Blocks(xs[..k], block)| + |block(xs[k])| == |Blocks(xs[..k + 1], block)|
  {
    assert xs == xs[..k + 1] + xs[k + 1..];
    assert xs[..k + 1][..k] == xs[..k];
    BlocksAppend(xs[..k + 1], xs[k + 1..], block);
  }

  /**
   * The copy text is the raw text with only trailing white space dropped, and it
   * starts with the `/* Authored for: label */` header; in particular it is never empty.
   */
  lemma AuthoredCopyTextShape(name: string, ar: AuthoredRules, hs: seq<HoverStyle>)
    ensures StartsWith(AuthoredCopyText(name, ar, hs), "/* Authored for: " + name + " */")
    ensures var raw, text := AuthoredRaw(name, ar, hs), AuthoredCopyText(name, ar, hs);
      text == raw[..|text|] && AllSpace(raw[|text|..])
  {
    var h := "/* Authored for: " + name + " */";
    var raw := AuthoredRaw(name, ar, hs);
    assert raw == h + raw[|h|..];
    TrimKeepsPrefix(h, raw[|h|..]);
    assert TrimStart(raw) == raw;
  }

  /** Where the blocks of matched rule `k` and of media rule `m` start in the raw text. */
  function RulePosition(name: string, ar: AuthoredRules, k: nat): nat
    requires k <= |ar.matchedRules|
  {
    |AuthoredHeader(name) + InlineBlock(ar.inlineStyle)| + |Blocks(ar.matchedRules[..k], RuleBlock)|
  }

  function MediaPosition(name: string, ar: AuthoredRules, m: nat): nat
    requires m <= |ar.mediaQueryRules|
  {
    |AuthoredHeader(name) + InlineBlock(ar.inlineStyle)| + |Blocks(ar.matchedRules, RuleBlock)|
    + |Blocks(ar.mediaQueryRules[..m], MediaBlock)|
  }

  /**
   * Matched rule `k` and media rule `m` both appear whole in the raw text, in
   * list order, every matched rule before every media rule.
   */
  lemma MatchedBeforeMedia(name: string, ar: AuthoredRules, hs: seq<HoverStyle>, k: nat, m: nat)
    requires k < |ar.matchedRules| && m < |ar.mediaQueryRules|
    ensures OccursAt(AuthoredRaw(name, ar, hs), RuleBlock(ar.matchedRules[k]), RulePosition(name, ar, k))
    ensures OccursAt(AuthoredRaw(name, ar, hs), MediaBlock(ar.mediaQueryRules[m]), MediaPosition(name, ar, m))
    ensures RulePosition(name, ar, k) + |RuleBlock(ar.matchedRules[k])| == RulePosition(name, ar, k + 1)
    ensures RulePosition(name, ar, k + 1) <= MediaPosition(name, ar, m)
  {
    RuleOccurs(name, ar, hs, k);
    RuleEnds(name, ar, k);
    MediaOccurs(name, ar, hs, m);
    PrefixBlocksShorter(ar.matchedRules, RuleBlock, k + 1);
  }

  lemma RuleOccurs(name: string, ar: AuthoredRules, hs: seq<HoverStyle>, k: nat)
    requires k < |ar.matchedRules|
    ensures OccursAt(AuthoredRaw(name, ar, hs), RuleBlock(ar.matchedRules[k]), RulePosition(name, ar, k))
  {
    BlocksInOrder(ar.matchedRules, RuleBlock, k);
    OccursInside(AuthoredHeader(name) + InlineBlock(ar.inlineStyle), Blocks(ar.matchedRules, RuleBlock),
      Blocks(ar.mediaQueryRules, MediaBlock) + HoverSection(name, hs),
      RuleBlock(ar.matchedRules[k]), |Blocks(ar.matchedRules[..k], RuleBlock)|);
  }

  lemma RuleEnds(name: string, ar: AuthoredRules, k: nat)
    requires k < |ar.matchedRules|
    ensures RulePosition(name, ar, k) + |RuleBlock(ar.matchedRules[k])| == RulePosition(name, ar, k + 1)
  {
    BlocksInOrder(ar.matchedRules, RuleBlock, k);
  }

  lemma MediaOccurs(name: string, ar: AuthoredRules, hs: seq<HoverStyle>, m: nat)
    requires m < |ar.mediaQueryRules|
    ensures OccursAt(AuthoredRaw(name, ar, hs), MediaBlock(ar.mediaQueryRules[m]), MediaPosition(name, ar, m))
  {
    BlocksInOrder(ar.mediaQueryRules, MediaBlock, m);
    OccursInside(AuthoredHeader(name) + InlineBlock(ar.inlineStyle) + Blocks(ar.matchedRules, RuleBlock),
      Blocks(ar.mediaQueryRules, MediaBlock), HoverSection(name, hs),
      MediaBlock(ar.mediaQueryRules[m]), |Blocks(ar.mediaQueryRules[..m], MediaBlock)|);
  }

  lemma PrefixBlocksShorter<T>(xs: seq<T>, block: T -> string, n: nat)
    requires n <= |xs|
    ensures |Blocks(xs[..n], block)| <= |Blocks(xs, block)|
  {
    assert xs == xs[..n] + xs[n..];
    BlocksAppend(xs[..n], xs[n..], block);
  }

  /** The browser's `style.cssText` for a list of `name: value` declarations. */
  function CssTextOf(decls: seq<string>): string {
    if |decls| == 0 then ""
    else if |decls| == 1 then decls[0] + ";"
    else decls[0] + "; " + CssTextOf(decls[1..])
  }

  /** The declarations one per line, each followed by a line break and the indent. */
  function DeclarationLines(decls: seq<string>, indent: string): string {
    if decls == [] then "" else decls[0] + ";\n" + indent + DeclarationLines(decls[1..], indent)
  }

  /** A declaration the way the browser writes it: no `;`, and no white space at its start. */
  predicate PlainDeclaration(d: string) {
    d != "" && ';' !in d && !IsSpace(d[0])
  }

  /** The `;\s*` rewrite puts each declaration of a serialised style on its own line, indented. */
  lemma {:induction false} SemicolonsBreakLines(decls: seq<string>, indent: string)
    requires forall k :: 0 <= k < |decls| ==> PlainDeclaration(decls[k])
    ensures ReplaceSemicolons(CssTextOf(decls), indent) == DeclarationLines(decls, indent)
  {
    if |decls| == 1 {
      LastDeclarationLine(decls[0], indent);
    } else if |decls| > 1 {
      SemicolonsBreakLines(decls[1..], indent);
      NextDeclarationLine(decls[0], CssTextOf(decls[1..]), indent);
    }
  }

  lemma LastDeclarationLine(d: string, indent: string)
    requires ';' !in d
    ensures ReplaceSemicolons(d + ";", indent) == d + ";\n" + indent
  {
    ReplaceSemicolonsPlain(d, ";", indent);
    assert ReplaceSemicolons(";", indent) == ";\n" + indent + ReplaceSemicolons(TrimStart(""), indent);
  }

  lemma NextDeclarationLine(d: string, rest: string, indent: string)
    requires ';' !in d && rest != [] && !IsSpace(rest[0])
    ensures ReplaceSemicolons(d + "; " + rest, indent) == d + ";\n" + indent + ReplaceSemicolons(rest, indent)
  {
    assert d + "; " + rest == d + ("; " + rest);
    ReplaceSemicolonsPlain(d, "; " + rest, indent);
    SemicolonBreak(rest, indent);
    assert d + (";\n" + indent + ReplaceSemicolons(rest, indent)) == d + ";\n" + indent + ReplaceSemicolons(rest, indent);
  }

  /** A semicolon and the space after it become a line break and the indent. */
  lemma SemicolonBreak(rest: string, indent: string)
    requires rest != [] && !IsSpace(rest[0])
    ensures ReplaceSemicolons("; " + rest, indent) == ";\n" + indent + ReplaceSemicolons(rest, indent)
  {
    assert ("; " + rest)[1..] == " " + rest;
    assert (" " + rest)[1..] == rest;
    assert TrimStart(" " + rest) == rest;
  }

  /** A matched rule whose style the browser serialised from plain declarations is copied one declaration per line. */
  lemma RuleBlockLayout(r: MatchedRule, decls: seq<string>)
    requires forall k :: 0 <= k < |decls| ==> PlainDeclaration(decls[k])
    requires r.cssText == CssTextOf(decls)
    ensures RuleBlock(r) == r.selectorText + " {\n  " + DeclarationLines(decls, "  ") + "}\n\n"
  {
    SemicolonsBreakLines(decls, "  ");
  }

  // ----- the Computed copy text and the data of every tab -----

  function ComputedCopyText(name: string, cssData: string): string {
    "/* Computed for: " + name + " */\n" + cssData
  }

  datatype Tab = StylesTab | ComputedTab | SourcesTab

  /** The data a tab renders from: nothing, the computed lines, or the authored rules. */
  datatype CssData = NoCssData | ComputedCss(text: string) | AuthoredCss(rules: AuthoredRules)

  datatype InspectedData = InspectedData(selectorForDisplay: string, cssData: CssData, rawCssToCopy: string)

  const NothingToCopy: string := "Nothing to copy."
  const SourcesCopyText: string := "List of page stylesheets."

  /** The computed lines of an element, joined by line breaks. */
  function ComputedText(e: Element, page: Page): string {
    Join(Lines(Snapshot(ImportantProperties, e, page.computedValue)), "\n")
  }

  /** What a tab shows and copies for the element under inspection (none, or one without a tag). */
  function InspectedElementData(tab: Tab, element: Option<Element>, page: Page): InspectedData {
    var known := element.Some? && element.value.tagName != "";
    var name := if known then SelectorForDisplay(element.value) else "N/A";
    if !known && tab != SourcesTab then InspectedData(name, NoCssData, NothingToCopy)
    else
      match tab
      case ComputedTab =>
        if !page.computedStyleAvailable then InspectedData(name, NoCssData, NothingToCopy)
        else
          var text := ComputedText(element.value, page);
          InspectedData(name, ComputedCss(text), ComputedCopyText(name, text))
      case StylesTab =>
        var ar := AuthoredRulesOf(element.value, page.sheets, page.matches);
        InspectedData(name, AuthoredCss(ar), AuthoredCopyText(name, ar, HoverStyles(page.sheets, element.value, page.matches)))
      case SourcesTab => InspectedData(name, NoCssData, SourcesCopyText)
  }

  /** The same, computed by running the collectors and the serialisers. */
  method GetInspectedElementData(tab: Tab, element: Option<Element>, page: Page) returns (data: InspectedData)
    ensures data == InspectedElementData(tab, element, page)
  {
    data := InspectedData("N/A", NoCssData, NothingToCopy);
    if element.Some? && element.value.tagName != "" {
      data := data.(selectorForDisplay := SelectorForDisplay(element.value));
    } else if tab != SourcesTab {
      return;
    }
    if tab == ComputedTab {
      if !page.computedStyleAvailable {
        return;
      }
      var cssLines := ComputedCssLines(ImportantProperties, element.value, page.computedValue);
      var text := Join(cssLines, "\n");
      data := data.(cssData := ComputedCss(text), rawCssToCopy := "/* Computed for: " + data.selectorForDisplay + " */\n" + text);
    } else if tab == StylesTab {
      var ar := GetAuthoredRules(element.value, page.sheets, page.matches);
      var hs := GetHoverStyles(element.value, page.sheets, page.matches);
      var text := BuildAuthoredCopyText(data.selectorForDisplay, ar, hs);
      data := data.(cssData := AuthoredCss(ar), rawCssToCopy := text);
    } else {
      data := data.(rawCssToCopy := SourcesCopyText);
    }
  }

  /** On the Styles tab the data carries the label and the authored rules of the element. */
  lemma StylesTabData(e: Element, page: Page)
    requires e.tagName != ""
    ensures InspectedElementData(StylesTab, Some(e), page).selectorForDisplay == SelectorForDisplay(e)
    ensures InspectedElementData(StylesTab, Some(e), page).cssData == AuthoredCss(AuthoredRulesOf(e, page.sheets, page.matches))
  {
  }

  /** There is always something to copy, and the label is `N/A` exactly when there is no element with a tag. */
  lemma InspectedDataCopyable(tab: Tab, element: Option<Element>, page: Page)
    ensures InspectedElementData(tab, element, page).rawCssToCopy != ""
    ensures (InspectedElementData(tab, element, page).selectorForDisplay == "N/A")
      <==> !(element.Some? && element.value.tagName != "")
  {
    if element.Some? && element.value.tagName != "" {
      LabelNeverNA(element.value);
      if tab == StylesTab {
        var ar := AuthoredRulesOf(element.value, page.sheets, page.matches);
        AuthoredCopyTextShape(SelectorForDisplay(element.value), ar, HoverStyles(page.sheets, element.value, page.matches));
      }
    }
  }
}
