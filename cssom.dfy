/**
 * The part of the page the inspector reads, with the browser abstracted away:
 * stylesheets and their rules as values, and the browser's answers (selector
 * matching, computed style) as functions supplied by the caller.
 */
module Cssom {
  import opened Wrappers

  /** What `element.matches(selector)` does: true, false, or throw (an invalid selector). */
  datatype MatchOutcome = Match | NoMatch | Throws

  /**
   * One entry of a rule's `style` declaration: the property name `style[i]`,
   * `style.getPropertyValue(name)` and whether `style.getPropertyPriority(name)` is set.
   */
  datatype Declaration = Declaration(property: string, value: string, important: bool)

  /**
   * A CSS rule: a style rule (its `selectorText`, the serialised `style.cssText` and
   * the individual declarations), a `@media` rule with its `media.mediaText` and its
   * inner rules, or any other kind of rule, which the inspector ignores.
   */
  datatype Rule =
    | StyleRule(selectorText: string, cssText: string, declarations: seq<Declaration>)
    | MediaRule(mediaText: string, cssRules: seq<Rule>)
    | OtherRule

  /**
   * A stylesheet: its `href`, the tag name of its owner node, and its rules;
   * `cssRules == None` when reading the rules throws (a cross-origin sheet) or
   * yields nothing.
   */
  datatype StyleSheet = StyleSheet(href: Option<string>, ownerTag: Option<string>, cssRules: Option<seq<Rule>>)

  /**
   * A page element as the inspector uses it: `tagName`, `id`, `className` (None
   * when it is not a string, as for SVG elements), the inline `style.cssText`, and
   * whether the element lies inside the inspector's popup or its control bar.
   */
  datatype Element = Element(
    tagName: string,
    id: string,
    className: Option<string>,
    inlineStyle: string,
    inPopup: bool,
    inControlBar: bool)

  /** The sheets, matching and computed style of the page being inspected. */
  datatype Page = Page(
    sheets: seq<StyleSheet>,
    matches: (Element, string) -> MatchOutcome,
    computedStyleAvailable: bool,
    computedValue: (Element, string) -> string)

  /** JavaScript truthiness of an optional string: present and non-empty. */
  predicate Truthy(s: Option<string>) {
    s.Some? && s.value != ""
  }

  /** The rules of a sheet that can be read; a sheet that cannot contributes none. */
  function ReadableRules(sheet: StyleSheet): seq<Rule> {
    if sheet.cssRules.Some? then sheet.cssRules.value else []
  }
}
